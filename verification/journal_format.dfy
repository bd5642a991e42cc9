/** The on-disk form of a journal transaction: descriptor chain, data blocks, commit block. */
module JournalFormat {
  import opened Bytes
  import opened Device

  const MAGIC: U32 := 0xC03B3998
  const DESCRIPTOR: U32 := 1
  const COMMIT: U32 := 2

  const COUNT_OFFSET: nat := 12
  const FIRST_TAGS: nat := 16
  const OTHER_TAGS: nat := 12
  const FIRST_CAPACITY: nat := 1020  // (BLOCK_SIZE - FIRST_TAGS) / 4
  const OTHER_CAPACITY: nat := 1021  // (BLOCK_SIZE - OTHER_TAGS) / 4

  /** One block for up to FIRST_CAPACITY addresses, one more for each further OTHER_CAPACITY or part of it. */
  function DescriptorBlocksFor(blocks: nat): (n: nat)
    ensures n >= 1
  {
    if blocks <= FIRST_CAPACITY then 1 else 1 + OtherBlocksFor(blocks - FIRST_CAPACITY)
  }

  function OtherBlocksFor(remaining: nat): nat {
    if remaining <= OTHER_CAPACITY then 1 else 1 + OtherBlocksFor(remaining - OTHER_CAPACITY)
  }

  /** The rounded-up division that the engine computes. */
  lemma {:induction false} DescriptorBlocksByDivision(blocks: nat)
    requires blocks > FIRST_CAPACITY
    ensures DescriptorBlocksFor(blocks) == 1 + (blocks - FIRST_CAPACITY + OTHER_CAPACITY - 1) / OTHER_CAPACITY
  {
    var r := blocks - FIRST_CAPACITY;
    if r > OTHER_CAPACITY {
      DescriptorBlocksByDivision(blocks - OTHER_CAPACITY);
    }
  }

  // ---------------------------------------------------------------- headers

  datatype Header = Header(magic: U32, kind: U32, sequence: U32)

  function EncodeHeader(h: Header, buf: seq<Byte>): (r: seq<Byte>)
    requires |buf| >= 12
    ensures |r| == |buf|
  {
    PutBE32(PutBE32(PutBE32(buf, 0, h.magic), 4, h.kind), 8, h.sequence)
  }

  function DecodeHeader(buf: seq<Byte>): Header
    requires |buf| >= 12
  {
    Header(GetBE32(buf, 0), GetBE32(buf, 4), GetBE32(buf, 8))
  }

  lemma HeaderRoundTrip(h: Header, buf: seq<Byte>)
    requires |buf| >= 12
    ensures DecodeHeader(EncodeHeader(h, buf)) == h
    ensures forall q :: 12 <= q < |buf| ==> EncodeHeader(h, buf)[q] == buf[q]
  {
    var b1 := PutBE32(buf, 0, h.magic);
    var b2 := PutBE32(b1, 4, h.kind);
    BE32RoundTrip(buf, 0, h.magic);
    BE32RoundTrip(b1, 4, h.kind);
    BE32RoundTrip(b2, 8, h.sequence);
  }

  /** A zero block with a journal header at its front. */
  function HeaderBlock(kind: U32, sequence: U32): Block {
    EncodeHeader(Header(MAGIC, kind, sequence), Zero())
  }

  predicate IsDescriptor(blk: Block) {
    var h := DecodeHeader(blk);
    h.magic == MAGIC && h.kind == DESCRIPTOR
  }

  predicate IsCommitOf(blk: Block, sequence: U32) {
    DecodeHeader(blk) == Header(MAGIC, COMMIT, sequence)
  }

  lemma ZeroIsNotDescriptor()
    ensures !IsDescriptor(Zero()) && forall s :: !IsCommitOf(Zero(), s)
  {
    assert GetBE32(Zero(), 0) == 0;
  }

  // ---------------------------------------------------------------- transactions

  datatype TxBlock = TxBlock(addr: U32, data: Block)
  datatype Tx = Tx(sequence: U32, blocks: seq<TxBlock>)

  /** A running checksum: the next value from the value so far and one more block. */
  type Crc = (U32, Block) -> U32

  function Checksum(crc: Crc, blocks: seq<Block>): U32 {
    if blocks == [] then 0 else crc(Checksum(crc, blocks[..|blocks| - 1]), blocks[|blocks| - 1])
  }

  /** The values of the running checksum: 0 before the first block, then one value more for each block. */
  ghost predicate RunningSums(crc: Crc, blocks: seq<Block>, sums: seq<U32>) {
    && |sums| == |blocks| + 1 && sums[0] == 0
    && forall i :: 0 <= i < |blocks| ==> sums[i + 1] == crc(sums[i], blocks[i])
  }

  /** Taking in the blocks of a and b side by side, the checksum never maps two different states and blocks to one
      value. */
  ghost predicate NoCollision(crc: Crc, a: seq<Block>, b: seq<Block>) {
    && |a| == |b|
    && forall s, t :: RunningSums(crc, a, s) && RunningSums(crc, b, t) ==>
         forall i :: 0 <= i < |a| && crc(s[i], a[i]) == crc(t[i], b[i]) ==> s[i] == t[i] && a[i] == b[i]
  }

  /** The checksum is the last of the running values, so it takes in every block. */
  lemma {:induction false} ChecksumIsLastSum(crc: Crc, blocks: seq<Block>, sums: seq<U32>)
    requires RunningSums(crc, blocks, sums)
    ensures Checksum(crc, blocks) == sums[|blocks|]
  {
    if blocks != [] {
      var n := |blocks| - 1;
      ChecksumIsLastSum(crc, blocks[..n], sums[..n + 1]);
      assert sums[n + 1] == crc(sums[n], blocks[n]);
    }
  }

  lemma {:induction false} SomeSums(crc: Crc, blocks: seq<Block>) returns (sums: seq<U32>)
    ensures RunningSums(crc, blocks, sums)
  {
    if blocks == [] {
      sums := [0];
    } else {
      var n := |blocks| - 1;
      var front := SomeSums(crc, blocks[..n]);
      sums := front + [crc(front[n], blocks[n])];
      forall i | 0 <= i < |blocks| ensures sums[i + 1] == crc(sums[i], blocks[i]) {
        if i < n { assert front[i + 1] == crc(front[i], blocks[..n][i]); }
      }
    }
  }

  lemma {:induction false} EqualSums(crc: Crc, a: seq<Block>, b: seq<Block>, s: seq<U32>, t: seq<U32>, n: nat)
    requires NoCollision(crc, a, b) && RunningSums(crc, a, s) && RunningSums(crc, b, t) && n <= |a| && s[n] == t[n]
    ensures a[..n] == b[..n]
  {
    if n > 0 {
      assert crc(s[n - 1], a[n - 1]) == s[n] == crc(t[n - 1], b[n - 1]);
      EqualSums(crc, a, b, s, t, n - 1);
    }
  }

  /** Where the checksum's steps do not collide, equal checksums mean equal blocks, all of them. */
  lemma ChecksumSeparates(crc: Crc, a: seq<Block>, b: seq<Block>)
    requires NoCollision(crc, a, b) && Checksum(crc, a) == Checksum(crc, b)
    ensures a == b
  {
    hide NoCollision, RunningSums, Checksum;
    var s := SomeSums(crc, a);
    var t := SomeSums(crc, b);
    ChecksumIsLastSum(crc, a, s);
    ChecksumIsLastSum(crc, b, t);
    SumsLength(crc, a, b, s, t);
    EqualSums(crc, a, b, s, t, |a|);
    assert a[..|a|] == a && b[..|a|] == b;
  }

  lemma SumsLength(crc: Crc, a: seq<Block>, b: seq<Block>, s: seq<U32>, t: seq<U32>)
    requires NoCollision(crc, a, b) && RunningSums(crc, a, s) && RunningSums(crc, b, t)
    ensures |a| == |b| && |s| == |t| == |a| + 1
  {
  }

  function Addrs(blocks: seq<TxBlock>): (r: seq<U32>)
    ensures |r| == |blocks|
  {
    seq(|blocks|, i requires 0 <= i < |blocks| => blocks[i].addr)
  }

  function Datas(blocks: seq<TxBlock>): (r: seq<Block>)
    ensures |r| == |blocks|
  {
    seq(|blocks|, i requires 0 <= i < |blocks| => blocks[i].data)
  }

  // ---------------------------------------------------------------- descriptor packing

  /** Index of the first address that descriptor block d carries. */
  function ChunkStart(d: nat): nat {
    if d == 0 then 0 else FIRST_CAPACITY + (d - 1) * OTHER_CAPACITY
  }

  function TagsOffset(d: nat): nat { if d == 0 then FIRST_TAGS else OTHER_TAGS }

  /** Big-endian words written one after the other from pos. */
  function PutTags(b: seq<Byte>, pos: nat, addrs: seq<U32>): (r: seq<Byte>)
    requires pos + 4 * |addrs| <= |b|
    ensures |r| == |b|
  {
    if addrs == [] then b
    else
      var n := |addrs| - 1;
      PutBE32(PutTags(b, pos, addrs[..n]), pos + 4 * n, addrs[n])
  }

  lemma {:induction false} PutTagsRoundTrip(b: seq<Byte>, pos: nat, addrs: seq<U32>, k: nat)
    requires pos + 4 * |addrs| <= |b| && k < |addrs|
    ensures GetBE32(PutTags(b, pos, addrs), pos + 4 * k) == addrs[k]
  {
    var n := |addrs| - 1;
    BE32RoundTrip(PutTags(b, pos, addrs[..n]), pos + 4 * n, addrs[n]);
    if k < n {
      PutTagsRoundTrip(b, pos, addrs[..n], k);
    }
  }

  lemma {:induction false} PutTagsFrame(b: seq<Byte>, pos: nat, addrs: seq<U32>, q: nat)
    requires pos + 4 * |addrs| <= |b| && q + 4 <= pos <= |b|
    ensures GetBE32(PutTags(b, pos, addrs), q) == GetBE32(b, q)
  {
    if addrs != [] {
      var n := |addrs| - 1;
      PutTagsFrame(b, pos, addrs[..n], q);
      BE32RoundTrip(PutTags(b, pos, addrs[..n]), pos + 4 * n, addrs[n]);
    }
  }

  /** The part of the address list that descriptor block d carries. */
  function Chunk(addrs: seq<U32>, d: nat): (r: seq<U32>)
    requires ChunkStart(d) <= |addrs|
    ensures |r| <= if d == 0 then FIRST_CAPACITY else OTHER_CAPACITY
  {
    addrs[ChunkStart(d)..Min(|addrs|, ChunkStart(d + 1))]
  }

  function DescriptorBase(sequence: U32, total: U32, d: nat): Block {
    if d == 0 then PutBE32(HeaderBlock(DESCRIPTOR, sequence), COUNT_OFFSET, total)
    else HeaderBlock(DESCRIPTOR, sequence)
  }

  function DescriptorBlock(sequence: U32, addrs: seq<U32>, d: nat): Block
    requires ChunkStart(d) <= |addrs| < 0x1_0000_0000
  {
    PutTags(DescriptorBase(sequence, |addrs|, d), TagsOffset(d), Chunk(addrs, d))
  }

  function Descriptors(sequence: U32, addrs: seq<U32>): (r: seq<Block>)
    requires 1 <= |addrs| < 0x1_0000_0000
    ensures |r| == DescriptorBlocksFor(|addrs|)
  {
    seq(DescriptorBlocksFor(|addrs|),
        d requires 0 <= d < DescriptorBlocksFor(|addrs|) =>
          ChunksCover(|addrs|, d); DescriptorBlock(sequence, addrs, d))
  }

  /** The chunks cover the list exactly: every descriptor block is needed, and none is missing. */
  lemma {:induction false} ChunksCover(n: nat, d: nat)
    requires n >= 1
    ensures d < DescriptorBlocksFor(n) <==> ChunkStart(d) < n
  {
    if n > FIRST_CAPACITY && d > 1 {
      if n - FIRST_CAPACITY > OTHER_CAPACITY {
        ChunksCover(n - OTHER_CAPACITY, d - 1);
      }
    }
  }

  /** The descriptor block that carries the i-th address. */
  function ChunkOf(i: nat): (d: nat)
    ensures ChunkStart(d) <= i < ChunkStart(d + 1)
  {
    if i < FIRST_CAPACITY then 0
    else if i < FIRST_CAPACITY + OTHER_CAPACITY then 1
    else 1 + ChunkOf(i - OTHER_CAPACITY)
  }

  lemma DescriptorHeader(sequence: U32, addrs: seq<U32>, d: nat)
    requires ChunkStart(d) <= |addrs| < 0x1_0000_0000
    ensures DecodeHeader(DescriptorBlock(sequence, addrs, d)) == Header(MAGIC, DESCRIPTOR, sequence)
    ensures d == 0 ==> GetBE32(DescriptorBlock(sequence, addrs, d), COUNT_OFFSET) == |addrs|
  {
    var h := HeaderBlock(DESCRIPTOR, sequence);
    var base := DescriptorBase(sequence, |addrs|, d);
    HeaderRoundTrip(Header(MAGIC, DESCRIPTOR, sequence), Zero());
    BE32RoundTrip(h, COUNT_OFFSET, |addrs|);
    PutTagsFrame(base, TagsOffset(d), Chunk(addrs, d), 0);
    PutTagsFrame(base, TagsOffset(d), Chunk(addrs, d), 4);
    PutTagsFrame(base, TagsOffset(d), Chunk(addrs, d), 8);
    if d == 0 {
      PutTagsFrame(base, TagsOffset(d), Chunk(addrs, d), COUNT_OFFSET);
    }
  }

  /** Read on its own, a later descriptor block shows its first address where the count would be. */
  lemma LaterDescriptorCount(sequence: U32, addrs: seq<U32>, d: nat)
    requires d >= 1 && ChunkStart(d) < |addrs| < 0x1_0000_0000
    ensures GetBE32(DescriptorBlock(sequence, addrs, d), COUNT_OFFSET) == addrs[ChunkStart(d)]
  {
    var chunk := Chunk(addrs, d);
    assert chunk[0] == addrs[ChunkStart(d)];
    PutTagsRoundTrip(DescriptorBase(sequence, |addrs|, d), TagsOffset(d), chunk, 0);
  }

  lemma {:induction false} DescriptorBlocksMonotone(m: nat, n: nat)
    requires m <= n
    ensures DescriptorBlocksFor(m) <= DescriptorBlocksFor(n)
  {
    if m > FIRST_CAPACITY + OTHER_CAPACITY { DescriptorBlocksMonotone(m - OTHER_CAPACITY, n - OTHER_CAPACITY); }
  }

  /** Byte position of the i-th address inside its descriptor block. */
  function TagPos(i: nat): (q: nat)
    ensures q + 4 <= BLOCK_SIZE
  {
    TagsOffset(ChunkOf(i)) + 4 * (i - ChunkStart(ChunkOf(i)))
  }

  // ---------------------------------------------------------------- the logged form

  function CommitBlock(sequence: U32, checksum: U32): Block {
    PutBE32(HeaderBlock(COMMIT, sequence), 12, checksum)
  }

  lemma CommitHeader(sequence: U32, checksum: U32)
    ensures IsCommitOf(CommitBlock(sequence, checksum), sequence)
    ensures GetBE32(CommitBlock(sequence, checksum), 12) == checksum
    ensures !IsDescriptor(CommitBlock(sequence, checksum))
  {
    var h := HeaderBlock(COMMIT, sequence);
    HeaderRoundTrip(Header(MAGIC, COMMIT, sequence), Zero());
    BE32RoundTrip(h, 12, checksum);
  }

  ghost predicate Loggable(tx: Tx) {
    1 <= |tx.blocks| < 0x1_0000_0000
  }

  /** Journal blocks a transaction of n blocks occupies. */
  function Needed(n: nat): nat { DescriptorBlocksFor(n) + n + 1 }

  function TxImage(crc: Crc, tx: Tx): (r: seq<Block>)
    requires Loggable(tx)
    ensures |r| == Needed(|tx.blocks|)
  {
    Descriptors(tx.sequence, Addrs(tx.blocks)) + Datas(tx.blocks)
    + [CommitBlock(tx.sequence, Checksum(crc, Datas(tx.blocks)))]
  }

  // ---------------------------------------------------------------- what recovery reads back

  /** The i-th address of a descriptor chain that starts at block base. */
  function TagAt(img: Image, base: nat, i: nat): U32
    requires base + ChunkOf(i) < |img|
  {
    GetBE32(img[base + ChunkOf(i)], TagPos(i))
  }

  function Tags(img: Image, base: nat, n: nat): (r: seq<U32>)
    requires n >= 1 && base + DescriptorBlocksFor(n) <= |img|
    ensures |r| == n
  {
    seq(n, i requires 0 <= i < n => ChunksCover(n, ChunkOf(i)); TagAt(img, base, i))
  }

  /** The image holds these blocks from address base on. */
  ghost predicate BlocksAt(img: Image, base: nat, blocks: seq<Block>) {
    && base + |blocks| <= |img|
    && forall a :: base <= a < base + |blocks| ==> img[a] == blocks[a - base]
  }

  /** Packing then parsing gives back the same address list, whatever its length. */
  lemma DescriptorCodecRoundTrip(img: Image, base: nat, sequence: U32, addrs: seq<U32>)
    requires 1 <= |addrs| < 0x1_0000_0000
    requires BlocksAt(img, base, Descriptors(sequence, addrs))
    ensures Tags(img, base, |addrs|) == addrs
  {
    var tags := Tags(img, base, |addrs|);
    forall i | 0 <= i < |addrs| ensures tags[i] == addrs[i] {
      TagRoundTrip(img, base, sequence, addrs, i);
    }
  }

  lemma TagRoundTrip(img: Image, base: nat, sequence: U32, addrs: seq<U32>, i: nat)
    requires i < |addrs| < 0x1_0000_0000
    requires BlocksAt(img, base, Descriptors(sequence, addrs))
    ensures base + ChunkOf(i) < |img| && TagAt(img, base, i) == addrs[i]
  {
    var d := ChunkOf(i);
    ChunksCover(|addrs|, d);
    assert img[base + d] == Descriptors(sequence, addrs)[d];
    TagInBlock(sequence, addrs, i);
  }

  lemma TagInBlock(sequence: U32, addrs: seq<U32>, i: nat)
    requires i < |addrs| < 0x1_0000_0000
    ensures GetBE32(DescriptorBlock(sequence, addrs, ChunkOf(i)), TagPos(i)) == addrs[i]
  {
    var d, k := ChunkOf(i), i - ChunkStart(ChunkOf(i));
    var chunk := Chunk(addrs, d);
    assert chunk[k] == addrs[i];
    assert TagPos(i) == TagsOffset(d) + 4 * k;
    PutTagsRoundTrip(DescriptorBase(sequence, |addrs|, d), TagsOffset(d), chunk, k);
  }
}
