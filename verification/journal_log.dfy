/** The journal region as a log of segments, and what recovery makes of it. */
module JournalLog {
  import opened Bytes
  import opened Device
  import opened JournalFormat
  import opened JournalReplay
  import opened JournalRecovery

  /** Where the journal lies and how it checksums. */
  datatype Config = Config(crc: Crc, start: nat, length: nat)

  /** One stretch of the journal: a block never written, a whole transaction, or part of one. */
  datatype Segment = Gap | Logged(tx: Tx) | Torn(tx: Tx, kept: set<nat>)

  function HomeWrites(tx: Tx): (r: seq<Write>)
    ensures |r| == |tx.blocks|
    ensures forall i :: 0 <= i < |r| ==> r[i] == Write(tx.blocks[i].addr, tx.blocks[i].data)
  {
    Writes(Addrs(tx.blocks), Datas(tx.blocks))
  }

  /** The journal blocks of a transaction of which only those numbered in kept reached the disk. */
  function TornImage(crc: Crc, tx: Tx, kept: set<nat>): (r: seq<Block>)
    requires Loggable(tx)
    ensures |r| == Needed(|tx.blocks|)
    ensures forall i :: 0 <= i < |r| ==> r[i] == if i in kept then TxImage(crc, tx)[i] else Zero()
  {
    seq(Needed(|tx.blocks|),
        i requires 0 <= i < Needed(|tx.blocks|) => if i in kept then TxImage(crc, tx)[i] else Zero())
  }

  predicate InJournal(c: Config, addr: nat) { c.start <= addr < c.start + c.length }

  /** A transaction the engine can log: some blocks, all on the device, none inside the journal. */
  ghost predicate GoodTx(c: Config, size: nat, tx: Tx) {
    && Loggable(tx)
    && forall i :: 0 <= i < |tx.blocks| ==> tx.blocks[i].addr < size && !InJournal(c, tx.blocks[i].addr)
  }

  /** A later descriptor block has no count; the scan takes its first address for one. These transactions show it:
      that address is 0, or asks for a longer chain of descriptors than the transaction has left. */
  ghost predicate ChainsBreak(tx: Tx)
    requires Loggable(tx)
  {
    var d := DescriptorBlocksFor(|tx.blocks|);
    forall k :: 1 <= k < d && ChunkStart(k) < |tx.blocks| ==>
      tx.blocks[ChunkStart(k)].addr == 0 || DescriptorBlocksFor(tx.blocks[ChunkStart(k)].addr) > d - k
  }

  /** Part of a transaction that recovery must recognise as incomplete: no data block looks like a descriptor, no
      later descriptor can pass for a first one, and the checksum does not collide on the torn and the real data. */
  ghost predicate Detectable(c: Config, tx: Tx, kept: set<nat>)
    requires Loggable(tx)
  {
    var n := |tx.blocks|;
    var d := DescriptorBlocksFor(n);
    var torn := TornImage(c.crc, tx, kept);
    && ChainsBreak(tx)
    && torn != TxImage(c.crc, tx)
    && (forall i :: 0 <= i < n ==> !IsDescriptor(tx.blocks[i].data))
    && NoCollision(c.crc, torn[d..d + n], Datas(tx.blocks))
  }

  ghost predicate GoodSegment(c: Config, size: nat, s: Segment) {
    match s
    case Gap => true
    case Logged(tx) => GoodTx(c, size, tx)
    case Torn(tx, kept) => GoodTx(c, size, tx) && Detectable(c, tx, kept)
  }

  function SegLength(s: Segment): (n: nat)
    ensures n >= 1
  {
    match s
    case Gap => 1
    case Logged(tx) => Needed(|tx.blocks|)
    case Torn(tx, _) => Needed(|tx.blocks|)
  }

  function SegImage(c: Config, s: Segment): (r: seq<Block>)
    requires !s.Gap? ==> Loggable(s.tx)
    ensures |r| == SegLength(s)
  {
    match s
    case Gap => [Zero()]
    case Logged(tx) => TxImage(c.crc, tx)
    case Torn(tx, kept) => TornImage(c.crc, tx, kept)
  }

  /** Journal offset at which segment i begins. */
  function Off(log: seq<Segment>, i: nat): nat
    requires i <= |log|
  {
    if i == 0 then 0 else Off(log, i - 1) + SegLength(log[i - 1])
  }

  lemma {:induction false} OffMonotone(log: seq<Segment>, i: nat, j: nat)
    requires i <= j <= |log|
    ensures Off(log, i) <= Off(log, j)
  {
    if i < j { OffMonotone(log, i, j - 1); }
  }

  /** Segment s occupies the journal blocks from offset off. */
  ghost predicate SegAt(c: Config, img: Image, s: Segment, off: nat) {
    && (!s.Gap? ==> Loggable(s.tx))
    && BlocksAt(img, c.start + off, SegImage(c, s))
  }

  /** The journal region holds exactly this log, then blocks never written. */
  ghost predicate HoldsLog(c: Config, img: Image, log: seq<Segment>) {
    && Off(log, |log|) <= c.length
    && c.start + c.length <= |img|
    && (forall i :: 0 <= i < |log| ==> GoodSegment(c, |img|, log[i]) && SegAt(c, img, log[i], Off(log, i)))
    && (forall a :: c.start + Off(log, |log|) <= a < c.start + c.length ==> img[a] == Zero())
  }

  function ApplySeg(img: Image, s: Segment): (r: Image)
    ensures |r| == |img|
  {
    if s.Logged? then ApplyWrites(img, HomeWrites(s.tx)) else img
  }

  /** The image after replaying the first i segments. */
  function ApplyLog(img: Image, log: seq<Segment>, i: nat): (r: Image)
    requires i <= |log|
    ensures |r| == |img|
  {
    if i == 0 then img else ApplySeg(ApplyLog(img, log, i - 1), log[i - 1])
  }

  // ---------------------------------------------------------------- scanning one segment

  lemma ScanZero(c: Config, scan: Scanner, img: Image, off: nat)
    requires IsScanner(scan, c.crc, c.start, c.length)
    requires c.start + off < |img| && !IsDescriptor(img[c.start + off])
    ensures scan(img, off) == Skip
  {
    assert ScanAt(c.crc, img, c.start, c.length, off) == Skip;
  }

  /** The three parts of a logged transaction, by address. */
  lemma LoggedParts(crc: Crc, img: Image, base: nat, tx: Tx)
    requires Loggable(tx) && BlocksAt(img, base, TxImage(crc, tx))
    ensures BlocksAt(img, base, Descriptors(tx.sequence, Addrs(tx.blocks)))
    ensures var lo, n := base + DescriptorBlocksFor(|tx.blocks|), |tx.blocks|;
            && img[lo..lo + n] == Datas(tx.blocks)
            && img[lo + n] == CommitBlock(tx.sequence, Checksum(crc, Datas(tx.blocks)))
  {
    var d, n, r := DescriptorBlocksFor(|tx.blocks|), |tx.blocks|, TxImage(crc, tx);
    var ds, data := Descriptors(tx.sequence, Addrs(tx.blocks)), Datas(tx.blocks);
    ConcatParts(ds, data, CommitBlock(tx.sequence, Checksum(crc, data)));
    assert img[base + d + n] == r[d + n];
  }

  lemma ConcatParts(ds: seq<Block>, data: seq<Block>, commit: Block)
    ensures var r := ds + data + [commit];
            && (forall k :: 0 <= k < |ds| ==> r[k] == ds[k])
            && (forall k :: |ds| <= k < |ds| + |data| ==> r[k] == data[k - |ds|])
            && r[|ds| + |data|] == commit
  {
  }

  lemma {:induction false} ChainIsWhole(img: Image, base: nat, sequence: U32, d: nat, count: nat)
    requires base + count <= |img|
    requires forall a :: base + d <= a < base + count ==> DecodeHeader(img[a]) == Header(MAGIC, DESCRIPTOR, sequence)
    ensures CheckChain(img, base, sequence, d, count) == Whole
    decreases count - d
  {
    if d < count {
      ChainIsWhole(img, base, sequence, d + 1, count);
    }
  }

  lemma LoggedHeader(img: Image, base: nat, tx: Tx, k: nat)
    requires Loggable(tx) && BlocksAt(img, base, Descriptors(tx.sequence, Addrs(tx.blocks)))
    requires k < DescriptorBlocksFor(|tx.blocks|)
    ensures DecodeHeader(img[base + k]) == Header(MAGIC, DESCRIPTOR, tx.sequence)
    ensures k == 0 ==> GetBE32(img[base], COUNT_OFFSET) == |tx.blocks|
  {
    ChunksCover(|tx.blocks|, k);
    DescriptorHeader(tx.sequence, Addrs(tx.blocks), k);
    assert img[base + k] == DescriptorBlock(tx.sequence, Addrs(tx.blocks), k);
  }

  lemma LoggedChain(img: Image, base: nat, tx: Tx)
    requires Loggable(tx) && BlocksAt(img, base, Descriptors(tx.sequence, Addrs(tx.blocks)))
    ensures CheckChain(img, base, tx.sequence, 1, DescriptorBlocksFor(|tx.blocks|)) == Whole
  {
    var count := DescriptorBlocksFor(|tx.blocks|);
    forall a | base + 1 <= a < base + count ensures DecodeHeader(img[a]) == Header(MAGIC, DESCRIPTOR, tx.sequence) {
      LoggedHeader(img, base, tx, a - base);
    }
    ChainIsWhole(img, base, tx.sequence, 1, count);
  }

  /** A whole chain followed by a matching commit record is replayed. */
  lemma ScanEval(c: Config, scan: Scanner, img: Image, off: nat, sequence: U32, addrs: seq<U32>, data: seq<Block>)
    requires IsScanner(scan, c.crc, c.start, c.length)
    requires |addrs| == |data| >= 1 && off + Needed(|addrs|) <= c.length && c.start + off + Needed(|addrs|) <= |img|
    requires DecodeHeader(img[c.start + off]) == Header(MAGIC, DESCRIPTOR, sequence)
    requires GetBE32(img[c.start + off], COUNT_OFFSET) == |addrs|
    requires CheckChain(img, c.start + off, sequence, 1, DescriptorBlocksFor(|addrs|)) == Whole
    requires Tags(img, c.start + off, |addrs|) == addrs
    requires var lo := c.start + off + DescriptorBlocksFor(|addrs|);
             && img[lo..lo + |addrs|] == data
             && Committed(c.crc, sequence, data, img[lo + |addrs|])
    ensures scan(img, off) == Replay(Writes(addrs, data), Needed(|addrs|))
  {
    hide GetBE32, Checksum, Tags;
    assert scan(img, off) == ScanAt(c.crc, img, c.start, c.length, off);
  }

  /** Recovery reads a logged transaction back whole. */
  lemma ScanLogged(c: Config, scan: Scanner, img: Image, tx: Tx, off: nat)
    requires IsScanner(scan, c.crc, c.start, c.length)
    requires Loggable(tx) && off + Needed(|tx.blocks|) <= c.length
    requires BlocksAt(img, c.start + off, TxImage(c.crc, tx))
    ensures scan(img, off) == Replay(HomeWrites(tx), Needed(|tx.blocks|))
  {
    hide GetBE32, DecodeHeader, Checksum, CommitBlock, TxImage, Descriptors, Tags, CheckChain, DescriptorBlocksFor;
    var base, addrs, data := c.start + off, Addrs(tx.blocks), Datas(tx.blocks);
    LoggedParts(c.crc, img, base, tx);
    LoggedHeader(img, base, tx, 0);
    LoggedChain(img, base, tx);
    DescriptorCodecRoundTrip(img, base, tx.sequence, addrs);
    CommitHeader(tx.sequence, Checksum(c.crc, data));
    ScanEval(c, scan, img, off, tx.sequence, addrs, data);
  }

  // ---------------------------------------------------------------- what is replayed, on any journal content

  /** At offset off the journal holds, inside its bounds, descriptor blocks of one sequence number for n addresses,
      n blocks, and a commit block of the same sequence number with the last running checksum of those blocks. */
  ghost predicate CommittedAt(c: Config, img: Image, off: nat, sequence: U32, n: nat, sums: seq<U32>) {
    var base, d := c.start + off, DescriptorBlocksFor(n);
    && n >= 1 && off + d + n + 1 <= c.length && base + d + n + 1 <= |img|
    && (forall a :: base <= a < base + d ==> DecodeHeader(img[a]) == Header(MAGIC, DESCRIPTOR, sequence))
    && GetBE32(img[base], COUNT_OFFSET) == n
    && DecodeHeader(img[base + d + n]) == Header(MAGIC, COMMIT, sequence)
    && RunningSums(c.crc, img[base + d..base + d + n], sums) && GetBE32(img[base + d + n], 12) == sums[n]
  }

  /** On any journal content, well formed or not: recovery replays at an offset exactly when a committed transaction
      lies there, and then its blocks, in order. */
  lemma ScanReplaysIff(c: Config, scan: Scanner, img: Image, off: nat)
    requires IsScanner(scan, c.crc, c.start, c.length)
    ensures scan(img, off).Replay? <==> exists sequence, n: nat, sums :: CommittedAt(c, img, off, sequence, n, sums)
    ensures forall sequence, n: nat, sums :: CommittedAt(c, img, off, sequence, n, sums) ==>
              && scan(img, off).needed == DescriptorBlocksFor(n) + n + 1 && |scan(img, off).ws| == n
              && forall i :: 0 <= i < n ==> scan(img, off).ws[i].data == img[c.start + off + DescriptorBlocksFor(n) + i]
  {
    hide IsScanner, DecodeHeader, GetBE32, RunningSums, DescriptorBlocksFor;
    if scan(img, off).Replay? {
      var sequence, n, sums := ReplayIsCommitted(c, scan, img, off);
    }
    forall sequence, n: nat, sums | CommittedAt(c, img, off, sequence, n, sums)
      ensures scan(img, off).Replay? && scan(img, off).needed == DescriptorBlocksFor(n) + n + 1 && |scan(img, off).ws| == n
      ensures forall i :: 0 <= i < n ==> scan(img, off).ws[i].data == img[c.start + off + DescriptorBlocksFor(n) + i]
    {
      CommittedIsReplayed(c, scan, img, off, sequence, n, sums);
    }
  }

  lemma ReplayIsCommitted(c: Config, scan: Scanner, img: Image, off: nat) returns (sequence: U32, n: nat, sums: seq<U32>)
    requires IsScanner(scan, c.crc, c.start, c.length) && scan(img, off).Replay?
    ensures CommittedAt(c, img, off, sequence, n, sums)
  {
    hide GetBE32, Checksum, Tags, DescriptorBlocksFor, CheckChain, RunningSums, DecodeHeader;
    assert scan(img, off) == ScanAt(c.crc, img, c.start, c.length, off);
    var base := c.start + off;
    sequence, n := DecodeHeader(img[base]).sequence, GetBE32(img[base], COUNT_OFFSET);
    var d := DescriptorBlocksFor(n);
    WholeChain(img, base, sequence, 1, d);
    sums := SomeSums(c.crc, img[base + d..base + d + n]);
    ChecksumIsLastSum(c.crc, img[base + d..base + d + n], sums);
  }

  lemma {:induction false} WholeChain(img: Image, base: nat, sequence: U32, d: nat, count: nat)
    requires CheckChain(img, base, sequence, d, count) == Whole && base + count <= |img|
    ensures forall a :: base + d <= a < base + count ==> DecodeHeader(img[a]) == Header(MAGIC, DESCRIPTOR, sequence)
    decreases count - d
  {
    hide DecodeHeader;
    if d < count { WholeChain(img, base, sequence, d + 1, count); }
  }

  lemma CommittedIsReplayed(c: Config, scan: Scanner, img: Image, off: nat, sequence: U32, n: nat, sums: seq<U32>)
    requires IsScanner(scan, c.crc, c.start, c.length) && CommittedAt(c, img, off, sequence, n, sums)
    ensures scan(img, off).Replay? && scan(img, off).needed == DescriptorBlocksFor(n) + n + 1 && |scan(img, off).ws| == n
    ensures forall i :: 0 <= i < n ==> scan(img, off).ws[i].data == img[c.start + off + DescriptorBlocksFor(n) + i]
  {
    hide GetBE32, Checksum, Tags, CheckChain, RunningSums, DecodeHeader;
    var base, d := c.start + off, DescriptorBlocksFor(n);
    ChainIsWhole(img, base, sequence, 1, d);
    ChecksumIsLastSum(c.crc, img[base + d..base + d + n], sums);
    ScanEval(c, scan, img, off, sequence, Tags(img, base, n), img[base + d..base + d + n]);
  }

  // ---------------------------------------------------------------- scanning a torn transaction

  /** The blocks of a logged transaction, one by one. */
  lemma TxBlocks(crc: Crc, tx: Tx)
    requires Loggable(tx)
    ensures var full, d, n := TxImage(crc, tx), DescriptorBlocksFor(|tx.blocks|), |tx.blocks|;
            && (forall k :: 0 <= k < d ==> ChunkStart(k) < n && full[k] == DescriptorBlock(tx.sequence, Addrs(tx.blocks), k))
            && (forall k :: d <= k < d + n ==> full[k] == tx.blocks[k - d].data)
            && full[d + n] == CommitBlock(tx.sequence, Checksum(crc, Datas(tx.blocks)))
  {
    hide DescriptorBlock, CommitBlock, Checksum, ChunkStart;
    var ds := Descriptors(tx.sequence, Addrs(tx.blocks));
    ConcatParts(ds, Datas(tx.blocks), CommitBlock(tx.sequence, Checksum(crc, Datas(tx.blocks))));
    forall k | 0 <= k < |ds| ensures ChunkStart(k) < |tx.blocks| { ChunksCover(|tx.blocks|, k); }
  }

  /** A chain with a block that is no descriptor of it is broken. */
  lemma {:induction false} ChainBreaks(img: Image, base: nat, sequence: U32, d: nat, count: nat, j: nat)
    requires d <= j < count && base + j < |img| && DecodeHeader(img[base + j]) != Header(MAGIC, DESCRIPTOR, sequence)
    ensures CheckChain(img, base, sequence, d, count) == Broken
    decreases count - d
  {
    if d < j { ChainBreaks(img, base, sequence, d + 1, count, j); }
  }

  /** A descriptor that starts a broken chain is passed over. */
  lemma ScanBroken(c: Config, scan: Scanner, img: Image, off: nat, sequence: U32, total: nat, j: nat)
    requires IsScanner(scan, c.crc, c.start, c.length)
    requires c.start + off < |img| && DecodeHeader(img[c.start + off]) == Header(MAGIC, DESCRIPTOR, sequence)
    requires GetBE32(img[c.start + off], COUNT_OFFSET) == total
    requires total == 0 || (1 <= j < DescriptorBlocksFor(total) && c.start + off + j < |img| && !IsDescriptor(img[c.start + off + j]))
    ensures scan(img, off) == Skip
  {
    hide GetBE32, Checksum, Tags, ScanBody, DecodeHeader, DescriptorBlocksFor, CheckChain;
    assert scan(img, off) == ScanAt(c.crc, img, c.start, c.length, off);
    if total > 0 {
      assert IsDescriptor(img[c.start + off + j]) <==> DecodeHeader(img[c.start + off + j]) == Header(MAGIC, DESCRIPTOR, DecodeHeader(img[c.start + off + j]).sequence);
      ChainBreaks(img, c.start + off, sequence, 1, DescriptorBlocksFor(total), j);
    }
  }

  /** A whole chain whose body is not committed is passed over. */
  lemma ScanRejects(c: Config, scan: Scanner, img: Image, off: nat, sequence: U32, n: nat)
    requires IsScanner(scan, c.crc, c.start, c.length)
    requires 1 <= n && off + Needed(n) <= c.length && c.start + off + Needed(n) <= |img|
    requires DecodeHeader(img[c.start + off]) == Header(MAGIC, DESCRIPTOR, sequence)
    requires GetBE32(img[c.start + off], COUNT_OFFSET) == n
    requires CheckChain(img, c.start + off, sequence, 1, DescriptorBlocksFor(n)) == Whole
    requires var lo := c.start + off + DescriptorBlocksFor(n); !Committed(c.crc, sequence, img[lo..lo + n], img[lo + n])
    ensures scan(img, off) == Skip
  {
    hide GetBE32, Checksum, Tags;
    assert scan(img, off) == ScanAt(c.crc, img, c.start, c.length, off);
  }

  /** A torn transaction with all its descriptors, its commit block and all its data is not torn at all. */
  lemma TornComplete(crc: Crc, tx: Tx, kept: set<nat>)
    requires Loggable(tx)
    requires var d, n := DescriptorBlocksFor(|tx.blocks|), |tx.blocks|;
             && (forall k :: 0 <= k < d ==> k in kept) && d + n in kept
             && TornImage(crc, tx, kept)[d..d + n] == Datas(tx.blocks)
    ensures TornImage(crc, tx, kept) == TxImage(crc, tx)
  {
    hide TxImage, Zero, DescriptorBlock, CommitBlock, Checksum, Addrs, DescriptorBlocksFor, TornImage, ChunkStart, Datas;
    var torn, full, d, n := TornImage(crc, tx, kept), TxImage(crc, tx), DescriptorBlocksFor(|tx.blocks|), |tx.blocks|;
    TxBlocks(crc, tx);
    forall i | 0 <= i < |torn| ensures torn[i] == full[i] {
      if d <= i < d + n { DataElement(torn, tx, d, i); }
    }
  }

  lemma DataElement(torn: seq<Block>, tx: Tx, d: nat, i: nat)
    requires d + |tx.blocks| <= |torn| && torn[d..d + |tx.blocks|] == Datas(tx.blocks) && d <= i < d + |tx.blocks|
    ensures torn[i] == tx.blocks[i - d].data
  {
    assert torn[i] == torn[d..d + |tx.blocks|][i - d];
  }

  lemma TornNotCommitted(c: Config, tx: Tx, kept: set<nat>)
    requires Loggable(tx) && Detectable(c, tx, kept) && forall k :: 0 <= k < DescriptorBlocksFor(|tx.blocks|) ==> k in kept
    ensures var torn, d, n := TornImage(c.crc, tx, kept), DescriptorBlocksFor(|tx.blocks|), |tx.blocks|;
            !Committed(c.crc, tx.sequence, torn[d..d + n], torn[d + n])
  {
    hide GetBE32, DecodeHeader, Checksum, CommitBlock, IsDescriptor, TxImage, DescriptorBlock, Zero, DescriptorBlocksFor, ChainsBreak, NoCollision;
    var torn, d, n := TornImage(c.crc, tx, kept), DescriptorBlocksFor(|tx.blocks|), |tx.blocks|;
    TxBlocks(c.crc, tx);
    CommitHeader(tx.sequence, Checksum(c.crc, Datas(tx.blocks)));
    ZeroIsNotDescriptor();
    if Checksum(c.crc, torn[d..d + n]) == Checksum(c.crc, Datas(tx.blocks)) {
      ChecksumSeparates(c.crc, torn[d..d + n], Datas(tx.blocks));
    }
    if d + n in kept && torn[d..d + n] == Datas(tx.blocks) {
      TornComplete(c.crc, tx, kept);
    }
  }

  /** The blocks of a torn transaction that are no descriptors. */
  lemma TornBlock(c: Config, tx: Tx, kept: set<nat>, k: nat)
    requires Loggable(tx) && Detectable(c, tx, kept) && k < Needed(|tx.blocks|)
    requires k < DescriptorBlocksFor(|tx.blocks|) ==> k !in kept
    ensures !IsDescriptor(TornImage(c.crc, tx, kept)[k])
  {
    hide GetBE32, DecodeHeader, Checksum, CommitBlock, IsDescriptor, TxImage, DescriptorBlock, Zero, DescriptorBlocksFor, ChainsBreak;
    ZeroIsNotDescriptor();
    TxBlocks(c.crc, tx);
    CommitHeader(tx.sequence, Checksum(c.crc, Datas(tx.blocks)));
  }

  /** The header of a descriptor block that reached the disk, and what the scan takes for its count. */
  lemma TornDescriptor(c: Config, img: Image, base: nat, tx: Tx, kept: set<nat>, k: nat)
    requires Loggable(tx) && k < DescriptorBlocksFor(|tx.blocks|) && k in kept
    requires BlocksAt(img, base, TornImage(c.crc, tx, kept))
    ensures DecodeHeader(img[base + k]) == Header(MAGIC, DESCRIPTOR, tx.sequence)
    ensures ChunkStart(k) < |tx.blocks|
    ensures GetBE32(img[base + k], COUNT_OFFSET) == if k == 0 then |tx.blocks| else tx.blocks[ChunkStart(k)].addr
  {
    hide GetBE32, DecodeHeader, Checksum, CommitBlock, TxImage, DescriptorBlock, Zero, DescriptorBlocksFor, ChunkStart;
    TxBlocks(c.crc, tx);
    assert img[base + k] == TornImage(c.crc, tx, kept)[k];
    DescriptorHeader(tx.sequence, Addrs(tx.blocks), k);
    if k > 0 { LaterDescriptorCount(tx.sequence, Addrs(tx.blocks), k); }
  }

  lemma SliceAt(img: Image, base: nat, blocks: seq<Block>, lo: nat, hi: nat)
    requires BlocksAt(img, base, blocks) && lo <= hi <= |blocks|
    ensures img[base + lo..base + hi] == blocks[lo..hi]
  {
    forall i | 0 <= i < hi - lo ensures img[base + lo..base + hi][i] == blocks[lo..hi][i] {
      assert img[base + lo + i] == blocks[lo + i];
    }
  }

  /** All descriptors reached the disk, but not all of the rest. */
  lemma ScanTornWhole(c: Config, scan: Scanner, img: Image, tx: Tx, kept: set<nat>, off: nat)
    requires IsScanner(scan, c.crc, c.start, c.length)
    requires Loggable(tx) && Detectable(c, tx, kept) && off + Needed(|tx.blocks|) <= c.length
    requires BlocksAt(img, c.start + off, TornImage(c.crc, tx, kept))
    requires forall k :: 0 <= k < DescriptorBlocksFor(|tx.blocks|) ==> k in kept
    ensures scan(img, off) == Skip
  {
    hide GetBE32, DecodeHeader, TxImage, Committed, Detectable, CheckChain, DescriptorBlocksFor, IsScanner, TornImage, BlocksAt, ChunkStart;
    var base, d, n := c.start + off, DescriptorBlocksFor(|tx.blocks|), |tx.blocks|;
    var torn := TornImage(c.crc, tx, kept);
    assert base + |torn| <= |img| by { InImage(img, base, torn); }
    TornDescriptor(c, img, base, tx, kept, 0);
    forall a | base + 1 <= a < base + d ensures DecodeHeader(img[a]) == Header(MAGIC, DESCRIPTOR, tx.sequence) {
      TornDescriptor(c, img, base, tx, kept, a - base);
    }
    ChainIsWhole(img, base, tx.sequence, 1, d);
    SliceAt(img, base, torn, d, d + n);
    OneAt(img, base, torn, d + n);
    TornNotCommitted(c, tx, kept);
    ScanRejects(c, scan, img, off, tx.sequence, n);
  }

  lemma InImage(img: Image, base: nat, blocks: seq<Block>)
    requires BlocksAt(img, base, blocks)
    ensures base + |blocks| <= |img|
  {
  }

  lemma OneAt(img: Image, base: nat, blocks: seq<Block>, k: nat)
    requires BlocksAt(img, base, blocks) && k < |blocks|
    ensures base + k < |img| && img[base + k] == blocks[k]
  {
  }

  /** The first block of a torn transaction: recovery sees that the rest does not match. */
  lemma ScanTornHead(c: Config, scan: Scanner, img: Image, tx: Tx, kept: set<nat>, off: nat)
    requires IsScanner(scan, c.crc, c.start, c.length)
    requires Loggable(tx) && Detectable(c, tx, kept) && off + Needed(|tx.blocks|) <= c.length
    requires BlocksAt(img, c.start + off, TornImage(c.crc, tx, kept))
    requires 0 in kept
    ensures scan(img, off) == Skip
  {
    hide GetBE32, DecodeHeader, TxImage, Detectable, DescriptorBlocksFor, IsScanner, TornImage, BlocksAt, IsDescriptor, ChunkStart;
    var base, d, n := c.start + off, DescriptorBlocksFor(|tx.blocks|), |tx.blocks|;
    var torn := TornImage(c.crc, tx, kept);
    if j :| 0 <= j < d && j !in kept {
      TornDescriptor(c, img, base, tx, kept, 0);
      TornBlock(c, tx, kept, j);
      OneAt(img, base, torn, j);
      OneAt(img, base, torn, 0);
      ScanBroken(c, scan, img, off, tx.sequence, n, j);
    } else {
      ScanTornWhole(c, scan, img, tx, kept, off);
    }
  }

  /** A later descriptor block read on its own: the chain it seems to start runs into the data. */
  lemma ScanTornLater(c: Config, scan: Scanner, img: Image, tx: Tx, kept: set<nat>, off: nat, k: nat)
    requires IsScanner(scan, c.crc, c.start, c.length)
    requires Loggable(tx) && Detectable(c, tx, kept) && off + Needed(|tx.blocks|) <= c.length
    requires BlocksAt(img, c.start + off, TornImage(c.crc, tx, kept))
    requires 1 <= k < DescriptorBlocksFor(|tx.blocks|) && k in kept
    ensures scan(img, off + k) == Skip
  {
    hide GetBE32, DecodeHeader, Checksum, CommitBlock, IsDescriptor, TxImage, DescriptorBlock, Zero, CheckChain, DescriptorBlocksFor,
      IsScanner, ChunkStart, TornImage;
    var base, d := c.start + off, DescriptorBlocksFor(|tx.blocks|);
    TornDescriptor(c, img, base, tx, kept, k);
    TornBlock(c, tx, kept, d);
    assert img[base + d] == TornImage(c.crc, tx, kept)[d];
    assert c.start + (off + k) + (d - k) == base + d;
    ScanBroken(c, scan, img, off + k, tx.sequence, tx.blocks[ChunkStart(k)].addr, d - k);
  }

  /** Every position of a torn transaction is passed over. */
  lemma ScanTorn(c: Config, scan: Scanner, img: Image, tx: Tx, kept: set<nat>, off: nat, p: nat)
    requires IsScanner(scan, c.crc, c.start, c.length)
    requires Loggable(tx) && Detectable(c, tx, kept) && off + Needed(|tx.blocks|) <= c.length
    requires BlocksAt(img, c.start + off, TornImage(c.crc, tx, kept))
    requires off <= p < off + Needed(|tx.blocks|)
    ensures scan(img, p) == Skip
  {
    hide IsDescriptor, TornImage, Detectable, DescriptorBlocksFor, IsScanner, BlocksAt;
    var k := p - off;
    if k == 0 && 0 in kept {
      ScanTornHead(c, scan, img, tx, kept, off);
    } else if k < DescriptorBlocksFor(|tx.blocks|) && k in kept {
      ScanTornLater(c, scan, img, tx, kept, off, k);
    } else {
      TornBlock(c, tx, kept, k);
      OneAt(img, c.start + off, TornImage(c.crc, tx, kept), k);
      ScanZero(c, scan, img, p);
    }
  }

  /** Home addresses in ascending order, outside a journal that starts within the first descriptor's reach and is
      long enough for the transaction: every later address is large enough to break the chain. */
  lemma AscendingChainsBreak(c: Config, tx: Tx)
    requires Loggable(tx) && c.start <= FIRST_CAPACITY && Needed(|tx.blocks|) <= c.length
    requires forall i :: 0 <= i < |tx.blocks| ==> !InJournal(c, tx.blocks[i].addr)
    requires forall i, j :: 0 <= i < j < |tx.blocks| ==> tx.blocks[i].addr < tx.blocks[j].addr
    ensures ChainsBreak(tx)
  {
    hide DescriptorBlocksFor;
    var n := |tx.blocks|;
    forall k | 1 <= k < DescriptorBlocksFor(n) && ChunkStart(k) < n
      ensures DescriptorBlocksFor(tx.blocks[ChunkStart(k)].addr) > DescriptorBlocksFor(n) - k
    {
      AscendingAddress(tx, ChunkStart(k));
      DescriptorBlocksMonotone(n, tx.blocks[ChunkStart(k)].addr);
    }
  }

  lemma {:induction false} AscendingAddress(tx: Tx, i: nat)
    requires i < |tx.blocks| && forall x, y :: 0 <= x < y < |tx.blocks| ==> tx.blocks[x].addr < tx.blocks[y].addr
    ensures tx.blocks[i].addr >= i
  {
    if i > 0 { AscendingAddress(tx, i - 1); }
  }
}
