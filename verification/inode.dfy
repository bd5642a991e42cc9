/** The inode table: 128-byte records packed into blocks. */
module InodeTable {
  import opened Bytes
  import opened Device
  import opened Allocation
  import opened BlockMap
  import opened DirFormat

  type U16 = x: int | 0 <= x < 0x1_0000
  type Ptrs = p: seq<U32> | |p| == SLOTS witness seq(SLOTS, _ => 0)

  datatype InodeRecord = InodeRecord(
    mode: U16, uid: U16, sizeLo: U32, atime: U32, ctime: U32, mtime: U32, dtime: U32, gid: U16, links: U16,
    blocks512: U32, flags: U32, ptrs: Ptrs, generation: U32, sizeHi: U32)

  // ---------------------------------------------------------------- 64-bit sizes

  function Size(r: InodeRecord): nat {
    var hi: int := r.sizeHi;
    hi * 0x1_0000_0000 + r.sizeLo
  }

  function SetSize(r: InodeRecord, size: nat): InodeRecord {
    r.(sizeLo := size % 0x1_0000_0000, sizeHi := size / 0x1_0000_0000 % 0x1_0000_0000)
  }

  lemma SizeRoundTrip(r: InodeRecord, size: nat)
    ensures Size(SetSize(r, size)) == size <==> size < 0x1_0000_0000_0000_0000
  {
    var hi := size / 0x1_0000_0000;
    assert size == hi * 0x1_0000_0000 + size % 0x1_0000_0000;
  }

  // ---------------------------------------------------------------- words in a row

  function PutWords(b: Block, pos: nat, ws: seq<U32>): (r: Block)
    requires pos + 4 * |ws| <= BLOCK_SIZE
    ensures forall q :: 0 <= q < BLOCK_SIZE && (q < pos || pos + 4 * |ws| <= q) ==> r[q] == b[q]
    decreases |ws|
  {
    if ws == [] then b
    else
      var c: Block := PutLE32(b, pos, ws[0]);
      PutWords(c, pos + 4, ws[1..])
  }

  function GetWords(b: Block, pos: nat, n: nat): (ws: seq<U32>)
    requires pos + 4 * n <= BLOCK_SIZE
    ensures |ws| == n
    decreases n
  {
    if n == 0 then [] else [GetLE32(b, pos)] + GetWords(b, pos + 4, n - 1)
  }

  lemma {:induction false} WordsRoundTrip(b: Block, pos: nat, ws: seq<U32>)
    requires pos + 4 * |ws| <= BLOCK_SIZE
    ensures GetWords(PutWords(b, pos, ws), pos, |ws|) == ws
    decreases |ws|
  {
    if ws != [] {
      var c: Block := PutLE32(b, pos, ws[0]);
      var d := PutWords(c, pos + 4, ws[1..]);
      LE32RoundTrip(b, pos, ws[0]);
      assert GetLE32(d, pos) == GetLE32(c, pos);
      hide GetLE32, PutLE32;
      WordsRoundTrip(c, pos + 4, ws[1..]);
    }
  }

  lemma {:induction false} WordsLocal(b: Block, c: Block, pos: nat, n: nat)
    requires pos + 4 * n <= BLOCK_SIZE && forall q :: pos <= q < pos + 4 * n ==> c[q] == b[q]
    ensures GetWords(c, pos, n) == GetWords(b, pos, n)
    decreases n
  {
    if n > 0 { WordsLocal(b, c, pos + 4, n - 1); }
  }

  // ---------------------------------------------------------------- one record

  /** The first forty bytes: everything before the block pointers. */
  function EncodeHead(b: Block, off: nat, r: InodeRecord): (c: Block)
    requires off + INODE_SIZE <= BLOCK_SIZE
    ensures forall q :: 0 <= q < BLOCK_SIZE && (q < off || off + 36 <= q) ==> c[q] == b[q]
  {
    var b1 := PutLE16(PutLE16(b, off, r.mode), off + 2, r.uid);
    var b2 := PutWords(b1, off + 4, [r.sizeLo, r.atime, r.ctime, r.mtime, r.dtime]);
    var b3 := PutLE16(PutLE16(b2, off + 24, r.gid), off + 26, r.links);
    PutWords(b3, off + 28, [r.blocks512, r.flags])
  }

  function EncodeInode(b: Block, off: nat, r: InodeRecord): (c: Block)
    requires off + INODE_SIZE <= BLOCK_SIZE
    ensures forall q :: 0 <= q < BLOCK_SIZE && (q < off || off + INODE_SIZE <= q) ==> c[q] == b[q]
  {
    var b4 := PutWords(EncodeHead(b, off, r), off + 40, r.ptrs);
    var b5: Block := PutLE32(b4, off + 104, r.generation);
    PutLE32(b5, off + 116, r.sizeHi)
  }

  function DecodeInode(b: Block, off: nat): InodeRecord
    requires off + INODE_SIZE <= BLOCK_SIZE
  {
    var t, f := GetWords(b, off + 4, 5), GetWords(b, off + 28, 2);
    InodeRecord(GetLE16(b, off), GetLE16(b, off + 2), t[0], t[1], t[2], t[3], t[4], GetLE16(b, off + 24), GetLE16(b, off + 26),
                f[0], f[1], GetWords(b, off + 40, SLOTS), GetLE32(b, off + 104), GetLE32(b, off + 116))
  }

  lemma SameHalf(b: Block, c: Block, pos: nat)
    requires pos + 2 <= BLOCK_SIZE && c[pos] == b[pos] && c[pos + 1] == b[pos + 1]
    ensures GetLE16(c, pos) == GetLE16(b, pos)
  {
  }

  lemma HeadRoundTrip(b: Block, off: nat, r: InodeRecord)
    requires off + INODE_SIZE <= BLOCK_SIZE
    ensures var c := EncodeHead(b, off, r);
            && GetLE16(c, off) == r.mode && GetLE16(c, off + 2) == r.uid
            && GetWords(c, off + 4, 5) == [r.sizeLo, r.atime, r.ctime, r.mtime, r.dtime]
            && GetLE16(c, off + 24) == r.gid && GetLE16(c, off + 26) == r.links
            && GetWords(c, off + 28, 2) == [r.blocks512, r.flags]
  {
    hide GetLE16, PutLE16, PutWords, GetWords;
    var times, last := [r.sizeLo, r.atime, r.ctime, r.mtime, r.dtime], [r.blocks512, r.flags];
    var b0 := PutLE16(b, off, r.mode);
    var b1 := PutLE16(b0, off + 2, r.uid);
    var b2 := PutWords(b1, off + 4, times);
    var b3 := PutLE16(b2, off + 24, r.gid);
    var b4 := PutLE16(b3, off + 26, r.links);
    var c := PutWords(b4, off + 28, last);
    SameHalf(b0, c, off);
    SameHalf(b1, c, off + 2);
    SameHalf(b3, c, off + 24);
    SameHalf(b4, c, off + 26);
    WordsRoundTrip(b1, off + 4, times);
    WordsLocal(b2, c, off + 4, 5);
    WordsRoundTrip(b4, off + 28, last);
  }

  /** A written record is read back, whatever the block held before. */
  lemma InodeRoundTrip(b: Block, off: nat, r: InodeRecord)
    requires off + INODE_SIZE <= BLOCK_SIZE
    ensures DecodeInode(EncodeInode(b, off, r), off) == r
  {
    hide GetLE16, PutWords, GetWords, EncodeHead, GetLE32;
    var h := EncodeHead(b, off, r);
    var b4 := PutWords(h, off + 40, r.ptrs);
    var b5: Block := PutLE32(b4, off + 104, r.generation);
    var c: Block := PutLE32(b5, off + 116, r.sizeHi);
    HeadRoundTrip(b, off, r);
    SameHalf(h, c, off);
    SameHalf(h, c, off + 2);
    SameHalf(h, c, off + 24);
    SameHalf(h, c, off + 26);
    WordsLocal(h, c, off + 4, 5);
    WordsLocal(h, c, off + 28, 2);
    WordsRoundTrip(h, off + 40, r.ptrs);
    WordsLocal(b4, c, off + 40, SLOTS);
    LE32RoundTrip(b4, off + 104, r.generation);
    LE32RoundTrip(b5, off + 116, r.sizeHi);
  }

  /** A record depends on its own 128 bytes only. */
  lemma DecodeLocal(b: Block, c: Block, off: nat)
    requires off + INODE_SIZE <= BLOCK_SIZE && forall q :: off <= q < off + INODE_SIZE ==> c[q] == b[q]
    ensures DecodeInode(c, off) == DecodeInode(b, off)
  {
    hide GetLE16, GetWords, GetLE32;
    SameHalf(b, c, off);
    SameHalf(b, c, off + 2);
    SameHalf(b, c, off + 24);
    SameHalf(b, c, off + 26);
    WordsLocal(b, c, off + 4, 5);
    WordsLocal(b, c, off + 28, 2);
    WordsLocal(b, c, off + 40, SLOTS);
    SameWords(b, c, off + 104);
    SameWords(b, c, off + 116);
  }

  // ---------------------------------------------------------------- the table

  /** Two inodes never share a byte of the table. */
  lemma SlotsDisjoint(i: nat, j: nat)
    requires 1 <= i <= INODE_COUNT && 1 <= j <= INODE_COUNT && i != j
    ensures var (a, o), (b, p) := InodeNumToBlock(i), InodeNumToBlock(j);
            a != b || o + INODE_SIZE <= p || p + INODE_SIZE <= o
  {
    var x, y := (i - 1) * INODE_SIZE, (j - 1) * INODE_SIZE;
    assert x == x / BLOCK_SIZE * BLOCK_SIZE + x % BLOCK_SIZE && y == y / BLOCK_SIZE * BLOCK_SIZE + y % BLOCK_SIZE;
  }

  /** The record of inode num in an image. */
  ghost function RecordAt(img: Image, num: nat): InodeRecord
    requires 1 <= num <= INODE_COUNT && |img| == TOTAL_BLOCKS
  {
    var (a, off) := InodeNumToBlock(num);
    DecodeInode(img[a], off)
  }

  method ReadInode(dev: BlockDevice, num: nat) returns (r: Result<InodeRecord>)
    requires dev.Valid() && |dev.data| == TOTAL_BLOCKS
    ensures num == 0 || num > INODE_COUNT ==> r == Err(InvalidArg)
    ensures r.Ok? ==> r.value == RecordAt(dev.data, num)
    ensures !dev.faulty && 1 <= num <= INODE_COUNT ==> r.Ok?
  {
    hide DecodeInode;
    if num == 0 || num > INODE_COUNT { return Err(InvalidArg); }
    var (a, off) := InodeNumToBlock(num);
    var blk := dev.ReadBlock(a);
    if blk.Err? { return Err(blk.error); }
    return Ok(DecodeInode(blk.value, off));
  }

  /** Writes one record; every other record of the table and every block outside it stays as it was. */
  method WriteInode(dev: BlockDevice, num: nat, rec: InodeRecord) returns (r: Result<()>)
    requires dev.Valid() && |dev.data| == TOTAL_BLOCKS
    modifies dev`data, dev`dirty
    ensures dev.Valid() && |dev.data| == TOTAL_BLOCKS
    ensures num == 0 || num > INODE_COUNT ==> r == Err(InvalidArg)
    ensures r.Err? ==> dev.data == old(dev.data)
    ensures r.Ok? ==> 1 <= num <= INODE_COUNT
    ensures r.Ok? ==> forall j :: 1 <= j <= INODE_COUNT ==>
              RecordAt(dev.data, j) == if j == num then rec else RecordAt(old(dev.data), j)
    ensures r.Ok? ==> forall a :: 0 <= a < TOTAL_BLOCKS && !(INODE_TABLE_START <= a < JOURNAL_START) ==> dev.data[a] == old(dev.data)[a]
    ensures !dev.faulty && 1 <= num <= INODE_COUNT ==> r.Ok?
  {
    hide DecodeInode, EncodeInode, InodeNumToBlock;
    if num == 0 || num > INODE_COUNT { return Err(InvalidArg); }
    var (a, off) := InodeNumToBlock(num);
    var blk := dev.ReadBlock(a);
    if blk.Err? { return Err(blk.error); }
    r := dev.WriteBlock(a, EncodeInode(blk.value, off, rec));
    if r.Err? { return; }
    forall j | 1 <= j <= INODE_COUNT ensures RecordAt(dev.data, j) == if j == num then rec else RecordAt(old(dev.data), j) {
      OtherRecord(old(dev.data), num, rec, j);
    }
  }

  lemma OtherRecord(img: Image, num: nat, rec: InodeRecord, j: nat)
    requires |img| == TOTAL_BLOCKS && 1 <= num <= INODE_COUNT && 1 <= j <= INODE_COUNT
    ensures var (a, off) := InodeNumToBlock(num);
            var out := img[a := EncodeInode(img[a], off, rec)];
            RecordAt(out, j) == if j == num then rec else RecordAt(img, j)
  {
    hide DecodeInode, EncodeInode, InodeNumToBlock;
    var (a, off) := InodeNumToBlock(num);
    if j == num {
      InodeRoundTrip(img[a], off, rec);
    } else {
      SlotsDisjoint(num, j);
      var (b, p) := InodeNumToBlock(j);
      if a == b { DecodeLocal(img[a], EncodeInode(img[a], off, rec), p); }
    }
  }
}
