/** Directory blocks: variable-length records, and the list of live entries they hold. */
module DirFormat {
  import opened Bytes

  const HEADER: nat := 8
  const MAX_NAME: nat := 255

  type Name = seq<Byte>

  datatype Entry = Entry(ino: U32, fileType: Byte, name: Name)

  /** A record: its entry (inode 0 marks a deleted one) and its length, which may exceed what the name needs. */
  datatype DirEntry = DirEntry(entry: Entry, recLen: nat)

  function GetLE16(b: Block, pos: nat): nat
    requires pos + 2 <= BLOCK_SIZE
  {
    var hi: int := b[pos + 1];
    hi * 0x100 + b[pos]
  }

  function PutLE16(b: Block, pos: nat, v: nat): (r: Block)
    requires pos + 2 <= BLOCK_SIZE && v < 0x1_0000
    ensures GetLE16(r, pos) == v && forall q :: 0 <= q < BLOCK_SIZE && q != pos && q != pos + 1 ==> r[q] == b[q]
  {
    b[pos := v % 0x100][pos + 1 := v / 0x100]
  }

  function Align4(n: nat): nat { (n + 3) / 4 * 4 }

  function DirEntrySize(nameLen: nat): (r: nat)
    ensures HEADER + nameLen <= r < HEADER + nameLen + 4 && r % 4 == 0
  {
    Align4(HEADER + nameLen)
  }

  // ---------------------------------------------------------------- one record

  /** The record at byte off of a block. */
  function ParseDirEntry(blk: Block, off: nat): (r: Result<DirEntry>)
    requires off <= BLOCK_SIZE
    ensures r.Ok? ==> HEADER + |r.value.entry.name| <= r.value.recLen <= BLOCK_SIZE - off && |r.value.entry.name| <= MAX_NAME
  {
    if BLOCK_SIZE - off < HEADER then Err(BadLength)
    else
      var recLen, nameLen := GetLE16(blk, off + 4), blk[off + 6];
      if recLen < HEADER || recLen > BLOCK_SIZE - off then Err(InvalidArg)
      else if nameLen > recLen - HEADER then Err(InvalidArg)
      else Ok(DirEntry(Entry(GetLE32(blk, off), blk[off + 7], blk[off + HEADER..off + HEADER + nameLen]), recLen))
  }

  predicate Fits(de: DirEntry, off: nat) {
    && HEADER + |de.entry.name| <= de.recLen && |de.entry.name| <= MAX_NAME
    && off + de.recLen <= BLOCK_SIZE
  }

  /** The block with a record written at byte off; the bytes after the name are left as they were. */
  function EncodeDirEntry(blk: Block, off: nat, de: DirEntry): (r: Block)
    requires Fits(de, off)
  {
    var name := de.entry.name;
    var b: Block := PutLE32(blk, off, de.entry.ino);
    var c := PutLE16(b, off + 4, de.recLen);
    var d: Block := c[off + 6 := |name|][off + 7 := de.entry.fileType];
    d[..off + HEADER] + name + d[off + HEADER + |name|..]
  }

  /** A written record is read back, and no byte outside it changes. */
  lemma EncodeRoundTrip(blk: Block, off: nat, de: DirEntry)
    requires Fits(de, off)
    ensures ParseDirEntry(EncodeDirEntry(blk, off, de), off) == Ok(de)
    ensures forall q :: 0 <= q < BLOCK_SIZE && (q < off || off + de.recLen <= q) ==> EncodeDirEntry(blk, off, de)[q] == blk[q]
  {
    hide GetLE32, GetLE16;
    var name := de.entry.name;
    var r := EncodeDirEntry(blk, off, de);
    var b: Block := PutLE32(blk, off, de.entry.ino);
    LE32RoundTrip(blk, off, de.entry.ino);
    var c := PutLE16(b, off + 4, de.recLen);
    assert forall q :: 0 <= q < off + 6 ==> r[q] == c[q];
    SameWords(c, r, off);
    SameWords(b, c, off);
    assert r[off + HEADER..off + HEADER + |name|] == name;
  }

  lemma SameWords(b: Block, c: Block, off: nat)
    requires off + 6 <= BLOCK_SIZE && forall q :: off <= q < off + 4 ==> b[q] == c[q]
    ensures GetLE32(c, off) == GetLE32(b, off)
    ensures b[off + 4] == c[off + 4] && b[off + 5] == c[off + 5] ==> GetLE16(c, off + 4) == GetLE16(b, off + 4)
  {
  }

  /** A record depends on its own bytes only. */
  lemma ParseLocal(blk: Block, other: Block, off: nat)
    requires off <= BLOCK_SIZE && ParseDirEntry(blk, off).Ok?
    requires forall q :: off <= q < off + ParseDirEntry(blk, off).value.recLen ==> other[q] == blk[q]
    ensures ParseDirEntry(other, off) == ParseDirEntry(blk, off)
  {
    var de := ParseDirEntry(blk, off).value;
    assert other[off + HEADER..off + HEADER + |de.entry.name|] == blk[off + HEADER..off + HEADER + |de.entry.name|];
  }

  // ---------------------------------------------------------------- the records of a block

  function Live(e: Entry): (r: seq<Entry>) { if e.ino == 0 then [] else [e] }

  /** The live entries of the records from byte `from` up to byte `to`; a malformed record ends the list. */
  function Span(blk: Block, from: nat, to: nat): seq<Entry>
    requires from <= BLOCK_SIZE
    decreases BLOCK_SIZE - from
  {
    var p := ParseDirEntry(blk, from);
    if from >= to || p.Err? then [] else Live(p.value.entry) + Span(blk, from + p.value.recLen, to)
  }

  /** The live entries of a whole block, in order. */
  function Listing(blk: Block): seq<Entry> { Span(blk, 0, BLOCK_SIZE) }

  /** The records from `from` on end exactly at `to`. */
  predicate Boundary(blk: Block, from: nat, to: nat)
    requires from <= BLOCK_SIZE
    decreases BLOCK_SIZE - from
  {
    from == to || (from < to && ParseDirEntry(blk, from).Ok? && Boundary(blk, from + ParseDirEntry(blk, from).value.recLen, to))
  }

  /** The records tile the block exactly. */
  predicate Tiled(blk: Block) { Boundary(blk, 0, BLOCK_SIZE) }

  lemma {:induction false} SpanSplit(blk: Block, from: nat, mid: nat, to: nat)
    requires from <= BLOCK_SIZE && Boundary(blk, from, mid) && mid <= to && mid <= BLOCK_SIZE
    ensures Span(blk, from, to) == Span(blk, from, mid) + Span(blk, mid, to)
    decreases BLOCK_SIZE - from
  {
    hide ParseDirEntry, Live;
    if from < mid {
      var p := ParseDirEntry(blk, from).value;
      var next := from + p.recLen;
      SpanSplit(blk, next, mid, to);
      assert Span(blk, from, to) == Live(p.entry) + Span(blk, next, to);
      assert Span(blk, from, mid) == Live(p.entry) + Span(blk, next, mid);
    }
  }

  lemma {:induction false} BoundarySplit(blk: Block, from: nat, mid: nat, to: nat)
    requires from <= BLOCK_SIZE && Boundary(blk, from, mid) && mid <= to && mid <= BLOCK_SIZE
    ensures Boundary(blk, from, to) <==> Boundary(blk, mid, to)
    decreases BLOCK_SIZE - from
  {
    hide ParseDirEntry;
    if from < mid { BoundarySplit(blk, from + ParseDirEntry(blk, from).value.recLen, mid, to); }
  }

  lemma {:induction false} BoundaryOrder(blk: Block, from: nat, mid: nat)
    requires from <= BLOCK_SIZE && Boundary(blk, from, mid)
    ensures from <= mid
    decreases BLOCK_SIZE - from
  {
    hide ParseDirEntry;
  }

  /** Whole records depend on their own bytes only. */
  lemma {:induction false} SpanLocal(blk: Block, other: Block, from: nat, to: nat)
    requires from <= BLOCK_SIZE && Boundary(blk, from, to) && to <= BLOCK_SIZE
    requires forall q :: from <= q < to ==> other[q] == blk[q]
    ensures Span(other, from, to) == Span(blk, from, to) && Boundary(other, from, to)
    decreases BLOCK_SIZE - from
  {
    hide ParseDirEntry;
    if from < to {
      var next := from + ParseDirEntry(blk, from).value.recLen;
      BoundaryOrder(blk, next, to);
      ParseLocal(blk, other, from);
      SpanLocal(blk, other, next, to);
    }
  }

  /** What follows a byte, well formed or not, depends only on the bytes from there on. */
  lemma {:induction false} TailLocal(blk: Block, other: Block, from: nat)
    requires from <= BLOCK_SIZE
    requires forall q :: from <= q < BLOCK_SIZE ==> other[q] == blk[q]
    ensures Span(other, from, BLOCK_SIZE) == Span(blk, from, BLOCK_SIZE)
    ensures Boundary(other, from, BLOCK_SIZE) <==> Boundary(blk, from, BLOCK_SIZE)
    decreases BLOCK_SIZE - from
  {
    ParseTail(blk, other, from);
    hide ParseDirEntry;
    if ParseDirEntry(blk, from).Ok? { TailLocal(blk, other, from + ParseDirEntry(blk, from).value.recLen); }
  }

  lemma ParseTail(blk: Block, other: Block, off: nat)
    requires off <= BLOCK_SIZE && forall q :: off <= q < BLOCK_SIZE ==> other[q] == blk[q]
    ensures ParseDirEntry(other, off) == ParseDirEntry(blk, off)
  {
    if ParseDirEntry(blk, off).Ok? { ParseLocal(blk, other, off); }
  }

  lemma ParseZero()
    ensures Listing(Zero()) == []
  {
    assert GetLE16(Zero(), 4) == 0;
  }

  lemma OneRecord(blk: Block, off: nat)
    requires off <= BLOCK_SIZE && ParseDirEntry(blk, off).Ok?
    ensures var de := ParseDirEntry(blk, off).value;
            Boundary(blk, off, off + de.recLen) && Span(blk, off, off + de.recLen) == Live(de.entry)
  {
    hide ParseDirEntry;
    var end := off + ParseDirEntry(blk, off).value.recLen;
    assert Span(blk, end, end) == [] && Boundary(blk, end, end);
  }

  /** Replacing the records of one stretch by others of the same total length changes the listing there and
      nowhere else, and keeps a tiling. */
  lemma ReplaceStretch(blk: Block, other: Block, from: nat, to: nat)
    requires from <= to <= BLOCK_SIZE && Boundary(blk, 0, from) && Boundary(blk, from, to) && Boundary(other, from, to)
    requires forall q :: 0 <= q < from || to <= q < BLOCK_SIZE ==> other[q] == blk[q]
    ensures Listing(blk) == Span(blk, 0, from) + Span(blk, from, to) + Span(blk, to, BLOCK_SIZE)
    ensures Listing(other) == Span(blk, 0, from) + Span(other, from, to) + Span(blk, to, BLOCK_SIZE)
    ensures Tiled(other) <==> Tiled(blk)
  {
    hide Span, Boundary;
    SpanLocal(blk, other, 0, from);
    SpanSplit(blk, 0, from, BLOCK_SIZE);
    SpanSplit(blk, from, to, BLOCK_SIZE);
    SpanSplit(other, 0, from, BLOCK_SIZE);
    SpanSplit(other, from, to, BLOCK_SIZE);
    BoundarySplit(blk, 0, from, BLOCK_SIZE);
    BoundarySplit(blk, from, to, BLOCK_SIZE);
    BoundarySplit(other, 0, from, BLOCK_SIZE);
    BoundarySplit(other, from, to, BLOCK_SIZE);
    TailLocal(blk, other, to);
  }

  // ---------------------------------------------------------------- inserting

  /** A record can take a new entry of the given size: a deleted one as a whole, a live one by its spare tail. */
  predicate Room(de: DirEntry, needed: nat) {
    if de.entry.ino == 0 then de.recLen >= needed else de.recLen - DirEntrySize(|de.entry.name|) >= needed
  }

  predicate NoRoom(blk: Block, from: nat, needed: nat)
    requires from <= BLOCK_SIZE
    decreases BLOCK_SIZE - from
  {
    var p := ParseDirEntry(blk, from);
    p.Ok? ==> !Room(p.value, needed) && NoRoom(blk, from + p.value.recLen, needed)
  }

  /** The block with entry e put into the record at off. */
  function Insert(blk: Block, off: nat, e: Entry): Block
    requires off <= BLOCK_SIZE && ParseDirEntry(blk, off).Ok? && |e.name| <= MAX_NAME
    requires Room(ParseDirEntry(blk, off).value, DirEntrySize(|e.name|))
  {
    var de := ParseDirEntry(blk, off).value;
    if de.entry.ino == 0 then EncodeDirEntry(blk, off, DirEntry(e, de.recLen))
    else
      var minSize := DirEntrySize(|de.entry.name|);
      EncodeDirEntry(PutLE16(blk, off + 4, minSize), off + minSize, DirEntry(e, de.recLen - minSize))
  }

  lemma ShrinkRecord(blk: Block, off: nat, minSize: nat)
    requires off <= BLOCK_SIZE && ParseDirEntry(blk, off).Ok?
    requires HEADER + |ParseDirEntry(blk, off).value.entry.name| <= minSize <= ParseDirEntry(blk, off).value.recLen
    ensures ParseDirEntry(PutLE16(blk, off + 4, minSize), off) == Ok(DirEntry(ParseDirEntry(blk, off).value.entry, minSize))
  {
    var de := ParseDirEntry(blk, off).value;
    var b := PutLE16(blk, off + 4, minSize);
    assert b[off + HEADER..off + HEADER + |de.entry.name|] == blk[off + HEADER..off + HEADER + |de.entry.name|];
    assert GetLE32(b, off) == GetLE32(blk, off);
  }

  /** The records that take the place of the one at off: the old one if it was live, then the new one. */
  lemma InsertStretch(blk: Block, off: nat, e: Entry)
    requires off <= BLOCK_SIZE && ParseDirEntry(blk, off).Ok? && |e.name| <= MAX_NAME
    requires Room(ParseDirEntry(blk, off).value, DirEntrySize(|e.name|))
    ensures var de, out := ParseDirEntry(blk, off).value, Insert(blk, off, e);
            && Boundary(out, off, off + de.recLen) && Span(out, off, off + de.recLen) == Live(de.entry) + Live(e)
            && forall q :: 0 <= q < off || off + de.recLen <= q < BLOCK_SIZE ==> out[q] == blk[q]
  {
    hide EncodeDirEntry, ParseDirEntry;
    var de, out := ParseDirEntry(blk, off).value, Insert(blk, off, e);
    var end := off + de.recLen;
    if de.entry.ino == 0 {
      EncodeRoundTrip(blk, off, DirEntry(e, de.recLen));
      assert Span(out, end, end) == [];
    } else {
      var minSize := DirEntrySize(|de.entry.name|);
      var b := PutLE16(blk, off + 4, minSize);
      ShrinkRecord(blk, off, minSize);
      EncodeRoundTrip(b, off + minSize, DirEntry(e, de.recLen - minSize));
      ParseLocal(b, out, off);
      assert Span(out, end, end) == [] && Boundary(out, end, end);
      assert Span(out, off + minSize, end) == Live(e) && Boundary(out, off + minSize, end);
    }
  }

  /** Inserting puts the entry somewhere into the listing and keeps the tiling. */
  lemma InsertListing(blk: Block, off: nat, e: Entry)
    requires off <= BLOCK_SIZE && Boundary(blk, 0, off) && ParseDirEntry(blk, off).Ok? && |e.name| <= MAX_NAME
    requires Room(ParseDirEntry(blk, off).value, DirEntrySize(|e.name|))
    ensures Tiled(Insert(blk, off, e)) <==> Tiled(blk)
    ensures exists a, b :: Listing(blk) == a + b && Listing(Insert(blk, off, e)) == a + Live(e) + b
  {
    hide Insert, ParseDirEntry, Span, Boundary;
    var de, out := ParseDirEntry(blk, off).value, Insert(blk, off, e);
    var end := off + de.recLen;
    InsertStretch(blk, off, e);
    OneRecord(blk, off);
    ReplaceStretch(blk, out, off, end);
    var a, b := Span(blk, 0, off) + Live(de.entry), Span(blk, end, BLOCK_SIZE);
    assert Listing(out) == a + Live(e) + b;
  }

  // ---------------------------------------------------------------- deleting

  /** The block with the record at off marked deleted. */
  function Delete(blk: Block, off: nat): Block
    requires off + 4 <= BLOCK_SIZE
  {
    PutLE32(blk, off, 0)
  }

  lemma DeleteParse(blk: Block, off: nat)
    requires off <= BLOCK_SIZE && ParseDirEntry(blk, off).Ok?
    ensures var de := ParseDirEntry(blk, off).value;
            ParseDirEntry(Delete(blk, off), off) == Ok(DirEntry(Entry(0, de.entry.fileType, de.entry.name), de.recLen))
  {
    var de, out := ParseDirEntry(blk, off).value, Delete(blk, off);
    LE32RoundTrip(blk, off, 0);
    assert out[off + HEADER..off + HEADER + |de.entry.name|] == blk[off + HEADER..off + HEADER + |de.entry.name|];
  }

  /** Deleting takes exactly that entry out of the listing and keeps the tiling. */
  lemma DeleteListing(blk: Block, off: nat)
    requires off <= BLOCK_SIZE && Boundary(blk, 0, off) && ParseDirEntry(blk, off).Ok?
    ensures Tiled(Delete(blk, off)) <==> Tiled(blk)
    ensures var de := ParseDirEntry(blk, off).value;
            && Listing(blk) == Span(blk, 0, off) + Live(de.entry) + Span(blk, off + de.recLen, BLOCK_SIZE)
            && Listing(Delete(blk, off)) == Span(blk, 0, off) + Span(blk, off + de.recLen, BLOCK_SIZE)
  {
    hide ParseDirEntry, Delete, Span, Boundary;
    var de, out := ParseDirEntry(blk, off).value, Delete(blk, off);
    var end := off + de.recLen;
    DeleteParse(blk, off);
    DeleteFrame(blk, off);
    OneRecord(blk, off);
    OneRecord(out, off);
    ReplaceStretch(blk, out, off, end);
  }

  lemma DeleteFrame(blk: Block, off: nat)
    requires off + 4 <= BLOCK_SIZE
    ensures forall q :: 0 <= q < off || off + 4 <= q < BLOCK_SIZE ==> Delete(blk, off)[q] == blk[q]
  {
  }

  /** A record with room anywhere in the block is found. */
  lemma {:induction false} RoomFound(blk: Block, from: nat, off: nat, needed: nat)
    requires from <= BLOCK_SIZE && off <= BLOCK_SIZE && Boundary(blk, from, off)
    requires ParseDirEntry(blk, off).Ok? && Room(ParseDirEntry(blk, off).value, needed)
    ensures !NoRoom(blk, from, needed)
    decreases BLOCK_SIZE - from
  {
    hide ParseDirEntry, Room;
    if from < off { RoomFound(blk, from + ParseDirEntry(blk, from).value.recLen, off, needed); }
  }

  /** Deleting an entry makes room for any name that fits its record; the space is not lost. */
  lemma DeletedMakesRoom(blk: Block, off: nat, nameLen: nat)
    requires off <= BLOCK_SIZE && Boundary(blk, 0, off) && ParseDirEntry(blk, off).Ok?
    requires DirEntrySize(nameLen) <= ParseDirEntry(blk, off).value.recLen
    ensures !NoRoom(Delete(blk, off), 0, DirEntrySize(nameLen))
  {
    hide ParseDirEntry, Delete, Span, Boundary, DirEntrySize;
    DeleteParse(blk, off);
    DeleteFrame(blk, off);
    SpanLocal(blk, Delete(blk, off), 0, off);
    RoomFound(Delete(blk, off), 0, off, DirEntrySize(nameLen));
  }
}
