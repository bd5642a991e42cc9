/** Changing a directory: adding a name in place, by splitting a record or in a new block; removing a name. */
module Directory {
  import opened Bytes
  import opened Device
  import opened Bitmaps
  import opened Allocation
  import opened BlockMap
  import opened Extents
  import opened DirFormat
  import opened DirMaps
  import opened DirState
  import opened DirRead

  // ---------------------------------------------------------------- one block

  /** Puts an entry into the first record of the block with room for it. */
  method InsertIntoBlock(blk: Block, e: Entry) returns (done: bool, out: Block)
    requires |e.name| <= MAX_NAME
    ensures done == !NoRoom(blk, 0, DirEntrySize(|e.name|))
    ensures if done then Inserted(Listing(blk), Listing(out), e) && (Tiled(out) <==> Tiled(blk)) else out == blk
  {
    hide ParseDirEntry, EncodeDirEntry, Span, Boundary, PutLE16, Room, NoRoom, Listing, Tiled;
    var needed := DirEntrySize(|e.name|);
    assert Boundary(blk, 0, 0) by { EmptySpan(blk, 0); }
    var off := 0;
    while off + HEADER <= BLOCK_SIZE
      invariant 0 <= off <= BLOCK_SIZE && Boundary(blk, 0, off)
      invariant NoRoom(blk, 0, needed) <==> NoRoom(blk, off, needed)
      decreases BLOCK_SIZE - off
    {
      var p := ParseDirEntry(blk, off);
      if p.Err? { break; }
      var de := p.value;
      RoomStep(blk, off, needed);
      if de.entry.ino == 0 {
        if de.recLen >= needed {
          InsertListing(blk, off, e);
          return true, EncodeDirEntry(blk, off, DirEntry(e, de.recLen));
        }
      } else {
        var minSize := DirEntrySize(|de.entry.name|);
        var spare := de.recLen - minSize;
        if spare >= needed {
          InsertListing(blk, off, e);
          out := PutLE16(blk, off + 4, minSize);
          out := EncodeDirEntry(out, off + minSize, DirEntry(e, spare));
          return true, out;
        }
      }
      NextRecord(blk, off);
      off := off + de.recLen;
    }
    RoomEnd(blk, off, needed);
    return false, blk;
  }

  lemma RoomStep(blk: Block, off: nat, needed: nat)
    requires off <= BLOCK_SIZE && ParseDirEntry(blk, off).Ok?
    ensures var de := ParseDirEntry(blk, off).value;
            && (NoRoom(blk, off, needed) <==> !Room(de, needed) && NoRoom(blk, off + de.recLen, needed))
            && (Room(de, needed) <==> if de.entry.ino == 0 then de.recLen >= needed
                                      else de.recLen - DirEntrySize(|de.entry.name|) >= needed)
  {
    hide ParseDirEntry;
  }

  lemma RoomEnd(blk: Block, off: nat, needed: nat)
    requires off <= BLOCK_SIZE && (off + HEADER <= BLOCK_SIZE ==> ParseDirEntry(blk, off).Err?)
    ensures NoRoom(blk, off, needed)
  {
  }

  /** Marks the first live record of that name deleted. */
  method RemoveFromBlock(blk: Block, name: Name) returns (done: bool, out: Block)
    ensures done <==> exists e :: e in Listing(blk) && e.name == name
    ensures if done then Removed(Listing(blk), Listing(out), name) && (Tiled(out) <==> Tiled(blk)) else out == blk
  {
    hide ParseDirEntry, Span, Boundary, PutLE32, Listing, Tiled, Delete;
    assert Boundary(blk, 0, 0) && Span(blk, 0, 0) == [] by { EmptySpan(blk, 0); }
    var off := 0;
    while off + HEADER <= BLOCK_SIZE
      invariant 0 <= off <= BLOCK_SIZE && Boundary(blk, 0, off)
      invariant forall e :: e in Span(blk, 0, off) ==> e.name != name
      decreases BLOCK_SIZE - off
    {
      var p := ParseDirEntry(blk, off);
      if p.Err? { break; }
      var de := p.value;
      if de.entry.ino != 0 && de.entry.name == name {
        DeleteListing(blk, off);
        assert de.entry in Listing(blk);
        return true, Delete(blk, off);
      }
      NextRecord(blk, off);
      off := off + de.recLen;
    }
    WholeListing(blk, off);
    return false, blk;
  }

  lemma WholeListing(blk: Block, off: nat)
    requires off <= BLOCK_SIZE && Boundary(blk, 0, off) && (off + HEADER <= BLOCK_SIZE ==> ParseDirEntry(blk, off).Err?)
    ensures Listing(blk) == Span(blk, 0, off)
  {
    hide ParseDirEntry, Span, Boundary;
    SpanSplit(blk, 0, off, BLOCK_SIZE);
    NoRecord(blk, off);
  }

  // ---------------------------------------------------------------- a new block

  /** No metadata block but the block bitmap changed. */
  ghost predicate MetaSame(a: Image, b: Image) {
    |a| == |b| == TOTAL_BLOCKS && forall x :: 0 <= x < DATA_START && x != BLOCK_BITMAP_ADDR ==> b[x] == a[x]
  }

  /** The state as it was before block phys was taken: phys counts as free. */
  ghost function Without(s: State, phys: nat): State { State(s.files, s.img, s.used - {phys}) }

  /** Maps an already filled block at a hole; only direct and single indirect places can be mapped. */
  method SetBlockForOffset(alloc: Allocator, di: DiskInode, lb: nat, phys: nat, ghost files: map<nat, Roots>, ghost inum: nat)
    returns (r: Result<()>)
    requires alloc.Valid() && di.Valid() && InRegion(phys) && phys in alloc.blockBM.Used()
    requires Owns(Without(Now(alloc, di, files, inum), phys))
    requires lb < MAX_LOGICAL ==> Addr(Without(Now(alloc, di, files, inum), phys), PosOf(inum, lb)) == 0
    modifies alloc.dev`data, alloc.dev`dirty, alloc.blockBM`bits, alloc.sb`freeBlocks, di
    ensures MetaSame(old(alloc.dev.data), alloc.dev.data)
    ensures alloc.Valid() && di.Valid() && di.size == old(di.size)
    ensures r.Ok? ==> Owns(Now(alloc, di, files, inum)) && Addr(Now(alloc, di, files, inum), PosOf(inum, lb)) == phys
    ensures r.Ok? ==> OneBlock(old(Without(Now(alloc, di, files, inum), phys)), Now(alloc, di, files, inum), inum, lb, old(alloc.dev.data)[phys])
    ensures r.Ok? <==> lb < DIRECT + PTRS && !(lb >= DIRECT && old(di.indirect1) == 0 && RegionFull(old(alloc.blockBM.Used())))
    ensures r.Err? ==> Now(alloc, di, files, inum) == old(Now(alloc, di, files, inum))
    ensures r.Err? ==> r == Err(if lb < DIRECT + PTRS then NoSpace else TooBig)
  {
    hide Owns, Addr, OneBlock, SameBlocks, PosOf, Bitmap.Used, RegionFull;
    ghost var s := Without(Now(alloc, di, files, inum), phys);
    if lb >= DIRECT + PTRS { return Err(TooBig); }
    PosOfLogical(s.files, inum, lb);
    if lb < DIRECT {
      di.SetSlot(lb, phys);
      di.AddBlocks512();
      ghost var t := Now(alloc, di, files, inum);
      LinkSlot(s, t, inum, lb, phys);
      return Ok(());
    }
    r := EnsureIndirect(alloc, di, lb, phys, files, inum);
    if r.Err? { return; }
    ghost var mid := Without(Now(alloc, di, files, inum), phys);
    StoreIndirect(alloc, di, lb, phys, files, inum);
    OneBlockAfterSame(s, mid, Now(alloc, di, files, inum), inum, lb, s.img[phys]);
    return Ok(());
  }

  /** Allocates the single indirect block if the inode has none. */
  method EnsureIndirect(alloc: Allocator, di: DiskInode, lb: nat, phys: nat, ghost files: map<nat, Roots>, ghost inum: nat)
    returns (r: Result<()>)
    requires alloc.Valid() && di.Valid() && InRegion(phys) && phys in alloc.blockBM.Used() && DIRECT <= lb < DIRECT + PTRS
    requires Owns(Without(Now(alloc, di, files, inum), phys))
    requires Addr(Without(Now(alloc, di, files, inum), phys), PosOf(inum, lb)) == 0
    modifies alloc.dev`data, alloc.dev`dirty, alloc.blockBM`bits, alloc.sb`freeBlocks, di
    ensures alloc.Valid() && di.Valid() && di.size == old(di.size) && phys in alloc.blockBM.Used()
    ensures MetaSame(old(alloc.dev.data), alloc.dev.data)
    ensures alloc.dev.data[phys] == old(alloc.dev.data[phys])
    ensures r.Ok? ==> di.indirect1 != 0 && Owns(Without(Now(alloc, di, files, inum), phys))
    ensures r.Ok? ==> Addr(Without(Now(alloc, di, files, inum), phys), PosOf(inum, lb)) == 0
    ensures r.Ok? ==> SameBlocks(old(Without(Now(alloc, di, files, inum), phys)), Without(Now(alloc, di, files, inum), phys))
    ensures r.Err? <==> old(di.indirect1) == 0 && RegionFull(old(alloc.blockBM.Used()))
    ensures r.Err? ==> r == Err(NoSpace) && Now(alloc, di, files, inum) == old(Now(alloc, di, files, inum))
  {
    hide Owns, Addr, BitmapBlock, Zero, SameBlocks, PosOf, Bitmap.Used, Bitmap.Valid, RegionFull;
    ghost var s := Without(Now(alloc, di, files, inum), phys);
    FullIs(alloc.blockBM.Used());
    SameBlocksRefl(s);
    if di.indirect1 == 0 {
      var ind := alloc.AllocBlock();
      if ind.Err? { return Err(NoSpace); }
      di.SetSlot(12, ind.value);
      di.AddBlocks512();
      ghost var t := Without(Now(alloc, di, files, inum), phys);
      assert di.Ptrs()[12] == di.indirect1;
      assert t.files == s.files[inum := s.files[inum][12 := ind.value]];
      GrowIndirect(s, BitmapBlock(alloc.blockBM.bits), t, inum, lb, ind.value);
    }
    return Ok(());
  }

  /** Writes the pointer into the single indirect block. */
  method StoreIndirect(alloc: Allocator, di: DiskInode, lb: nat, phys: nat, ghost files: map<nat, Roots>, ghost inum: nat)
    requires alloc.Valid() && di.Valid() && InRegion(phys) && phys in alloc.blockBM.Used() && DIRECT <= lb < DIRECT + PTRS
    requires Owns(Without(Now(alloc, di, files, inum), phys)) && di.indirect1 != 0
    requires Addr(Without(Now(alloc, di, files, inum), phys), PosOf(inum, lb)) == 0
    modifies alloc.dev`data, alloc.dev`dirty, di`blocks512
    ensures MetaSame(old(alloc.dev.data), alloc.dev.data)
    ensures alloc.Valid() && di.Valid()
    ensures Owns(Now(alloc, di, files, inum)) && Addr(Now(alloc, di, files, inum), PosOf(inum, lb)) == phys
    ensures OneBlock(old(Without(Now(alloc, di, files, inum), phys)), Now(alloc, di, files, inum), inum, lb, old(alloc.dev.data)[phys])
  {
    hide Owns, Addr, BitmapBlock, OneBlock, PosOf, WritePointer, Bitmap.Used;
    ghost var s := Without(Now(alloc, di, files, inum), phys);
    IndirectFacts(s, inum, lb);
    var rd := alloc.dev.ReadBlock(di.indirect1);
    di.AddBlocks512();
    var w := alloc.dev.WriteBlock(di.indirect1, WritePointer(rd.value, lb - DIRECT, phys));
    LinkIndirect(s, Now(alloc, di, files, inum), inum, lb, phys);
  }

  lemma SameBlocksRefl(s: State)
    ensures SameBlocks(s, s)
  {
  }

  lemma LinkSlot(s: State, t: State, inum: nat, lb: nat, v: nat)
    requires Owns(s) && inum in s.files && lb < DIRECT && Addr(s, PosOf(inum, lb)) == 0 && InRegion(v) && v !in s.used
    requires t == State(s.files[inum := s.files[inum][lb := v]], s.img, s.used + {v})
    ensures |s.img| == TOTAL_BLOCKS && Owns(t) && OneBlock(s, t, inum, lb, s.img[v]) && Addr(t, PosOf(inum, lb)) == v
  {
    hide Addr, OneBlock;
    LinkFilled(s, t, inum, lb, v);
  }

  /** A fresh single indirect block changes nothing any file holds. */
  lemma GrowIndirect(s: State, bm: Block, t: State, inum: nat, lb: nat, v: nat)
    requires Owns(s) && inum in s.files && DIRECT <= lb < DIRECT + PTRS && s.files[inum][12] == 0
    requires Addr(s, PosOf(inum, lb)) == 0 && InRegion(v) && v !in s.used && |s.img| == TOTAL_BLOCKS
    requires t == State(s.files[inum := s.files[inum][12 := v]], s.img[BLOCK_BITMAP_ADDR := bm][v := Zero()], s.used + {v})
    ensures Owns(t) && SameBlocks(s, t) && Addr(t, PosOf(inum, lb)) == 0
  {
    var q, target := Pos(inum, 12, []), PosOf(inum, lb);
    assert Addr(s, q) == 0;
    assert SetsPointer(Allocated(s, bm, v), t, q, v);
    hide Addr, Owns, SameBlocks, Grown, SetsPointer;
    LinkGrows(s, bm, t, q, v, target);
    GrownSameBlocks(s, t, inum, lb);
  }

  lemma IndirectFacts(s: State, inum: nat, lb: nat)
    requires Owns(s) && inum in s.files && DIRECT <= lb < DIRECT + PTRS && s.files[inum][12] != 0
    ensures InRegion(s.files[inum][12]) && s.files[inum][12] in s.used && |s.img| == TOTAL_BLOCKS
  {
    var q := Pos(inum, 12, []);
    assert InTree(s.files, q) && Addr(s, q) == s.files[inum][12];
  }

  lemma LinkIndirect(s: State, t: State, inum: nat, lb: nat, v: nat)
    requires Owns(s) && inum in s.files && DIRECT <= lb < DIRECT + PTRS && 0 < s.files[inum][12] < |s.img| == TOTAL_BLOCKS
    requires Addr(s, PosOf(inum, lb)) == 0 && InRegion(v) && v !in s.used
    requires var a := s.files[inum][12];
             t == State(s.files, s.img[a := WritePointer(s.img[a], lb - DIRECT, v)], s.used + {v})
    ensures Owns(t) && OneBlock(s, t, inum, lb, s.img[v]) && Addr(t, PosOf(inum, lb)) == v
  {
    hide OneBlock, WritePointer;
    assert Parent(PosOf(inum, lb)) == Pos(inum, 12, []);
    assert SetsPointer(s, t, PosOf(inum, lb), v);
    hide SetsPointer, Addr;
    LinkFilled(s, t, inum, lb, v);
  }

  // ---------------------------------------------------------------- adding a name

  /** No other file changes, in content or in mapping. */
  ghost predicate OtherFiles(s: State, t: State, inum: nat) {
    && t.files.Keys == s.files.Keys
    && forall f, l: nat :: f in s.files && f != inum && l < MAX_LOGICAL ==>
         BlockOf(t, f, l) == BlockOf(s, f, l) && Addr(t, PosOf(f, l)) == Addr(s, PosOf(f, l))
  }

  /** t is s with entry e added to directory inum, whose block count went from n to m. */
  ghost predicate EntryAdded(s: State, t: State, inum: nat, n: nat, m: nat, e: Entry) {
    && Owns(t) && OtherFiles(s, t, inum)
    && Inserted(Entries(s, inum, n), Entries(t, inum, m), e)
    && (DirTiled(s, inum, n) ==> DirTiled(t, inum, m))
    && (NoTail(s, inum, n) ==> NoTail(t, inum, m))
  }

  ghost predicate HasRoom(s: State, inum: nat, n: nat, needed: nat) {
    exists lb: nat :: lb < n && !NoRoom(BlockOf(s, inum, lb), 0, needed)
  }

  lemma AddedInBlock(s: State, t: State, inum: nat, lb: nat, blk: Block, n: nat, e: Entry)
    requires Owns(t) && OneBlock(s, t, inum, lb, blk) && lb < n <= MAX_LOGICAL
    requires Inserted(Listing(BlockOf(s, inum, lb)), Listing(blk), e) && (Tiled(blk) <==> Tiled(BlockOf(s, inum, lb)))
    requires Addr(t, PosOf(inum, lb)) == Addr(s, PosOf(inum, lb))
    ensures EntryAdded(s, t, inum, n, n, e)
  {
    hide Owns, Addr, PosOf, BlockOf, Listing, Tiled, Inserted, Entries;
    InsertInBlock(s, t, inum, lb, blk, n, e);
  }

  lemma AddedNewBlock(s: State, t: State, inum: nat, n: nat, blk: Block, e: Entry)
    requires Owns(t) && OneBlock(s, t, inum, n, blk) && n < MAX_LOGICAL
    requires Listing(blk) == Live(e) && Tiled(blk)
    ensures EntryAdded(s, t, inum, n, n + 1, e)
  {
    hide Owns, Addr, PosOf, BlockOf, Listing, Tiled, Live;
    OtherEntries(s, t, inum, n, blk, inum, n);
    var a := Entries(s, inum, n);
    assert a == a + [] && Entries(t, inum, n + 1) == a + Live(e) + [];
  }

  /** Looks for room in the existing blocks, first block and first record first. */
  method AddInPlace(alloc: Allocator, di: DiskInode, e: Entry, ghost files: map<nat, Roots>, ghost inum: nat)
    returns (r: Result<bool>)
    requires alloc.Valid() && di.Valid() && Owns(Now(alloc, di, files, inum)) && |e.name| <= MAX_NAME
    modifies alloc.dev`data, alloc.dev`dirty
    ensures MetaSame(old(alloc.dev.data), alloc.dev.data)
    ensures alloc.Valid()
    ensures r.Ok? && r.value <==> HasRoom(old(Now(alloc, di, files, inum)), inum, Reach(di.size), DirEntrySize(|e.name|))
    ensures r.Ok? && r.value ==>
              EntryAdded(old(Now(alloc, di, files, inum)), Now(alloc, di, files, inum), inum, Reach(di.size), Reach(di.size), e)
    ensures r.Err? || !r.value ==> alloc.dev.data == old(alloc.dev.data)
    ensures r.Err? ==> r == Err(TooBig) && BlocksForSize(di.size) > MAX_LOGICAL
    ensures r.Ok? && !r.value ==> BlocksForSize(di.size) <= MAX_LOGICAL
  {
    hide Owns, Addr, PosOf, BlockOf, Listing, Tiled, Inserted, EntryAdded, NoRoom, GetBlockForOffset, BitmapBlock, Bitmap.Used, OneBlock;
    ghost var s := Now(alloc, di, files, inum);
    var n := BlocksForSize(di.size);
    var b := 0;
    while b < n
      invariant 0 <= b <= n && b <= MAX_LOGICAL && alloc.Valid() && alloc.dev.data == old(alloc.dev.data)
      invariant forall lb: nat :: lb < b ==> NoRoom(BlockOf(s, inum, lb), 0, DirEntrySize(|e.name|))
    {
      var phys := GetBlockForOffset(alloc.dev.data, di.Ptrs(), b);
      LookupOk(s, inum, b);
      if phys.Err? { return Err(phys.error); }
      Mapped(s, inum, b, phys.value);
      if phys.value == 0 {
        RoomZero(DirEntrySize(|e.name|));
      } else {
        var rd := alloc.dev.ReadBlock(phys.value);
        var done, out := InsertIntoBlock(rd.value, e);
        if done {
          OverwriteBlock(s, inum, b, out);
          var w := alloc.dev.WriteBlock(phys.value, out);
          AddedInBlock(s, Now(alloc, di, files, inum), inum, b, out, Reach(di.size), e);
          return Ok(true);
        }
      }
      b := b + 1;
    }
    return Ok(false);
  }

  lemma RoomZero(needed: nat)
    ensures NoRoom(Zero(), 0, needed)
  {
    assert GetLE16(Zero(), 4) == 0;
  }

  /** A block that one record fills holds just that entry. */
  lemma WholeBlockRecord(e: Entry)
    requires |e.name| <= MAX_NAME
    ensures var blk := EncodeDirEntry(Zero(), 0, DirEntry(e, BLOCK_SIZE));
            Listing(blk) == Live(e) && Tiled(blk)
  {
    hide EncodeDirEntry, ParseDirEntry, Span, Boundary;
    EncodeRoundTrip(Zero(), 0, DirEntry(e, BLOCK_SIZE));
    OneRecord(EncodeDirEntry(Zero(), 0, DirEntry(e, BLOCK_SIZE)), 0);
  }

  /** A block that is marked used but that no file holds: the trees are still disjoint, but ownership is lost. */
  lemma LeakBreaksOwns(s: State, v: nat)
    requires Owns(s) && InRegion(v) && v !in s.used
    ensures var t := State(s.files, s.img, s.used + {v});
            Disjoint(t) && !Owns(t) && SameBlocks(s, t)
  {
    hide PosOf, InTree;
    var t := State(s.files, s.img, s.used + {v});
    forall p | InTree(s.files, p) ensures Addr(t, p) == Addr(s, p) { SameIndexAddr(s, t, p); }
    hide Addr;
    forall f, l: nat | f in s.files && l < MAX_LOGICAL
      ensures Addr(t, PosOf(f, l)) == Addr(s, PosOf(f, l)) && BlockOf(t, f, l) == BlockOf(s, f, l)
    {
      PosOfLogical(s.files, f, l);
    }
    assert !IsOwned(t, v);
  }

  /** Exactly one block of the data region is free. */
  ghost predicate OneLeft(used: set<nat>) { exists v: nat :: InRegion(v) && v !in used && RegionFull(used + {v}) }

  /** A directory of n blocks can have one more: a block is free, the place can be mapped, and when the single
      indirect block is still missing a second block is free for it. */
  ghost predicate NewBlockFits(used: set<nat>, n: nat, indirect1: nat) {
    !RegionFull(used) && n < DIRECT + PTRS && !(n >= DIRECT && indirect1 == 0 && OneLeft(used))
  }

  lemma FullIs(used: set<nat>)
    ensures RegionFull(used) <==> forall n: nat :: DATA_START <= n < TOTAL_BLOCKS ==> n in used
  {
  }

  lemma TakenWasLast(used: set<nat>, v: nat)
    requires InRegion(v) && v !in used
    ensures RegionFull(used + {v}) <==> OneLeft(used)
  {
    if OneLeft(used) {
      var w: nat :| InRegion(w) && w !in used && RegionFull(used + {w});
      assert v in used + {w};
    }
  }

  /** Gives the directory one more block, filled by the new entry alone. When the block cannot be mapped it has
      been taken all the same: no file changes, but the block is marked used and belongs to none. */
  method AddNewBlock(alloc: Allocator, di: DiskInode, n: nat, e: Entry, ghost files: map<nat, Roots>, ghost inum: nat)
    returns (r: Result<()>)
    requires alloc.Valid() && di.Valid() && Owns(Now(alloc, di, files, inum)) && |e.name| <= MAX_NAME
    requires n == BlocksForSize(di.size) <= MAX_LOGICAL && NoTail(Now(alloc, di, files, inum), inum, n)
    modifies alloc.dev`data, alloc.dev`dirty, alloc.blockBM`bits, alloc.sb`freeBlocks, di
    ensures MetaSame(old(alloc.dev.data), alloc.dev.data)
    ensures alloc.Valid() && di.Valid()
    ensures r.Ok? <==> NewBlockFits(old(alloc.blockBM.Used()), n, old(di.indirect1))
    ensures r.Ok? ==> di.size == (n + 1) * BLOCK_SIZE && n < DIRECT + PTRS
    ensures r.Ok? ==> EntryAdded(old(Now(alloc, di, files, inum)), Now(alloc, di, files, inum), inum, n, n + 1, e)
    ensures r.Err? ==> di.size == old(di.size) && Disjoint(Now(alloc, di, files, inum))
    ensures r.Err? ==> SameBlocks(old(Now(alloc, di, files, inum)), Now(alloc, di, files, inum))
    ensures r.Err? ==> (Owns(Now(alloc, di, files, inum)) <==> RegionFull(old(alloc.blockBM.Used())))
    ensures r.Err? ==> r == Err(if RegionFull(old(alloc.blockBM.Used())) || n < DIRECT + PTRS then NoSpace else TooBig)
    ensures r.Err? && !RegionFull(old(alloc.blockBM.Used())) ==>
              exists v: nat :: InRegion(v) && v !in old(alloc.blockBM.Used()) && alloc.blockBM.Used() == old(alloc.blockBM.Used()) + {v}
  {
    hide Owns, Addr, PosOf, BlockOf, Listing, Tiled, EntryAdded, BitmapBlock, EncodeDirEntry, OneBlock, SameBlocks, Zero, Disjoint,
      Bitmap.Used, NoTail, Live, RegionFull, OneLeft;
    ghost var s := Now(alloc, di, files, inum);
    SameBlocksRefl(s);
    FullIs(s.used);
    var got := alloc.AllocBlock();
    if got.Err? {
      OwnsDisjoint(s);
      return Err(NoSpace);
    }
    var v := got.value;
    var blk := EncodeDirEntry(Zero(), 0, DirEntry(e, BLOCK_SIZE));
    var w := alloc.dev.WriteBlock(v, blk);
    FillFreeBlock(s, BitmapBlock(alloc.blockBM.bits), v, blk);
    ghost var u := Without(Now(alloc, di, files, inum), v);
    assert u == State(s.files, s.img[BLOCK_BITMAP_ADDR := BitmapBlock(alloc.blockBM.bits)][v := blk], s.used);
    HoleStays(s, u, inum, n);
    TakenWasLast(s.used, v);
    r := SetBlockForOffset(alloc, di, n, v, files, inum);
    if r.Err? {
      LeakBreaksOwns(u, v);
      SameBlocksTrans(s, u, Now(alloc, di, files, inum));
      return;
    }
    di.size := (n + 1) * BLOCK_SIZE;
    WholeBlockRecord(e);
    OneBlockAfterSame(s, u, Now(alloc, di, files, inum), inum, n, blk);
    AddedNewBlock(s, Now(alloc, di, files, inum), inum, n, blk, e);
  }

  lemma HoleStays(s: State, u: State, inum: nat, n: nat)
    requires SameBlocks(s, u) && inum in s.files && NoTail(s, inum, n)
    ensures n < MAX_LOGICAL ==> Addr(u, PosOf(inum, n)) == 0
  {
    hide Addr, PosOf, BlockOf;
  }

  lemma SameBlocksTrans(s: State, t: State, u: State)
    requires SameBlocks(s, t) && SameBlocks(t, u)
    ensures SameBlocks(s, u)
  {
    hide Addr, PosOf, BlockOf;
  }

  /** Adds a name to a directory: the listing gains the entry, no other file changes and the tiling is kept. A new
      block is taken only when no record of the directory has room. */
  method AddEntry(alloc: Allocator, di: DiskInode, name: Name, ino: U32, fileType: Byte,
                  ghost files: map<nat, Roots>, ghost inum: nat)
    returns (r: Result<()>)
    requires alloc.Valid() && di.Valid() && Owns(Now(alloc, di, files, inum))
    requires NoTail(Now(alloc, di, files, inum), inum, BlocksForSize(di.size))
    modifies alloc.dev`data, alloc.dev`dirty, alloc.blockBM`bits, alloc.sb`freeBlocks, di
    ensures MetaSame(old(alloc.dev.data), alloc.dev.data)
    ensures alloc.Valid() && di.Valid()
    ensures |name| > MAX_NAME ==> r == Err(NameTooLong)
    ensures |name| <= MAX_NAME && !di.isDir ==> r == Err(NotDir)
    ensures r.Ok? ==>
              EntryAdded(old(Now(alloc, di, files, inum)), Now(alloc, di, files, inum), inum,
                         old(Reach(di.size)), Reach(di.size), Entry(ino, fileType, name))
    ensures r.Err? ==> di.size == old(di.size) && Disjoint(Now(alloc, di, files, inum))
    ensures r.Err? ==> SameBlocks(old(Now(alloc, di, files, inum)), Now(alloc, di, files, inum))
    ensures |name| <= MAX_NAME && di.isDir ==>
              var roomy := HasRoom(old(Now(alloc, di, files, inum)), inum, old(Reach(di.size)), DirEntrySize(|name|));
              var n, full := old(BlocksForSize(di.size)), RegionFull(old(alloc.blockBM.Used()));
              var fits := NewBlockFits(old(alloc.blockBM.Used()), n, old(di.indirect1));
              && (r.Ok? <==> roomy || fits)
              && (Owns(Now(alloc, di, files, inum)) <==> roomy || fits || full || n > MAX_LOGICAL)
              && (roomy ==> di.size == old(di.size) && alloc.blockBM.Used() == old(alloc.blockBM.Used()))
              && (!roomy && fits ==> di.size == (n + 1) * BLOCK_SIZE)
              && (r.Err? ==> r == Err(if n > MAX_LOGICAL || (!full && n >= DIRECT + PTRS) then TooBig else NoSpace))
  {
    hide Owns, EntryAdded, SameBlocks, NoTail, HasRoom, Disjoint, Allocator.Valid, Bitmap.Used, DirEntrySize, RegionFull,
      OneLeft;
    ghost var s := Now(alloc, di, files, inum);
    SameBlocksRefl(s);
    OwnsDisjoint(s);
    if |name| > MAX_NAME { return Err(NameTooLong); }
    if !di.isDir { return Err(NotDir); }
    var e := Entry(ino, fileType, name);
    var n := BlocksForSize(di.size);
    var placed := AddInPlace(alloc, di, e, files, inum);
    if placed.Err? { return Err(placed.error); }
    AddedOwns(s, Now(alloc, di, files, inum), inum, Reach(di.size), Reach(di.size), e);
    if placed.value { return Ok(()); }
    r := AddNewBlock(alloc, di, n, e, files, inum);
    SmallSize(n);
    AddedOwns(s, Now(alloc, di, files, inum), inum, n, n + 1, e);
  }

  lemma AddedOwns(s: State, t: State, inum: nat, n: nat, m: nat, e: Entry)
    ensures EntryAdded(s, t, inum, n, m, e) ==> Owns(t)
  {
    hide Owns, OtherFiles, Inserted, DirTiled, NoTail, Entries;
  }

  lemma SmallSize(n: nat)
    requires n < 0x1_0000_0000
    ensures BlocksForSize(n * BLOCK_SIZE) == n
  {
  }

  // ---------------------------------------------------------------- removing a name

  /** Removes the first entry of that name; fails exactly when there is none. Nothing is allocated or freed. */
  method RemoveEntry(alloc: Allocator, di: DiskInode, name: Name, ghost files: map<nat, Roots>, ghost inum: nat)
    returns (r: Result<()>)
    requires alloc.Valid() && di.Valid() && Owns(Now(alloc, di, files, inum))
    modifies alloc.dev`data, alloc.dev`dirty
    ensures MetaSame(old(alloc.dev.data), alloc.dev.data) && alloc.blockBM.Used() == old(alloc.blockBM.Used())
    ensures alloc.Valid() && Owns(Now(alloc, di, files, inum))
    ensures !di.isDir ==> r == Err(NotDir)
    ensures r.Err? ==> alloc.dev.data == old(alloc.dev.data)
    ensures di.isDir ==>
              var s, t, n := old(Now(alloc, di, files, inum)), Now(alloc, di, files, inum), Reach(di.size);
              && (r.Ok? <==> name in DirMap(Entries(s, inum, n)))
              && (r.Err? ==> r == Err(if BlocksForSize(di.size) > MAX_LOGICAL then TooBig else NotFound))
              && (r.Ok? ==> Removed(Entries(s, inum, n), Entries(t, inum, n), name) && OtherFiles(s, t, inum))
              && (r.Ok? && DirTiled(s, inum, n) ==> DirTiled(t, inum, n))
              && (r.Ok? && NoTail(s, inum, n) ==> NoTail(t, inum, n))
  {
    hide Owns, Addr, PosOf, BlockOf, Listing, Tiled, Removed, GetBlockForOffset, BitmapBlock, Bitmap.Used, OneBlock, DirMap,
      OtherFiles, DirTiled, NoTail, Zero;
    if !di.isDir { return Err(NotDir); }
    ghost var s := Now(alloc, di, files, inum);
    var n := BlocksForSize(di.size);
    var b := 0;
    while b < n
      invariant 0 <= b <= n && b <= MAX_LOGICAL && alloc.Valid() && alloc.dev.data == old(alloc.dev.data)
      invariant forall e :: e in Entries(s, inum, b) ==> e.name != name
    {
      var phys := GetBlockForOffset(alloc.dev.data, di.Ptrs(), b);
      LookupOk(s, inum, b);
      if phys.Err? {
        DirMapKeys(Entries(s, inum, b), name);
        return Err(phys.error);
      }
      Mapped(s, inum, b, phys.value);
      if phys.value == 0 {
        ParseZero();
      } else {
        var rd := alloc.dev.ReadBlock(phys.value);
        var done, out := RemoveFromBlock(rd.value, name);
        if done {
          OverwriteBlock(s, inum, b, out);
          var w := alloc.dev.WriteBlock(phys.value, out);
          RemovedInDir(s, Now(alloc, di, files, inum), inum, b, out, Reach(di.size), name);
          return Ok(());
        }
      }
      b := b + 1;
    }
    DirMapKeys(Entries(s, inum, n), name);
    return Err(NotFound);
  }

  lemma RemovedInDir(s: State, t: State, inum: nat, lb: nat, blk: Block, n: nat, name: Name)
    requires OneBlock(s, t, inum, lb, blk) && lb < n <= MAX_LOGICAL
    requires Removed(Listing(BlockOf(s, inum, lb)), Listing(blk), name) && (Tiled(blk) <==> Tiled(BlockOf(s, inum, lb)))
    requires Addr(t, PosOf(inum, lb)) == Addr(s, PosOf(inum, lb))
    requires forall e :: e in Entries(s, inum, lb) ==> e.name != name
    ensures name in DirMap(Entries(s, inum, n)) && Removed(Entries(s, inum, n), Entries(t, inum, n), name)
    ensures OtherFiles(s, t, inum)
    ensures (DirTiled(s, inum, n) ==> DirTiled(t, inum, n)) && (NoTail(s, inum, n) ==> NoTail(t, inum, n))
  {
    hide Addr, PosOf, BlockOf, Listing, Tiled, Entries, DirMap;
    RemoveInBlock(s, t, inum, lb, blk, n, name);
    var a, e, c :| Entries(s, inum, n) == a + [e] + c && Entries(t, inum, n) == a + c && e.name == name && forall x :: x in a ==> x.name != name;
    assert e in a + [e] + c;
    DirMapKeys(Entries(s, inum, n), name);
  }

  // ---------------------------------------------------------------- a new directory

  /** The first block of a new directory: "." and "..", nothing else. */
  method InitDirBlock(alloc: Allocator, di: DiskInode, self: U32, parent: U32, ghost files: map<nat, Roots>, ghost inum: nat)
    returns (r: Result<()>)
    requires alloc.Valid() && di.Valid() && Owns(Now(alloc, di, files, inum))
    modifies alloc.dev`data, alloc.dev`dirty
    ensures MetaSame(old(alloc.dev.data), alloc.dev.data) && alloc.blockBM.Used() == old(alloc.blockBM.Used())
    ensures alloc.Valid() && Owns(Now(alloc, di, files, inum))
    ensures r.Err? <==> di.direct[0] == 0
    ensures r.Err? ==> alloc.dev.data == old(alloc.dev.data)
    ensures r.Ok? ==>
              var s, t := old(Now(alloc, di, files, inum)), Now(alloc, di, files, inum);
              && OtherFiles(s, t, inum) && DirTiled(t, inum, 1) && (NoTail(s, inum, 1) ==> NoTail(t, inum, 1))
              && Entries(t, inum, 1) == Live(Entry(self, FT_DIR, DOT)) + Live(Entry(parent, FT_DIR, DOTDOT))
  {
    hide Owns, Addr, BlockOf, Listing, Tiled, Live, BitmapBlock, Bitmap.Used, OneBlock, EncodeDirEntry, Zero, DirTiled, OtherFiles, Entries, NoTail;
    if di.direct[0] == 0 { return Err(InvalidArg); }
    ghost var s := Now(alloc, di, files, inum);
    FirstBlock(s, inum);
    var dotSize := DirEntrySize(1);
    var blk := EncodeDirEntry(Zero(), 0, DirEntry(Entry(self, FT_DIR, DOT), dotSize));
    blk := EncodeDirEntry(blk, dotSize, DirEntry(Entry(parent, FT_DIR, DOTDOT), BLOCK_SIZE - dotSize));
    TwoRecords(Entry(self, FT_DIR, DOT), Entry(parent, FT_DIR, DOTDOT));
    OverwriteBlock(s, inum, 0, blk);
    var w := alloc.dev.WriteBlock(di.direct[0], blk);
    FirstBlockWritten(s, Now(alloc, di, files, inum), inum, blk);
    return Ok(());
  }

  lemma FirstBlock(s: State, inum: nat)
    requires inum in s.files
    ensures Addr(s, PosOf(inum, 0)) == s.files[inum][0]
  {
  }

  lemma FirstBlockWritten(s: State, t: State, inum: nat, blk: Block)
    requires OneBlock(s, t, inum, 0, blk) && Tiled(blk)
    ensures OtherFiles(s, t, inum) && DirTiled(t, inum, 1) && Entries(t, inum, 1) == Listing(blk)
    ensures NoTail(s, inum, 1) ==> NoTail(t, inum, 1)
  {
    hide BlockOf, Listing, Tiled, Addr, PosOf;
    assert BlockOf(t, inum, 0) == blk;
    assert Entries(t, inum, 0) == [];
    assert [] + Listing(blk) == Listing(blk);
  }

  lemma TwoRecords(d: Entry, e: Entry)
    requires |d.name| == 1 && |e.name| == 2
    ensures var b := EncodeDirEntry(Zero(), 0, DirEntry(d, 12));
            var c := EncodeDirEntry(b, 12, DirEntry(e, BLOCK_SIZE - 12));
            Listing(c) == Live(d) + Live(e) && Tiled(c)
  {
    hide EncodeDirEntry, ParseDirEntry, Span, Boundary, Live;
    var b := EncodeDirEntry(Zero(), 0, DirEntry(d, 12));
    var c := EncodeDirEntry(b, 12, DirEntry(e, BLOCK_SIZE - 12));
    EncodeRoundTrip(Zero(), 0, DirEntry(d, 12));
    EncodeRoundTrip(b, 12, DirEntry(e, BLOCK_SIZE - 12));
    ParseLocal(b, c, 0);
    OneRecord(c, 0);
    OneRecord(c, 12);
    SpanSplit(c, 0, 12, BLOCK_SIZE);
    BoundarySplit(c, 0, 12, BLOCK_SIZE);
  }

  // ---------------------------------------------------------------- the directory as a map

  /** The name map of a directory. */
  ghost function NamesOf(s: State, inum: nat, size: nat): map<Name, Target> { DirMap(Entries(s, inum, Reach(size))) }

  ghost predicate NamesUnique(s: State, inum: nat, size: nat) { Unique(Entries(s, inum, Reach(size))) }

  /** Adding an absent name is map insertion and keeps names unique; adding a present one makes them ambiguous. */
  lemma AddIsMapInsert(s: State, t: State, inum: nat, size: nat, size': nat, e: Entry)
    requires EntryAdded(s, t, inum, Reach(size), Reach(size'), e) && e.ino != 0 && NamesUnique(s, inum, size)
    ensures e.name !in NamesOf(s, inum, size) ==> NamesOf(t, inum, size') == NamesOf(s, inum, size)[e.name := TargetOf(e)]
    ensures NamesUnique(t, inum, size') <==> e.name !in NamesOf(s, inum, size)
  {
    hide Owns, OtherFiles, Entries, Unique, DirMap, Inserted, DirTiled, NoTail;
    InsertIsMapInsert(Entries(s, inum, Reach(size)), Entries(t, inum, Reach(size')), e);
  }

  /** Removing what was just added gives back the old map. */
  lemma RemoveUndoesAdd(s: State, t: State, u: State, inum: nat, size: nat, size': nat, e: Entry)
    requires EntryAdded(s, t, inum, Reach(size), Reach(size'), e) && e.ino != 0 && NamesUnique(s, inum, size)
    requires e.name !in NamesOf(s, inum, size)
    requires Removed(Entries(t, inum, Reach(size')), Entries(u, inum, Reach(size')), e.name)
    ensures NamesOf(u, inum, size') == NamesOf(s, inum, size) && NamesUnique(u, inum, size')
  {
    hide Owns, OtherFiles, Entries, Unique, DirMap, Inserted, DirTiled, NoTail, Removed, EntryAdded;
    AddIsMapInsert(s, t, inum, size, size', e);
    RemoveIsMapDelete(Entries(t, inum, Reach(size')), Entries(u, inum, Reach(size')), e.name);
    assert NamesOf(s, inum, size)[e.name := TargetOf(e)] - {e.name} == NamesOf(s, inum, size);
  }
}
