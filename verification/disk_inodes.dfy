/** Making, changing and freeing inodes on disk, seen as changes of the name space the disk holds. */
module DiskInodes {
  import opened Bytes
  import opened Device
  import opened Bitmaps
  import opened Allocation
  import opened BlockMap
  import opened Extents
  import opened InodeTable
  import opened DirFormat
  import opened DirMaps
  import opened DirState
  import opened DirRead
  import opened Directory
  import opened DiskState
  import opened DiskNames
  import Names

  ghost predicate InodeFree(inos: set<nat>) { exists m: nat :: 1 <= m <= INODE_COUNT && !Taken(inos, m) }

  /** n is the least free inode number. */
  ghost predicate LeastInode(inos: set<nat>, n: nat) {
    1 <= n <= INODE_COUNT && n - 1 !in inos && forall m: nat :: 1 <= m < n ==> Taken(inos, m)
  }

  /** v is the least free block of the data region. */
  ghost predicate LeastBlock(used: set<nat>, v: nat) {
    InRegion(v) && v !in used && forall m: nat :: DATA_START <= m < v ==> m in used
  }

  /** The least free inode number, marked taken. */
  method TakeInode(alloc: Allocator) returns (r: Result<nat>)
    requires alloc.Valid()
    modifies alloc.dev`data, alloc.dev`dirty, alloc.inodeBM`bits, alloc.sb`freeInodes
    ensures alloc.Valid() && (r.Ok? <==> InodeFree(old(alloc.inodeBM.Used())))
    ensures r.Err? ==> r == Err(NoSpace)
    ensures r.Ok? ==> LeastInode(old(alloc.inodeBM.Used()), r.value) && alloc.inodeBM.Used() == old(alloc.inodeBM.Used()) + {r.value - 1}
    ensures forall a :: 0 <= a < TOTAL_BLOCKS && a != INODE_BITMAP_ADDR ==> alloc.dev.data[a] == old(alloc.dev.data)[a]
    ensures alloc.blockBM.Used() == old(alloc.blockBM.Used())
  {
    hide Bitmap.Used, BitmapBlock;
    ghost var inos := alloc.inodeBM.Used();
    FreeIff(inos);
    r := alloc.AllocInode();
    if r.Ok? { LeastIs(inos, r.value); }
  }

  lemma FreeIff(inos: set<nat>)
    ensures InodeFree(inos) <==> !(forall n: nat :: n < INODE_COUNT ==> n in inos)
  {
    if !(forall n: nat :: n < INODE_COUNT ==> n in inos) {
      var n: nat :| n < INODE_COUNT && n !in inos;
      assert !Taken(inos, n + 1);
    }
    if InodeFree(inos) {
      var m: nat :| 1 <= m <= INODE_COUNT && !Taken(inos, m);
      assert m - 1 < INODE_COUNT && m - 1 !in inos;
    }
  }

  lemma LeastIs(inos: set<nat>, n: nat)
    requires 1 <= n <= INODE_COUNT && n - 1 !in inos && forall m: nat :: m < n - 1 ==> m in inos
    ensures LeastInode(inos, n)
  {
  }

  /** A record for an inode that has no blocks yet. */
  predicate Blank(rec: InodeRecord) { forall k :: 0 <= k < SLOTS ==> rec.ptrs[k] == 0 }

  lemma BlankRoots(rec: InodeRecord)
    requires Blank(rec)
    ensures RootsOf(rec.ptrs) == seq(SLOTS, _ => 0)
  {
  }

  /** The disk after a new inode without blocks: one more node. */
  lemma InodeAdded(d: Disk, e: Disk, n: nat)
    requires Healthy(d) && |e.img| == TOTAL_BLOCKS && 1 <= n <= INODE_COUNT && n - 1 !in d.inos && e.inos == d.inos + {n - 1}
    requires e.used == d.used && TOTAL_BLOCKS !in d.used && Blank(RecordAt(e.img, n)) && !DirRecord(RecordAt(e.img, n))
    requires forall i :: 1 <= i <= INODE_COUNT && i != n ==> RecordAt(e.img, i) == RecordAt(d.img, i)
    requires forall a :: DATA_START <= a < TOTAL_BLOCKS ==> e.img[a] == d.img[a]
    ensures Healthy(e) && NodesOf(e) == NodesOf(d)[n := Names.File(RecordAt(e.img, n).links, EntryType(RecordAt(e.img, n)))]
    ensures KeptExcept(d, e, {n})
  {
    hide KeptExcept, Owns, RecordAt, GoodDir, Keeps, NodesOf, FilesOf, RootsOf, DirRecord;
    var s := BlocksOf(d);
    FilesAt(d.img, d.inos, n);
    NewInode(s, n);
    var t := State(s.files[n := seq(SLOTS, _ => 0)], s.img, s.used);
    MetaWrite(t, e.img, TOTAL_BLOCKS);
    BlankRoots(RecordAt(e.img, n));
    TakenMore(d.inos, e.inos, n);
    FilesUpdate(d.img, e.img, d.inos, e.inos, n, seq(SLOTS, _ => 0));
    assert BlocksOf(e) == State(t.files, e.img, t.used);
    KeepsTrans(s, t, BlocksOf(e), {}, {});
    KeepsLess(s, BlocksOf(e), n);
    OneNode(d, e, n);
  }

  lemma TakenMore(inos: set<nat>, more: set<nat>, n: nat)
    requires 1 <= n <= INODE_COUNT && more == inos + {n - 1}
    ensures forall i :: Taken(more, i) <==> Taken(inos, i) || i == n
  {
  }

  lemma KeepsLess(s: State, t: State, n: nat)
    requires Keeps(s, t, {} + {})
    ensures Keeps(s, t, {n})
  {
    hide BlockOf, Addr, PosOf;
  }

  /** A new inode that is no directory. */
  method NewFile(alloc: Allocator, rec: InodeRecord) returns (r: Result<nat>)
    requires alloc.Valid() && Healthy(DiskNow(alloc)) && Blank(rec) && !DirRecord(rec)
    modifies alloc.dev`data, alloc.dev`dirty, alloc.inodeBM`bits, alloc.sb`freeInodes
    ensures alloc.Valid() && (r.Ok? <==> InodeFree(old(alloc.inodeBM.Used()))) && (r.Err? ==> r == Err(NoSpace))
    ensures r.Ok? ==>
              && LeastInode(old(alloc.inodeBM.Used()), r.value) && Healthy(DiskNow(alloc))
              && NodesOf(DiskNow(alloc)) == old(NodesOf(DiskNow(alloc)))[r.value := Names.File(rec.links, EntryType(rec))]
              && alloc.blockBM.Used() == old(alloc.blockBM.Used()) && alloc.inodeBM.Used() == old(alloc.inodeBM.Used()) + {r.value - 1}
              && RecordAt(alloc.dev.data, r.value) == rec && KeptExcept(old(DiskNow(alloc)), DiskNow(alloc), {r.value})
              && (forall i :: 1 <= i <= INODE_COUNT && i != r.value ==> RecordAt(alloc.dev.data, i) == RecordAt(old(alloc.dev.data), i))
              && forall a :: DATA_START <= a < TOTAL_BLOCKS ==> alloc.dev.data[a] == old(alloc.dev.data)[a]
  {
    hide RecordAt, Healthy, Bitmap.Used, NodesOf, BitmapBlock, DirRecord, InodeFree, KeptExcept;
    ghost var d := DiskNow(alloc);
    UsedBound(alloc);
    r := TakeInode(alloc);
    if r.Err? { return; }
    UsedBound(alloc);
    TableSame(d.img, alloc.dev.data);
    StoreRecord(alloc, r.value, rec);
    UsedBound(alloc);
    InodeAdded(d, DiskNow(alloc), r.value);
  }

  lemma TableSame(a: Image, b: Image)
    requires |a| == |b| == TOTAL_BLOCKS && forall x :: INODE_TABLE_START <= x < JOURNAL_START ==> b[x] == a[x]
    ensures forall i :: 1 <= i <= INODE_COUNT ==> RecordAt(b, i) == RecordAt(a, i)
  {
    hide RecordAt;
    forall i | 1 <= i <= INODE_COUNT ensures RecordAt(b, i) == RecordAt(a, i) { SameRecord(a, b, i); }
  }

  // ---------------------------------------------------------------- a new directory

  /** The record of a new directory whose first block is v. */
  function DirRec(mode: U16, v: U32): (r: InodeRecord)
    ensures RootsOf(r.ptrs)[0] == v && Size(r) == BLOCK_SIZE && r.links == 2 && r.mode == 0x4000 + mode % 0x200
    ensures forall k :: 1 <= k < SLOTS ==> RootsOf(r.ptrs)[k] == 0
    ensures DirRecord(r)
  {
    var zero: Ptrs := seq(SLOTS, _ => 0);
    var ptrs: Ptrs := zero[0 := v];
    InodeRecord(0x4000 + mode % 0x200, 0, BLOCK_SIZE, 0, 0, 0, 0, 0, 2, BLOCK_SIZE / 512, 0, ptrs, 0, 0)
  }

  /** From an empty new inode to one whose first block is v. */
  lemma FirstBlockLinked(s: State, n: nat, img: Image, v: nat, rec: InodeRecord)
    requires Owns(s) && n !in s.files && InRegion(v) && v !in s.used && |img| == TOTAL_BLOCKS
    requires forall a :: DATA_START <= a < TOTAL_BLOCKS && a != v && a < |s.img| ==> img[a] == s.img[a]
    requires RootsOf(rec.ptrs)[0] == v && forall k :: 1 <= k < SLOTS ==> RootsOf(rec.ptrs)[k] == 0
    ensures var t := State(s.files[n := RootsOf(rec.ptrs)], img, s.used + {v});
            Owns(t) && Keeps(s, t, {n}) && NoTail(t, n, 1)
  {
    hide Owns, Addr, PosOf, Keeps, BlockOf, RootsOf, OneBlock;
    var zero: Roots := seq(SLOTS, _ => 0);
    NewInode(s, n);
    var a := State(s.files[n := zero], s.img, s.used);
    MetaWrite(a, img, v);
    var b := State(a.files, img, a.used);
    var t := State(s.files[n := RootsOf(rec.ptrs)], img, s.used + {v});
    assert b.files[n] == zero;
    assert RootsOf(rec.ptrs) == zero[0 := v];
    assert t.files == b.files[n := b.files[n][0 := v]];
    KeepsFile(a, b, {}, n, 0);
    LinkSlot(b, t, n, 0, v);
    KeepsTrans(s, a, b, {}, {});
    OneBlockKeeps(b, t, n, 0, img[v]);
    KeepsTrans(s, b, t, {} + {}, {n});
    assert {} + {} + {n} == {n};
    OneBlockTail(a, b, t, n, img[v]);
  }

  lemma OneBlockKeeps(s: State, t: State, n: nat, lb: nat, blk: Block)
    requires OneBlock(s, t, n, lb, blk)
    ensures Keeps(s, t, {n})
  {
    hide BlockOf, Addr, PosOf;
  }

  lemma OneBlockTail(a: State, b: State, t: State, n: nat, blk: Block)
    requires n in a.files && Keeps(a, b, {}) && OneBlock(b, t, n, 0, blk)
    requires forall l: nat :: l < MAX_LOGICAL ==> Addr(a, PosOf(n, l)) == 0
    ensures NoTail(t, n, 1)
  {
    hide BlockOf, Addr, PosOf, Keeps;
    forall l: nat | 1 <= l < MAX_LOGICAL ensures Addr(t, PosOf(n, l)) == 0 { KeepsFile(a, b, {}, n, l); }
  }

  /** The entries of a new directory, as a map. */
  lemma DotsMap(n: U32, p: U32)
    requires n != 0 && p != 0
    ensures var es := Live(Entry(n, FT_DIR, DOT)) + Live(Entry(p, FT_DIR, DOTDOT));
            DirMap(es) == Names.DirEntries(n, p) && Unique(es)
  {
    var d, e := Entry(n, FT_DIR, DOT), Entry(p, FT_DIR, DOTDOT);
    assert Live(d) + Live(e) == [d, e];
    assert [d, e][1..] == [e];
    DirMapOne(e);
    assert |DOT| == 1 && |DOTDOT| == 2;
  }

  /** The disk after a new directory: one more node, with its two dots. */
  lemma DirAdded(d: Disk, s: State, e: Disk, n: U32, p: U32)
    requires |d.img| == |e.img| == TOTAL_BLOCKS && 1 <= n <= INODE_COUNT && n - 1 !in d.inos && e.inos == d.inos + {n - 1} && p != 0
    requires forall i :: 1 <= i <= INODE_COUNT && i != n ==> RecordAt(e.img, i) == RecordAt(d.img, i)
    requires var rec := RecordAt(e.img, n);
             DirRecord(rec) && Size(rec) == BLOCK_SIZE && rec.links == 2 && s.files == BlocksOf(d).files[n := RootsOf(rec.ptrs)]
    requires Owns(s) && Keeps(BlocksOf(d), s, {n}) && NoTail(s, n, 1) && e.used == s.used
    requires var t := State(s.files, e.img, s.used);
             && Owns(t) && OtherFiles(s, t, n) && DirTiled(t, n, 1) && NoTail(t, n, 1)
             && Entries(t, n, 1) == Live(Entry(n, FT_DIR, DOT)) + Live(Entry(p, FT_DIR, DOTDOT))
    requires Healthy(d)
    ensures Healthy(e) && NodesOf(e) == NodesOf(d)[n := Names.Dir(2, Names.DirEntries(n, p))] && KeptExcept(d, e, {n})
  {
    hide KeptExcept, Owns, RecordAt, Keeps, NodesOf, FilesOf, RootsOf, DirRecord, DirMap, Unique, Entries, DirTiled, NoTail, OtherFiles, Live;
    var rec := RecordAt(e.img, n);
    TakenMore(d.inos, e.inos, n);
    FilesUpdate(d.img, e.img, d.inos, e.inos, n, RootsOf(rec.ptrs));
    assert BlocksOf(e) == State(s.files, e.img, s.used);
    OtherFilesKeep(s, BlocksOf(e), n);
    KeepsTrans(BlocksOf(d), s, BlocksOf(e), {n}, {n});
    assert {n} + {n} == {n};
    DotsMap(n, p);
    assert BlocksForSize(BLOCK_SIZE) == 1 && Reach(BLOCK_SIZE) == 1;
    OneNode(d, e, n);
  }

  /** A new directory with its first block, its record and its two dots. */
  method NewDir(alloc: Allocator, parent: U32, mode: U16) returns (r: Result<nat>)
    requires alloc.Valid() && Healthy(DiskNow(alloc)) && parent != 0
    modifies alloc.dev`data, alloc.dev`dirty, alloc.inodeBM`bits, alloc.blockBM`bits, alloc.sb`freeInodes, alloc.sb`freeBlocks
    ensures alloc.Valid()
    ensures r.Ok? <==> InodeFree(old(alloc.inodeBM.Used())) && !RegionFull(old(alloc.blockBM.Used()))
    ensures r.Err? ==> r == Err(NoSpace)
    ensures r.Ok? ==>
              && LeastInode(old(alloc.inodeBM.Used()), r.value) && Healthy(DiskNow(alloc))
              && NodesOf(DiskNow(alloc)) == old(NodesOf(DiskNow(alloc)))[r.value := Names.Dir(2, Names.DirEntries(r.value, parent))]
              && alloc.inodeBM.Used() == old(alloc.inodeBM.Used()) + {r.value - 1}
              && Keeps(old(BlocksOf(DiskNow(alloc))), BlocksOf(DiskNow(alloc)), {r.value})
              && KeptExcept(old(DiskNow(alloc)), DiskNow(alloc), {r.value})
              && RecordAt(alloc.dev.data, r.value).mode == 0x4000 + mode % 0x200 && Size(RecordAt(alloc.dev.data, r.value)) == BLOCK_SIZE
              && (forall i :: 1 <= i <= INODE_COUNT && i != r.value ==> RecordAt(alloc.dev.data, i) == RecordAt(old(alloc.dev.data), i))
              && exists v: nat :: LeastBlock(old(alloc.blockBM.Used()), v) && alloc.blockBM.Used() == old(alloc.blockBM.Used()) + {v}
  {
    hide RecordAt, Healthy, Bitmap.Used, NodesOf, BitmapBlock, InodeFree, RegionFull, Keeps, Zero, KeptExcept, Size;
    ghost var d := DiskNow(alloc);
    HealthyOwns(d);
    FullIs(d.used);
    var n := TakeInode(alloc);
    if n.Err? { return Err(NoSpace); }
    var blk := alloc.AllocBlock();
    if blk.Err? { return Err(NoSpace); }
    TableSame(d.img, alloc.dev.data);
    assert LeastBlock(d.used, blk.value);
    FormDir(alloc, n.value, blk.value, parent, mode, d);
    return Ok(n.value);
  }

  /** e is d with inode n and block v marked taken, and nothing else changed but the bitmaps and that block. */
  ghost predicate BothTaken(d: Disk, e: Disk, n: nat, v: nat) {
    && 1 <= n <= INODE_COUNT && |d.img| == |e.img| == TOTAL_BLOCKS
    && n - 1 !in d.inos && v !in d.used && e.inos == d.inos + {n - 1} && e.used == d.used + {v}
    && (forall i :: 1 <= i <= INODE_COUNT ==> RecordAt(e.img, i) == RecordAt(d.img, i))
    && (forall a :: DATA_START <= a < TOTAL_BLOCKS && a != v ==> e.img[a] == d.img[a])
    && Healthy(d)
  }

  /** e is d with a new, empty directory n in p. */
  ghost predicate DirFormed(d: Disk, e: Disk, n: U32, v: nat, p: U32, mode: U16) {
    && |d.img| == |e.img| == TOTAL_BLOCKS && 1 <= n <= INODE_COUNT
    && NodesOf(e) == NodesOf(d)[n := Names.Dir(2, Names.DirEntries(n, p))]
    && e.inos == d.inos + {n - 1} && e.used == d.used + {v}
    && Keeps(BlocksOf(d), BlocksOf(e), {n}) && KeptExcept(d, e, {n})
    && RecordAt(e.img, n).mode == 0x4000 + mode % 0x200 && Size(RecordAt(e.img, n)) == BLOCK_SIZE
    && (forall i :: 1 <= i <= INODE_COUNT && i != n ==> RecordAt(e.img, i) == RecordAt(d.img, i))
    && Healthy(e)
  }

  /** Writes the record and the first block of a new directory, inode and block being taken already. */
  method FormDir(alloc: Allocator, n: U32, v: U32, parent: U32, mode: U16, ghost d: Disk)
    requires alloc.Valid() && parent != 0 && 1 <= n <= INODE_COUNT && InRegion(v) && BothTaken(d, DiskNow(alloc), n, v)
    modifies alloc.dev`data, alloc.dev`dirty
    ensures alloc.Valid() && DirFormed(d, DiskNow(alloc), n, v, parent, mode)
  {
    hide RecordAt, Healthy, Bitmap.Used, NodesOf, DirRecord, Owns, FilesOf, RootsOf, Keeps, DirTiled, NoTail, OtherFiles, Entries, Live, Size,
      DirRec, Allocator.Valid, KeptExcept;
    HealthyOwns(d);
    UsedBound(alloc);
    var rec := DirRec(mode, v);
    StoreRecord(alloc, n, rec);
    UsedBound(alloc);
    ghost var files := FilesOf(d.img, d.inos);
    FilesAt(d.img, d.inos, n);
    FirstBlockLinked(BlocksOf(d), n, alloc.dev.data, v, rec);
    var di := Open(rec);
    ghost var s := Now(alloc, di, files, n);
    assert s == State(BlocksOf(d).files[n := RootsOf(rec.ptrs)], alloc.dev.data, d.used + {v});
    DirectZero(di);
    var init := InitDirBlock(alloc, di, n, parent, files, n);
    UsedBound(alloc);
    MetaSameRecords(s.img, alloc.dev.data);
    DirAdded(d, s, DiskNow(alloc), n, parent);
    KeepsBoth(d, s, DiskNow(alloc), n, RootsOf(rec.ptrs));
  }

  lemma KeepsBoth(d: Disk, s: State, e: Disk, n: nat, roots: Roots)
    requires |d.img| == |e.img| == TOTAL_BLOCKS && 1 <= n <= INODE_COUNT && e.inos == d.inos + {n - 1} && e.used == s.used
    requires forall i :: 1 <= i <= INODE_COUNT && i != n ==> RecordAt(e.img, i) == RecordAt(d.img, i)
    requires s.files == BlocksOf(d).files[n := roots] && RootsOf(RecordAt(e.img, n).ptrs) == roots
    requires Keeps(BlocksOf(d), s, {n}) && OtherFiles(s, State(s.files, e.img, s.used), n)
    ensures Keeps(BlocksOf(d), BlocksOf(e), {n})
  {
    hide Owns, RecordAt, Keeps, FilesOf, RootsOf, OtherFiles;
    TakenMore(d.inos, e.inos, n);
    FilesUpdate(d.img, e.img, d.inos, e.inos, n, roots);
    assert BlocksOf(e) == State(s.files, e.img, s.used);
    OtherFilesKeep(s, BlocksOf(e), n);
    KeepsTrans(BlocksOf(d), s, BlocksOf(e), {n}, {n});
    assert {n} + {n} == {n};
  }

  lemma HealthyOwns(d: Disk)
    requires Healthy(d)
    ensures Owns(BlocksOf(d)) && |d.img| == TOTAL_BLOCKS
  {
  }

  lemma DirectZero(di: DiskInode)
    requires di.Valid()
    ensures di.Ptrs()[0] == di.direct[0]
  {
  }
}
