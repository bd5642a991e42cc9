/** The name space operations on disk, end to end: what they make of the bytes is the step of the name space. */
module DiskOps {
  import opened Bytes
  import opened Device
  import opened Bitmaps
  import opened Allocation
  import opened BlockMap
  import opened Extents
  import opened InodeTable
  import opened DirFormat
  import opened DirMaps
  import opened DirState
  import opened DirRead
  import opened Directory
  import opened DiskState
  import opened DiskNames
  import opened DiskInodes
  import opened DiskRemove
  import Names
  import Namespaces

  /** The disk holds a name space that keeps its invariant. */
  ghost predicate Sound(d: Disk) { Healthy(d) && Names.Inv(NodesOf(d)) }

  // ---------------------------------------------------------------- reading a directory on disk

  lemma SoundFacts(d: Disk)
    requires Sound(d)
    ensures Healthy(d) && |d.img| == TOTAL_BLOCKS && Names.Inv(NodesOf(d))
  {
    hide Names.Inv;
  }

  /** What the name space holds for an inode number, by its record. */
  lemma DirNode(d: Disk, i: nat)
    requires Healthy(d)
    ensures Names.DirAt(NodesOf(d), i) <==> 1 <= i <= INODE_COUNT && DirRecord(RecordAt(d.img, i))
    ensures Names.DirAt(NodesOf(d), i) ==>
              Taken(d.inos, i) && NodesOf(d)[i] == Names.Dir(RecordAt(d.img, i).links, MapOf(d, i))
  {
    hide RecordAt, Owns, GoodDir, DirRecord, DirMap, Entries;
    NodeAt(d, i);
  }

  lemma FileNode(d: Disk, i: nat)
    requires Healthy(d) && Taken(d.inos, i) && !DirRecord(RecordAt(d.img, i))
    ensures i in NodesOf(d) && NodesOf(d)[i] == Names.File(RecordAt(d.img, i).links, EntryType(RecordAt(d.img, i)))
  {
    hide RecordAt, Owns, GoodDir, DirRecord, EntryType;
    NodeAt(d, i);
  }

  /** Reads a directory's record and looks a name up; the record says whether it is a directory at all. */
  method Find(alloc: Allocator, parent: nat, name: Name) returns (rec: Result<InodeRecord>, found: Result<Target>)
    requires alloc.Valid() && Healthy(DiskNow(alloc))
    ensures rec.Ok? <==> Names.DirAt(NodesOf(DiskNow(alloc)), parent)
    ensures rec.Ok? ==> 1 <= parent <= INODE_COUNT && rec.value == RecordAt(alloc.dev.data, parent)
    ensures rec.Ok? ==>
              var m := NodesOf(DiskNow(alloc))[parent].entries;
              found == if name in m then Ok(m[name]) else Err(NotFound)
  {
    hide RecordAt, Healthy, Bitmap.Used, NodesOf, Allocator.Valid, Owns, FilesOf, RootsOf, DirRecord, DirMap, Entries, Size, BlocksForSize;
    ghost var d := DiskNow(alloc);
    found := Err(NotFound);
    AllocFacts(alloc);
    DirNode(d, parent);
    var rd := ReadInode(alloc.dev, parent);
    if rd.Err? { return Err(rd.error), found; }
    if !DirRecord(rd.value) { return Err(NotDir), found; }
    HealthyDir(d, parent);
    InBlocks(d, parent);
    ReachIs(Size(rd.value));
    var di := Open(rd.value);
    ghost var files := FilesOf(d.img, d.inos);
    SameMap(files, parent, di.Ptrs());
    found := LookupEntry(alloc, di, name, files, parent);
    return rd, found;
  }

  // ---------------------------------------------------------------- what an operation leaves alone

  /** The inodes named in except are the directory itself, or not on both disks. */
  lemma OthersFrom(d: Disk, e: Disk, except: set<nat>, dir: nat)
    requires KeptExcept(d, e, except) && forall i :: i in except ==> i == dir || !Taken(d.inos, i) || !Taken(e.inos, i)
    ensures OthersKept(d, e, dir)
  {
    hide Kept;
  }

  /** A directory keeps its type and permissions, whatever else it may change. */
  ghost predicate SameMode(d: Disk, e: Disk, i: nat) {
    |d.img| == |e.img| == TOTAL_BLOCKS && 1 <= i <= INODE_COUNT && RecordAt(e.img, i).mode == RecordAt(d.img, i).mode
  }

  lemma ModeIs(d: Disk, e: Disk, i: nat)
    requires |d.img| == |e.img| == TOTAL_BLOCKS && 1 <= i <= INODE_COUNT && RecordAt(e.img, i).mode == RecordAt(d.img, i).mode
    ensures SameMode(d, e, i)
  {
    hide RecordAt;
  }

  lemma KeptMode(d: Disk, e: Disk, except: set<nat>, i: nat)
    requires KeptExcept(d, e, except) && Taken(d.inos, i) && i !in except
    ensures SameMode(d, e, i) && SameFile(RecordAt(d.img, i), RecordAt(e.img, i)) && Taken(e.inos, i)
  {
    hide RecordAt, BlocksOf;
    assert Kept(d, e, i);
  }

  // ---------------------------------------------------------------- making a directory

  /** Room for a new directory and its name: a free block for the directory, and with that taken, room in the parent. */
  ghost predicate MkdirFits(d: Disk, parent: nat, name: Name)
    requires |d.img| == TOTAL_BLOCKS && Taken(d.inos, parent)
  {
    exists v: nat :: LeastBlock(d.used, v) && NameFits(Disk(d.img, d.inos, d.used + {v}), parent, name)
  }

  /** Room for a name is the same on both sides of a change that keeps the directory. */
  lemma FitsKept(d: Disk, e: Disk, parent: nat, name: Name, except: set<nat>)
    requires |d.img| == |e.img| == TOTAL_BLOCKS && Taken(d.inos, parent) && Taken(e.inos, parent) && parent !in except
    requires RecordAt(e.img, parent) == RecordAt(d.img, parent) && Keeps(BlocksOf(d), BlocksOf(e), except)
    ensures NameFits(e, parent, name) <==> NameFits(Disk(d.img, d.inos, e.used), parent, name)
  {
    hide RecordAt, NoRoom, BlockOf, Addr, PosOf, Keeps, FilesOf, RootsOf, DirEntrySize, NewBlockFits, BlocksForSize, Size;
    var rec := RecordAt(d.img, parent);
    var n, k := Reach(Size(rec)), DirEntrySize(|name|);
    var f := Disk(d.img, d.inos, e.used);
    InBlocks(d, parent);
    forall lb: nat | lb < n ensures BlockOf(BlocksOf(e), parent, lb) == BlockOf(BlocksOf(f), parent, lb) {
      KeepsFile(BlocksOf(d), BlocksOf(e), except, parent, lb);
      UsedIrrelevant(BlocksOf(d), BlocksOf(f), parent, lb);
    }
    SameRoom(BlocksOf(e), BlocksOf(f), parent, n, k);
  }

  lemma UsedIrrelevant(s: State, t: State, f: nat, lb: nat)
    requires t.files == s.files && t.img == s.img && f in s.files && lb < MAX_LOGICAL
    ensures BlockOf(t, f, lb) == BlockOf(s, f, lb)
  {
    hide Addr, PosOf;
    PosOfLogical(s.files, f, lb);
    SameIndexAddr(s, t, PosOf(f, lb));
  }

  lemma SameRoom(s: State, t: State, f: nat, n: nat, k: nat)
    requires forall lb: nat :: lb < n ==> BlockOf(s, f, lb) == BlockOf(t, f, lb)
    ensures HasRoom(s, f, n, k) <==> HasRoom(t, f, n, k)
  {
    hide BlockOf, NoRoom;
    if HasRoom(s, f, n, k) {
      var lb: nat :| lb < n && !NoRoom(BlockOf(s, f, lb), 0, k);
      assert !NoRoom(BlockOf(t, f, lb), 0, k);
    }
    if HasRoom(t, f, n, k) {
      var lb: nat :| lb < n && !NoRoom(BlockOf(t, f, lb), 0, k);
      assert !NoRoom(BlockOf(s, f, lb), 0, k);
    }
  }

  lemma LeastBlockUnique(used: set<nat>, v: nat, w: nat)
    requires LeastBlock(used, v) && LeastBlock(used, w)
    ensures v == w
  {
  }

  lemma LeastIsFree(d: Disk, n: nat)
    requires Healthy(d) && LeastInode(d.inos, n)
    ensures Namespaces.LeastFree(NodesOf(d), n)
  {
    hide RecordAt, Owns, GoodDir, DirRecord, NodesOf;
    forall m: nat ensures m in NodesOf(d) <==> Taken(d.inos, m) { NodeAt(d, m); }
  }

  ghost predicate CanMkdir(d: Disk, parent: nat, name: Name)
    requires |d.img| == TOTAL_BLOCKS
  {
    && Namespaces.Absent(NodesOf(d), parent, name) && InodeFree(d.inos)
    && Taken(d.inos, parent) && MkdirFits(d, parent, name)
  }

  /** Inode i is a directory of one block. */
  ghost predicate OneBlockDir(d: Disk, i: nat, mode: U16) {
    && |d.img| == TOTAL_BLOCKS && 1 <= i <= INODE_COUNT
    && RecordAt(d.img, i).mode == 0x4000 + mode % 0x200 && Size(RecordAt(d.img, i)) == BLOCK_SIZE
  }

  lemma StillOneBlock(e: Disk, f: Disk, i: nat, mode: U16)
    requires |e.img| == |f.img| == TOTAL_BLOCKS && 1 <= i <= INODE_COUNT && SameFile(RecordAt(e.img, i), RecordAt(f.img, i))
    requires RecordAt(e.img, i).mode == 0x4000 + mode % 0x200 && Size(RecordAt(e.img, i)) == BLOCK_SIZE
    ensures OneBlockDir(f, i, mode)
  {
    hide RecordAt;
    SameSize(RecordAt(e.img, i), RecordAt(f.img, i));
  }

  /** Makes a directory. A failure is undone by the mutation it runs in. */
  method Mkdir(alloc: Allocator, parent: U32, name: Name, mode: U16) returns (r: Result<nat>)
    requires alloc.Valid() && Sound(DiskNow(alloc))
    modifies alloc.dev`data, alloc.dev`dirty, alloc.inodeBM`bits, alloc.blockBM`bits, alloc.sb`freeInodes, alloc.sb`freeBlocks
    ensures alloc.Valid()
    ensures r.Ok? ==>
              && Sound(DiskNow(alloc))
              && Namespaces.Step(old(NodesOf(DiskNow(alloc))), Namespaces.Mkdir(parent, name), NodesOf(DiskNow(alloc)), r)
              && OthersKept(old(DiskNow(alloc)), DiskNow(alloc), parent) && SameMode(old(DiskNow(alloc)), DiskNow(alloc), parent)
              && OneBlockDir(DiskNow(alloc), r.value, mode)
    ensures r.Ok? <==> CanMkdir(old(DiskNow(alloc)), parent, name)
  {
    hide RecordAt, Healthy, Bitmap.Used, NodesOf, Allocator.Valid, Names.Inv, InodeFree, NameFits, Keeps, BlocksOf, RegionFull, KeptExcept,
      OthersKept, Size, OneBlockDir, SameFile, SameMode, MkdirFits, Namespaces.Step, DirRecord, MapOf, LeastBlock;
    ghost var d := DiskNow(alloc);
    SoundFacts(d);
    if name == [] { return Err(InvalidArg); }
    if |name| > MAX_NAME { return Err(NameTooLong); }
    var rec, found := Find(alloc, parent, name);
    if rec.Err? { return Err(rec.error); }
    DirNode(d, parent);
    if found.Ok? { return Err(Exists); }
    FitsNeedsBlock(d, parent, name);
    var n := NewDir(alloc, parent, mode);
    if n.Err? { return Err(n.error); }
    ghost var e := DiskNow(alloc);
    UsedBound(alloc);
    ghost var v: nat :| LeastBlock(d.used, v) && e.used == d.used + {v};
    MkdirMiddle(d, e, parent, name, n.value, v);
    var added := AddName(alloc, parent, name, n.value, FT_DIR, (rec.value.links + 1) % 0x1_0000);
    if added.Err? { return Err(added.error); }
    MkdirIsStep(d, e, DiskNow(alloc), parent, name, n.value);
    AllocFacts(alloc);
    assert SameMode(e, DiskNow(alloc), parent) by { ModeIs(e, DiskNow(alloc), parent); }
    MadeKeeps(d, e, DiskNow(alloc), parent, n.value);
    StillOneBlock(e, DiskNow(alloc), n.value, mode);
    return Ok(n.value);
  }

  /** Making an inode and adding its name, one after the other. */
  lemma MadeKeeps(d: Disk, e: Disk, f: Disk, parent: nat, n: nat)
    requires KeptExcept(d, e, {n}) && KeptExcept(e, f, {parent}) && parent != n && Taken(d.inos, parent) && LeastInode(d.inos, n)
    requires e.inos == d.inos + {n - 1} && SameMode(e, f, parent)
    ensures OthersKept(d, f, parent) && SameMode(d, f, parent) && |e.img| == |f.img| == TOTAL_BLOCKS
    ensures SameFile(RecordAt(e.img, n), RecordAt(f.img, n))
  {
    hide RecordAt, BlocksOf, KeptExcept, OthersKept, Kept, SameFile;
    KeptExceptTrans(d, e, f, {n}, {parent});
    OthersFrom(d, f, {n} + {parent}, parent);
    KeptMode(d, e, {n}, parent);
    KeptMode(e, f, {parent}, n);
  }

  lemma SameSize(a: InodeRecord, b: InodeRecord)
    requires SameFile(a, b)
    ensures Size(b) == Size(a) && b.mode == a.mode && b.ptrs == a.ptrs
  {
  }

  lemma FitsNeedsBlock(d: Disk, parent: nat, name: Name)
    requires |d.img| == TOTAL_BLOCKS && Taken(d.inos, parent)
    ensures MkdirFits(d, parent, name) ==> !RegionFull(d.used)
  {
    hide NameFits;
    if MkdirFits(d, parent, name) {
      var v: nat :| LeastBlock(d.used, v) && NameFits(Disk(d.img, d.inos, d.used + {v}), parent, name);
      assert v !in d.used;
    }
  }

  /** With the new directory in place, the parent still lacks the name and has the room it had. */
  lemma MkdirMiddle(d: Disk, e: Disk, parent: nat, name: Name, n: nat, v: nat)
    requires Healthy(d) && Healthy(e) && Taken(d.inos, parent) && DirRecord(RecordAt(d.img, parent)) && name !in MapOf(d, parent)
    requires LeastInode(d.inos, n) && e.inos == d.inos + {n - 1} && LeastBlock(d.used, v) && e.used == d.used + {v}
    requires forall i :: 1 <= i <= INODE_COUNT && i != n ==> RecordAt(e.img, i) == RecordAt(d.img, i)
    requires Keeps(BlocksOf(d), BlocksOf(e), {n})
    ensures Taken(e.inos, parent) && parent != n && DirRecord(RecordAt(e.img, parent)) && MapOf(e, parent) == MapOf(d, parent)
    ensures NameFits(e, parent, name) <==> MkdirFits(d, parent, name)
  {
    hide RecordAt, Owns, GoodDir, DirRecord, DirMap, Entries, Keeps, BlocksOf, NameFits;
    InBlocks(d, parent);
    KeptNode(BlocksOf(d), BlocksOf(e), {n}, parent, RecordAt(d.img, parent));
    FitsKept(d, e, parent, name, {n});
    if MkdirFits(d, parent, name) {
      var w: nat :| LeastBlock(d.used, w) && NameFits(Disk(d.img, d.inos, d.used + {w}), parent, name);
      LeastBlockUnique(d.used, v, w);
    }
  }

  lemma MkdirIsStep(d: Disk, e: Disk, f: Disk, parent: U32, name: Name, n: U32)
    requires Sound(d) && Healthy(e) && Healthy(f) && Namespaces.Absent(NodesOf(d), parent, name) && LeastInode(d.inos, n)
    requires Taken(d.inos, parent) && Taken(e.inos, parent) && DirRecord(RecordAt(d.img, parent)) && MapOf(e, parent) == MapOf(d, parent)
    requires NodesOf(e) == NodesOf(d)[n := Names.Dir(2, Names.DirEntries(n, parent))]
    requires NodesOf(f) == NodesOf(e)[parent := Names.Dir((RecordAt(d.img, parent).links + 1) % 0x1_0000, MapOf(e, parent)[name := Target(n, FT_DIR)])]
    ensures Sound(f) && Namespaces.Step(NodesOf(d), Namespaces.Mkdir(parent, name), NodesOf(f), Ok(n))
  {
    hide RecordAt, Healthy, NodesOf, Names.Inv, MapOf, DirRecord;
    SoundFacts(d);
    DiskOwns(f);
    DirNode(d, parent);
    LeastIsFree(d, n);
    Namespaces.MadeDirOrder(NodesOf(d), parent, name, n);
    Namespaces.StepKeepsInv(NodesOf(d), Namespaces.Mkdir(parent, name), NodesOf(f), Ok(n));
  }

  // ---------------------------------------------------------------- making a file

  /** The record of a new regular file. */
  function FileRec(mode: U16): (r: InodeRecord)
    ensures Blank(r) && !DirRecord(r) && r.links == 1 && EntryType(r) == Namespaces.FT_REG_FILE
    ensures Size(r) == 0 && r.mode == 0x8000 + mode % 0x200
  {
    InodeRecord(0x8000 + mode % 0x200, 0, 0, 0, 0, 0, 0, 0, 1, 0, 0, seq(SLOTS, _ => 0), 0, 0)
  }

  /** Inode i is a regular file of size 0 that maps nothing. */
  ghost predicate EmptyFile(d: Disk, i: nat, mode: U16) {
    && |d.img| == TOTAL_BLOCKS && Taken(d.inos, i)
    && RecordAt(d.img, i).mode == 0x8000 + mode % 0x200 && Size(RecordAt(d.img, i)) == 0
    && forall l: nat :: l < MAX_LOGICAL ==> Addr(BlocksOf(d), PosOf(i, l)) == 0
  }

  lemma {:induction false} NothingMapped(s: State, p: Pos)
    requires InTree(s.files, p) && forall k :: 0 <= k < SLOTS ==> s.files[p.inum][k] == 0
    ensures Addr(s, p) == 0
    decreases |p.path|
  {
    if p.path != [] { NothingMapped(s, Parent(p)); }
  }

  lemma StillEmpty(d: Disk, i: nat, mode: U16)
    requires |d.img| == TOTAL_BLOCKS && Taken(d.inos, i) && SameFile(FileRec(mode), RecordAt(d.img, i))
    ensures EmptyFile(d, i, mode)
  {
    hide RecordAt, Addr, PosOf, FileRec, BlocksOf;
    InBlocks(d, i);
    SameSize(FileRec(mode), RecordAt(d.img, i));
    forall l: nat | l < MAX_LOGICAL ensures Addr(BlocksOf(d), PosOf(i, l)) == 0 {
      PosOfLogical(BlocksOf(d).files, i, l);
      PosOfInum(i, l);
      NothingMapped(BlocksOf(d), PosOf(i, l));
    }
  }

  /** Creates a regular file, or returns the one that has the name. A failure is undone by the mutation it runs in. */
  method Create(alloc: Allocator, parent: U32, name: Name, mode: U16) returns (r: Result<nat>)
    requires alloc.Valid() && Sound(DiskNow(alloc))
    modifies alloc.dev`data, alloc.dev`dirty, alloc.inodeBM`bits, alloc.blockBM`bits, alloc.sb`freeInodes, alloc.sb`freeBlocks
    ensures alloc.Valid()
    ensures r.Ok? ==>
              && Sound(DiskNow(alloc))
              && Namespaces.Step(old(NodesOf(DiskNow(alloc))), Namespaces.Create(parent, name), NodesOf(DiskNow(alloc)), r)
              && if Namespaces.FileAt(old(NodesOf(DiskNow(alloc))), parent, name) then DiskNow(alloc) == old(DiskNow(alloc))
                 else
                   && OthersKept(old(DiskNow(alloc)), DiskNow(alloc), parent) && SameMode(old(DiskNow(alloc)), DiskNow(alloc), parent)
                   && EmptyFile(DiskNow(alloc), r.value, mode)
    ensures r.Ok? <==> name != [] && (|| Namespaces.FileAt(old(NodesOf(DiskNow(alloc))), parent, name)
                                      || CreateFits(old(DiskNow(alloc)), parent, name))
  {
    hide RecordAt, Healthy, Bitmap.Used, NodesOf, Allocator.Valid, Names.Inv, InodeFree, NameFits, Keeps, BlocksOf, EntryType, KeptExcept,
      OthersKept, Size, EmptyFile;
    ghost var d := DiskNow(alloc);
    SoundFacts(d);
    AllocFacts(alloc);
    if name == [] { return Err(InvalidArg); }
    var rec, found := Find(alloc, parent, name);
    if rec.Err? { return Err(rec.error); }
    DirNode(d, parent);
    if found.Ok? {
      TargetNode(d, parent, name);
      var ex := ReadInode(alloc.dev, found.value.ino);
      if DirRecord(ex.value) { return Err(IsDir); }
      return Ok(found.value.ino);
    }
    var n := NewFile(alloc, FileRec(mode));
    if n.Err? { return Err(n.error); }
    ghost var e := DiskNow(alloc);
    UsedBound(alloc);
    CreateMiddle(d, e, parent, name, n.value);
    var added := AddName(alloc, parent, name, n.value, Namespaces.FT_REG_FILE, rec.value.links);
    if added.Err? { return Err(added.error); }
    FittingIsShort(e, parent, name);
    CreateIsStep(d, e, DiskNow(alloc), parent, name, n.value);
    AllocFacts(alloc);
    MadeKeeps(d, e, DiskNow(alloc), parent, n.value);
    StillEmpty(DiskNow(alloc), n.value, mode);
    return Ok(n.value);
  }

  ghost predicate CreateFits(d: Disk, parent: nat, name: Name)
    requires |d.img| == TOTAL_BLOCKS
  {
    && Namespaces.Absent(NodesOf(d), parent, name) && InodeFree(d.inos)
    && Taken(d.inos, parent) && NameFits(d, parent, name)
  }

  /** Entries of a sound name space lead to inodes that are there. */
  lemma TargetNode(d: Disk, parent: nat, name: Name)
    requires Sound(d) && Names.DirAt(NodesOf(d), parent) && name in NodesOf(d)[parent].entries
    ensures var i := NodesOf(d)[parent].entries[name].ino;
            && Taken(d.inos, i) && i in NodesOf(d)
            && (NodesOf(d)[i].Dir? <==> DirRecord(RecordAt(d.img, i)))
            && (NodesOf(d)[i].File? ==> NodesOf(d)[i] == Names.File(RecordAt(d.img, i).links, EntryType(RecordAt(d.img, i))))
  {
    hide RecordAt, Healthy, NodesOf, DirRecord, EntryType, Names.Tree, Names.Counted, Names.InRange;
    SoundFacts(d);
    var i := NodesOf(d)[parent].entries[name].ino;
    NodeAt(d, i);
    DirNode(d, i);
    if !DirRecord(RecordAt(d.img, i)) { FileNode(d, i); }
  }

  lemma CreateMiddle(d: Disk, e: Disk, parent: nat, name: Name, n: nat)
    requires Healthy(d) && Healthy(e) && Taken(d.inos, parent) && DirRecord(RecordAt(d.img, parent)) && name !in MapOf(d, parent)
    requires LeastInode(d.inos, n) && e.inos == d.inos + {n - 1} && e.used == d.used && TOTAL_BLOCKS !in d.used
    requires forall i :: 1 <= i <= INODE_COUNT && i != n ==> RecordAt(e.img, i) == RecordAt(d.img, i)
    requires Blank(RecordAt(e.img, n)) && forall a :: DATA_START <= a < TOTAL_BLOCKS ==> e.img[a] == d.img[a]
    ensures Taken(e.inos, parent) && parent != n && DirRecord(RecordAt(e.img, parent)) && MapOf(e, parent) == MapOf(d, parent)
    ensures NameFits(e, parent, name) <==> NameFits(d, parent, name)
  {
    hide RecordAt, Owns, GoodDir, DirRecord, DirMap, Entries, Keeps, NameFits, FilesOf, RootsOf;
    BlankKeeps(d, e, n);
    InBlocks(d, parent);
    KeptNode(BlocksOf(d), BlocksOf(e), {n}, parent, RecordAt(d.img, parent));
    FitsKept(d, e, parent, name, {n});
    assert Disk(d.img, d.inos, e.used) == d;
  }

  lemma BlankKeeps(d: Disk, e: Disk, n: nat)
    requires Healthy(d) && |e.img| == TOTAL_BLOCKS && 1 <= n <= INODE_COUNT && n - 1 !in d.inos && e.inos == d.inos + {n - 1}
    requires e.used == d.used && TOTAL_BLOCKS !in d.used && Blank(RecordAt(e.img, n))
    requires forall i :: 1 <= i <= INODE_COUNT && i != n ==> RecordAt(e.img, i) == RecordAt(d.img, i)
    requires forall a :: DATA_START <= a < TOTAL_BLOCKS ==> e.img[a] == d.img[a]
    ensures Keeps(BlocksOf(d), BlocksOf(e), {n})
  {
    hide Owns, RecordAt, GoodDir, Keeps, FilesOf, RootsOf, DirRecord;
    var s := BlocksOf(d);
    FilesAt(d.img, d.inos, n);
    NewInode(s, n);
    var t := State(s.files[n := seq(SLOTS, _ => 0)], s.img, s.used);
    MetaWrite(t, e.img, TOTAL_BLOCKS);
    BlankRoots(RecordAt(e.img, n));
    TakenMore(d.inos, e.inos, n);
    FilesUpdate(d.img, e.img, d.inos, e.inos, n, seq(SLOTS, _ => 0));
    assert BlocksOf(e) == State(t.files, e.img, t.used);
    KeepsTrans(s, t, BlocksOf(e), {}, {});
    KeepsLess(s, BlocksOf(e), n);
  }

  lemma CreateIsStep(d: Disk, e: Disk, f: Disk, parent: U32, name: Name, n: U32)
    requires Sound(d) && Healthy(e) && Healthy(f) && Namespaces.Absent(NodesOf(d), parent, name) && LeastInode(d.inos, n)
    requires Taken(d.inos, parent) && Taken(e.inos, parent) && DirRecord(RecordAt(d.img, parent)) && MapOf(e, parent) == MapOf(d, parent)
    requires NodesOf(e) == NodesOf(d)[n := Names.File(1, Namespaces.FT_REG_FILE)]
    requires NodesOf(f) == NodesOf(e)[parent := Names.Dir(RecordAt(d.img, parent).links, MapOf(e, parent)[name := Target(n, Namespaces.FT_REG_FILE)])]
    ensures Sound(f) && Namespaces.Step(NodesOf(d), Namespaces.Create(parent, name), NodesOf(f), Ok(n))
  {
    hide RecordAt, Healthy, NodesOf, Names.Inv, MapOf, DirRecord;
    SoundFacts(d);
    DiskOwns(f);
    DirNode(d, parent);
    LeastIsFree(d, n);
    Namespaces.CreatedOrder(NodesOf(d), parent, name, n, Namespaces.FT_REG_FILE);
    Namespaces.StepKeepsInv(NodesOf(d), Namespaces.Create(parent, name), NodesOf(f), Ok(n));
  }

  // ---------------------------------------------------------------- one more name

  /** Gives a file one more name; the name space stays sound exactly when the 16-bit count has room. */
  method Link(alloc: Allocator, file: U32, parent: U32, name: Name) returns (r: Result<nat>)
    requires alloc.Valid() && Sound(DiskNow(alloc)) && Taken(alloc.inodeBM.Used(), file)
    modifies alloc.dev`data, alloc.dev`dirty, alloc.blockBM`bits, alloc.sb`freeBlocks
    ensures alloc.Valid()
    ensures r.Ok? ==>
              && Healthy(DiskNow(alloc))
              && Namespaces.Step(old(NodesOf(DiskNow(alloc))), Namespaces.Link(file, parent, name), NodesOf(DiskNow(alloc)), r)
              && (Sound(DiskNow(alloc)) <==> old(RecordAt(alloc.dev.data, file)).links < Names.MAX_LINKS)
              && OthersKept(old(DiskNow(alloc)), DiskNow(alloc), parent) && SameMode(old(DiskNow(alloc)), DiskNow(alloc), parent)
    ensures r.Ok? <==> LinkFits(old(DiskNow(alloc)), file, parent, name)
  {
    hide RecordAt, Healthy, Bitmap.Used, NodesOf, Allocator.Valid, Names.Inv, NameFits, EntryType, DirRecord, KeptExcept, OthersKept;
    ghost var d := DiskNow(alloc);
    SoundFacts(d);
    AllocFacts(alloc);
    DirNode(d, file);
    var target := ReadInode(alloc.dev, file);
    if DirRecord(target.value) { return Err(IsDir); }
    FileNode(d, file);
    if name == [] { return Err(InvalidArg); }
    var rec, found := Find(alloc, parent, name);
    if rec.Err? { return Err(rec.error); }
    DirNode(d, parent);
    if found.Ok? { return Err(Exists); }
    var added := AddName(alloc, parent, name, file, EntryType(target.value), rec.value.links);
    if added.Err? { return Err(added.error); }
    FittingIsShort(d, parent, name);
    ghost var e := DiskNow(alloc);
    SetLinks(alloc, file, (target.value.links + 1) % 0x1_0000);
    KeptExceptTrans(d, e, DiskNow(alloc), {parent}, {});
    OthersFrom(d, DiskNow(alloc), {parent} + {}, parent);
    KeptMode(e, DiskNow(alloc), {}, parent);
    LinkIsStep(d, DiskNow(alloc), file, parent, name);
    return Ok(0);
  }

  ghost predicate LinkFits(d: Disk, file: nat, parent: nat, name: Name)
    requires |d.img| == TOTAL_BLOCKS
  {
    && file in NodesOf(d) && NodesOf(d)[file].File? && Namespaces.Absent(NodesOf(d), parent, name)
    && Taken(d.inos, parent) && NameFits(d, parent, name)
  }

  lemma LinkIsStep(d: Disk, f: Disk, file: U32, parent: U32, name: Name)
    requires Sound(d) && Healthy(f) && Namespaces.Absent(NodesOf(d), parent, name) && Taken(d.inos, file) && Taken(d.inos, parent)
    requires file in NodesOf(d) && NodesOf(d)[file] == Names.File(RecordAt(d.img, file).links, EntryType(RecordAt(d.img, file)))
    requires NodesOf(d)[parent] == Names.Dir(RecordAt(d.img, parent).links, MapOf(d, parent))
    requires var s := NodesOf(d)[parent := Names.Dir(RecordAt(d.img, parent).links,
                                                     MapOf(d, parent)[name := Target(file, EntryType(RecordAt(d.img, file)))])];
             file in s && NodesOf(f) == s[file := WithLinks(s[file], (RecordAt(d.img, file).links + 1) % 0x1_0000)]
    ensures Namespaces.Step(NodesOf(d), Namespaces.Link(file, parent, name), NodesOf(f), Ok(0))
    ensures Sound(f) <==> RecordAt(d.img, file).links < Names.MAX_LINKS
  {
    hide RecordAt, Healthy, NodesOf, Names.Inv, MapOf, EntryType;
    SoundFacts(d);
    DiskOwns(f);
    Namespaces.LinkedOrder(NodesOf(d), parent, name, file);
    Names.LinkedKeepsInvIff(NodesOf(d), parent, name, file);
  }

  // ---------------------------------------------------------------- taking a name away

  /** Takes a name away; the file goes with its last name, blocks and all. */
  method Unlink(alloc: Allocator, parent: U32, name: Name) returns (r: Result<nat>)
    requires alloc.Valid() && Sound(DiskNow(alloc))
    modifies alloc.dev`data, alloc.dev`dirty, alloc.inodeBM`bits, alloc.blockBM`bits, alloc.sb`freeInodes, alloc.sb`freeBlocks
    ensures alloc.Valid() && Sound(DiskNow(alloc))
    ensures Namespaces.Step(old(NodesOf(DiskNow(alloc))), Namespaces.Unlink(parent, name), NodesOf(DiskNow(alloc)), r)
    ensures r.Ok? <==> Namespaces.FileAt(old(NodesOf(DiskNow(alloc))), parent, name) && Names.Proper(name) && name != []
    ensures r.Ok? ==> OthersKept(old(DiskNow(alloc)), DiskNow(alloc), parent) && SameMode(old(DiskNow(alloc)), DiskNow(alloc), parent)
    ensures r.Err? ==> DiskNow(alloc) == old(DiskNow(alloc))
  {
    hide RecordAt, Healthy, Bitmap.Used, NodesOf, Allocator.Valid, Names.Inv, EntryType, DirRecord, DirMap, Entries, KeptExcept, OthersKept;
    ghost var d := DiskNow(alloc);
    SoundFacts(d);
    AllocFacts(alloc);
    if name == [] || name == DOT || name == DOTDOT { return Err(InvalidArg); }
    var rec, found := Find(alloc, parent, name);
    if rec.Err? { return Err(rec.error); }
    DirNode(d, parent);
    if found.Err? { return Err(NotFound); }
    var f := found.value.ino;
    TargetNode(d, parent, name);
    var target := ReadInode(alloc.dev, f);
    if DirRecord(target.value) { return Err(IsDir); }
    RemoveName(alloc, parent, name);
    AllocFacts(alloc);
    ghost var e := DiskNow(alloc);
    var left := if target.value.links > 0 then target.value.links - 1 else target.value.links;
    if left == 0 {
      DropInode(alloc, f);
      TookKeeps(d, e, DiskNow(alloc), parent, {f});
    } else {
      SetLinks(alloc, f, left);
      TookKeeps(d, e, DiskNow(alloc), parent, {});
    }
    UnlinkIsStep(d, DiskNow(alloc), parent, name);
    return Ok(0);
  }

  /** Removing a name, then changing or freeing what it named. */
  lemma TookKeeps(d: Disk, e: Disk, f: Disk, parent: nat, gone: set<nat>)
    requires KeptExcept(d, e, {parent}) && KeptExcept(e, f, gone) && Taken(d.inos, parent) && e.inos == d.inos && parent !in gone
    requires SameMode(d, e, parent) && forall i :: i in gone ==> !Taken(f.inos, i)
    ensures OthersKept(d, f, parent) && SameMode(d, f, parent) && KeptExcept(d, f, {parent} + gone)
  {
    hide RecordAt, BlocksOf, KeptExcept, OthersKept, Kept;
    KeptExceptTrans(d, e, f, {parent}, gone);
    OthersFrom(d, f, {parent} + gone, parent);
    KeptMode(e, f, gone, parent);
  }

  lemma UnlinkIsStep(d: Disk, e: Disk, parent: U32, name: Name)
    requires Sound(d) && Healthy(e) && Namespaces.FileAt(NodesOf(d), parent, name) && Names.Proper(name)
    requires var s := NodesOf(d);
             var f := s[parent].entries[name].ino;
             var left := if s[f].links > 0 then s[f].links - 1 else s[f].links;
             var t := s[parent := Names.Dir(s[parent].links, s[parent].entries - {name})];
             f in t && NodesOf(e) == if left == 0 then t - {f} else t[f := WithLinks(t[f], left)]
    ensures Sound(e) && Namespaces.Step(NodesOf(d), Namespaces.Unlink(parent, name), NodesOf(e), Ok(0))
  {
    hide RecordAt, Healthy, NodesOf, Names.Inv;
    SoundFacts(d);
    DiskOwns(e);
    Namespaces.UnlinkedOrder(NodesOf(d), parent, name);
    Namespaces.StepKeepsInv(NodesOf(d), Namespaces.Unlink(parent, name), NodesOf(e), Ok(0));
  }

  // ---------------------------------------------------------------- removing a directory

  /** The directory holds nothing but its two dots. */
  method EmptyOnDisk(alloc: Allocator, i: nat) returns (empty: bool)
    requires alloc.Valid() && Healthy(DiskNow(alloc)) && Names.DirAt(NodesOf(DiskNow(alloc)), i)
    ensures empty <==> NodesOf(DiskNow(alloc))[i].entries.Keys <= {DOT, DOTDOT}
  {
    hide RecordAt, Healthy, Bitmap.Used, NodesOf, Allocator.Valid, Owns, FilesOf, RootsOf, DirRecord, DirMap, Entries, Size, BlocksForSize;
    ghost var d := DiskNow(alloc);
    AllocFacts(alloc);
    DirNode(d, i);
    var rd := ReadInode(alloc.dev, i);
    HealthyDir(d, i);
    InBlocks(d, i);
    ReachIs(Size(rd.value));
    var di := Open(rd.value);
    ghost var files := FilesOf(d.img, d.inos);
    SameMap(files, i, di.Ptrs());
    var e := IsEmptyDir(alloc, di, files, i);
    return e.value;
  }

  /** Removes an empty directory with its blocks. */
  method Rmdir(alloc: Allocator, parent: U32, name: Name) returns (r: Result<nat>)
    requires alloc.Valid() && Sound(DiskNow(alloc))
    modifies alloc.dev`data, alloc.dev`dirty, alloc.inodeBM`bits, alloc.blockBM`bits, alloc.sb`freeInodes, alloc.sb`freeBlocks
    ensures alloc.Valid() && Sound(DiskNow(alloc))
    ensures Namespaces.Step(old(NodesOf(DiskNow(alloc))), Namespaces.Rmdir(parent, name), NodesOf(DiskNow(alloc)), r)
    ensures r.Ok? <==> Names.EmptyAt(old(NodesOf(DiskNow(alloc))), parent, name) && Names.Proper(name) && name != []
    ensures r.Ok? ==> OthersKept(old(DiskNow(alloc)), DiskNow(alloc), parent) && SameMode(old(DiskNow(alloc)), DiskNow(alloc), parent)
    ensures r.Err? ==> DiskNow(alloc) == old(DiskNow(alloc))
  {
    hide RecordAt, Healthy, Bitmap.Used, NodesOf, Allocator.Valid, Names.Inv, EntryType, DirRecord, DirMap, Entries, KeptExcept, OthersKept;
    ghost var d := DiskNow(alloc);
    SoundFacts(d);
    AllocFacts(alloc);
    if name == [] || name == DOT || name == DOTDOT { return Err(InvalidArg); }
    var rec, found := Find(alloc, parent, name);
    if rec.Err? { return Err(rec.error); }
    DirNode(d, parent);
    if found.Err? { return Err(NotFound); }
    var f := found.value.ino;
    TargetNode(d, parent, name);
    var target := ReadInode(alloc.dev, f);
    if !DirRecord(target.value) { return Err(NotDir); }
    var empty := EmptyOnDisk(alloc, f);
    if !empty { return Err(NotEmpty); }
    OtherDir(d, parent, name);
    RemoveName(alloc, parent, name);
    AllocFacts(alloc);
    ghost var e := DiskNow(alloc);
    DropInode(alloc, f);
    TookKeeps(d, e, DiskNow(alloc), parent, {f});
    ghost var e' := DiskNow(alloc);
    SetLinks(alloc, parent, if rec.value.links > 0 then rec.value.links - 1 else rec.value.links);
    KeptExceptTrans(d, e', DiskNow(alloc), {parent} + {f}, {});
    OthersFrom(d, DiskNow(alloc), {parent} + {f} + {}, parent);
    KeptMode(e', DiskNow(alloc), {}, parent);
    RmdirIsStep(d, DiskNow(alloc), parent, name);
    return Ok(0);
  }

  lemma OtherDir(d: Disk, parent: nat, name: Name)
    requires Sound(d) && Names.EmptyAt(NodesOf(d), parent, name) && Names.Proper(name)
    ensures NodesOf(d)[parent].entries[name].ino != parent
  {
    hide Healthy, NodesOf, Names.Inv;
    SoundFacts(d);
    Namespaces.EmptyIsOther(NodesOf(d), parent, name);
  }

  lemma RmdirIsStep(d: Disk, e: Disk, parent: U32, name: Name)
    requires Sound(d) && Healthy(e) && Names.EmptyAt(NodesOf(d), parent, name) && Names.Proper(name)
    requires var s := NodesOf(d);
             var f := s[parent].entries[name].ino;
             var t := s[parent := Names.Dir(s[parent].links, s[parent].entries - {name})] - {f};
             parent in t && NodesOf(e) == t[parent := WithLinks(t[parent], if s[parent].links > 0 then s[parent].links - 1 else 0)]
    ensures Sound(e) && Namespaces.Step(NodesOf(d), Namespaces.Rmdir(parent, name), NodesOf(e), Ok(0))
  {
    hide RecordAt, Healthy, NodesOf, Names.Inv;
    SoundFacts(d);
    DiskOwns(e);
    OtherDir(d, parent, name);
    Namespaces.RemovedDirOrder(NodesOf(d), parent, name);
    Namespaces.StepKeepsInv(NodesOf(d), Namespaces.Rmdir(parent, name), NodesOf(e), Ok(0));
  }
}
