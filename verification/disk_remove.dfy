/** Taking names and inodes away on disk, seen as changes of the name space the disk holds. */
module DiskRemove {
  import opened Bytes
  import opened Device
  import opened Bitmaps
  import opened Allocation
  import opened BlockMap
  import opened Extents
  import opened Release
  import opened InodeTable
  import opened DirFormat
  import opened DirMaps
  import opened DirState
  import opened DirRead
  import opened Directory
  import opened DiskState
  import opened DiskNames
  import Names

  // ---------------------------------------------------------------- link counts

  /** The same node with another link count. */
  function WithLinks(node: Names.Node, links: nat): Names.Node {
    match node
    case Dir(_, entries) => Names.Dir(links, entries)
    case File(_, fileType) => Names.File(links, fileType)
  }

  lemma LinksSet(d: Disk, e: Disk, i: nat, links: U16)
    requires Healthy(d) && Taken(d.inos, i) && |e.img| == TOTAL_BLOCKS && e.inos == d.inos && e.used == d.used && TOTAL_BLOCKS !in d.used
    requires forall j :: 1 <= j <= INODE_COUNT && j != i ==> RecordAt(e.img, j) == RecordAt(d.img, j)
    requires RecordAt(e.img, i) == RecordAt(d.img, i).(links := links)
    requires forall a :: DATA_START <= a < TOTAL_BLOCKS ==> e.img[a] == d.img[a]
    ensures Healthy(e) && i in NodesOf(d) && NodesOf(e) == NodesOf(d)[i := WithLinks(NodesOf(d)[i], links)]
    ensures KeptExcept(d, e, {})
  {
    hide KeptExcept, Owns, RecordAt, GoodDir, Keeps, NodesOf, FilesOf, RootsOf, DirRecord, EntryType, DirMap, Entries, Size;
    var rec := RecordAt(d.img, i);
    FilesUpdate(d.img, e.img, d.inos, e.inos, i, RootsOf(rec.ptrs));
    InBlocks(d, i);
    SameMap(BlocksOf(d).files, i, RootsOf(rec.ptrs));
    MetaWrite(BlocksOf(d), e.img, TOTAL_BLOCKS);
    assert BlocksOf(e) == State(BlocksOf(d).files, e.img, d.used);
    KeptNode(BlocksOf(d), BlocksOf(e), {}, i, rec);
    KeptFrom(d, e, {});
    KeepsWeaken(BlocksOf(d), BlocksOf(e), i);
    SameKind(rec, RecordAt(e.img, i));
    SameSizeRec(rec, links);
    if DirRecord(rec) { HealthyDir(d, i); }
    NodeAt(d, i);
    OneNode(d, e, i);
  }

  lemma SameSizeRec(rec: InodeRecord, links: U16)
    ensures Size(rec.(links := links)) == Size(rec)
  {
  }

  lemma KeepsWeaken(s: State, t: State, n: nat)
    requires Keeps(s, t, {})
    ensures Keeps(s, t, {n})
  {
    hide BlockOf, Addr, PosOf;
  }

  /** Writes another link count into the record of an inode. */
  method SetLinks(alloc: Allocator, i: nat, links: U16)
    requires alloc.Valid() && Healthy(DiskNow(alloc)) && Taken(alloc.inodeBM.Used(), i)
    modifies alloc.dev`data, alloc.dev`dirty
    ensures alloc.Valid() && Healthy(DiskNow(alloc)) && i in old(NodesOf(DiskNow(alloc)))
    ensures NodesOf(DiskNow(alloc)) == old(NodesOf(DiskNow(alloc)))[i := WithLinks(old(NodesOf(DiskNow(alloc)))[i], links)]
    ensures KeptExcept(old(DiskNow(alloc)), DiskNow(alloc), {})
  {
    hide KeptExcept, RecordAt, Healthy, Bitmap.Used, NodesOf, Allocator.Valid;
    ghost var d := DiskNow(alloc);
    UsedBound(alloc);
    AllocFacts(alloc);
    var rd := ReadInode(alloc.dev, i);
    StoreRecord(alloc, i, rd.value.(links := links));
    UsedBound(alloc);
    LinksSet(d, DiskNow(alloc), i, links);
  }

  lemma AllocFacts(alloc: Allocator)
    requires alloc.Valid()
    ensures alloc.dev.Valid() && !alloc.dev.faulty && |alloc.dev.data| == TOTAL_BLOCKS && alloc.blockBM != alloc.inodeBM
  {
  }

  // ---------------------------------------------------------------- removing a name

  lemma NameRemoved(d: Disk, e: Disk, parent: nat, name: Name)
    requires Healthy(d) && Taken(d.inos, parent) && DirRecord(RecordAt(d.img, parent)) && |e.img| == TOTAL_BLOCKS
    requires e.inos == d.inos && e.used == d.used && forall i :: 1 <= i <= INODE_COUNT ==> RecordAt(e.img, i) == RecordAt(d.img, i)
    requires var s, n := BlocksOf(d), Reach(Size(RecordAt(d.img, parent)));
             var t := State(s.files, e.img, s.used);
             && Owns(t) && OtherFiles(s, t, parent) && Removed(Entries(s, parent, n), Entries(t, parent, n), name)
             && (DirTiled(s, parent, n) ==> DirTiled(t, parent, n)) && (NoTail(s, parent, n) ==> NoTail(t, parent, n))
    ensures Healthy(e) && parent in NodesOf(d)
    ensures NodesOf(e) == NodesOf(d)[parent := Names.Dir(RecordAt(d.img, parent).links, MapOf(d, parent) - {name})]
    ensures KeptExcept(d, e, {parent})
  {
    hide KeptExcept, Owns, RecordAt, Keeps, NodesOf, FilesOf, RootsOf, DirRecord, DirMap, Unique, Entries, DirTiled, NoTail, OtherFiles, Removed, Size, BlocksForSize;
    var rec := RecordAt(d.img, parent);
    FilesUpdate(d.img, e.img, d.inos, e.inos, parent, RootsOf(rec.ptrs));
    InBlocks(d, parent);
    SameMap(BlocksOf(d).files, parent, RootsOf(rec.ptrs));
    assert BlocksOf(e) == State(BlocksOf(d).files, e.img, d.used);
    OtherFilesKeep(BlocksOf(d), BlocksOf(e), parent);
    HealthyDir(d, parent);
    ReachIs(Size(rec));
    RemoveIsMapDelete(Entries(BlocksOf(d), parent, Reach(Size(rec))), Entries(BlocksOf(e), parent, Reach(Size(rec))), name);
    NodeAt(d, parent);
    OneNode(d, e, parent);
  }

  /** Takes a name out of a directory on disk. */
  method RemoveName(alloc: Allocator, parent: nat, name: Name)
    requires alloc.Valid() && Healthy(DiskNow(alloc)) && Taken(alloc.inodeBM.Used(), parent)
    requires DirRecord(RecordAt(alloc.dev.data, parent)) && name in MapOf(DiskNow(alloc), parent)
    modifies alloc.dev`data, alloc.dev`dirty
    ensures alloc.Valid() && Healthy(DiskNow(alloc)) && parent in old(NodesOf(DiskNow(alloc)))
    ensures NodesOf(DiskNow(alloc))
         == old(NodesOf(DiskNow(alloc)))[parent := Names.Dir(old(RecordAt(alloc.dev.data, parent)).links, old(MapOf(DiskNow(alloc), parent)) - {name})]
    ensures KeptExcept(old(DiskNow(alloc)), DiskNow(alloc), {parent})
    ensures RecordAt(alloc.dev.data, parent) == RecordAt(old(alloc.dev.data), parent)
  {
    hide KeptExcept, RecordAt, Healthy, Bitmap.Used, NodesOf, Allocator.Valid, Owns, FilesOf, RootsOf, DirRecord, DirMap, Entries, DirTiled, NoTail, OtherFiles,
      Removed, Size, BlocksForSize;
    ghost var d := DiskNow(alloc);
    UsedBound(alloc);
    AllocFacts(alloc);
    HealthyDir(d, parent);
    InBlocks(d, parent);
    var rd := ReadInode(alloc.dev, parent);
    var di := Open(rd.value);
    ghost var files := FilesOf(d.img, d.inos);
    SameMap(files, parent, di.Ptrs());
    var r := RemoveEntry(alloc, di, name, files, parent);
    UsedBound(alloc);
    MetaSameRecords(d.img, alloc.dev.data);
    NameRemoved(d, DiskNow(alloc), parent, name);
  }

  // ---------------------------------------------------------------- freeing an inode

  /** Zeroing a record makes it no directory and leaves every other record alone. */
  lemma ClearedRecord(img: Image, f: nat, i: nat)
    requires |img| == TOTAL_BLOCKS && 1 <= f <= INODE_COUNT && 1 <= i <= INODE_COUNT
    ensures var (a, off) := InodeNumToBlock(f);
            var out := img[a := ClearRange(img[a], off, INODE_SIZE)];
            if i == f then !DirRecord(RecordAt(out, i)) else RecordAt(out, i) == RecordAt(img, i)
  {
    hide InodeNumToBlock;
    var (a, off) := InodeNumToBlock(f);
    var blk := ClearRange(img[a], off, INODE_SIZE);
    if i == f {
      assert GetLE16(blk, off) == 0;
    } else {
      hide DecodeInode;
      SlotsDisjoint(f, i);
      var (b, p) := InodeNumToBlock(i);
      if a == b { DecodeLocal(img[a], blk, p); }
    }
  }

  /** One inode gone, all others kept: the name space loses that node only. */
  lemma NodeDropped(d: Disk, e: Disk, x: nat)
    requires Healthy(d) && |e.img| == TOTAL_BLOCKS && Taken(d.inos, x)
    requires forall i :: Taken(e.inos, i) <==> Taken(d.inos, i) && i != x
    requires forall i :: 1 <= i <= INODE_COUNT && i != x ==> RecordAt(e.img, i) == RecordAt(d.img, i)
    requires Keeps(BlocksOf(d), BlocksOf(e), {x}) && Owns(BlocksOf(e)) && !DirRecord(RecordAt(e.img, x))
    ensures Healthy(e) && NodesOf(e) == NodesOf(d) - {x} && KeptExcept(d, e, {x})
  {
    hide NodeOf, RecordAt, Owns, GoodDir, Keeps, BlocksOf, NodesOf, DirRecord, KeptExcept;
    KeptFrom(d, e, {x});
    forall i | Taken(d.inos, i) && i != x
      ensures NodeOf(BlocksOf(e), i, RecordAt(e.img, i)) == NodeOf(BlocksOf(d), i, RecordAt(d.img, i))
      ensures DirRecord(RecordAt(d.img, i)) ==> GoodDir(BlocksOf(e), i, Size(RecordAt(e.img, i)))
    {
      InBlocks(d, i);
      KeptNode(BlocksOf(d), BlocksOf(e), {x}, i, RecordAt(d.img, i));
    }
    var f, g := NodesOf(e), NodesOf(d) - {x};
    forall i: nat ensures i in f <==> i in g {
      NodeAt(d, i);
      NodeAt(e, i);
    }
    NodesNat(d);
    NodesNat(e);
    forall i | i in f ensures f[i] == g[i] {
      NodeAt(d, i);
      NodeAt(e, i);
    }
    assert f == g;
  }

  lemma FilesDropped(a: Image, b: Image, inos: set<nat>, less: set<nat>, x: nat)
    requires |a| == |b| == TOTAL_BLOCKS && forall i :: Taken(less, i) <==> Taken(inos, i) && i != x
    requires forall i :: 1 <= i <= INODE_COUNT && i != x ==> RecordAt(b, i) == RecordAt(a, i)
    ensures FilesOf(b, less) == FilesOf(a, inos) - {x}
  {
    hide RootsOf, FilesOf, RecordAt;
    var f, g := FilesOf(b, less), FilesOf(a, inos) - {x};
    forall i: nat ensures i in f <==> i in g {
      FilesAt(b, less, i);
      FilesAt(a, inos, i);
    }
    forall i | i in f ensures f[i] == g[i] {
      FilesAt(b, less, i);
      FilesAt(a, inos, i);
    }
  }

  /** The tree of one inode freed: every other file is kept. */
  lemma ReleasedKeeps(s: State, t: State, inum: nat)
    requires Owns(s) && t.files == s.files - {inum} && |t.img| == |s.img|
    requires forall a :: DATA_START <= a < TOTAL_BLOCKS && a < |s.img| ==> t.img[a] == s.img[a]
    ensures Keeps(s, t, {inum})
  {
    hide Addr, PosOf, Owns, InTree;
    assert Disjoint(s) by { OwnsDisjoint(s); }
    forall f, l: nat | f in s.files && f != inum && l < MAX_LOGICAL
      ensures f in t.files && Addr(t, PosOf(f, l)) == Addr(s, PosOf(f, l)) && BlockOf(t, f, l) == BlockOf(s, f, l)
    {
      PosOfLogical(s.files, f, l);
      PosOfInum(f, l);
      OtherAddr(s, t, inum, PosOf(f, l));
    }
  }

  lemma InodeDropped(d: Disk, t: State, e: Disk, x: nat)
    requires Healthy(d) && Taken(d.inos, x) && |e.img| == |t.img| == TOTAL_BLOCKS && e.inos == d.inos - {x - 1} && e.used == t.used
    requires t.files == BlocksOf(d).files - {x} && Owns(t) && TOTAL_BLOCKS !in t.used
    requires forall a :: DATA_START <= a < TOTAL_BLOCKS ==> t.img[a] == d.img[a] && e.img[a] == t.img[a]
    requires forall i :: 1 <= i <= INODE_COUNT && i != x ==> RecordAt(e.img, i) == RecordAt(d.img, i)
    requires !DirRecord(RecordAt(e.img, x))
    ensures Healthy(e) && NodesOf(e) == NodesOf(d) - {x} && KeptExcept(d, e, {x})
  {
    hide Owns, RecordAt, Keeps, NodesOf, FilesOf, GoodDir, DirRecord, KeptExcept;
    TakenLess(d.inos, e.inos, x);
    FilesDropped(d.img, e.img, d.inos, e.inos, x);
    ReleasedKeeps(BlocksOf(d), t, x);
    MetaWrite(t, e.img, TOTAL_BLOCKS);
    assert BlocksOf(e) == State(t.files, e.img, t.used);
    KeepsTrans(BlocksOf(d), t, BlocksOf(e), {x}, {});
    assert {x} + {} == {x};
    NodeDropped(d, e, x);
  }

  lemma TakenLess(inos: set<nat>, less: set<nat>, x: nat)
    requires less == inos - {x - 1} && x >= 1
    ensures forall i :: Taken(less, i) <==> Taken(inos, i) && i != x
  {
  }

  /** Frees the blocks and the record of an inode. */
  method DropInode(alloc: Allocator, f: nat)
    requires alloc.Valid() && Healthy(DiskNow(alloc)) && Taken(alloc.inodeBM.Used(), f)
    modifies alloc.dev`data, alloc.dev`dirty, alloc.inodeBM`bits, alloc.blockBM`bits, alloc.sb`freeInodes, alloc.sb`freeBlocks
    ensures alloc.Valid() && Healthy(DiskNow(alloc)) && NodesOf(DiskNow(alloc)) == old(NodesOf(DiskNow(alloc))) - {f}
    ensures alloc.inodeBM.Used() == old(alloc.inodeBM.Used()) - {f - 1}
    ensures KeptExcept(old(DiskNow(alloc)), DiskNow(alloc), {f})
  {
    hide KeptExcept, RecordAt, Healthy, Bitmap.Used, NodesOf, Allocator.Valid, Owns, FilesOf, RootsOf, SlotBlocks, OnlyBitmap, DirRecord;
    ghost var d := DiskNow(alloc);
    UsedBound(alloc);
    AllocFacts(alloc);
    InBlocks(d, f);
    DiskOwns(d);
    var rd := ReadInode(alloc.dev, f);
    var di := Open(rd.value);
    ghost var files := FilesOf(d.img, d.inos);
    SameMap(files, f, di.Ptrs());
    FreeInodeBlocks(alloc, di, files, f);
    ghost var t := State(files - {f}, alloc.dev.data, alloc.blockBM.Used());
    UsedBound(alloc);
    FreedImage(t.img, BlocksOf(d));
    MetaSameRecords(d.img, t.img);
    ClearInode(alloc, f);
    UsedBound(alloc);
    InodeDropped(d, t, DiskNow(alloc), f);
  }

  /** Marks an inode free and zeroes its record. */
  method ClearInode(alloc: Allocator, f: nat)
    requires alloc.Valid() && Taken(alloc.inodeBM.Used(), f)
    modifies alloc.dev`data, alloc.dev`dirty, alloc.inodeBM`bits, alloc.sb`freeInodes
    ensures alloc.Valid() && alloc.inodeBM.Used() == old(alloc.inodeBM.Used()) - {f - 1} && !DirRecord(RecordAt(alloc.dev.data, f))
    ensures forall i :: 1 <= i <= INODE_COUNT && i != f ==> RecordAt(alloc.dev.data, i) == RecordAt(old(alloc.dev.data), i)
    ensures forall a :: DATA_START <= a < TOTAL_BLOCKS ==> alloc.dev.data[a] == old(alloc.dev.data)[a]
  {
    hide RecordAt, Bitmap.Used, BitmapBlock, ClearRange, InodeNumToBlock, DirRecord;
    ghost var img := alloc.dev.data;
    var r := alloc.FreeInode(f);
    FreedRecord(img, alloc.dev.data, f, BitmapBlock(alloc.inodeBM.bits));
  }

  lemma DiskOwns(d: Disk)
    requires Healthy(d)
    ensures Owns(BlocksOf(d)) && |d.img| == TOTAL_BLOCKS
  {
  }

  lemma FreedImage(img: Image, s: State)
    requires OnlyBitmap(img, s)
    ensures |img| == TOTAL_BLOCKS && MetaSame(s.img, img) && forall a :: DATA_START <= a < TOTAL_BLOCKS ==> img[a] == s.img[a]
  {
  }

  lemma FreedRecord(img: Image, out: Image, f: nat, bm: Block)
    requires |img| == TOTAL_BLOCKS && 1 <= f <= INODE_COUNT
    requires var (a, off) := InodeNumToBlock(f);
             out == img[INODE_BITMAP_ADDR := bm][a := ClearRange(img[a], off, INODE_SIZE)]
    ensures |out| == TOTAL_BLOCKS && !DirRecord(RecordAt(out, f))
    ensures forall i :: 1 <= i <= INODE_COUNT && i != f ==> RecordAt(out, i) == RecordAt(img, i)
    ensures forall a :: DATA_START <= a < TOTAL_BLOCKS ==> out[a] == img[a]
  {
    hide RecordAt, ClearRange, DirRecord, InodeNumToBlock;
    var (a, off) := InodeNumToBlock(f);
    var mid := img[INODE_BITMAP_ADDR := bm];
    forall i | 1 <= i <= INODE_COUNT
      ensures if i == f then !DirRecord(RecordAt(out, i)) else RecordAt(out, i) == RecordAt(img, i)
    {
      SameRecord(img, mid, i);
      ClearedRecord(mid, f, i);
    }
  }
}
