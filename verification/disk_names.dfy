/** Name space operations on the bytes of the disk: each is the operation of the name space it holds. */
module DiskNames {
  import opened Bytes
  import opened Device
  import opened Bitmaps
  import opened Allocation
  import opened BlockMap
  import opened Extents
  import opened InodeTable
  import opened DirFormat
  import opened DirMaps
  import opened DirState
  import opened DirRead
  import opened Directory
  import opened DiskState
  import Names

  ghost function DiskNow(alloc: Allocator): Disk
    reads alloc.dev, alloc.blockBM, alloc.inodeBM
  {
    Disk(alloc.dev.data, alloc.inodeBM.Used(), alloc.blockBM.Used())
  }

  // ---------------------------------------------------------------- records

  /** Records lie in the blocks of the inode table. */
  lemma SameRecord(a: Image, b: Image, i: nat)
    requires |a| == |b| == TOTAL_BLOCKS && 1 <= i <= INODE_COUNT
    requires forall x :: INODE_TABLE_START <= x < JOURNAL_START ==> b[x] == a[x]
    ensures RecordAt(b, i) == RecordAt(a, i)
  {
    hide DecodeInode;
  }

  lemma MetaSameRecords(a: Image, b: Image)
    requires MetaSame(a, b)
    ensures forall i :: 1 <= i <= INODE_COUNT ==> RecordAt(b, i) == RecordAt(a, i)
  {
    hide DecodeInode, InodeNumToBlock;
    forall i | 1 <= i <= INODE_COUNT ensures RecordAt(b, i) == RecordAt(a, i) { SameRecord(a, b, i); }
  }

  lemma FilesAt(img: Image, inos: set<nat>, i: nat)
    requires |img| == TOTAL_BLOCKS
    ensures i in FilesOf(img, inos) <==> Taken(inos, i)
    ensures Taken(inos, i) ==> FilesOf(img, inos)[i] == RootsOf(RecordAt(img, i).ptrs)
  {
    hide RootsOf, DecodeInode;
  }

  /** One record written: the pointers of every other inode are as before. */
  lemma FilesUpdate(a: Image, b: Image, inos: set<nat>, more: set<nat>, x: nat, roots: Roots)
    requires |a| == |b| == TOTAL_BLOCKS && Taken(more, x)
    requires forall i :: Taken(more, i) <==> Taken(inos, i) || i == x
    requires forall i :: Taken(inos, i) && i != x ==> RecordAt(b, i) == RecordAt(a, i)
    requires RootsOf(RecordAt(b, x).ptrs) == roots
    ensures FilesOf(b, more) == FilesOf(a, inos)[x := roots]
  {
    hide RootsOf, FilesOf, RecordAt;
    var f, g := FilesOf(b, more), FilesOf(a, inos)[x := roots];
    forall i ensures i in f <==> i in g {
      if i >= 0 {
        FilesAt(b, more, i);
        FilesAt(a, inos, i);
      } else {
        NegativeNotIn(b, more, i);
        NegativeNotIn(a, inos, i);
      }
    }
    forall i | i in f ensures f[i] == g[i] {
      FilesAt(b, more, i);
      FilesAt(a, inos, i);
    }
  }

  lemma NegativeNotIn(img: Image, inos: set<nat>, i: int)
    requires |img| == TOTAL_BLOCKS && i < 0
    ensures i !in FilesOf(img, inos)
  {
  }

  // ---------------------------------------------------------------- nodes

  lemma NodeAt(d: Disk, i: nat)
    requires |d.img| == TOTAL_BLOCKS
    ensures i in NodesOf(d) <==> Taken(d.inos, i)
    ensures Taken(d.inos, i) ==> NodesOf(d)[i] == NodeOf(BlocksOf(d), i, RecordAt(d.img, i))
  {
    hide NodeOf, RecordAt, BlocksOf;
  }

  /** Records and blocks kept: the files are kept. */
  lemma KeptFrom(d: Disk, e: Disk, except: set<nat>)
    requires |d.img| == |e.img| == TOTAL_BLOCKS && Keeps(BlocksOf(d), BlocksOf(e), except)
    requires forall i :: Taken(d.inos, i) && i !in except ==> Taken(e.inos, i) && SameFile(RecordAt(d.img, i), RecordAt(e.img, i))
    ensures KeptExcept(d, e, except)
  {
    hide BlockOf, Addr, PosOf, RecordAt, BlocksOf, SameFile, Keeps;
    forall i | Taken(d.inos, i) && i !in except ensures Kept(d, e, i) {
      InBlocks(d, i);
      forall l: nat | l < MAX_LOGICAL
        ensures BlockOf(BlocksOf(e), i, l) == BlockOf(BlocksOf(d), i, l) && Addr(BlocksOf(e), PosOf(i, l)) == Addr(BlocksOf(d), PosOf(i, l))
      {
        KeepsFile(BlocksOf(d), BlocksOf(e), except, i, l);
      }
    }
  }

  /** One inode changed, all others kept: the name space changes at that inode only. */
  lemma OneNode(d: Disk, e: Disk, x: nat)
    requires Healthy(d) && |e.img| == TOTAL_BLOCKS && Taken(e.inos, x)
    requires forall i :: Taken(e.inos, i) <==> Taken(d.inos, i) || i == x
    requires forall i :: 1 <= i <= INODE_COUNT && i != x ==> RecordAt(e.img, i) == RecordAt(d.img, i)
    requires Keeps(BlocksOf(d), BlocksOf(e), {x}) && Owns(BlocksOf(e))
    requires DirRecord(RecordAt(e.img, x)) ==> GoodDir(BlocksOf(e), x, Size(RecordAt(e.img, x)))
    ensures Healthy(e) && NodesOf(e) == NodesOf(d)[x := NodeOf(BlocksOf(e), x, RecordAt(e.img, x))] && KeptExcept(d, e, {x})
  {
    hide NodeOf, RecordAt, Owns, GoodDir, Keeps, BlocksOf, NodesOf, DirRecord, KeptExcept;
    KeptFrom(d, e, {x});
    forall i | Taken(d.inos, i) && i != x
      ensures NodeOf(BlocksOf(e), i, RecordAt(e.img, i)) == NodeOf(BlocksOf(d), i, RecordAt(d.img, i))
      ensures DirRecord(RecordAt(d.img, i)) ==> GoodDir(BlocksOf(e), i, Size(RecordAt(e.img, i)))
    {
      InBlocks(d, i);
      KeptNode(BlocksOf(d), BlocksOf(e), {x}, i, RecordAt(d.img, i));
    }
    var f, g := NodesOf(e), NodesOf(d)[x := NodeOf(BlocksOf(e), x, RecordAt(e.img, x))];
    forall i: nat ensures i in f <==> i in g {
      NodeAt(d, i);
      NodeAt(e, i);
    }
    NodesNat(d);
    NodesNat(e);
    forall i | i in f ensures f[i] == g[i] {
      NodeAt(d, i);
      NodeAt(e, i);
    }
    assert f == g;
  }

  lemma NodesNat(d: Disk)
    requires |d.img| == TOTAL_BLOCKS
    ensures forall i :: i in NodesOf(d) ==> 1 <= i <= INODE_COUNT
  {
    hide NodeOf, RecordAt, BlocksOf;
  }

  lemma InBlocks(d: Disk, i: nat)
    requires |d.img| == TOTAL_BLOCKS && Taken(d.inos, i)
    ensures i in BlocksOf(d).files && BlocksOf(d).files[i] == RootsOf(RecordAt(d.img, i).ptrs)
  {
    hide RootsOf, RecordAt;
    FilesAt(d.img, d.inos, i);
  }

  // ---------------------------------------------------------------- inode objects and records

  /** The inode object of a record. */
  method Open(rec: InodeRecord) returns (di: DiskInode)
    ensures fresh(di) && di.Valid() && di.Ptrs() == RootsOf(rec.ptrs) && di.size == Size(rec) && di.isDir == DirRecord(rec)
    ensures di.blocks512 == rec.blocks512 && di.indirect1 == RootsOf(rec.ptrs)[12]
  {
    var roots := RootsOf(rec.ptrs);
    di := new DiskInode(DirRecord(rec));
    di.direct := roots[..DIRECT];
    di.indirect1, di.indirect2, di.indirect3 := roots[12], roots[13], roots[14];
    di.size, di.blocks512 := Size(rec), rec.blocks512;
    assert di.Ptrs() == roots;
  }

  /** A record with the pointers and the size of an inode object, and a link count. */
  function Closed(rec: InodeRecord, roots: Roots, size: nat, blocks512: U32, links: U16): (r: InodeRecord)
    requires size < 0x1_0000_0000_0000_0000 && forall k :: 0 <= k < SLOTS ==> roots[k] < 0x1_0000_0000
    ensures RootsOf(r.ptrs) == roots && Size(r) == size && r.links == links && r.mode == rec.mode
  {
    var out := SetSize(rec.(ptrs := PtrsFrom(roots), blocks512 := blocks512, links := links), size);
    SizeRoundTrip(rec.(ptrs := PtrsFrom(roots), blocks512 := blocks512, links := links), size);
    assert RootsOf(out.ptrs) == roots;
    out
  }

  /** Writes one record of the inode table. */
  method StoreRecord(alloc: Allocator, i: nat, rec: InodeRecord)
    requires alloc.Valid() && 1 <= i <= INODE_COUNT
    modifies alloc.dev`data, alloc.dev`dirty
    ensures alloc.Valid()
    ensures forall j :: 1 <= j <= INODE_COUNT ==> RecordAt(alloc.dev.data, j) == if j == i then rec else RecordAt(old(alloc.dev.data), j)
    ensures forall a :: JOURNAL_START <= a < TOTAL_BLOCKS ==> alloc.dev.data[a] == old(alloc.dev.data)[a]
  {
    hide RecordAt, Bitmap.Used, BitmapBlock;
    var w := WriteInode(alloc.dev, i, rec);
  }

  lemma UsedBound(alloc: Allocator)
    requires alloc.Valid()
    ensures TOTAL_BLOCKS !in alloc.blockBM.Used() && |alloc.dev.data| == TOTAL_BLOCKS
  {
  }

  // ---------------------------------------------------------------- adding a name

  /** There is room for a name in directory i. */
  ghost predicate NameFits(d: Disk, i: nat, name: Name)
    requires |d.img| == TOTAL_BLOCKS && Taken(d.inos, i)
  {
    var rec := RecordAt(d.img, i);
    && |name| <= MAX_NAME
    && (|| HasRoom(BlocksOf(d), i, Reach(Size(rec)), DirEntrySize(|name|))
        || NewBlockFits(d.used, BlocksForSize(Size(rec)), RootsOf(rec.ptrs)[12]))
  }

  lemma FittingIsShort(d: Disk, i: nat, name: Name)
    requires |d.img| == TOTAL_BLOCKS && Taken(d.inos, i) && NameFits(d, i, name)
    ensures |name| <= MAX_NAME
  {
  }

  /** The name map of directory i. */
  ghost function MapOf(d: Disk, i: nat): map<Name, Target>
    requires |d.img| == TOTAL_BLOCKS && Taken(d.inos, i)
  {
    DirMap(Entries(BlocksOf(d), i, Reach(Size(RecordAt(d.img, i)))))
  }

  /** What adding an entry and writing the parent's record back makes of the disk. */
  lemma NameAdded(d: Disk, s: State, e: Disk, parent: nat, entry: Entry, links: U16)
    requires Healthy(d) && Taken(d.inos, parent) && DirRecord(RecordAt(d.img, parent)) && |e.img| == TOTAL_BLOCKS
    requires entry.ino != 0 && entry.name !in MapOf(d, parent) && e.inos == d.inos && e.used == s.used
    requires forall i :: 1 <= i <= INODE_COUNT && i != parent ==> RecordAt(e.img, i) == RecordAt(d.img, i)
    requires var rec, out := RecordAt(d.img, parent), RecordAt(e.img, parent);
             && out.mode == rec.mode && out.links == links && BlocksForSize(Size(out)) <= MAX_LOGICAL
             && s.files == BlocksOf(d).files[parent := RootsOf(out.ptrs)]
             && EntryAdded(BlocksOf(d), s, parent, Reach(Size(rec)), Reach(Size(out)), entry)
    requires TOTAL_BLOCKS !in s.used && forall a :: DATA_START <= a < TOTAL_BLOCKS && a < |s.img| ==> e.img[a] == s.img[a]
    ensures Healthy(e) && KeptExcept(d, e, {parent})
    ensures NodesOf(e) == NodesOf(d)[parent := Names.Dir(links, MapOf(d, parent)[entry.name := TargetOf(entry)])]
  {
    hide KeptExcept, Owns, RecordAt, DirMap, Unique, Entries, Inserted, DirTiled, NoTail, Keeps, NodesOf, RootsOf, Size, BlocksForSize, FilesOf, DirRecord;
    var rec, out, t := RecordAt(d.img, parent), RecordAt(e.img, parent), BlocksOf(d);
    FilesUpdate(d.img, e.img, d.inos, e.inos, parent, RootsOf(out.ptrs));
    MetaWrite(s, e.img, TOTAL_BLOCKS);
    assert BlocksOf(e) == State(s.files, e.img, s.used);
    OtherFilesKeep(t, s, parent);
    KeepsTrans(t, s, BlocksOf(e), {parent}, {});
    assert {parent} + {} == {parent};
    assert GoodDir(t, parent, Size(rec)) by { HealthyDir(d, parent); }
    AddIsMapInsert(t, s, parent, Size(rec), Size(out), entry);
    ReachIs(Size(rec));
    ReachIs(Size(out));
    InFiles(d, parent);
    KeptNode(s, BlocksOf(e), {}, parent, out);
    SameKind(rec, out);
    OneNode(d, e, parent);
  }

  lemma HealthyDir(d: Disk, i: nat)
    requires Healthy(d) && Taken(d.inos, i) && DirRecord(RecordAt(d.img, i))
    ensures GoodDir(BlocksOf(d), i, Size(RecordAt(d.img, i))) && Owns(BlocksOf(d)) && i in BlocksOf(d).files
  {
    hide Owns, RecordAt, GoodDir, DirRecord;
    FilesAt(d.img, d.inos, i);
  }

  lemma InFiles(d: Disk, i: nat)
    requires |d.img| == TOTAL_BLOCKS && Taken(d.inos, i)
    ensures i in BlocksOf(d).files
  {
    FilesAt(d.img, d.inos, i);
  }

  lemma ReachIs(size: nat)
    ensures BlocksForSize(size) <= MAX_LOGICAL ==> Reach(size) == BlocksForSize(size)
  {
  }

  lemma SameKind(a: InodeRecord, b: InodeRecord)
    requires a.mode == b.mode
    ensures DirRecord(a) <==> DirRecord(b)
    ensures EntryType(a) == EntryType(b)
  {
  }

  /** Adds an entry to a directory on disk and writes its inode back with the given link count. */
  method AddName(alloc: Allocator, parent: nat, name: Name, ino: U32, fileType: Byte, links: U16) returns (r: Result<()>)
    requires alloc.Valid() && Healthy(DiskNow(alloc)) && Taken(alloc.inodeBM.Used(), parent)
    requires DirRecord(RecordAt(alloc.dev.data, parent)) && ino != 0 && name !in MapOf(DiskNow(alloc), parent)
    modifies alloc.dev`data, alloc.dev`dirty, alloc.blockBM`bits, alloc.sb`freeBlocks
    ensures alloc.Valid()
    ensures r.Ok? <==> NameFits(old(DiskNow(alloc)), parent, name)
    ensures r.Ok? ==> Healthy(DiskNow(alloc)) && KeptExcept(old(DiskNow(alloc)), DiskNow(alloc), {parent})
    ensures r.Ok? ==> RecordAt(alloc.dev.data, parent).mode == RecordAt(old(alloc.dev.data), parent).mode
    ensures r.Ok? ==>
              NodesOf(DiskNow(alloc))
              == old(NodesOf(DiskNow(alloc)))[parent := Names.Dir(links, old(MapOf(DiskNow(alloc), parent))[name := Target(ino, fileType)])]
  {
    hide KeptExcept, Owns, RecordAt, Healthy, EntryAdded, Bitmap.Used, HasRoom, OneLeft, NodesOf, DirMap, Entries, NoTail, FilesOf, Closed, Disjoint,
      SameBlocks, DirEntrySize, RegionFull, RootsOf, Size, DirRecord, BlocksForSize;
    ghost var d := DiskNow(alloc);
    HealthyDir(d, parent);
    UsedBound(alloc);
    InBlocks(d, parent);
    var rd := ReadInode(alloc.dev, parent);
    var rec := rd.value;
    var di := Open(rec);
    ghost var files := FilesOf(d.img, d.inos);
    SameMap(files, parent, di.Ptrs());
    r := AddEntry(alloc, di, name, ino, fileType, files, parent);
    if r.Err? { return; }
    ghost var s := Now(alloc, di, files, parent);
    AddedOwns(BlocksOf(d), s, parent, Reach(Size(rec)), Reach(di.size), Entry(ino, fileType, name));
    forall k | 0 <= k < SLOTS ensures di.Ptrs()[k] < 0x1_0000_0000 { RootsBound(s, parent, k); }
    SizeBound(rec);
    UsedBound(alloc);
    MetaSameRecords(d.img, s.img);
    StoreRecord(alloc, parent, Closed(rec, di.Ptrs(), di.size, di.blocks512, links));
    SmallSizes(old(BlocksForSize(Size(RecordAt(alloc.dev.data, parent)))));
    NameAdded(d, s, DiskNow(alloc), parent, Entry(ino, fileType, name), links);
  }

  lemma SameMap(files: map<nat, Roots>, i: nat, roots: Roots)
    requires i in files && files[i] == roots
    ensures files[i := roots] == files
  {
  }

  lemma SizeBound(rec: InodeRecord)
    ensures Size(rec) < 0x1_0000_0000_0000_0000
  {
  }

  lemma SmallSizes(n: nat)
    ensures n < DIRECT + PTRS ==> BlocksForSize((n + 1) * BLOCK_SIZE) == n + 1 <= MAX_LOGICAL
  {
  }
}
