/** The whole disk read as a name space: inode records, block trees and directory bytes together. */
module DiskState {
  import opened Bytes
  import opened Device
  import opened Allocation
  import opened BlockMap
  import opened Extents
  import opened InodeTable
  import opened DirFormat
  import opened DirMaps
  import opened DirState
  import opened DirRead
  import opened Directory
  import VolumeRuns
  import Names

  /** The content of a disk with its two bitmaps as sets. */
  datatype Disk = Disk(img: Image, inos: set<nat>, used: set<nat>)

  function RootsOf(p: Ptrs): (r: Roots)
    ensures forall k :: 0 <= k < SLOTS ==> r[k] == p[k]
  {
    seq(SLOTS, k requires 0 <= k < SLOTS => p[k])
  }

  function PtrsFrom(r: Roots): (p: Ptrs)
    requires forall k :: 0 <= k < SLOTS ==> r[k] < 0x1_0000_0000
    ensures forall k :: 0 <= k < SLOTS ==> p[k] == r[k]
  {
    seq(SLOTS, k requires 0 <= k < SLOTS => r[k])
  }

  predicate DirRecord(rec: InodeRecord) { rec.mode / 0x1000 == 4 }

  /** The file type a directory entry records for an inode. */
  function EntryType(rec: InodeRecord): Byte {
    var bits := rec.mode / 0x1000;
    if bits == 8 then 1 else if bits == 4 then FT_DIR else if bits == 10 then 7
    else if bits == 2 then 3 else if bits == 6 then 4 else if bits == 1 then 5 else if bits == 12 then 6 else 0
  }

  ghost function FilesOf(img: Image, inos: set<nat>): map<nat, Roots>
    requires |img| == TOTAL_BLOCKS
  {
    map i: nat | 1 <= i <= INODE_COUNT && i - 1 in inos :: RootsOf(RecordAt(img, i).ptrs)
  }

  ghost function BlocksOf(d: Disk): State
    requires |d.img| == TOTAL_BLOCKS
  {
    State(FilesOf(d.img, d.inos), d.img, d.used)
  }

  /** What the name space holds for an inode: a directory's name map is the one its blocks hold. */
  ghost function NodeOf(s: State, i: nat, rec: InodeRecord): Names.Node {
    if DirRecord(rec) then Names.Dir(rec.links, DirMap(Entries(s, i, Reach(Size(rec))))) else Names.File(rec.links, EntryType(rec))
  }

  /** The name space a disk holds. */
  ghost function NodesOf(d: Disk): Names.Nodes
    requires |d.img| == TOTAL_BLOCKS
  {
    map i: nat | 1 <= i <= INODE_COUNT && i - 1 in d.inos :: NodeOf(BlocksOf(d), i, RecordAt(d.img, i))
  }

  /** A directory fit for use: addressable, nothing mapped beyond its size, tiled blocks, unique names. */
  ghost predicate GoodDir(s: State, i: nat, size: nat) {
    && BlocksForSize(size) <= MAX_LOGICAL && NoTail(s, i, BlocksForSize(size))
    && DirTiled(s, i, Reach(size)) && Unique(Entries(s, i, Reach(size)))
  }

  /** Blocks are owned once or free, every directory is fit for use, and no free inode looks like one. */
  ghost predicate Healthy(d: Disk) {
    && |d.img| == TOTAL_BLOCKS && Owns(BlocksOf(d))
    && forall i :: 1 <= i <= INODE_COUNT && DirRecord(RecordAt(d.img, i)) ==>
         Taken(d.inos, i) && GoodDir(BlocksOf(d), i, Size(RecordAt(d.img, i)))
  }

  // ---------------------------------------------------------------- what a change leaves alone

  /** Every file of s but those listed is mapped in t as it was, to blocks with the same content. */
  ghost predicate Keeps(s: State, t: State, except: set<nat>) {
    forall f :: f in s.files && f !in except ==>
      f in t.files && forall l: nat :: l < MAX_LOGICAL ==> BlockOf(t, f, l) == BlockOf(s, f, l) && Addr(t, PosOf(f, l)) == Addr(s, PosOf(f, l))
  }

  /** The records of one file, apart from the link count. */
  predicate SameFile(a: InodeRecord, b: InodeRecord) { b == a.(links := b.links) }

  /** Inode i has the same type, size and owner on both disks, and the same blocks with the same content. */
  ghost predicate Kept(d: Disk, e: Disk, i: nat) {
    && |d.img| == |e.img| == TOTAL_BLOCKS && Taken(d.inos, i) && Taken(e.inos, i)
    && SameFile(RecordAt(d.img, i), RecordAt(e.img, i))
    && forall l: nat :: l < MAX_LOGICAL ==>
         BlockOf(BlocksOf(e), i, l) == BlockOf(BlocksOf(d), i, l) && Addr(BlocksOf(e), PosOf(i, l)) == Addr(BlocksOf(d), PosOf(i, l))
  }

  /** Every inode of d but those listed is kept. */
  ghost predicate KeptExcept(d: Disk, e: Disk, except: set<nat>) { forall i :: Taken(d.inos, i) && i !in except ==> Kept(d, e, i) }

  /** Every inode of both disks is kept, apart from one directory. */
  ghost predicate OthersKept(d: Disk, e: Disk, dir: nat) {
    forall i :: Taken(d.inos, i) && Taken(e.inos, i) && i != dir ==> Kept(d, e, i)
  }

  lemma KeptTrans(d: Disk, e: Disk, f: Disk, i: nat)
    requires Kept(d, e, i) && Kept(e, f, i)
    ensures Kept(d, f, i)
  {
    hide BlockOf, Addr, PosOf, RecordAt, BlocksOf;
  }

  lemma KeptExceptTrans(d: Disk, e: Disk, f: Disk, a: set<nat>, b: set<nat>)
    requires KeptExcept(d, e, a) && KeptExcept(e, f, b)
    ensures KeptExcept(d, f, a + b)
  {
    hide Kept;
    forall i | Taken(d.inos, i) && i !in a + b ensures Kept(d, f, i) {
      KeptTaken(d, e, i);
      KeptTrans(d, e, f, i);
    }
  }

  lemma KeptTaken(d: Disk, e: Disk, i: nat)
    requires Kept(d, e, i)
    ensures Taken(e.inos, i)
  {
    hide BlockOf, Addr, PosOf, RecordAt, BlocksOf;
  }

  lemma KeepsFile(s: State, t: State, except: set<nat>, f: nat, l: nat)
    requires Keeps(s, t, except) && f in s.files && f !in except && l < MAX_LOGICAL
    ensures f in t.files && BlockOf(t, f, l) == BlockOf(s, f, l) && Addr(t, PosOf(f, l)) == Addr(s, PosOf(f, l))
  {
    hide BlockOf, Addr, PosOf;
  }

  lemma KeepsTrans(s: State, t: State, u: State, a: set<nat>, b: set<nat>)
    requires Keeps(s, t, a) && Keeps(t, u, b)
    ensures Keeps(s, u, a + b)
  {
    hide BlockOf, Addr, PosOf;
  }

  /** A file that is kept is the same node and as good a directory. */
  lemma KeptNode(s: State, t: State, except: set<nat>, f: nat, rec: InodeRecord)
    requires Keeps(s, t, except) && f in s.files && f !in except
    ensures NodeOf(t, f, rec) == NodeOf(s, f, rec)
    ensures GoodDir(s, f, Size(rec)) ==> GoodDir(t, f, Size(rec))
    ensures Entries(t, f, Reach(Size(rec))) == Entries(s, f, Reach(Size(rec)))
  {
    hide Addr, PosOf, DirMap, Entries, Tiled, Unique, BlockOf;
    var n := Reach(Size(rec));
    forall l: nat | l < MAX_LOGICAL ensures BlockOf(t, f, l) == BlockOf(s, f, l) && Addr(t, PosOf(f, l)) == Addr(s, PosOf(f, l)) {
      KeepsFile(s, t, except, f, l);
    }
    SameEntries(s, t, f, n);
  }

  lemma OtherFilesKeep(s: State, t: State, inum: nat)
    requires OtherFiles(s, t, inum)
    ensures Keeps(s, t, {inum})
  {
    hide BlockOf, Addr, PosOf;
  }

  /** Writing metadata blocks, or a free block, changes no file. */
  lemma MetaWrite(s: State, img: Image, v: nat)
    requires Owns(s) && |img| == TOTAL_BLOCKS && v !in s.used
    requires forall a :: DATA_START <= a < TOTAL_BLOCKS && a != v && a < |s.img| ==> img[a] == s.img[a]
    ensures var t := State(s.files, img, s.used);
            Owns(t) && Keeps(s, t, {}) && forall p :: InTree(s.files, p) ==> Addr(t, p) == Addr(s, p)
  {
    hide Addr, PosOf, Owns, InTree;
    assert Disjoint(s) by { OwnsDisjoint(s); }
    var t := State(s.files, img, s.used);
    assert SameIndex(s, t);
    SameIndexOwns(s, t);
    forall p | InTree(s.files, p) ensures Addr(t, p) == Addr(s, p) { SameIndexAddr(s, t, p); }
    forall f, l: nat | f in s.files && l < MAX_LOGICAL
      ensures Addr(t, PosOf(f, l)) == Addr(s, PosOf(f, l)) && BlockOf(t, f, l) == BlockOf(s, f, l)
    {
      PosOfLogical(s.files, f, l);
    }
  }

  /** A new inode without blocks changes no other file. */
  lemma NewInode(s: State, inum: nat)
    requires Owns(s) && inum !in s.files
    ensures var t := State(s.files[inum := seq(SLOTS, _ => 0)], s.img, s.used);
            Owns(t) && Keeps(s, t, {}) && forall l: nat :: l < MAX_LOGICAL ==> Addr(t, PosOf(inum, l)) == 0
  {
    hide Addr, PosOf, Owns, InTree;
    var roots: Roots := seq(SLOTS, _ => 0);
    var t := State(s.files[inum := roots], s.img, s.used);
    VolumeRuns.EmptyFileOwns(s, inum, roots);
    forall f, l: nat | f in t.files && l < MAX_LOGICAL
      ensures if f == inum then Addr(t, PosOf(f, l)) == 0
              else Addr(t, PosOf(f, l)) == Addr(s, PosOf(f, l)) && BlockOf(t, f, l) == BlockOf(s, f, l)
    {
      PosOfLogical(t.files, f, l);
      PosOfInum(f, l);
      VolumeRuns.NewFileAddr(s, t, inum, PosOf(f, l));
    }
  }

  lemma RootsBound(s: State, inum: nat, k: nat)
    requires Owns(s) && inum in s.files && k < SLOTS
    ensures s.files[inum][k] < TOTAL_BLOCKS
  {
    var p := Pos(inum, k, []);
    assert InTree(s.files, p) && Addr(s, p) == s.files[inum][k];
  }
}
