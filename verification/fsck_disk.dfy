/** The checker on the bytes of the disk: a sound disk is clean. */
module FsckDisk {
  import opened Bytes
  import opened Device
  import opened Bitmaps
  import opened Allocation
  import opened BlockMap
  import opened Extents
  import opened InodeTable
  import opened DirFormat
  import opened DirMaps
  import opened DirState
  import opened DirRead
  import opened FsckWalk
  import opened Fsck
  import opened FsckNames
  import opened FsckBlocks
  import opened DiskState
  import opened DiskNames
  import opened DiskRemove
  import opened DiskOps
  import opened DiskCrash
  import opened JournalFormat
  import opened JournalRecovery
  import opened JournalReplay
  import opened JournalLog
  import JournalCrash
  import Names
  import Namespaces

  // ---------------------------------------------------------------- what the checker reads

  /** The list of a file's blocks; empty where the size is out of the tree's reach and listing fails. */
  ghost function BlocksListed(d: Disk, i: nat): seq<nat>
    requires |d.img| == TOTAL_BLOCKS && 1 <= i <= INODE_COUNT
  {
    var n := BlocksForSize(Size(RecordAt(d.img, i)));
    if Taken(d.inos, i) && n <= MAX_LOGICAL then Addresses(BlocksOf(d), i, n) else []
  }

  /** What the checker reads of inode i: its mode, the entries of a directory and the blocks. */
  ghost function InodeOf(d: Disk, i: nat): FsckWalk.Inode
    requires |d.img| == TOTAL_BLOCKS && 1 <= i <= INODE_COUNT
  {
    var rec := RecordAt(d.img, i);
    FsckWalk.Inode(rec.mode, if DirRecord(rec) then Entries(BlocksOf(d), i, Reach(Size(rec))) else [], true, BlocksListed(d, i))
  }

  /** The inode table the checker goes through. */
  ghost function TableOf(d: Disk): Inodes
    requires |d.img| == TOTAL_BLOCKS
  {
    map i: nat | 1 <= i <= INODE_COUNT :: InodeOf(d, i)
  }

  /** Reads one allocated inode the way the checker does. */
  method ReadForCheck(alloc: Allocator, i: nat) returns (n: FsckWalk.Inode)
    requires alloc.Valid() && Healthy(DiskNow(alloc)) && Taken(alloc.inodeBM.Used(), i)
    ensures n == InodeOf(DiskNow(alloc), i)
  {
    hide RecordAt, Healthy, Bitmap.Used, Allocator.Valid, Owns, FilesOf, RootsOf, Size, Entries, BlocksForSize, Addresses;
    ghost var d := DiskNow(alloc);
    AllocFacts(alloc);
    DiskOwns(d);
    InBlocks(d, i);
    var rd := ReadInode(alloc.dev, i);
    var di := Open(rd.value);
    ghost var files := FilesOf(d.img, d.inos);
    SameMap(files, i, di.Ptrs());
    var entries: seq<Entry> := [];
    if DirRecord(rd.value) {
      HealthyDir(d, i);
      ReachIs(Size(rd.value));
      var es, read := ReadAllEntries(alloc, di, files, i);
      entries := es;
    }
    var list := BlockList(alloc, di, files, i);
    n := FsckWalk.Inode(rd.value.mode, entries, true, if list.Ok? then list.value else []);
  }

  // ---------------------------------------------------------------- a sound disk passes

  lemma TableAt(d: Disk, i: nat)
    requires |d.img| == TOTAL_BLOCKS
    ensures i in TableOf(d) <==> 1 <= i <= INODE_COUNT
    ensures i in TableOf(d) ==> TableOf(d)[i] == InodeOf(d, i)
  {
    hide InodeOf;
  }

  /** The checker's type bits are those of the record. */
  lemma TypeBitsAgree(d: Disk, i: nat)
    requires |d.img| == TOTAL_BLOCKS && 1 <= i <= INODE_COUNT
    ensures var rec, b := RecordAt(d.img, i), TypeBits(InodeOf(d, i).mode);
            && (DirRecord(rec) <==> b == 4) && (EntryType(rec) == Namespaces.FT_REG_FILE <==> b == 8)
            && (EntryType(rec) == FT_SYMLINK <==> b == 10)
  {
    hide RecordAt, BlocksListed, Entries;
  }

  lemma {:induction false} SpanLive(blk: Block, from: nat, to: nat)
    requires from <= BLOCK_SIZE
    ensures (forall k :: 0 <= k < |Span(blk, from, to)| ==> Span(blk, from, to)[k].ino != 0)
    decreases BLOCK_SIZE - from
  {
    hide ParseDirEntry;
    var p := ParseDirEntry(blk, from);
    if from < to && p.Ok? { SpanLive(blk, from + p.value.recLen, to); }
  }

  lemma {:induction false} EntriesLive(s: State, i: nat, n: nat)
    ensures forall k :: 0 <= k < |Entries(s, i, n)| ==> Entries(s, i, n)[k].ino != 0
  {
    hide BlockOf, Span;
    if n > 0 {
      EntriesLive(s, i, n - 1);
      SpanLive(BlockOf(s, i, n - 1), 0, BLOCK_SIZE);
    }
  }

  lemma SoundHolds(d: Disk)
    requires Sound(d)
    ensures |d.img| == TOTAL_BLOCKS && Holds(TableOf(d), d.inos, NodesOf(d))
  {
    hide RecordAt, NodesOf, TableOf, Names.Inv, Owns, DirTiled, NoTail, Unique, DirMap, Entries, BlocksListed, TypeBits, DirRecord, EntryType, Size;
    forall i: nat ensures i in NodesOf(d) <==> Taken(d.inos, i) { NodeAt(d, i); }
    NodesNat(d);
    forall i: nat | i in NodesOf(d) ensures HoldsNode(TableOf(d), i, NodesOf(d)[i]) {
      NodeAt(d, i);
      TableAt(d, i);
      TypeBitsAgree(d, i);
    }
    forall i: nat, k | i in NodesOf(d) && DirInode(TableOf(d), i) && 0 <= k < |TableOf(d)[i].entries|
      ensures TableOf(d)[i].entries[k].ino != 0
    {
      TableAt(d, i);
      EntriesLive(BlocksOf(d), i, Reach(Size(RecordAt(d.img, i))));
    }
  }

  lemma SoundLists(d: Disk)
    requires |d.img| == TOTAL_BLOCKS
    ensures ListsBlocks(TableOf(d), d.inos, BlocksOf(d))
  {
    hide RecordAt, TableOf, Addresses, Entries, BlocksOf, BlocksForSize, Size;
    forall i: nat | Taken(d.inos, i) && i in TableOf(d)
      ensures i in BlocksOf(d).files && exists n: nat :: n <= MAX_LOGICAL && TableOf(d)[i].blocks == Addresses(BlocksOf(d), i, n)
    {
      TableAt(d, i);
      InBlocks(d, i);
      NoAddresses(BlocksOf(d), i);
    }
  }

  lemma NoAddresses(s: State, i: nat)
    ensures Addresses(s, i, 0) == []
  {
  }

  /** The checks of names and blocks on a sound disk: all clean, exactly if every file is regular or a symbolic link. */
  lemma SoundPassesIff(d: Disk)
    requires Sound(d)
    ensures |d.img| == TOTAL_BLOCKS
    ensures var v := TableOf(d);
            && RootOk(v) && EntriesOk(v, d.inos) && TreeLike(v) && NoOrphans(v, d.inos) && BlocksOk(v, d.inos, d.used)
            && (TypesOk(v, d.inos) <==> KnownTypes(NodesOf(d)))
  {
    hide Healthy, NodesOf, TableOf, Names.Inv, Holds, ListsBlocks, RootOk, EntriesOk, TreeLike, NoOrphans, BlocksOk, TypesOk, KnownTypes, Owns,
      FilesOf;
    SoundFacts(d);
    DiskOwns(d);
    SoundHolds(d);
    SoundLists(d);
    NamesPassIff(TableOf(d), d.inos, NodesOf(d));
    OwnsPassesBlockCheck(TableOf(d), d.inos, BlocksOf(d));
  }

  /** The whole check on an engine whose disk is sound and whose superblock says what the allocator keeps: it is clean
      exactly if the superblock's constants are right and every file is of a known kind. */
  lemma SoundIsClean(alloc: Allocator, sb: Super)
    requires alloc.Valid() && Sound(DiskNow(alloc)) && alloc.blockBM.Padded() && alloc.inodeBM.Padded()
    requires sb.freeBlocks == alloc.sb.freeBlocks && sb.freeInodes == alloc.sb.freeInodes
    ensures |alloc.dev.data| == TOTAL_BLOCKS
    ensures Consistent(sb, TableOf(DiskNow(alloc)), alloc.blockBM.bits, alloc.inodeBM.bits, alloc.blockBM.Used(), alloc.inodeBM.Used())
       <==> SuperOk(sb) && KnownTypes(NodesOf(DiskNow(alloc)))
  {
    hide Sound, NodesOf, TableOf, RootOk, EntriesOk, TreeLike, NoOrphans, BlocksOk, TypesOk, KnownTypes, CountOk, Has, SuperOk, BitmapBlock;
    SoundPassesIff(DiskNow(alloc));
    CountIsConservation(sb.freeBlocks, TOTAL_BLOCKS, alloc.blockBM.bits);
    CountIsConservation(sb.freeInodes, INODE_COUNT, alloc.inodeBM.bits);
  }

  lemma {:induction false} LeadsKnownTypes(s: Names.Nodes, calls: seq<Call>, t: Names.Nodes)
    requires Leads(s, calls, t) && KnownTypes(s)
    ensures KnownTypes(t)
    decreases |calls|
  {
    hide Namespaces.Step, NodesOf, DiskOf, KnownTypes;
    if calls != [] {
      var next := NodesOf(DiskOf(calls[0].after));
      StepKnownTypes(s, calls[0].op, next, calls[0].r);
      LeadsKnownTypes(next, calls[1..], t);
    }
  }

  /** After any run of operations with aborts, crashes and interrupted recoveries, the checks of names and blocks find
      nothing on the recovered disk. */
  lemma CrashesPassCheck(c: Config, scan: Scanner, img0: Image, es: seq<JournalCrash.Event>, calls: seq<Call>)
    requires Placed(c) && |img0| == TOTAL_BLOCKS && IsScanner(scan, c.crc, c.start, c.length)
    requires forall a :: c.start <= a < c.start + c.length ==> img0[a] == Zero()
    requires JournalCrash.CoveredRun(c, |img0|, 0, es)
    requires forall i :: 0 <= i < |es| ==> Loggable(es[i].tx)
    requires Sound(DiskOf(img0)) && Calls(c, img0, 0, es, calls) && KnownTypes(NodesOf(DiskOf(img0)))
    ensures var r := JournalCrash.RunFrom(c, scan, JournalCrash.State(JournalCrash.Disk(img0, img0), 0), es).disk;
            |r.dur| == TOTAL_BLOCKS && ChecksPass(DiskOf(r.dur))
  {
    hide Sound, NodesOf, DiskOf, Leads, JournalCrash.RunFrom, RecoverFrom, JournalCrash.CoveredRun, IsScanner, Zero, DurableCalls, TableOf,
      KnownTypes, RootOk, EntriesOk, TreeLike, NoOrphans, BlocksOk, TypesOk;
    CrashesKeepNames(c, scan, img0, es, calls);
    var r := JournalCrash.RunFrom(c, scan, JournalCrash.State(JournalCrash.Disk(img0, img0), 0), es).disk;
    LeadsKnownTypes(NodesOf(DiskOf(img0)), DurableCalls(c, 0, es, calls), NodesOf(DiskOf(r.dur)));
    SoundPassesIff(DiskOf(r.dur));
  }

  /** The checks of the root, the types, the entries, the tree, the orphans and the blocks are clean. */
  ghost predicate ChecksPass(d: Disk)
    requires |d.img| == TOTAL_BLOCKS
  {
    var v := TableOf(d);
    && RootOk(v) && TypesOk(v, d.inos) && EntriesOk(v, d.inos) && TreeLike(v) && NoOrphans(v, d.inos) && BlocksOk(v, d.inos, d.used)
  }
}
