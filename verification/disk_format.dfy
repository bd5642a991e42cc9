/** A formatted disk holds the name space of a lone root directory: the state every run of disk operations starts from. */
module DiskFormat {
  import opened Bytes
  import opened Device
  import opened Bitmaps
  import opened Allocation
  import opened BlockMap
  import opened Extents
  import opened InodeTable
  import opened DiskState
  import opened DiskNames
  import opened DiskInodes
  import opened DiskRemove
  import opened DiskOps
  import Names
  import Namespaces
  import VolumeRuns

  /** Zeroes the inode table. */
  method ZeroTable(dev: BlockDevice)
    requires dev.Valid() && !dev.faulty && |dev.data| == TOTAL_BLOCKS
    modifies dev`data, dev`dirty
    ensures dev.Valid() && |dev.data| == TOTAL_BLOCKS
    ensures forall a :: INODE_TABLE_START <= a < JOURNAL_START ==> dev.data[a] == Zero()
    ensures forall a :: 0 <= a < TOTAL_BLOCKS && !(INODE_TABLE_START <= a < JOURNAL_START) ==> dev.data[a] == old(dev.data)[a]
  {
    hide Zero;
    var i := INODE_TABLE_START;
    while i < JOURNAL_START
      invariant INODE_TABLE_START <= i <= JOURNAL_START && dev.Valid() && |dev.data| == TOTAL_BLOCKS
      invariant forall a :: INODE_TABLE_START <= a < i ==> dev.data[a] == Zero()
      invariant forall a :: 0 <= a < TOTAL_BLOCKS && !(INODE_TABLE_START <= a < i) ==> dev.data[a] == old(dev.data)[a]
    {
      var w := dev.WriteBlock(i, Zero());
      i := i + 1;
    }
  }

  /** A zeroed table holds no directory. */
  lemma ZeroRecord(img: Image, i: nat)
    requires |img| == TOTAL_BLOCKS && 1 <= i <= INODE_COUNT
    requires forall a :: INODE_TABLE_START <= a < JOURNAL_START ==> img[a] == Zero()
    ensures !DirRecord(RecordAt(img, i))
  {
    hide GetWords;
    var (a, off) := InodeNumToBlock(i);
    assert img[a] == Zero();
  }

  /** A disk with nothing taken but its metadata is healthy and empty. */
  lemma EmptyHealthy(d: Disk)
    requires |d.img| == TOTAL_BLOCKS && d.inos == {} && d.used == Below(DATA_START)
    requires forall a :: INODE_TABLE_START <= a < JOURNAL_START ==> d.img[a] == Zero()
    ensures Healthy(d) && NodesOf(d) == map[]
  {
    hide Below, Owns, RecordAt, DirRecord, Zero, GoodDir;
    VolumeRuns.EmptyOwns(BlocksOf(d));
    forall i | 1 <= i <= INODE_COUNT ensures !DirRecord(RecordAt(d.img, i)) { ZeroRecord(d.img, i); }
  }

  /** Formats a device: bitmaps, an empty inode table, and the root directory in the first data block. */
  method Format(dev: BlockDevice) returns (alloc: Allocator)
    requires dev.Valid() && !dev.faulty && |dev.data| == TOTAL_BLOCKS
    modifies dev`data, dev`dirty
    ensures alloc.Valid() && alloc.dev == dev && fresh(alloc) && fresh(alloc.blockBM) && fresh(alloc.inodeBM) && fresh(alloc.sb)
    ensures Sound(DiskNow(alloc)) && NodesOf(DiskNow(alloc)) == Namespaces.Formatted()
    ensures alloc.blockBM.Used() == Below(DATA_START) + {DATA_START} && alloc.inodeBM.Used() == {0}
  {
    hide Below, Bitmap.Used, RecordAt, Healthy, NodesOf, Names.Inv, Zero, BitmapBlock, DirFormed, Names.DirEntries;
    alloc := new Allocator.Format(dev);
    AllocFacts(alloc);
    ZeroTable(dev);
    ghost var d := Disk(dev.data, {}, Below(DATA_START));
    EmptyHealthy(d);
    var blk := alloc.AllocBlock();
    assert blk.Ok? by { assert DATA_START !in Below(DATA_START); }
    TableSame(d.img, dev.data);
    assert {0} == d.inos + {1 - 1};
    FormDir(alloc, 1, blk.value, 1, 0x1ED, d);
    FormedRoot(d, DiskNow(alloc), blk.value);
  }

  lemma FormedRoot(d: Disk, e: Disk, v: nat)
    requires DirFormed(d, e, 1, v, 1, 0x1ED) && NodesOf(d) == map[] && d.inos == {}
    ensures Sound(e) && NodesOf(e) == Namespaces.Formatted() && e.inos == {0} && e.used == d.used + {v}
  {
    hide RecordAt, Healthy, NodesOf, Names.Inv, Keeps, BlocksOf;
    Namespaces.FormattedInv();
  }
}
