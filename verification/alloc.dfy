/** Block and inode allocation over the two bitmaps, with the free counts of the superblock. */
module Allocation {
  import opened Bytes
  import opened Device
  import opened Bitmaps
  import opened Bits

  const TOTAL_BLOCKS: nat := 16384
  const INODE_COUNT: nat := 4096
  const INODE_BITMAP_ADDR: nat := 2
  const BLOCK_BITMAP_ADDR: nat := 3
  const INODE_TABLE_START: nat := 4
  const JOURNAL_START: nat := 132
  const DATA_START: nat := 2180
  const INODE_SIZE: nat := 128

  class Superblock {
    var freeBlocks: nat
    var freeInodes: nat

    constructor (freeBlocks: nat, freeInodes: nat)
      ensures this.freeBlocks == freeBlocks && this.freeInodes == freeInodes
    {
      this.freeBlocks, this.freeInodes := freeBlocks, freeInodes;
    }
  }

  /** The numbers below n. */
  ghost function Below(n: nat): (s: set<nat>)
    ensures |s| == n && forall k: nat :: k in s <==> k < n
  {
    if n == 0 then {} else Below(n - 1) + {n - 1}
  }

  /** A bitmap as it lies in its block: its bytes, then zeros. */
  function BitmapBlock(bits: seq<Byte>): Block
    requires |bits| <= BLOCK_SIZE
  {
    bits + seq(BLOCK_SIZE - |bits|, _ => 0)
  }

  /** Bit i - 1 of the inode bitmap stands for inode i. */
  predicate Taken(inos: set<nat>, i: nat) { 1 <= i <= INODE_COUNT && i - 1 in inos }

  /** Where an inode lies: block address and byte offset. */
  function InodeNumToBlock(num: nat): (r: (nat, nat))
    requires 1 <= num <= INODE_COUNT
    ensures INODE_TABLE_START <= r.0 < JOURNAL_START && r.1 + INODE_SIZE <= BLOCK_SIZE
  {
    var idx := (num - 1) * INODE_SIZE;
    (INODE_TABLE_START + idx / BLOCK_SIZE, idx % BLOCK_SIZE)
  }

  function ClearRange(blk: Block, off: nat, n: nat): (r: Block)
    requires off + n <= BLOCK_SIZE
    ensures forall i :: 0 <= i < BLOCK_SIZE ==> r[i] == if off <= i < off + n then 0 else blk[i]
  {
    blk[..off] + seq(n, _ => 0) + blk[off + n..]
  }

  class Allocator {
    const dev: BlockDevice
    const blockBM: Bitmap
    const inodeBM: Bitmap
    const sb: Superblock

    /** Conservation: every block and every inode is either counted free or marked used; all blocks before the
        data region are marked; the disk holds the same bitmaps. */
    ghost predicate Valid()
      reads this, dev, blockBM, inodeBM, sb
    {
      && blockBM != inodeBM
      && dev.Valid() && |dev.data| == TOTAL_BLOCKS && !dev.faulty
      && blockBM.Valid() && blockBM.size == TOTAL_BLOCKS && |blockBM.bits| <= BLOCK_SIZE
      && inodeBM.Valid() && inodeBM.size == INODE_COUNT && |inodeBM.bits| <= BLOCK_SIZE
      && (forall n: nat :: n < DATA_START ==> n in blockBM.Used())
      && sb.freeBlocks + |blockBM.Used()| == TOTAL_BLOCKS
      && sb.freeInodes + |inodeBM.Used()| == INODE_COUNT
      && dev.data[BLOCK_BITMAP_ADDR] == BitmapBlock(blockBM.bits)
      && dev.data[INODE_BITMAP_ADDR] == BitmapBlock(inodeBM.bits)
    }

    /** A freshly formatted disk: the metadata blocks and inode 1 are taken, nothing else. */
    constructor Format(dev: BlockDevice)
      requires dev.Valid() && !dev.faulty && |dev.data| == TOTAL_BLOCKS
      modifies dev`data, dev`dirty
      ensures Valid() && this.dev == dev && fresh(blockBM) && fresh(inodeBM) && fresh(sb)
      ensures blockBM.Used() == Below(DATA_START) && inodeBM.Used() == {0}
      ensures sb.freeBlocks == TOTAL_BLOCKS - DATA_START && sb.freeInodes == INODE_COUNT - 1
      ensures dev.data == old(dev.data)[INODE_BITMAP_ADDR := BitmapBlock(inodeBM.bits)]
                                       [BLOCK_BITMAP_ADDR := BitmapBlock(blockBM.bits)]
    {
      hide Below, Has, BitmapBlock;
      var ibm := new Bitmap(INODE_COUNT);
      ibm.Set(0);
      var bbm := MetadataBitmap();
      this.dev, this.blockBM, this.inodeBM := dev, bbm, ibm;
      sb := new Superblock(TOTAL_BLOCKS - DATA_START, INODE_COUNT - 1);
      new;
      var w := dev.WriteBlock(INODE_BITMAP_ADDR, BitmapBlock(inodeBM.bits));
      w := dev.WriteBlock(BLOCK_BITMAP_ADDR, BitmapBlock(blockBM.bits));
    }

    static method MetadataBitmap() returns (bbm: Bitmap)
      ensures fresh(bbm) && bbm.Valid() && bbm.size == TOTAL_BLOCKS && |bbm.bits| <= BLOCK_SIZE
      ensures bbm.Used() == Below(DATA_START)
    {
      hide Below, Has;
      bbm := new Bitmap(TOTAL_BLOCKS);
      var i := 0;
      while i < DATA_START
        invariant 0 <= i <= DATA_START && bbm.Valid() && bbm.size == TOTAL_BLOCKS && |bbm.bits| <= BLOCK_SIZE
        invariant fresh(bbm) && bbm.Used() == Below(i)
      {
        bbm.Set(i);
        assert Below(i + 1) == Below(i) + {i};
        i := i + 1;
      }
    }

    /** Allocates the least free data block, zeroed; fails exactly when the data region is full. */
    method AllocBlock() returns (r: Result<nat>)
      requires Valid()
      modifies dev`data, dev`dirty, blockBM`bits, sb`freeBlocks
      ensures Valid()
      ensures r.Err? <==> forall n: nat :: DATA_START <= n < TOTAL_BLOCKS ==> n in old(blockBM.Used())
      ensures r.Err? ==> r == Err(NoSpace) && dev.data == old(dev.data) && blockBM.Used() == old(blockBM.Used())
      ensures r.Ok? ==>
                && DATA_START <= r.value < TOTAL_BLOCKS && r.value !in old(blockBM.Used())
                && (forall n: nat :: DATA_START <= n < r.value ==> n in old(blockBM.Used()))
                && blockBM.Used() == old(blockBM.Used()) + {r.value}
                && dev.data == old(dev.data)[BLOCK_BITMAP_ADDR := BitmapBlock(blockBM.bits)][r.value := Zero()]
    {
      hide Has, BitmapBlock, Zero;
      ghost var used := blockBM.Used();
      var idx, ok := blockBM.FindNext(DATA_START);
      if !ok { return Err(NoSpace); }
      CardBound(used + {idx}, TOTAL_BLOCKS);
      blockBM.Set(idx);
      if sb.freeBlocks > 0 { sb.freeBlocks := sb.freeBlocks - 1; }
      var w := dev.WriteBlock(BLOCK_BITMAP_ADDR, BitmapBlock(blockBM.bits));
      w := dev.WriteBlock(idx, Zero());
      return Ok(idx);
    }

    /** Marks a data block free; a block that is already free stays free. */
    method FreeBlock(addr: nat) returns (r: Result<()>)
      requires Valid()
      modifies dev`data, dev`dirty, blockBM`bits, sb`freeBlocks
      ensures Valid()
      ensures r.Ok? <==> DATA_START <= addr < TOTAL_BLOCKS
      ensures blockBM.Used() == if r.Ok? then old(blockBM.Used()) - {addr} else old(blockBM.Used())
      ensures dev.data == old(dev.data)[BLOCK_BITMAP_ADDR := BitmapBlock(blockBM.bits)]
    {
      hide Has, BitmapBlock;
      if addr < DATA_START || addr >= TOTAL_BLOCKS { return Err(InvalidBlock); }
      var isSet := blockBM.IsSet(addr);
      if !isSet { return Ok(()); }
      blockBM.Clear(addr);
      sb.freeBlocks := sb.freeBlocks + 1;
      var w := dev.WriteBlock(BLOCK_BITMAP_ADDR, BitmapBlock(blockBM.bits));
      return Ok(());
    }

    /** Allocates the least free inode number. */
    method AllocInode() returns (r: Result<nat>)
      requires Valid()
      modifies dev`data, dev`dirty, inodeBM`bits, sb`freeInodes
      ensures Valid()
      ensures r.Err? <==> forall n: nat :: n < INODE_COUNT ==> n in old(inodeBM.Used())
      ensures r.Err? ==> r == Err(NoSpace) && dev.data == old(dev.data) && inodeBM.Used() == old(inodeBM.Used())
      ensures r.Ok? ==>
                && 1 <= r.value <= INODE_COUNT && r.value - 1 !in old(inodeBM.Used())
                && (forall n: nat :: n < r.value - 1 ==> n in old(inodeBM.Used()))
                && inodeBM.Used() == old(inodeBM.Used()) + {r.value - 1}
                && dev.data == old(dev.data)[INODE_BITMAP_ADDR := BitmapBlock(inodeBM.bits)]
    {
      hide Has, BitmapBlock;
      ghost var used := inodeBM.Used();
      var idx, ok := inodeBM.FindNext(0);
      if !ok { return Err(NoSpace); }
      CardBound(used + {idx}, INODE_COUNT);
      inodeBM.Set(idx);
      if sb.freeInodes > 0 { sb.freeInodes := sb.freeInodes - 1; }
      var w := dev.WriteBlock(INODE_BITMAP_ADDR, BitmapBlock(inodeBM.bits));
      return Ok(idx + 1);
    }

    /** Marks an inode free and zeroes its record. */
    method FreeInode(inum: nat) returns (r: Result<()>)
      requires Valid()
      modifies dev`data, dev`dirty, inodeBM`bits, sb`freeInodes
      ensures Valid()
      ensures r.Ok? <==> 1 <= inum <= INODE_COUNT
      ensures r.Err? ==> inodeBM.Used() == old(inodeBM.Used()) && dev.data == old(dev.data)
      ensures r.Ok? ==> inodeBM.Used() == old(inodeBM.Used()) - {inum - 1}
      ensures r.Ok? && inum - 1 in old(inodeBM.Used()) ==>
                var (blk, off) := InodeNumToBlock(inum);
                dev.data == old(dev.data)[INODE_BITMAP_ADDR := BitmapBlock(inodeBM.bits)]
                                         [blk := ClearRange(old(dev.data)[blk], off, INODE_SIZE)]
      ensures r.Ok? && inum - 1 !in old(inodeBM.Used()) ==> dev.data == old(dev.data)
    {
      hide Has, BitmapBlock;
      if inum == 0 || inum > INODE_COUNT { return Err(InvalidArg); }
      var isSet := inodeBM.IsSet(inum - 1);
      if !isSet { return Ok(()); }
      inodeBM.Clear(inum - 1);
      sb.freeInodes := sb.freeInodes + 1;
      var w := dev.WriteBlock(INODE_BITMAP_ADDR, BitmapBlock(inodeBM.bits));
      var (blk, off) := InodeNumToBlock(inum);
      var rd := dev.ReadBlock(blk);
      w := dev.WriteBlock(blk, ClearRange(rd.value, off, INODE_SIZE));
      return Ok(());
    }
  }

  lemma {:induction false} CardBound(s: set<nat>, n: nat)
    requires forall k :: k in s ==> k < n
    ensures |s| <= n
  {
    if n > 0 {
      CardBound(s - {n - 1}, n - 1);
      if n - 1 in s { assert s == (s - {n - 1}) + {n - 1}; } else { assert s == s - {n - 1}; }
    } else {
      assert s == {};
    }
  }
}
