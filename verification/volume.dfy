/** All open inodes over one allocator; every operation is a step of a run that keeps ownership. */
module Volumes {
  import opened Bytes
  import opened Device
  import opened Bitmaps
  import opened Allocation
  import opened BlockMap
  import opened Extents
  import opened Truncation
  import opened Release
  import opened Growth
  import FileTruncation
  import opened VolumeRuns

  class Volume {
    const alloc: Allocator
    var inodes: map<nat, DiskInode>

    /** Every inode has an object of its own. */
    ghost predicate Separate()
      reads this, inodes.Values
    {
      && (forall i :: i in inodes ==> inodes[i].Valid())
      && (forall i, j :: i in inodes && j in inodes && i != j ==> inodes[i] != inodes[j])
    }

    ghost function Files(): map<nat, Roots>
      reads this, inodes.Values
      requires Separate()
    {
      map i | i in inodes :: inodes[i].Ptrs()
    }

    ghost function Infos(): map<nat, Info>
      reads this, inodes.Values
    {
      map i | i in inodes :: Info(inodes[i].size, inodes[i].isDir)
    }

    ghost function Abs(): Vol
      reads this, inodes.Values, alloc.dev, alloc.blockBM
      requires Separate()
    {
      Vol(State(Files(), alloc.dev.data, alloc.blockBM.Used()), Infos())
    }

    /** The allocator's counts are conserved and every block is owned once or free. */
    ghost predicate Valid()
      reads this, inodes.Values, alloc, alloc.dev, alloc.blockBM, alloc.inodeBM, alloc.sb
    {
      alloc.Valid() && Separate() && Owns(Abs().blocks)
    }

    /** A freshly formatted volume without inodes. */
    constructor (alloc: Allocator)
      requires alloc.Valid() && alloc.blockBM.Used() == Below(DATA_START)
      ensures Valid() && this.alloc == alloc && inodes == map[] && Formatted(Abs())
    {
      hide Below, Bitmap.Used;
      this.alloc := alloc;
      inodes := map[];
      new;
      FormattedOwns(Abs());
    }

    /** A new, empty file or directory. */
    method MakeInode(inum: nat, isDir: bool)
      requires Valid() && inum !in inodes
      modifies this
      ensures Valid() && Step(old(Abs()), Make(inum, isDir), Abs())
      ensures inum in inodes && fresh(inodes[inum]) && inodes == old(inodes)[inum := inodes[inum]]
    {
      hide Owns, Allocator.Valid, Bitmap.Used, DiskInode.Ptrs, Step;
      ghost var v := Abs();
      var di := new DiskInode(isDir);
      inodes := inodes[inum := di];
      assert Files() == v.blocks.files[inum := di.Ptrs()];
      assert Infos() == v.infos[inum := Info(0, isDir)];
      MakeIsStep(v, inum, isDir, Abs());
      StepKeepsOwns(v, Make(inum, isDir), Abs());
    }

    /** Allocates the block behind one logical block, unless it is there already. */
    method GrowFile(inum: nat, lb: nat) returns (r: Result<nat>)
      requires Valid() && inum in inodes
      modifies alloc.dev`data, alloc.dev`dirty, alloc.blockBM`bits, alloc.sb`freeBlocks, inodes[inum]
      ensures Valid() && Step(old(Abs()), Grow(inum, lb), Abs())
      ensures r.Ok? ==> lb < MAX_LOGICAL && r.value != 0 && Addr(Abs().blocks, PosOf(inum, lb)) == r.value
      ensures r.Err? ==> r == Err(if lb < MAX_LOGICAL then NoSpace else TooBig)
      ensures r == Err(NoSpace) ==> RegionFull(alloc.blockBM.Used()) && Addr(Abs().blocks, PosOf(inum, lb)) == 0
    {
      hide Owns, Grown, Allocator.Valid, Bitmap.Used, Addr, PosOf, GetBlockForOffset, RegionFull, Extended, DiskInode.Ptrs;
      ghost var v := Abs();
      var di := inodes[inum];
      SameFiles(v.blocks.files, inum, di.Ptrs());
      r := AllocBlockForOffset(alloc, di, lb, v.blocks.files, inum);
      assert Files() == v.blocks.files[inum := di.Ptrs()];
      assert Infos() == v.infos;
      ghost var w := Abs();
      if lb < MAX_LOGICAL {
        GrownIsExtended(v.blocks, w.blocks, PosOf(inum, lb));
        GrownTree(v.blocks, w.blocks, PosOf(inum, lb));
        GetIs(w.blocks, inum, lb);
      } else {
        SameFiles(v.blocks.files, inum, di.Ptrs());
      }
    }

    /** Overwrites the block behind one logical block, if there is one. */
    method FillBlock(inum: nat, lb: nat, blk: Block) returns (done: bool)
      requires Valid() && inum in inodes && lb < MAX_LOGICAL
      modifies alloc.dev`data, alloc.dev`dirty
      ensures Valid() && Step(old(Abs()), Fill(inum, lb), Abs())
      ensures done <==> Addr(old(Abs()).blocks, PosOf(inum, lb)) != 0
      ensures done ==> var a := Addr(old(Abs()).blocks, PosOf(inum, lb));
                       a < |alloc.dev.data| && alloc.dev.data[a] == blk
    {
      hide Owns, Bitmap.Used, Addr, PosOf, GetBlockForOffset, SameIndex, BitmapBlock, DiskInode.Ptrs;
      ghost var v := Abs();
      SameFiles(v.blocks.files, inum, inodes[inum].Ptrs());
      GetIs(v.blocks, inum, lb);
      var phys := GetBlockForOffset(alloc.dev.data, inodes[inum].Ptrs(), lb);
      if phys.value == 0 {
        SameIndexRefl(v.blocks);
        return false;
      }
      LeafOverwrite(v.blocks, inum, lb, blk);
      var w := alloc.dev.WriteBlock(phys.value, blk);
      SameIndexOwns(v.blocks, Abs().blocks);
      return true;
    }

    /** Sets the size of a file, giving back the blocks beyond a smaller one. */
    method ResizeFile(inum: nat, size: nat) returns (r: Result<()>)
      requires Valid() && inum in inodes
      modifies alloc.dev`data, alloc.dev`dirty, alloc.blockBM`bits, alloc.sb`freeBlocks, inodes[inum]
      ensures Valid() && Step(old(Abs()), Resize(inum, size), Abs())
      ensures r.Ok? <==> !inodes[inum].isDir && CanResize(old(inodes[inum].size), size)
    {
      hide Owns, Truncated, Allocator.Valid, Bitmap.Used, BlocksForSize, Addr, SingleCut, Shortened, Step, DiskInode.Ptrs;
      ghost var v, cur := Abs(), inodes[inum].size;
      var di := inodes[inum];
      SameFiles(v.blocks.files, inum, di.Ptrs());
      PtrsHold(di);
      ghost var pruned;
      r, pruned := FileTruncation.Truncate(alloc, di, size, v.blocks.files, inum);
      assert Files() == v.blocks.files[inum := di.Ptrs()];
      assert Infos() == v.infos[inum := Info(di.size, di.isDir)];
      ghost var w := Abs();
      ResizeIsStep(v, w, inum, size, r.Ok?, pruned);
    }

    /** Frees all blocks of one file and drops it. */
    method ReleaseFile(inum: nat)
      requires Valid() && inum in inodes
      modifies alloc.dev`data, alloc.dev`dirty, alloc.blockBM`bits, alloc.sb`freeBlocks, this`inodes
      ensures Valid() && inodes == old(inodes) - {inum} && Step(old(Abs()), Free(inum), Abs())
    {
      hide Owns, Allocator.Valid, Bitmap.Used, SlotBlocks, OnlyBitmap, DiskInode.Ptrs, Step;
      ghost var v := Abs();
      var di := inodes[inum];
      SameFiles(v.blocks.files, inum, di.Ptrs());
      FreeInodeBlocks(alloc, di, v.blocks.files, inum);
      inodes := inodes - {inum};
      assert Files() == v.blocks.files - {inum};
      assert Infos() == v.infos - {inum};
      OnlyBitmapRegion(alloc.dev.data, v.blocks);
      FreeIsStep(v, inum, Abs());
    }
  }

  lemma SameFiles(files: map<nat, Roots>, inum: nat, roots: Roots)
    requires inum in files && files[inum] == roots
    ensures files[inum := roots] == files
  {
  }

  lemma PtrsHold(di: DiskInode)
    requires di.Valid()
    ensures di.Ptrs()[12] == di.indirect1
  {
  }

  lemma MakeIsStep(v: Vol, inum: nat, isDir: bool, w: Vol)
    requires inum !in v.blocks.files
    requires w.blocks == State(v.blocks.files[inum := seq(SLOTS, _ => 0)], v.blocks.img, v.blocks.used)
    requires w.infos == v.infos[inum := Info(0, isDir)]
    ensures Step(v, Make(inum, isDir), w)
  {
  }

  lemma FreeIsStep(v: Vol, inum: nat, w: Vol)
    requires inum in v.blocks.files && inum in v.infos && Released(v.blocks, w.blocks, inum)
    requires w.infos == v.infos - {inum}
    ensures Step(v, Free(inum), w)
  {
    hide Released;
  }

  lemma ResizeIsStep(v: Vol, w: Vol, inum: nat, size: nat, ok: bool, pruned: bool)
    requires Owns(v.blocks) && inum in v.blocks.files && inum in v.infos
    requires w.infos == v.infos[inum := Info(if ok then size else v.infos[inum].size, v.infos[inum].isDir)]
    requires ok <==> !v.infos[inum].isDir && CanResize(v.infos[inum].size, size)
    requires var cur := v.infos[inum].size;
             if !v.infos[inum].isDir && size < cur && BlocksForSize(size) < BlocksForSize(cur) then
               && Truncated(v.blocks, w.blocks, inum, BlocksForSize(size), Min(BlocksForSize(cur), MAX_LOGICAL), pruned)
               && (pruned <==> BlocksForSize(cur) <= MAX_LOGICAL && BlocksForSize(size) <= DIRECT
                               && v.blocks.files[inum][12] != 0 && SingleCut(v.blocks, inum, BlocksForSize(cur)))
             else w.blocks == v.blocks
    ensures Step(v, Resize(inum, size), w)
  {
    hide Owns, Truncated, Shortened, SingleCut, BlocksForSize;
    var cur := v.infos[inum].size;
    assert Addr(v.blocks, Pos(inum, 12, [])) == v.blocks.files[inum][12];
    assert v.infos[inum := v.infos[inum]] == v.infos;
    if !v.infos[inum].isDir && size < cur && BlocksForSize(size) < BlocksForSize(cur) {
      TruncatedIsShortened(v.blocks, w.blocks, inum, BlocksForSize(size), Min(BlocksForSize(cur), MAX_LOGICAL), pruned);
    }
  }

  lemma SameIndexRefl(s: State)
    ensures SameIndex(s, s)
  {
  }

  lemma GetIs(s: State, inum: nat, lb: nat)
    requires Owns(s) && inum in s.files && lb < MAX_LOGICAL
    ensures GetBlockForOffset(s.img, s.files[inum], lb) == Ok(Addr(s, PosOf(inum, lb)))
  {
    hide Addr, PosOf, GetBlockForOffset;
    GetIsAddr(s, inum, lb);
  }

  /** Writing a data block leaves every index block alone. */
  lemma LeafOverwrite(s: State, inum: nat, lb: nat, blk: Block)
    requires Owns(s) && inum in s.files && lb < MAX_LOGICAL && Addr(s, PosOf(inum, lb)) != 0
    ensures |s.img| == TOTAL_BLOCKS && InRegion(Addr(s, PosOf(inum, lb)))
    ensures SameIndex(s, State(s.files, s.img[Addr(s, PosOf(inum, lb)) := blk], s.used))
  {
    hide Addr, PosOf, InTree, Owns;
    assert Disjoint(s) by { OwnsDisjoint(s); }
    PosOfLogical(s.files, inum, lb);
  }
}
