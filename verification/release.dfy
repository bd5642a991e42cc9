/** Releasing an inode: every block of its tree is freed, and nobody else's. */
module Release {
  import opened Bytes
  import opened Device
  import opened Bitmaps
  import opened Allocation
  import opened BlockMap
  import opened Extents

  // ---------------------------------------------------------------- the blocks of a tree

  /** The blocks at p and below it. */
  ghost function Subtree(s: State, p: Pos): set<nat>
    decreases Depth(p.slot) - |p.path|, PTRS + 1
  {
    if Addr(s, p) == 0 then {}
    else {Addr(s, p)} + if |p.path| < Depth(p.slot) then Children(s, p, PTRS) else {}
  }

  /** The blocks below the first n pointers of the index block at p. */
  ghost function Children(s: State, p: Pos, n: nat): set<nat>
    requires |p.path| < Depth(p.slot)
    decreases Depth(p.slot) - |p.path|, n
  {
    if n == 0 then {} else Children(s, p, n - 1) + Subtree(s, Child(p, n - 1))
  }

  /** The blocks of the first n pointer slots of an inode. */
  ghost function SlotBlocks(s: State, inum: nat, n: nat): set<nat> {
    if n == 0 then {} else SlotBlocks(s, inum, n - 1) + Subtree(s, Pos(inum, n - 1, []))
  }

  lemma {:induction false} ChildrenHolds(s: State, p: Pos, n: nat, i: nat)
    requires |p.path| < Depth(p.slot) && i < n
    ensures Subtree(s, Child(p, i)) <= Children(s, p, n)
    decreases n
  {
    hide Subtree;
    if i < n - 1 { ChildrenHolds(s, p, n - 1, i); }
  }

  lemma {:induction false} SlotsHold(s: State, inum: nat, n: nat, i: nat)
    requires i < n
    ensures Subtree(s, Pos(inum, i, [])) <= SlotBlocks(s, inum, n)
    decreases n
  {
    hide Subtree;
    if i < n - 1 { SlotsHold(s, inum, n - 1, i); }
  }

  lemma {:induction false} AncestorMapped(s: State, p: Pos, q: Pos)
    requires Above(p, q) && Addr(s, q) != 0
    ensures Addr(s, p) != 0
    decreases |q.path|
  {
    hide ReadPointer;
    if p.path != q.path {
      assert Above(p, Parent(q));
      AncestorMapped(s, p, Parent(q));
    } else {
      assert p == q;
    }
  }

  /** Every block below p is in its subtree. */
  lemma {:induction false} SubtreeComplete(s: State, p: Pos, q: Pos)
    requires InTree(s.files, q) && Above(p, q) && Addr(s, q) != 0
    ensures Addr(s, q) in Subtree(s, p)
    decreases |q.path| - |p.path|
  {
    hide Addr, Children;
    AncestorMapped(s, p, q);
    if p.path == q.path {
      assert p == q;
    } else {
      var i := q.path[|p.path|];
      assert Above(Child(p, i), q);
      SubtreeComplete(s, Child(p, i), q);
      ChildrenHolds(s, p, PTRS, i);
    }
  }

  /** Every block of the subtree lies at some position below p. */
  lemma {:induction false} SubtreeSound(s: State, p: Pos, x: nat) returns (q: Pos)
    requires InTree(s.files, p) && x in Subtree(s, p)
    ensures InTree(s.files, q) && Above(p, q) && Addr(s, q) == x && x != 0
    decreases Depth(p.slot) - |p.path|, PTRS + 1
  {
    hide Addr, Children;
    if x == Addr(s, p) {
      q := p;
    } else {
      q := ChildrenSound(s, p, PTRS, x);
    }
  }

  lemma {:induction false} ChildrenSound(s: State, p: Pos, n: nat, x: nat) returns (q: Pos)
    requires InTree(s.files, p) && |p.path| < Depth(p.slot) && n <= PTRS && x in Children(s, p, n)
    ensures InTree(s.files, q) && Above(p, q) && Addr(s, q) == x && x != 0
    decreases Depth(p.slot) - |p.path|, n
  {
    hide Addr, Subtree;
    if x in Children(s, p, n - 1) {
      q := ChildrenSound(s, p, n - 1, x);
    } else {
      q := SubtreeSound(s, Child(p, n - 1), x);
    }
  }

  lemma {:induction false} SlotsSound(s: State, inum: nat, n: nat, x: nat) returns (q: Pos)
    requires inum in s.files && n <= SLOTS && x in SlotBlocks(s, inum, n)
    ensures InTree(s.files, q) && q.inum == inum && Addr(s, q) == x && x != 0
    decreases n
  {
    hide Addr, Subtree;
    if x in SlotBlocks(s, inum, n - 1) {
      q := SlotsSound(s, inum, n - 1, x);
    } else {
      q := SubtreeSound(s, Pos(inum, n - 1, []), x);
    }
  }

  // ---------------------------------------------------------------- the rest of the filesystem

  lemma {:induction false} OtherAddr(s: State, t: State, inum: nat, p: Pos)
    requires Disjoint(s) && t.files == s.files - {inum} && |t.img| == |s.img|
    requires forall a :: DATA_START <= a < TOTAL_BLOCKS ==> t.img[a] == s.img[a]
    requires InTree(s.files, p) && p.inum != inum
    ensures InTree(t.files, p) && Addr(t, p) == Addr(s, p)
    decreases |p.path|
  {
    hide ReadPointer;
    if p.path != [] {
      ParentInTree(s.files, p);
      OtherAddr(s, t, inum, Parent(p));
    }
  }

  /** With its blocks freed and its record gone, an inode leaves a filesystem that owns exactly the rest. */
  lemma DropKeepsOwns(s: State, t: State, inum: nat)
    requires Owns(s) && inum in s.files && t.files == s.files - {inum} && |t.img| == |s.img|
    requires forall a :: DATA_START <= a < TOTAL_BLOCKS ==> t.img[a] == s.img[a]
    requires t.used == s.used - SlotBlocks(s, inum, SLOTS)
    ensures Owns(t)
    ensures forall p :: InTree(t.files, p) ==> InTree(s.files, p) && p.inum != inum && Addr(t, p) == Addr(s, p)
  {
    hide Addr, SlotBlocks;
    forall p | InTree(t.files, p) ensures InTree(s.files, p) && p.inum != inum && Addr(t, p) == Addr(s, p) {
      OtherAddr(s, t, inum, p);
    }
    forall p | InTree(t.files, p) && Addr(t, p) != 0 ensures Addr(t, p) in t.used {
      if Addr(s, p) in SlotBlocks(s, inum, SLOTS) {
        var q := SlotsSound(s, inum, SLOTS, Addr(s, p));
      }
    }
    forall a: nat | a < DATA_START ensures a in t.used {
      if a in SlotBlocks(s, inum, SLOTS) {
        var q := SlotsSound(s, inum, SLOTS, a);
      }
    }
    forall a | a in t.used && a >= DATA_START ensures IsOwned(t, a) {
      var p :| InTree(s.files, p) && Addr(s, p) == a;
      if p.inum == inum {
        AboveRoot(p);
        SubtreeComplete(s, Pos(inum, p.slot, []), p);
        SlotsHold(s, inum, SLOTS, p.slot);
      }
      OtherAddr(s, t, inum, p);
      assert Addr(t, p) == a;
    }
  }

  // ---------------------------------------------------------------- the freeing procedures

  /** Only the bitmap block of the image may differ from s. */
  ghost predicate OnlyBitmap(img: Image, s: State) {
    |img| == |s.img| == TOTAL_BLOCKS && forall a :: 0 <= a < TOTAL_BLOCKS && a != BLOCK_BITMAP_ADDR ==> img[a] == s.img[a]
  }

  /** Frees the index block at address a, `level` levels above the data, with everything below it. */
  method FreeIndirect(alloc: Allocator, a: nat, level: nat, ghost s: State, ghost p: Pos)
    requires alloc.Valid() && Disjoint(s) && OnlyBitmap(alloc.dev.data, s)
    requires InTree(s.files, p) && Addr(s, p) == a != 0 && level == Depth(p.slot) - |p.path| >= 1
    modifies alloc.dev`data, alloc.dev`dirty, alloc.blockBM`bits, alloc.sb`freeBlocks
    ensures alloc.Valid() && OnlyBitmap(alloc.dev.data, s)
    ensures alloc.blockBM.Used() == old(alloc.blockBM.Used()) - Subtree(s, p)
    decreases level, 1
  {
    hide Addr, Children, Subtree, ReadPointer, InTree, Disjoint, OnlyBitmap, Allocator.Valid, Bitmap.Used;
    RegionFacts(s, p);
    var blk := ReadIndex(alloc, a, s);
    ghost var used := alloc.blockBM.Used();
    NoChildren(s, p);
    var i := 0;
    while i < PTRS
      invariant 0 <= i <= PTRS && alloc.Valid() && OnlyBitmap(alloc.dev.data, s)
      invariant alloc.blockBM.Used() == used - Children(s, p, i)
    {
      var ptr := ReadPointer(blk, i);
      ChildStep(s, p, i);
      FreeChild(alloc, ptr, level - 1, s, Child(p, i));
      MinusMinus(used, Children(s, p, i), Subtree(s, Child(p, i)));
      i := i + 1;
    }
    SubtreeIs(s, p);
    MinusMinus(used, Children(s, p, PTRS), {a});
    FreeOne(alloc, a, s);
  }

  lemma MinusMinus(u: set<nat>, x: set<nat>, y: set<nat>)
    ensures u - x - y == u - (x + y) == u - (y + x)
  {
  }

  method ReadIndex(alloc: Allocator, a: nat, ghost s: State) returns (blk: Block)
    requires alloc.Valid() && OnlyBitmap(alloc.dev.data, s) && InRegion(a)
    ensures a < |s.img| && blk == s.img[a]
  {
    var rd := alloc.dev.ReadBlock(a);
    return rd.value;
  }

  method FreeOne(alloc: Allocator, a: nat, ghost s: State)
    requires alloc.Valid() && OnlyBitmap(alloc.dev.data, s) && InRegion(a)
    modifies alloc.dev`data, alloc.dev`dirty, alloc.blockBM`bits, alloc.sb`freeBlocks
    ensures alloc.Valid() && OnlyBitmap(alloc.dev.data, s)
    ensures alloc.blockBM.Used() == old(alloc.blockBM.Used()) - {a}
  {
    hide BitmapBlock, Has;
    var f := alloc.FreeBlock(a);
  }

  /** Frees what one pointer of an index block holds: a data block, or an index block with its tree. */
  method FreeChild(alloc: Allocator, ptr: nat, level: nat, ghost s: State, ghost p: Pos)
    requires alloc.Valid() && Disjoint(s) && OnlyBitmap(alloc.dev.data, s)
    requires InTree(s.files, p) && Addr(s, p) == ptr && level == Depth(p.slot) - |p.path|
    modifies alloc.dev`data, alloc.dev`dirty, alloc.blockBM`bits, alloc.sb`freeBlocks
    ensures alloc.Valid() && OnlyBitmap(alloc.dev.data, s)
    ensures alloc.blockBM.Used() == old(alloc.blockBM.Used()) - Subtree(s, p)
    decreases level, 2
  {
    hide Addr, Children, BitmapBlock, Has, InTree, Disjoint;
    if ptr != 0 {
      RegionFacts(s, p);
      if level == 0 {
        LeafSubtree(s, p);
        FreeOne(alloc, ptr, s);
      } else {
        FreeIndirect(alloc, ptr, level, s, p);
      }
    }
  }

  lemma RegionFacts(s: State, p: Pos)
    requires Disjoint(s) && InTree(s.files, p) && Addr(s, p) != 0
    ensures InRegion(Addr(s, p))
  {
    hide Addr;
  }

  lemma NoChildren(s: State, p: Pos)
    requires |p.path| < Depth(p.slot)
    ensures Children(s, p, 0) == {}
  {
  }

  lemma ChildStep(s: State, p: Pos, i: nat)
    requires Disjoint(s) && InTree(s.files, p) && |p.path| < Depth(p.slot) && Addr(s, p) != 0 && i < PTRS
    ensures InTree(s.files, Child(p, i)) && InRegion(Addr(s, p))
    ensures Addr(s, Child(p, i)) == ReadPointer(s.img[Addr(s, p)], i)
    ensures Children(s, p, i + 1) == Children(s, p, i) + Subtree(s, Child(p, i))
    ensures Addr(s, Child(p, i)) == 0 ==> Subtree(s, Child(p, i)) == {}
  {
    hide ReadPointer;
    assert Parent(Child(p, i)) == p;
  }

  lemma LeafSubtree(s: State, p: Pos)
    requires Addr(s, p) != 0 && IsLeaf(p)
    ensures Subtree(s, p) == {Addr(s, p)}
  {
    hide Addr;
  }

  lemma SubtreeIs(s: State, p: Pos)
    requires Addr(s, p) != 0 && |p.path| < Depth(p.slot)
    ensures Subtree(s, p) == {Addr(s, p)} + Children(s, p, PTRS)
  {
    hide Addr, Children;
  }

  /** Frees everything one pointer slot of the inode holds. */
  method FreeSlot(alloc: Allocator, slot: nat, a: nat, ghost s: State, ghost inum: nat)
    requires alloc.Valid() && Disjoint(s) && OnlyBitmap(alloc.dev.data, s) && inum in s.files
    requires slot < SLOTS && a == s.files[inum][slot]
    modifies alloc.dev`data, alloc.dev`dirty, alloc.blockBM`bits, alloc.sb`freeBlocks
    ensures alloc.Valid() && OnlyBitmap(alloc.dev.data, s)
    ensures alloc.blockBM.Used() == old(alloc.blockBM.Used()) - Subtree(s, Pos(inum, slot, []))
  {
    hide Children, BitmapBlock, Has, Disjoint;
    FreeChild(alloc, a, if slot < DIRECT then 0 else slot - DIRECT + 1, s, Pos(inum, slot, []));
  }

  lemma AllUnchanged(alloc: Allocator, s: State)
    requires alloc.Valid() && alloc.dev.data == s.img
    ensures OnlyBitmap(alloc.dev.data, s)
  {
  }

  lemma OnlyBitmapRegion(img: Image, s: State)
    requires OnlyBitmap(img, s)
    ensures |img| == |s.img| == TOTAL_BLOCKS && forall a :: DATA_START <= a < TOTAL_BLOCKS ==> img[a] == s.img[a]
  {
  }

  /** Frees the direct blocks, then the three indirect trees: exactly the blocks of the inode's tree. */
  method FreeInodeBlocks(alloc: Allocator, di: DiskInode, ghost files: map<nat, Roots>, ghost inum: nat)
    requires alloc.Valid() && di.Valid() && Owns(Now(alloc, di, files, inum))
    modifies alloc.dev`data, alloc.dev`dirty, alloc.blockBM`bits, alloc.sb`freeBlocks
    ensures alloc.Valid()
    ensures var s := old(Now(alloc, di, files, inum));
            && OnlyBitmap(alloc.dev.data, s)
            && alloc.blockBM.Used() == s.used - SlotBlocks(s, inum, SLOTS)
            && Owns(State(files - {inum}, alloc.dev.data, alloc.blockBM.Used()))
  {
    hide Subtree, InTree, Addr, Disjoint, Owns, OnlyBitmap, Allocator.Valid, Bitmap.Used;
    ghost var s := Now(alloc, di, files, inum);
    OwnsDisjoint(s);
    AllUnchanged(alloc, s);
    var ptrs := di.Ptrs();
    var slot := 0;
    while slot < SLOTS
      invariant 0 <= slot <= SLOTS && alloc.Valid() && di.Valid() && OnlyBitmap(alloc.dev.data, s)
      invariant alloc.blockBM.Used() == s.used - SlotBlocks(s, inum, slot)
    {
      FreeSlot(alloc, slot, ptrs[slot], s, inum);
      MinusMinus(s.used, SlotBlocks(s, inum, slot), Subtree(s, Pos(inum, slot, [])));
      slot := slot + 1;
    }
    assert files - {inum} == s.files - {inum};
    OnlyBitmapRegion(alloc.dev.data, s);
    DropKeepsOwns(s, State(files - {inum}, alloc.dev.data, alloc.blockBM.Used()), inum);
  }
}
