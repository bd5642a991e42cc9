/** Mapping a file's logical blocks: the inode's pointers and allocation on demand. */
module Extents {
  import opened Bytes
  import opened Device
  import opened Bitmaps
  import opened Allocation
  import opened BlockMap

  // ---------------------------------------------------------------- growth of a tree

  /** p lies on the way from the inode down to target. */
  predicate Above(p: Pos, target: Pos) {
    p.inum == target.inum && p.slot == target.slot && p.path <= target.path
  }

  /** t is s with index blocks and possibly the data block allocated on the way to target, and no other change:
      every mapping of every file stays, data and metadata blocks keep their content, a new data block is zero. */
  ghost predicate Grown(s: State, t: State, target: Pos) {
    && Owns(t) && t.files.Keys == s.files.Keys && s.used <= t.used && |t.img| == |s.img| == TOTAL_BLOCKS
    && (forall p :: InTree(s.files, p) && (Addr(s, p) != 0 || !Above(p, target)) ==> Addr(t, p) == Addr(s, p))
    && (forall p :: InTree(s.files, p) && IsLeaf(p) && InRegion(Addr(s, p)) ==> t.img[Addr(s, p)] == s.img[Addr(s, p)])
    && (forall a :: 0 <= a < DATA_START && a != BLOCK_BITMAP_ADDR ==> t.img[a] == s.img[a])
    && (IsLeaf(target) && Addr(s, target) == 0 && InRegion(Addr(t, target)) ==> t.img[Addr(t, target)] == Zero())
  }

  lemma SameTree(files: map<nat, Roots>, other: map<nat, Roots>, p: Pos)
    requires files.Keys == other.Keys
    ensures InTree(files, p) <==> InTree(other, p)
  {
  }

  lemma GrownRefl(s: State, target: Pos)
    requires Owns(s)
    ensures Grown(s, s, target)
  {
    hide Addr;
  }

  lemma GrownTrans(s: State, t: State, u: State, target: Pos)
    requires Owns(s) && Grown(s, t, target) && Grown(t, u, target) && InTree(s.files, target)
    ensures Grown(s, u, target)
  {
    hide Addr, InTree, Owns, Zero;
    forall p ensures InTree(s.files, p) <==> InTree(t.files, p) { SameTree(s.files, t.files, p); }
    assert Disjoint(s) && Disjoint(t) && Disjoint(u) by { OwnsDisjoint(s); OwnsDisjoint(t); OwnsDisjoint(u); }
    forall p | InTree(s.files, p) && (Addr(s, p) != 0 || !Above(p, target)) ensures Addr(u, p) == Addr(s, p) {
      assert Addr(t, p) == Addr(s, p);
    }
    forall p | InTree(s.files, p) && IsLeaf(p) && InRegion(Addr(s, p)) ensures u.img[Addr(s, p)] == s.img[Addr(s, p)] {
      assert Addr(t, p) == Addr(s, p);
    }
  }

  lemma OwnsDisjoint(s: State)
    requires Owns(s)
    ensures Disjoint(s)
  {
  }

  /** s after AllocBlock has taken block v: bitmap written, block zeroed, nothing linked yet. */
  ghost function Allocated(s: State, bm: Block, v: nat): State
    requires |s.img| == TOTAL_BLOCKS && InRegion(v)
  {
    State(s.files, s.img[BLOCK_BITMAP_ADDR := bm][v := Zero()], s.used)
  }

  lemma LinkAddr(s: State, bm: Block, t: State, q: Pos, v: nat)
    requires Owns(s) && InTree(s.files, q) && Addr(s, q) == 0
    requires InRegion(v) && v !in s.used && t.used == s.used + {v}
    requires SetsPointer(Allocated(s, bm, v), t, q, v)
    ensures Owns(t) && Owns(Allocated(s, bm, v))
    ensures forall p :: InTree(s.files, p) ==> Addr(t, p) == if p == q then v else Addr(s, p)
    ensures forall p :: InTree(s.files, p) ==> Addr(Allocated(s, bm, v), p) == Addr(s, p)
  {
    hide Addr, InTree, Zero, SetsPointer;
    var mid := Allocated(s, bm, v);
    MidSameIndex(s, mid, bm, v);
    SameIndexOwns(s, mid);
    forall p | InTree(s.files, p) ensures Addr(mid, p) == Addr(s, p) { SameIndexAddr(s, mid, p); }
    ChildrenOfHole(mid, q);
    assert Detached(mid, q, v);
    LinkKeepsOwns(mid, t, q, v);
    forall p | InTree(s.files, p) ensures Addr(t, p) == if p == q then v else Addr(s, p) {
      SetPointerFrame(mid, t, q, v, p);
    }
  }

  /** Allocating block v and setting the pointer at q to it is one step of growth towards target. */
  lemma LinkGrows(s: State, bm: Block, t: State, q: Pos, v: nat, target: Pos)
    requires Owns(s) && InTree(s.files, q) && InTree(s.files, target) && Above(q, target) && Addr(s, q) == 0
    requires InRegion(v) && v !in s.used && t.used == s.used + {v}
    requires SetsPointer(Allocated(s, bm, v), t, q, v)
    ensures Grown(s, t, target) && Addr(t, q) == v && (target != q ==> Addr(t, target) == Addr(s, target))
  {
    hide Addr, InTree, Zero, SetsPointer, Owns;
    assert Disjoint(s) by { OwnsDisjoint(s); }
    var mid := Allocated(s, bm, v);
    LinkAddr(s, bm, t, q, v);
    LinkBlocks(s, mid, t, q, v);
    forall p | InTree(s.files, p) && IsLeaf(p) && InRegion(Addr(s, p)) ensures t.img[Addr(s, p)] == s.img[Addr(s, p)] {
      LinkLeaf(s, mid, t, q, v, p);
    }
  }

  lemma MidSameIndex(s: State, mid: State, bm: Block, v: nat)
    requires Owns(s) && InRegion(v) && v !in s.used
    requires mid == State(s.files, s.img[BLOCK_BITMAP_ADDR := bm][v := Zero()], s.used)
    ensures SameIndex(s, mid)
  {
    hide Addr, InTree, Zero;
  }

  lemma ChildrenOfHole(s: State, q: Pos)
    requires Addr(s, q) == 0
    ensures forall i :: 0 <= i < PTRS ==> Addr(s, Child(q, i)) == 0
  {
    forall i | 0 <= i < PTRS ensures Addr(s, Child(q, i)) == 0 {
      assert Parent(Child(q, i)) == q;
    }
  }

  /** Outside the index block above q, linking leaves every block as it was. */
  lemma LinkBlocks(s: State, mid: State, t: State, q: Pos, v: nat)
    requires Owns(mid) && SetsPointer(mid, t, q, v) && InRegion(v) && |s.img| == TOTAL_BLOCKS && mid.files == s.files
    requires forall a :: 0 <= a < TOTAL_BLOCKS && a != BLOCK_BITMAP_ADDR && a != v ==> mid.img[a] == s.img[a]
    ensures |t.img| == TOTAL_BLOCKS && t.files.Keys == s.files.Keys
    ensures forall a :: 0 <= a < DATA_START && a != BLOCK_BITMAP_ADDR ==> t.img[a] == s.img[a]
    ensures v !in mid.used ==> t.img[v] == mid.img[v]
  {
    hide Addr, WritePointer;
    if q.path != [] { ParentInTree(mid.files, q); }
  }

  lemma LinkLeaf(s: State, mid: State, t: State, q: Pos, v: nat, p: Pos)
    requires Owns(s) && Owns(mid) && SetsPointer(mid, t, q, v) && InRegion(v) && v !in s.used && mid.files == s.files
    requires forall a :: 0 <= a < TOTAL_BLOCKS && a != BLOCK_BITMAP_ADDR && a != v ==> mid.img[a] == s.img[a]
    requires InTree(s.files, p) && IsLeaf(p) && InRegion(Addr(s, p)) && Addr(mid, p) == Addr(s, p)
    ensures t.img[Addr(s, p)] == s.img[Addr(s, p)]
  {
    hide Addr, WritePointer;
    if q.path != [] {
      ParentInTree(mid.files, q);
    }
  }

  // ---------------------------------------------------------------- the inode object

  class DiskInode {
    const isDir: bool
    var direct: seq<nat>
    var indirect1: nat
    var indirect2: nat
    var indirect3: nat
    var size: nat
    var blocks512: U32

    ghost predicate Valid()
      reads this
    {
      |direct| == DIRECT
    }

    function Ptrs(): Roots
      reads this
      requires Valid()
    {
      var tail: seq<nat> := [indirect1, indirect2, indirect3];
      assert |direct + tail| == SLOTS;
      direct + tail
    }

    constructor (isDir: bool)
      ensures Valid() && this.isDir == isDir && size == 0 && blocks512 == 0 && Ptrs() == seq(SLOTS, _ => 0)
    {
      this.isDir := isDir;
      direct := seq(DIRECT, _ => 0);
      indirect1, indirect2, indirect3, size, blocks512 := 0, 0, 0, 0, 0;
    }

    /** Stores a block address in one of the fifteen pointer fields. */
    method SetSlot(slot: nat, addr: nat)
      requires Valid() && slot < SLOTS
      modifies this`direct, this`indirect1, this`indirect2, this`indirect3
      ensures Valid() && Ptrs() == old(Ptrs())[slot := addr]
    {
      if slot < DIRECT {
        direct := direct[slot := addr];
      } else if slot == 12 {
        indirect1 := addr;
      } else if slot == 13 {
        indirect2 := addr;
      } else {
        indirect3 := addr;
      }
    }

    method AddBlocks512()
      modifies this`blocks512
      ensures blocks512 == (old(blocks512) + 8) % 0x1_0000_0000
    {
      blocks512 := (blocks512 + BLOCK_SIZE / 512) % 0x1_0000_0000;
    }
  }

  /** The mapping state when di is the open copy of inode inum. */
  ghost function Now(alloc: Allocator, di: DiskInode, files: map<nat, Roots>, inum: nat): State
    requires di.Valid()
    reads alloc.dev, alloc.blockBM, di
  {
    State(files[inum := di.Ptrs()], alloc.dev.data, alloc.blockBM.Used())
  }

  /** Makes sure the pointer slot of the inode holds a block. */
  method EnsureRoot(alloc: Allocator, di: DiskInode, slot: nat, ghost files: map<nat, Roots>, ghost inum: nat, ghost target: Pos)
    returns (r: Result<nat>)
    requires alloc.Valid() && di.Valid() && slot < SLOTS && Owns(Now(alloc, di, files, inum))
    requires InTree(files[inum := di.Ptrs()], target) && Above(Pos(inum, slot, []), target)
    modifies alloc.dev`data, alloc.dev`dirty, alloc.blockBM`bits, alloc.sb`freeBlocks, di
    ensures alloc.Valid() && di.Valid() && di.size == old(di.size)
    ensures Grown(old(Now(alloc, di, files, inum)), Now(alloc, di, files, inum), target)
    ensures r.Ok? ==> r.value != 0 && Addr(Now(alloc, di, files, inum), Pos(inum, slot, [])) == r.value
    ensures target.path != [] ==> Addr(Now(alloc, di, files, inum), target) == old(Addr(Now(alloc, di, files, inum), target))
    ensures r.Err? ==> r == Err(NoSpace) && RegionFull(alloc.blockBM.Used())
    ensures r.Err? ==> Now(alloc, di, files, inum) == old(Now(alloc, di, files, inum))
  {
    hide Grown, Owns, BitmapBlock, Zero, Has;
    ghost var s, q := Now(alloc, di, files, inum), Pos(inum, slot, []);
    GrownRefl(s, target);
    var cur := di.Ptrs()[slot];
    if cur != 0 { return Ok(cur); }
    var a := alloc.AllocBlock();
    if a.Err? { return Err(NoSpace); }
    di.SetSlot(slot, a.value);
    di.AddBlocks512();
    ghost var t := Now(alloc, di, files, inum);
    assert s.files[inum := s.files[inum][slot := a.value]] == t.files;
    LinkGrows(s, BitmapBlock(alloc.blockBM.bits), t, q, a.value, target);
    return Ok(a.value);
  }

  ghost predicate RegionFull(used: set<nat>) {
    forall n: nat :: DATA_START <= n < TOTAL_BLOCKS ==> n in used
  }

  /** Makes sure pointer i of the index block at address parent holds a block. */
  method EnsureChild(alloc: Allocator, di: DiskInode, parent: nat, i: nat,
                     ghost files: map<nat, Roots>, ghost inum: nat, ghost q: Pos, ghost target: Pos)
    returns (r: Result<nat>)
    requires alloc.Valid() && di.Valid() && Owns(Now(alloc, di, files, inum)) && parent != 0
    requires InTree(files[inum := di.Ptrs()], target) && InTree(files[inum := di.Ptrs()], q) && Above(q, target)
    requires q.path != [] && LastIndex(q) == i < PTRS && Addr(Now(alloc, di, files, inum), Parent(q)) == parent
    modifies alloc.dev`data, alloc.dev`dirty, alloc.blockBM`bits, alloc.sb`freeBlocks, di`blocks512
    ensures alloc.Valid() && di.Valid()
    ensures Grown(old(Now(alloc, di, files, inum)), Now(alloc, di, files, inum), target)
    ensures r.Ok? ==> r.value != 0 && Addr(Now(alloc, di, files, inum), q) == r.value
    ensures target != q ==> Addr(Now(alloc, di, files, inum), target) == old(Addr(Now(alloc, di, files, inum), target))
    ensures r.Err? ==> r == Err(NoSpace) && RegionFull(alloc.blockBM.Used())
    ensures r.Err? ==> Now(alloc, di, files, inum) == old(Now(alloc, di, files, inum))
  {
    hide Grown, Owns, BitmapBlock, Zero, Has, ReadPointer, WritePointer, Bitmap.Used, Addr, InTree;
    ghost var s := Now(alloc, di, files, inum);
    GrownRefl(s, target);
    ChildFacts(s, q);
    ParentInTree(s.files, q);
    var rd := alloc.dev.ReadBlock(parent);
    var cur := ReadPointer(rd.value, i);
    if cur != 0 { return Ok(cur); }
    var a := alloc.AllocBlock();
    if a.Err? { return Err(NoSpace); }
    var w := alloc.dev.WriteBlock(parent, WritePointer(rd.value, i, a.value));
    di.AddBlocks512();
    ghost var t, bm := Now(alloc, di, files, inum), BitmapBlock(alloc.blockBM.bits);
    AllocatedParent(s, bm, a.value, Parent(q));
    LinkGrows(s, bm, t, q, a.value, target);
    return Ok(a.value);
  }

  lemma ChildFacts(s: State, q: Pos)
    requires Owns(s) && InTree(s.files, q) && q.path != [] && Addr(s, Parent(q)) != 0
    ensures InRegion(Addr(s, Parent(q))) && Addr(s, Parent(q)) in s.used && |s.img| == TOTAL_BLOCKS
    ensures LastIndex(q) < PTRS && Addr(s, q) == ReadPointer(s.img[Addr(s, Parent(q))], LastIndex(q))
  {
    hide ReadPointer;
    ParentInTree(s.files, q);
  }

  lemma AllocatedParent(s: State, bm: Block, v: nat, p: Pos)
    requires Owns(s) && InTree(s.files, p) && InRegion(v) && v !in s.used
    ensures Addr(Allocated(s, bm, v), p) == Addr(s, p)
  {
    hide Addr, Zero;
    MidSameIndex(s, Allocated(s, bm, v), bm, v);
    SameIndexAddr(s, Allocated(s, bm, v), p);
  }

  // ---------------------------------------------------------------- allocation on demand

  /** The step from one level to the next while allocating. */
  lemma Descend(s: State, t: State, u: State, inum: nat, target: Pos)
    requires Owns(s) && InTree(s.files, target) && Grown(s, t, target) && Grown(t, u, target)
    ensures Grown(s, u, target) && InTree(u.files, target)
  {
    hide Grown, Owns, Addr, InTree;
    GrownTrans(s, t, u, target);
    GrownTree(s, u, target);
    SameTree(s.files, u.files, target);
  }

  lemma GrownTree(s: State, t: State, target: Pos)
    requires Grown(s, t, target)
    ensures Owns(t) && t.files.Keys == s.files.Keys
  {
    hide Owns, Addr, InTree;
  }

  /** Walks down one more level: the position, its parent and its index. */
  lemma NextLevel(files: map<nat, Roots>, target: Pos, k: nat)
    requires InTree(files, target) && 0 < k <= |target.path|
    ensures var q := Pos(target.inum, target.slot, target.path[..k]);
            && InTree(files, q) && Above(q, target) && LastIndex(q) == target.path[k - 1] < PTRS
            && Parent(q) == Pos(target.inum, target.slot, target.path[..k - 1])
  {
    assert target.path[..k][..k - 1] == target.path[..k - 1];
  }

  /** One level of the tree on the way to target: the index block above is in place. */
  method EnsureLevel(alloc: Allocator, di: DiskInode, parent: nat, i: nat, ghost s0: State,
                     ghost files: map<nat, Roots>, ghost inum: nat, ghost target: Pos, ghost k: nat)
    returns (r: Result<nat>)
    requires alloc.Valid() && di.Valid() && parent != 0
    requires Owns(s0) && InTree(s0.files, target) && Grown(s0, Now(alloc, di, files, inum), target)
    requires target.inum == inum && 0 < k <= |target.path| && target.path[k - 1] == i
    requires Addr(Now(alloc, di, files, inum), Pos(inum, target.slot, target.path[..k - 1])) == parent
    modifies alloc.dev`data, alloc.dev`dirty, alloc.blockBM`bits, alloc.sb`freeBlocks, di`blocks512
    ensures alloc.Valid() && di.Valid() && Grown(s0, Now(alloc, di, files, inum), target)
    ensures r.Ok? ==> r.value != 0 && Addr(Now(alloc, di, files, inum), Pos(inum, target.slot, target.path[..k])) == r.value
    ensures k < |target.path| ==> Addr(Now(alloc, di, files, inum), target) == old(Addr(Now(alloc, di, files, inum), target))
    ensures r.Err? ==> r == Err(NoSpace) && RegionFull(alloc.blockBM.Used())
    ensures r.Err? ==> Now(alloc, di, files, inum) == old(Now(alloc, di, files, inum))
  {
    hide Grown, Owns, Addr, InTree;
    ghost var s := Now(alloc, di, files, inum);
    GrownTree(s0, s, target);
    SameTree(s0.files, s.files, target);
    NextLevel(s.files, target, k);
    r := EnsureChild(alloc, di, parent, i, files, inum, Pos(inum, target.slot, target.path[..k]), target);
    Descend(s0, s, Now(alloc, di, files, inum), inum, target);
  }

  /** The block of logical block lb, allocated with any index blocks it needs. The mapping of every other logical
      block of every file stays as it was; running out of space changes no mapping and leaves a well-formed tree. */
  method AllocBlockForOffset(alloc: Allocator, di: DiskInode, lb: nat, ghost files: map<nat, Roots>, ghost inum: nat)
    returns (r: Result<nat>)
    requires alloc.Valid() && di.Valid() && Owns(Now(alloc, di, files, inum))
    modifies alloc.dev`data, alloc.dev`dirty, alloc.blockBM`bits, alloc.sb`freeBlocks, di
    ensures alloc.Valid() && di.Valid() && di.size == old(di.size)
    ensures lb < MAX_LOGICAL ==> Grown(old(Now(alloc, di, files, inum)), Now(alloc, di, files, inum), PosOf(inum, lb))
    ensures lb >= MAX_LOGICAL ==> r == Err(TooBig) && Now(alloc, di, files, inum) == old(Now(alloc, di, files, inum))
    ensures lb < MAX_LOGICAL && r.Ok? ==>
              r.value != 0 && GetBlockForOffset(alloc.dev.data, di.Ptrs(), lb) == Ok(r.value)
    ensures lb < MAX_LOGICAL && r.Err? ==>
              r == Err(NoSpace) && RegionFull(alloc.blockBM.Used()) && GetBlockForOffset(alloc.dev.data, di.Ptrs(), lb) == Ok(0)
    ensures old(GetBlockForOffset(alloc.dev.data, di.Ptrs(), lb)).Ok? && old(GetBlockForOffset(alloc.dev.data, di.Ptrs(), lb)) != Ok(0) ==>
              r == old(GetBlockForOffset(alloc.dev.data, di.Ptrs(), lb)) && Now(alloc, di, files, inum) == old(Now(alloc, di, files, inum))
  {
    hide Grown, Owns, Addr, GetBlockForOffset, Follow, PosOf, InTree;
    ghost var s := Now(alloc, di, files, inum);
    assert Disjoint(s) by { OwnsDisjoint(s); }
    GetIsAddr(s, inum, lb);
    var existing := GetBlockForOffset(alloc.dev.data, di.Ptrs(), lb);
    if existing.Err? { return existing; }
    ghost var target := PosOf(inum, lb);
    PosOfLogical(s.files, inum, lb);
    if existing.value != 0 {
      GrownRefl(s, target);
      return existing;
    }
    r := AllocPath(alloc, di, lb, files, inum);
    ghost var t := Now(alloc, di, files, inum);
    GrownTree(s, t, target);
    assert Disjoint(t) by { OwnsDisjoint(t); }
    GetIsAddr(t, inum, lb);
  }

  /** Allocates whatever is missing between the inode and the data block, level by level. */
  method AllocPath(alloc: Allocator, di: DiskInode, lb: nat, ghost files: map<nat, Roots>, ghost inum: nat)
    returns (r: Result<nat>)
    requires alloc.Valid() && di.Valid() && Owns(Now(alloc, di, files, inum)) && lb < MAX_LOGICAL
    requires Addr(Now(alloc, di, files, inum), PosOf(inum, lb)) == 0
    modifies alloc.dev`data, alloc.dev`dirty, alloc.blockBM`bits, alloc.sb`freeBlocks, di
    ensures alloc.Valid() && di.Valid() && di.size == old(di.size)
    ensures Grown(old(Now(alloc, di, files, inum)), Now(alloc, di, files, inum), PosOf(inum, lb))
    ensures r.Ok? ==> r.value != 0 && Addr(Now(alloc, di, files, inum), PosOf(inum, lb)) == r.value
    ensures r.Err? ==> r == Err(NoSpace) && RegionFull(alloc.blockBM.Used())
                       && Addr(Now(alloc, di, files, inum), PosOf(inum, lb)) == 0
  {
    hide Grown, Owns, Addr, InTree, RegionFull;
    ghost var s, target := Now(alloc, di, files, inum), PosOf(inum, lb);
    PosOfLogical(s.files, inum, lb);
    assert target.path[..|target.path|] == target.path && target.path[..0] == [];
    if lb < DIRECT {
      r := EnsureRoot(alloc, di, lb, files, inum, target);
      return;
    }
    var l1 := lb - DIRECT;
    if l1 < PTRS {
      r := EnsureRoot(alloc, di, 12, files, inum, target);
      if r.Err? { return; }
      r := EnsureLevel(alloc, di, r.value, l1, s, files, inum, target, 1);
      return;
    }
    var l2 := l1 - PTRS;
    if l2 < PTRS * PTRS {
      r := EnsureRoot(alloc, di, 13, files, inum, target);
      if r.Err? { return; }
      r := EnsureLevel(alloc, di, r.value, l2 / PTRS, s, files, inum, target, 1);
      if r.Err? { return; }
      r := EnsureLevel(alloc, di, r.value, l2 % PTRS, s, files, inum, target, 2);
      return;
    }
    r := AllocTriple(alloc, di, l2 - PTRS * PTRS, files, inum);
  }

  method AllocTriple(alloc: Allocator, di: DiskInode, l3: nat, ghost files: map<nat, Roots>, ghost inum: nat)
    returns (r: Result<nat>)
    requires alloc.Valid() && di.Valid() && Owns(Now(alloc, di, files, inum)) && l3 < PTRS * PTRS * PTRS
    requires Addr(Now(alloc, di, files, inum), PosOf(inum, DIRECT + PTRS + PTRS * PTRS + l3)) == 0
    modifies alloc.dev`data, alloc.dev`dirty, alloc.blockBM`bits, alloc.sb`freeBlocks, di
    ensures alloc.Valid() && di.Valid() && di.size == old(di.size)
    ensures var target := PosOf(inum, DIRECT + PTRS + PTRS * PTRS + l3);
            && Grown(old(Now(alloc, di, files, inum)), Now(alloc, di, files, inum), target)
            && (r.Ok? ==> r.value != 0 && Addr(Now(alloc, di, files, inum), target) == r.value)
            && (r.Err? ==> r == Err(NoSpace) && RegionFull(alloc.blockBM.Used()) && Addr(Now(alloc, di, files, inum), target) == 0)
  {
    hide Grown, Owns, Addr, InTree, RegionFull, Above;
    ghost var s, target := Now(alloc, di, files, inum), PosOf(inum, DIRECT + PTRS + PTRS * PTRS + l3);
    PosOfLogical(s.files, inum, DIRECT + PTRS + PTRS * PTRS + l3);
    assert target.path[..3] == target.path && target.path[..0] == [];
    assert Above(Pos(inum, 14, []), target) by { AboveRoot(target); }
    r := EnsureRoot(alloc, di, 14, files, inum, target);
    if r.Err? { return; }
    r := EnsureLevel(alloc, di, r.value, l3 / (PTRS * PTRS), s, files, inum, target, 1);
    if r.Err? { return; }
    r := EnsureLevel(alloc, di, r.value, l3 / PTRS % PTRS, s, files, inum, target, 2);
    if r.Err? { return; }
    r := EnsureLevel(alloc, di, r.value, l3 % PTRS, s, files, inum, target, 3);
  }

  lemma AboveRoot(target: Pos)
    ensures Above(Pos(target.inum, target.slot, []), target)
  {
  }

  /** Growth towards one logical block leaves the mapping of every other logical block of every file unchanged,
      and the content of every mapped block of every file too. */
  lemma GrownMapping(s: State, t: State, inum: nat, lb: nat, other: nat, lb': nat)
    requires Owns(s) && inum in s.files && lb < MAX_LOGICAL && Grown(s, t, PosOf(inum, lb))
    requires other in s.files && (other != inum || lb' != lb)
    ensures other in t.files
    ensures GetBlockForOffset(t.img, t.files[other], lb') == GetBlockForOffset(s.img, s.files[other], lb')
    ensures var b := GetBlockForOffset(s.img, s.files[other], lb');
            b.Ok? && b.value != 0 ==> b.value < |s.img| == |t.img| && t.img[b.value] == s.img[b.value]
  {
    hide Addr, GetBlockForOffset, Owns, PosOf, Above;
    assert Disjoint(s) && Disjoint(t) by { OwnsDisjoint(s); OwnsDisjoint(t); }
    GetIsAddr(s, other, lb');
    GetIsAddr(t, other, lb');
    if lb' < MAX_LOGICAL {
      var p, target := PosOf(other, lb'), PosOf(inum, lb);
      PosOfLogical(s.files, other, lb');
      PosOfLogical(s.files, inum, lb);
      PosOfInum(other, lb');
      PosOfInum(inum, lb);
      LeafAbove(p, target);
    }
  }

  lemma PosOfInum(inum: nat, lb: nat)
    ensures PosOf(inum, lb).inum == inum
  {
  }

  lemma LeafAbove(p: Pos, target: Pos)
    requires IsLeaf(p) && IsLeaf(target)
    ensures Above(p, target) <==> p == target
  {
  }
}
