/** Block trees: every index or data block a file owns has a position, and positions never share a block. */
module BlockMap {
  import opened Bytes
  import opened Device
  import opened Allocation

  const DIRECT: nat := 12
  const PTRS: nat := 1024
  const SLOTS: nat := 15

  /** The fifteen block pointers of an inode: twelve direct, then single, double and triple indirect. */
  type Roots = r: seq<nat> | |r| == SLOTS witness seq(SLOTS, _ => 0)

  // ---------------------------------------------------------------- pointers in a block

  function ReadPointer(blk: Block, i: nat): U32
    requires i < PTRS
  {
    GetLE32(blk, 4 * i)
  }

  function WritePointer(blk: Block, i: nat, v: U32): Block
    requires i < PTRS
  {
    PutLE32(blk, 4 * i, v)
  }

  lemma PointerRoundTrip(blk: Block, i: nat, v: U32, j: nat)
    requires i < PTRS && j < PTRS
    ensures ReadPointer(WritePointer(blk, i, v), j) == if j == i then v else ReadPointer(blk, j)
  {
    LE32RoundTrip(blk, 4 * i, v);
  }

  lemma ZeroPointer(j: nat)
    requires j < PTRS
    ensures ReadPointer(Zero(), j) == 0
  {
  }

  // ---------------------------------------------------------------- positions

  /** A place in the tree of one inode: a pointer slot, then a pointer index for each level below it. */
  datatype Pos = Pos(inum: nat, slot: nat, path: seq<nat>)

  function Depth(slot: nat): nat { if slot < DIRECT then 0 else slot - DIRECT + 1 }

  function Parent(p: Pos): Pos
    requires p.path != []
  {
    Pos(p.inum, p.slot, p.path[..|p.path| - 1])
  }

  function Child(p: Pos, i: nat): Pos { Pos(p.inum, p.slot, p.path + [i]) }

  function LastIndex(p: Pos): nat
    requires p.path != []
  {
    p.path[|p.path| - 1]
  }

  /** The part of the engine's state that block mapping reads: the inodes' pointers, the blocks, the bitmap. */
  datatype State = State(files: map<nat, Roots>, img: Image, used: set<nat>)

  predicate InTree(files: map<nat, Roots>, p: Pos) {
    && p.inum in files && p.slot < SLOTS && |p.path| <= Depth(p.slot)
    && forall i :: 0 <= i < |p.path| ==> p.path[i] < PTRS
  }

  /** A data block rather than an index block. */
  predicate IsLeaf(p: Pos) { |p.path| == Depth(p.slot) }

  /** The block address at a position; 0 where the tree has no block. */
  function Addr(s: State, p: Pos): nat
    decreases |p.path|
  {
    if p.path == [] then
      if p.inum in s.files && p.slot < SLOTS then s.files[p.inum][p.slot] else 0
    else
      var a := Addr(s, Parent(p));
      if 0 < a < |s.img| && LastIndex(p) < PTRS then ReadPointer(s.img[a], LastIndex(p)) else 0
  }

  ghost predicate InRegion(a: nat) { DATA_START <= a < TOTAL_BLOCKS }

  /** Positions hold allocated data-region blocks, no two the same. */
  ghost predicate Disjoint(s: State) {
    && |s.img| == TOTAL_BLOCKS
    && (forall p :: InTree(s.files, p) && Addr(s, p) != 0 ==> InRegion(Addr(s, p)) && Addr(s, p) in s.used)
    && (forall p, q :: InTree(s.files, p) && InTree(s.files, q) && p != q && Addr(s, p) != 0 ==> Addr(s, p) != Addr(s, q))
  }

  ghost predicate IsOwned(s: State, a: nat) {
    exists p :: InTree(s.files, p) && Addr(s, p) == a
  }

  /** Filesystem-wide ownership: the trees of all inodes are disjoint, and the allocated blocks are exactly the
      metadata blocks and the blocks some tree holds. */
  ghost predicate Owns(s: State) {
    && Disjoint(s)
    && (forall a: nat :: a < DATA_START ==> a in s.used)
    && (forall a :: a in s.used && a >= DATA_START ==> IsOwned(s, a))
  }

  lemma ParentInTree(files: map<nat, Roots>, p: Pos)
    requires InTree(files, p) && p.path != []
    ensures InTree(files, Parent(p)) && !IsLeaf(Parent(p)) && LastIndex(p) < PTRS
    ensures Child(Parent(p), LastIndex(p)) == p
  {
    assert p.path == p.path[..|p.path| - 1] + [LastIndex(p)];
  }

  // ---------------------------------------------------------------- changing blocks that are no index blocks

  /** Both states agree on the inodes' pointers and on every index block. */
  ghost predicate SameIndex(s: State, t: State) {
    && t.files == s.files && |t.img| == |s.img|
    && forall p :: InTree(s.files, p) && !IsLeaf(p) && 0 < Addr(s, p) < |s.img| ==> t.img[Addr(s, p)] == s.img[Addr(s, p)]
  }

  /** Blocks that are not index blocks do not matter to the mapping. */
  lemma {:induction false} SameIndexAddr(s: State, t: State, p: Pos)
    requires SameIndex(s, t) && InTree(s.files, p)
    ensures Addr(t, p) == Addr(s, p)
    decreases |p.path|
  {
    hide ReadPointer;
    if p.path != [] {
      ParentInTree(s.files, p);
      SameIndexAddr(s, t, Parent(p));
    }
  }

  /** A state with the same index blocks and the same bitmap owns the same blocks. */
  lemma SameIndexOwns(s: State, t: State)
    requires Owns(s) && SameIndex(s, t) && t.used == s.used
    ensures Owns(t)
  {
    hide Addr, InTree;
    forall p | InTree(s.files, p) ensures Addr(t, p) == Addr(s, p) { SameIndexAddr(s, t, p); }
    forall a | a in t.used && a >= DATA_START ensures IsOwned(t, a) {
      var p :| InTree(s.files, p) && Addr(s, p) == a;
      assert Addr(t, p) == a;
    }
  }

  // ---------------------------------------------------------------- logical blocks

  const MAX_LOGICAL: nat := DIRECT + PTRS + PTRS * PTRS + PTRS * PTRS * PTRS

  /** The position of a file's logical block. */
  function PosOf(inum: nat, lb: nat): Pos {
    if lb < DIRECT then Pos(inum, lb, [])
    else
      var l1 := lb - DIRECT;
      if l1 < PTRS then Pos(inum, 12, [l1])
      else
        var l2 := l1 - PTRS;
        if l2 < PTRS * PTRS then Pos(inum, 13, [l2 / PTRS, l2 % PTRS])
        else
          var l3 := l2 - PTRS * PTRS;
          Pos(inum, 14, [l3 / (PTRS * PTRS), l3 / PTRS % PTRS, l3 % PTRS])
  }

  /** The logical block at a data position. */
  function LogicalOf(p: Pos): int
    requires IsLeaf(p) && p.slot < SLOTS
  {
    if p.slot < DIRECT then p.slot
    else if p.slot == 12 then DIRECT + p.path[0]
    else if p.slot == 13 then DIRECT + PTRS + p.path[0] * PTRS + p.path[1]
    else DIRECT + PTRS + PTRS * PTRS + p.path[0] * (PTRS * PTRS) + p.path[1] * PTRS + p.path[2]
  }

  /** Logical blocks and data positions correspond one to one. */
  lemma PosOfLogical(files: map<nat, Roots>, inum: nat, lb: nat)
    requires inum in files && lb < MAX_LOGICAL
    ensures InTree(files, PosOf(inum, lb)) && IsLeaf(PosOf(inum, lb)) && LogicalOf(PosOf(inum, lb)) == lb
  {
    if lb >= DIRECT + PTRS + PTRS * PTRS {
      var l3 := lb - DIRECT - PTRS - PTRS * PTRS;
      assert l3 / (PTRS * PTRS) == l3 / PTRS / PTRS;
      assert l3 == l3 / PTRS * PTRS + l3 % PTRS && l3 / PTRS == l3 / PTRS / PTRS * PTRS + l3 / PTRS % PTRS;
    }
  }

  lemma LogicalPosOf(files: map<nat, Roots>, p: Pos)
    requires InTree(files, p) && IsLeaf(p)
    ensures 0 <= LogicalOf(p) < MAX_LOGICAL && PosOf(p.inum, LogicalOf(p)) == p
  {
    if p.slot < DIRECT {
      assert p.path == [];
    } else if p.slot == 12 {
      assert p.path == [p.path[0]];
    } else if p.slot == 13 {
      assert p.path == [p.path[0], p.path[1]];
      var l2 := p.path[0] * PTRS + p.path[1];
      assert l2 / PTRS == p.path[0] && l2 % PTRS == p.path[1];
    } else {
      assert p.path == [p.path[0], p.path[1], p.path[2]];
      var l3 := p.path[0] * (PTRS * PTRS) + p.path[1] * PTRS + p.path[2];
      assert l3 / PTRS == p.path[0] * PTRS + p.path[1];
      assert l3 / (PTRS * PTRS) == p.path[0] && l3 % PTRS == p.path[2];
      assert (p.path[0] * PTRS + p.path[1]) % PTRS == p.path[1];
    }
  }

  /** Blocks a file of the given size spans, as a 32-bit count. */
  function BlocksForSize(size: nat): nat {
    if size == 0 then 0 else (size + BLOCK_SIZE - 1) / BLOCK_SIZE % 0x1_0000_0000
  }

  /** It is the least number of blocks that hold the size, exactly as long as that number fits 32 bits. */
  lemma BlocksForSizeIff(size: nat, n: nat)
    requires size <= n * BLOCK_SIZE && (n > 0 ==> (n - 1) * BLOCK_SIZE < size)
    ensures BlocksForSize(size) == n <==> n < 0x1_0000_0000
  {
    if n > 0 { assert (size + BLOCK_SIZE - 1) / BLOCK_SIZE == n; }
  }

  /** One pointer of the index block at address a. */
  function Follow(img: Image, a: nat, i: nat): Result<nat>
    requires i < PTRS
  {
    if a == 0 then Ok(0) else if a >= |img| then Err(OutOfRange) else Ok(ReadPointer(img[a], i))
  }

  /** The block that holds logical block lb of a file; 0 for a hole. */
  function GetBlockForOffset(img: Image, roots: Roots, lb: nat): Result<nat> {
    if lb < DIRECT then Ok(roots[lb])
    else
      var l1 := lb - DIRECT;
      if l1 < PTRS then Follow(img, roots[12], l1)
      else
        var l2 := l1 - PTRS;
        if l2 < PTRS * PTRS then
          var leaf := Follow(img, roots[13], l2 / PTRS);
          if leaf.Err? then leaf else Follow(img, leaf.value, l2 % PTRS)
        else
          var l3 := l2 - PTRS * PTRS;
          if l3 < PTRS * PTRS * PTRS then
            var mid := Follow(img, roots[14], l3 / (PTRS * PTRS));
            if mid.Err? then mid
            else
              var leaf := Follow(img, mid.value, l3 / PTRS % PTRS);
              if leaf.Err? then leaf else Follow(img, leaf.value, l3 % PTRS)
          else Err(TooBig)
  }

  lemma FollowIsAddr(s: State, p: Pos)
    requires Disjoint(s) && InTree(s.files, p) && p.path != []
    ensures Follow(s.img, Addr(s, Parent(p)), LastIndex(p)) == Ok(Addr(s, p))
  {
    hide ReadPointer;
    ParentInTree(s.files, p);
  }

  /** The lookup is the tree walk, at every level. */
  lemma GetIsAddr(s: State, inum: nat, lb: nat)
    requires Disjoint(s) && inum in s.files
    ensures GetBlockForOffset(s.img, s.files[inum], lb)
         == if lb < MAX_LOGICAL then Ok(Addr(s, PosOf(inum, lb))) else Err(TooBig)
  {
    hide Follow, Disjoint;
    if DIRECT <= lb < MAX_LOGICAL {
      var p := PosOf(inum, lb);
      PosOfLogical(s.files, inum, lb);
      FollowIsAddr(s, p);
      if p.slot > 12 {
        ParentInTree(s.files, p);
        FollowIsAddr(s, Parent(p));
      }
      if p.slot > 13 {
        ParentInTree(s.files, Parent(p));
        FollowIsAddr(s, Parent(Parent(p)));
      }
    }
  }

  // ---------------------------------------------------------------- setting one pointer

  /** t is s with the pointer at position q set to v: in the inode, or in the index block above q. */
  ghost predicate SetsPointer(s: State, t: State, q: Pos, v: nat) {
    && InTree(s.files, q) && v < TOTAL_BLOCKS && |s.img| == TOTAL_BLOCKS
    && if q.path == [] then
         t.files == s.files[q.inum := s.files[q.inum][q.slot := v]] && t.img == s.img
       else
         var a := Addr(s, Parent(q));
         0 < a < |s.img| && t.files == s.files && t.img == s.img[a := WritePointer(s.img[a], LastIndex(q), v)]
  }

  /** Nothing hangs below q in either state, and v is a block no position of s holds. */
  ghost predicate Detached(s: State, q: Pos, v: nat) {
    && |s.img| == TOTAL_BLOCKS
    && (forall i :: 0 <= i < PTRS && !IsLeaf(q) ==> Addr(s, Child(q, i)) == 0)
    && (v != 0 ==>
          && InRegion(v) && (IsLeaf(q) || s.img[v] == Zero())
          && forall p :: InTree(s.files, p) ==> Addr(s, p) != v)
  }

  lemma AddrStep(s: State, p: Pos)
    requires p.path != []
    ensures var a := Addr(s, Parent(p));
            Addr(s, p) == if 0 < a < |s.img| && LastIndex(p) < PTRS then ReadPointer(s.img[a], LastIndex(p)) else 0
  {
  }

  /** Right below the pointer that is set there is nothing, before or after. */
  lemma FrameBelow(s: State, t: State, q: Pos, v: nat, p: Pos)
    requires Disjoint(s) && SetsPointer(s, t, q, v) && Detached(s, q, v) && InTree(s.files, p) && p.path != []
    requires Parent(p) == q && Addr(t, q) == v
    ensures Addr(t, p) == Addr(s, p)
  {
    hide ReadPointer, WritePointer, Addr;
    AddrStep(s, p);
    AddrStep(t, p);
    assert p == Child(q, LastIndex(p));
    if v != 0 {
      ZeroPointer(LastIndex(p));
      if q.path != [] { ParentInTree(s.files, q); }
    }
  }

  /** Everywhere else one pointer of one index block changes. */
  lemma FrameBeside(s: State, t: State, q: Pos, v: nat, p: Pos)
    requires Disjoint(s) && SetsPointer(s, t, q, v) && InTree(s.files, p) && p.path != []
    requires Parent(p) != q && Addr(t, Parent(p)) == Addr(s, Parent(p))
    ensures Addr(t, p) == if p == q then v else Addr(s, p)
  {
    hide ReadPointer, WritePointer, Addr;
    AddrStep(s, p);
    AddrStep(t, p);
    ParentInTree(s.files, p);
    if Addr(s, Parent(p)) != 0 && q.path != [] {
      ParentInTree(s.files, q);
      PointerRoundTrip(s.img[Addr(s, Parent(q))], LastIndex(q), v, LastIndex(p));
      if Parent(p) == Parent(q) {
        assert p == q <==> LastIndex(p) == LastIndex(q);
      }
    }
  }

  /** The frame theorem at every level: setting one pointer changes the mapping at that position and nowhere else. */
  lemma {:induction false} SetPointerFrame(s: State, t: State, q: Pos, v: nat, p: Pos)
    requires Disjoint(s) && SetsPointer(s, t, q, v) && Detached(s, q, v)
    requires InTree(s.files, p)
    ensures InTree(t.files, p) && Addr(t, p) == if p == q then v else Addr(s, p)
    decreases |p.path|
  {
    hide Disjoint, Detached;
    if p.path != [] {
      hide Addr;
      ParentInTree(s.files, p);
      SetPointerFrame(s, t, q, v, Parent(p));
      if Parent(p) == q {
        FrameBelow(s, t, q, v, p);
      } else {
        FrameBeside(s, t, q, v, p);
      }
    }
  }

  lemma SetPointerTree(s: State, t: State, q: Pos, v: nat)
    requires SetsPointer(s, t, q, v)
    ensures forall p :: InTree(t.files, p) <==> InTree(s.files, p)
  {
  }

  /** Linking a free block at an empty position keeps ownership. */
  lemma LinkKeepsOwns(s: State, t: State, q: Pos, v: nat)
    requires Owns(s) && SetsPointer(s, t, q, v) && Detached(s, q, v)
    requires Addr(s, q) == 0 && v != 0 && t.used == s.used + {v}
    ensures Owns(t) && Addr(t, q) == v
  {
    hide Addr, SetsPointer, Detached, InTree;
    SetPointerTree(s, t, q, v);
    assert |t.img| == TOTAL_BLOCKS && InTree(s.files, q) && InRegion(v) by { SetsFacts(s, t, q, v); }
    forall p | InTree(t.files, p) ensures Addr(t, p) == if p == q then v else Addr(s, p) {
      SetPointerFrame(s, t, q, v, p);
    }
    forall p | InTree(s.files, p) ensures Addr(s, p) != v { SetsFacts(s, t, q, v); }
    forall a | a in t.used && a >= DATA_START ensures IsOwned(t, a) {
      if a == v {
        assert Addr(t, q) == v;
      } else {
        var p :| InTree(s.files, p) && Addr(s, p) == a;
        assert Addr(t, p) == a;
      }
    }
  }

  lemma SetsFacts(s: State, t: State, q: Pos, v: nat)
    requires SetsPointer(s, t, q, v) && Detached(s, q, v)
    ensures |t.img| == TOTAL_BLOCKS && InTree(s.files, q)
    ensures v != 0 ==> InRegion(v) && forall p :: InTree(s.files, p) ==> Addr(s, p) != v
  {
    hide Addr, WritePointer;
  }

  /** Unlinking a block with nothing below it, and freeing it, keeps ownership. */
  lemma UnlinkKeepsOwns(s: State, t: State, q: Pos)
    requires Owns(s) && SetsPointer(s, t, q, 0) && Detached(s, q, 0)
    requires Addr(s, q) != 0 && t.used == s.used - {Addr(s, q)}
    ensures Owns(t) && Addr(t, q) == 0
  {
    hide Addr, SetsPointer, Detached, InTree;
    SetPointerTree(s, t, q, 0);
    SetsFacts(s, t, q, 0);
    forall p | InTree(t.files, p) ensures Addr(t, p) == if p == q then 0 else Addr(s, p) {
      SetPointerFrame(s, t, q, 0, p);
    }
    forall a | a in t.used && a >= DATA_START ensures IsOwned(t, a) {
      var p :| InTree(s.files, p) && Addr(s, p) == a;
      assert Addr(t, p) == a;
    }
  }
}
