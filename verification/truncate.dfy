/** Giving blocks back: truncation of a file, and the single-indirect block it may empty. */
module Truncation {
  import opened Bytes
  import opened Device
  import opened Bitmaps
  import opened Allocation
  import opened BlockMap
  import opened Extents

  /** A data position of the file between logical blocks start and end. */
  predicate Cut(p: Pos, inum: nat, start: nat, end: nat) {
    p.slot < SLOTS && IsLeaf(p) && p.inum == inum && start <= LogicalOf(p) < end
  }

  /** t is s with the data blocks of the file from start to end gone and freed, and no other change. Since both
      own exactly their trees, the freed blocks are exactly the ones cut off. */
  ghost predicate Trimmed(s: State, t: State, inum: nat, start: nat, end: nat) {
    && Owns(t) && t.files.Keys == s.files.Keys && |t.img| == |s.img| == TOTAL_BLOCKS
    && (forall p :: InTree(s.files, p) ==> Addr(t, p) == if Cut(p, inum, start, end) then 0 else Addr(s, p))
    && SameContent(s, t)
  }

  /** Data blocks still in use and metadata blocks keep their content. */
  ghost predicate SameContent(s: State, t: State) {
    && |t.img| == |s.img| == TOTAL_BLOCKS
    && (forall p :: InTree(s.files, p) && IsLeaf(p) && InRegion(Addr(t, p)) ==> t.img[Addr(t, p)] == s.img[Addr(t, p)])
    && (forall a :: 0 <= a < DATA_START && a != BLOCK_BITMAP_ADDR ==> t.img[a] == s.img[a])
  }

  /** s with only the bitmap block rewritten. */
  ghost function Marked(s: State, bm: Block): State
    requires |s.img| == TOTAL_BLOCKS
  {
    State(s.files, s.img[BLOCK_BITMAP_ADDR := bm], s.used)
  }

  lemma MarkedSame(s: State, bm: Block)
    requires Owns(s)
    ensures SameIndex(s, Marked(s, bm)) && Owns(Marked(s, bm))
    ensures forall p :: InTree(s.files, p) ==> Addr(Marked(s, bm), p) == Addr(s, p)
  {
    hide Addr, InTree;
    var m := Marked(s, bm);
    assert SameIndex(s, m);
    SameIndexOwns(s, m);
    forall p | InTree(s.files, p) ensures Addr(m, p) == Addr(s, p) { SameIndexAddr(s, m, p); }
  }

  /** Freeing the block at q and clearing the pointer to it, when nothing hangs below. */
  lemma UnlinkStep(s: State, bm: Block, t: State, q: Pos)
    requires Owns(s) && InTree(s.files, q) && Addr(s, q) != 0 && t.used == s.used - {Addr(s, q)}
    requires IsLeaf(q) || forall i :: 0 <= i < PTRS ==> Addr(s, Child(q, i)) == 0
    requires SetsPointer(Marked(s, bm), t, q, 0)
    ensures Owns(t) && t.files.Keys == s.files.Keys && SameContent(s, t)
    ensures forall p :: InTree(s.files, p) ==> Addr(t, p) == if p == q then 0 else Addr(s, p)
  {
    hide Addr, InTree, SetsPointer, Owns;
    assert Disjoint(s) by { OwnsDisjoint(s); }
    var m := Marked(s, bm);
    MarkedSame(s, bm);
    forall i | 0 <= i < PTRS && !IsLeaf(q) ensures Addr(m, Child(q, i)) == 0 {
      ChildInTree(s.files, q, i);
    }
    assert Detached(m, q, 0);
    UnlinkKeepsOwns(m, t, q);
    forall p | InTree(s.files, p) ensures Addr(t, p) == if p == q then 0 else Addr(s, p) {
      assert Disjoint(m) by { OwnsDisjoint(m); }
      SetPointerFrame(m, t, q, 0, p);
    }
    UnlinkContent(s, m, t, q);
  }

  lemma ChildInTree(files: map<nat, Roots>, q: Pos, i: nat)
    requires InTree(files, q) && !IsLeaf(q) && i < PTRS
    ensures InTree(files, Child(q, i))
  {
  }

  lemma UnlinkContent(s: State, m: State, t: State, q: Pos)
    requires Owns(s) && Owns(m) && SetsPointer(m, t, q, 0) && m.files == s.files
    requires forall a :: 0 <= a < TOTAL_BLOCKS && a != BLOCK_BITMAP_ADDR ==> m.img[a] == s.img[a]
    requires forall p :: InTree(s.files, p) ==> Addr(m, p) == Addr(s, p)
    requires forall p :: InTree(s.files, p) ==> Addr(t, p) == if p == q then 0 else Addr(s, p)
    ensures SameContent(s, t) && t.files.Keys == s.files.Keys
  {
    hide Addr, WritePointer;
    if q.path != [] { ParentInTree(m.files, q); }
  }

  lemma TrimStep(s: State, t: State, bm: Block, u: State, inum: nat, start: nat, lb: nat)
    requires Trimmed(s, t, inum, start, lb) && start <= lb < MAX_LOGICAL && inum in s.files
    requires Addr(t, PosOf(inum, lb)) != 0 && u.used == t.used - {Addr(t, PosOf(inum, lb))}
    requires SetsPointer(Marked(t, bm), u, PosOf(inum, lb), 0)
    ensures Trimmed(s, u, inum, start, lb + 1)
  {
    hide Addr, InTree, SetsPointer, Owns, PosOf, LogicalOf, Zero;
    var q := PosOf(inum, lb);
    PosOfLogical(t.files, inum, lb);
    UnlinkStep(t, bm, u, q);
    forall p | InTree(s.files, p) ensures InTree(t.files, p) && (Cut(p, inum, start, lb + 1) <==> Cut(p, inum, start, lb) || p == q) {
      SameTree(s.files, t.files, p);
      CutNext(s.files, p, inum, start, lb);
    }
  }

  lemma TrimSkip(s: State, t: State, inum: nat, start: nat, lb: nat)
    requires Trimmed(s, t, inum, start, lb) && start <= lb < MAX_LOGICAL && inum in s.files
    requires Addr(t, PosOf(inum, lb)) == 0
    ensures Trimmed(s, t, inum, start, lb + 1)
  {
    hide Addr, InTree, Owns, PosOf, LogicalOf;
    PosOfLogical(s.files, inum, lb);
    forall p | InTree(s.files, p)
      ensures Addr(t, p) == if Cut(p, inum, start, lb + 1) then 0 else Addr(s, p)
    {
      CutNext(s.files, p, inum, start, lb);
    }
  }

  lemma CutNext(files: map<nat, Roots>, p: Pos, inum: nat, start: nat, lb: nat)
    requires InTree(files, p) && start <= lb < MAX_LOGICAL && inum in files
    ensures Cut(p, inum, start, lb + 1) <==> Cut(p, inum, start, lb) || p == PosOf(inum, lb)
  {
    hide PosOf, LogicalOf;
    PosOfLogical(files, inum, lb);
    PosOfInum(inum, lb);
    if IsLeaf(p) { LogicalPosOf(files, p); }
  }

  // ---------------------------------------------------------------- truncation

  /** Clears one pointer of an index block on the device. */
  method ClearIn(dev: BlockDevice, a: nat, i: nat)
    requires dev.Valid() && !dev.faulty && a < |dev.data| && i < PTRS
    modifies dev`data, dev`dirty
    ensures dev.Valid() && dev.data == old(dev.data)[a := WritePointer(old(dev.data)[a], i, 0)]
  {
    var rd := dev.ReadBlock(a);
    var w := dev.WriteBlock(a, WritePointer(rd.value, i, 0));
  }

  /** The index block right above logical block lb, when the file has one. */
  lemma ParentOf(s: State, inum: nat, lb: nat)
    requires Disjoint(s) && inum in s.files && DIRECT <= lb < MAX_LOGICAL
    ensures var p := PosOf(inum, lb);
            && p.path != [] && InTree(s.files, p) && InTree(s.files, Parent(p)) && LastIndex(p) < PTRS
            && (Addr(s, Parent(p)) != 0 ==> InRegion(Addr(s, Parent(p))))
    ensures lb < DIRECT + PTRS ==> Addr(s, Parent(PosOf(inum, lb))) == s.files[inum][12]
  {
    PosOfLogical(s.files, inum, lb);
    ParentInTree(s.files, PosOf(inum, lb));
  }

  lemma ParentOfDouble(s: State, inum: nat, l2: nat)
    requires Disjoint(s) && inum in s.files && l2 < PTRS * PTRS
    ensures Ok(Addr(s, Parent(PosOf(inum, DIRECT + PTRS + l2)))) == Follow(s.img, s.files[inum][13], l2 / PTRS)
    ensures LastIndex(PosOf(inum, DIRECT + PTRS + l2)) == l2 % PTRS
  {
    hide Follow;
    var p := PosOf(inum, DIRECT + PTRS + l2);
    ParentOf(s, inum, DIRECT + PTRS + l2);
    FollowIsAddr(s, Parent(p));
  }

  lemma ParentOfTriple(s: State, inum: nat, l3: nat)
    requires Disjoint(s) && inum in s.files && l3 < PTRS * PTRS * PTRS
    ensures var mid := Follow(s.img, s.files[inum][14], l3 / (PTRS * PTRS));
            && mid.Ok?
            && Ok(Addr(s, Parent(PosOf(inum, DIRECT + PTRS + PTRS * PTRS + l3)))) == Follow(s.img, mid.value, l3 / PTRS % PTRS)
    ensures LastIndex(PosOf(inum, DIRECT + PTRS + PTRS * PTRS + l3)) == l3 % PTRS
  {
    hide Follow;
    var lb := DIRECT + PTRS + PTRS * PTRS + l3;
    var p := PosOf(inum, lb);
    ParentOf(s, inum, lb);
    FollowIsAddr(s, Parent(p));
    ParentInTree(s.files, Parent(p));
    FollowIsAddr(s, Parent(Parent(p)));
  }

  /** Clears the pointer to logical block lb, wherever it is kept; without an index block there is nothing to clear. */
  method ClearPointerAt(dev: BlockDevice, di: DiskInode, lb: nat, ghost files: map<nat, Roots>, ghost inum: nat, ghost used: set<nat>)
    requires dev.Valid() && !dev.faulty && di.Valid() && lb < MAX_LOGICAL
    requires Disjoint(State(files[inum := di.Ptrs()], dev.data, used))
    modifies dev`data, dev`dirty, di`direct, di`indirect1, di`indirect2, di`indirect3
    ensures dev.Valid() && di.Valid()
    ensures var s := old(State(files[inum := di.Ptrs()], dev.data, used));
            var t := State(files[inum := di.Ptrs()], dev.data, used);
            if PosOf(inum, lb).path != [] && Addr(s, Parent(PosOf(inum, lb))) == 0 then t == s
            else SetsPointer(s, t, PosOf(inum, lb), 0)
  {
    hide Disjoint, Addr, InTree, WritePointer, ReadPointer, Follow;
    ghost var s := State(files[inum := di.Ptrs()], dev.data, used);
    PosOfLogical(s.files, inum, lb);
    DisjointSize(s);
    if lb < DIRECT {
      di.SetSlot(lb, 0);
      assert s.files[inum := s.files[inum][lb := 0]] == files[inum := di.Ptrs()];
      return;
    }
    ParentOf(s, inum, lb);
    var l1 := lb - DIRECT;
    if l1 < PTRS {
      if di.indirect1 == 0 { return; }
      ClearIn(dev, di.indirect1, l1);
      return;
    }
    var l2 := l1 - PTRS;
    if l2 < PTRS * PTRS {
      ParentOfDouble(s, inum, l2);
      var leaf := Follow(dev.data, di.indirect2, l2 / PTRS).value;
      if leaf == 0 { return; }
      ClearIn(dev, leaf, l2 % PTRS);
      return;
    }
    var l3 := l2 - PTRS * PTRS;
    ParentOfTriple(s, inum, l3);
    var mid := Follow(dev.data, di.indirect3, l3 / (PTRS * PTRS)).value;
    var leaf := Follow(dev.data, mid, l3 / PTRS % PTRS).value;
    if leaf == 0 { return; }
    ClearIn(dev, leaf, l3 % PTRS);
  }

  lemma DisjointSize(s: State)
    requires Disjoint(s)
    ensures |s.img| == TOTAL_BLOCKS
  {
  }

  lemma SetsKeepsMetadata(s: State, t: State, q: Pos, v: nat)
    requires Disjoint(s) && SetsPointer(s, t, q, v)
    ensures |t.img| == TOTAL_BLOCKS && forall a :: 0 <= a < DATA_START ==> t.img[a] == s.img[a]
  {
    hide Addr, WritePointer;
    if q.path != [] { ParentInTree(s.files, q); }
  }

  /** One logical block of the file is given back, if it has a block. */
  method TrimOne(alloc: Allocator, di: DiskInode, lb: nat, ghost s0: State,
                 ghost files: map<nat, Roots>, ghost inum: nat, ghost start: nat)
    returns (r: Result<()>)
    requires alloc.Valid() && di.Valid() && inum in s0.files
    requires start <= lb && Trimmed(s0, Now(alloc, di, files, inum), inum, start, Min(lb, MAX_LOGICAL))
    modifies alloc.dev`data, alloc.dev`dirty, alloc.blockBM`bits, alloc.sb`freeBlocks, di`direct, di`indirect1, di`indirect2, di`indirect3
    ensures alloc.Valid() && di.Valid()
    ensures r == if lb < MAX_LOGICAL then Ok(()) else Err(TooBig)
    ensures Trimmed(s0, Now(alloc, di, files, inum), inum, start, Min(lb + 1, MAX_LOGICAL))
  {
    hide Trimmed, Owns, Addr, InTree, PosOf, GetBlockForOffset, SetsPointer, BitmapBlock, Has;
    ghost var s := Now(alloc, di, files, inum);
    TrimmedFacts(s0, s, inum, start, Min(lb, MAX_LOGICAL));
    GetIsAddr(s, inum, lb);
    var phys := GetBlockForOffset(alloc.dev.data, di.Ptrs(), lb);
    if phys.Err? { return Err(phys.error); }
    ghost var q := PosOf(inum, lb);
    PosOfLogical(s.files, inum, lb);
    if phys.value == 0 {
      TrimSkip(s0, s, inum, start, lb);
      return Ok(());
    }
    MappedParent(s, q);
    var f := alloc.FreeBlock(phys.value);
    ghost var bm := BitmapBlock(alloc.blockBM.bits);
    ghost var mid := Marked(s, bm);
    MarkedSame(s, bm);
    assert Disjoint(mid) by { OwnsDisjoint(mid); }
    ClearPointerAt(alloc.dev, di, lb, files, inum, s.used);
    ghost var t := Now(alloc, di, files, inum);
    SetsIgnoresUsed(mid, State(t.files, t.img, s.used), t, q, 0);
    SetsKeepsMetadata(mid, t, q, 0);
    TrimStep(s0, s, bm, t, inum, start, lb);
    return Ok(());
  }

  lemma TrimmedFacts(s0: State, s: State, inum: nat, start: nat, end: nat)
    requires Trimmed(s0, s, inum, start, end)
    ensures Owns(s) && Disjoint(s) && s.files.Keys == s0.files.Keys
  {
    hide Addr, InTree;
  }

  lemma MappedParent(s: State, q: Pos)
    requires Disjoint(s) && InTree(s.files, q) && Addr(s, q) != 0
    ensures InRegion(Addr(s, q)) && Addr(s, q) in s.used
    ensures q.path != [] ==> Addr(s, Parent(q)) != 0 && InTree(s.files, Parent(q))
  {
    if q.path != [] { ParentInTree(s.files, q); }
  }

  lemma SetsIgnoresUsed(s: State, t: State, u: State, q: Pos, v: nat)
    requires SetsPointer(s, t, q, v) && u.files == t.files && u.img == t.img
    ensures SetsPointer(s, u, q, v)
  {
    hide Addr, WritePointer;
  }

  /** What truncation leaves: the cut blocks are holes, and an emptied single-indirect block may be gone too. */
  ghost predicate Truncated(s: State, t: State, inum: nat, start: nat, end: nat, pruned: bool) {
    && Owns(t) && t.files.Keys == s.files.Keys && |t.img| == |s.img| == TOTAL_BLOCKS && SameContent(s, t)
    && (forall p :: InTree(s.files, p) ==>
          Addr(t, p) == if Cut(p, inum, start, end) || (pruned && p == Pos(inum, 12, [])) then 0 else Addr(s, p))
  }

  /** Every pointer of the single-indirect block is clear. */
  ghost predicate SingleEmpty(s: State, inum: nat) {
    forall i :: 0 <= i < PTRS ==> Addr(s, Child(Pos(inum, 12, []), i)) == 0
  }

  /** Frees the single-indirect block when it has become empty. */
  method PruneIndirectBlocks(alloc: Allocator, di: DiskInode, start: nat, ghost s0: State,
                             ghost files: map<nat, Roots>, ghost inum: nat, ghost end: nat)
    returns (ghost pruned: bool)
    requires alloc.Valid() && di.Valid() && inum in s0.files
    requires Trimmed(s0, Now(alloc, di, files, inum), inum, start, end)
    modifies alloc.dev`data, alloc.dev`dirty, alloc.blockBM`bits, alloc.sb`freeBlocks, di`direct, di`indirect1, di`indirect2, di`indirect3
    ensures alloc.Valid() && di.Valid()
    ensures Truncated(s0, Now(alloc, di, files, inum), inum, start, end, pruned)
    ensures pruned <==> start <= DIRECT && old(di.indirect1) != 0 && SingleEmpty(old(Now(alloc, di, files, inum)), inum)
  {
    hide Trimmed, Owns, InTree, ReadPointer, BitmapBlock, Has, Truncated;
    ghost var s := Now(alloc, di, files, inum);
    TrimmedFacts(s0, s, inum, start, end);
    NotPruned(s0, s, inum, start, end);
    pruned := false;
    if di.indirect1 == 0 { return; }
    ghost var q := Pos(inum, 12, []);
    RootInTree(s.files, inum, 12);
    MappedParent(s, q);
    var rd := alloc.dev.ReadBlock(di.indirect1);
    var empty, i := true, 0;
    while i < PTRS && empty
      invariant 0 <= i <= PTRS
      invariant empty ==> forall j :: 0 <= j < i ==> ReadPointer(rd.value, j) == 0
      invariant !empty ==> exists j :: 0 <= j < PTRS && ReadPointer(rd.value, j) != 0
    {
      if ReadPointer(rd.value, i) != 0 { empty := false; }
      i := i + 1;
    }
    SingleEmptyIff(s, inum);
    if empty && start <= DIRECT {
      pruned := true;
      var f := alloc.FreeBlock(di.indirect1);
      ghost var bm := BitmapBlock(alloc.blockBM.bits);
      di.SetSlot(12, 0);
      ghost var t := Now(alloc, di, files, inum);
      assert t.files == s.files[inum := s.files[inum][12 := 0]];
      assert SetsPointer(Marked(s, bm), t, q, 0);
      UnlinkStep(s, bm, t, q);
      PruneStep(s0, s, t, inum, start, end);
    }
  }

  lemma RootInTree(files: map<nat, Roots>, inum: nat, slot: nat)
    requires inum in files && slot < SLOTS
    ensures InTree(files, Pos(inum, slot, []))
  {
  }

  lemma SingleEmptyIff(s: State, inum: nat)
    requires Disjoint(s) && inum in s.files && s.files[inum][12] != 0
    ensures s.files[inum][12] < |s.img|
    ensures SingleEmpty(s, inum) <==> forall i :: 0 <= i < PTRS ==> ReadPointer(s.img[s.files[inum][12]], i) == 0
  {
    hide ReadPointer;
    var q := Pos(inum, 12, []);
    RootInTree(s.files, inum, 12);
    assert InRegion(Addr(s, q));
    forall i | 0 <= i < PTRS ensures Addr(s, Child(q, i)) == ReadPointer(s.img[s.files[inum][12]], i) {
      assert Parent(Child(q, i)) == q;
    }
  }

  lemma NotPruned(s0: State, s: State, inum: nat, start: nat, end: nat)
    requires Trimmed(s0, s, inum, start, end)
    ensures Truncated(s0, s, inum, start, end, false)
  {
    hide Owns, Addr, InTree;
  }

  lemma PruneStep(s0: State, s: State, t: State, inum: nat, start: nat, end: nat)
    requires Trimmed(s0, s, inum, start, end) && inum in s0.files
    requires Owns(t) && t.files.Keys == s.files.Keys && SameContent(s, t)
    requires forall p :: InTree(s.files, p) ==> Addr(t, p) == if p == Pos(inum, 12, []) then 0 else Addr(s, p)
    ensures Truncated(s0, t, inum, start, end, true)
  {
    hide Owns, Addr, InTree;
    forall p ensures InTree(s0.files, p) <==> InTree(s.files, p) { SameTree(s0.files, s.files, p); }
  }

  /** Frees every block at or beyond logical block start, up to the file's old block count. Mappings below start
      and of other files stay; the mappings from start on become holes; exactly their blocks, and an emptied
      single-indirect block, are freed. A size beyond what the tree can address ends in an error half way. */
  method FreeBlocksFrom(alloc: Allocator, di: DiskInode, start: nat, ghost files: map<nat, Roots>, ghost inum: nat)
    returns (r: Result<()>, ghost pruned: bool)
    requires alloc.Valid() && di.Valid() && Owns(Now(alloc, di, files, inum))
    modifies alloc.dev`data, alloc.dev`dirty, alloc.blockBM`bits, alloc.sb`freeBlocks, di`direct, di`indirect1, di`indirect2, di`indirect3
    ensures alloc.Valid() && di.Valid()
    ensures r.Ok? <==> start >= BlocksForSize(di.size) || BlocksForSize(di.size) <= MAX_LOGICAL
    ensures r.Err? ==> r == Err(TooBig)
    ensures start >= BlocksForSize(di.size) ==> Now(alloc, di, files, inum) == old(Now(alloc, di, files, inum))
    ensures start < BlocksForSize(di.size) ==>
              Truncated(old(Now(alloc, di, files, inum)), Now(alloc, di, files, inum),
                        inum, start, Min(BlocksForSize(di.size), MAX_LOGICAL), pruned)
    ensures pruned <==>
              && start < BlocksForSize(di.size) <= MAX_LOGICAL && start <= DIRECT && old(di.indirect1) != 0
              && SingleCut(old(Now(alloc, di, files, inum)), inum, BlocksForSize(di.size))
  {
    hide Trimmed, Owns, Truncated, InTree, Addr, BlocksForSize, SingleCut, SingleEmpty;
    pruned := false;
    var totalBlocks := BlocksForSize(di.size);
    if start >= totalBlocks { return Ok(()), false; }
    ghost var s0 := Now(alloc, di, files, inum);
    TrimmedRefl(s0, inum, start);
    var lb := start;
    while lb < totalBlocks
      invariant start <= lb <= totalBlocks && alloc.Valid() && di.Valid()
      invariant lb == start || lb <= MAX_LOGICAL
      invariant Trimmed(s0, Now(alloc, di, files, inum), inum, start, Min(lb, MAX_LOGICAL))
    {
      r := TrimOne(alloc, di, lb, s0, files, inum, start);
      if r.Err? {
        TrimBeyond(s0, Now(alloc, di, files, inum), inum, start, lb, totalBlocks);
        return r, false;
      }
      lb := lb + 1;
    }
    EmptyAfterTrim(s0, Now(alloc, di, files, inum), inum, start, Min(totalBlocks, MAX_LOGICAL));
    pruned := PruneIndirectBlocks(alloc, di, start, s0, files, inum, Min(totalBlocks, MAX_LOGICAL));
    return Ok(()), pruned;
  }

  /** No block hangs from the single-indirect block at or beyond logical block end. */
  ghost predicate SingleCut(s: State, inum: nat, end: nat) {
    forall i :: 0 <= i < PTRS && DIRECT + i >= end ==> Addr(s, Child(Pos(inum, 12, []), i)) == 0
  }

  lemma EmptyAfterTrim(s0: State, s: State, inum: nat, start: nat, end: nat)
    requires Trimmed(s0, s, inum, start, end) && inum in s0.files
    ensures start <= DIRECT ==> (SingleEmpty(s, inum) <==> SingleCut(s0, inum, end))
    ensures s.files.Keys == s0.files.Keys && s.files[inum][12] == s0.files[inum][12]
  {
    hide Owns, SameContent;
    var q := Pos(inum, 12, []);
    assert InTree(s0.files, q) && Addr(s, q) == Addr(s0, q);
    hide Addr;
    forall i | 0 <= i < PTRS ensures Addr(s, Child(q, i)) == if start <= DIRECT + i < end then 0 else Addr(s0, Child(q, i)) {
      assert InTree(s0.files, Child(q, i)) && LogicalOf(Child(q, i)) == DIRECT + i;
    }
  }

  lemma TrimmedRefl(s: State, inum: nat, start: nat)
    requires Owns(s)
    ensures Trimmed(s, s, inum, start, Min(start, MAX_LOGICAL))
  {
    hide Addr, InTree;
  }

  lemma TrimBeyond(s0: State, s: State, inum: nat, start: nat, lb: nat, total: nat)
    requires Trimmed(s0, s, inum, start, Min(lb + 1, MAX_LOGICAL)) && MAX_LOGICAL <= lb < total
    ensures Truncated(s0, s, inum, start, Min(total, MAX_LOGICAL), false)
  {
    hide Trimmed;
    NotPruned(s0, s, inum, start, MAX_LOGICAL);
  }
}
