/** Filesystem-wide ownership over runs: making, growing, filling, resizing and freeing files, in any order. */
module VolumeRuns {
  import opened Bytes
  import opened Allocation
  import opened BlockMap
  import opened Extents
  import opened Truncation
  import opened Release
  import opened Growth

  /** What an inode records besides its block pointers. */
  datatype Info = Info(size: nat, isDir: bool)

  /** The block trees of all inodes, and what the inodes record. */
  datatype Vol = Vol(blocks: State, infos: map<nat, Info>)

  datatype BlockOp =
    | Make(inum: nat, isDir: bool)
    | Grow(inum: nat, lb: nat)
    | Fill(inum: nat, lb: nat)
    | Resize(inum: nat, size: nat)
    | Free(inum: nat)

  /** A formatted volume: the metadata blocks are used, no inode has a tree yet. */
  ghost predicate Formatted(v: Vol) {
    && v.blocks.files == map[] && |v.blocks.img| == TOTAL_BLOCKS && v.blocks.used == Below(DATA_START)
    && v.infos == map[]
  }

  /** Resizing can be carried through: the old size lies within what the tree can address, or no block goes. */
  predicate CanResize(cur: nat, size: nat) {
    size >= cur || BlocksForSize(size) >= BlocksForSize(cur) || BlocksForSize(cur) <= MAX_LOGICAL
  }

  /** Cutting from start on empties the single-indirect block, which is given back too. */
  ghost predicate Prunes(s: State, inum: nat, start: nat, end: nat) {
    end <= MAX_LOGICAL && start <= DIRECT && Addr(s, Pos(inum, 12, [])) != 0 && SingleCut(s, inum, end)
  }

  /** What resizing does to the trees. */
  ghost predicate Resized(s: State, t: State, inum: nat, cur: nat, size: nat) {
    var start, end := BlocksForSize(size), BlocksForSize(cur);
    if size < cur && start < end then Shortened(s, t, inum, start, Min(end, MAX_LOGICAL), Prunes(s, inum, start, end)) else t == s
  }

  /** What freeing an inode does: its tree is given back, its pointers are gone, only metadata blocks change. */
  ghost predicate Released(s: State, t: State, inum: nat) {
    && t.files == s.files - {inum} && |t.img| == |s.img|
    && (forall a :: DATA_START <= a < TOTAL_BLOCKS && a < |s.img| ==> t.img[a] == s.img[a])
    && t.used == s.used - SlotBlocks(s, inum, SLOTS)
  }

  /** One operation, told by the pointers set and cleared and the blocks taken and given back. Operations on an
      inode that does not exist change nothing. */
  ghost predicate Step(v: Vol, op: BlockOp, w: Vol) {
    if op.Make? then
      if op.inum in v.blocks.files then w == v
      else
        && w.blocks == State(v.blocks.files[op.inum := seq(SLOTS, _ => 0)], v.blocks.img, v.blocks.used)
        && w.infos == v.infos[op.inum := Info(0, op.isDir)]
    else if op.inum !in v.blocks.files || op.inum !in v.infos then w == v
    else match op
      case Grow(i, lb) =>
        w.infos == v.infos
        && if lb < MAX_LOGICAL then Extended(v.blocks, w.blocks, PosOf(i, lb)) else w.blocks == v.blocks
      case Fill(i, lb) =>
        w.infos == v.infos && SameIndex(v.blocks, w.blocks) && w.blocks.used == v.blocks.used
      case Resize(i, size) =>
        if v.infos[i].isDir then w == v
        else
          && Resized(v.blocks, w.blocks, i, v.infos[i].size, size)
          && w.infos == if CanResize(v.infos[i].size, size) then v.infos[i := Info(size, false)] else v.infos
      case Free(i) =>
        Released(v.blocks, w.blocks, i) && w.infos == v.infos - {i}
  }

  lemma FormattedOwns(v: Vol)
    requires Formatted(v)
    ensures Owns(v.blocks)
  {
    hide Below;
    EmptyOwns(v.blocks);
  }

  /** Every operation keeps ownership. */
  lemma StepKeepsOwns(v: Vol, op: BlockOp, w: Vol)
    requires Owns(v.blocks) && Step(v, op, w)
    ensures Owns(w.blocks)
  {
    hide Owns, Extended, Shortened, SameIndex, Prunes, Addr, BlocksForSize, PosOf, SlotBlocks;
    var s, t := v.blocks, w.blocks;
    if op.Make? {
      if op.inum !in s.files { EmptyFileOwns(s, op.inum, seq(SLOTS, _ => 0)); }
    } else if op.inum in s.files && op.inum in v.infos {
      match op
      case Grow(i, lb) => if lb < MAX_LOGICAL { ExtendedKeepsOwns(s, t, PosOf(i, lb)); }
      case Fill(i, lb) => SameIndexOwns(s, t);
      case Resize(i, size) => ResizeKeepsOwns(v, w, i, size);
      case Free(i) => ReleaseKeepsOwns(s, t, i);
    }
  }

  lemma ReleaseKeepsOwns(s: State, t: State, inum: nat)
    requires Owns(s) && inum in s.files && Released(s, t, inum)
    ensures Owns(t)
  {
    assert |s.img| == TOTAL_BLOCKS by { OwnsDisjoint(s); }
    hide Owns, SlotBlocks;
    DropKeepsOwns(s, t, inum);
  }

  lemma ResizeKeepsOwns(v: Vol, w: Vol, i: nat, size: nat)
    requires Owns(v.blocks) && i in v.blocks.files && i in v.infos && Step(v, Resize(i, size), w)
    ensures Owns(w.blocks)
  {
    hide Owns, Shortened, Prunes, BlocksForSize;
    var start, end := BlocksForSize(size), BlocksForSize(v.infos[i].size);
    if !v.infos[i].isDir && size < v.infos[i].size && start < end {
      ShortenedKeepsOwns(v.blocks, w.blocks, i, start, Min(end, MAX_LOGICAL), Prunes(v.blocks, i, start, end));
    }
  }

  // ---------------------------------------------------------------- runs

  ghost predicate IsRun(vs: seq<Vol>, ops: seq<BlockOp>) {
    && |vs| == |ops| + 1 && Formatted(vs[0])
    && forall i :: 0 <= i < |ops| ==> Step(vs[i], ops[i], vs[i + 1])
  }

  /** In every state of every run the trees of all inodes are disjoint, and the blocks marked used are exactly the
      metadata blocks and the blocks of the trees. */
  lemma {:induction false} RunOwns(vs: seq<Vol>, ops: seq<BlockOp>, n: nat)
    requires IsRun(vs, ops) && n <= |ops|
    ensures Owns(vs[n].blocks)
  {
    hide Owns, Step, Formatted;
    if n == 0 {
      FormattedOwns(vs[0]);
    } else {
      RunOwns(vs, ops, n - 1);
      StepKeepsOwns(vs[n - 1], ops[n - 1], vs[n]);
    }
  }

  /** So a block two positions hold is one position, and a block in no tree is free, in every state of every run. */
  lemma RunNeverShares(vs: seq<Vol>, ops: seq<BlockOp>, n: nat, p: Pos, q: Pos, a: nat)
    requires IsRun(vs, ops) && n <= |ops|
    ensures var s := vs[n].blocks;
            && (InTree(s.files, p) && InTree(s.files, q) && Addr(s, p) == Addr(s, q) && Addr(s, p) != 0 ==> p == q)
            && (a in s.used <==> a < DATA_START || exists x :: InTree(s.files, x) && Addr(s, x) == a)
  {
    hide IsRun, Addr, InTree;
    assert 0 <= n < |vs| by { RunLength(vs, ops); }
    RunOwns(vs, ops, n);
    var s := vs[n].blocks;
    if a >= DATA_START {
      assert a in s.used ==> IsOwned(s, a);
      assert a != 0;
    }
  }

  lemma RunLength(vs: seq<Vol>, ops: seq<BlockOp>)
    requires IsRun(vs, ops)
    ensures |vs| == |ops| + 1
  {
  }

  // ---------------------------------------------------------------- files without blocks

  lemma EmptyOwns(s: State)
    requires s.files == map[] && |s.img| == TOTAL_BLOCKS && s.used == Below(DATA_START)
    ensures Owns(s)
  {
    hide Addr, InTree, Below;
    NothingInTree(s.files);
  }

  lemma NothingInTree(files: map<nat, Roots>)
    requires files == map[]
    ensures forall p :: !InTree(files, p)
  {
  }

  /** A file without blocks holds none. */
  lemma EmptyFileOwns(s: State, inum: nat, roots: Roots)
    requires Owns(s) && inum !in s.files && roots == seq(SLOTS, _ => 0)
    ensures Owns(State(s.files[inum := roots], s.img, s.used))
  {
    hide Owns, InTree;
    var t := State(s.files[inum := roots], s.img, s.used);
    forall p | InTree(t.files, p)
      ensures if p.inum == inum then Addr(t, p) == 0 else InTree(s.files, p) && Addr(t, p) == Addr(s, p)
    {
      NewFileAddr(s, t, inum, p);
    }
    hide Addr;
    OwnsMore(s, t, inum);
  }

  lemma {:induction false} NewFileAddr(s: State, t: State, inum: nat, p: Pos)
    requires inum !in s.files && inum in t.files && t.files == s.files[inum := t.files[inum]] && t.img == s.img
    requires t.files[inum] == seq(SLOTS, _ => 0) && InTree(t.files, p)
    ensures if p.inum == inum then Addr(t, p) == 0 else InTree(s.files, p) && Addr(t, p) == Addr(s, p)
    decreases |p.path|
  {
    hide ReadPointer;
    if p.path != [] {
      ParentInTree(t.files, p);
      NewFileAddr(s, t, inum, Parent(p));
    }
  }

  lemma OwnsMore(s: State, t: State, inum: nat)
    requires Owns(s) && t.img == s.img && t.used == s.used
    requires forall p :: InTree(t.files, p) ==> if p.inum == inum then Addr(t, p) == 0 else InTree(s.files, p) && Addr(t, p) == Addr(s, p)
    requires inum !in s.files && t.files.Keys == s.files.Keys + {inum}
    ensures Owns(t)
  {
    forall p | InTree(s.files, p) ensures InTree(t.files, p) && p.inum != inum {}
    hide Addr, InTree;
    forall a | a in t.used && a >= DATA_START ensures IsOwned(t, a) {
      var p :| InTree(s.files, p) && Addr(s, p) == a;
      assert Addr(t, p) == a;
    }
  }
}
