/** A directory across its blocks: the entries it lists, and how a change of one block shows in them. */
module DirState {
  import opened Bytes
  import opened Allocation
  import opened BlockMap
  import opened Extents
  import opened DirFormat
  import opened DirMaps

  /** The content of a logical block; a hole counts as zeros, which hold no entry. */
  function BlockOf(s: State, inum: nat, lb: nat): Block {
    var a := Addr(s, PosOf(inum, lb));
    if 0 < a < |s.img| then s.img[a] else Zero()
  }

  /** The live entries of the first n blocks of a directory, in order. */
  function Entries(s: State, inum: nat, n: nat): seq<Entry> {
    if n == 0 then [] else Entries(s, inum, n - 1) + Listing(BlockOf(s, inum, n - 1))
  }

  ghost predicate DirTiled(s: State, inum: nat, n: nat) {
    forall lb: nat :: lb < n ==> Tiled(BlockOf(s, inum, lb))
  }

  /** No block of the file lies at or beyond logical block n. */
  ghost predicate NoTail(s: State, inum: nat, n: nat) {
    forall lb: nat :: n <= lb < MAX_LOGICAL ==> Addr(s, PosOf(inum, lb)) == 0
  }

  /** t is s with one block of one file holding new content; every other block of every file is the same. */
  ghost predicate OneBlock(s: State, t: State, inum: nat, lb: nat, blk: Block) {
    && t.files.Keys == s.files.Keys && inum in s.files
    && (forall f, l: nat :: f in s.files && l < MAX_LOGICAL ==>
         BlockOf(t, f, l) == if f == inum && l == lb then blk else BlockOf(s, f, l))
    && (forall f, l: nat :: f in s.files && l < MAX_LOGICAL && !(f == inum && l == lb) ==>
         Addr(t, PosOf(f, l)) == Addr(s, PosOf(f, l)))
  }

  ghost predicate SameBlocks(s: State, t: State) {
    && t.files.Keys == s.files.Keys
    && (forall f, l: nat :: f in s.files && l < MAX_LOGICAL ==> BlockOf(t, f, l) == BlockOf(s, f, l))
    && (forall f, l: nat :: f in s.files && l < MAX_LOGICAL ==> Addr(t, PosOf(f, l)) == Addr(s, PosOf(f, l)))
  }

  // ---------------------------------------------------------------- entries

  lemma {:induction false} SameEntries(s: State, t: State, inum: nat, n: nat)
    requires forall l: nat :: l < n ==> BlockOf(t, inum, l) == BlockOf(s, inum, l)
    ensures Entries(t, inum, n) == Entries(s, inum, n)
  {
    hide BlockOf, Listing;
    if n > 0 { SameEntries(s, t, inum, n - 1); }
  }

  /** The entries around block lb, which a change of that block leaves alone. */
  lemma {:induction false} EntriesAround(s: State, t: State, inum: nat, lb: nat, n: nat) returns (y: seq<Entry>)
    requires lb < n && forall l: nat :: l < n && l != lb ==> BlockOf(t, inum, l) == BlockOf(s, inum, l)
    ensures Entries(s, inum, n) == Entries(s, inum, lb) + Listing(BlockOf(s, inum, lb)) + y
    ensures Entries(t, inum, n) == Entries(s, inum, lb) + Listing(BlockOf(t, inum, lb)) + y
    decreases n
  {
    hide BlockOf, Listing;
    if n == lb + 1 {
      SameEntries(s, t, inum, lb);
      y := [];
    } else {
      var z := EntriesAround(s, t, inum, lb, n - 1);
      y := z + Listing(BlockOf(s, inum, n - 1));
    }
  }

  /** One block changed by an insertion: the directory's listing changes by that insertion. */
  lemma InsertInBlock(s: State, t: State, inum: nat, lb: nat, blk: Block, n: nat, e: Entry)
    requires OneBlock(s, t, inum, lb, blk) && lb < n <= MAX_LOGICAL
    requires Inserted(Listing(BlockOf(s, inum, lb)), Listing(blk), e)
    ensures Inserted(Entries(s, inum, n), Entries(t, inum, n), e)
  {
    hide BlockOf, Listing, Inserted, Entries;
    var y := EntriesAround(s, t, inum, lb, n);
    InsertedInContext(Entries(s, inum, lb), Listing(BlockOf(s, inum, lb)), Listing(blk), y, e);
  }

  lemma RemoveInBlock(s: State, t: State, inum: nat, lb: nat, blk: Block, n: nat, name: Name)
    requires OneBlock(s, t, inum, lb, blk) && lb < n <= MAX_LOGICAL
    requires Removed(Listing(BlockOf(s, inum, lb)), Listing(blk), name)
    requires forall e :: e in Entries(s, inum, lb) ==> e.name != name
    ensures Removed(Entries(s, inum, n), Entries(t, inum, n), name)
  {
    hide BlockOf, Listing, Removed, Entries;
    var y := EntriesAround(s, t, inum, lb, n);
    RemovedInContext(Entries(s, inum, lb), Listing(BlockOf(s, inum, lb)), Listing(blk), y, name);
  }

  lemma OtherEntries(s: State, t: State, inum: nat, lb: nat, blk: Block, f: nat, n: nat)
    requires OneBlock(s, t, inum, lb, blk) && f in s.files && n <= MAX_LOGICAL && (f != inum || n <= lb)
    ensures Entries(t, f, n) == Entries(s, f, n)
  {
    hide BlockOf, Listing;
    SameEntries(s, t, f, n);
  }

  // ---------------------------------------------------------------- changes of the state

  /** Overwriting the data block behind a mapped logical block. */
  lemma OverwriteBlock(s: State, inum: nat, lb: nat, blk: Block)
    requires Owns(s) && inum in s.files && lb < MAX_LOGICAL && Addr(s, PosOf(inum, lb)) != 0
    ensures |s.img| == TOTAL_BLOCKS && InRegion(Addr(s, PosOf(inum, lb)))
    ensures var u := State(s.files, s.img[Addr(s, PosOf(inum, lb)) := blk], s.used);
            Owns(u) && OneBlock(s, u, inum, lb, blk) && Addr(u, PosOf(inum, lb)) == Addr(s, PosOf(inum, lb))
  {
    hide Addr, PosOf, Owns, InTree;
    var p := PosOf(inum, lb);
    assert Disjoint(s) by { OwnsDisjoint(s); }
    PosOfLogical(s.files, inum, lb);
    var u := State(s.files, s.img[Addr(s, p) := blk], s.used);
    assert SameIndex(s, u);
    SameIndexOwns(s, u);
    SameIndexAddr(s, u, p);
    forall f, l: nat | f in s.files && l < MAX_LOGICAL
      ensures Addr(u, PosOf(f, l)) == Addr(s, PosOf(f, l))
      ensures BlockOf(u, f, l) == if f == inum && l == lb then blk else BlockOf(s, f, l)
    {
      PosOfLogical(s.files, f, l);
      SameIndexAddr(s, u, PosOf(f, l));
      PosOfDistinct(f, l, inum, lb);
    }
  }

  lemma PosOfDistinct(f: nat, l: nat, g: nat, m: nat)
    requires l < MAX_LOGICAL && m < MAX_LOGICAL
    ensures PosOf(f, l) == PosOf(g, m) <==> f == g && l == m
  {
    hide PosOf;
    var roots: Roots := seq(SLOTS, _ => 0);
    var files := map[f := roots, g := roots];
    PosOfLogical(files, f, l);
    PosOfLogical(files, g, m);
    PosOfInum(f, l);
    PosOfInum(g, m);
  }

  /** Taking a free block and filling it, before anything refers to it, changes nothing any file holds. */
  lemma FillFreeBlock(s: State, bm: Block, v: nat, blk: Block)
    requires Owns(s) && InRegion(v) && v !in s.used
    ensures |s.img| == TOTAL_BLOCKS
    ensures var u := State(s.files, s.img[BLOCK_BITMAP_ADDR := bm][v := blk], s.used);
            Owns(u) && SameBlocks(s, u) && forall p :: InTree(s.files, p) ==> Addr(u, p) == Addr(s, p)
  {
    hide Addr, PosOf, Owns, InTree;
    assert Disjoint(s) by { OwnsDisjoint(s); }
    var u := State(s.files, s.img[BLOCK_BITMAP_ADDR := bm][v := blk], s.used);
    assert SameIndex(s, u);
    SameIndexOwns(s, u);
    forall p | InTree(s.files, p) ensures Addr(u, p) == Addr(s, p) { SameIndexAddr(s, u, p); }
    forall f, l: nat | f in s.files && l < MAX_LOGICAL
      ensures Addr(u, PosOf(f, l)) == Addr(s, PosOf(f, l)) && BlockOf(u, f, l) == BlockOf(s, f, l)
    {
      PosOfLogical(s.files, f, l);
    }
  }

  /** Linking a filled block at a hole makes its content the content of that logical block. */
  lemma LinkFilled(s: State, t: State, inum: nat, lb: nat, v: nat)
    requires Owns(s) && inum in s.files && lb < MAX_LOGICAL && Addr(s, PosOf(inum, lb)) == 0
    requires InRegion(v) && v !in s.used && t.used == s.used + {v} && SetsPointer(s, t, PosOf(inum, lb), v)
    ensures |s.img| == TOTAL_BLOCKS && Owns(t) && OneBlock(s, t, inum, lb, s.img[v]) && Addr(t, PosOf(inum, lb)) == v
  {
    hide Addr, PosOf, Owns, InTree, SetsPointer;
    var q := PosOf(inum, lb);
    assert Disjoint(s) by { OwnsDisjoint(s); }
    PosOfLogical(s.files, inum, lb);
    assert Detached(s, q, v);
    LinkKeepsOwns(s, t, q, v);
    LinkImage(s, t, q, v);
    forall f, l: nat | f in s.files && l < MAX_LOGICAL
      ensures Addr(t, PosOf(f, l)) == if f == inum && l == lb then v else Addr(s, PosOf(f, l))
      ensures BlockOf(t, f, l) == if f == inum && l == lb then s.img[v] else BlockOf(s, f, l)
    {
      PosOfLogical(s.files, f, l);
      SetPointerFrame(s, t, q, v, PosOf(f, l));
      PosOfDistinct(f, l, inum, lb);
    }
  }

  /** Setting a pointer changes no block but an index block. */
  lemma LinkImage(s: State, t: State, q: Pos, v: nat)
    requires Owns(s) && SetsPointer(s, t, q, v) && v !in s.used && v < TOTAL_BLOCKS
    ensures |s.img| == |t.img| == TOTAL_BLOCKS && t.files.Keys == s.files.Keys && t.img[v] == s.img[v]
    ensures forall p :: InTree(s.files, p) && IsLeaf(p) && 0 < Addr(s, p) < TOTAL_BLOCKS ==> t.img[Addr(s, p)] == s.img[Addr(s, p)]
  {
    hide Addr, WritePointer;
    if q.path != [] {
      ParentInTree(s.files, q);
    }
  }

  /** Growing index blocks towards a data position that stays empty changes nothing any file holds. */
  lemma GrownSameBlocks(s: State, t: State, inum: nat, lb: nat)
    requires Owns(s) && inum in s.files && lb < MAX_LOGICAL
    requires Grown(s, t, PosOf(inum, lb)) && Addr(t, PosOf(inum, lb)) == Addr(s, PosOf(inum, lb))
    ensures Owns(t) && SameBlocks(s, t)
  {
    hide Addr, PosOf, Owns, InTree, Above, Zero;
    PosOfLogical(s.files, inum, lb);
    assert Disjoint(s) && Disjoint(t) by { OwnsDisjoint(s); OwnsDisjoint(t); }
    forall f, l: nat | f in s.files && l < MAX_LOGICAL
      ensures Addr(t, PosOf(f, l)) == Addr(s, PosOf(f, l)) && BlockOf(t, f, l) == BlockOf(s, f, l)
    {
      PosOfLogical(s.files, f, l);
      LeafAbove(PosOf(f, l), PosOf(inum, lb));
    }
  }

  lemma OneBlockAfterSame(s: State, t: State, u: State, inum: nat, lb: nat, blk: Block)
    requires SameBlocks(s, t) && OneBlock(t, u, inum, lb, blk)
    ensures OneBlock(s, u, inum, lb, blk)
  {
    hide Addr, PosOf, BlockOf;
  }
}
