/** Growing and cutting trees, told by the blocks they take and give back rather than by what stays owned. */
module Growth {
  import opened Bytes
  import opened Allocation
  import opened BlockMap
  import opened Extents
  import opened Truncation

  lemma HeldIsUsed(s: State, p: Pos)
    requires Disjoint(s) && InTree(s.files, p)
    ensures Addr(s, p) != 0 ==> InRegion(Addr(s, p)) && Addr(s, p) in s.used
  {
    hide Addr, InTree;
  }

  lemma HeldOnce(s: State, p: Pos, q: Pos)
    requires Disjoint(s) && InTree(s.files, p) && InTree(s.files, q) && Addr(s, p) == Addr(s, q) && Addr(s, p) != 0
    ensures p == q
  {
    hide Addr, InTree;
  }

  lemma UsedIsHeld(s: State, a: nat) returns (p: Pos)
    requires Owns(s) && a in s.used && a >= DATA_START
    ensures InTree(s.files, p) && Addr(s, p) == a
  {
    hide Addr, InTree;
    p :| InTree(s.files, p) && Addr(s, p) == a;
  }

  // ---------------------------------------------------------------- growing

  /** A position of the tree that was empty in s and holds a block in t. */
  ghost predicate NewAt(s: State, t: State, p: Pos) { InTree(s.files, p) && Addr(s, p) == 0 && Addr(t, p) != 0 }

  /** t is s with free blocks put at empty positions above target, no block twice, and those marked used. */
  ghost predicate Extended(s: State, t: State, target: Pos) {
    && t.files.Keys == s.files.Keys && |t.img| == |s.img|
    && (forall p :: InTree(s.files, p) && (Addr(s, p) != 0 || !Above(p, target)) ==> Addr(t, p) == Addr(s, p))
    && (forall p :: NewAt(s, t, p) ==> InRegion(Addr(t, p)) && Addr(t, p) !in s.used && Addr(t, p) in t.used)
    && (forall p, q :: NewAt(s, t, p) && NewAt(s, t, q) && p != q ==> Addr(t, p) != Addr(t, q))
    && (forall a :: a in s.used ==> a in t.used)
    && (forall a :: a in t.used && a !in s.used ==> exists p :: NewAt(s, t, p) && Addr(t, p) == a)
  }

  lemma NewUsed(s: State, t: State, target: Pos, a: nat) returns (p: Pos)
    requires Owns(s) && Grown(s, t, target) && a in t.used && a !in s.used
    ensures NewAt(s, t, p) && Above(p, target) && Addr(t, p) == a
  {
    assert a >= DATA_START by { BelowIsUsed(s, a); }
    hide Addr, InTree, Zero, Above, Owns;
    p := UsedIsHeld(t, a);
    SameTree(s.files, t.files, p);
    OwnsDisjoint(s);
    HeldIsUsed(s, p);
  }

  lemma BelowIsUsed(s: State, a: nat)
    requires Owns(s) && a !in s.used
    ensures a >= DATA_START
  {
  }

  lemma NewIsFree(s: State, t: State, target: Pos, p: Pos)
    requires Owns(s) && Grown(s, t, target) && NewAt(s, t, p)
    ensures InRegion(Addr(t, p)) && Addr(t, p) !in s.used && Addr(t, p) in t.used
  {
    hide Addr, InTree, Zero, Above, Owns;
    OwnsDisjoint(t);
    SameTree(s.files, t.files, p);
    HeldIsUsed(t, p);
    if Addr(t, p) in s.used {
      var q := UsedIsHeld(s, Addr(t, p));
      SameTree(s.files, t.files, q);
      HeldOnce(t, p, q);
    }
  }

  /** What allocation on demand does to a tree. */
  lemma GrownIsExtended(s: State, t: State, target: Pos)
    requires Owns(s) && Grown(s, t, target)
    ensures Extended(s, t, target)
  {
    hide Addr, InTree, Zero, Above, Owns;
    forall p | NewAt(s, t, p) ensures InRegion(Addr(t, p)) && Addr(t, p) !in s.used && Addr(t, p) in t.used {
      NewIsFree(s, t, target, p);
    }
    OwnsDisjoint(t);
    forall p, q | NewAt(s, t, p) && NewAt(s, t, q) && p != q ensures Addr(t, p) != Addr(t, q) {
      SameTree(s.files, t.files, p);
      SameTree(s.files, t.files, q);
      if Addr(t, p) == Addr(t, q) { HeldOnce(t, p, q); }
    }
    forall a | a in t.used && a !in s.used ensures exists p :: NewAt(s, t, p) && Addr(t, p) == a {
      var p := NewUsed(s, t, target, a);
    }
  }

  /** Putting free blocks at empty positions keeps filesystem-wide ownership. */
  lemma ExtendedKeepsOwns(s: State, t: State, target: Pos)
    requires Owns(s) && Extended(s, t, target)
    ensures Owns(t)
  {
    hide Addr, InTree, Above, Owns;
    OwnsDisjoint(s);
    forall p | InTree(t.files, p)
      ensures InTree(s.files, p) && (Addr(t, p) == Addr(s, p) || NewAt(s, t, p))
      ensures Addr(t, p) != 0 ==> InRegion(Addr(t, p)) && Addr(t, p) in t.used
    {
      SameTree(s.files, t.files, p);
      HeldIsUsed(s, p);
    }
    forall p, q | InTree(t.files, p) && InTree(t.files, q) && p != q && Addr(t, p) != 0 ensures Addr(t, p) != Addr(t, q) {
      StillApart(s, t, target, p, q);
    }
    forall a: nat | a < DATA_START ensures a in t.used { OwnsLow(s, a); }
    forall a | a in t.used && a >= DATA_START ensures IsOwned(t, a) {
      if a in s.used {
        var p := UsedIsHeld(s, a);
        SameTree(s.files, t.files, p);
        assert Addr(t, p) == a;
      } else {
        var p :| NewAt(s, t, p) && Addr(t, p) == a;
        SameTree(s.files, t.files, p);
      }
    }
    OwnsIntro(t);
  }

  lemma OwnsLow(s: State, a: nat)
    requires Owns(s) && a < DATA_START
    ensures a in s.used
  {
  }

  lemma OwnsIntro(t: State)
    requires |t.img| == TOTAL_BLOCKS
    requires forall p :: InTree(t.files, p) && Addr(t, p) != 0 ==> InRegion(Addr(t, p)) && Addr(t, p) in t.used
    requires forall p, q :: InTree(t.files, p) && InTree(t.files, q) && p != q && Addr(t, p) != 0 ==> Addr(t, p) != Addr(t, q)
    requires forall a: nat :: a < DATA_START ==> a in t.used
    requires forall a :: a in t.used && a >= DATA_START ==> IsOwned(t, a)
    ensures Owns(t)
  {
    hide Addr, InTree;
  }

  lemma StillApart(s: State, t: State, target: Pos, p: Pos, q: Pos)
    requires Disjoint(s) && Extended(s, t, target) && InTree(s.files, p) && InTree(s.files, q) && p != q && Addr(t, p) != 0
    ensures Addr(t, p) != Addr(t, q)
  {
    hide Addr, InTree, Above, Disjoint;
    HeldIsUsed(s, p);
    HeldIsUsed(s, q);
    if Addr(s, p) != 0 && Addr(s, q) != 0 && Addr(s, p) == Addr(s, q) { HeldOnce(s, p, q); }
  }

  // ---------------------------------------------------------------- how many blocks growth takes

  /** The addresses on the way down to target, the first n of them. */
  ghost function OnTheWay(t: State, target: Pos, n: nat): (r: set<nat>)
    requires n <= |target.path| + 1
    ensures |r| <= n
  {
    if n == 0 then {} else OnTheWay(t, target, n - 1) + {Addr(t, Pos(target.inum, target.slot, target.path[..n - 1]))}
  }

  lemma {:induction false} OnTheWayHolds(t: State, target: Pos, n: nat, k: nat)
    requires k < n <= |target.path| + 1
    ensures Addr(t, Pos(target.inum, target.slot, target.path[..k])) in OnTheWay(t, target, n)
  {
    hide Addr;
    if k < n - 1 { OnTheWayHolds(t, target, n - 1, k); }
  }

  /** Allocation on demand takes at most one block per level. */
  lemma GrownCount(s: State, t: State, target: Pos)
    requires Owns(s) && Grown(s, t, target) && InTree(s.files, target)
    ensures s.used <= t.used && |t.used| <= |s.used| + 4
  {
    hide Addr, Owns, Zero;
    var way := OnTheWay(t, target, |target.path| + 1);
    forall a | a in t.used ensures a in s.used + way {
      if a !in s.used {
        var p := NewUsed(s, t, target, a);
        OnTheWayHolds(t, target, |target.path| + 1, |p.path|);
        assert p == Pos(target.inum, target.slot, target.path[..|p.path|]);
      }
    }
    SubsetCount(t.used, s.used + way);
    assert |s.used + way| <= |s.used| + |way|;
  }

  lemma {:induction false} SubsetCount(a: set<nat>, b: set<nat>)
    requires a <= b
    ensures |a| <= |b|
  {
    if a != {} {
      var x :| x in a;
      SubsetCount(a - {x}, b - {x});
    }
  }

  // ---------------------------------------------------------------- cutting

  /** A position whose block truncation gives back. */
  ghost predicate CutAt(p: Pos, inum: nat, start: nat, end: nat, pruned: bool) {
    Cut(p, inum, start, end) || (pruned && p == Pos(inum, 12, []))
  }

  /** t is s with the blocks at the cut positions gone and free, and nothing below an emptied index block. */
  ghost predicate Shortened(s: State, t: State, inum: nat, start: nat, end: nat, pruned: bool) {
    && t.files.Keys == s.files.Keys && |t.img| == |s.img|
    && (forall p :: InTree(s.files, p) ==> Addr(t, p) == if CutAt(p, inum, start, end, pruned) then 0 else Addr(s, p))
    && (forall a :: a in t.used <==> a in s.used && !GivenBack(s, inum, start, end, pruned, a))
  }

  ghost predicate GivenBack(s: State, inum: nat, start: nat, end: nat, pruned: bool, a: nat) {
    a != 0 && exists p :: InTree(s.files, p) && CutAt(p, inum, start, end, pruned) && Addr(s, p) == a
  }

  /** What truncation does to a tree. */
  lemma TruncatedIsShortened(s: State, t: State, inum: nat, start: nat, end: nat, pruned: bool)
    requires Owns(s) && Truncated(s, t, inum, start, end, pruned)
    ensures Shortened(s, t, inum, start, end, pruned)
  {
    hide Addr, InTree, Owns, Cut;
    forall a ensures a in t.used <==> a in s.used && !GivenBack(s, inum, start, end, pruned, a) {
      if a < DATA_START && a >= 0 {
        LowStays(s, t, inum, start, end, pruned, a);
      } else if a in t.used {
        UsedAfterCut(s, t, inum, start, end, pruned, a);
      } else if a in s.used {
        UsedBeforeCut(s, t, inum, start, end, pruned, a);
      }
    }
  }

  lemma LowStays(s: State, t: State, inum: nat, start: nat, end: nat, pruned: bool, a: nat)
    requires Owns(s) && Owns(t) && a < DATA_START
    ensures a in s.used && a in t.used && !GivenBack(s, inum, start, end, pruned, a)
  {
    hide Addr, InTree, Cut;
  }

  lemma UsedAfterCut(s: State, t: State, inum: nat, start: nat, end: nat, pruned: bool, a: nat)
    requires Owns(s) && Truncated(s, t, inum, start, end, pruned) && a in t.used && a >= DATA_START
    ensures a in s.used && !GivenBack(s, inum, start, end, pruned, a)
  {
    hide Addr, InTree, Owns, Cut;
    OwnsDisjoint(s);
    var p := UsedIsHeld(t, a);
    SameTree(s.files, t.files, p);
    HeldIsUsed(s, p);
    forall q | InTree(s.files, q) && CutAt(q, inum, start, end, pruned) ensures Addr(s, q) != a {
      if Addr(s, q) == a { HeldOnce(s, p, q); }
    }
  }

  lemma UsedBeforeCut(s: State, t: State, inum: nat, start: nat, end: nat, pruned: bool, a: nat)
    requires Owns(s) && Truncated(s, t, inum, start, end, pruned) && a in s.used && a !in t.used && a >= DATA_START
    ensures GivenBack(s, inum, start, end, pruned, a)
  {
    hide Addr, InTree, Owns, Cut;
    OwnsDisjoint(t);
    var p := UsedIsHeld(s, a);
    SameTree(s.files, t.files, p);
    HeldIsUsed(t, p);
  }

  /** Giving back exactly the blocks at the cut positions keeps filesystem-wide ownership. */
  lemma ShortenedKeepsOwns(s: State, t: State, inum: nat, start: nat, end: nat, pruned: bool)
    requires Owns(s) && Shortened(s, t, inum, start, end, pruned)
    ensures Owns(t)
  {
    hide Addr, InTree, Owns, Cut;
    OwnsDisjoint(s);
    forall p | InTree(t.files, p)
      ensures InTree(s.files, p) && (Addr(t, p) != 0 ==> Addr(t, p) == Addr(s, p) && InRegion(Addr(t, p)) && Addr(t, p) in t.used)
    {
      SameTree(s.files, t.files, p);
      if Addr(t, p) != 0 { HeldStays(s, t, inum, start, end, pruned, p); }
    }
    forall p, q | InTree(t.files, p) && InTree(t.files, q) && p != q && Addr(t, p) != 0 ensures Addr(t, p) != Addr(t, q) {
      if Addr(t, p) == Addr(t, q) { HeldOnce(s, p, q); }
    }
    forall a: nat | a < DATA_START ensures a in t.used { LowNotCut(s, t, inum, start, end, pruned, a); }
    forall a | a in t.used && a >= DATA_START ensures IsOwned(t, a) {
      var p := UsedIsHeld(s, a);
      SameTree(s.files, t.files, p);
      assert !GivenBack(s, inum, start, end, pruned, a);
      assert Addr(t, p) == a;
    }
    OwnsIntro(t);
  }

  lemma HeldStays(s: State, t: State, inum: nat, start: nat, end: nat, pruned: bool, p: Pos)
    requires Disjoint(s) && Shortened(s, t, inum, start, end, pruned) && InTree(s.files, p) && Addr(t, p) != 0
    ensures Addr(t, p) == Addr(s, p) && InRegion(Addr(t, p)) && Addr(t, p) in t.used
  {
    hide Addr, InTree, Disjoint, Cut;
    HeldIsUsed(s, p);
    forall q | InTree(s.files, q) && CutAt(q, inum, start, end, pruned) ensures Addr(s, q) != Addr(s, p) {
      if Addr(s, q) == Addr(s, p) { HeldOnce(s, p, q); }
    }
  }

  lemma LowNotCut(s: State, t: State, inum: nat, start: nat, end: nat, pruned: bool, a: nat)
    requires Owns(s) && Shortened(s, t, inum, start, end, pruned) && a < DATA_START
    ensures a in t.used
  {
    hide Addr, InTree, Cut;
    assert a in s.used;
  }
}
