/** What a path leads to, said without the resolver's walk: chains of directory entries, and the name space. */
module PathNames {
  import opened Bytes
  import opened DirFormat
  import opened DirMaps
  import opened DirRead
  import opened PathResolution
  import Names
  import Namespaces

  /** Directory d has an entry x for inode i. */
  predicate Entry(w: World, d: nat, x: Path, i: nat) { d in w && w[d].Directory? && x in w[d].entries && w[d].entries[x].ino == i }

  /** Each inode of the chain is the one that the next name leads to, and no link is met. */
  ghost predicate Chain(w: World, c: seq<nat>, names: seq<Path>) {
    |c| == |names| + 1 && forall k: nat :: k < |names| ==> Hop(w, c, names, k)
  }

  predicate Hop(w: World, c: seq<nat>, names: seq<Path>, k: nat)
    requires k < |names| && k + 1 < |c|
  {
    Entry(w, c[k], names[k], c[k + 1]) && c[k + 1] in w && (w[c[k + 1]].Directory? || w[c[k + 1]].Other?)
  }

  // ---------------------------------------------------------------- the walk goes along the chain

  lemma {:induction false} RunChain(w: World, c: seq<nat>, names: seq<Path>, links: nat, k: nat)
    requires k < |c| <= |names| + 1 && Chain(w, c, names[..|c| - 1])
    ensures Run(w, At(c[0], names, links), k) == At(c[k], names[k..], links)
  {
    hide Next;
    if k == 0 {
      assert names[0..] == names;
    } else {
      RunChain(w, c, names, links, k - 1);
      var front := names[..|c| - 1];
      assert Hop(w, c, front, k - 1);
      assert names[k - 1..] == [names[k - 1]] + names[k..];
      NextCases(w, c[k - 1], names[k - 1], names[k..], links);
    }
  }

  /** A walk and what it has become after some steps have the same verdict, as long as no link was followed. */
  lemma SameVerdict(w: World, a: Walk, m: nat, r: Result<nat>)
    requires forall j :: 0 <= j < m ==> Run(w, a, j).At? && Run(w, a, j).links <= MAX_SYMLINK_DEPTH
    ensures Verdict(w, a, r) <==> Verdict(w, Run(w, a, m), r)
  {
    hide Next, Run;
    var b := Run(w, a, m);
    if Verdict(w, b, r) {
      var n: nat :| VerdictAt(w, b, r, n);
      RunSplit(w, a, m, n);
      assert VerdictAt(w, a, r, m + n);
    }
    if Verdict(w, a, r) {
      var n: nat :| VerdictAt(w, a, r, n);
      assert n >= m;
      RunSplit(w, a, m, n - m);
      assert VerdictAt(w, b, r, n - m);
    }
  }

  lemma AlongChain(w: World, c: seq<nat>, names: seq<Path>, links: nat, r: Result<nat>)
    requires 0 < |c| <= |names| + 1 && Chain(w, c, names[..|c| - 1]) && links <= MAX_SYMLINK_DEPTH
    ensures Verdict(w, At(c[0], names, links), r) <==> Verdict(w, At(c[|c| - 1], names[|c| - 1..], links), r)
  {
    hide Next, Run, Chain, Verdict;
    var a := At(c[0], names, links);
    forall j | 0 <= j < |c| ensures Run(w, a, j) == At(c[j], names[j..], links) { RunChain(w, c, names, links, j); }
    SameVerdict(w, a, |c| - 1, r);
  }

  /** A walk that ends at its next step has that end for its verdict. */
  lemma HaltVerdict(w: World, a: Walk, r: Result<nat>)
    requires a.At? && a.links <= MAX_SYMLINK_DEPTH && Next(w, a).Halt? && Next(w, a).links == a.links && Verdict(w, a, r)
    requires Next(w, a).result != Err(Loop)
    ensures r == Next(w, a).result
  {
    hide Next;
    assert Run(w, a, 0) == a;
    assert Run(w, a, 1) == Next(w, a);
    VerdictExact(w, a, r, 1);
  }

  // ---------------------------------------------------------------- chains decide the result

  /** Where the walk stands at the end of a chain, and what the result is unless a link comes next. */
  function ChainEnd(w: World, cur: nat, rest: seq<Path>): (e: Result<nat>)
    ensures e != Err(Loop)
  {
    if cur !in w then Err(InvalidArg)
    else if rest == [] then Ok(cur)
    else if !w[cur].Directory? then Err(NotDir)
    else if rest[0] !in w[cur].entries then Err(NotFound)
    else if w[cur].entries[rest[0]].ino !in w then Err(InvalidArg)
    else Err(BadFS)
  }

  /** The chain ends here: no further inode, or a link that cannot be read. */
  predicate Stops(w: World, cur: nat, rest: seq<Path>) {
    || cur !in w || rest == [] || !w[cur].Directory? || rest[0] !in w[cur].entries
    || w[cur].entries[rest[0]].ino !in w || w[w[cur].entries[rest[0]].ino].BadSymlink?
  }

  /** Resolving a path along whose names no link is met. If the chain of entries is complete, the result is its last
      inode; otherwise the first step that fails decides: not found for a missing name, not a directory for a step
      below anything else, an error for an unreadable inode. */
  lemma ChainResolves(w: World, c: seq<nat>, cwd: nat, path: Path, depth: nat, r: Result<nat>)
    requires depth <= MAX_SYMLINK_DEPTH && Verdict(w, Start(cwd, path, depth), r)
    requires 0 < |c| <= |Components(path)| + 1 && c[0] == (if Absolute(path) || cwd == 0 then 1 else cwd)
    requires Chain(w, c, Components(path)[..|c| - 1]) && Stops(w, c[|c| - 1], Components(path)[|c| - 1..])
    ensures r == ChainEnd(w, c[|c| - 1], Components(path)[|c| - 1..])
    ensures |c| == |Components(path)| + 1 && c[|c| - 1] in w ==> r == Ok(c[|c| - 1])
  {
    hide Components, Verdict, Chain, Next;
    var names := Components(path);
    var cur, rest := c[|c| - 1], names[|c| - 1..];
    AlongChain(w, c, names, depth, r);
    var a := At(cur, rest, depth);
    if rest == [] {
      FinalNext(w, cur, depth);
    } else {
      assert rest == [rest[0]] + rest[1..];
      NextCases(w, cur, rest[0], rest[1..], depth);
    }
    HaltVerdict(w, a, r);
  }

  lemma FinalNext(w: World, cur: nat, depth: nat)
    ensures Next(w, At(cur, [], depth)) == Halt(if cur in w then Ok(cur) else Err(InvalidArg), depth)
  {
  }

  /** When a link is met, the result is that of resolving its target, followed by what comes after it, from the
      directory that holds the link, with one link less to go. */
  lemma LinkResolves(w: World, c: seq<nat>, cwd: nat, path: Path, depth: nat, link: nat, r: Result<nat>)
    requires depth <= MAX_SYMLINK_DEPTH && 0 < |c| <= |Components(path)| && 0 !in w
    requires c[0] == (if Absolute(path) || cwd == 0 then 1 else cwd) && Chain(w, c, Components(path)[..|c| - 1])
    requires Entry(w, c[|c| - 1], Components(path)[|c| - 1], link) && link in w && w[link].Symlink? && w[link].target != []
    ensures Verdict(w, Start(cwd, path, depth), r)
       <==> Verdict(w, Start(c[|c| - 1], Remaining(w[link].target, Components(path)[|c|..]), depth + 1), r)
  {
    hide Components, Verdict, Chain, Next, Run, Remaining, Clean, Split, Slashless;
    var names := Components(path);
    var cur, rest, target := c[|c| - 1], names[|c| - 1..], w[link].target;
    AlongChain(w, c, names, depth, r);
    assert rest == [rest[0]] + names[|c|..];
    NextCases(w, cur, rest[0], names[|c|..], depth);
    ComponentsClean(path, |c|);
    RemainingComponents(target, names[|c|..]);
    var a := At(cur, rest, depth);
    RunOne(w, a);
    SameVerdict(w, a, 1, r);
  }

  lemma RunOne(w: World, a: Walk)
    ensures Run(w, a, 0) == a && Run(w, a, 1) == Next(w, a)
  {
    hide Next;
    assert Run(w, a, 0) == a;
  }

  /** Components have no slash and are not cleaned away again. */
  lemma ComponentsClean(path: Path, k: nat)
    requires k <= |Components(path)|
    ensures Slashless(Components(path)[k..]) && Clean(Components(path)[k..]) == Components(path)[k..]
  {
    hide Split;
    SplitSlashless(path);
    CleanFacts(Split(path));
    CleanSame(Components(path)[k..]);
  }

  predicate Real(x: Path) { x != [] && x != DOT }

  lemma {:induction false} CleanFacts(parts: seq<Path>)
    ensures forall i :: 0 <= i < |Clean(parts)| ==> Real(Clean(parts)[i]) && Clean(parts)[i] in parts
  {
    if parts != [] { CleanFacts(parts[1..]); }
  }

  lemma {:induction false} CleanSame(parts: seq<Path>)
    requires forall i :: 0 <= i < |parts| ==> Real(parts[i])
    ensures Clean(parts) == parts
  {
    if parts != [] {
      assert Real(parts[0]);
      CleanSame(parts[1..]);
    }
  }

  /** On every graph, from every inode: the names lead along a chain that stops, or up to a link. So the two lemmas
      above decide every resolution, one link at a time. */
  lemma {:induction false} SomeChain(w: World, cur: nat, names: seq<Path>) returns (c: seq<nat>)
    ensures 0 < |c| <= |names| + 1 && c[0] == cur && Chain(w, c, names[..|c| - 1])
    ensures var last, rest := c[|c| - 1], names[|c| - 1..];
            Stops(w, last, rest) || (rest != [] && exists link :: Entry(w, last, rest[0], link) && link in w && w[link].Symlink?)
    decreases |names|
  {
    if Stops(w, cur, names) || w[w[cur].entries[names[0]].ino].Symlink? {
      c := [cur];
      assert names[0..] == names;
    } else {
      var child := w[cur].entries[names[0]].ino;
      var tail := SomeChain(w, child, names[1..]);
      c := [cur] + tail;
      assert names[1..][|tail| - 1..] == names[|c| - 1..];
      var front := names[..|c| - 1];
      forall k: nat | k < |front| ensures Hop(w, c, front, k) {
        if k > 0 { assert Hop(w, tail, names[1..][..|tail| - 1], k - 1); }
      }
    }
  }

  // ---------------------------------------------------------------- paths in the name space

  /** The readable inodes are those of a name space without symbolic links. */
  ghost predicate Shows(w: World, s: Names.Nodes) {
    && (forall i :: i in w <==> i in s)
    && forall i :: i in s ==> w[i] == if s[i].Dir? then Directory(s[i].entries) else Other
  }

  /** Names that can be written in a path; ".." is one. */
  predicate Written(names: seq<Name>) { forall i :: 0 <= i < |names| ==> Real(names[i]) && SLASH !in names[i] }

  lemma {:induction false} FollowChain(w: World, s: Names.Nodes, base: seq<Name>, names: seq<Name>, k: nat) returns (c: seq<nat>)
    requires Shows(w, s) && Names.Inv(s) && k <= |names| && Namespaces.Follow(s, base + names[..k]) in s
    ensures |c| == k + 1 && c[0] == Namespaces.Follow(s, base) && c[k] == Namespaces.Follow(s, base + names[..k]) && Chain(w, c, names[..k])
  {
    hide Names.Inv;
    if k == 0 {
      c := [Namespaces.Follow(s, base)];
      assert base + names[..0] == base;
    } else {
      FollowStep(s, base, names, k - 1);
      NoZero(s);
      var front := FollowChain(w, s, base, names, k - 1);
      c := front + [Namespaces.Follow(s, base + names[..k])];
      forall j: nat | j < k ensures Hop(w, c, names[..k], j) {
        if j < k - 1 { assert Hop(w, front, names[..k - 1], j); }
      }
    }
  }

  lemma FollowStep(s: Names.Nodes, base: seq<Name>, names: seq<Name>, k: nat)
    requires k < |names|
    ensures var p := Namespaces.Follow(s, base + names[..k]);
            Namespaces.Follow(s, base + names[..k + 1])
            == if Names.DirAt(s, p) && names[k] in s[p].entries then s[p].entries[names[k]].ino else 0
  {
    var all := base + names[..k + 1];
    assert all[..|all| - 1] == base + names[..k] && all[|all| - 1] == names[k];
  }

  lemma NoZero(s: Names.Nodes)
    requires Names.Inv(s)
    ensures 0 !in s && forall p, x :: Names.DirAt(s, p) && x in s[p].entries ==> s[p].entries[x].ino in s
  {
    hide Names.Tree, Names.Counted;
  }

  /** The names lead to nothing exactly from some place on; that place is where the chain stops. */
  lemma {:induction false} FirstMissing(s: Names.Nodes, base: seq<Name>, names: seq<Name>, n: nat) returns (k: nat)
    requires Names.Inv(s) && n <= |names| && Namespaces.Follow(s, base) in s && Namespaces.Follow(s, base + names[..n]) !in s
    ensures k < n && Namespaces.Follow(s, base + names[..k]) in s && Namespaces.Follow(s, base + names[..k + 1]) !in s
  {
    hide Names.Inv, Namespaces.Follow;
    assert base + names[..0] == base;
    if n == 0 {
      assert false;
    } else if Namespaces.Follow(s, base + names[..n - 1]) in s {
      k := n - 1;
    } else {
      k := FirstMissing(s, base, names, n - 1);
    }
  }

  /** The components of the two spellings of a path. */
  lemma PathOf(names: seq<Name>)
    requires Written(names)
    ensures Components(Join(names)) == names && Components([SLASH] + Join(names)) == names
    ensures Absolute([SLASH] + Join(names)) && !Absolute(Join(names))
  {
    hide Split;
    ComponentsJoin(names);
    CleanSame(names);
    assert [] + [SLASH] + Join(names) == [SLASH] + Join(names);
    ComponentsConcat([], Join(names));
    EmptyComponents();
    if names != [] { JoinFirst(names); }
  }

  lemma JoinFirst(names: seq<Name>)
    requires names != [] && Written(names)
    ensures Join(names) != [] && Join(names)[0] != SLASH
  {
    assert Real(names[0]) && names[0][0] in names[0];
  }

  /** Resolving a path in a name space: from the directory that base leads to, a relative path leads where base and
      its names lead together, an absolute one where its names lead from the root. It is found exactly when they lead
      somewhere; otherwise a name is missing or stands below something that is no directory. */
  lemma NamesResolve(w: World, s: Names.Nodes, base: seq<Name>, names: seq<Name>, absolute: bool, r: Result<nat>)
    requires Shows(w, s) && Names.Inv(s) && Written(names) && Namespaces.Follow(s, base) in s
    requires Verdict(w, Start(Namespaces.Follow(s, base), if absolute then [SLASH] + Join(names) else Join(names), 0), r)
    ensures var goal := Namespaces.Follow(s, if absolute then names else base + names);
            if goal in s then r == Ok(goal) else r == Err(NotFound) || r == Err(NotDir)
  {
    hide Names.Inv, Verdict, Components, Split, Join, Namespaces.Follow, Chain, Shows;
    PathOf(names);
    NoZero(s);
    RootThere(s);
    var path := if absolute then [SLASH] + Join(names) else Join(names);
    var from := if absolute then [] else base;
    assert [] + names == names && names[..|names|] == names;
    if Namespaces.Follow(s, from + names) in s {
      var c := FollowChain(w, s, from, names, |names|);
      ShowsInode(w, s, c[|names|]);
      ChainResolves(w, c, Namespaces.Follow(s, base), path, 0, r);
    } else {
      var k := FirstMissing(s, from, names, |names|);
      var c := FollowChain(w, s, from, names, k);
      FollowStep(s, from, names, k);
      ShowsInode(w, s, c[k]);
      assert names[k..][0] == names[k];
      ChainResolves(w, c, Namespaces.Follow(s, base), path, 0, r);
    }
  }

  lemma RootThere(s: Names.Nodes)
    requires Names.Inv(s)
    ensures Namespaces.Follow(s, []) == 1 && 1 in s
  {
  }

  lemma ShowsInode(w: World, s: Names.Nodes, i: nat)
    requires Shows(w, s) && i in s
    ensures i in w && w[i] == if s[i].Dir? then Directory(s[i].entries) else Other
  {
  }
}
