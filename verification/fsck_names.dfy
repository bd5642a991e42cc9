/** The checker accepts the name space of every run. */
module FsckNames {
  import opened Bytes
  import opened Allocation
  import opened DirFormat
  import opened DirMaps
  import opened DirRead
  import opened Names
  import opened Namespaces
  import opened FsckWalk
  import opened Fsck

  const FT_SYMLINK: Byte := 7

  /** The inode table v holds node i of the name space: same kind, and a listing that is its name map. */
  ghost predicate HoldsNode(v: Inodes, i: nat, node: Node) {
    && i in v
    && match node
       case Dir(_, entries) => TypeBits(v[i].mode) == 4 && v[i].complete && Unique(v[i].entries) && DirMap(v[i].entries) == entries
       case File(_, t) => TypeBits(v[i].mode) != 4 && (TypeBits(v[i].mode) == 8 <==> t == FT_REG_FILE) && (TypeBits(v[i].mode) == 10 <==> t == FT_SYMLINK)
  }

  /** The inode table and the inode bitmap hold exactly the name space s. */
  ghost predicate Holds(v: Inodes, inos: set<nat>, s: Nodes) {
    && (forall i :: i in s <==> Taken(inos, i))
    && (forall i :: i in s ==> HoldsNode(v, i, s[i]))
    && (forall i, k :: i in s && DirInode(v, i) && 0 <= k < |v[i].entries| ==> v[i].entries[k].ino != 0)
  }

  lemma HoldsDir(v: Inodes, inos: set<nat>, s: Nodes, d: nat)
    requires Holds(v, inos, s) && d in s
    ensures DirAt(s, d) <==> DirInode(v, d)
    ensures DirAt(s, d) ==> Listed(v, d) == v[d].entries && Unique(v[d].entries) && DirMap(v[d].entries) == s[d].entries
  {
    assert HoldsNode(v, d, s[d]);
  }

  /** What the k-th entry of a listing with unique names says is what the name map says. */
  lemma {:induction false} EntryInMap(es: seq<Entry>, k: nat)
    requires Unique(es) && k < |es|
    ensures es[k].name in DirMap(es) && DirMap(es)[es[k].name] == TargetOf(es[k])
  {
    hide DirMap;
    var a, b := es[..k], es[k + 1..];
    assert es == a + [es[k]] + b;
    FirstMatch(a, es[k], b);
  }

  /** A proper entry on disk is a proper name in the name space. */
  lemma EdgeIsName(v: Inodes, inos: set<nat>, s: Nodes, d: nat, k: nat, c: nat)
    requires Holds(v, inos, s) && d in s && Edge(v, d, k, c)
    ensures DirAt(s, d) && Proper(Listed(v, d)[k].name) && Has(s, d, Listed(v, d)[k].name, c)
  {
    HoldsDir(v, inos, s, d);
    hide Holds, DirMap;
    EntryInMap(v[d].entries, k);
  }

  lemma NameIsEdge(v: Inodes, inos: set<nat>, s: Nodes, d: nat, x: Name, c: nat)
    requires Holds(v, inos, s) && Proper(x) && Has(s, d, x, c)
    ensures Arc(v, d, c)
  {
    HoldsDir(v, inos, s, d);
    var es := v[d].entries;
    DirMapKeys(es, x);
    var e :| e in es && e.name == x;
    var k: nat :| k < |es| && es[k] == e;
    EntryInMap(es, k);
    assert es[k].ino != 0;
    hide DirMap;
    assert Edge(v, d, k, c);
  }

  /** Everything reachable on disk is a node of the name space. */
  lemma ReachableInNames(v: Inodes, inos: set<nat>, s: Nodes, d: nat)
    requires Inv(s) && Holds(v, inos, s) && Reachable(v, d)
    ensures d in s
  {
    hide Holds, Edge, Inv, Reachable;
    forall p: nat, c: nat | p in s.Keys && Arc(v, p, c) ensures c in s.Keys {
      var k: nat :| Edge(v, p, k, c);
      EdgeTarget(v, inos, s, p, k, c);
    }
    RootIn(s);
    var path := WalkTo(v, d);
    hide Arc, IsWalk;
    ClosedHoldsReachable(v, s.Keys, path);
  }

  lemma WalkTo(v: Inodes, d: nat) returns (path: seq<nat>)
    requires Reachable(v, d)
    ensures IsWalk(v, path) && path[|path| - 1] == d
  {
    hide Arc;
    path :| IsWalk(v, path) && path[|path| - 1] == d;
  }

  lemma EdgeTarget(v: Inodes, inos: set<nat>, s: Nodes, d: nat, k: nat, c: nat)
    requires Inv(s) && Holds(v, inos, s) && d in s && Edge(v, d, k, c)
    ensures c in s && c != 1
  {
    hide Inv, Holds, Has;
    EdgeIsName(v, inos, s, d, k, c);
    HasTarget(s, d, Listed(v, d)[k].name, c);
  }

  lemma RootIn(s: Nodes)
    requires Inv(s)
    ensures DirAt(s, 1) && Has(s, 1, DOT, 1) && Has(s, 1, DOTDOT, 1)
  {
  }

  lemma HasTarget(s: Nodes, p: nat, x: Name, c: nat)
    requires Inv(s) && Has(s, p, x, c)
    ensures c in s && (Proper(x) ==> c != 1)
  {
  }

  lemma {:induction false} PathReachable(v: Inodes, inos: set<nat>, s: Nodes, path: seq<Name>)
    requires Inv(s) && Holds(v, inos, s) && AllProper(path) && Follow(s, path) in s
    ensures Reachable(v, Follow(s, path))
  {
    hide Holds, Inv, Reachable, Arc;
    if path == [] {
      RootReachable(v);
    } else {
      LastStep(s, path);
      var front := path[..|path| - 1];
      PathReachable(v, inos, s, front);
      NameIsEdge(v, inos, s, Follow(s, front), path[|path| - 1], Follow(s, path));
      ArcReachable(v, Follow(s, front), Follow(s, path));
    }
  }

  lemma TwoEdges(v: Inodes, inos: set<nat>, s: Nodes, d: nat, k: nat, d': nat, k': nat, c: nat)
    requires Inv(s) && Holds(v, inos, s) && d in s && d' in s && Edge(v, d, k, c) && Edge(v, d', k', c) && DirInode(v, c)
    ensures d == d' && k == k'
  {
    hide Holds, Inv;
    EdgeIsName(v, inos, s, d, k, c);
    EdgeIsName(v, inos, s, d', k', c);
    var x, y := Listed(v, d)[k].name, Listed(v, d')[k'].name;
    HasTarget(s, d, x, c);
    HoldsDir(v, inos, s, c);
    HoldsDir(v, inos, s, d);
    var z := ProperName(s, c);
    SamePlace(v[d].entries, k, k');
  }

  lemma SamePlace(es: seq<Entry>, i: nat, j: nat)
    requires Unique(es) && i < |es| && j < |es| && es[i].name == es[j].name
    ensures i == j
  {
  }

  lemma NamesTreeLike(v: Inodes, inos: set<nat>, s: Nodes)
    requires Inv(s) && Holds(v, inos, s)
    ensures TreeLike(v)
  {
    hide Holds, Inv, Reachable, Edge, DirInode;
    forall d: nat, k: nat | Reachable(v, d) ensures !Edge(v, d, k, 1) {
      ReachableInNames(v, inos, s, d);
      if Edge(v, d, k, 1) { EdgeTarget(v, inos, s, d, k, 1); }
    }
    forall d, k, d', k', c | Reachable(v, d) && Reachable(v, d') && Edge(v, d, k, c) && Edge(v, d', k', c) && DirInode(v, c)
      ensures d == d' && k == k'
    {
      ReachableInNames(v, inos, s, d);
      ReachableInNames(v, inos, s, d');
      TwoEdges(v, inos, s, d, k, d', k', c);
    }
  }

  lemma NamesNoOrphans(v: Inodes, inos: set<nat>, s: Nodes)
    requires Inv(s) && Holds(v, inos, s)
    ensures NoOrphans(v, inos) && EntriesOk(v, inos)
  {
    hide Inv, Reachable, Edge, Follow, DirInode;
    forall i: nat | Taken(inos, i) ensures Reachable(v, i) {
      var path := EverythingReachable(s, i);
      PathReachable(v, inos, s, path);
    }
    forall i: nat, k: nat, c: nat | Taken(inos, i) && Edge(v, i, k, c) ensures Taken(inos, c) {
      EdgeTarget(v, inos, s, i, k, c);
    }
  }

  lemma NamesRootOk(v: Inodes, inos: set<nat>, s: Nodes)
    requires Inv(s) && Holds(v, inos, s)
    ensures RootOk(v) && (TypesOk(v, inos) <==> KnownTypes(s))
  {
    RootIn(s);
    hide Inv;
    HoldsDir(v, inos, s, 1);
    forall i: nat | Taken(inos, i) ensures TypeOk(v, i) <==> KnownType(s[i]) { assert HoldsNode(v, i, s[i]); }
    hide HoldsNode, RootOk;
  }

  /** Directories, regular files and symbolic links are the kinds the checker knows. */
  predicate KnownType(node: Node) { node.Dir? || node.fileType == FT_REG_FILE || node.fileType == FT_SYMLINK }

  ghost predicate KnownTypes(s: Nodes) { forall i :: i in s ==> KnownType(s[i]) }

  /** The checker's name checks on a table that holds a sound name space: all are clean exactly if every node is of a
      kind the checker knows. */
  lemma NamesPassIff(v: Inodes, inos: set<nat>, s: Nodes)
    requires Inv(s) && Holds(v, inos, s)
    ensures RootOk(v) && EntriesOk(v, inos) && TreeLike(v) && NoOrphans(v, inos) && (TypesOk(v, inos) <==> KnownTypes(s))
  {
    hide Inv, Holds, RootOk, TypesOk, EntriesOk, TreeLike, NoOrphans, KnownTypes;
    NamesRootOk(v, inos, s);
    NamesNoOrphans(v, inos, s);
    NamesTreeLike(v, inos, s);
  }

  lemma StepKnownTypes(s: Nodes, op: Op, t: Nodes, r: Result<nat>)
    requires Step(s, op, t, r) && KnownTypes(s)
    ensures KnownTypes(t)
  {
  }

  lemma {:induction false} RunKnownTypes(states: seq<Nodes>, ops: seq<Op>, rs: seq<Result<nat>>, n: nat)
    requires IsRun(states, ops, rs) && n <= |ops|
    ensures KnownTypes(states[n])
  {
    hide Step, LinkRoom;
    if n > 0 {
      RunKnownTypes(states, ops, rs, n - 1);
      StepKnownTypes(states[n - 1], ops[n - 1], states[n], rs[n - 1]);
    }
  }

  /** In every state of every run of the name space, the checker's name checks find nothing. */
  lemma RunsPassNameChecks(states: seq<Nodes>, ops: seq<Op>, rs: seq<Result<nat>>, n: nat, v: Inodes, inos: set<nat>)
    requires IsRun(states, ops, rs) && n <= |ops| && Holds(v, inos, states[n])
    ensures RootOk(v) && TypesOk(v, inos) && EntriesOk(v, inos) && TreeLike(v) && NoOrphans(v, inos)
  {
    hide Step, LinkRoom, Inv, Holds, RootOk, TypesOk, EntriesOk, TreeLike, NoOrphans, KnownTypes;
    RunInv(states, ops, rs, n);
    RunKnownTypes(states, ops, rs, n);
    NamesPassIff(v, inos, states[n]);
  }
}
