/** The consistency checker's walk: breadth first from the root, over whatever directory graph the disk holds. */
module FsckWalk {
  import opened Bytes
  import opened DirFormat
  import opened DirRead

  /** What the checker reads of one inode: its mode, the entries listed (complete unless reading failed half-way)
      and the data blocks listed. */
  datatype Inode = Inode(mode: nat, entries: seq<Entry>, complete: bool, blocks: seq<nat>)

  /** The inode table; a number outside it cannot be read. */
  type Inodes = map<nat, Inode>

  function TypeBits(mode: nat): nat { mode / 0x1000 % 16 }

  predicate DirInode(v: Inodes, i: nat) { i in v && TypeBits(v[i].mode) == 4 }

  /** The entries the checker looks at; a listing that failed is skipped. */
  function Listed(v: Inodes, i: nat): seq<Entry> { if i in v && v[i].complete then v[i].entries else [] }

  predicate ProperEntry(e: Entry) { e.name != DOT && e.name != DOTDOT && e.ino != 0 }

  /** Entry number k of directory d properly names c. */
  predicate Edge(v: Inodes, d: nat, k: nat, c: nat) {
    DirInode(v, d) && k < |Listed(v, d)| && ProperEntry(Listed(v, d)[k]) && Listed(v, d)[k].ino == c
  }

  ghost predicate Arc(v: Inodes, d: nat, c: nat) { exists k: nat :: Edge(v, d, k, c) }

  ghost predicate IsWalk(v: Inodes, path: seq<nat>) {
    && path != [] && path[0] == 1
    && forall i {:trigger path[i]} :: 0 < i < |path| ==> Arc(v, path[i - 1], path[i])
  }

  ghost predicate Reachable(v: Inodes, c: nat) {
    exists path :: IsWalk(v, path) && path[|path| - 1] == c
  }

  /** The reachable directories form a tree: no entry leads back to the root, and none is named twice. */
  ghost predicate TreeLike(v: Inodes) {
    && (forall d, k :: Reachable(v, d) && Edge(v, d, k, 1) ==> !DirInode(v, 1))
    && (forall d, k, d', k', c :: Reachable(v, d) && Reachable(v, d') && Edge(v, d, k, c) && Edge(v, d', k', c) && DirInode(v, c) ==>
          d == d' && k == k')
  }

  lemma RootReachable(v: Inodes)
    ensures Reachable(v, 1)
  {
    assert IsWalk(v, [1]);
  }

  lemma ArcReachable(v: Inodes, d: nat, c: nat)
    requires Reachable(v, d) && Arc(v, d, c)
    ensures Reachable(v, c)
  {
    hide Arc;
    var path :| IsWalk(v, path) && path[|path| - 1] == d;
    var longer := path + [c];
    assert IsWalk(v, longer);
    assert longer[|longer| - 1] == c;
  }

  /** A set that holds the root and is closed under entries holds everything reachable. */
  lemma {:induction false} ClosedHoldsReachable(v: Inodes, s: set<nat>, path: seq<nat>)
    requires 1 in s && (forall d, c :: d in s && Arc(v, d, c) ==> c in s) && IsWalk(v, path)
    ensures path[|path| - 1] in s
    decreases |path|
  {
    hide Arc;
    if |path| > 1 {
      var front := path[..|path| - 1];
      assert IsWalk(v, front);
      ClosedHoldsReachable(v, s, front);
      assert Arc(v, path[|path| - 2], path[|path| - 1]);
    }
  }

  // ---------------------------------------------------------------- what has been processed

  /** Position (d, j) has been processed: its directory is done, or it lies before entry m of the current one. */
  predicate Before(done: set<nat>, cur: nat, m: nat, d: nat, j: nat) { d in done || (d == cur && j < m) }

  /** The processed entries show no second name of a directory and no name of the root. */
  ghost predicate TreeSoFar(v: Inodes, done: set<nat>, cur: nat, m: nat) {
    && (forall d, k :: Before(done, cur, m, d, k) && Edge(v, d, k, 1) ==> !DirInode(v, 1))
    && (forall d, k, d', k', c ::
          Before(done, cur, m, d, k) && Before(done, cur, m, d', k') && Edge(v, d, k, c) && Edge(v, d', k', c) && DirInode(v, c) ==>
            d == d' && k == k')
  }

  /** The visited inodes are the root and the targets of the processed entries, all reachable. */
  ghost predicate VisitedSoFar(v: Inodes, done: set<nat>, cur: nat, m: nat, visited: set<nat>) {
    && 1 in visited
    && (forall c :: c in visited ==> Reachable(v, c))
    && (forall d, k, c :: Before(done, cur, m, d, k) && Edge(v, d, k, c) ==> c in visited)
    && (forall c :: c in visited && c != 1 ==> exists d, k :: Before(done, cur, m, d, k) && Edge(v, d, k, c))
  }

  /** The inodes that can ever be visited. */
  ghost function Universe(v: Inodes): set<nat> {
    {1} + set i, e | i in v && e in v[i].entries :: e.ino
  }

  lemma EdgeInUniverse(v: Inodes, d: nat, k: nat, c: nat)
    requires Edge(v, d, k, c)
    ensures c in Universe(v)
  {
    assert v[d].entries[k] in v[d].entries;
  }

  /** Entry m of cur is skipped: no proper name. */
  lemma SkipEntry(v: Inodes, done: set<nat>, cur: nat, m: nat, visited: set<nat>)
    requires VisitedSoFar(v, done, cur, m, visited) && forall c :: !Edge(v, cur, m, c)
    ensures VisitedSoFar(v, done, cur, m + 1, visited) && (TreeSoFar(v, done, cur, m + 1) <==> TreeSoFar(v, done, cur, m))
  {
    hide Edge, Reachable;
    forall d, k, c | Edge(v, d, k, c) ensures Before(done, cur, m + 1, d, k) <==> Before(done, cur, m, d, k) {}
    forall c | c in visited && c != 1 ensures exists d, k :: Before(done, cur, m + 1, d, k) && Edge(v, d, k, c) {
      var d, k :| Before(done, cur, m, d, k) && Edge(v, d, k, c);
      assert Before(done, cur, m + 1, d, k);
    }
  }

  /** Entry m of cur names an inode already visited: trouble exactly if it is a directory. */
  lemma OldTarget(v: Inodes, done: set<nat>, cur: nat, m: nat, visited: set<nat>, c: nat)
    requires VisitedSoFar(v, done, cur, m, visited) && cur !in done && Edge(v, cur, m, c) && c in visited
    requires forall x :: Edge(v, cur, m, x) ==> x == c
    ensures VisitedSoFar(v, done, cur, m + 1, visited)
    ensures TreeSoFar(v, done, cur, m + 1) <==> TreeSoFar(v, done, cur, m) && !DirInode(v, c)
  {
    hide Edge, Reachable, DirInode;
    Widen(v, done, cur, m, visited);
    assert Before(done, cur, m + 1, cur, m) && !Before(done, cur, m, cur, m);
    if DirInode(v, c) && c != 1 {
      var d, k :| Before(done, cur, m, d, k) && Edge(v, d, k, c);
      assert Before(done, cur, m + 1, d, k);
    }
    if TreeSoFar(v, done, cur, m + 1) { Narrow(v, done, cur, m); }
  }

  lemma Widen(v: Inodes, done: set<nat>, cur: nat, m: nat, visited: set<nat>)
    requires VisitedSoFar(v, done, cur, m, visited)
    ensures forall c :: c in visited && c != 1 ==> exists d, k :: Before(done, cur, m + 1, d, k) && Edge(v, d, k, c)
  {
    hide Edge, Reachable;
    forall c | c in visited && c != 1 ensures exists d, k :: Before(done, cur, m + 1, d, k) && Edge(v, d, k, c) {
      var d, k :| Before(done, cur, m, d, k) && Edge(v, d, k, c);
      assert Before(done, cur, m + 1, d, k);
    }
  }

  lemma Narrow(v: Inodes, done: set<nat>, cur: nat, m: nat)
    requires TreeSoFar(v, done, cur, m + 1)
    ensures TreeSoFar(v, done, cur, m)
  {
    hide Edge, DirInode;
    assert forall d, k :: Before(done, cur, m, d, k) ==> Before(done, cur, m + 1, d, k);
  }

  /** Entry m of cur names an inode not seen before: never trouble. */
  lemma NewTarget(v: Inodes, done: set<nat>, cur: nat, m: nat, visited: set<nat>, c: nat)
    requires VisitedSoFar(v, done, cur, m, visited) && cur in visited && Edge(v, cur, m, c) && c !in visited
    requires forall x :: Edge(v, cur, m, x) ==> x == c
    ensures VisitedSoFar(v, done, cur, m + 1, visited + {c})
    ensures TreeSoFar(v, done, cur, m + 1) <==> TreeSoFar(v, done, cur, m)
  {
    hide Edge, Reachable, DirInode;
    Widen(v, done, cur, m, visited);
    assert Before(done, cur, m + 1, cur, m);
    assert Arc(v, cur, c);
    ArcReachable(v, cur, c);
    if TreeSoFar(v, done, cur, m + 1) { Narrow(v, done, cur, m); }
  }

  /** After its last entry the current directory is done. */
  lemma FinishDir(v: Inodes, done: set<nat>, cur: nat, m: nat, visited: set<nat>)
    requires VisitedSoFar(v, done, cur, m, visited) && (DirInode(v, cur) ==> m >= |Listed(v, cur)|)
    ensures VisitedSoFar(v, done + {cur}, 0, 0, visited)
    ensures TreeSoFar(v, done + {cur}, 0, 0) <==> TreeSoFar(v, done, cur, m)
  {
    assert forall d, k, c :: Edge(v, d, k, c) ==> (Before(done + {cur}, 0, 0, d, k) <==> Before(done, cur, m, d, k));
    hide Edge, Reachable, DirInode, Before;
    forall c | c in visited && c != 1 ensures exists d, k :: Before(done + {cur}, 0, 0, d, k) && Edge(v, d, k, c) {
      var d, k :| Before(done, cur, m, d, k) && Edge(v, d, k, c);
      assert Before(done + {cur}, 0, 0, d, k);
    }
  }

  lemma StartDir(v: Inodes, done: set<nat>, cur: nat, visited: set<nat>)
    requires VisitedSoFar(v, done, 0, 0, visited)
    ensures VisitedSoFar(v, done, cur, 0, visited) && (TreeSoFar(v, done, cur, 0) <==> TreeSoFar(v, done, 0, 0))
  {
    assert forall d, k :: Before(done, cur, 0, d, k) <==> Before(done, 0, 0, d, k);
    hide Edge, Reachable, DirInode, Before;
    forall c | c in visited && c != 1 ensures exists d, k :: Before(done, cur, 0, d, k) && Edge(v, d, k, c) {
      var d, k :| Before(done, 0, 0, d, k) && Edge(v, d, k, c);
      assert Before(done, cur, 0, d, k);
    }
  }

  /** With nothing left to do, the visited inodes are the reachable ones and the verdict is about all of them. */
  lemma WalkDone(v: Inodes, done: set<nat>)
    requires VisitedSoFar(v, done, 0, 0, done)
    ensures forall c :: c in done <==> Reachable(v, c)
    ensures TreeSoFar(v, done, 0, 0) <==> TreeLike(v)
  {
    hide Edge, DirInode, Reachable, TreeLike, TreeSoFar;
    DoneIsReachable(v, done);
    TreeAgrees(v, done);
  }

  lemma DoneIsReachable(v: Inodes, done: set<nat>)
    requires VisitedSoFar(v, done, 0, 0, done)
    ensures forall c :: c in done <==> Reachable(v, c)
  {
    hide Edge, DirInode;
    forall d, c | d in done && Arc(v, d, c) ensures c in done {
      var k: nat :| Edge(v, d, k, c);
      assert Before(done, 0, 0, d, k);
    }
    forall c | Reachable(v, c) ensures c in done {
      var path :| IsWalk(v, path) && path[|path| - 1] == c;
      ClosedHoldsReachable(v, done, path);
    }
  }

  lemma TreeAgrees(v: Inodes, done: set<nat>)
    requires forall c :: c in done <==> Reachable(v, c)
    ensures TreeSoFar(v, done, 0, 0) <==> TreeLike(v)
  {
    hide Edge, DirInode, Reachable;
    if TreeSoFar(v, done, 0, 0) {
      forall d, k | Reachable(v, d) && Edge(v, d, k, 1) ensures !DirInode(v, 1) { assert Before(done, 0, 0, d, k); }
      forall d, k, d', k', c | Reachable(v, d) && Reachable(v, d') && Edge(v, d, k, c) && Edge(v, d', k', c) && DirInode(v, c)
        ensures d == d' && k == k'
      {
        assert Before(done, 0, 0, d, k) && Before(done, 0, 0, d', k');
      }
    }
    if TreeLike(v) {
      forall d, k | Before(done, 0, 0, d, k) && Edge(v, d, k, 1) ensures !DirInode(v, 1) { assert Reachable(v, d); }
    }
  }

  // ---------------------------------------------------------------- the walk itself

  ghost predicate QueueOf(queue: seq<nat>, done: set<nat>, visited: set<nat>) {
    && (forall c :: c in visited <==> c in done || c in queue)
    && (forall c :: c in queue ==> c !in done)
    && forall i, j :: 0 <= i < j < |queue| ==> queue[i] != queue[j]
  }

  lemma Dequeue(queue: seq<nat>, done: set<nat>, visited: set<nat>)
    requires QueueOf(queue, done, visited) && queue != []
    ensures QueueOf(queue[1..], done + {queue[0]}, visited) && queue[0] !in done && queue[0] in visited
  {
    assert forall c :: c in queue <==> c == queue[0] || c in queue[1..];
  }

  lemma Enqueue(queue: seq<nat>, done: set<nat>, visited: set<nat>, c: nat)
    requires QueueOf(queue, done, visited) && c !in visited
    ensures QueueOf(queue + [c], done, visited + {c})
  {
  }

  lemma FewerLeft(u: set<nat>, visited: set<nat>, c: nat)
    requires c in u && c !in visited
    ensures |u - (visited + {c})| < |u - visited|
  {
    assert u - (visited + {c}) == (u - visited) - {c};
  }

  /** The entries of one directory: new inodes are queued, and a directory met again is reported. */
  method ScanDirectory(v: Inodes, cur: nat, visited0: set<nat>, queue0: seq<nat>, ok0: bool, ghost done: set<nat>)
    returns (visited: set<nat>, queue: seq<nat>, ok: bool)
    requires DirInode(v, cur) && cur in visited0 && cur !in done
    requires VisitedSoFar(v, done, 0, 0, visited0) && QueueOf(queue0, done + {cur}, visited0) && visited0 <= Universe(v)
    requires ok0 <==> TreeSoFar(v, done, 0, 0)
    ensures VisitedSoFar(v, done + {cur}, 0, 0, visited) && QueueOf(queue, done + {cur}, visited) && visited <= Universe(v)
    ensures ok <==> TreeSoFar(v, done + {cur}, 0, 0)
    ensures |Universe(v) - visited| < |Universe(v) - visited0| || (visited == visited0 && queue == queue0)
  {
    hide VisitedSoFar, TreeSoFar, QueueOf, Universe;
    visited, queue, ok := visited0, queue0, ok0;
    var entries := Listed(v, cur);
    StartDir(v, done, cur, visited);
    var m := 0;
    while m < |entries|
      invariant 0 <= m <= |entries| && cur in visited && visited <= Universe(v)
      invariant VisitedSoFar(v, done, cur, m, visited) && QueueOf(queue, done + {cur}, visited)
      invariant ok <==> TreeSoFar(v, done, cur, m)
      invariant |Universe(v) - visited| < |Universe(v) - visited0| || (visited == visited0 && queue == queue0)
    {
      var e := entries[m];
      if e.name == DOT || e.name == DOTDOT || e.ino == 0 {
        SkipEntry(v, done, cur, m, visited);
      } else if e.ino in visited {
        OldTarget(v, done, cur, m, visited, e.ino);
        if DirInode(v, e.ino) { ok := false; }
      } else {
        NewTarget(v, done, cur, m, visited, e.ino);
        Enqueue(queue, done + {cur}, visited, e.ino);
        EdgeInUniverse(v, cur, m, e.ino);
        FewerLeft(Universe(v), visited, e.ino);
        visited := visited + {e.ino};
        queue := queue + [e.ino];
      }
      m := m + 1;
    }
    FinishDir(v, done, cur, m, visited);
  }

  /** Breadth-first walk from inode 1. It ends on every graph; what it visits is what is reachable, and it reports
      trouble exactly when the reachable directories are not a tree. */
  method WalkFromRoot(v: Inodes) returns (visited: set<nat>, ok: bool)
    ensures forall c :: c in visited <==> Reachable(v, c)
    ensures ok <==> TreeLike(v)
  {
    hide VisitedSoFar, TreeSoFar, QueueOf, Universe, TreeLike, Reachable;
    visited, ok := {1}, true;
    var queue: seq<nat> := [1];
    ghost var done: set<nat> := {};
    WalkStart(v);
    while queue != []
      invariant VisitedSoFar(v, done, 0, 0, visited) && QueueOf(queue, done, visited) && visited <= Universe(v)
      invariant ok <==> TreeSoFar(v, done, 0, 0)
      decreases |Universe(v) - visited|, |queue|
    {
      var cur := queue[0];
      Dequeue(queue, done, visited);
      queue := queue[1..];
      if DirInode(v, cur) {
        visited, queue, ok := ScanDirectory(v, cur, visited, queue, ok, done);
      } else {
        StartDir(v, done, cur, visited);
        FinishDir(v, done, cur, 0, visited);
      }
      done := done + {cur};
    }
    AllDone(done, visited);
    WalkDone(v, visited);
  }

  lemma WalkStart(v: Inodes)
    ensures VisitedSoFar(v, {}, 0, 0, {1}) && QueueOf([1], {}, {1}) && {1} <= Universe(v) && TreeSoFar(v, {}, 0, 0)
  {
    RootReachable(v);
  }

  lemma AllDone(done: set<nat>, visited: set<nat>)
    requires QueueOf([], done, visited)
    ensures visited == done
  {
  }
}
