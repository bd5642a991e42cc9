/** Making and removing names: each call is all or nothing, and every run keeps the tree and the link counts. */
module Namespaces {
  import opened Bytes
  import opened Allocation
  import opened DirFormat
  import opened DirMaps
  import opened DirRead
  import opened Names

  const FT_REG_FILE: Byte := 1

  datatype Op =
    | Mkdir(parent: U32, name: Name)
    | Rmdir(parent: U32, name: Name)
    | Create(parent: U32, name: Name)
    | Link(file: U32, parent: U32, name: Name)
    | Unlink(parent: U32, name: Name)

  predicate Named(name: Name) { 0 < |name| <= MAX_NAME }

  predicate Absent(s: Nodes, p: nat, x: Name) { DirAt(s, p) && x !in s[p].entries && Named(x) }

  predicate Present(s: Nodes, p: nat, x: Name) { DirAt(s, p) && x in s[p].entries && s[p].entries[x].ino in s }

  predicate FileAt(s: Nodes, p: nat, x: Name) { Present(s, p, x) && s[s[p].entries[x].ino].File? }

  /** n is the least free inode number. */
  ghost predicate LeastFree(s: Nodes, n: nat) { 1 <= n <= INODE_COUNT && n !in s && forall m :: 1 <= m < n ==> m in s }

  /** One call: it fails and changes nothing, or it takes effect as a whole. */
  ghost predicate Step(s: Nodes, op: Op, t: Nodes, r: Result<nat>) {
    if r.Err? then t == s
    else match op
      case Mkdir(p, x) => Absent(s, p, x) && LeastFree(s, r.value) && t == MadeDir(s, p, x, r.value)
      case Rmdir(p, x) => EmptyAt(s, p, x) && Proper(x) && t == RemovedDir(s, p, x)
      case Create(p, x) =>
        if Absent(s, p, x) then LeastFree(s, r.value) && t == Created(s, p, x, r.value, FT_REG_FILE)
        else FileAt(s, p, x) && r.value == s[p].entries[x].ino && t == s
      case Link(f, p, x) => Absent(s, p, x) && f in s && s[f].File? && t == Linked(s, p, x, f)
      case Unlink(p, x) => FileAt(s, p, x) && Proper(x) && t == Unlinked(s, p, x)
  }

  /** The 16-bit link count of the file a Link call names has room. */
  predicate LinkRoom(s: Nodes, op: Op) { op.Link? && op.file in s && s[op.file].File? ==> s[op.file].links < MAX_LINKS }

  /** A freshly formatted name space: the root directory. */
  function Formatted(): Nodes { map[1 := Dir(2, DirEntries(1, 1))] }

  lemma FormattedInv()
    ensures Inv(Formatted())
  {
    hide Counted, Tree;
    FormattedTree();
    FormattedCounted();
  }

  lemma FormattedTree()
    ensures Tree(Formatted())
  {
    var s := Formatted();
    assert s[1].entries == map[DOT := Target(1, FT_DIR), DOTDOT := Target(1, FT_DIR)];
    assert forall d :: DirAt(s, d) <==> d == 1;
    assert Depth(s, 1, 0);
    hide Depth, Formatted, DirEntries;
  }

  lemma FormattedCounted()
    ensures Counted(Formatted())
  {
    hide NamesOf;
    assert Subdirs(Formatted(), 1) == {};
  }

  lemma StepKeepsInv(s: Nodes, op: Op, t: Nodes, r: Result<nat>)
    requires Inv(s) && Step(s, op, t, r) && LinkRoom(s, op)
    ensures Inv(t)
  {
    hide Inv, MadeDir, RemovedDir, Created, Linked, Unlinked, EmptyAt;
    if r.Ok? {
      match op
      case Mkdir(p, x) => MadeDirKeepsInv(s, p, x, r.value);
      case Rmdir(p, x) => RemovedDirKeepsInv(s, p, x);
      case Create(p, x) => if Absent(s, p, x) { CreatedKeepsInv(s, p, x, r.value, FT_REG_FILE); }
      case Link(f, p, x) => LinkedKeepsInvIff(s, p, x, f);
      case Unlink(p, x) => UnlinkedKeepsInv(s, p, x);
    }
  }

  /** Directory q names i by y after a successful call: as before, but for the one name the call makes or removes. */
  predicate NameAfter(s: Nodes, op: Op, made: nat, q: nat, y: Name, i: nat) {
    match op
    case Mkdir(p, x) => Has(s, q, y, i) || (q == p && y == x && i == made)
    case Create(p, x) => Has(s, q, y, i) || (q == p && y == x && i == made)
    case Link(f, p, x) => Has(s, q, y, i) || (q == p && y == x && i == f)
    case Rmdir(p, x) => Has(s, q, y, i) && !(q == p && y == x)
    case Unlink(p, x) => Has(s, q, y, i) && !(q == p && y == x)
  }

  /** A successful call changes the proper names by exactly the one it is asked for, and no node its kind. */
  lemma StepNames(s: Nodes, op: Op, t: Nodes, r: Result<nat>)
    requires Inv(s) && Step(s, op, t, r) && r.Ok?
    ensures forall q, y, i :: Proper(y) ==> (Has(t, q, y, i) <==> NameAfter(s, op, r.value, q, y, i))
    ensures forall i :: i in s && i in t ==> Kind(t[i]) == Kind(s[i])
    ensures op.Mkdir? ==> r.value in t && Kind(t[r.value]) == FT_DIR
    ensures op.Create? && Absent(s, op.parent, op.name) ==> r.value in t && Kind(t[r.value]) == FT_REG_FILE
  {
    hide Tree, Counted;
    forall q, y, i | Proper(y) ensures Has(t, q, y, i) <==> NameAfter(s, op, r.value, q, y, i) {
    }
  }

  ghost predicate IsRun(states: seq<Nodes>, ops: seq<Op>, rs: seq<Result<nat>>) {
    && |states| == |ops| + 1 == |rs| + 1 && states[0] == Formatted()
    && forall i :: 0 <= i < |ops| ==> Step(states[i], ops[i], states[i + 1], rs[i]) && LinkRoom(states[i], ops[i])
  }

  lemma {:induction false} RunInv(states: seq<Nodes>, ops: seq<Op>, rs: seq<Result<nat>>, n: nat)
    requires IsRun(states, ops, rs) && n <= |ops|
    ensures Inv(states[n])
  {
    hide Inv, Step, LinkRoom;
    if n == 0 {
      FormattedInv();
    } else {
      RunInv(states, ops, rs, n - 1);
      StepKeepsInv(states[n - 1], ops[n - 1], states[n], rs[n - 1]);
    }
  }

  // ---------------------------------------------------------------- what the invariant means

  /** An inode is allocated exactly when it is the root or some directory names it: nothing is lost, nothing dangles. */
  lemma AllocatedIffNamed(s: Nodes, i: nat)
    requires Inv(s)
    ensures i in s <==> i == 1 || exists p, x :: Proper(x) && Has(s, p, x, i)
  {
    if i in s && i != 1 {
      if s[i].File? {
        FileNamed(s, i);
      } else {
        DirNamed(s, i);
      }
    }
  }

  lemma DirNamed(s: Nodes, d: nat)
    requires Inv(s) && DirAt(s, d) && d != 1
    ensures exists p, x :: Proper(x) && Has(s, p, x, d)
  {
    hide Inv;
    var x := ProperName(s, d);
    assert Proper(x) && Has(s, Up(s, d), x, d);
  }

  lemma FileNamed(s: Nodes, f: nat)
    requires Inv(s) && f in s && s[f].File?
    ensures exists p, x :: Proper(x) && Has(s, p, x, f)
  {
    assert |NamesOf(s, f)| > 0;
    var n :| n in NamesOf(s, f);
    assert Has(s, n.0, n.1, f);
    assert Has(s, n.0, DOT, n.0) && Has(s, n.0, DOTDOT, Up(s, n.0));
  }

  /** The inode a path of names leads to from the root; 0 if there is none. */
  function Follow(s: Nodes, path: seq<Name>): nat {
    if path == [] then 1
    else
      var p, x := Follow(s, path[..|path| - 1]), path[|path| - 1];
      if DirAt(s, p) && x in s[p].entries then s[p].entries[x].ino else 0
  }

  predicate AllProper(path: seq<Name>) { forall i :: 0 <= i < |path| ==> Proper(path[i]) }

  lemma ProperName(s: Nodes, d: nat) returns (x: Name)
    requires Inv(s) && DirAt(s, d) && d != 1
    ensures NamedOnce(s, d, x)
  {
    x :| NamedOnce(s, d, x);
  }

  lemma SomeDepth(s: Nodes, d: nat) returns (k: nat)
    requires Inv(s) && DirAt(s, d)
    ensures Depth(s, d, k)
  {
    k :| Depth(s, d, k);
  }

  lemma Extend(s: Nodes, path: seq<Name>, x: Name, i: nat)
    requires AllProper(path) && Proper(x) && Has(s, Follow(s, path), x, i)
    ensures AllProper(path + [x]) && Follow(s, path + [x]) == i
  {
    assert (path + [x])[..|path|] == path;
  }

  lemma {:induction false} PathToDir(s: Nodes, d: nat, k: nat) returns (path: seq<Name>)
    requires Inv(s) && Depth(s, d, k)
    ensures AllProper(path) && |path| == k && Follow(s, path) == d
    decreases k
  {
    hide Inv, Has, Up;
    if k == 0 {
      path := [];
    } else {
      var front := PathToDir(s, Up(s, d), k - 1);
      var x := ProperName(s, d);
      path := front + [x];
      Extend(s, front, x, d);
    }
  }

  /** Every allocated inode is reached from the root along proper names. */
  lemma EverythingReachable(s: Nodes, i: nat) returns (path: seq<Name>)
    requires Inv(s) && i in s
    ensures AllProper(path) && Follow(s, path) == i
  {
    hide Inv, Follow, Depth;
    if DirAt(s, i) {
      var k := SomeDepth(s, i);
      path := PathToDir(s, i, k);
    } else {
      FileNamed(s, i);
      var p: nat, x: Name :| Proper(x) && Has(s, p, x, i);
      var k := SomeDepth(s, p);
      var front := PathToDir(s, p, k);
      path := front + [x];
      Extend(s, front, x, i);
    }
  }

  /** A directory is reached along one path only: the directories form a tree. */
  lemma {:induction false} OnePath(s: Nodes, a: seq<Name>, b: seq<Name>)
    requires Inv(s) && AllProper(a) && AllProper(b) && Follow(s, a) == Follow(s, b) && DirAt(s, Follow(s, a))
    ensures a == b
  {
    hide Inv;
    var d := Follow(s, a);
    if a != [] { LastStep(s, a); }
    if b != [] { LastStep(s, b); }
    if a != [] && b != [] {
      var x := ProperName(s, d);
      OnePath(s, a[..|a| - 1], b[..|b| - 1]);
      assert a == a[..|a| - 1] + [a[|a| - 1]] && b == b[..|b| - 1] + [b[|b| - 1]];
    }
  }

  lemma LastStep(s: Nodes, a: seq<Name>)
    requires Inv(s) && AllProper(a) && a != [] && Follow(s, a) in s
    ensures var p := Follow(s, a[..|a| - 1]);
            Has(s, p, a[|a| - 1], Follow(s, a)) && Follow(s, a) != 1
  {
    assert Has(s, Follow(s, a[..|a| - 1]), a[|a| - 1], Follow(s, a));
  }

  /** In every run: link counts are right, the directories are a tree rooted at inode 1, and an inode is
      allocated exactly while it has a name. */
  lemma RunIsTree(states: seq<Nodes>, ops: seq<Op>, rs: seq<Result<nat>>, n: nat, i: nat)
    requires IsRun(states, ops, rs) && n <= |ops|
    ensures var s := states[n];
            && Inv(s)
            && (i in s <==> i == 1 || exists p, x :: Proper(x) && Has(s, p, x, i))
            && (i in s && s[i].File? ==> s[i].links == |NamesOf(s, i)|)
            && (DirAt(s, i) ==> s[i].links == 2 + |Subdirs(s, i)|)
            && forall a, b :: AllProper(a) && AllProper(b) && Follow(s, a) == Follow(s, b) && DirAt(s, Follow(s, a)) ==> a == b
  {
    hide Step, LinkRoom, Tree, Follow, NamesOf, Subdirs;
    var s := states[n];
    RunInv(states, ops, rs, n);
    AllocatedIffNamed(s, i);
    forall a, b | AllProper(a) && AllProper(b) && Follow(s, a) == Follow(s, b) && DirAt(s, Follow(s, a)) ensures a == b {
      OnePath(s, a, b);
    }
  }

  // ---------------------------------------------------------------- the limit of the link count

  /** Past 65535 names the count wraps to zero, and the next Unlink frees a file that still has names. */
  lemma WrapFreesNamedFile(s: Nodes, f: U32, p: nat, x: Name, y: Name)
    requires Inv(s) && f in s && s[f].File? && s[f].links == MAX_LINKS && DirAt(s, p)
    requires x !in s[p].entries && Proper(y) && y in s[p].entries && s[p].entries[y].ino == f
    ensures var t := Linked(s, p, x, f);
            && t[f].links == 0 && FileAt(t, p, y)
            && f !in Unlinked(t, p, y) && Has(Unlinked(t, p, y), p, x, f)
  {
    hide Inv;
  }

  // ---------------------------------------------------------------- the operations

  class Namespace {
    var nodes: Nodes

    constructor ()
      ensures nodes == Formatted() && Inv(nodes)
    {
      nodes := Formatted();
      new;
      FormattedInv();
    }

    /** The least free inode number, if any. */
    method AllocInode() returns (r: Result<U32>)
      ensures r.Ok? ==> LeastFree(nodes, r.value)
      ensures r.Err? ==> r == Err(NoSpace) && forall m :: 1 <= m <= INODE_COUNT ==> m in nodes
    {
      var n := 1;
      while n <= INODE_COUNT && n in nodes
        invariant 1 <= n <= INODE_COUNT + 1 && forall m :: 1 <= m < n ==> m in nodes
      {
        n := n + 1;
      }
      if n > INODE_COUNT { return Err(NoSpace); }
      return Ok(n);
    }

    /** Makes a directory; room says whether its blocks and the parent's new entry found space. */
    method Mkdir(parent: U32, name: Name, room: bool) returns (r: Result<nat>)
      requires Inv(nodes)
      modifies this
      ensures Inv(nodes) && Step(old(nodes), Op.Mkdir(parent, name), nodes, r)
      ensures r.Ok? <==> Absent(old(nodes), parent, name) && room && exists n :: LeastFree(old(nodes), n)
    {
      hide Inv, MadeDir;
      var snapshot := nodes;
      if name == [] { return Err(InvalidArg); }
      if |name| > MAX_NAME { return Err(NameTooLong); }
      if parent !in nodes || !nodes[parent].Dir? { return Err(NotDir); }
      if name in nodes[parent].entries { return Err(Exists); }
      var n := AllocInode();
      if n.Err? { return Err(n.error); }
      MadeDirKeepsInv(nodes, parent, name, n.value);
      nodes := nodes[n.value := Dir(2, DirEntries(n.value, parent))];
      var up := nodes[parent];
      up := Dir((up.links + 1) % 0x1_0000, up.entries);
      if !room {
        nodes := snapshot;
        return Err(NoSpace);
      }
      nodes := nodes[parent := Dir(up.links, up.entries[name := Target(n.value, FT_DIR)])];
      assert nodes == MadeDir(snapshot, parent, name, n.value) by { MadeDirOrder(snapshot, parent, name, n.value); }
      return Ok(n.value);
    }

    /** Removes an empty directory. */
    method Rmdir(parent: U32, name: Name) returns (r: Result<nat>)
      requires Inv(nodes)
      modifies this
      ensures Inv(nodes) && Step(old(nodes), Op.Rmdir(parent, name), nodes, r)
      ensures r.Ok? <==> EmptyAt(old(nodes), parent, name) && Proper(name) && name != []
    {
      hide Inv, RemovedDir;
      if name == [] || name == DOT || name == DOTDOT { return Err(InvalidArg); }
      if parent !in nodes || !nodes[parent].Dir? { return Err(NotDir); }
      if name !in nodes[parent].entries { return Err(NotFound); }
      var target := nodes[parent].entries[name].ino;
      if target !in nodes || !nodes[target].Dir? { return Err(NotDir); }
      if !(nodes[target].entries.Keys <= {DOT, DOTDOT}) { return Err(NotEmpty); }
      RemovedDirKeepsInv(nodes, parent, name);
      RemovedDirOrder(nodes, parent, name);
      var up := nodes[parent];
      nodes := nodes - {target};
      nodes := nodes[parent := Dir(if up.links > 0 then up.links - 1 else up.links, up.entries - {name})];
      return Ok(0);
    }

    /** Creates a regular file, or returns the one that has the name. */
    method Create(parent: U32, name: Name, room: bool) returns (r: Result<nat>)
      requires Inv(nodes)
      modifies this
      ensures Inv(nodes) && Step(old(nodes), Op.Create(parent, name), nodes, r)
      ensures r.Ok? <==> name != [] && (FileAt(old(nodes), parent, name)
                                        || (Absent(old(nodes), parent, name) && room && exists n :: LeastFree(old(nodes), n)))
    {
      hide Inv, Created;
      var snapshot := nodes;
      if name == [] { return Err(InvalidArg); }
      if parent !in nodes || !nodes[parent].Dir? { return Err(NotDir); }
      if name in nodes[parent].entries {
        var existing := nodes[parent].entries[name].ino;
        if existing !in nodes { return Err(NotFound); }
        if nodes[existing].Dir? { return Err(IsDir); }
        return Ok(existing);
      }
      var n := AllocInode();
      if n.Err? { return Err(n.error); }
      nodes := nodes[n.value := File(1, FT_REG_FILE)];
      if |name| > MAX_NAME || !room {
        nodes := snapshot;
        return Err(if |name| > MAX_NAME then NameTooLong else NoSpace);
      }
      CreatedKeepsInv(snapshot, parent, name, n.value, FT_REG_FILE);
      var up := nodes[parent];
      nodes := nodes[parent := Dir(up.links, up.entries[name := Target(n.value, FT_REG_FILE)])];
      assert nodes == Created(snapshot, parent, name, n.value, FT_REG_FILE) by {
        CreatedOrder(snapshot, parent, name, n.value, FT_REG_FILE);
      }
      return Ok(n.value);
    }

    /** Gives a file one more name; the invariant survives exactly when the 16-bit count has room. */
    method Link(file: U32, parent: U32, name: Name, room: bool) returns (r: Result<nat>)
      requires Inv(nodes) && (file in nodes ==> nodes[file].links <= MAX_LINKS)
      modifies this
      ensures Step(old(nodes), Op.Link(file, parent, name), nodes, r)
      ensures r.Err? ==> Inv(nodes)
      ensures r.Ok? ==> file in old(nodes) && (old(nodes)[file].links < MAX_LINKS <==> Inv(nodes))
      ensures r.Ok? <==> file in old(nodes) && old(nodes)[file].File? && Absent(old(nodes), parent, name) && room
    {
      hide Inv, Linked;
      if file !in nodes { return Err(NotFound); }
      if nodes[file].Dir? { return Err(IsDir); }
      if name == [] { return Err(InvalidArg); }
      if parent !in nodes || !nodes[parent].Dir? { return Err(NotDir); }
      if name in nodes[parent].entries { return Err(Exists); }
      if |name| > MAX_NAME { return Err(NameTooLong); }
      if !room { return Err(NoSpace); }
      LinkedKeepsInvIff(nodes, parent, name, file);
      LinkedOrder(nodes, parent, name, file);
      var target, up := nodes[file], nodes[parent];
      nodes := nodes[parent := Dir(up.links, up.entries[name := Target(file, target.fileType)])];
      nodes := nodes[file := File((target.links + 1) % 0x1_0000, target.fileType)];
      return Ok(0);
    }

    /** Takes a name away; the file goes with its last name. */
    method Unlink(parent: U32, name: Name) returns (r: Result<nat>)
      requires Inv(nodes)
      modifies this
      ensures Inv(nodes) && Step(old(nodes), Op.Unlink(parent, name), nodes, r)
      ensures r.Ok? <==> FileAt(old(nodes), parent, name) && Proper(name) && name != []
      ensures r.Ok? ==>
                var f := old(nodes)[parent].entries[name].ino;
                f !in nodes <==> NamesOf(old(nodes), f) == {(parent, name)}
    {
      hide Inv, Unlinked, NamesOf;
      if name == [] || name == DOT || name == DOTDOT { return Err(InvalidArg); }
      if parent !in nodes || !nodes[parent].Dir? { return Err(NotDir); }
      if name !in nodes[parent].entries { return Err(NotFound); }
      var f := nodes[parent].entries[name].ino;
      if f !in nodes { return Err(NotFound); }
      var target := nodes[f];
      if target.Dir? { return Err(IsDir); }
      UnlinkedKeepsInv(nodes, parent, name);
      UnlinkedOrder(nodes, parent, name);
      nodes := nodes[parent := Dir(nodes[parent].links, nodes[parent].entries - {name})];
      var left := if target.links > 0 then target.links - 1 else target.links;
      if left == 0 {
        nodes := nodes - {f};
        return Ok(0);
      }
      nodes := nodes[f := File(left, target.fileType)];
      return Ok(0);
    }
  }

  // ---------------------------------------------------------------- the order of the steps does not matter

  lemma MadeDirOrder(s: Nodes, p: U32, x: Name, n: U32)
    requires DirAt(s, p) && n !in s
    ensures MadeDir(s, p, x, n)
         == s[n := Dir(2, DirEntries(n, p))][p := Dir((s[p].links + 1) % 0x1_0000, s[p].entries[x := Target(n, FT_DIR)])]
  {
  }

  lemma RemovedDirOrder(s: Nodes, p: nat, x: Name)
    requires Inv(s) && EmptyAt(s, p, x) && Proper(x)
    ensures RemovedDir(s, p, x)
         == (s - {s[p].entries[x].ino})[p := Dir(if s[p].links > 0 then s[p].links - 1 else 0, s[p].entries - {x})]
  {
    hide Inv;
    assert s[p].entries[x].ino != p by { EmptyIsOther(s, p, x); }
  }

  lemma EmptyIsOther(s: Nodes, p: nat, x: Name)
    requires Inv(s) && EmptyAt(s, p, x) && Proper(x)
    ensures s[p].entries[x].ino != p
  {
    EmptyFacts(s, p, x);
  }

  lemma CreatedOrder(s: Nodes, p: nat, x: Name, n: U32, fileType: Byte)
    requires DirAt(s, p) && n !in s
    ensures Created(s, p, x, n, fileType)
         == s[n := File(1, fileType)][p := Dir(s[p].links, s[p].entries[x := Target(n, fileType)])]
  {
  }

  lemma LinkedOrder(s: Nodes, p: nat, x: Name, f: U32)
    requires DirAt(s, p) && f in s && s[f].File?
    ensures Linked(s, p, x, f) == s[p := Dir(s[p].links, s[p].entries[x := Target(f, s[f].fileType)])]
                                   [f := File((s[f].links + 1) % 0x1_0000, s[f].fileType)]
  {
  }

  lemma UnlinkedOrder(s: Nodes, p: nat, x: Name)
    requires FileAt(s, p, x)
    ensures var f := s[p].entries[x].ino;
            var left := if s[f].links > 0 then s[f].links - 1 else s[f].links;
            var t := s[p := Dir(s[p].links, s[p].entries - {x})];
            Unlinked(s, p, x) == if left == 0 then t - {f} else t[f := File(left, s[f].fileType)]
  {
  }
}
