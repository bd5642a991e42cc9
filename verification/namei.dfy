/** Path resolution with a limit on symbolic links, against an unlimited walk over path components. */
module PathResolution {
  import opened Bytes
  import opened DirFormat
  import opened DirMaps
  import opened DirRead

  const MAX_SYMLINK_DEPTH: nat := 40
  const SLASH: Byte := 47

  type Path = seq<Byte>

  /** What resolution reads of an inode. */
  datatype Item = Directory(entries: map<Name, Target>) | Symlink(target: Path) | BadSymlink | Other

  /** The readable inodes, never inode 0; any graph is allowed, cyclic or dangling. */
  type World = map<nat, Item>

  // ---------------------------------------------------------------- path strings

  /** The parts between slashes. */
  function Split(s: Path): (r: seq<Path>)
    ensures r != []
  {
    if s == [] then [[]]
    else
      var rest := Split(s[1..]);
      if s[0] == SLASH then [[]] + rest else [[s[0]] + rest[0]] + rest[1..]
  }

  function Join(parts: seq<Path>): Path {
    if parts == [] then []
    else if |parts| == 1 then parts[0]
    else parts[0] + [SLASH] + Join(parts[1..])
  }

  function TrimLeft(s: Path): Path { if s != [] && s[0] == SLASH then TrimLeft(s[1..]) else s }

  /** The parts that name something: empty parts and "." do not. */
  function Clean(parts: seq<Path>): seq<Path> {
    if parts == [] then []
    else if parts[0] == [] || parts[0] == DOT then Clean(parts[1..])
    else [parts[0]] + Clean(parts[1..])
  }

  /** The components of a path. */
  function Components(s: Path): seq<Path> { Clean(Split(s)) }

  predicate Slashless(parts: seq<Path>) { forall i :: 0 <= i < |parts| ==> SLASH !in parts[i] }

  lemma {:induction false} SplitConcat(a: Path, b: Path)
    ensures Split(a + [SLASH] + b) == Split(a) + Split(b)
  {
    hide Split;
    var s := a + [SLASH] + b;
    SplitFirst(s);
    if a == [] {
      assert s[1..] == b && s[0] == SLASH;
      SplitEmpty();
    } else {
      SplitConcat(a[1..], b);
      assert s[1..] == a[1..] + [SLASH] + b && s[0] == a[0];
      SplitFirst(a);
      ConsConcat(Split(a[1..]), Split(b), a[0]);
    }
  }

  lemma SplitEmpty()
    ensures Split([]) == [[]]
  {
  }

  lemma ConsConcat(rest: seq<Path>, tail: seq<Path>, c: Byte)
    requires rest != []
    ensures [[]] + (rest + tail) == [[]] + rest + tail
    ensures [[c] + (rest + tail)[0]] + (rest + tail)[1..] == [[c] + rest[0]] + rest[1..] + tail
  {
    assert (rest + tail)[1..] == rest[1..] + tail && (rest + tail)[0] == rest[0];
  }

  lemma SplitFirst(s: Path)
    requires s != []
    ensures var rest := Split(s[1..]);
            Split(s) == if s[0] == SLASH then [[]] + rest else [[s[0]] + rest[0]] + rest[1..]
  {
  }

  lemma {:induction false} SplitOne(p: Path)
    requires SLASH !in p
    ensures Split(p) == [p]
  {
    if p != [] {
      SplitOne(p[1..]);
      assert p == [p[0]] + p[1..];
    }
  }

  lemma {:induction false} SplitSlashless(s: Path)
    ensures Slashless(Split(s))
  {
    if s != [] {
      SplitSlashless(s[1..]);
      var rest := Split(s[1..]);
      forall i | 0 <= i < |Split(s)| ensures SLASH !in Split(s)[i] {
        if s[0] == SLASH {
          if i > 0 { assert Split(s)[i] == rest[i - 1]; }
        } else if i > 0 {
          assert Split(s)[i] == rest[i];
        }
      }
    }
  }

  lemma {:induction false} CleanConcat(a: seq<Path>, b: seq<Path>)
    ensures Clean(a + b) == Clean(a) + Clean(b)
  {
    if a == [] {
      assert a + b == b;
    } else {
      CleanConcat(a[1..], b);
      assert (a + b)[1..] == a[1..] + b && (a + b)[0] == a[0];
    }
  }

  /** The components of two paths joined by a slash. */
  lemma ComponentsConcat(a: Path, b: Path)
    ensures Components(a + [SLASH] + b) == Components(a) + Components(b)
  {
    hide Split, Clean;
    SplitConcat(a, b);
    CleanConcat(Split(a), Split(b));
  }

  lemma {:induction false} ComponentsTrim(s: Path)
    ensures Components(TrimLeft(s)) == Components(s)
  {
    if s != [] && s[0] == SLASH { ComponentsTrim(s[1..]); }
  }

  /** Splitting undoes joining, as far as components go. */
  lemma {:induction false} ComponentsJoin(parts: seq<Path>)
    requires Slashless(parts)
    ensures Components(Join(parts)) == Clean(parts)
  {
    if parts == [] {
      SplitEmpty();
    } else if |parts| == 1 {
      SplitOne(parts[0]);
      assert parts == [parts[0]];
    } else {
      ComponentsJoin(parts[1..]);
      ComponentsConcat(parts[0], Join(parts[1..]));
      SplitOne(parts[0]);
      CleanConcat([parts[0]], parts[1..]);
      assert parts == [parts[0]] + parts[1..];
    }
  }

  // ---------------------------------------------------------------- the unlimited walk

  /** Where the walk is: at an inode with components to go and so many links followed, or at its end. */
  datatype Walk = At(cur: nat, rest: seq<Path>, links: nat) | Halt(result: Result<nat>, links: nat)

  predicate Absolute(s: Path) { s != [] && s[0] == SLASH }

  /** One step: the next component is looked up; a symbolic link is replaced by its target. */
  function Next(w: World, at: Walk): Walk {
    if at.Halt? then at
    else if at.rest == [] then Halt(if at.cur in w then Ok(at.cur) else Err(InvalidArg), at.links)
    else
      var x, more := at.rest[0], at.rest[1..];
      if at.cur !in w then Halt(Err(InvalidArg), at.links)
      else if !w[at.cur].Directory? then Halt(Err(NotDir), at.links)
      else if x !in w[at.cur].entries then Halt(Err(NotFound), at.links)
      else
        var child := w[at.cur].entries[x].ino;
        if child !in w then Halt(Err(InvalidArg), at.links)
        else match w[child]
          case Symlink(t) => At(if Absolute(t) then 1 else at.cur, Components(t) + more, at.links + 1)
          case BadSymlink => Halt(Err(BadFS), at.links)
          case _ => At(child, more, at.links)
  }

  function Run(w: World, at: Walk, n: nat): Walk { if n == 0 then at else Next(w, Run(w, at, n - 1)) }

  /** The walk of a path from directory cwd. */
  function Start(cwd: nat, path: Path, links: nat): Walk {
    At(if Absolute(path) then 1 else if cwd == 0 then 1 else cwd, Components(path), links)
  }

  /** r is what the walk ends with after n steps and at most 40 links, or the loop error at its 41st link. */
  ghost predicate VerdictAt(w: World, at: Walk, r: Result<nat>, n: nat) {
    var end := Run(w, at, n);
    if r == Err(Loop) then end.At? && end.links == MAX_SYMLINK_DEPTH + 1
    else end.Halt? && end.result == r && end.links <= MAX_SYMLINK_DEPTH
  }

  ghost predicate Verdict(w: World, at: Walk, r: Result<nat>) { exists n: nat :: VerdictAt(w, at, r, n) }

  lemma {:induction false} RunSplit(w: World, at: Walk, m: nat, n: nat)
    ensures Run(w, Run(w, at, m), n) == Run(w, at, m + n)
  {
    hide Next;
    if n > 0 { RunSplit(w, at, m, n - 1); }
  }

  /** Links only accumulate, and a walk that has ended stays ended. */
  lemma {:induction false} RunMonotone(w: World, at: Walk, n: nat)
    ensures Run(w, at, n).links >= at.links && (at.Halt? ==> Run(w, at, n) == at)
  {
    if n > 0 { RunMonotone(w, at, n - 1); }
  }

  lemma HaltsOnce(w: World, at: Walk, m: nat, n: nat)
    requires Run(w, at, m).Halt? && m <= n
    ensures Run(w, at, n) == Run(w, at, m)
  {
    RunSplit(w, at, m, n - m);
    RunMonotone(w, Run(w, at, m), n - m);
  }

  /** The verdict is exact: a result other than the loop error is the one the unlimited walk ends with, after at
      most 40 links; the loop error means that the walk follows a 41st link, and nothing else does. */
  lemma VerdictExact(w: World, at: Walk, r: Result<nat>, n: nat)
    requires Verdict(w, at, r) && at.At?
    ensures r == Err(Loop) <==> exists m: nat :: Run(w, at, m).links > MAX_SYMLINK_DEPTH
    ensures Run(w, at, n).Halt? && r != Err(Loop) ==> Run(w, at, n).result == r && Run(w, at, n).links <= MAX_SYMLINK_DEPTH
    ensures Run(w, at, n).Halt? && Run(w, at, n).links <= MAX_SYMLINK_DEPTH ==> r == Run(w, at, n).result
  {
    hide Next, Run;
    var k: nat :| VerdictAt(w, at, r, k);
    if r == Err(Loop) {
      LoopExact(w, at, k, n);
    } else {
      forall m: nat ensures Run(w, at, m).links <= MAX_SYMLINK_DEPTH && (Run(w, at, m).Halt? ==> Run(w, at, m).result == r) {
        EndExact(w, at, k, m);
      }
    }
  }

  lemma EndExact(w: World, at: Walk, k: nat, m: nat)
    requires Run(w, at, k).Halt? && Run(w, at, k).links <= MAX_SYMLINK_DEPTH
    ensures Run(w, at, m).links <= MAX_SYMLINK_DEPTH && (Run(w, at, m).Halt? ==> Run(w, at, m) == Run(w, at, k))
  {
    hide Next, Run;
    if m >= k {
      HaltsOnce(w, at, k, m);
    } else {
      RunSplit(w, at, m, k - m);
      RunMonotone(w, Run(w, at, m), k - m);
    }
  }

  lemma LoopExact(w: World, at: Walk, k: nat, n: nat)
    requires Run(w, at, k).At? && Run(w, at, k).links > MAX_SYMLINK_DEPTH
    ensures Run(w, at, n).Halt? ==> Run(w, at, n).links > MAX_SYMLINK_DEPTH
  {
    hide Next, Run;
    if n >= k {
      RunSplit(w, at, k, n - k);
      RunMonotone(w, Run(w, at, k), n - k);
    } else {
      RunSplit(w, at, n, k - n);
      RunMonotone(w, Run(w, at, n), k - n);
    }
  }

  // ---------------------------------------------------------------- the resolver

  /** Making a symbolic link refuses an empty target. */
  ghost predicate TargetsNonEmpty(w: World) { forall i :: i in w && w[i].Symlink? ==> w[i].target != [] }

  /** The path left to resolve when a link is met: its target, then the parts after it. */
  function Remaining(target: Path, after: seq<Path>): Path {
    var rest := Join(after);
    if after != [] && rest != [] then target + [SLASH] + rest else target
  }

  lemma RemainingComponents(target: Path, after: seq<Path>)
    requires Slashless(after)
    ensures Components(Remaining(target, after)) == Components(target) + Clean(after)
    ensures target != [] ==> Remaining(target, after) != [] && (Absolute(Remaining(target, after)) <==> Absolute(target))
  {
    hide Split, Clean;
    ComponentsJoin(after);
    if after != [] && Join(after) != [] {
      ComponentsConcat(target, Join(after));
    } else {
      EmptyComponents();
      assert Components(target) + [] == Components(target);
    }
  }

  lemma EmptyComponents()
    ensures Components([]) == [] && Clean([]) == []
  {
    SplitEmpty();
  }

  /** Following a link met in directory cur, the resolver goes on where the walk goes on exactly when the target is
      not empty, or nothing but an empty string comes after it, or the directory is the root: an empty target with
      more to come turns into an absolute path. */
  lemma FollowsWalkIff(cur: nat, cwd: nat, target: Path, after: seq<Path>, links: nat)
    requires cur != 0 && Slashless(after)
    ensures Start(if Absolute(target) then cwd else cur, Remaining(target, after), links)
         == At(if Absolute(target) then 1 else cur, Components(target) + Clean(after), links)
       <==> target != [] || after == [] || Join(after) == [] || cur == 1
  {
    hide Split, Clean, Join, Components;
    RemainingComponents(target, after);
  }

  /** Resolves a path. It ends on every graph of directories and links, and when no link has an empty target its
      result is the verdict of the unlimited walk. */
  method Resolve(w: World, cwd: nat, path: Path, depth: nat) returns (r: Result<nat>)
    requires depth <= MAX_SYMLINK_DEPTH + 1 && 0 !in w
    ensures TargetsNonEmpty(w) ==> Verdict(w, Start(cwd, path, depth), r)
    decreases MAX_SYMLINK_DEPTH + 1 - depth
  {
    hide Split, Clean, Next, TargetsNonEmpty, Join, Components;
    ghost var start := Start(cwd, path, depth);
    assert Run(w, start, 0) == start;
    if depth > MAX_SYMLINK_DEPTH {
      assert VerdictAt(w, start, Err(Loop), 0);
      return Err(Loop);
    }
    var cur: nat := if cwd == 0 then 1 else cwd;
    if path == [] {
      EmptyComponents();
      r := ReadFinal(w, cur, start, 0);
      return;
    }
    var trimmed := path;
    if path[0] == SLASH {
      cur := 1;
      trimmed := TrimLeft(path);
      ComponentsTrim(path);
    }
    if trimmed == [] {
      EmptyComponents();
      r := ReadFinal(w, cur, start, 0);
      return;
    }
    var parts := Split(trimmed);
    SplitSlashless(trimmed);
    assert Components(trimmed) == Clean(parts) by { ComponentsDef(trimmed); }
    var i := 0;
    ghost var n: nat := 0;
    while i < |parts|
      invariant 0 <= i <= |parts| && Run(w, start, n) == At(cur, Clean(parts[i..]), depth)
    {
      var part := parts[i];
      CleanStep(parts, i);
      if part == [] || part == DOT {
        i := i + 1;
        continue;
      }
      NextCases(w, cur, part, Clean(parts[i + 1..]), depth);
      if cur !in w {
        assert VerdictAt(w, start, Err(InvalidArg), n + 1);
        return Err(InvalidArg);
      }
      if !w[cur].Directory? {
        assert VerdictAt(w, start, Err(NotDir), n + 1);
        return Err(NotDir);
      }
      if part !in w[cur].entries {
        assert VerdictAt(w, start, Err(NotFound), n + 1);
        return Err(NotFound);
      }
      var child := w[cur].entries[part].ino;
      if child !in w {
        assert VerdictAt(w, start, Err(InvalidArg), n + 1);
        return Err(InvalidArg);
      }
      if w[child].BadSymlink? {
        assert VerdictAt(w, start, Err(BadFS), n + 1);
        return Err(BadFS);
      }
      if w[child].Symlink? {
        var remaining := Remaining(w[child].target, parts[i + 1..]);
        var from := if Absolute(w[child].target) then cwd else cur;
        r := Resolve(w, from, remaining, depth + 1);
        if TargetsNonEmpty(w) { FollowLink(w, start, n, cur, child, from, parts[i + 1..], depth, r); }
        return;
      }
      cur := child;
      n := n + 1;
      i := i + 1;
    }
    assert parts[i..] == [];
    EmptyComponents();
    r := ReadFinal(w, cur, start, n);
  }

  lemma ComponentsDef(s: Path)
    ensures Components(s) == Clean(Split(s))
  {
  }

  lemma CleanStep(parts: seq<Path>, i: nat)
    requires i < |parts|
    ensures parts[i] == [] || parts[i] == DOT ==> Clean(parts[i..]) == Clean(parts[i + 1..])
    ensures parts[i] != [] && parts[i] != DOT ==> Clean(parts[i..]) == [parts[i]] + Clean(parts[i + 1..])
  {
    assert parts[i..][0] == parts[i] && parts[i..][1..] == parts[i + 1..];
  }

  lemma NextCases(w: World, cur: nat, part: Path, more: seq<Path>, depth: nat)
    ensures var next := Next(w, At(cur, [part] + more, depth));
            if cur !in w then next == Halt(Err(InvalidArg), depth)
            else if !w[cur].Directory? then next == Halt(Err(NotDir), depth)
            else if part !in w[cur].entries then next == Halt(Err(NotFound), depth)
            else
              var child := w[cur].entries[part].ino;
              if child !in w then next == Halt(Err(InvalidArg), depth)
              else if w[child].BadSymlink? then next == Halt(Err(BadFS), depth)
              else if w[child].Symlink? then
                next == At(if Absolute(w[child].target) then 1 else cur, Components(w[child].target) + more, depth + 1)
              else next == At(child, more, depth)
  {
    hide Components;
    assert ([part] + more)[1..] == more;
  }

  /** The last read, once all components are used up. */
  method ReadFinal(w: World, cur: nat, ghost start: Walk, ghost n: nat) returns (r: Result<nat>)
    requires Run(w, start, n).At? && Run(w, start, n).cur == cur && Run(w, start, n).rest == []
    requires Run(w, start, n).links <= MAX_SYMLINK_DEPTH
    ensures Verdict(w, start, r)
  {
    r := if cur in w then Ok(cur) else Err(InvalidArg);
    assert VerdictAt(w, start, r, n + 1);
  }

  /** Resolving what is left of a path after a link continues the walk. */
  lemma FollowLink(w: World, start: Walk, n: nat, cur: nat, child: nat, from: nat, after: seq<Path>, depth: nat, r: Result<nat>)
    requires TargetsNonEmpty(w) && child in w && w[child].Symlink? && Slashless(after) && cur in w && cur != 0
    requires from == cur || Absolute(w[child].target)
    requires Run(w, start, n + 1)
          == At(if Absolute(w[child].target) then 1 else cur, Components(w[child].target) + Clean(after), depth + 1)
    requires Verdict(w, Start(from, Remaining(w[child].target, after), depth + 1), r)
    ensures Verdict(w, start, r)
  {
    hide Clean, Components, Next;
    var target := w[child].target;
    RemainingComponents(target, after);
    var again := Start(from, Remaining(target, after), depth + 1);
    assert again == Run(w, start, n + 1);
    var k: nat :| VerdictAt(w, again, r, k);
    RunSplit(w, start, n + 1, k);
    assert VerdictAt(w, start, r, n + 1 + k);
  }
}
