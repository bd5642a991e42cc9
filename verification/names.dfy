/** The name space: directories, files and the entries that name them; its invariant, and what keeps it. */
module Names {
  import opened Bytes
  import opened Allocation
  import opened DirFormat
  import opened DirMaps
  import opened DirRead

  const MAX_LINKS: nat := 0xFFFF

  /** An allocated inode: a directory with its name map, or anything else. */
  datatype Node = Dir(links: nat, entries: map<Name, Target>) | File(links: nat, fileType: Byte)

  type Nodes = map<nat, Node>

  predicate Proper(x: Name) { x != DOT && x != DOTDOT }

  predicate DirAt(s: Nodes, d: nat) { d in s && s[d].Dir? }

  /** Directory p has an entry x for inode i. */
  predicate Has(s: Nodes, p: nat, x: Name, i: nat) { DirAt(s, p) && x in s[p].entries && s[p].entries[x].ino == i }

  /** The directory ".." leads to. */
  function Up(s: Nodes, d: nat): nat { if DirAt(s, d) && DOTDOT in s[d].entries then s[d].entries[DOTDOT].ino else 0 }

  // ---------------------------------------------------------------- the invariant

  ghost predicate InRange(s: Nodes) { forall i :: i in s ==> 1 <= i <= INODE_COUNT }

  /** The file type an entry for this node records. */
  function Kind(node: Node): Byte { if node.Dir? then FT_DIR else node.fileType }

  /** Entries name allocated inodes and record their kind. */
  ghost predicate Typed(s: Nodes) {
    && (forall p, x :: DirAt(s, p) && x in s[p].entries ==>
          s[p].entries[x].ino in s && s[p].entries[x].fileType == Kind(s[s[p].entries[x].ino]))
    && (forall f :: f in s && s[f].File? ==> s[f].fileType != FT_DIR)
  }

  ghost predicate Dots(s: Nodes) {
    && DirAt(s, 1) && Up(s, 1) == 1
    && forall d :: DirAt(s, d) ==> Has(s, d, DOT, d) && Has(s, d, DOTDOT, Up(s, d)) && DirAt(s, Up(s, d))
  }

  /** d's one proper name is x in the directory its ".." leads to. */
  ghost predicate NamedOnce(s: Nodes, d: nat, x: Name) {
    && Proper(x) && Has(s, Up(s, d), x, d)
    && forall p, y :: Proper(y) && Has(s, p, y, d) ==> p == Up(s, d) && y == x
  }

  /** Every directory but the root has exactly one proper name; the root has none. */
  ghost predicate Parented(s: Nodes) {
    && (forall p, x :: Proper(x) ==> !Has(s, p, x, 1))
    && (forall d :: DirAt(s, d) && d != 1 ==> exists x :: NamedOnce(s, d, x))
  }

  /** Going up k times from d arrives at the root, not before. */
  ghost predicate Depth(s: Nodes, d: nat, k: nat)
    decreases k
  {
    DirAt(s, d) && if k == 0 then d == 1 else d != 1 && Depth(s, Up(s, d), k - 1)
  }

  ghost predicate Grounded(s: Nodes) { forall d :: DirAt(s, d) ==> exists k: nat :: Depth(s, d, k) }

  /** The directories form a tree rooted at inode 1. */
  ghost predicate Tree(s: Nodes) { Dots(s) && Parented(s) && Grounded(s) }

  ghost function NamesOf(s: Nodes, i: nat): set<(nat, Name)> {
    set p, x | p in s && s[p].Dir? && x in s[p].entries && s[p].entries[x].ino == i :: (p, x)
  }

  ghost function Subdirs(s: Nodes, d: nat): set<Name> {
    if DirAt(s, d) then set x | x in s[d].entries && Proper(x) && DirAt(s, s[d].entries[x].ino) else {}
  }

  /** A file's count is the number of its names, and it has one; a directory's is two and its subdirectories. */
  ghost predicate Counted(s: Nodes) {
    && (forall f {:trigger NamesOf(s, f)} :: f in s && s[f].File? ==> s[f].links == |NamesOf(s, f)| && 0 < |NamesOf(s, f)|)
    && (forall d {:trigger Subdirs(s, d)} :: DirAt(s, d) ==> s[d].links == 2 + |Subdirs(s, d)|)
  }

  ghost predicate Inv(s: Nodes) { InRange(s) && Typed(s) && Tree(s) && Counted(s) }

  // ---------------------------------------------------------------- changes

  /** The entries of a new directory. */
  function DirEntries(n: U32, p: U32): map<Name, Target> { map[DOT := Target(n, FT_DIR), DOTDOT := Target(p, FT_DIR)] }

  function SetEntries(s: Nodes, p: nat, m: map<Name, Target>, links: nat): Nodes { s[p := Dir(links, m)] }

  /** Directory p gains entry x. */
  function WithEntry(s: Nodes, p: nat, x: Name, t: Target, links: nat): Nodes
    requires DirAt(s, p)
  {
    SetEntries(s, p, s[p].entries[x := t], links)
  }

  function WithoutEntry(s: Nodes, p: nat, x: Name, links: nat): Nodes
    requires DirAt(s, p)
  {
    SetEntries(s, p, s[p].entries - {x}, links)
  }

  /** Both name spaces have the same directories, named in the same places. */
  ghost predicate SameDirs(s: Nodes, t: Nodes) {
    && (forall d :: DirAt(t, d) <==> DirAt(s, d))
    && (forall q, y, d :: DirAt(s, d) ==> (Has(t, q, y, d) <==> Has(s, q, y, d)))
    && (forall d :: Up(t, d) == Up(s, d))
  }

  lemma {:induction false} SameDepth(s: Nodes, t: Nodes, d: nat, k: nat)
    requires SameDirs(s, t) && Depth(s, d, k)
    ensures Depth(t, d, k)
    decreases k
  {
    hide DirAt, Up;
    if k > 0 { SameDepth(s, t, Up(s, d), k - 1); }
  }

  /** Changes that concern files only keep the tree. */
  lemma SameTree(s: Nodes, t: Nodes)
    requires Tree(s) && SameDirs(s, t)
    ensures Tree(t)
  {
    hide DirAt, Up, Has, Depth, Proper;
    forall d | DirAt(t, d) && d != 1 ensures exists x :: NamedOnce(t, d, x) {
      var x :| NamedOnce(s, d, x);
      assert NamedOnce(t, d, x);
    }
    forall d | DirAt(t, d) ensures exists k: nat :: Depth(t, d, k) {
      var k: nat :| Depth(s, d, k);
      SameDepth(s, t, d, k);
    }
    assert DirAt(s, 1);
  }

  /** Entry x of directory p changes, and neither before nor after does it name a directory. */
  ghost predicate FileChange(s: Nodes, t: Nodes, p: nat, x: Name) {
    && DirAt(s, p) && DirAt(t, p) && Proper(x)
    && (forall q :: DirAt(t, q) <==> DirAt(s, q))
    && (forall q :: DirAt(s, q) && DirAt(t, q) && q != p ==> t[q].entries == s[q].entries)
    && (forall y :: y != x ==> (y in t[p].entries <==> y in s[p].entries))
    && (forall y :: y != x && y in s[p].entries && y in t[p].entries ==> t[p].entries[y] == s[p].entries[y])
    && (x in s[p].entries ==> !DirAt(s, s[p].entries[x].ino))
    && (x in t[p].entries ==> !DirAt(s, t[p].entries[x].ino))
  }

  lemma FileChangeDirs(s: Nodes, t: Nodes, p: nat, x: Name)
    requires FileChange(s, t, p, x)
    ensures SameDirs(s, t)
  {
    forall q, y, d | DirAt(s, d) ensures Has(t, q, y, d) <==> Has(s, q, y, d) {
      if q != p { assert DirAt(t, q) <==> DirAt(s, q); }
    }
    forall d ensures Up(t, d) == Up(s, d) {
      assert DirAt(t, d) <==> DirAt(s, d);
    }
  }

  lemma FileChangeTree(s: Nodes, t: Nodes, p: nat, x: Name)
    requires Tree(s) && FileChange(s, t, p, x)
    ensures Tree(t)
  {
    hide SameDirs, Tree, FileChange;
    FileChangeDirs(s, t, p, x);
    SameTree(s, t);
  }

  /** The sets that count the names of a file and the subdirectories of a directory, when directory p gains x. */
  lemma GainName(s: Nodes, t: Nodes, p: nat, x: Name, i: nat, f: nat)
    requires DirAt(s, p) && DirAt(t, p) && x !in s[p].entries && x in t[p].entries && t[p].entries[x].ino == i
    requires t[p].entries - {x} == s[p].entries
    requires forall q :: q != p && DirAt(s, q) ==> DirAt(t, q) && t[q].entries == s[q].entries
    requires forall q :: q != p && DirAt(t, q) && !DirAt(s, q) ==> forall y :: y in t[q].entries ==> t[q].entries[y].ino != f
    ensures NamesOf(t, f) == if f == i then NamesOf(s, f) + {(p, x)} else NamesOf(s, f)
  {
    assert forall y :: y != x ==> (y in t[p].entries <==> y in s[p].entries);
    assert forall y :: y in s[p].entries ==> y != x && t[p].entries[y] == s[p].entries[y];
    forall q, y ensures (q, y) in NamesOf(t, f) <==> ((q, y) in NamesOf(s, f) || (f == i && q == p && y == x)) {
    }
  }

  lemma LoseName(s: Nodes, t: Nodes, p: nat, x: Name, i: nat, f: nat)
    requires DirAt(s, p) && DirAt(t, p) && x in s[p].entries && s[p].entries[x].ino == i && t[p].entries == s[p].entries - {x}
    requires forall q :: q != p && DirAt(t, q) ==> DirAt(s, q) && t[q].entries == s[q].entries
    requires forall q :: q != p && DirAt(s, q) && !DirAt(t, q) ==> forall y :: y in s[q].entries ==> s[q].entries[y].ino != f
    ensures NamesOf(t, f) == NamesOf(s, f) - (if f == i then {(p, x)} else {})
    ensures (p, x) in NamesOf(s, i)
  {
    forall q, y ensures (q, y) in NamesOf(t, f) <==> ((q, y) in NamesOf(s, f) && !(f == i && q == p && y == x)) {
    }
  }

  // ---------------------------------------------------------------- files

  /** A new file under a new name. */
  function Created(s: Nodes, p: nat, x: Name, n: U32, fileType: Byte): Nodes
    requires DirAt(s, p)
  {
    WithEntry(s, p, x, Target(n, fileType), s[p].links)[n := File(1, fileType)]
  }

  /** One more name for file f; the count wraps at 16 bits. */
  function Linked(s: Nodes, p: nat, x: Name, f: U32): Nodes
    requires DirAt(s, p) && f in s && s[f].File?
  {
    WithEntry(s, p, x, Target(f, s[f].fileType), s[p].links)[f := File((s[f].links + 1) % 0x1_0000, s[f].fileType)]
  }

  /** Name x of directory p removed; the file goes when its count reaches zero. */
  function Unlinked(s: Nodes, p: nat, x: Name): Nodes
    requires DirAt(s, p) && x in s[p].entries && s[p].entries[x].ino in s && s[s[p].entries[x].ino].File?
  {
    var f := s[p].entries[x].ino;
    var left := if s[f].links > 0 then s[f].links - 1 else 0;
    var t := WithoutEntry(s, p, x, s[p].links);
    if left == 0 then t - {f} else t[f := File(left, s[f].fileType)]
  }

  lemma CreatedKeepsInv(s: Nodes, p: nat, x: Name, n: U32, fileType: Byte)
    requires Inv(s) && DirAt(s, p) && x !in s[p].entries && n !in s && 1 <= n <= INODE_COUNT && fileType != FT_DIR
    ensures Inv(Created(s, p, x, n, fileType))
  {
    hide Tree, Typed, Counted, FileChange, InRange, Created;
    DotsProper(s, p, x);
    CreatedTyped(s, p, x, n, fileType);
    CreatedCounted(s, p, x, n, fileType);
    CreatedChange(s, p, x, n, fileType);
    FileChangeTree(s, Created(s, p, x, n, fileType), p, x);
  }

  lemma CreatedChange(s: Nodes, p: nat, x: Name, n: U32, fileType: Byte)
    requires DirAt(s, p) && x !in s[p].entries && n !in s && Proper(x)
    ensures FileChange(s, Created(s, p, x, n, fileType), p, x)
  {
  }

  lemma DotsProper(s: Nodes, p: nat, x: Name)
    requires Tree(s) && DirAt(s, p)
    ensures x !in s[p].entries ==> Proper(x)
    ensures Proper(x) && x in s[p].entries ==> s[p].entries[x].ino != 1
  {
    assert Has(s, p, DOT, p) && Has(s, p, DOTDOT, Up(s, p));
    if Proper(x) && x in s[p].entries { assert Has(s, p, x, s[p].entries[x].ino); }
  }

  lemma CreatedTyped(s: Nodes, p: nat, x: Name, n: U32, fileType: Byte)
    requires Typed(s) && InRange(s) && DirAt(s, p) && n !in s && 1 <= n <= INODE_COUNT && fileType != FT_DIR
    ensures Typed(Created(s, p, x, n, fileType)) && InRange(Created(s, p, x, n, fileType))
  {
  }

  lemma CreatedCounted(s: Nodes, p: nat, x: Name, n: U32, fileType: Byte)
    requires Counted(s) && Typed(s) && DirAt(s, p) && x !in s[p].entries && n !in s && fileType != FT_DIR
    ensures Counted(Created(s, p, x, n, fileType))
  {
    hide NamesOf, Subdirs;
    var t := Created(s, p, x, n, fileType);
    assert t[p].entries - {x} == s[p].entries;
    forall f | f in t && t[f].File? ensures t[f].links == |NamesOf(t, f)| && 0 < |NamesOf(t, f)| {
      GainName(s, t, p, x, n, f);
      if f == n { Unnamed(s, n); }
    }
    forall d | DirAt(t, d) ensures t[d].links == 2 + |Subdirs(t, d)| { GainFile(s, t, p, x, d); }
  }

  lemma Unnamed(s: Nodes, n: nat)
    requires Typed(s) && n !in s
    ensures NamesOf(s, n) == {}
  {
  }

  lemma GainFile(s: Nodes, t: Nodes, p: nat, x: Name, d: nat)
    requires Typed(s) && DirAt(s, p) && DirAt(s, d) && DirAt(t, p) && DirAt(t, d)
    requires forall q :: DirAt(t, q) <==> DirAt(s, q)
    requires d != p ==> t[d].entries == s[d].entries
    requires x !in s[p].entries && x in t[p].entries && !DirAt(t, t[p].entries[x].ino) && t[p].entries - {x} == s[p].entries
    ensures Subdirs(t, d) == Subdirs(s, d)
  {
    assert forall y :: y != x ==> (y in t[p].entries <==> y in s[p].entries);
    assert forall y :: y in s[p].entries ==> y != x && t[p].entries[y] == s[p].entries[y];
  }

  lemma LoseFile(s: Nodes, t: Nodes, p: nat, x: Name, d: nat)
    requires DirAt(s, p) && DirAt(s, d) && DirAt(t, p) && DirAt(t, d)
    requires forall q :: DirAt(t, q) <==> DirAt(s, q)
    requires d != p ==> t[d].entries == s[d].entries
    requires x in s[p].entries && !DirAt(s, s[p].entries[x].ino) && t[p].entries == s[p].entries - {x}
    ensures Subdirs(t, d) == Subdirs(s, d)
  {
  }

  /** Linking keeps the invariant exactly when the 16-bit count has room for one more name. */
  lemma LinkedKeepsInvIff(s: Nodes, p: nat, x: Name, f: U32)
    requires Inv(s) && DirAt(s, p) && x !in s[p].entries && f in s && s[f].File? && s[f].links <= MAX_LINKS
    ensures Inv(Linked(s, p, x, f)) <==> s[f].links < MAX_LINKS
  {
    hide Tree, Typed, Counted, FileChange, InRange, Linked;
    DotsProper(s, p, x);
    LinkedTyped(s, p, x, f);
    LinkedChange(s, p, x, f);
    FileChangeTree(s, Linked(s, p, x, f), p, x);
    if s[f].links < MAX_LINKS {
      LinkedCounted(s, p, x, f);
    } else {
      LinkedWraps(s, p, x, f);
    }
  }

  lemma LinkedChange(s: Nodes, p: nat, x: Name, f: U32)
    requires DirAt(s, p) && x !in s[p].entries && f in s && s[f].File? && Proper(x)
    ensures FileChange(s, Linked(s, p, x, f), p, x)
  {
  }

  /** The count of a file with 65535 names wraps to zero. */
  lemma LinkedWraps(s: Nodes, p: nat, x: Name, f: U32)
    requires DirAt(s, p) && f in s && s[f].File? && s[f].links == MAX_LINKS
    ensures Linked(s, p, x, f)[f].links == 0 && !Counted(Linked(s, p, x, f))
  {
    var t := Linked(s, p, x, f);
    assert |NamesOf(t, f)| >= 0;
  }

  lemma LinkedTyped(s: Nodes, p: nat, x: Name, f: U32)
    requires Typed(s) && InRange(s) && DirAt(s, p) && f in s && s[f].File?
    ensures Typed(Linked(s, p, x, f)) && InRange(Linked(s, p, x, f))
  {
  }

  lemma LinkedCounted(s: Nodes, p: nat, x: Name, f: U32)
    requires Counted(s) && Typed(s) && DirAt(s, p) && x !in s[p].entries && f in s && s[f].File? && s[f].links < MAX_LINKS
    ensures Counted(Linked(s, p, x, f))
  {
    hide Subdirs, NamesOf, Linked;
    var t := Linked(s, p, x, f);
    LinkedDirs(s, p, x, f);
    forall g | g in t && t[g].File? ensures t[g].links == |NamesOf(t, g)| && 0 < |NamesOf(t, g)| { LinkedNames(s, p, x, f, g); }
    forall d | DirAt(t, d) ensures t[d].links == 2 + |Subdirs(t, d)| {
      GainFile(s, t, p, x, d);
      assert s[d].links == 2 + |Subdirs(s, d)|;
    }
  }

  /** Which parts of the name space a further name leaves alone. */
  lemma LinkedDirs(s: Nodes, p: nat, x: Name, f: U32)
    requires Typed(s) && DirAt(s, p) && x !in s[p].entries && f in s && s[f].File?
    ensures var t := Linked(s, p, x, f);
            && (forall q :: DirAt(t, q) <==> DirAt(s, q))
            && (forall q :: DirAt(t, q) ==> t[q].links == s[q].links && (q != p ==> t[q].entries == s[q].entries))
            && x in t[p].entries && !DirAt(t, t[p].entries[x].ino) && t[p].entries - {x} == s[p].entries
  {
    var t := Linked(s, p, x, f);
    assert t[p].entries - {x} == s[p].entries;
  }

  lemma LinkedNames(s: Nodes, p: nat, x: Name, f: U32, g: nat)
    requires Counted(s) && Typed(s) && DirAt(s, p) && x !in s[p].entries && f in s && s[f].File? && s[f].links < MAX_LINKS
    requires var t := Linked(s, p, x, f);
             g in t && t[g].File?
    ensures var t := Linked(s, p, x, f);
            t[g].links == |NamesOf(t, g)| && 0 < |NamesOf(t, g)|
  {
    hide Subdirs, NamesOf;
    var t := Linked(s, p, x, f);
    assert t[p].entries - {x} == s[p].entries;
    NotNamed(s, p, x, f);
    GainName(s, t, p, x, f, g);
    assert s[g].links == |NamesOf(s, g)|;
  }

  lemma NotNamed(s: Nodes, p: nat, x: Name, f: nat)
    requires DirAt(s, p) && x !in s[p].entries
    ensures (p, x) !in NamesOf(s, f)
  {
  }

  /** Unlinking keeps the invariant, and frees the file exactly when the name removed was its last. */
  lemma UnlinkedKeepsInv(s: Nodes, p: nat, x: Name)
    requires Inv(s) && DirAt(s, p) && Proper(x) && x in s[p].entries && s[s[p].entries[x].ino].File?
    ensures var t, f := Unlinked(s, p, x), s[p].entries[x].ino;
            Inv(t) && (f !in t <==> NamesOf(s, f) == {(p, x)}) && (f !in t ==> NamesOf(t, f) == {})
  {
    hide Tree, Typed, Counted, FileChange, InRange, Unlinked, NamesOf;
    FileNames(s, p, x);
    UnlinkedTyped(s, p, x);
    UnlinkedCounted(s, p, x);
    UnlinkedChange(s, p, x);
    LastName(s, p, x);
    FileChangeTree(s, Unlinked(s, p, x), p, x);
  }

  lemma FileNames(s: Nodes, p: nat, x: Name)
    requires Typed(s) && Counted(s) && DirAt(s, p) && x in s[p].entries
    ensures s[p].entries[x].ino in s
    ensures var f := s[p].entries[x].ino;
            s[f].File? ==> s[f].links == |NamesOf(s, f)| && (p, x) in NamesOf(s, f)
  {
  }

  lemma UnlinkedChange(s: Nodes, p: nat, x: Name)
    requires DirAt(s, p) && Proper(x) && x in s[p].entries && s[p].entries[x].ino in s && s[s[p].entries[x].ino].File?
    ensures FileChange(s, Unlinked(s, p, x), p, x)
  {
  }

  lemma LastName(s: Nodes, p: nat, x: Name)
    requires DirAt(s, p) && x in s[p].entries && s[p].entries[x].ino in s && s[s[p].entries[x].ino].File?
    requires s[s[p].entries[x].ino].links == |NamesOf(s, s[p].entries[x].ino)|
    requires (p, x) in NamesOf(s, s[p].entries[x].ino)
    ensures var t, f := Unlinked(s, p, x), s[p].entries[x].ino;
            (f !in t <==> NamesOf(s, f) == {(p, x)}) && (f !in t ==> NamesOf(t, f) == {})
  {
    hide NamesOf;
    var t, f := Unlinked(s, p, x), s[p].entries[x].ino;
    LoseName(s, t, p, x, f, f);
    OneLeft(NamesOf(s, f), (p, x));
  }

  lemma OneLeft(names: set<(nat, Name)>, n: (nat, Name))
    requires n in names
    ensures |names| == 1 <==> names == {n}
  {
    if |names| == 1 {
      assert |names - {n}| == 0;
      assert names == (names - {n}) + {n};
    }
  }

  lemma UnlinkedTyped(s: Nodes, p: nat, x: Name)
    requires Typed(s) && InRange(s) && Counted(s) && DirAt(s, p) && x in s[p].entries && s[s[p].entries[x].ino].File?
    ensures Typed(Unlinked(s, p, x)) && InRange(Unlinked(s, p, x))
  {
    hide NamesOf;
    var t, f := Unlinked(s, p, x), s[p].entries[x].ino;
    FileNames(s, p, x);
    LastName(s, p, x);
    UnlinkTyped(s, p, x);
  }

  lemma UnlinkTyped(s: Nodes, p: nat, x: Name)
    requires Typed(s) && InRange(s) && DirAt(s, p) && x in s[p].entries && s[s[p].entries[x].ino].File?
    requires var t, f := Unlinked(s, p, x), s[p].entries[x].ino;
             f !in t ==> NamesOf(t, f) == {}
    ensures Typed(Unlinked(s, p, x)) && InRange(Unlinked(s, p, x))
  {
    hide NamesOf;
    var t, f := Unlinked(s, p, x), s[p].entries[x].ino;
    if f !in t {
      NoNames(t, f);
      hide Typed;
      DroppedTyped(s, t, p, x, f, s[p].links);
    }
  }

  lemma NoNames(t: Nodes, f: nat)
    requires NamesOf(t, f) == {}
    ensures forall q, y :: DirAt(t, q) && y in t[q].entries ==> t[q].entries[y].ino != f
  {
    forall q: nat, y | DirAt(t, q) && y in t[q].entries ensures t[q].entries[y].ino != f {
      assert (q, y) !in NamesOf(t, f);
    }
  }

  lemma UnlinkedCounted(s: Nodes, p: nat, x: Name)
    requires Counted(s) && Typed(s) && DirAt(s, p) && x in s[p].entries && s[s[p].entries[x].ino].File?
    ensures Counted(Unlinked(s, p, x))
  {
    hide Subdirs, NamesOf;
    var t, f := Unlinked(s, p, x), s[p].entries[x].ino;
    forall g | g in t && t[g].File? ensures t[g].links == |NamesOf(t, g)| && 0 < |NamesOf(t, g)| {
      LoseName(s, t, p, x, f, g);
    }
    forall d | DirAt(t, d) ensures t[d].links == 2 + |Subdirs(t, d)| { LoseFile(s, t, p, x, d); }
  }

  // ---------------------------------------------------------------- directories

  /** A new directory under p; the parent's count wraps at 16 bits. */
  function MadeDir(s: Nodes, p: U32, x: Name, n: U32): Nodes
    requires DirAt(s, p)
  {
    WithEntry(s, p, x, Target(n, FT_DIR), (s[p].links + 1) % 0x1_0000)[n := Dir(2, DirEntries(n, p))]
  }

  /** An empty directory removed from p. */
  function RemovedDir(s: Nodes, p: nat, x: Name): Nodes
    requires DirAt(s, p) && x in s[p].entries
  {
    WithoutEntry(s, p, x, if s[p].links > 0 then s[p].links - 1 else 0) - {s[p].entries[x].ino}
  }

  lemma MadeDirHas(s: Nodes, p: U32, x: Name, n: U32)
    requires DirAt(s, p) && x !in s[p].entries && n !in s && DOTDOT in s[p].entries
    ensures var t := MadeDir(s, p, x, n);
            && (forall d :: DirAt(t, d) <==> DirAt(s, d) || d == n)
            && (forall q, y, d :: Has(t, q, y, d) <==>
                 (Has(s, q, y, d) || (q == p && y == x && d == n)
                  || (q == n && y == DOT && d == n) || (q == n && y == DOTDOT && d == p)))
            && Up(t, n) == p && forall d :: d != n ==> Up(t, d) == Up(s, d)
  {
  }

  lemma {:induction false} MadeDirDepth(s: Nodes, t: Nodes, n: nat, d: nat, k: nat)
    requires forall e :: DirAt(s, e) ==> DirAt(t, e) && Up(t, e) == Up(s, e)
    requires Depth(s, d, k)
    ensures Depth(t, d, k)
    decreases k
  {
    hide DirAt, Up;
    if k > 0 { MadeDirDepth(s, t, n, Up(s, d), k - 1); }
  }

  lemma MadeDirTree(s: Nodes, p: U32, x: Name, n: U32)
    requires Tree(s) && Typed(s) && DirAt(s, p) && x !in s[p].entries && n !in s && n != 1
    ensures Tree(MadeDir(s, p, x, n))
  {
    var t := MadeDir(s, p, x, n);
    DotsProper(s, p, x);
    assert Has(s, p, DOTDOT, Up(s, p));
    MadeDirHas(s, p, x, n);
    assert !DirAt(s, n) && forall q, y :: !Has(s, q, y, n) && !Has(s, n, y, q);
    hide MadeDir, DirAt, Has, Up, Depth, Proper, Typed;
    MadeDirParented(s, t, p, x, n);
    forall d | DirAt(t, d) ensures exists k: nat :: Depth(t, d, k) {
      if d == n {
        var k: nat :| Depth(s, p, k);
        MadeDirDepth(s, t, n, p, k);
        DeeperBy1(t, n, p, k);
      } else {
        var k: nat :| Depth(s, d, k);
        MadeDirDepth(s, t, n, d, k);
      }
    }
  }

  lemma DeeperBy1(t: Nodes, n: nat, p: nat, k: nat)
    requires DirAt(t, n) && n != 1 && Up(t, n) == p && Depth(t, p, k)
    ensures Depth(t, n, k + 1)
  {
  }

  lemma MadeDirParented(s: Nodes, t: Nodes, p: nat, x: Name, n: nat)
    requires Dots(s) && Parented(s) && DirAt(s, p) && Proper(x) && n != 1 && !DirAt(s, n)
    requires forall q, y :: !Has(s, q, y, n)
    requires forall d :: DirAt(t, d) <==> DirAt(s, d) || d == n
    requires forall q, y, d :: Has(t, q, y, d) <==>
               (Has(s, q, y, d) || (q == p && y == x && d == n)
                || (q == n && y == DOT && d == n) || (q == n && y == DOTDOT && d == p))
    requires Up(t, n) == p && forall d :: d != n ==> Up(t, d) == Up(s, d)
    ensures Parented(t)
  {
    hide DirAt, Has, Up;
    assert NamedOnce(t, n, x);
    forall d | DirAt(t, d) && d != 1 && d != n ensures exists y :: NamedOnce(t, d, y) {
      var y :| NamedOnce(s, d, y);
      assert NamedOnce(t, d, y);
    }
  }

  lemma MadeDirTyped(s: Nodes, p: U32, x: Name, n: U32)
    requires Typed(s) && InRange(s) && DirAt(s, p) && n !in s && 1 <= n <= INODE_COUNT
    ensures Typed(MadeDir(s, p, x, n)) && InRange(MadeDir(s, p, x, n))
  {
  }

  /** A directory cannot have more subdirectories than there are inodes, so its count never wraps. */
  lemma {:induction false} SubdirsBound(s: Nodes, d: nat, names: set<Name>, inos: set<nat>)
    requires Parented(s) && DirAt(s, d) && names <= Subdirs(s, d)
    requires forall x :: x in names ==> s[d].entries[x].ino in inos
    ensures |names| <= |inos|
  {
    if names != {} {
      var x :| x in names;
      var i := s[d].entries[x].ino;
      forall y | y in names - {x} ensures s[d].entries[y].ino in inos - {i} {
        SameTarget(s, d, x, y);
      }
      SubdirsBound(s, d, names - {x}, inos - {i});
    }
  }

  lemma SameTarget(s: Nodes, d: nat, x: Name, y: Name)
    requires Parented(s) && DirAt(s, d) && x in Subdirs(s, d) && y in Subdirs(s, d) && x != y
    ensures s[d].entries[x].ino != s[d].entries[y].ino
  {
    var i := s[d].entries[x].ino;
    assert Has(s, d, x, i);
    var z :| NamedOnce(s, i, z);
    assert Has(s, d, y, s[d].entries[y].ino);
  }

  lemma DirLinksBound(s: Nodes, d: nat)
    requires Inv(s) && DirAt(s, d)
    ensures s[d].links <= 2 + INODE_COUNT
  {
    hide Subdirs, Dots, Grounded, Parented;
    SubdirInos(s, d);
    SubdirsBound(s, d, Subdirs(s, d), s.Keys);
    NodesBound(s.Keys);
  }

  lemma SubdirInos(s: Nodes, d: nat)
    requires DirAt(s, d)
    ensures forall x :: x in Subdirs(s, d) ==> x in s[d].entries && s[d].entries[x].ino in s.Keys
  {
  }

  lemma NodesBound(keys: set<nat>)
    requires forall i :: i in keys ==> 1 <= i <= INODE_COUNT
    ensures |keys| <= INODE_COUNT
  {
    CardBound(keys + {0}, INODE_COUNT + 1);
  }

  lemma MadeDirCounted(s: Nodes, p: U32, x: Name, n: U32)
    requires Inv(s) && DirAt(s, p) && x !in s[p].entries && n !in s
    ensures Counted(MadeDir(s, p, x, n))
  {
    hide NamesOf, Subdirs, Tree, InRange;
    var t := MadeDir(s, p, x, n);
    DotsProper(s, p, x);
    DirLinksBound(s, p);
    assert t[p].entries - {x} == s[p].entries;
    forall f | f in t && t[f].File? ensures t[f].links == |NamesOf(t, f)| && 0 < |NamesOf(t, f)| {
      GainName(s, t, p, x, n, f);
    }
    forall d | DirAt(t, d) ensures t[d].links == 2 + |Subdirs(t, d)| { MadeDirSubdirs(s, p, x, n, d); }
  }

  lemma MadeDirSubdirs(s: Nodes, p: U32, x: Name, n: U32, d: nat)
    requires Typed(s) && DirAt(s, p) && x !in s[p].entries && Proper(x) && n !in s && (DirAt(s, d) || d == n)
    ensures var t := MadeDir(s, p, x, n);
            |Subdirs(t, d)| == if d == n then 0 else if d == p then |Subdirs(s, d)| + 1 else |Subdirs(s, d)|
  {
    var t := MadeDir(s, p, x, n);
    if d == n {
      assert Subdirs(t, d) == {};
    } else {
      forall y ensures y in Subdirs(t, d) <==> y in Subdirs(s, d) || (d == p && y == x) { MadeDirSubdir(s, p, x, n, d, y); }
      hide Subdirs, MadeDir, Typed;
      if d == p {
        NotSubdir(s, p, x);
        OneMore(Subdirs(s, p), Subdirs(t, p), x);
      } else {
        assert Subdirs(t, d) == Subdirs(s, d);
      }
    }
  }

  lemma OneMore(a: set<Name>, b: set<Name>, x: Name)
    requires x !in a && forall y :: y in b <==> y in a || y == x
    ensures |b| == |a| + 1
  {
    assert b == a + {x};
  }

  lemma NotSubdir(s: Nodes, p: nat, x: Name)
    requires DirAt(s, p) && x !in s[p].entries
    ensures x !in Subdirs(s, p)
  {
  }

  lemma MadeDirSubdir(s: Nodes, p: U32, x: Name, n: U32, d: nat, y: Name)
    requires Typed(s) && DirAt(s, p) && x !in s[p].entries && Proper(x) && n !in s && DirAt(s, d)
    ensures y in Subdirs(MadeDir(s, p, x, n), d) <==> y in Subdirs(s, d) || (d == p && y == x)
  {
  }

  lemma MadeDirKeepsInv(s: Nodes, p: U32, x: Name, n: U32)
    requires Inv(s) && DirAt(s, p) && x !in s[p].entries && n !in s && 1 <= n <= INODE_COUNT
    ensures Inv(MadeDir(s, p, x, n)) && DirAt(MadeDir(s, p, x, n), n)
  {
    assert n != 1;
    MadeDirTyped(s, p, x, n);
    MadeDirCounted(s, p, x, n);
    MadeDirTree(s, p, x, n);
  }

  // ---------------------------------------------------------------- removing a directory

  /** The directory named x in p has no entries but its dots. */
  predicate EmptyAt(s: Nodes, p: nat, x: Name) {
    && DirAt(s, p) && x in s[p].entries && DirAt(s, s[p].entries[x].ino)
    && s[s[p].entries[x].ino].entries.Keys <= {DOT, DOTDOT}
  }

  lemma EmptyFacts(s: Nodes, p: nat, x: Name)
    requires Tree(s) && EmptyAt(s, p, x) && Proper(x)
    ensures var e := s[p].entries[x].ino;
            && e != 1 && e != p && NamedOnce(s, e, x) && Up(s, e) == p
            && (forall y, d :: Has(s, e, y, d) ==> !Proper(y))
            && forall d :: DirAt(s, d) && d != e ==> Up(s, d) != e
  {
    var e := s[p].entries[x].ino;
    assert Has(s, p, x, e);
    var z :| NamedOnce(s, e, z);
    forall d | DirAt(s, d) && d != e ensures Up(s, d) != e {
      if d != 1 {
        var y :| NamedOnce(s, d, y);
      }
    }
  }

  lemma RemovedDirHas(s: Nodes, p: nat, x: Name)
    requires Tree(s) && EmptyAt(s, p, x) && Proper(x)
    ensures var t, e := RemovedDir(s, p, x), s[p].entries[x].ino;
            && (forall d :: DirAt(t, d) <==> DirAt(s, d) && d != e)
            && (forall q, y, d :: Has(t, q, y, d) <==> Has(s, q, y, d) && q != e && !(q == p && y == x))
            && forall d :: d != e ==> Up(t, d) == Up(s, d)
  {
    EmptyFacts(s, p, x);
    hide Tree;
  }

  lemma {:induction false} RemovedDepth(s: Nodes, t: Nodes, e: nat, d: nat, k: nat)
    requires forall c :: DirAt(s, c) && c != e ==> DirAt(t, c) && Up(t, c) == Up(s, c) && Up(s, c) != e
    requires Depth(s, d, k) && d != e
    ensures Depth(t, d, k)
    decreases k
  {
    hide DirAt, Up;
    if k > 0 { RemovedDepth(s, t, e, Up(s, d), k - 1); }
  }

  lemma RemovedDirTree(s: Nodes, p: nat, x: Name)
    requires Tree(s) && EmptyAt(s, p, x) && Proper(x)
    ensures Tree(RemovedDir(s, p, x))
  {
    var t, e := RemovedDir(s, p, x), s[p].entries[x].ino;
    EmptyFacts(s, p, x);
    RemovedDirHas(s, p, x);
    hide RemovedDir, DirAt, Has, Up, Depth, EmptyAt, Proper;
    hide NamedOnce, Dots, Parented, Grounded;
    RemovedParented(s, t, p, x, e);
    RemovedDots(s, t, p, x, e);
    RemovedGrounded(s, t, e);
  }

  lemma RemovedDots(s: Nodes, t: Nodes, p: nat, x: Name, e: nat)
    requires Dots(s) && e != 1 && Proper(x)
    requires forall d :: DirAt(t, d) <==> DirAt(s, d) && d != e
    requires forall q, y, d :: Has(t, q, y, d) <==> Has(s, q, y, d) && q != e && !(q == p && y == x)
    requires forall d :: d != e ==> Up(t, d) == Up(s, d)
    requires forall d :: DirAt(s, d) && d != e ==> Up(s, d) != e
    ensures Dots(t)
  {
    hide DirAt, Has, Up;
  }

  lemma RemovedGrounded(s: Nodes, t: Nodes, e: nat)
    requires Grounded(s)
    requires forall d :: DirAt(t, d) <==> DirAt(s, d) && d != e
    requires forall d :: d != e ==> Up(t, d) == Up(s, d)
    requires forall d :: DirAt(s, d) && d != e ==> Up(s, d) != e
    ensures Grounded(t)
  {
    hide DirAt, Up, Depth;
    forall d | DirAt(t, d) ensures exists k: nat :: Depth(t, d, k) {
      var k: nat :| Depth(s, d, k);
      RemovedDepth(s, t, e, d, k);
    }
  }

  lemma RemovedParented(s: Nodes, t: Nodes, p: nat, x: Name, e: nat)
    requires Parented(s) && e != 1 && NamedOnce(s, e, x) && Up(s, e) == p
    requires forall d :: DirAt(t, d) <==> DirAt(s, d) && d != e
    requires forall q, y, d :: Has(t, q, y, d) <==> Has(s, q, y, d) && q != e && !(q == p && y == x)
    requires forall d :: d != e ==> Up(t, d) == Up(s, d)
    requires forall d :: DirAt(s, d) && d != e ==> Up(s, d) != e
    ensures Parented(t)
  {
    hide DirAt, Up;
    forall d | DirAt(t, d) && d != 1 ensures exists y :: NamedOnce(t, d, y) {
      var y :| NamedOnce(s, d, y);
      assert Up(s, d) != e;
      assert NamedOnce(t, d, y);
    }
  }

  lemma RemovedDirTyped(s: Nodes, p: nat, x: Name)
    requires Typed(s) && InRange(s) && Tree(s) && EmptyAt(s, p, x) && Proper(x)
    ensures Typed(RemovedDir(s, p, x)) && InRange(RemovedDir(s, p, x))
  {
    hide Tree, Typed;
    var t, e := RemovedDir(s, p, x), s[p].entries[x].ino;
    EmptyFacts(s, p, x);
    RemovedDirHas(s, p, x);
    forall q: nat, y | DirAt(t, q) && y in t[q].entries ensures t[q].entries[y].ino != e {
      assert Has(t, q, y, t[q].entries[y].ino);
      if t[q].entries[y].ino == e { NoOtherName(s, p, x, q, y); }
    }
    hide Has, Up;
    DroppedTyped(s, t, p, x, e, t[p].links);
  }

  /** Dropping an inode nothing names any more keeps the entries typed. */
  lemma DroppedTyped(s: Nodes, t: Nodes, p: nat, x: Name, e: nat, links: nat)
    requires Typed(s) && InRange(s) && DirAt(s, p) && t == SetEntries(s, p, s[p].entries - {x}, links) - {e}
    requires forall q, y :: DirAt(t, q) && y in t[q].entries ==> t[q].entries[y].ino != e
    ensures Typed(t) && InRange(t)
  {
  }

  /** Nothing but its parent's entry, and its own dots, leads to an empty directory. */
  lemma NoOtherName(s: Nodes, p: nat, x: Name, q: nat, y: Name)
    requires Tree(s) && EmptyAt(s, p, x) && Proper(x) && q != s[p].entries[x].ino && Has(s, q, y, s[p].entries[x].ino)
    ensures q == p && y == x
  {
    var e := s[p].entries[x].ino;
    EmptyFacts(s, p, x);
    assert Has(s, q, DOT, q) && Has(s, q, DOTDOT, Up(s, q));
  }

  lemma RemovedDirCounted(s: Nodes, p: nat, x: Name)
    requires Inv(s) && EmptyAt(s, p, x) && Proper(x)
    ensures Counted(RemovedDir(s, p, x))
  {
    hide NamesOf, Subdirs, Tree, InRange, Typed;
    var t, e := RemovedDir(s, p, x), s[p].entries[x].ino;
    EmptyFacts(s, p, x);
    EmptyDots(s, e);
    forall f | f in t && t[f].File? ensures t[f].links == |NamesOf(t, f)| && 0 < |NamesOf(t, f)| {
      LoseName(s, t, p, x, e, f);
    }
    forall d | DirAt(t, d) ensures t[d].links == 2 + |Subdirs(t, d)| { RemovedDirSubdirs(s, p, x, d); }
  }

  lemma EmptyDots(s: Nodes, e: nat)
    requires Typed(s) && Tree(s) && DirAt(s, e) && s[e].entries.Keys <= {DOT, DOTDOT}
    ensures forall y :: y in s[e].entries ==> DirAt(s, s[e].entries[y].ino)
  {
    assert Has(s, e, DOT, e) && Has(s, e, DOTDOT, Up(s, e));
  }

  lemma RemovedDirSubdirs(s: Nodes, p: nat, x: Name, d: nat)
    requires Tree(s) && EmptyAt(s, p, x) && Proper(x) && DirAt(s, d) && d != s[p].entries[x].ino
    ensures var t := RemovedDir(s, p, x);
            |Subdirs(t, d)| == if d == p then |Subdirs(s, d)| - 1 else |Subdirs(s, d)|
  {
    var t, e := RemovedDir(s, p, x), s[p].entries[x].ino;
    EmptyFacts(s, p, x);
    hide Tree;
    forall y | y in s[d].entries && s[d].entries[y].ino == e ensures d == p && y == x { NoOtherName(s, p, x, d, y); }
    forall y ensures y in Subdirs(t, d) <==> y in Subdirs(s, d) && !(d == p && y == x) {}
    assert d == p ==> x in Subdirs(s, p);
    hide Subdirs, RemovedDir;
    if d == p {
      OneMore(Subdirs(t, p), Subdirs(s, p), x);
    } else {
      assert Subdirs(t, d) == Subdirs(s, d);
    }
  }

  /** Removing an empty directory keeps the invariant and takes away exactly that directory. */
  lemma RemovedDirKeepsInv(s: Nodes, p: nat, x: Name)
    requires Inv(s) && EmptyAt(s, p, x) && Proper(x)
    ensures Inv(RemovedDir(s, p, x)) && RemovedDir(s, p, x).Keys == s.Keys - {s[p].entries[x].ino}
  {
    EmptyFacts(s, p, x);
    RemovedDirTyped(s, p, x);
    RemovedDirCounted(s, p, x);
    RemovedDirTree(s, p, x);
  }
}
