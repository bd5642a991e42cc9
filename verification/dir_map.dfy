/** A directory listing as a map from names: what each kind of change does to the map. */
module DirMaps {
  import opened Bytes
  import opened DirFormat

  datatype Target = Target(ino: U32, fileType: Byte)

  function TargetOf(e: Entry): Target { Target(e.ino, e.fileType) }

  /** The name map of a listing; of two entries with one name the first counts, as lookup finds it first. */
  function DirMap(es: seq<Entry>): map<Name, Target> {
    if es == [] then map[] else DirMap(es[1..])[es[0].name := TargetOf(es[0])]
  }

  predicate Unique(es: seq<Entry>) { forall i, j :: 0 <= i < j < |es| ==> es[i].name != es[j].name }

  /** after is before with e put in at some place. */
  ghost predicate Inserted(before: seq<Entry>, after: seq<Entry>, e: Entry) {
    exists a, b :: before == a + b && after == a + Live(e) + b
  }

  /** after is before without its first entry of that name. */
  ghost predicate Removed(before: seq<Entry>, after: seq<Entry>, name: Name) {
    exists a, e, b :: before == a + [e] + b && after == a + b && e.name == name && forall x :: x in a ==> x.name != name
  }

  lemma {:induction false} DirMapKeys(es: seq<Entry>, name: Name)
    ensures name in DirMap(es) <==> exists e :: e in es && e.name == name
  {
    if es != [] {
      DirMapKeys(es[1..], name);
      assert forall e :: e in es <==> e == es[0] || e in es[1..];
    }
  }

  lemma {:induction false} DirMapConcat(a: seq<Entry>, b: seq<Entry>)
    ensures DirMap(a + b) == DirMap(b) + DirMap(a)
  {
    if a == [] {
      assert a + b == b;
    } else {
      DirMapConcat(a[1..], b);
      assert (a + b)[1..] == a[1..] + b;
    }
  }

  lemma DirMapOne(e: Entry)
    ensures DirMap([e]) == map[e.name := TargetOf(e)]
  {
  }

  /** The first entry of a name is what the map holds. */
  lemma FirstMatch(a: seq<Entry>, e: Entry, b: seq<Entry>)
    requires forall x :: x in a ==> x.name != e.name
    ensures e.name in DirMap(a + [e] + b) && DirMap(a + [e] + b)[e.name] == TargetOf(e)
  {
    DirMapConcat(a + [e], b);
    DirMapConcat(a, [e]);
    DirMapOne(e);
    DirMapKeys(a, e.name);
  }

  /** Names are unique exactly when the map has as many names as the listing has entries: each live entry is then
      listed once. */
  lemma {:induction false} UniqueIffSize(es: seq<Entry>)
    ensures |DirMap(es)| <= |es| && (Unique(es) <==> |DirMap(es)| == |es|)
  {
    if es != [] {
      var rest := es[1..];
      UniqueIffSize(rest);
      DirMapKeys(rest, es[0].name);
      var m := DirMap(rest);
      assert DirMap(es) == m[es[0].name := TargetOf(es[0])];
      if es[0].name in m {
        assert DirMap(es).Keys == m.Keys;
        assert |DirMap(es)| == |DirMap(es).Keys| == |m.Keys| == |m|;
        var e :| e in rest && e.name == es[0].name;
        var j :| 0 <= j < |rest| && rest[j] == e;
        assert es[j + 1] == e;
      } else {
        assert DirMap(es).Keys == m.Keys + {es[0].name};
        assert |DirMap(es)| == |DirMap(es).Keys| == |m.Keys| + 1 == |m| + 1;
        UniqueTail(es);
      }
    }
  }

  lemma UniqueTail(es: seq<Entry>)
    requires es != [] && forall e :: e in es[1..] ==> e.name != es[0].name
    ensures Unique(es) <==> Unique(es[1..])
  {
    var rest := es[1..];
    if Unique(es) {
      forall i, j | 0 <= i < j < |rest| ensures rest[i].name != rest[j].name {
        assert es[i + 1].name != es[j + 1].name;
      }
    }
    if Unique(rest) {
      forall i, j | 0 <= i < j < |es| ensures es[i].name != es[j].name {
        if i == 0 { assert es[j] == rest[j - 1] && rest[j - 1] in rest; }
        else { assert es[i] == rest[i - 1] && es[j] == rest[j - 1]; }
      }
    }
  }

  lemma DirMapThree(a: seq<Entry>, e: Entry, b: seq<Entry>)
    ensures DirMap(a + [e] + b) == DirMap(b) + map[e.name := TargetOf(e)] + DirMap(a)
    ensures DirMap(a + b) == DirMap(b) + DirMap(a)
  {
    hide DirMap;
    DirMapConcat(a + [e], b);
    DirMapConcat(a, [e]);
    DirMapConcat(a, b);
    DirMapOne(e);
  }

  lemma AddKey(m: map<Name, Target>, n: map<Name, Target>, name: Name)
    requires n.Keys == m.Keys + {name}
    ensures |n| == |m| + if name in m then 0 else 1
  {
    assert |n| == |n.Keys| && |m| == |m.Keys|;
    if name in m { assert n.Keys == m.Keys; }
  }

  lemma MapInsert(x: map<Name, Target>, y: map<Name, Target>, name: Name, v: Target)
    ensures (x + map[name := v] + y).Keys == (x + y).Keys + {name}
    ensures name !in x + y ==> x + map[name := v] + y == (x + y)[name := v]
    ensures name !in x + y ==> (x + map[name := v] + y) - {name} == x + y
  {
  }

  /** Inserting an absent name is map insertion; the names stay unique exactly when the name was absent. */
  lemma InsertIsMapInsert(before: seq<Entry>, after: seq<Entry>, e: Entry)
    requires Inserted(before, after, e) && e.ino != 0
    ensures e.name !in DirMap(before) ==> DirMap(after) == DirMap(before)[e.name := TargetOf(e)]
    ensures Unique(before) ==> (Unique(after) <==> e.name !in DirMap(before))
  {
    hide DirMap, Unique;
    var a, b :| before == a + b && after == a + Live(e) + b;
    DirMapThree(a, e, b);
    MapInsert(DirMap(b), DirMap(a), e.name, TargetOf(e));
    UniqueIffSize(before);
    UniqueIffSize(after);
    AddKey(DirMap(before), DirMap(after), e.name);
  }

  /** How often a name is listed. */
  function Occurs(es: seq<Entry>, name: Name): nat {
    if es == [] then 0 else (if es[0].name == name then 1 else 0) + Occurs(es[1..], name)
  }

  lemma {:induction false} OccursConcat(a: seq<Entry>, b: seq<Entry>, name: Name)
    ensures Occurs(a + b, name) == Occurs(a, name) + Occurs(b, name)
  {
    if a == [] {
      assert a + b == b;
    } else {
      OccursConcat(a[1..], b, name);
      assert (a + b)[1..] == a[1..] + b && (a + b)[0] == a[0];
    }
  }

  lemma {:induction false} OccursIff(es: seq<Entry>, name: Name)
    ensures Occurs(es, name) > 0 <==> name in DirMap(es)
  {
    if es != [] { OccursIff(es[1..], name); }
  }

  lemma OccursThree(a: seq<Entry>, e: Entry, b: seq<Entry>)
    ensures Occurs(a + [e] + b, e.name) == Occurs(a, e.name) + 1 + Occurs(b, e.name)
  {
    hide Occurs;
    OccursConcat(a + [e], b, e.name);
    OccursConcat(a, [e], e.name);
    assert Occurs([e], e.name) == 1 by { OccursOne(e); }
  }

  lemma OccursOne(e: Entry)
    ensures Occurs([e], e.name) == 1
  {
    assert [e][1..] == [];
  }

  /** Removing the first entry of a name is map deletion exactly when the name is listed once; otherwise the next
      entry of that name comes to light. Every other name keeps its target either way. */
  lemma RemoveIsMapDeleteIff(before: seq<Entry>, after: seq<Entry>, name: Name)
    requires Removed(before, after, name)
    ensures name in DirMap(before) && DirMap(after) - {name} == DirMap(before) - {name}
    ensures DirMap(after) == DirMap(before) - {name} <==> Occurs(before, name) == 1
  {
    hide DirMap, Occurs;
    var a, e, b :| before == a + [e] + b && after == a + b && e.name == name && forall x :: x in a ==> x.name != name;
    DirMapThree(a, e, b);
    DirMapKeys(a, name);
    OccursThree(a, e, b);
    OccursIff(a, name);
    OccursIff(b, name);
    MapInsert(DirMap(b), DirMap(a), name, TargetOf(e));
    assert (DirMap(b) + map[name := TargetOf(e)] + DirMap(a)) - {name} == (DirMap(b) + DirMap(a)) - {name};
  }

  lemma {:induction false} UniqueOccurs(es: seq<Entry>, name: Name)
    requires Unique(es)
    ensures Occurs(es, name) <= 1
  {
    if es != [] {
      var rest := es[1..];
      assert Unique(rest);
      UniqueOccurs(rest, name);
      forall x | x in rest ensures x.name != es[0].name {
        var j :| 0 <= j < |rest| && rest[j] == x;
        assert es[j + 1] == x;
      }
      DirMapKeys(rest, es[0].name);
      OccursIff(rest, name);
    }
  }

  /** Removing a name from a listing with unique names is map deletion and keeps names unique. */
  lemma RemoveIsMapDelete(before: seq<Entry>, after: seq<Entry>, name: Name)
    requires Removed(before, after, name) && Unique(before)
    ensures name in DirMap(before) && DirMap(after) == DirMap(before) - {name} && Unique(after)
  {
    hide DirMap, Unique, Occurs, Removed;
    RemoveIsMapDeleteIff(before, after, name);
    UniqueOccurs(before, name);
    OccursIff(before, name);
    UniqueIffSize(before);
    UniqueIffSize(after);
    OneShorter(before, after, name);
    AddKey(DirMap(after), DirMap(before), name);
  }

  lemma OneShorter(before: seq<Entry>, after: seq<Entry>, name: Name)
    requires Removed(before, after, name)
    ensures |before| == |after| + 1
  {
  }

  /** Changing one stretch of a listing by an insertion is an insertion. */
  lemma InsertedInContext(x: seq<Entry>, before: seq<Entry>, after: seq<Entry>, y: seq<Entry>, e: Entry)
    requires Inserted(before, after, e)
    ensures Inserted(x + before + y, x + after + y, e)
  {
    hide Live;
    var a, b :| before == a + b && after == a + Live(e) + b;
    var l := Live(e);
    assert x + before + y == (x + a) + (b + y);
    assert x + after + y == (x + a) + l + (b + y);
  }

  lemma RemovedInContext(x: seq<Entry>, before: seq<Entry>, after: seq<Entry>, y: seq<Entry>, name: Name)
    requires Removed(before, after, name) && forall e :: e in x ==> e.name != name
    ensures Removed(x + before + y, x + after + y, name)
  {
    var a, e, b :| before == a + [e] + b && after == a + b && e.name == name && forall z :: z in a ==> z.name != name;
    assert x + before + y == (x + a) + [e] + (b + y) && x + after + y == (x + a) + (b + y);
  }
}
