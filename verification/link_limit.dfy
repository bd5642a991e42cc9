/** A run that fills the 16-bit link count of a file, and what the next two calls do. */
module LinkLimit {
  import opened Bytes
  import opened Allocation
  import opened DirFormat
  import opened DirMaps
  import opened DirRead
  import opened Names
  import opened Namespaces

  /** A supply of names. */
  function Numbered(k: nat): Name
    requires k < 0x1_0000
  {
    [k / 0x100, k % 0x100, 0]
  }

  lemma NumberedDistinct(i: nat, j: nat)
    requires i < 0x1_0000 && j < 0x1_0000
    ensures Numbered(i) == Numbered(j) <==> i == j
    ensures Proper(Numbered(i)) && Named(Numbered(i))
  {
    if Numbered(i) == Numbered(j) {
      assert Numbered(i)[0] == Numbered(j)[0] && Numbered(i)[1] == Numbered(j)[1];
      assert i == i / 0x100 * 0x100 + i % 0x100 && j == j / 0x100 * 0x100 + j % 0x100;
    }
    assert |Numbered(i)| == 3 && |DOT| == 1 && |DOTDOT| == 2;
  }

  /** The root directory with k names for inode 2. */
  function RootEntries(k: nat): map<Name, Target>
    requires k <= 0x1_0000
  {
    if k == 0 then DirEntries(1, 1) else RootEntries(k - 1)[Numbered(k - 1) := Target(2, FT_REG_FILE)]
  }

  lemma {:induction false} RootEntriesHas(k: nat, i: nat)
    requires k <= 0x1_0000 && i < 0x1_0000
    ensures Numbered(i) in RootEntries(k) <==> i < k
    ensures i < k ==> RootEntries(k)[Numbered(i)] == Target(2, FT_REG_FILE)
  {
    hide Numbered;
    NumberedDistinct(i, i);
    if k > 0 {
      RootEntriesHas(k - 1, i);
      NumberedDistinct(i, k - 1);
    }
  }

  /** The name space with one file that has k names. */
  function Many(k: nat): Nodes
    requires k <= 0x1_0000
  {
    map[1 := Dir(2, RootEntries(k)), 2 := File(k, FT_REG_FILE)]
  }

  lemma FirstName()
    ensures Step(Formatted(), Create(1, Numbered(0)), Many(1), Ok(2))
  {
    hide Numbered, RootEntries;
    NumberedDistinct(0, 0);
    RootEntriesHas(0, 0);
    RootEntriesStart();
    assert Created(Formatted(), 1, Numbered(0), 2, FT_REG_FILE) == Many(1);
  }

  lemma RootEntriesStart()
    ensures RootEntries(0) == DirEntries(1, 1) && RootEntries(1) == RootEntries(0)[Numbered(0) := Target(2, FT_REG_FILE)]
  {
  }

  lemma OneMoreName(k: nat)
    requires 1 <= k < MAX_LINKS
    ensures Step(Many(k), Link(2, 1, Numbered(k)), Many(k + 1), Ok(0)) && LinkRoom(Many(k), Link(2, 1, Numbered(k)))
  {
    RootEntriesHas(k, k);
    NumberedDistinct(k, k);
    assert RootEntries(k + 1) == RootEntries(k)[Numbered(k) := Target(2, FT_REG_FILE)];
    hide Numbered, RootEntries;
    assert Linked(Many(k), 1, Numbered(k), 2) == Many(k + 1);
  }

  /** k calls from a formatted name space reach a file with k names. */
  lemma {:induction false} ManyIsReached(k: nat) returns (states: seq<Nodes>, ops: seq<Op>, rs: seq<Result<nat>>)
    requires 1 <= k <= MAX_LINKS
    ensures IsRun(states, ops, rs) && |ops| == k && states[k] == Many(k)
  {
    hide Numbered, Many, Step, LinkRoom, Formatted;
    if k == 1 {
      FirstName();
      CreateHasRoom(Formatted(), Create(1, Numbered(0)));
      states, ops, rs := [Formatted(), Many(1)], [Create(1, Numbered(0))], [Ok(2)];
    } else {
      var ss, os, res := ManyIsReached(k - 1);
      OneMoreName(k - 1);
      states, ops, rs := ss + [Many(k)], os + [Link(2, 1, Numbered(k - 1))], res + [Ok(0)];
      forall i | 0 <= i < |ops| ensures Step(states[i], ops[i], states[i + 1], rs[i]) && LinkRoom(states[i], ops[i]) {
        if i < |os| { assert states[i] == ss[i] && states[i + 1] == ss[i + 1] && ops[i] == os[i] && rs[i] == res[i]; }
      }
    }
  }

  lemma CreateHasRoom(s: Nodes, op: Op)
    requires op.Create?
    ensures LinkRoom(s, op)
  {
  }

  /** From there one more Link and one Unlink free the file while it still has 65535 names. */
  lemma OverflowIsReached() returns (states: seq<Nodes>, ops: seq<Op>, rs: seq<Result<nat>>, t: Nodes, u: Nodes)
    ensures IsRun(states, ops, rs) && |ops| == MAX_LINKS
    ensures Step(states[MAX_LINKS], Link(2, 1, Numbered(MAX_LINKS)), t, Ok(0))
    ensures Step(t, Unlink(1, Numbered(0)), u, Ok(0))
    ensures 2 in t && 2 !in u && forall i :: 1 <= i <= MAX_LINKS ==> Has(u, 1, Numbered(i), 2)
  {
    hide Numbered, RootEntries;
    states, ops, rs := ManyIsReached(MAX_LINKS);
    var s, x, y := states[MAX_LINKS], Numbered(MAX_LINKS), Numbered(0);
    RootEntriesHas(MAX_LINKS, MAX_LINKS);
    RootEntriesHas(MAX_LINKS, 0);
    NumberedDistinct(MAX_LINKS, 0);
    NumberedDistinct(0, 0);
    t := Linked(s, 1, x, 2);
    u := Unlinked(t, 1, y);
    forall i | 1 <= i <= MAX_LINKS ensures Has(u, 1, Numbered(i), 2) {
      RootEntriesHas(MAX_LINKS, i);
      NumberedDistinct(i, 0);
      NumberedDistinct(i, MAX_LINKS);
    }
  }
}
