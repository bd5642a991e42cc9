/** The buffer cache as a value: what each operation does, and why a caller sees a plain block map. */
module CacheSpec {
  import opened Bytes

  datatype Buf = Buf(data: Block, dirty: bool, pins: nat)

  /** The device image, the cached buffers and the recency list, most recent first. */
  datatype Cache = Cache(img: Image, bufs: map<nat, Buf>, lru: seq<nat>, capacity: nat)

  predicate NoDuplicates(s: seq<nat>) { forall i, j :: 0 <= i < j < |s| ==> s[i] != s[j] }

  /** The recency list names each cached block once, and the cache is not over its capacity. */
  ghost predicate WF(c: Cache) {
    && 0 < c.capacity && |c.bufs| <= c.capacity
    && NoDuplicates(c.lru) && (forall a :: a in c.lru <==> a in c.bufs)
  }

  /** A clean buffer holds what the device holds. */
  ghost predicate Coherent(c: Cache) {
    forall a :: a in c.bufs && !c.bufs[a].dirty ==> a < |c.img| && c.bufs[a].data == c.img[a]
  }

  /** The blocks a caller sees: the cached ones, and the device for the rest. */
  ghost function View(c: Cache): (m: map<nat, Block>)
    ensures forall a: nat :: a in m <==> a in c.bufs || a < |c.img|
    ensures forall a: nat :: a in m ==> m[a] == if a in c.bufs then c.bufs[a].data else c.img[a]
  {
    OnDisk(c.img) + map a | a in c.bufs :: c.bufs[a].data
  }

  /** The plain block map: the device without a cache. */
  ghost function OnDisk(img: Image): (m: map<nat, Block>)
    ensures forall a: nat :: a in m <==> a < |img|
    ensures forall a: nat :: a in m ==> m[a] == img[a]
  {
    map a: nat | a < |img| :: img[a]
  }

  // ---------------------------------------------------------------- the recency list

  function Remove(s: seq<nat>, a: nat): (r: seq<nat>) {
    if s == [] then [] else if s[0] == a then Remove(s[1..], a) else [s[0]] + Remove(s[1..], a)
  }

  function Front(s: seq<nat>, a: nat): seq<nat> { [a] + Remove(s, a) }

  lemma {:induction false} RemoveMembers(s: seq<nat>, a: nat)
    ensures forall x :: x in Remove(s, a) <==> x in s && x != a
  {
    if s != [] {
      RemoveMembers(s[1..], a);
      assert forall x :: x in s <==> x == s[0] || x in s[1..];
    }
  }

  lemma {:induction false} RemoveKeepsDistinct(s: seq<nat>, a: nat)
    requires NoDuplicates(s)
    ensures NoDuplicates(Remove(s, a))
  {
    if s != [] {
      assert NoDuplicates(s[1..]);
      RemoveKeepsDistinct(s[1..], a);
      RemoveMembers(s[1..], a);
      if s[0] != a { HeadDistinct(s, Remove(s[1..], a)); }
    }
  }

  lemma HeadDistinct(s: seq<nat>, rest: seq<nat>)
    requires s != [] && NoDuplicates(s) && NoDuplicates(rest) && forall x :: x in rest ==> x in s[1..]
    ensures NoDuplicates([s[0]] + rest)
  {
    forall x | x in rest ensures x != s[0] {
      var j :| 0 <= j < |s[1..]| && s[1..][j] == x;
      assert s[j + 1] == x;
    }
    forall i, j | 0 <= i < j < |[s[0]] + rest| ensures ([s[0]] + rest)[i] != ([s[0]] + rest)[j] {
      if i == 0 { assert rest[j - 1] in rest; }
    }
  }

  lemma FrontFacts(s: seq<nat>, a: nat)
    requires NoDuplicates(s)
    ensures NoDuplicates(Front(s, a)) && forall x :: x in Front(s, a) <==> x == a || x in s
  {
    hide Remove;
    RemoveKeepsDistinct(s, a);
    RemoveMembers(s, a);
    forall i, j | 0 <= i < j < |Front(s, a)| ensures Front(s, a)[i] != Front(s, a)[j] {
      if i == 0 { assert Remove(s, a)[j - 1] in Remove(s, a); }
    }
  }

  /** The addresses of a history of accesses, last access first. */
  function MostRecent(hist: seq<nat>): seq<nat> {
    if hist == [] then [] else Front(MostRecent(hist[..|hist| - 1]), hist[|hist| - 1])
  }

  function Keep(s: seq<nat>, keys: set<nat>): seq<nat> {
    if s == [] then [] else if s[0] in keys then [s[0]] + Keep(s[1..], keys) else Keep(s[1..], keys)
  }

  /** The list orders the cached blocks by their last access. */
  ghost predicate ByRecency(c: Cache, hist: seq<nat>) { c.lru == Keep(MostRecent(hist), c.bufs.Keys) }

  lemma {:induction false} KeepRemove(s: seq<nat>, keys: set<nat>, a: nat)
    ensures Keep(Remove(s, a), keys) == Remove(Keep(s, keys), a) == Keep(s, keys - {a})
    ensures Keep(Remove(s, a), keys + {a}) == Remove(Keep(s, keys), a)
  {
    if s != [] { KeepRemove(s[1..], keys, a); }
  }

  /** An access moves its block to the front and leaves the order of the others. */
  lemma AccessByRecency(lru: seq<nat>, hist: seq<nat>, keys: set<nat>, a: nat)
    requires lru == Keep(MostRecent(hist), keys)
    ensures Front(lru, a) == Keep(MostRecent(hist + [a]), keys + {a})
  {
    hide Keep, Remove;
    assert (hist + [a])[..|hist|] == hist;
    KeepRemove(MostRecent(hist), keys, a);
    KeepFront(Remove(MostRecent(hist), a), a, keys + {a});
  }

  lemma KeepFront(s: seq<nat>, a: nat, keys: set<nat>)
    requires a in keys
    ensures Keep([a] + s, keys) == [a] + Keep(s, keys)
  {
    assert ([a] + s)[1..] == s;
  }

  // ---------------------------------------------------------------- eviction

  /** The place in the list of the last unpinned block; -1 if all are pinned. */
  function VictimIndex(bufs: map<nat, Buf>, lru: seq<nat>): (r: int)
    ensures -1 <= r < |lru|
  {
    if lru == [] then -1
    else
      var last := |lru| - 1;
      if lru[last] in bufs && bufs[lru[last]].pins == 0 then last else VictimIndex(bufs, lru[..last])
  }

  /** The victim is unpinned and every block less recent is pinned; there is none exactly when all are pinned. */
  lemma {:induction false} VictimIsLeastRecent(bufs: map<nat, Buf>, lru: seq<nat>)
    requires forall a :: a in lru ==> a in bufs
    ensures var i := VictimIndex(bufs, lru);
            && (i >= 0 ==> bufs[lru[i]].pins == 0)
            && (forall j :: i < j < |lru| ==> bufs[lru[j]].pins > 0)
            && (i == -1 <==> forall a :: a in lru ==> bufs[a].pins > 0)
  {
    if lru != [] {
      var last := |lru| - 1;
      VictimIsLeastRecent(bufs, lru[..last]);
      assert forall a :: a in lru <==> a == lru[last] || a in lru[..last];
    }
  }

  /** The cache with room for one more block: if it is full, the victim is written back and dropped. */
  function Evict(c: Cache): Result<Cache> {
    if |c.bufs| < c.capacity then Ok(c)
    else
      var i := VictimIndex(c.bufs, c.lru);
      if i < 0 then Err(Pinned)
      else
        var v := c.lru[i];
        if v !in c.bufs then Err(Pinned)
        else if c.bufs[v].dirty && v >= |c.img| then Err(OutOfRange)
        else Ok(Dropped(c, v))
  }

  /** The cache without block v, which is written to the device first if dirty. */
  function Dropped(c: Cache, v: nat): Cache
    requires v in c.bufs && (c.bufs[v].dirty ==> v < |c.img|)
  {
    Cache(if c.bufs[v].dirty then c.img[v := c.bufs[v].data] else c.img, c.bufs - {v}, Remove(c.lru, v), c.capacity)
  }

  lemma DroppedWF(c: Cache, v: nat)
    requires WF(c) && v in c.bufs && (c.bufs[v].dirty ==> v < |c.img|)
    ensures WF(Dropped(c, v)) && |Dropped(c, v).bufs| < c.capacity
  {
    hide Remove;
    RemoveMembers(c.lru, v);
    RemoveKeepsDistinct(c.lru, v);
    assert |c.bufs - {v}| < |c.bufs| by { DropCount(c.bufs, v); }
  }

  lemma DropCount(m: map<nat, Buf>, v: nat)
    requires v in m
    ensures |m - {v}| == |m| - 1
  {
    assert (m - {v}).Keys == m.Keys - {v};
    assert |m| == |m.Keys| && |m - {v}| == |(m - {v}).Keys|;
  }

  lemma DroppedView(c: Cache, v: nat)
    requires Coherent(c) && v in c.bufs && (c.bufs[v].dirty ==> v < |c.img|)
    ensures View(Dropped(c, v)) == View(c) && Coherent(Dropped(c, v))
  {
    hide View, Remove;
    var e := Dropped(c, v);
    assert forall a: nat :: a in View(e) <==> a in View(c);
    forall a: nat | a in View(e) ensures View(e)[a] == View(c)[a] {}
  }

  /** Eviction shows in nothing a caller reads. */
  lemma EvictKeeps(c: Cache)
    requires WF(c) && Coherent(c) && Evict(c).Ok?
    ensures var e := Evict(c).value;
            WF(e) && Coherent(e) && View(e) == View(c) && |e.bufs| < e.capacity == c.capacity && e.bufs.Keys <= c.bufs.Keys
            && |e.img| == |c.img| && (forall a :: 0 <= a < |c.img| && a !in c.bufs ==> e.img[a] == c.img[a])
  {
    hide Remove, View, Coherent, WF;
    if |c.bufs| >= c.capacity {
      DroppedWF(c, c.lru[VictimIndex(c.bufs, c.lru)]);
      DroppedView(c, c.lru[VictimIndex(c.bufs, c.lru)]);
    }
  }

  lemma EvictByRecency(c: Cache, hist: seq<nat>)
    requires ByRecency(c, hist) && Evict(c).Ok?
    ensures ByRecency(Evict(c).value, hist)
  {
    hide Remove, Keep, MostRecent;
    if |c.bufs| >= c.capacity {
      var v := c.lru[VictimIndex(c.bufs, c.lru)];
      KeepRemove(MostRecent(hist), c.bufs.Keys, v);
      assert (c.bufs - {v}).Keys == c.bufs.Keys - {v};
    }
  }

  // ---------------------------------------------------------------- storing a buffer

  /** The cache with block a holding b, and a the most recent. */
  function Store(c: Cache, a: nat, b: Buf): Cache { Cache(c.img, c.bufs[a := b], Front(c.lru, a), c.capacity) }

  lemma StoreKeeps(c: Cache, a: nat, b: Buf)
    requires WF(c) && (a in c.bufs || |c.bufs| < c.capacity)
    ensures WF(Store(c, a, b)) && View(Store(c, a, b)) == View(c)[a := b.data]
    ensures Coherent(c) && (b.dirty || (a < |c.img| && b.data == c.img[a])) ==> Coherent(Store(c, a, b))
  {
    hide View, WF, Coherent;
    StoreWF(c, a, b);
    StoreCoherent(c, a, b);
    StoreView(c, a, b);
  }

  lemma StoreWF(c: Cache, a: nat, b: Buf)
    requires WF(c) && (a in c.bufs || |c.bufs| < c.capacity)
    ensures WF(Store(c, a, b))
  {
    hide Front, NoDuplicates;
    FrontFacts(c.lru, a);
    AddCount(c.bufs, a, b);
  }

  lemma StoreCoherent(c: Cache, a: nat, b: Buf)
    ensures Coherent(c) && (b.dirty || (a < |c.img| && b.data == c.img[a])) ==> Coherent(Store(c, a, b))
  {
    hide Front;
  }

  lemma StoreView(c: Cache, a: nat, b: Buf)
    ensures View(Store(c, a, b)) == View(c)[a := b.data]
  {
    hide Front, View;
    var v, w := View(Store(c, a, b)), View(c)[a := b.data];
    forall x: nat ensures x in v <==> x in w {}
    forall x: nat | x in v ensures v[x] == w[x] {}
  }

  lemma AddCount(m: map<nat, Buf>, a: nat, b: Buf)
    ensures |m[a := b]| == |m| + if a in m then 0 else 1
  {
    assert m[a := b].Keys == m.Keys + {a};
    assert |m| == |m.Keys| && |m[a := b]| == |m[a := b].Keys|;
    if a in m { assert m.Keys + {a} == m.Keys; }
  }

  lemma StoreByRecency(c: Cache, a: nat, b: Buf, hist: seq<nat>)
    requires ByRecency(c, hist)
    ensures ByRecency(Store(c, a, b), hist + [a])
  {
    hide Keep, MostRecent, Front;
    AccessByRecency(c.lru, hist, c.bufs.Keys, a);
    assert c.bufs[a := b].Keys == c.bufs.Keys + {a};
  }

  /** When an address was last accessed; -1 if never. */
  function LastAccess(hist: seq<nat>, a: nat): int {
    if hist == [] then -1 else if hist[|hist| - 1] == a then |hist| - 1 else LastAccess(hist[..|hist| - 1], a)
  }

  predicate Descending(s: seq<nat>, hist: seq<nat>) {
    forall i, j :: 0 <= i < j < |s| ==> LastAccess(hist, s[i]) > LastAccess(hist, s[j])
  }

  /** s starts with x, last accessed after all of rest. */
  lemma DescendingCons(x: nat, rest: seq<nat>, hist: seq<nat>)
    requires Descending(rest, hist) && forall y :: y in rest ==> LastAccess(hist, x) > LastAccess(hist, y)
    ensures Descending([x] + rest, hist)
  {
    hide LastAccess;
    var s := [x] + rest;
    forall i, j | 0 <= i < j < |s| ensures LastAccess(hist, s[i]) > LastAccess(hist, s[j]) {
      assert s[j] == rest[j - 1];
      if i > 0 { assert s[i] == rest[i - 1]; }
    }
  }

  lemma {:induction false} KeepDescending(s: seq<nat>, keys: set<nat>, hist: seq<nat>)
    requires Descending(s, hist)
    ensures Descending(Keep(s, keys), hist) && forall x :: x in Keep(s, keys) <==> x in s && x in keys
  {
    hide LastAccess;
    if s != [] {
      KeepDescending(s[1..], keys, hist);
      assert forall x :: x in s <==> x == s[0] || x in s[1..];
      if s[0] in keys {
        forall y | y in Keep(s[1..], keys) ensures LastAccess(hist, s[0]) > LastAccess(hist, y) {
          var j :| 0 <= j < |s[1..]| && s[1..][j] == y;
          assert s[j + 1] == y;
        }
        DescendingCons(s[0], Keep(s[1..], keys), hist);
      }
    }
  }

  lemma {:induction false} LastAccessRange(hist: seq<nat>, a: nat)
    ensures -1 <= LastAccess(hist, a) < |hist|
  {
    if hist != [] { LastAccessRange(hist[..|hist| - 1], a); }
  }

  /** The list of a history runs from the latest access to the earliest. */
  lemma {:induction false} MostRecentOrder(hist: seq<nat>)
    ensures Descending(MostRecent(hist), hist)
  {
    if hist != [] {
      var front, a := hist[..|hist| - 1], hist[|hist| - 1];
      MostRecentOrder(front);
      var s := MostRecent(front);
      var all := set x | x in s;
      KeepAll(s, all);
      KeepRemove(s, all, a);
      KeepDescending(s, all - {a}, front);
      RemoveMembers(s, a);
      var rest := Remove(s, a);
      assert Descending(rest, hist);
      forall y | y in rest ensures LastAccess(hist, a) > LastAccess(hist, y) { LastAccessRange(front, y); }
      hide LastAccess;
      DescendingCons(a, rest, hist);
    }
  }

  lemma {:induction false} KeepAll(s: seq<nat>, keys: set<nat>)
    requires forall x :: x in s ==> x in keys
    ensures Keep(s, keys) == s
  {
    if s != [] { KeepAll(s[1..], keys); }
  }

  /** The block evicted is the unpinned one whose last access lies furthest back. */
  lemma VictimIsOldest(c: Cache, hist: seq<nat>, b: nat)
    requires WF(c) && ByRecency(c, hist) && VictimIndex(c.bufs, c.lru) >= 0
    requires b in c.bufs && c.bufs[b].pins == 0 && b != c.lru[VictimIndex(c.bufs, c.lru)]
    ensures LastAccess(hist, b) > LastAccess(hist, c.lru[VictimIndex(c.bufs, c.lru)])
  {
    hide Keep, MostRecent, LastAccess, VictimIndex;
    VictimIsLeastRecent(c.bufs, c.lru);
    MostRecentOrder(hist);
    KeepDescending(MostRecent(hist), c.bufs.Keys, hist);
    var j :| 0 <= j < |c.lru| && c.lru[j] == b;
  }

  // ---------------------------------------------------------------- operations

  /** The caller-visible operations. Put with mark is PutBlock followed at once by MarkDirty. */
  datatype Op =
    | Get(addr: nat)
    | Put(addr: nat, data: Block, mark: bool)
    | Write(addr: nat, data: Block)
    | Flush(addr: nat)
    | FlushAll
    | Invalidate(addr: nat)

  datatype Reply = Data(block: Block) | Done | Failed

  function GetHit(c: Cache, a: nat): Cache
    requires a in c.bufs
  {
    var b := c.bufs[a];
    Store(c, a, Buf(b.data, b.dirty, b.pins + 1))
  }

  function PutHit(c: Cache, a: nat, d: Block): Cache
    requires a in c.bufs
  {
    var b := c.bufs[a];
    Store(c, a, Buf(d, b.dirty, if b.pins > 0 then b.pins - 1 else 0))
  }

  function WriteHit(c: Cache, a: nat, d: Block): Cache
    requires a in c.bufs
  {
    Store(c, a, Buf(d, true, c.bufs[a].pins))
  }

  /** The effect of a read, when it succeeds. */
  ghost predicate GetOk(c: Cache, a: nat, t: Cache, d: Block) {
    if a in c.bufs then d == c.bufs[a].data && t == GetHit(c, a)
    else a < |c.img| && d == c.img[a] && Evict(c).Ok? && t == Store(Evict(c).value, a, Buf(c.img[a], false, 1))
  }

  /** The effect of a put, when it succeeds: the buffer takes the data but is not marked. */
  ghost predicate PutOk(c: Cache, a: nat, d: Block, t: Cache) {
    if a in c.bufs then t == PutHit(c, a, d)
    else Evict(c).Ok? && t == Store(Evict(c).value, a, Buf(d, false, 0))
  }

  ghost predicate WriteOk(c: Cache, a: nat, d: Block, t: Cache) {
    if a in c.bufs then t == WriteHit(c, a, d)
    else Evict(c).Ok? && t == Store(Evict(c).value, a, Buf(d, true, 0))
  }

  function Marked(c: Cache, a: nat): Cache {
    if a in c.bufs then Cache(c.img, c.bufs[a := Buf(c.bufs[a].data, true, c.bufs[a].pins)], c.lru, c.capacity) else c
  }

  function Cleaned(c: Cache, a: nat): Cache
    requires a in c.bufs && a < |c.img|
  {
    Cache(c.img[a := c.bufs[a].data], c.bufs[a := Buf(c.bufs[a].data, false, c.bufs[a].pins)], c.lru, c.capacity)
  }

  /** Some dirty blocks have reached the device and are clean now; nothing else changed. */
  ghost predicate Flushed(c: Cache, t: Cache) {
    && t.lru == c.lru && t.capacity == c.capacity && t.bufs.Keys == c.bufs.Keys && |t.img| == |c.img|
    && (forall a :: a in c.bufs ==>
          && t.bufs[a].data == c.bufs[a].data && t.bufs[a].pins == c.bufs[a].pins && (t.bufs[a].dirty ==> c.bufs[a].dirty))
    && (forall a :: 0 <= a < |c.img| ==>
          t.img[a] == if a in c.bufs && c.bufs[a].dirty && !t.bufs[a].dirty then c.bufs[a].data else c.img[a])
    && (forall a :: a in c.bufs && c.bufs[a].dirty && !t.bufs[a].dirty ==> a < |c.img|)
  }

  ghost predicate AllClean(c: Cache) { forall a :: a in c.bufs ==> !c.bufs[a].dirty }

  function Invalidated(c: Cache, a: nat): Cache {
    if a in c.bufs then Cache(c.img, c.bufs - {a}, Remove(c.lru, a), c.capacity) else c
  }

  /** One call on a cache. A failed call leaves it as it was, except that FlushAll may have flushed some blocks. */
  ghost predicate Step(c: Cache, op: Op, t: Cache, reply: Reply) {
    match op
    case Get(a) => if reply.Data? then GetOk(c, a, t, reply.block) else reply.Failed? && t == c
    case Put(a, d, mark) =>
      if reply.Done? then exists m :: PutOk(c, a, d, m) && t == if mark then Marked(m, a) else m
      else reply.Failed? && t == if mark then Marked(c, a) else c
    case Write(a, d) => if reply.Done? then WriteOk(c, a, d, t) else reply.Failed? && t == c
    case Flush(a) =>
      if reply.Done? && a in c.bufs && c.bufs[a].dirty then a < |c.img| && t == Cleaned(c, a) else !reply.Data? && t == c
    case FlushAll => !reply.Data? && Flushed(c, t) && (reply.Done? ==> AllClean(t))
    case Invalidate(a) => reply.Done? && t == Invalidated(c, a)
  }

  /** An unmarked put keeps its data: the block is dirty already, or the device holds the same data. */
  predicate PutKept(c: Cache, a: nat, d: Block) { (a in c.bufs && c.bufs[a].dirty) || (a < |c.img| && c.img[a] == d) }

  /** The callers' discipline: a put that would not keep its data is marked at once, and only clean blocks are dropped. */
  ghost predicate Disciplined(c: Cache, op: Op) {
    match op
    case Put(a, d, mark) => mark || PutKept(c, a, d)
    case Invalidate(a) => a in c.bufs ==> !c.bufs[a].dirty
    case _ => true
  }

  /** The plain block map after an operation. */
  function PlainStep(m: map<nat, Block>, op: Op, reply: Reply): map<nat, Block> {
    if reply.Done? && (op.Put? || op.Write?) then m[op.addr := op.data] else m
  }

  /** What the plain block map answers. */
  ghost predicate PlainReply(m: map<nat, Block>, op: Op, reply: Reply) {
    && (op.Get? && reply.Data? ==> op.addr in m && reply.block == m[op.addr])
    && (reply.Data? ==> op.Get?)
  }

  function Accessed(hist: seq<nat>, op: Op, reply: Reply): seq<nat> {
    if (op.Get? && reply.Data?) || ((op.Put? || op.Write?) && reply.Done?) then hist + [op.addr] else hist
  }

  /** Everything that holds of the cache after every call. */
  ghost predicate Inv(c: Cache, hist: seq<nat>) { WF(c) && Coherent(c) && ByRecency(c, hist) }

  lemma GetRefines(c: Cache, a: nat, t: Cache, d: Block, hist: seq<nat>)
    requires Inv(c, hist) && GetOk(c, a, t, d)
    ensures Inv(t, hist + [a]) && View(t) == View(c) && a in View(c) && View(c)[a] == d && |t.img| == |c.img|
  {
    hide ByRecency, Front, Evict, View, WF;
    if a in c.bufs {
      var b := Buf(d, c.bufs[a].dirty, c.bufs[a].pins + 1);
      StoreKeeps(c, a, b);
      StoreByRecency(c, a, b, hist);
    } else {
      EvictKeeps(c);
      EvictByRecency(c, hist);
      StoreKeeps(Evict(c).value, a, Buf(c.img[a], false, 1));
      StoreByRecency(Evict(c).value, a, Buf(c.img[a], false, 1), hist);
    }
    SameUpdate(View(c), a, d);
  }

  lemma SameUpdate(m: map<nat, Block>, a: nat, d: Block)
    requires a in m && m[a] == d
    ensures m[a := d] == m
  {
  }

  lemma WriteRefines(c: Cache, a: nat, d: Block, t: Cache, hist: seq<nat>)
    requires Inv(c, hist) && WriteOk(c, a, d, t)
    ensures Inv(t, hist + [a]) && View(t) == View(c)[a := d] && |t.img| == |c.img|
  {
    hide ByRecency, Front, Evict, View, WF, Coherent;
    if a in c.bufs {
      StoreKeeps(c, a, Buf(d, true, c.bufs[a].pins));
      StoreByRecency(c, a, Buf(d, true, c.bufs[a].pins), hist);
    } else {
      EvictKeeps(c);
      EvictByRecency(c, hist);
      StoreKeeps(Evict(c).value, a, Buf(d, true, 0));
      StoreByRecency(Evict(c).value, a, Buf(d, true, 0), hist);
    }
  }

  lemma MarkedKeeps(c: Cache, a: nat, hist: seq<nat>)
    requires WF(c) && ByRecency(c, hist)
    ensures WF(Marked(c, a)) && ByRecency(Marked(c, a), hist) && View(Marked(c, a)) == View(c)
  {
    hide Keep, MostRecent, View, NoDuplicates;
    MarkedView(c, a);
    if a in c.bufs {
      var b := Buf(c.bufs[a].data, true, c.bufs[a].pins);
      AddCount(c.bufs, a, b);
      assert c.bufs[a := b].Keys == c.bufs.Keys;
    }
  }

  lemma MarkedView(c: Cache, a: nat)
    ensures View(Marked(c, a)) == View(c)
  {
    hide View;
    assert forall x: nat :: x in View(Marked(c, a)) <==> x in View(c);
    forall x: nat | x in View(c) ensures View(Marked(c, a))[x] == View(c)[x] {}
  }

  lemma StoredCoherent(c: Cache, a: nat, b: Buf)
    requires Coherent(c)
    ensures Coherent(Marked(Store(c, a, b), a))
    ensures Coherent(Store(c, a, b)) <==> b.dirty || (a < |c.img| && b.data == c.img[a])
  {
    hide Front;
  }

  /** After a marked put every clean buffer equals the device again, whatever was put. */
  lemma MarkedPut(c: Cache, a: nat, d: Block, m: Cache, hist: seq<nat>)
    requires Inv(c, hist) && PutOk(c, a, d, m)
    ensures WF(m) && ByRecency(m, hist + [a]) && View(m) == View(c)[a := d] && |m.img| == |c.img|
    ensures Coherent(Marked(m, a))
    ensures Coherent(m) <==> PutKept(c, a, d)
  {
    hide ByRecency, Front, Evict, Remove, View, WF, Coherent, Marked;
    if a in c.bufs {
      var b := c.bufs[a];
      var b' := Buf(d, b.dirty, if b.pins > 0 then b.pins - 1 else 0);
      StoreKeeps(c, a, b');
      StoreByRecency(c, a, b', hist);
      StoredCoherent(c, a, b');
    } else {
      EvictKeeps(c);
      EvictByRecency(c, hist);
      var e := Evict(c).value;
      StoreKeeps(e, a, Buf(d, false, 0));
      StoreByRecency(e, a, Buf(d, false, 0), hist);
      StoredCoherent(e, a, Buf(d, false, 0));
    }
  }

  lemma PutRefines(c: Cache, a: nat, d: Block, mark: bool, t: Cache, reply: Reply, hist: seq<nat>)
    requires Inv(c, hist) && Step(c, Put(a, d, mark), t, reply) && Disciplined(c, Put(a, d, mark))
    ensures Inv(t, Accessed(hist, Put(a, d, mark), reply)) && |t.img| == |c.img|
    ensures View(t) == PlainStep(View(c), Put(a, d, mark), reply)
  {
    hide ByRecency, Evict, PutOk, WF, View;
    if reply.Done? {
      var m :| PutOk(c, a, d, m) && t == if mark then Marked(m, a) else m;
      MarkedPut(c, a, d, m, hist);
      MarkedKeeps(m, a, hist + [a]);
    } else {
      MarkedKeeps(c, a, hist);
    }
  }

  /** Writing dirty blocks back shows in nothing a caller reads; with none left the device is the view. */
  lemma FlushKeeps(c: Cache, t: Cache, hist: seq<nat>)
    requires Inv(c, hist) && Flushed(c, t)
    ensures Inv(t, hist) && View(t) == View(c)
    ensures AllClean(t) ==> View(t) == OnDisk(t.img)
  {
    hide Keep, MostRecent, View, OnDisk, Coherent, Flushed, AllClean, WF;
    FlushedCoherent(c, t);
    FlushedWF(c, t);
  }

  lemma FlushedWF(c: Cache, t: Cache)
    requires WF(c) && Flushed(c, t)
    ensures WF(t) && t.lru == c.lru && t.bufs.Keys == c.bufs.Keys
  {
    hide NoDuplicates;
    assert |t.bufs| == |t.bufs.Keys| && |c.bufs| == |c.bufs.Keys|;
  }

  lemma FlushedCoherent(c: Cache, t: Cache)
    requires Coherent(c) && Flushed(c, t)
    ensures Coherent(t) && View(t) == View(c)
    ensures AllClean(t) ==> View(t) == OnDisk(t.img)
  {
    hide View, OnDisk;
    assert Coherent(t);
    assert forall a: nat :: a in View(t) <==> a in View(c);
    forall a: nat | a in View(t) ensures View(t)[a] == View(c)[a] {}
    if AllClean(t) {
      forall a: nat | a in View(t) ensures a in OnDisk(t.img) && View(t)[a] == OnDisk(t.img)[a] {}
      assert View(t) == OnDisk(t.img);
    }
  }

  lemma CleanedIsFlushed(c: Cache, a: nat)
    requires a in c.bufs && a < |c.img| && c.bufs[a].dirty
    ensures Flushed(c, Cleaned(c, a))
  {
  }

  lemma InvalidateKeeps(c: Cache, a: nat, hist: seq<nat>)
    requires Inv(c, hist) && (a in c.bufs ==> !c.bufs[a].dirty)
    ensures Inv(Invalidated(c, a), hist) && View(Invalidated(c, a)) == View(c)
  {
    hide Keep, MostRecent, Remove, WF, Coherent, View;
    if a in c.bufs {
      assert Invalidated(c, a) == Dropped(c, a);
      DroppedWF(c, a);
      DroppedView(c, a);
      KeepRemove(MostRecent(hist), c.bufs.Keys, a);
      assert (c.bufs - {a}).Keys == c.bufs.Keys - {a};
    }
  }

  /** One disciplined call keeps the invariant, answers what the plain block map answers, and changes what the
      caller sees exactly as the plain map changes. */
  lemma StepRefines(c: Cache, op: Op, t: Cache, reply: Reply, hist: seq<nat>)
    requires Inv(c, hist) && Step(c, op, t, reply) && Disciplined(c, op)
    ensures Inv(t, Accessed(hist, op, reply)) && |t.img| == |c.img|
    ensures View(t) == PlainStep(View(c), op, reply) && PlainReply(View(c), op, reply)
    ensures op.FlushAll? && reply.Done? ==> View(t) == OnDisk(t.img)
  {
    hide Inv, View, GetOk, PutOk, WriteOk, Evict, Flushed, AllClean, Cleaned, Invalidated;
    match op
    case Get(a) => if reply.Data? { GetRefines(c, a, t, reply.block, hist); }
    case Put(a, d, mark) => PutRefines(c, a, d, mark, t, reply, hist);
    case Write(a, d) => if reply.Done? { WriteRefines(c, a, d, t, hist); }
    case Flush(a) =>
      if t != c {
        CleanedIsFlushed(c, a);
        FlushKeeps(c, t, hist);
        FlushedSize(c, t);
      }
    case FlushAll =>
      FlushKeeps(c, t, hist);
      FlushedSize(c, t);
    case Invalidate(a) =>
      InvalidateKeeps(c, a, hist);
      InvalidatedSize(c, a);
  }

  lemma FlushedSize(c: Cache, t: Cache)
    requires Flushed(c, t)
    ensures |t.img| == |c.img|
  {
  }

  lemma InvalidatedSize(c: Cache, a: nat)
    ensures |Invalidated(c, a).img| == |c.img|
  {
  }

  // ---------------------------------------------------------------- runs

  /** A run: the calls, their replies and the caches in between (one more than calls). */
  ghost predicate IsRun(cs: seq<Cache>, ops: seq<Op>, replies: seq<Reply>) {
    && |cs| == |ops| + 1 == |replies| + 1
    && forall i :: 0 <= i < |ops| ==> Step(cs[i], ops[i], cs[i + 1], replies[i]) && Disciplined(cs[i], ops[i])
  }

  /** The plain block map after the first n calls of a run. */
  function Plain(m: map<nat, Block>, ops: seq<Op>, replies: seq<Reply>, n: nat): map<nat, Block>
    requires n <= |ops| == |replies|
  {
    if n == 0 then m else PlainStep(Plain(m, ops, replies, n - 1), ops[n - 1], replies[n - 1])
  }

  function History(ops: seq<Op>, replies: seq<Reply>, n: nat): seq<nat>
    requires n <= |ops| == |replies|
  {
    if n == 0 then [] else Accessed(History(ops, replies, n - 1), ops[n - 1], replies[n - 1])
  }

  /** The cache a program starts with. */
  ghost predicate Fresh(c: Cache) { c.bufs == map[] && c.lru == [] && c.capacity > 0 }

  lemma {:induction false} RunInv(cs: seq<Cache>, ops: seq<Op>, replies: seq<Reply>, n: nat)
    requires IsRun(cs, ops, replies) && Fresh(cs[0]) && n <= |ops|
    ensures Inv(cs[n], History(ops, replies, n)) && View(cs[n]) == Plain(View(cs[0]), ops, replies, n)
  {
    hide Inv, View, Step, Disciplined, PlainStep, Fresh;
    if n == 0 {
      FreshInv(cs[0]);
    } else {
      RunInv(cs, ops, replies, n - 1);
      StepRefines(cs[n - 1], ops[n - 1], cs[n], replies[n - 1], History(ops, replies, n - 1));
    }
  }

  lemma FreshInv(c: Cache)
    requires Fresh(c)
    ensures Inv(c, [])
  {
    hide View;
  }

  lemma FreshView(c: Cache)
    requires Fresh(c)
    ensures View(c) == OnDisk(c.img)
  {
  }

  /** Every disciplined run of an initially empty cache is a run of the plain block map: each read returns the last
      value successfully written, whatever was evicted or flushed in between; the list stays ordered by last access
      and names each cached block once; and after a successful flush of everything the device is the view. */
  lemma RunRefinesPlainMap(cs: seq<Cache>, ops: seq<Op>, replies: seq<Reply>, n: nat)
    requires IsRun(cs, ops, replies) && Fresh(cs[0]) && n < |ops|
    ensures Inv(cs[n + 1], History(ops, replies, n + 1))
    ensures var m := Plain(OnDisk(cs[0].img), ops, replies, n);
            && PlainReply(m, ops[n], replies[n]) && View(cs[n + 1]) == PlainStep(m, ops[n], replies[n])
            && (ops[n].FlushAll? && replies[n].Done? ==> m == OnDisk(cs[n + 1].img))
  {
    FreshView(cs[0]);
    RunInv(cs, ops, replies, n);
    hide Inv, View, Step, Disciplined, Plain, PlainReply, PlainStep, OnDisk, History;
    StepRefines(cs[n], ops[n], cs[n + 1], replies[n], History(ops, replies, n));
  }

  // ---------------------------------------------------------------- the limit of the discipline

  /** Exactly when an unmarked put is safe: the cache stays coherent, and the data survives the block's eviction, if
      and only if the block was dirty already or the device holds the same data. */
  lemma UnmarkedPutKeptIff(c: Cache, a: nat, d: Block, t: Cache)
    requires WF(c) && Coherent(c) && PutOk(c, a, d, t) && a < |c.img|
    ensures Coherent(t) <==> PutKept(c, a, d)
    ensures a in t.bufs && |t.img| == |c.img|
    ensures View(Dropped(t, a))[a] == d <==> PutKept(c, a, d)
  {
    hide Front, View, WF, Remove, VictimIndex;
    if a !in c.bufs { EvictKeeps(c); }
    StoredCoherent(if a in c.bufs then c else Evict(c).value, a, t.bufs[a]);
  }

  /** Changed data put without marking is lost when its block is evicted: the caller then reads the old block. */
  lemma UnmarkedPutIsLost(img: Image, old_: Block, new_: Block, other: Block)
    requires img == [old_, other] && old_ != new_
    ensures var c0 := Cache(img, map[], [], 1);
            var c1 := Store(c0, 0, Buf(new_, false, 0));
            var c2 := Store(Dropped(c1, 0), 1, Buf(other, false, 1));
            && PutOk(c0, 0, new_, c1) && View(c1)[0] == new_
            && GetOk(c1, 1, c2, other) && View(c2)[0] == old_
  {
    var c0 := Cache(img, map[], [], 1);
    var c1 := Store(c0, 0, Buf(new_, false, 0));
    assert c1.lru == [0];
    assert VictimIndex(c1.bufs, c1.lru) == 0;
  }

  /** The device changed behind the cache's back, as the allocator does when it zeroes a block it hands out. */
  function Behind(c: Cache, v: nat, z: Block): Cache
    requires v < |c.img|
  {
    Cache(c.img[v := z], c.bufs, c.lru, c.capacity)
  }

  /** Callers see the new content exactly if the block was not cached, or was cached with that content; the cache
      stays coherent exactly if it holds no other clean copy. So no free block may be left in the cache. */
  lemma BehindTheCacheIff(c: Cache, v: nat, z: Block)
    requires WF(c) && Coherent(c) && v < |c.img|
    ensures View(Behind(c, v, z)) == View(c)[v := z] <==> v !in c.bufs || c.bufs[v].data == z
    ensures Coherent(Behind(c, v, z)) <==> v !in c.bufs || c.bufs[v].dirty || c.bufs[v].data == z
  {
    hide View, NoDuplicates;
    var t := Behind(c, v, z);
    if v !in c.bufs || c.bufs[v].data == z {
      assert forall a: nat :: a in View(t) <==> a in View(c)[v := z];
      forall a: nat | a in View(t) ensures View(t)[a] == View(c)[v := z][a] {}
    } else {
      assert View(t)[v] != z && View(c)[v := z][v] == z;
    }
  }
}
