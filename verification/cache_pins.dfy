/** Pins of the buffer cache over whole runs, counted from the history of calls alone. */
module CachePins {
  import opened Bytes
  import opened CacheSpec

  /** How often block a is held after the first n calls: reads that returned it less puts that gave it back, never
      below zero, and nothing once it is invalidated. */
  function Held(ops: seq<Op>, replies: seq<Reply>, n: nat, a: nat): nat
    requires n <= |ops| == |replies|
  {
    if n == 0 then 0
    else
      var before, op, reply := Held(ops, replies, n - 1, a), ops[n - 1], replies[n - 1];
      match op
      case Get(x) => if x == a && reply.Data? then before + 1 else before
      case Put(x, _, _) => if x == a && reply.Done? && before > 0 then before - 1 else before
      case Invalidate(x) => if x == a then 0 else before
      case _ => before
  }

  function PinsOf(c: Cache, a: nat): nat { if a in c.bufs then c.bufs[a].pins else 0 }

  /** Every run of calls, disciplined or not. */
  ghost predicate Calls(cs: seq<Cache>, ops: seq<Op>, replies: seq<Reply>) {
    && |cs| == |ops| + 1 == |replies| + 1
    && forall i :: 0 <= i < |ops| ==> Step(cs[i], ops[i], cs[i + 1], replies[i])
  }

  /** Making room drops no pinned block and changes no pin. */
  lemma EvictPins(c: Cache, a: nat)
    requires WF(c) && Evict(c).Ok?
    ensures WF(Evict(c).value) && |Evict(c).value.bufs| < c.capacity == Evict(c).value.capacity
    ensures PinsOf(Evict(c).value, a) == PinsOf(c, a)
  {
    hide Remove, VictimIndex, WF;
    if |c.bufs| >= c.capacity {
      VictimUnpinned(c);
      DroppedWF(c, c.lru[VictimIndex(c.bufs, c.lru)]);
    }
  }

  lemma VictimUnpinned(c: Cache)
    requires WF(c) && VictimIndex(c.bufs, c.lru) >= 0
    ensures var v := c.lru[VictimIndex(c.bufs, c.lru)]; v in c.bufs && c.bufs[v].pins == 0
  {
    hide VictimIndex;
    VictimIsLeastRecent(c.bufs, c.lru);
  }

  lemma StorePins(c: Cache, a: nat, b: Buf, x: nat)
    ensures PinsOf(Store(c, a, b), x) == if x == a then b.pins else PinsOf(c, x)
  {
    hide Front;
  }

  lemma MarkedPins(c: Cache, a: nat, x: nat)
    requires WF(c)
    ensures WF(Marked(c, a)) && PinsOf(Marked(c, a), x) == PinsOf(c, x)
  {
    hide NoDuplicates;
    if a in c.bufs { AddCount(c.bufs, a, Buf(c.bufs[a].data, true, c.bufs[a].pins)); }
  }

  /** What one call does to the pins of block x. */
  lemma StepPins(c: Cache, op: Op, t: Cache, reply: Reply, x: nat)
    requires WF(c) && Step(c, op, t, reply)
    ensures WF(t)
    ensures op.Get? && op.addr == x && reply.Data? ==> PinsOf(t, x) == PinsOf(c, x) + 1
    ensures op.Put? && op.addr == x && reply.Done? ==> PinsOf(t, x) == if PinsOf(c, x) > 0 then PinsOf(c, x) - 1 else 0
    ensures op.Invalidate? && op.addr == x ==> PinsOf(t, x) == 0
    ensures (op.Get? && reply.Data?) || (op.Put? && reply.Done?) || op.Invalidate? ==> op.addr == x || PinsOf(t, x) == PinsOf(c, x)
    ensures op.Write? || op.Flush? || op.FlushAll? || reply.Failed? ==> PinsOf(t, x) == PinsOf(c, x)
  {
    hide WF, Evict, Front, Remove, Marked, Flushed, PutOk, Store, AllClean;
    match op
    case Get(a) => if reply.Data? { GetPins(c, a, t, reply.block, x); }
    case Put(a, d, mark) =>
      if reply.Done? {
        var m :| PutOk(c, a, d, m) && t == if mark then Marked(m, a) else m;
        PutPins(c, a, d, m, x);
        MarkedPins(m, a, x);
      } else {
        MarkedPins(c, a, x);
      }
    case Write(a, d) => if reply.Done? { WritePins(c, a, d, t, x); }
    case Flush(a) =>
      if t != c {
        CleanedIsFlushed(c, a);
        FlushedWF(c, t);
        FlushedPins(c, t, x);
      }
    case FlushAll =>
      FlushedWF(c, t);
      FlushedPins(c, t, x);
    case Invalidate(a) => InvalidatedPins(c, a, x);
  }

  lemma GetPins(c: Cache, a: nat, t: Cache, d: Block, x: nat)
    requires WF(c) && GetOk(c, a, t, d)
    ensures WF(t) && PinsOf(t, x) == PinsOf(c, x) + if x == a then 1 else 0
  {
    hide WF, Evict, Store;
    if a in c.bufs {
      var b := Buf(c.bufs[a].data, c.bufs[a].dirty, c.bufs[a].pins + 1);
      StorePins(c, a, b, x);
      StoreWF(c, a, b);
    } else {
      EvictPins(c, x);
      StorePins(Evict(c).value, a, Buf(c.img[a], false, 1), x);
      StoreWF(Evict(c).value, a, Buf(c.img[a], false, 1));
    }
  }

  lemma PutPins(c: Cache, a: nat, d: Block, t: Cache, x: nat)
    requires WF(c) && PutOk(c, a, d, t)
    ensures WF(t) && PinsOf(t, x) == if x == a && PinsOf(c, x) > 0 then PinsOf(c, x) - 1 else PinsOf(c, x)
  {
    hide WF, Evict, Store;
    if a in c.bufs {
      var b := Buf(d, c.bufs[a].dirty, if c.bufs[a].pins > 0 then c.bufs[a].pins - 1 else 0);
      StorePins(c, a, b, x);
      StoreWF(c, a, b);
    } else {
      EvictPins(c, x);
      StorePins(Evict(c).value, a, Buf(d, false, 0), x);
      StoreWF(Evict(c).value, a, Buf(d, false, 0));
    }
  }

  lemma WritePins(c: Cache, a: nat, d: Block, t: Cache, x: nat)
    requires WF(c) && WriteOk(c, a, d, t)
    ensures WF(t) && PinsOf(t, x) == PinsOf(c, x)
  {
    hide WF, Evict, Store;
    if a in c.bufs {
      StorePins(c, a, Buf(d, true, c.bufs[a].pins), x);
      StoreWF(c, a, Buf(d, true, c.bufs[a].pins));
    } else {
      EvictPins(c, x);
      StorePins(Evict(c).value, a, Buf(d, true, 0), x);
      StoreWF(Evict(c).value, a, Buf(d, true, 0));
    }
  }

  lemma FlushedPins(c: Cache, t: Cache, x: nat)
    requires Flushed(c, t)
    ensures PinsOf(t, x) == PinsOf(c, x)
  {
  }

  lemma InvalidatedPins(c: Cache, a: nat, x: nat)
    requires WF(c)
    ensures WF(Invalidated(c, a)) && PinsOf(Invalidated(c, a), x) == if x == a then 0 else PinsOf(c, x)
  {
    hide Remove;
    if a in c.bufs {
      RemoveMembers(c.lru, a);
      RemoveKeepsDistinct(c.lru, a);
      DropCount(c.bufs, a);
    }
  }

  /** In every state of every run the pins of a cached block are those its callers hold by the history of calls, and
      a block that is not cached is held by nobody. */
  lemma {:induction false} RunPins(cs: seq<Cache>, ops: seq<Op>, replies: seq<Reply>, n: nat, a: nat)
    requires Calls(cs, ops, replies) && Fresh(cs[0]) && n <= |ops|
    ensures WF(cs[n])
    ensures if a in cs[n].bufs then cs[n].bufs[a].pins == Held(ops, replies, n, a) else Held(ops, replies, n, a) == 0
  {
    hide Step, WF;
    if n == 0 {
      FreshInv(cs[0]);
    } else {
      RunPins(cs, ops, replies, n - 1, a);
      StepPins(cs[n - 1], ops[n - 1], cs[n], replies[n - 1], a);
      ReplyKinds(cs[n - 1], ops[n - 1], cs[n], replies[n - 1]);
    }
  }

  lemma ReplyKinds(c: Cache, op: Op, t: Cache, reply: Reply)
    requires Step(c, op, t, reply)
    ensures op.Get? ==> reply.Data? || reply.Failed?
    ensures op.Put? ==> reply.Done? || reply.Failed?
  {
  }

  /** A held block stays cached, whatever call comes next, unless that call invalidates it. */
  lemma HeldStaysCached(cs: seq<Cache>, ops: seq<Op>, replies: seq<Reply>, n: nat, a: nat)
    requires Calls(cs, ops, replies) && Fresh(cs[0]) && n < |ops| && Held(ops, replies, n, a) > 0
    requires ops[n] != Invalidate(a)
    ensures a in cs[n].bufs && a in cs[n + 1].bufs
  {
    hide WF, Step;
    RunPins(cs, ops, replies, n, a);
    RunPins(cs, ops, replies, n + 1, a);
    if ops[n].Put? && ops[n].addr == a { PutStays(cs[n], ops[n], cs[n + 1], replies[n]); }
  }

  lemma PutStays(c: Cache, op: Op, t: Cache, reply: Reply)
    requires Step(c, op, t, reply) && op.Put? && op.addr in c.bufs
    ensures op.addr in t.bufs
  {
    hide Front;
  }

  /** A full cache whose blocks are all held takes in no other block: the call fails and changes nothing a caller
      could see. */
  lemma AllHeldFails(cs: seq<Cache>, ops: seq<Op>, replies: seq<Reply>, n: nat)
    requires Calls(cs, ops, replies) && Fresh(cs[0]) && n < |ops|
    requires |cs[n].bufs| >= cs[n].capacity && forall a :: a in cs[n].bufs ==> Held(ops, replies, n, a) > 0
    requires (ops[n].Get? || ops[n].Put? || ops[n].Write?) && ops[n].addr !in cs[n].bufs
    ensures replies[n].Failed? && cs[n + 1] == cs[n]
  {
    hide Held, VictimIndex;
    var c := cs[n];
    forall a | a in c.bufs ensures c.bufs[a].pins > 0 { RunPins(cs, ops, replies, n, a); }
    RunPins(cs, ops, replies, n, 0);
    VictimIsLeastRecent(c.bufs, c.lru);
    assert Evict(c).Err?;
    assert Step(c, ops[n], cs[n + 1], replies[n]);
  }

  /** The other way round: a call on a block that is not cached succeeds on a device without faults exactly when
      there is room or some cached block is held by nobody, the oldest such block being one the device can take. */
  lemma RoomIff(cs: seq<Cache>, ops: seq<Op>, replies: seq<Reply>, n: nat)
    requires Calls(cs, ops, replies) && Fresh(cs[0]) && n <= |ops|
    requires forall a :: a in cs[n].bufs ==> a < |cs[n].img|
    ensures Evict(cs[n]).Ok? <==>
              |cs[n].bufs| < cs[n].capacity || exists a :: a in cs[n].bufs && Held(ops, replies, n, a) == 0
  {
    hide Held, VictimIndex, Remove, Step;
    var c := cs[n];
    forall a | a in c.bufs ensures c.bufs[a].pins == Held(ops, replies, n, a) { RunPins(cs, ops, replies, n, a); }
    RunPins(cs, ops, replies, n, 0);
    VictimIsLeastRecent(c.bufs, c.lru);
  }
}
