/** The write-back LRU buffer cache; every call is a step of the specified cache. */
module BufferCaching {
  import opened Bytes
  import opened Device
  import opened CacheSpec

  const DEFAULT_CACHE_SIZE: nat := 256

  function GetReply(r: Result<Block>): Reply { if r.Ok? then Data(r.value) else Failed }
  function DoneReply(r: Result<()>): Reply { if r.Ok? then Done else Failed }

  class BufferCache {
    const dev: BlockDevice
    const capacity: nat
    var cache: map<nat, Buf>
    var lru: seq<nat>

    ghost function Abs(): Cache
      reads this, dev
    {
      Cache(dev.data, cache, lru, capacity)
    }

    ghost predicate Valid()
      reads this, dev
    {
      dev.Valid() && WF(Abs())
    }

    constructor (dev: BlockDevice, capacity: int)
      requires dev.Valid()
      ensures Valid() && this.dev == dev && Fresh(Abs())
      ensures this.capacity == if capacity <= 0 then DEFAULT_CACHE_SIZE else capacity
    {
      this.dev := dev;
      this.capacity := if capacity <= 0 then DEFAULT_CACHE_SIZE else capacity;
      cache, lru := map[], [];
    }

    /** Makes room for one more block. */
    method EvictIfNeeded() returns (r: Result<()>)
      requires Valid()
      modifies this`cache, this`lru, dev`data, dev`dirty
      ensures Valid()
      ensures r.Ok? ==> Evict(old(Abs())) == Ok(Abs()) && |cache| < capacity
      ensures r.Err? ==> Abs() == old(Abs())
      ensures !dev.faulty ==> (r.Ok? <==> Evict(old(Abs())).Ok?)
      ensures cache.Keys <= old(cache.Keys)
    {
      hide WF, VictimIndex, Remove;
      while |cache| >= capacity
        invariant dev.Valid() && WF(Abs()) && cache.Keys <= old(cache.Keys)
        invariant Abs() == old(Abs()) || (Evict(old(Abs())) == Ok(Abs()) && |cache| < capacity)
        decreases |cache|
      {
        var i := FindVictim();
        if i < 0 { return Err(Pinned); }
        VictimFacts(Abs());
        var v := lru[i];
        if cache[v].dirty {
          var w := dev.WriteBlock(v, cache[v].data);
          if w.Err? { return Err(w.error); }
        }
        DroppedWF(old(Abs()), v);
        lru := Remove(lru, v);
        cache := cache - {v};
      }
      return Ok(());
    }

    /** Walks from the least recent block towards the front to the first unpinned one. */
    method FindVictim() returns (i: int)
      requires Valid()
      ensures i == VictimIndex(cache, lru)
    {
      i := |lru| - 1;
      assert lru[..|lru|] == lru;
      while i >= 0 && (lru[i] !in cache || cache[lru[i]].pins > 0)
        invariant -1 <= i < |lru| && VictimIndex(cache, lru) == VictimIndex(cache, lru[..i + 1])
      {
        assert lru[..i + 1][..i] == lru[..i];
        i := i - 1;
      }
      assert i >= 0 ==> lru[..i + 1][i] == lru[i];
    }

    /** Returns the block a caller sees, and pins it. */
    method GetBlock(addr: nat) returns (r: Result<Block>)
      requires Valid()
      modifies this`cache, this`lru, dev`data, dev`dirty
      ensures Valid() && Step(old(Abs()), Get(addr), Abs(), GetReply(r))
      ensures !dev.faulty ==> (r.Ok? <==> addr in old(cache) || (addr < |old(dev.data)| && Evict(old(Abs())).Ok?))
    {
      hide WF, Evict, Front;
      if addr in cache {
        var e := cache[addr];
        StoreWF(Abs(), addr, Buf(e.data, e.dirty, e.pins + 1));
        cache := cache[addr := Buf(e.data, e.dirty, e.pins + 1)];
        lru := Front(lru, addr);
        return Ok(e.data);
      }
      var blk := dev.ReadBlock(addr);
      if blk.Err? { return Err(blk.error); }
      var room := EvictIfNeeded();
      if room.Err? { return Err(room.error); }
      StoreWF(Abs(), addr, Buf(blk.value, false, 1));
      cache := cache[addr := Buf(blk.value, false, 1)];
      lru := Front(lru, addr);
      return Ok(blk.value);
    }

    /** Stores data without marking it, and drops one pin. */
    method PutBlock(addr: nat, data: seq<Byte>) returns (r: Result<()>)
      requires Valid()
      modifies this`cache, this`lru, dev`data, dev`dirty
      ensures Valid()
      ensures |data| != BLOCK_SIZE ==> r.Err?
      ensures |data| == BLOCK_SIZE ==> Step(old(Abs()), Put(addr, data, false), Abs(), DoneReply(r))
      ensures r.Err? ==> Abs() == old(Abs())
      ensures !dev.faulty && |data| == BLOCK_SIZE ==> (r.Ok? <==> addr in old(cache) || Evict(old(Abs())).Ok?)
    {
      hide WF, Evict, Front;
      if |data| != BLOCK_SIZE { return Err(BadLength); }
      if addr in cache {
        var e := cache[addr];
        var b := Buf(data, e.dirty, if e.pins > 0 then e.pins - 1 else 0);
        StoreWF(Abs(), addr, b);
        cache := cache[addr := b];
        lru := Front(lru, addr);
        assert PutOk(old(Abs()), addr, data, Abs());
        return Ok(());
      }
      var room := EvictIfNeeded();
      if room.Err? { return Err(room.error); }
      StoreWF(Abs(), addr, Buf(data, false, 0));
      cache := cache[addr := Buf(data, false, 0)];
      lru := Front(lru, addr);
      assert PutOk(old(Abs()), addr, data, Abs());
      return Ok(());
    }

    method MarkDirty(addr: nat)
      requires Valid()
      modifies this`cache
      ensures Valid() && Abs() == Marked(old(Abs()), addr)
    {
      if addr in cache {
        var b := Buf(cache[addr].data, true, cache[addr].pins);
        AddCount(cache, addr, b);
        cache := cache[addr := b];
      }
    }

    /** PutBlock followed at once by MarkDirty: how the engine changes a cached block. */
    method PutDirty(addr: nat, data: Block) returns (r: Result<()>)
      requires Valid()
      modifies this`cache, this`lru, dev`data, dev`dirty
      ensures Valid() && Step(old(Abs()), Put(addr, data, true), Abs(), DoneReply(r))
      ensures !dev.faulty ==> (r.Ok? <==> addr in old(cache) || Evict(old(Abs())).Ok?)
    {
      hide WF, PutOk, Marked, Evict;
      r := PutBlock(addr, data);
      MarkDirty(addr);
    }

    method WriteBlock(addr: nat, data: seq<Byte>) returns (r: Result<()>)
      requires Valid()
      modifies this`cache, this`lru, dev`data, dev`dirty
      ensures Valid()
      ensures |data| != BLOCK_SIZE ==> r.Err? && Abs() == old(Abs())
      ensures |data| == BLOCK_SIZE ==> Step(old(Abs()), Op.Write(addr, data), Abs(), DoneReply(r))
      ensures !dev.faulty && |data| == BLOCK_SIZE ==> (r.Ok? <==> addr in old(cache) || Evict(old(Abs())).Ok?)
    {
      hide WF, Evict, Front;
      if |data| != BLOCK_SIZE { return Err(BadLength); }
      if addr in cache {
        var b := Buf(data, true, cache[addr].pins);
        StoreWF(Abs(), addr, b);
        cache := cache[addr := b];
        lru := Front(lru, addr);
        return Ok(());
      }
      var room := EvictIfNeeded();
      if room.Err? { return Err(room.error); }
      StoreWF(Abs(), addr, Buf(data, true, 0));
      cache := cache[addr := Buf(data, true, 0)];
      lru := Front(lru, addr);
      return Ok(());
    }

    method FlushBlock(addr: nat) returns (r: Result<()>)
      requires Valid()
      modifies this`cache, dev`data, dev`dirty
      ensures Valid() && Step(old(Abs()), Flush(addr), Abs(), DoneReply(r))
      ensures !dev.faulty ==> (r.Err? <==> addr in old(cache) && old(cache[addr]).dirty && addr >= |old(dev.data)|)
    {
      if addr !in cache || !cache[addr].dirty { return Ok(()); }
      var data := cache[addr].data;
      var w := dev.WriteBlock(addr, data);
      if w.Err? { return Err(w.error); }
      var b := Buf(data, false, cache[addr].pins);
      AddCount(cache, addr, b);
      cache := cache[addr := b];
      return Ok(());
    }

    /** Flushes every dirty block, in any order. */
    method FlushAll() returns (r: Result<()>)
      requires Valid()
      modifies this`cache, dev`data, dev`dirty
      ensures Valid() && Step(old(Abs()), Op.FlushAll, Abs(), DoneReply(r))
      ensures !dev.faulty && r.Err? ==> exists a :: a in old(cache) && old(cache[a]).dirty && a >= |old(dev.data)|
    {
      hide WF, Flushed, Cleaned;
      var todo := set a | a in cache && cache[a].dirty;
      FlushedRefl(Abs());
      while todo != {}
        invariant Valid() && Flushed(old(Abs()), Abs())
        invariant forall a :: a in todo <==> a in cache && cache[a].dirty
        decreases |todo|
      {
        NonEmpty(todo);
        var a :| a in todo;
        ghost var mid := Abs();
        var w := FlushBlock(a);
        if w.Err? {
          FlushedDirty(old(Abs()), mid, a);
          return Err(w.error);
        }
        FlushedMore(old(Abs()), mid, a);
        todo := todo - {a};
      }
      return Ok(());
    }

    /** Drops a block without writing it. */
    method Invalidate(addr: nat)
      requires Valid()
      modifies this`cache, this`lru
      ensures Valid() && Step(old(Abs()), Op.Invalidate(addr), Abs(), Done)
    {
      hide Remove;
      if addr in cache {
        RemoveMembers(lru, addr);
        RemoveKeepsDistinct(lru, addr);
        DropCount(cache, addr);
        lru := Remove(lru, addr);
        cache := cache - {addr};
      }
    }

    /** Drops everything without writing; the device is all a caller sees then. */
    method InvalidateAll()
      requires Valid()
      modifies this`cache, this`lru
      ensures Valid() && Fresh(Abs())
    {
      cache, lru := map[], [];
    }
  }

  lemma VictimFacts(c: Cache)
    requires WF(c) && VictimIndex(c.bufs, c.lru) >= 0
    ensures c.lru[VictimIndex(c.bufs, c.lru)] in c.bufs
  {
  }

  lemma NonEmpty(s: set<nat>)
    requires s != {}
    ensures exists a :: a in s
  {
  }

  lemma FlushedRefl(c: Cache)
    ensures Flushed(c, c)
  {
  }

  lemma FlushedDirty(c: Cache, t: Cache, a: nat)
    requires Flushed(c, t) && a in t.bufs && t.bufs[a].dirty
    ensures a in c.bufs && c.bufs[a].dirty && |t.img| == |c.img|
  {
  }

  lemma FlushedMore(c: Cache, t: Cache, a: nat)
    requires Flushed(c, t) && a in t.bufs && t.bufs[a].dirty && a < |t.img|
    ensures Flushed(c, Cleaned(t, a))
    ensures forall x :: x in Cleaned(t, a).bufs && Cleaned(t, a).bufs[x].dirty <==> x in t.bufs && t.bufs[x].dirty && x != a
  {
  }
}
