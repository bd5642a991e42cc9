/** File content through the write-back cache: what callers see is the sparse byte sequence, and a flush makes the
    device hold it. */
module CachedFiles {
  import opened Bytes
  import opened Device
  import opened Bitmaps
  import opened Allocation
  import opened BlockMap
  import opened Extents
  import Truncation
  import opened Growth
  import opened FileContent
  import opened CacheSpec
  import opened BufferCaching

  // ---------------------------------------------------------------- the state seen through the cache

  /** The blocks a caller sees: cached ones first. */
  ghost function Overlay(img: Image, bufs: map<nat, Buf>): (r: Image)
    ensures |r| == |img|
    ensures forall a :: 0 <= a < |img| ==> r[a] == if a in bufs then bufs[a].data else img[a]
  {
    seq(|img|, a requires 0 <= a < |img| => if a in bufs then bufs[a].data else img[a])
  }

  ghost function Through(s: State, bufs: map<nat, Buf>): State { State(s.files, Overlay(s.img, bufs), s.used) }

  ghost predicate HeldLeaf(s: State, a: nat) { exists p :: InTree(s.files, p) && IsLeaf(p) && Addr(s, p) == a && a != 0 }

  /** Only data blocks of files are cached: no index block, no metadata, and above all no free block. */
  ghost predicate OnlyLeaves(s: State, keys: set<nat>) { forall a :: a in keys ==> HeldLeaf(s, a) }

  lemma LeavesInRegion(s: State, keys: set<nat>)
    requires Owns(s) && OnlyLeaves(s, keys)
    ensures |s.img| == TOTAL_BLOCKS && forall a :: a in keys ==> InRegion(a) && a in s.used
  {
    hide Addr, InTree;
  }

  lemma IndexNotCached(s: State, p: Pos, keys: set<nat>)
    requires Owns(s) && OnlyLeaves(s, keys) && InTree(s.files, p) && !IsLeaf(p)
    ensures Addr(s, p) !in keys
  {
    hide Addr, InTree, Owns;
    assert Disjoint(s) by { OwnsDisjoint(s); }
    forall a | a in keys ensures a != Addr(s, p) {
      var q :| InTree(s.files, q) && IsLeaf(q) && Addr(s, q) == a && a != 0;
    }
  }

  /** Index blocks are not cached, so the mapping is the same through the cache. */
  lemma ThroughOwns(s: State, bufs: map<nat, Buf>)
    requires Owns(s) && OnlyLeaves(s, bufs.Keys)
    ensures Owns(Through(s, bufs)) && forall p :: InTree(s.files, p) ==> Addr(Through(s, bufs), p) == Addr(s, p)
  {
    hide Addr, InTree, Owns, Overlay;
    assert Disjoint(s) by { OwnsDisjoint(s); }
    var t := Through(s, bufs);
    forall p | InTree(s.files, p) && !IsLeaf(p) && 0 < Addr(s, p) < |s.img| ensures t.img[Addr(s, p)] == s.img[Addr(s, p)] {
      IndexNotCached(s, p, bufs.Keys);
    }
    assert SameIndex(s, t);
    SameIndexOwns(s, t);
    forall p | InTree(s.files, p) ensures Addr(t, p) == Addr(s, p) { SameIndexAddr(s, t, p); }
  }

  /** Growing a tree keeps every cached block a data block, and looks the same through the cache. */
  lemma GrownLeaves(s: State, t: State, target: Pos, keys: set<nat>)
    requires Owns(s) && Grown(s, t, target) && OnlyLeaves(s, keys)
    ensures OnlyLeaves(t, keys)
  {
    hide Addr, InTree, Owns, Above, Zero;
    forall a | a in keys ensures HeldLeaf(t, a) {
      var p :| InTree(s.files, p) && IsLeaf(p) && Addr(s, p) == a && a != 0;
      SameTree(s.files, t.files, p);
      assert Addr(t, p) == a;
    }
  }

  lemma GrownThrough(s: State, t: State, target: Pos, bufs: map<nat, Buf>)
    requires Owns(s) && Grown(s, t, target) && OnlyLeaves(s, bufs.Keys) && InTree(s.files, target)
    ensures OnlyLeaves(t, bufs.Keys) && Grown(Through(s, bufs), Through(t, bufs), target)
  {
    hide Addr, InTree, Owns, Above, Zero, Overlay;
    GrownLeaves(s, t, target, bufs.Keys);
    ThroughOwns(s, bufs);
    ThroughOwns(t, bufs);
    LeavesInRegion(s, bufs.Keys);
    forall p ensures InTree(s.files, p) <==> InTree(t.files, p) { SameTree(s.files, t.files, p); }
    if IsLeaf(target) && Addr(s, target) == 0 && InRegion(Addr(t, target)) {
      FreshNotCached(s, t, target, bufs.Keys);
    }
  }

  lemma FreshNotCached(s: State, t: State, target: Pos, keys: set<nat>)
    requires Owns(s) && Grown(s, t, target) && OnlyLeaves(s, keys) && InTree(s.files, target)
    requires Addr(s, target) == 0 && Addr(t, target) != 0
    ensures Addr(t, target) !in keys
  {
    hide Addr, InTree, Owns, Above, Zero;
    assert Disjoint(t) by { OwnsDisjoint(t); }
    SameTree(s.files, t.files, target);
    forall a | a in keys ensures a != Addr(t, target) {
      var p :| InTree(s.files, p) && IsLeaf(p) && Addr(s, p) == a && a != 0;
      SameTree(s.files, t.files, p);
      assert Addr(t, p) == a && p != target;
    }
  }

  // ---------------------------------------------------------------- the cache between calls

  ghost predicate NoPins(bufs: map<nat, Buf>) { forall a :: a in bufs ==> bufs[a].pins == 0 }

  /** Between operations: nothing pinned, clean buffers agree with the device, only data blocks cached. */
  ghost predicate Settled(c: Cache, s: State) {
    && WF(c) && Coherent(c) && NoPins(c.bufs) && c.img == s.img && OnlyLeaves(s, c.bufs.Keys)
  }

  lemma {:induction false} ReverseHistory(lru: seq<nat>) returns (hist: seq<nat>)
    requires NoDuplicates(lru)
    ensures MostRecent(hist) == lru
  {
    if lru == [] {
      hist := [];
    } else {
      var rest := ReverseHistory(lru[1..]);
      hist := rest + [lru[0]];
      assert hist[..|rest|] == rest;
      RemoveAbsent(lru[1..], lru[0]);
    }
  }

  lemma {:induction false} RemoveAbsent(s: seq<nat>, a: nat)
    requires a !in s
    ensures Remove(s, a) == s
  {
    if s != [] { RemoveAbsent(s[1..], a); }
  }

  /** Every well-formed cache is one that some history of accesses leaves. */
  lemma SomeHistory(c: Cache) returns (hist: seq<nat>)
    requires WF(c)
    ensures ByRecency(c, hist)
  {
    hide Keep, MostRecent;
    hist := ReverseHistory(c.lru);
    KeepAll(c.lru, c.bufs.Keys);
  }

  lemma EvictWithoutPins(c: Cache)
    requires WF(c) && NoPins(c.bufs) && forall a :: a in c.bufs ==> a < |c.img|
    ensures Evict(c).Ok?
  {
    hide VictimIndex, NoDuplicates;
    if |c.bufs| >= c.capacity {
      VictimIsLeastRecent(c.bufs, c.lru);
      assert c.bufs.Keys != {} by { assert |c.bufs| == |c.bufs.Keys|; }
      var a :| a in c.bufs.Keys;
      assert a in c.lru;
    }
  }

  /** Taking a block changes nothing a caller sees; only that block may be new in the cache, and it is pinned once. */
  lemma GetThrough(c: Cache, a: nat, t: Cache, d: Block)
    requires WF(c) && Coherent(c) && NoPins(c.bufs) && (forall x :: x in c.bufs ==> x < |c.img|) && GetOk(c, a, t, d) && a < |c.img|
    ensures WF(t) && Coherent(t) && Overlay(t.img, t.bufs) == Overlay(c.img, c.bufs) && d == Overlay(c.img, c.bufs)[a]
    ensures a in t.bufs && t.bufs[a].pins == 1 && t.bufs.Keys <= c.bufs.Keys + {a}
    ensures forall x :: x in t.bufs && x != a ==> t.bufs[x].pins == 0
    ensures |t.img| == |c.img| && forall x :: 0 <= x < |c.img| && x !in c.bufs ==> t.img[x] == c.img[x]
  {
    hide Evict, Front, View, ByRecency, WF, Coherent, Overlay;
    var hist := SomeHistory(c);
    GetRefines(c, a, t, d, hist);
    GetShape(c, a, t, d);
    SameView(c, t);
    ViewOverlay(c);
  }

  lemma GetShape(c: Cache, a: nat, t: Cache, d: Block)
    requires WF(c) && Coherent(c) && NoPins(c.bufs) && GetOk(c, a, t, d)
    ensures a in t.bufs && t.bufs[a].pins == 1 && t.bufs.Keys <= c.bufs.Keys + {a}
    ensures forall x :: x in t.bufs && x != a ==> t.bufs[x].pins == 0
    ensures |t.img| == |c.img| && forall x :: 0 <= x < |c.img| && x !in c.bufs ==> t.img[x] == c.img[x]
  {
    hide Front, View, WF, Coherent, Remove, VictimIndex;
    if a !in c.bufs { EvictKeeps(c); }
  }

  lemma ViewOverlay(c: Cache)
    requires forall x :: x in c.bufs ==> x < |c.img|
    ensures forall x: nat :: x in View(c) <==> x < |c.img|
    ensures forall x: nat :: x < |c.img| ==> View(c)[x] == Overlay(c.img, c.bufs)[x]
  {
    hide View, Overlay;
  }

  lemma SameView(c: Cache, t: Cache)
    requires View(t) == View(c) && |t.img| == |c.img| && forall x :: x in t.bufs || x in c.bufs ==> x < |c.img|
    ensures Overlay(t.img, t.bufs) == Overlay(c.img, c.bufs)
  {
    hide View, Overlay;
    ViewOverlay(c);
    ViewOverlay(t);
  }

  /** Putting a block that is there, with or without marking it. */
  lemma PutThrough(c: Cache, a: nat, d: Block, t: Cache)
    requires WF(c) && Coherent(c) && a in c.bufs && a < |c.img| && PutOk(c, a, d, t)
    ensures WF(t) && t.img == c.img && t.bufs.Keys == c.bufs.Keys
    ensures Overlay(t.img, t.bufs) == Overlay(c.img, c.bufs)[a := d]
    ensures t.bufs == c.bufs[a := Buf(d, c.bufs[a].dirty, if c.bufs[a].pins > 0 then c.bufs[a].pins - 1 else 0)]
    ensures d == Overlay(c.img, c.bufs)[a] ==> Coherent(t)
    ensures WF(Marked(t, a)) && Coherent(Marked(t, a)) && Overlay(Marked(t, a).img, Marked(t, a).bufs) == Overlay(t.img, t.bufs)
    ensures Marked(t, a).img == c.img && Marked(t, a).bufs.Keys == c.bufs.Keys
    ensures Marked(t, a).bufs == t.bufs[a := Buf(d, true, t.bufs[a].pins)]
  {
    hide Front, View, WF, Overlay;
    var b := Buf(d, c.bufs[a].dirty, if c.bufs[a].pins > 0 then c.bufs[a].pins - 1 else 0);
    StoreWF(c, a, b);
    StoredCoherent(c, a, b);
    MarkedWF(t, a);
  }

  lemma MarkedWF(c: Cache, a: nat)
    requires WF(c)
    ensures WF(Marked(c, a))
  {
    hide NoDuplicates;
    if a in c.bufs { AddCount(c.bufs, a, Buf(c.bufs[a].data, true, c.bufs[a].pins)); }
  }

  // ---------------------------------------------------------------- one block of a file

  /** Block addr has been taken from cache c, which is now t: callers see the same, and addr alone is pinned. */
  ghost predicate TakenFrom(c: Cache, t: Cache, addr: nat) {
    && Coherent(t) && Overlay(t.img, t.bufs) == Overlay(c.img, c.bufs)
    && addr in t.bufs && t.bufs[addr].pins == 1 && t.bufs.Keys <= c.bufs.Keys + {addr}
    && (forall x :: x in t.bufs && x != addr ==> t.bufs[x].pins == 0)
    && |t.img| == |c.img| && (forall x :: 0 <= x < |c.img| && x !in c.bufs ==> t.img[x] == c.img[x])
  }

  method Take(alloc: Allocator, cache: BufferCache, addr: nat, ghost s: State) returns (blk: Block)
    requires alloc.Valid() && cache.dev == alloc.dev && cache.Valid() && Settled(cache.Abs(), s)
    requires Owns(s) && HeldLeaf(s, addr)
    modifies cache`cache, cache`lru, alloc.dev`data, alloc.dev`dirty
    ensures alloc.Valid() && cache.Valid() && TakenFrom(old(cache.Abs()), cache.Abs(), addr)
    ensures addr < |s.img| && blk == Overlay(s.img, old(cache.cache))[addr]
  {
    hide Owns, Addr, WF, Coherent, Evict, Overlay, GetOk, Bitmap.Used, HeldLeaf, OnlyLeaves;
    ghost var c := cache.Abs();
    LeafAddr(s, addr);
    LeavesInRegion(s, c.bufs.Keys);
    EvictWithoutPins(c);
    var rd := cache.GetBlock(addr);
    GetThrough(c, addr, cache.Abs(), rd.value);
    return rd.value;
  }

  /** Puts a taken block back. */
  method GiveBack(alloc: Allocator, cache: BufferCache, addr: nat, blk: Block, ghost c: Cache)
    requires alloc.Valid() && cache.dev == alloc.dev && cache.Valid() && TakenFrom(c, cache.Abs(), addr) && addr < |c.img|
    modifies cache`cache, cache`lru, alloc.dev`data, alloc.dev`dirty
    ensures alloc.Valid() && cache.Valid() && PutOk(old(cache.Abs()), addr, blk, cache.Abs()) && alloc.dev.data == old(alloc.dev.data)
  {
    hide WF, Coherent, Overlay, PutOk, Bitmap.Used, Evict;
    ghost var t := cache.Abs();
    var put := cache.PutBlock(addr, blk);
    PutHits(t, addr, blk, cache.Abs());
    PutImage(t, addr, blk, cache.Abs());
  }

  lemma PutImage(c: Cache, a: nat, d: Block, t: Cache)
    requires a in c.bufs && PutOk(c, a, d, t)
    ensures t.img == c.img
  {
  }

  /** Reads a data block through the cache and gives the pin back. */
  method ReadThrough(alloc: Allocator, cache: BufferCache, addr: nat, ghost s: State) returns (r: Result<Block>)
    requires alloc.Valid() && cache.dev == alloc.dev && cache.Valid() && Settled(cache.Abs(), s)
    requires Owns(s) && HeldLeaf(s, addr)
    modifies cache`cache, cache`lru, alloc.dev`data, alloc.dev`dirty
    ensures alloc.Valid() && cache.Valid() && Settled(cache.Abs(), State(s.files, alloc.dev.data, s.used))
    ensures Overlay(alloc.dev.data, cache.cache) == Overlay(s.img, old(cache.cache))
    ensures SameIndex(s, State(s.files, alloc.dev.data, s.used))
    ensures r.Ok? && addr < |s.img| && r.value == Overlay(s.img, old(cache.cache))[addr]
  {
    hide Owns, Addr, WF, Coherent, Overlay, PutOk, Allocator.Valid, Bitmap.Used, HeldLeaf, OnlyLeaves, SameIndex;
    ghost var c := cache.Abs();
    var blk := Take(alloc, cache, addr, s);
    ghost var t := cache.Abs();
    GiveBack(alloc, cache, addr, blk, c);
    PutThrough(t, addr, blk, cache.Abs());
    SettleAgain(s, c, t, cache.Abs(), addr);
    return Ok(blk);
  }

  lemma LeafAddr(s: State, a: nat)
    requires Owns(s) && HeldLeaf(s, a)
    ensures InRegion(a) && |s.img| == TOTAL_BLOCKS
  {
    hide Addr, InTree;
  }

  lemma PutHits(c: Cache, a: nat, d: Block, t: Cache)
    requires Step(c, Op.Put(a, d, false), t, Done)
    ensures PutOk(c, a, d, t)
  {
    hide PutOk;
  }

  /** After the block is back, the cache is settled over the changed device. */
  lemma SettleAgain(s: State, c: Cache, t: Cache, u: Cache, addr: nat)
    requires Owns(s) && c.img == s.img && OnlyLeaves(s, c.bufs.Keys) && HeldLeaf(s, addr) && NoPins(c.bufs)
    requires u.img == t.img && u.bufs.Keys == t.bufs.Keys && t.bufs.Keys <= c.bufs.Keys + {addr}
    requires |t.img| == |c.img| && forall x :: 0 <= x < |c.img| && x !in c.bufs ==> t.img[x] == c.img[x]
    requires WF(u) && Coherent(u) && NoPins(u.bufs)
    ensures SameIndex(s, State(s.files, u.img, s.used)) && Settled(u, State(s.files, u.img, s.used))
  {
    hide Addr, InTree, WF, Coherent, Owns;
    var v := State(s.files, u.img, s.used);
    assert Disjoint(s) by { OwnsDisjoint(s); }
    forall p | InTree(s.files, p) && !IsLeaf(p) && 0 < Addr(s, p) < |s.img| ensures v.img[Addr(s, p)] == s.img[Addr(s, p)] {
      IndexNotCached(s, p, c.bufs.Keys);
    }
    forall a | a in u.bufs.Keys ensures HeldLeaf(v, a) {
      assert HeldLeaf(s, a);
      var p :| InTree(s.files, p) && IsLeaf(p) && Addr(s, p) == a && a != 0;
      SameIndexAddr(s, v, p);
    }
  }

  /** out is img with bytes copied into block addr at byte bo. */
  ghost predicate Rewritten(img: Image, out: Image, addr: nat, bo: nat, bytes: seq<Byte>) {
    addr < |img| && bo + |bytes| <= BLOCK_SIZE && out == img[addr := Copied(img[addr], bo, bytes)]
  }

  /** Copies bytes into a data block through the cache: taken, changed, put back and marked. */
  method UpdateThrough(alloc: Allocator, cache: BufferCache, addr: nat, bo: nat, bytes: seq<Byte>, ghost s: State)
    requires alloc.Valid() && cache.dev == alloc.dev && cache.Valid() && Settled(cache.Abs(), s)
    requires Owns(s) && HeldLeaf(s, addr) && bo + |bytes| <= BLOCK_SIZE
    modifies cache`cache, cache`lru, alloc.dev`data, alloc.dev`dirty
    ensures alloc.Valid() && cache.Valid() && Settled(cache.Abs(), State(s.files, alloc.dev.data, s.used))
    ensures SameIndex(s, State(s.files, alloc.dev.data, s.used))
    ensures Rewritten(Overlay(s.img, old(cache.cache)), Overlay(alloc.dev.data, cache.cache), addr, bo, bytes)
  {
    hide Owns, Addr, WF, Coherent, Overlay, PutOk, Allocator.Valid, Bitmap.Used, HeldLeaf, OnlyLeaves, SameIndex, Copied;
    ghost var c := cache.Abs();
    var blk := Take(alloc, cache, addr, s);
    ghost var t := cache.Abs();
    blk := Copied(blk, bo, bytes);
    GiveBack(alloc, cache, addr, blk, c);
    PutThrough(t, addr, blk, cache.Abs());
    cache.MarkDirty(addr);
    SettleAgain(s, c, t, cache.Abs(), addr);
  }

  // ---------------------------------------------------------------- files

  /** The file state callers see. */
  ghost function AsSeen(alloc: Allocator, cache: BufferCache, di: DiskInode, files: map<nat, Roots>, inum: nat): State
    requires di.Valid()
    reads alloc.dev, alloc.blockBM, di, cache
  {
    Through(Now(alloc, di, files, inum), cache.cache)
  }

  /** Everything the file operations rely on and keep. */
  ghost predicate Ready(alloc: Allocator, cache: BufferCache, di: DiskInode, files: map<nat, Roots>, inum: nat)
    reads alloc, alloc.dev, alloc.blockBM, alloc.inodeBM, alloc.sb, di, cache, cache.dev
  {
    && alloc.Valid() && cache.dev == alloc.dev && cache.Valid() && di.Valid()
    && Owns(Now(alloc, di, files, inum)) && Settled(cache.Abs(), Now(alloc, di, files, inum))
  }

  lemma HeldAt(s: State, inum: nat, lb: nat, a: nat)
    requires Owns(s) && inum in s.files && lb < MAX_LOGICAL && a != 0
    requires GetBlockForOffset(s.img, s.files[inum], lb) == Ok(a)
    ensures HeldLeaf(s, a) && Addr(s, PosOf(inum, lb)) == a
  {
    hide Addr, PosOf, GetBlockForOffset, Owns;
    OwnsMapped(s, inum, lb, a);
    PosOfLogical(s.files, inum, lb);
  }

  /** Allocating on demand leaves the cache settled. */
  lemma GrownSettled(c: Cache, d: Cache, s: State, t: State, target: Pos)
    requires Owns(s) && Grown(s, t, target) && Settled(c, s) && d == Cache(t.img, c.bufs, c.lru, c.capacity)
    ensures Settled(d, t)
  {
    hide Addr, InTree, Owns, Above, Zero, NoDuplicates;
    GrownLeaves(s, t, target, c.bufs.Keys);
    forall a | a in c.bufs && !c.bufs[a].dirty ensures a < |t.img| && c.bufs[a].data == t.img[a] {
      assert HeldLeaf(s, a);
      var p :| InTree(s.files, p) && IsLeaf(p) && Addr(s, p) == a && a != 0;
      assert Disjoint(s) by { OwnsDisjoint(s); }
    }
  }

  /** One chunk of a write, through the cache. */
  method WriteChunk(alloc: Allocator, cache: BufferCache, di: DiskInode, off: nat, buf: seq<Byte>, n: nat, ghost s0: State,
                           ghost files: map<nat, Roots>, ghost inum: nat)
    returns (r: Result<nat>)
    requires Ready(alloc, cache, di, files, inum) && n < |buf|
    requires Owns(s0) && inum in s0.files && s0.files.Keys == Now(alloc, di, files, inum).files.Keys
    modifies cache`cache, cache`lru, alloc.dev`data, alloc.dev`dirty, alloc.blockBM`bits, alloc.sb`freeBlocks, di
    ensures Ready(alloc, cache, di, files, inum) && di.size == old(di.size)
    ensures s0.files.Keys == Now(alloc, di, files, inum).files.Keys
    ensures r.Ok? ==> r.value == n + ChunkLength(off + n, |buf| - n)
    ensures r.Err? ==> r == Err(if LogicalBlock(off + n) >= MAX_LOGICAL then TooBig else NoSpace)
    ensures r == Err(NoSpace) ==> RegionFull(alloc.blockBM.Used())
    ensures LogicalBlock(off + n) >= MAX_LOGICAL ==> r.Err?
    ensures |alloc.blockBM.Used()| <= |old(alloc.blockBM.Used())| + 4
    ensures KeepsOverlay(s0, old(AsSeen(alloc, cache, di, files, inum)), AsSeen(alloc, cache, di, files, inum),
                         inum, off, buf, n, if r.Ok? then r.value else n)
  {
    hide Grown, Addr, PosOf, Owns, GetBlockForOffset, Overlaid, LogicalBlock, Overlay, Settled, Allocator.Valid, Bitmap.Used, WF,
      ChunkLength, RegionFull;
    ghost var s, c := Now(alloc, di, files, inum), cache.Abs();
    var lb := LogicalBlock(off + n);
    var phys := AllocBlockForOffset(alloc, di, lb, files, inum);
    AllocDevice(alloc);
    SettledFacts(c, s);
    if lb >= MAX_LOGICAL { return Err(TooBig); }
    ghost var t := Now(alloc, di, files, inum);
    PosOfLogical(s.files, inum, lb);
    GrownCount(s, t, PosOf(inum, lb));
    GrowStep(s0, s, t, c, inum, lb, off, buf, n);
    SettledFacts(cache.Abs(), t);
    if phys.Err? { return Err(phys.error); }
    var next := CopyChunk(alloc, cache, di, off, buf, n, phys.value, s0, files, inum);
    return Ok(next);
  }

  /** Where a byte lies in its block. */
  function BlockOffset(cur: nat): nat { cur % BLOCK_SIZE }

  /** How much of the buffer goes into one block. */
  function ChunkLength(cur: nat, left: nat): (can: nat)
    requires left > 0
    ensures 0 < can <= left && BlockOffset(cur) + can <= BLOCK_SIZE
  {
    Min(BLOCK_SIZE - BlockOffset(cur), left)
  }

  /** Copies one chunk into the block mapped behind its offset. */
  method CopyChunk(alloc: Allocator, cache: BufferCache, di: DiskInode, off: nat, buf: seq<Byte>, n: nat, phys: nat, ghost s0: State,
                   ghost files: map<nat, Roots>, ghost inum: nat)
    returns (next: nat)
    requires Ready(alloc, cache, di, files, inum) && n < |buf| && phys != 0 && LogicalBlock(off + n) < MAX_LOGICAL
    requires Owns(s0) && inum in s0.files && s0.files.Keys == Now(alloc, di, files, inum).files.Keys
    requires GetBlockForOffset(alloc.dev.data, di.Ptrs(), LogicalBlock(off + n)) == Ok(phys)
    modifies cache`cache, cache`lru, alloc.dev`data, alloc.dev`dirty
    ensures Ready(alloc, cache, di, files, inum) && next == n + ChunkLength(off + n, |buf| - n)
    ensures Now(alloc, di, files, inum).files == old(Now(alloc, di, files, inum).files)
    ensures KeepsOverlay(s0, old(AsSeen(alloc, cache, di, files, inum)), AsSeen(alloc, cache, di, files, inum), inum, off, buf, n, next)
  {
    hide Addr, PosOf, Owns, InTree, GetBlockForOffset, Overlaid, LogicalBlock, Overlay, Copied, Settled, Allocator.Valid,
      Bitmap.Used, WF, SameIndex, HeldLeaf, OnlyLeaves, KeepsOverlay, ChunkLength, BlockOffset, Rewritten;
    ghost var t, before := Now(alloc, di, files, inum), cache.cache;
    var can := ChunkLength(off + n, |buf| - n);
    SettledFacts(cache.Abs(), t);
    HeldAt(t, inum, LogicalBlock(off + n), phys);
    LeafAddr(t, phys);
    UpdateThrough(alloc, cache, phys, BlockOffset(off + n), buf[n..n + can], t);
    ghost var u := Now(alloc, di, files, inum);
    assert u == State(t.files, alloc.dev.data, t.used);
    SameIndexOwns(t, u);
    UpdateStep(s0, t, u, before, cache.cache, inum, phys, off, buf, n, can);
    return n + can;
  }

  lemma AllocDevice(alloc: Allocator)
    requires alloc.Valid()
    ensures alloc.dev.Valid() && |alloc.dev.data| == TOTAL_BLOCKS
  {
  }

  lemma SettledFacts(c: Cache, s: State)
    requires Settled(c, s)
    ensures WF(c) && OnlyLeaves(s, c.bufs.Keys)
  {
  }

  lemma GrowStep(s0: State, s: State, t: State, c: Cache, inum: nat, lb: nat, off: nat, buf: seq<Byte>, n: nat)
    requires Owns(s) && inum in s.files && lb < MAX_LOGICAL && Grown(s, t, PosOf(inum, lb)) && n <= |buf|
    requires Settled(c, s) && s0.files.Keys == s.files.Keys
    ensures Owns(t) && t.files.Keys == s.files.Keys && Settled(Cache(t.img, c.bufs, c.lru, c.capacity), t)
    ensures KeepsOverlay(s0, Through(s, c.bufs), Through(t, c.bufs), inum, off, buf, n, n)
  {
    hide Grown, Owns, PosOf, Addr, Overlaid, Overlay, OnlyLeaves, WF, Coherent;
    PosOfLogical(s.files, inum, lb);
    GrownTree(s, t, PosOf(inum, lb));
    GrownSettled(c, Cache(t.img, c.bufs, c.lru, c.capacity), s, t, PosOf(inum, lb));
    GrownThrough(s, t, PosOf(inum, lb), c.bufs);
    ThroughOwns(s, c.bufs);
    GrownOverlay(s0, Through(s, c.bufs), Through(t, c.bufs), inum, lb, off, buf, n);
  }

  /** For a write that ends below 16 TiB: if the first n bytes were laid down in s, the first m are in t. */
  ghost predicate KeepsOverlay(s0: State, s: State, t: State, inum: nat, off: nat, buf: seq<Byte>, n: nat, m: nat)
    requires n <= |buf| && m <= |buf|
  {
    off + |buf| <= 0x1000_0000_0000 && Overlaid(s0, s, inum, off, buf, n) ==> Overlaid(s0, t, inum, off, buf, m)
  }

  /** Below 16 TiB the chunk lands behind its own offset. */
  lemma UpdateStep(s0: State, t: State, u: State, before: map<nat, Buf>, after: map<nat, Buf>, inum: nat, a: nat,
                   off: nat, buf: seq<Byte>, n: nat, can: nat)
    requires Owns(s0) && Owns(t) && inum in s0.files && t.files.Keys == s0.files.Keys && OnlyLeaves(t, before.Keys)
    requires LogicalBlock(off + n) < MAX_LOGICAL && Addr(t, PosOf(inum, LogicalBlock(off + n))) == a && InRegion(a)
    requires 0 < can && n + can <= |buf| && BlockOffset(off + n) + can <= BLOCK_SIZE
    requires u.files == t.files && u.used == t.used && |t.img| == TOTAL_BLOCKS
    requires Rewritten(Overlay(t.img, before), Overlay(u.img, after), a, BlockOffset(off + n), buf[n..n + can])
    ensures KeepsOverlay(s0, Through(t, before), Through(u, after), inum, off, buf, n, n + can)
  {
    hide Owns, PosOf, Addr, Overlaid, Overlay, OnlyLeaves, Copied, InTree, LogicalBlock;
    if off + |buf| <= 0x1000_0000_0000 && Overlaid(s0, Through(t, before), inum, off, buf, n) {
      LogicalBlockIff(off + n);
      var x, y := Through(t, before), Through(u, after);
      ThroughOwns(t, before);
      PosOfLogical(t.files, inum, LogicalBlock(off + n));
      assert Addr(x, PosOf(inum, LogicalBlock(off + n))) == a;
      ChunkOverlays(s0, x, y, inum, off, buf, n, can, Copied(x.img[a], (off + n) % BLOCK_SIZE, buf[n..n + can]));
    }
  }

  /** The blocks a write of so many bytes can touch. */
  function BlocksTouched(bytes: nat): nat { bytes / BLOCK_SIZE + 2 }

  /** A full data region means that all blocks are used. */
  lemma FullCount(alloc: Allocator)
    requires alloc.Valid() && RegionFull(alloc.blockBM.Used())
    ensures |alloc.blockBM.Used()| >= TOTAL_BLOCKS
  {
    hide Below;
    forall n: nat | n < TOTAL_BLOCKS ensures n in alloc.blockBM.Used() {}
    SubsetCount(Below(TOTAL_BLOCKS), alloc.blockBM.Used());
  }

  /** Chunks end at block boundaries, so each touches a block of its own. */
  lemma NextChunk(off: nat, n: nat, len: nat, j: nat)
    requires n < len && (off + n) / BLOCK_SIZE == off / BLOCK_SIZE + j
    ensures var m := n + ChunkLength(off + n, len - n);
            m < len ==> (off + m) / BLOCK_SIZE == off / BLOCK_SIZE + j + 1
    ensures j + 1 <= BlocksTouched(len)
  {
    assert off / BLOCK_SIZE + j <= (off + len) / BLOCK_SIZE <= off / BLOCK_SIZE + len / BLOCK_SIZE + 1;
  }

  /** Writes buf at offset off through the cache. What callers see is overlaid with buf, or with a prefix of it when
      it fails; no other byte of any file changes. It fails only beyond what the tree can address or with the data
      region full, and succeeds whenever the tree can address its end and four blocks are free for each block it
      touches; the cache is never the reason of a failure. */
  method Write(alloc: Allocator, cache: BufferCache, di: DiskInode, off: nat, buf: seq<Byte>,
               ghost files: map<nat, Roots>, ghost inum: nat)
    returns (r: Result<nat>, ghost done: nat)
    requires Ready(alloc, cache, di, files, inum)
    modifies cache`cache, cache`lru, alloc.dev`data, alloc.dev`dirty, alloc.blockBM`bits, alloc.sb`freeBlocks, di
    ensures Ready(alloc, cache, di, files, inum)
    ensures done <= |buf| && (r.Ok? ==> r.value == done == |buf|)
    ensures if di.isDir then r == Err(IsDir) && done == 0
            else r.Err? ==> done < |buf| && r == Err(if LogicalBlock(off + done) >= MAX_LOGICAL then TooBig else NoSpace)
    ensures r == Err(NoSpace) ==>
              RegionFull(alloc.blockBM.Used()) && TOTAL_BLOCKS <= |old(alloc.blockBM.Used())| + 4 * BlocksTouched(|buf|)
    ensures !di.isDir && off + |buf| <= MAX_LOGICAL * BLOCK_SIZE ==>
              |old(alloc.blockBM.Used())| + 4 * BlocksTouched(|buf|) < TOTAL_BLOCKS ==> r.Ok?
    ensures di.size == if r.Ok? && buf != [] && off + |buf| > old(di.size) then off + |buf| else old(di.size)
    ensures off + |buf| <= 0x1000_0000_0000 ==>
              Overlaid(old(AsSeen(alloc, cache, di, files, inum)), AsSeen(alloc, cache, di, files, inum), inum, off, buf, done)
  {
    hide Owns, ByteAt, Settled, Allocator.Valid, Bitmap.Used, Overlay, WF, ChunkLength, RegionFull, LogicalBlock, BlocksTouched;
    ghost var s0 := AsSeen(alloc, cache, di, files, inum);
    assert Owns(s0) by { ReadyOwns(Now(alloc, di, files, inum), cache.Abs()); }
    var n := 0;
    ghost var j := 0;
    done := 0;
    if di.isDir { return Err(IsDir), 0; }
    while n < |buf|
      invariant 0 <= n <= |buf| && done == n && Ready(alloc, cache, di, files, inum) && di.size == old(di.size)
      invariant s0.files.Keys == Now(alloc, di, files, inum).files.Keys
      invariant off + |buf| <= 0x1000_0000_0000 ==> Overlaid(s0, AsSeen(alloc, cache, di, files, inum), inum, off, buf, n)
      invariant n < |buf| ==> (off + n) / BLOCK_SIZE == off / BLOCK_SIZE + j
      invariant |alloc.blockBM.Used()| <= |old(alloc.blockBM.Used())| + 4 * j
    {
      NextChunk(off, n, |buf|, j);
      WithinTree(off + n);
      var w := WriteChunk(alloc, cache, di, off, buf, n, s0, files, inum);
      if w.Err? {
        if w == Err(NoSpace) { FullCount(alloc); }
        return Err(w.error), done;
      }
      n := w.value;
      done := w.value;
      j := j + 1;
    }
    if |buf| > 0 && off + n > di.size { di.size := off + n; }
    return Ok(n), n;
  }

  lemma WithinTree(cur: nat)
    ensures cur < MAX_LOGICAL * BLOCK_SIZE ==> LogicalBlock(cur) < MAX_LOGICAL
  {
    LogicalBlockIff(cur);
  }

  lemma ReadyOwns(s: State, c: Cache)
    requires Owns(s) && Settled(c, s)
    ensures Owns(Through(s, c.bufs))
  {
    hide Owns;
    ThroughOwns(s, c.bufs);
  }

  /** The bytes of one block of the file from offset cur on, read through the cache. */
  method ReadChunk(alloc: Allocator, cache: BufferCache, di: DiskInode, cur: nat, most: nat,
                          ghost files: map<nat, Roots>, ghost inum: nat)
    returns (r: Result<seq<Byte>>)
    requires Ready(alloc, cache, di, files, inum) && most > 0
    modifies cache`cache, cache`lru, alloc.dev`data, alloc.dev`dirty
    ensures Ready(alloc, cache, di, files, inum) && AsSeen(alloc, cache, di, files, inum) == old(AsSeen(alloc, cache, di, files, inum))
    ensures r.Err? ==> r == Err(TooBig) && LogicalBlock(cur) >= MAX_LOGICAL
    ensures r.Ok? ==> 0 < |r.value| == Min(BLOCK_SIZE - cur % BLOCK_SIZE, most)
    ensures r.Ok? ==> forall o :: cur <= o < cur + |r.value| ==> r.value[o - cur] == ByteAt(AsSeen(alloc, cache, di, files, inum), inum, Seen(o))
  {
    hide Addr, PosOf, Owns, GetBlockForOffset, InTree, LogicalBlock, Seen, Zero, Overlay, Settled, Allocator.Valid, Bitmap.Used, WF,
      SameIndex, HeldLeaf, ByteAt;
    ghost var s, seen := Now(alloc, di, files, inum), AsSeen(alloc, cache, di, files, inum);
    AllocDevice(alloc);
    SettledFacts(cache.Abs(), s);
    ThroughOwns(s, cache.cache);
    var lb, bo := LogicalBlock(cur), cur % BLOCK_SIZE;
    MappedOrNot(s, inum, lb);
    var phys := GetBlockForOffset(alloc.dev.data, di.Ptrs(), lb);
    if phys.Err? { return Err(phys.error); }
    var blk: Block := Zero();
    PosOfLogical(s.files, inum, lb);
    if phys.value != 0 {
      HeldAt(s, inum, lb, phys.value);
      LeafAddr(s, phys.value);
      var rd := ReadThrough(alloc, cache, phys.value, s);
      blk := rd.value;
      SameIndexOwns(s, Now(alloc, di, files, inum));
    }
    var can := Min(BLOCK_SIZE - bo, most);
    var bytes := blk[bo..bo + can];
    forall o | cur <= o < cur + can ensures bytes[o - cur] == ByteAt(seen, inum, Seen(o)) {
      SameBlock(cur, o - cur);
      ByteOfBlock(seen, inum, lb, cur, o, blk);
    }
    return Ok(bytes);
  }

  lemma MappedOrNot(s: State, inum: nat, lb: nat)
    requires Owns(s) && inum in s.files
    ensures var r := GetBlockForOffset(s.img, s.files[inum], lb);
            if lb < MAX_LOGICAL then r == Ok(Addr(s, PosOf(inum, lb))) else r == Err(TooBig)
  {
    hide Addr, PosOf, GetBlockForOffset;
    GetIsAddr(s, inum, lb);
  }

  /** The bytes of the block a lookup finds are the bytes of the file; a hole reads as zeros. */
  lemma ByteOfBlock(s: State, inum: nat, lb: nat, cur: nat, o: nat, blk: Block)
    requires lb == LogicalBlock(cur) < MAX_LOGICAL && o / BLOCK_SIZE == cur / BLOCK_SIZE
    requires var a := Addr(s, PosOf(inum, lb));
             if 0 < a < |s.img| then blk == s.img[a] else blk == Zero()
    ensures ByteAt(s, inum, Seen(o)) == blk[o % BLOCK_SIZE]
  {
    hide Addr, PosOf, LogicalBlock, Seen, Zero;
    SeenBlock(cur, o);
    ZeroByte(o % BLOCK_SIZE);
  }

  /** Reads up to n bytes at offset through the cache: the matching slice of what callers see, clipped to the size.
      Reading changes nothing a caller sees. */
  method Read(alloc: Allocator, cache: BufferCache, di: DiskInode, offset: nat, n: nat,
                          ghost files: map<nat, Roots>, ghost inum: nat)
    returns (data: seq<Byte>, r: Result<()>)
    requires Ready(alloc, cache, di, files, inum)
    modifies cache`cache, cache`lru, alloc.dev`data, alloc.dev`dirty
    ensures Ready(alloc, cache, di, files, inum) && AsSeen(alloc, cache, di, files, inum) == old(AsSeen(alloc, cache, di, files, inum))
    ensures di.isDir ==> r == Err(IsDir) && data == []
    ensures !di.isDir && offset >= di.size ==> data == [] && r.Ok?
    ensures !di.isDir && offset < di.size ==> |data| <= Min(n, di.size - offset) && (r.Ok? ==> |data| == Min(n, di.size - offset))
    ensures forall o :: offset <= o < offset + |data| ==> data[o - offset] == ByteAt(old(AsSeen(alloc, cache, di, files, inum)), inum, Seen(o))
    ensures r.Err? && !di.isDir ==> r == Err(TooBig) && LogicalBlock(offset + |data|) >= MAX_LOGICAL
  {
    hide ByteAt, Owns, LogicalBlock, Seen, Settled, Allocator.Valid, Bitmap.Used, Overlay, WF;
    data := [];
    if di.isDir { return data, Err(IsDir); }
    if offset >= di.size { return data, Ok(()); }
    var want := if n + offset > di.size then di.size - offset else n;
    while |data| < want
      invariant |data| <= want && Ready(alloc, cache, di, files, inum)
      invariant AsSeen(alloc, cache, di, files, inum) == old(AsSeen(alloc, cache, di, files, inum))
      invariant forall o :: offset <= o < offset + |data| ==> data[o - offset] == ByteAt(old(AsSeen(alloc, cache, di, files, inum)), inum, Seen(o))
    {
      var chunk := ReadChunk(alloc, cache, di, offset + |data|, want - |data|, files, inum);
      if chunk.Err? { return data, Err(chunk.error); }
      data := data + chunk.value;
    }
    r := Ok(());
  }

  /** Once everything is flushed, the device itself holds what callers saw. */
  lemma FlushedBytes(s: State, c: Cache, t: Cache, f: nat, o: nat)
    requires Owns(s) && Settled(c, s) && Flushed(c, t) && AllClean(t)
    ensures t.img == Overlay(c.img, c.bufs)
    ensures ByteAt(State(s.files, t.img, s.used), f, o) == ByteAt(Through(s, c.bufs), f, o)
  {
    hide Owns, Addr, WF, Overlay, OnlyLeaves, Keep, MostRecent;
    LeavesInRegion(s, c.bufs.Keys);
    forall a | 0 <= a < |t.img| ensures t.img[a] == Overlay(c.img, c.bufs)[a] {}
  }

  /** Truncation frees blocks without telling the cache. The cache stays fit for use exactly if it holds none of the
      blocks about to be cut; otherwise the next owner of such a block would see its old content. */
  lemma CutKeepsLeavesIff(s: State, t: State, inum: nat, start: nat, end: nat, pruned: bool, keys: set<nat>)
    requires Owns(s) && Truncation.Truncated(s, t, inum, start, end, pruned) && OnlyLeaves(s, keys)
    requires inum in s.files && end <= MAX_LOGICAL
    ensures OnlyLeaves(t, keys) <==> forall lb: nat :: start <= lb < end ==> Addr(s, PosOf(inum, lb)) !in keys
  {
    hide Addr, InTree, Owns, Truncation.Truncated, PosOf, HeldLeaf;
    if OnlyLeaves(t, keys) {
      forall lb: nat | start <= lb < end ensures Addr(s, PosOf(inum, lb)) !in keys {
        CutNotHeld(s, t, inum, start, end, pruned, lb);
      }
    }
    if forall lb: nat :: start <= lb < end ==> Addr(s, PosOf(inum, lb)) !in keys {
      forall a | a in keys ensures HeldLeaf(t, a) { UncutHeld(s, t, inum, start, end, pruned, a); }
    }
  }

  /** A block that is cut is held by no data position afterwards. */
  lemma CutNotHeld(s: State, t: State, inum: nat, start: nat, end: nat, pruned: bool, lb: nat)
    requires Owns(s) && Truncation.Truncated(s, t, inum, start, end, pruned) && inum in s.files && start <= lb < end <= MAX_LOGICAL
    ensures !HeldLeaf(t, Addr(s, PosOf(inum, lb)))
  {
    hide Addr, InTree, Owns, PosOf;
    OwnsDisjoint(s);
    var p := PosOf(inum, lb);
    PosOfLogical(s.files, inum, lb);
    PosOfInum(inum, lb);
    assert Truncation.Cut(p, inum, start, end);
    forall q | InTree(t.files, q) && IsLeaf(q) && Addr(t, q) != 0 ensures Addr(t, q) != Addr(s, p) {
      SameTree(s.files, t.files, q);
      if Addr(s, q) == Addr(s, p) { Growth.HeldOnce(s, p, q); }
    }
  }

  /** A block that is not cut is still held. */
  lemma UncutHeld(s: State, t: State, inum: nat, start: nat, end: nat, pruned: bool, a: nat)
    requires Owns(s) && Truncation.Truncated(s, t, inum, start, end, pruned) && inum in s.files && end <= MAX_LOGICAL
    requires HeldLeaf(s, a) && forall lb: nat :: start <= lb < end ==> Addr(s, PosOf(inum, lb)) != a
    ensures HeldLeaf(t, a)
  {
    hide Addr, InTree, Owns, PosOf, LogicalOf;
    var p :| InTree(s.files, p) && IsLeaf(p) && Addr(s, p) == a && a != 0;
    SameTree(s.files, t.files, p);
    LogicalPosOf(s.files, p);
    assert !Truncation.Cut(p, inum, start, end);
    assert p != Pos(inum, 12, []);
  }
}
