/** Reading a directory: iteration with early stop, lookup, emptiness, listing. */
module DirRead {
  import opened Bytes
  import opened Device
  import opened Allocation
  import opened BlockMap
  import opened Extents
  import opened DirFormat
  import opened DirMaps
  import opened DirState

  const DOT: Name := [46]
  const DOTDOT: Name := [46, 46]
  const FT_DIR: Byte := 2

  /** The entries a callback sees: up to and including the first it stops at. */
  function TakeUntil(es: seq<Entry>, keep: Entry -> bool): seq<Entry> {
    if es == [] then [] else if keep(es[0]) then [es[0]] + TakeUntil(es[1..], keep) else [es[0]]
  }

  predicate AllKept(es: seq<Entry>, keep: Entry -> bool) { forall e :: e in es ==> keep(e) }

  lemma {:induction false} TakeUntilPast(a: seq<Entry>, b: seq<Entry>, keep: Entry -> bool)
    requires AllKept(a, keep)
    ensures TakeUntil(a + b, keep) == a + TakeUntil(b, keep)
  {
    if a == [] {
      assert a + b == b;
    } else {
      TakeUntilPast(a[1..], b, keep);
      assert (a + b)[1..] == a[1..] + b;
    }
  }

  lemma {:induction false} TakeUntilStop(a: seq<Entry>, b: seq<Entry>, keep: Entry -> bool)
    requires !AllKept(a, keep)
    ensures TakeUntil(a + b, keep) == TakeUntil(a, keep)
  {
    if keep(a[0]) {
      assert forall e :: e in a <==> e == a[0] || e in a[1..];
      TakeUntilStop(a[1..], b, keep);
      assert (a + b)[1..] == a[1..] + b;
    }
  }

  lemma {:induction false} TakeUntilAll(es: seq<Entry>, keep: Entry -> bool)
    ensures TakeUntil(es, keep) <= es
    ensures AllKept(es, keep) ==> TakeUntil(es, keep) == es
    ensures !AllKept(es, keep) ==>
              var v := TakeUntil(es, keep);
              v != [] && !keep(v[|v| - 1]) && AllKept(v[..|v| - 1], keep)
  {
    if es != [] {
      TakeUntilAll(es[1..], keep);
      assert forall e :: e in es <==> e == es[0] || e in es[1..];
      if keep(es[0]) && !AllKept(es, keep) {
        var v, w := TakeUntil(es, keep), TakeUntil(es[1..], keep);
        assert v[..|v| - 1] == [es[0]] + w[..|w| - 1];
      }
    }
  }

  lemma {:induction false} SpanLive(blk: Block, from: nat, to: nat)
    requires from <= BLOCK_SIZE
    ensures forall e :: e in Span(blk, from, to) ==> e.ino != 0
    decreases BLOCK_SIZE - from
  {
    hide ParseDirEntry;
    var p := ParseDirEntry(blk, from);
    if from < to && p.Ok? { SpanLive(blk, from + p.value.recLen, to); }
  }

  /** Only live entries are listed. */
  lemma {:induction false} EntriesLive(s: State, inum: nat, n: nat)
    ensures forall e :: e in Entries(s, inum, n) ==> e.ino != 0
  {
    hide Span, BlockOf;
    if n > 0 {
      EntriesLive(s, inum, n - 1);
      SpanLive(BlockOf(s, inum, n - 1), 0, BLOCK_SIZE);
    }
  }

  /** Walking the records of one block. */
  method IterBlock(blk: Block, keep: Entry -> bool) returns (visited: seq<Entry>, stopped: bool)
    ensures visited == TakeUntil(Listing(blk), keep) && stopped == !AllKept(Listing(blk), keep)
  {
    hide ParseDirEntry, Span, Boundary, TakeUntil;
    assert Boundary(blk, 0, 0) && Span(blk, 0, 0) == [] by { EmptySpan(blk, 0); }
    visited, stopped := [], false;
    var off := 0;
    while off + HEADER <= BLOCK_SIZE
      invariant 0 <= off <= BLOCK_SIZE && Boundary(blk, 0, off) && visited == Span(blk, 0, off) && AllKept(visited, keep) && !stopped
      decreases BLOCK_SIZE - off
    {
      var p := ParseDirEntry(blk, off);
      if p.Err? { break; }
      var next := off + p.value.recLen;
      NextRecord(blk, off);
      if p.value.entry.ino != 0 {
        visited := visited + [p.value.entry];
        if !keep(p.value.entry) {
          SpanSplit(blk, 0, next, BLOCK_SIZE);
          LastStops(Span(blk, 0, off), p.value.entry, Span(blk, next, BLOCK_SIZE), keep);
          assert Span(blk, 0, next) == visited;
          return visited, true;
        }
      }
      assert visited == Span(blk, 0, next);
      off := next;
    }
    SpanSplit(blk, 0, off, BLOCK_SIZE);
    NoRecord(blk, off);
    assert visited + [] == visited;
    TakeUntilAll(visited, keep);
  }

  lemma EmptySpan(blk: Block, off: nat)
    requires off <= BLOCK_SIZE
    ensures Boundary(blk, off, off) && Span(blk, off, off) == []
  {
  }

  /** One more whole record. */
  lemma NextRecord(blk: Block, off: nat)
    requires off <= BLOCK_SIZE && Boundary(blk, 0, off) && ParseDirEntry(blk, off).Ok?
    ensures var de := ParseDirEntry(blk, off).value;
            && Boundary(blk, 0, off + de.recLen) && Span(blk, 0, off + de.recLen) == Span(blk, 0, off) + Live(de.entry)
  {
    hide ParseDirEntry, Span, Boundary;
    var de := ParseDirEntry(blk, off).value;
    OneRecord(blk, off);
    SpanSplit(blk, 0, off, off + de.recLen);
    BoundarySplit(blk, 0, off, off + de.recLen);
  }

  lemma NoRecord(blk: Block, off: nat)
    requires off <= BLOCK_SIZE && (off + HEADER <= BLOCK_SIZE ==> ParseDirEntry(blk, off).Err?)
    ensures Span(blk, off, BLOCK_SIZE) == []
  {
  }

  lemma LastStops(a: seq<Entry>, e: Entry, b: seq<Entry>, keep: Entry -> bool)
    requires AllKept(a, keep) && !keep(e)
    ensures TakeUntil(a + [e] + b, keep) == a + [e] && !AllKept(a + [e] + b, keep)
  {
    TakeUntilPast(a, [e] + b, keep);
    assert a + [e] + b == a + ([e] + b);
    assert e in a + [e] + b;
  }

  /** The block numbers iteration can address. */
  function Reach(size: nat): nat { if BlocksForSize(size) <= MAX_LOGICAL then BlocksForSize(size) else MAX_LOGICAL }

  lemma Mapped(s: State, inum: nat, lb: nat, a: nat)
    requires Owns(s) && inum in s.files && lb < MAX_LOGICAL
    requires GetBlockForOffset(s.img, s.files[inum], lb) == Ok(a)
    ensures Addr(s, PosOf(inum, lb)) == a
    ensures a == 0 ==> BlockOf(s, inum, lb) == Zero()
    ensures a != 0 ==> InRegion(a) && |s.img| == TOTAL_BLOCKS && BlockOf(s, inum, lb) == s.img[a]
  {
    hide Addr, PosOf, GetBlockForOffset, Zero;
    PosOfLogical(s.files, inum, lb);
    GetIsAddr(s, inum, lb);
  }

  lemma LookupOk(s: State, inum: nat, lb: nat)
    requires Owns(s) && inum in s.files
    ensures GetBlockForOffset(s.img, s.files[inum], lb).Ok? <==> lb < MAX_LOGICAL
    ensures lb >= MAX_LOGICAL ==> GetBlockForOffset(s.img, s.files[inum], lb) == Err(TooBig)
  {
    hide Addr, PosOf, GetBlockForOffset;
    GetIsAddr(s, inum, lb);
  }

  /** Calls keep on the live entries in order until it stops; every live entry is visited exactly once unless it does. */
  method IterDirEntries(alloc: Allocator, di: DiskInode, keep: Entry -> bool, ghost files: map<nat, Roots>, ghost inum: nat)
    returns (visited: seq<Entry>, r: Result<()>)
    requires alloc.Valid() && di.Valid() && Owns(Now(alloc, di, files, inum))
    ensures var es := Entries(Now(alloc, di, files, inum), inum, Reach(di.size));
            && visited == TakeUntil(es, keep)
            && r == if BlocksForSize(di.size) > MAX_LOGICAL && AllKept(es, keep) then Err(TooBig) else Ok(())
  {
    hide Owns, Addr, PosOf, GetBlockForOffset, BlockOf, Listing, TakeUntil, Zero;
    ghost var s := Now(alloc, di, files, inum);
    visited := [];
    if di.size == 0 {
      TakeUntilAll([], keep);
      return [], Ok(());
    }
    var n := BlocksForSize(di.size);
    var b := 0;
    while b < n
      invariant 0 <= b <= n && b <= MAX_LOGICAL && visited == Entries(s, inum, b) && AllKept(visited, keep)
    {
      var phys := GetBlockForOffset(alloc.dev.data, di.Ptrs(), b);
      LookupOk(s, inum, b);
      if phys.Err? {
        TakeUntilAll(visited, keep);
        return visited, Err(phys.error);
      }
      Mapped(s, inum, b, phys.value);
      if phys.value == 0 {
        ParseZero();
      } else {
        var blk := alloc.dev.ReadBlock(phys.value);
        var more, stopped := IterBlock(blk.value, keep);
        TakeUntilAll(Listing(blk.value), keep);
        if stopped {
          EntriesPrefix(s, inum, b + 1, Reach(di.size));
          StopInside(visited, Listing(blk.value), Entries(s, inum, Reach(di.size)), keep);
          return visited + more, Ok(());
        }
        visited := visited + more;
      }
      b := b + 1;
    }
    TakeUntilAll(visited, keep);
    return visited, Ok(());
  }

  lemma {:induction false} EntriesPrefix(s: State, inum: nat, m: nat, n: nat)
    requires m <= n
    ensures Entries(s, inum, m) <= Entries(s, inum, n)
  {
    hide BlockOf, Listing;
    if m < n { EntriesPrefix(s, inum, m, n - 1); }
  }

  lemma StopInside(a: seq<Entry>, b: seq<Entry>, all: seq<Entry>, keep: Entry -> bool)
    requires AllKept(a, keep) && !AllKept(b, keep) && a + b <= all
    ensures TakeUntil(all, keep) == a + TakeUntil(b, keep) && !AllKept(all, keep)
  {
    hide TakeUntil;
    var c := all[|a + b|..];
    assert all == a + (b + c);
    TakeUntilPast(a, b + c, keep);
    TakeUntilStop(b, c, keep);
    var e :| e in b && !keep(e);
    assert e in all;
  }

  /** Lookup is the map: the entry found is the one the name map holds, and it fails exactly on absent names. */
  method LookupEntry(alloc: Allocator, di: DiskInode, name: Name, ghost files: map<nat, Roots>, ghost inum: nat)
    returns (r: Result<Target>)
    requires alloc.Valid() && di.Valid() && Owns(Now(alloc, di, files, inum))
    ensures !di.isDir ==> r == Err(NotDir)
    ensures di.isDir ==>
              var m := DirMap(Entries(Now(alloc, di, files, inum), inum, Reach(di.size)));
              r == if name in m then Ok(m[name]) else if BlocksForSize(di.size) > MAX_LOGICAL then Err(TooBig) else Err(NotFound)
  {
    hide Entries, TakeUntil, DirMap, Owns;
    if !di.isDir { return Err(NotDir); }
    ghost var s := Now(alloc, di, files, inum);
    ghost var es := Entries(s, inum, Reach(di.size));
    var keep := (e: Entry) => e.name != name;
    var visited, it := IterDirEntries(alloc, di, keep, files, inum);
    TakeUntilAll(es, keep);
    LookupVisited(es, name, keep);
    EntriesLive(s, inum, Reach(di.size));
    if it.Err? { return Err(it.error); }
    var found, foundType: Byte := 0, 0;
    if visited != [] && visited[|visited| - 1].name == name {
      found, foundType := visited[|visited| - 1].ino, visited[|visited| - 1].fileType;
      assert visited[|visited| - 1] in es;
    }
    if found == 0 { return Err(NotFound); }
    return Ok(Target(found, foundType));
  }

  lemma LookupVisited(es: seq<Entry>, name: Name, keep: Entry -> bool)
    requires forall e: Entry :: keep(e) <==> e.name != name
    ensures name in DirMap(es) <==> !AllKept(es, keep)
    ensures name in DirMap(es) ==>
              var v := TakeUntil(es, keep);
              v != [] && v[|v| - 1].name == name && DirMap(es)[name] == TargetOf(v[|v| - 1])
  {
    hide DirMap, TakeUntil;
    DirMapKeys(es, name);
    TakeUntilAll(es, keep);
    if !AllKept(es, keep) {
      var v := TakeUntil(es, keep);
      var a, e, b := v[..|v| - 1], v[|v| - 1], es[|v|..];
      assert es == a + [e] + b;
      FirstMatch(a, e, b);
    }
  }

  /** A directory is empty exactly when its map has no name but "." and "..". */
  method IsEmptyDir(alloc: Allocator, di: DiskInode, ghost files: map<nat, Roots>, ghost inum: nat)
    returns (r: Result<bool>)
    requires alloc.Valid() && di.Valid() && Owns(Now(alloc, di, files, inum))
    ensures var m := DirMap(Entries(Now(alloc, di, files, inum), inum, Reach(di.size)));
            r == if !(m.Keys <= {DOT, DOTDOT}) then Ok(false)
                 else if BlocksForSize(di.size) > MAX_LOGICAL then Err(TooBig) else Ok(true)
  {
    hide Entries, TakeUntil, DirMap, Owns;
    ghost var es := Entries(Now(alloc, di, files, inum), inum, Reach(di.size));
    var keep := (e: Entry) => e.name == DOT || e.name == DOTDOT;
    var visited, it := IterDirEntries(alloc, di, keep, files, inum);
    TakeUntilAll(es, keep);
    EmptyIff(es, keep);
    if it.Err? { return Err(it.error); }
    var count := if visited != [] && !keep(visited[|visited| - 1]) then 1 else 0;
    return Ok(count == 0);
  }

  lemma EmptyIff(es: seq<Entry>, keep: Entry -> bool)
    requires forall e: Entry :: keep(e) <==> e.name == DOT || e.name == DOTDOT
    ensures DirMap(es).Keys <= {DOT, DOTDOT} <==> AllKept(es, keep)
  {
    hide DirMap;
    forall name ensures name in DirMap(es) <==> exists e :: e in es && e.name == name { DirMapKeys(es, name); }
    if DirMap(es).Keys <= {DOT, DOTDOT} {
      forall e | e in es ensures keep(e) { assert e.name in DirMap(es).Keys; }
    }
  }

  /** All live entries, each once, in order. */
  method ReadAllEntries(alloc: Allocator, di: DiskInode, ghost files: map<nat, Roots>, ghost inum: nat)
    returns (entries: seq<Entry>, r: Result<()>)
    requires alloc.Valid() && di.Valid() && Owns(Now(alloc, di, files, inum))
    ensures entries == Entries(Now(alloc, di, files, inum), inum, Reach(di.size))
    ensures r == if BlocksForSize(di.size) > MAX_LOGICAL then Err(TooBig) else Ok(())
  {
    hide Entries, TakeUntil, Owns;
    entries, r := IterDirEntries(alloc, di, e => true, files, inum);
    TakeUntilAll(Entries(Now(alloc, di, files, inum), inum, Reach(di.size)), e => true);
  }
}
