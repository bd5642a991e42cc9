/** The checker accepts every block map that keeps filesystem-wide ownership. */
module FsckBlocks {
  import opened Bytes
  import opened Device
  import opened Allocation
  import opened BlockMap
  import opened Extents
  import opened Truncation
  import opened DirRead
  import opened FsckWalk
  import opened Fsck

  /** The block addresses of the first n logical blocks of a file, holes as zero. */
  ghost function Addresses(s: State, inum: nat, n: nat): seq<nat> {
    if n == 0 then [] else Addresses(s, inum, n - 1) + [Addr(s, PosOf(inum, n - 1))]
  }

  /** All block addresses of a file, in order. */
  method BlockList(alloc: Allocator, di: DiskInode, ghost files: map<nat, Roots>, ghost inum: nat) returns (r: Result<seq<nat>>)
    requires alloc.Valid() && di.Valid() && Owns(Now(alloc, di, files, inum))
    ensures r.Ok? <==> BlocksForSize(di.size) <= MAX_LOGICAL
    ensures r.Ok? ==> r.value == Addresses(Now(alloc, di, files, inum), inum, BlocksForSize(di.size))
    ensures r.Err? ==> r == Err(TooBig)
  {
    hide Owns, Addr, PosOf, GetBlockForOffset;
    ghost var s := Now(alloc, di, files, inum);
    var total := BlocksForSize(di.size);
    var list: seq<nat> := [];
    var lb := 0;
    while lb < total
      invariant 0 <= lb <= total && lb <= MAX_LOGICAL && list == Addresses(s, inum, lb)
    {
      LookupOk(s, inum, lb);
      var phys := GetBlockForOffset(alloc.dev.data, di.Ptrs(), lb);
      if phys.Err? { return Err(phys.error); }
      Mapped(s, inum, lb, phys.value);
      list := list + [phys.value];
      lb := lb + 1;
    }
    return Ok(list);
  }

  lemma {:induction false} AddressesAt(s: State, inum: nat, n: nat, k: nat)
    requires k < n
    ensures |Addresses(s, inum, n)| == n && Addresses(s, inum, n)[k] == Addr(s, PosOf(inum, k))
  {
    hide Addr, PosOf;
    if k < n - 1 { AddressesAt(s, inum, n - 1, k); }
    AddressesLength(s, inum, n - 1);
  }

  lemma {:induction false} AddressesLength(s: State, inum: nat, n: nat)
    ensures |Addresses(s, inum, n)| == n
  {
    hide Addr, PosOf;
    if n > 0 { AddressesLength(s, inum, n - 1); }
  }

  /** The inode table lists blocks of the block trees, in their logical order. */
  ghost predicate ListsBlocks(v: Inodes, inos: set<nat>, s: State) {
    forall i: nat :: Taken(inos, i) && i in v ==> i in s.files && exists n: nat :: n <= MAX_LOGICAL && v[i].blocks == Addresses(s, i, n)
  }

  lemma ListedIsMapped(v: Inodes, inos: set<nat>, s: State, i: nat, k: nat, b: nat)
    requires ListsBlocks(v, inos, s) && Lists(v, inos, i, k, b)
    ensures i in s.files && k < MAX_LOGICAL && Addr(s, PosOf(i, k)) == b && b != 0
  {
    hide Addr, PosOf;
    var n: nat :| n <= MAX_LOGICAL && v[i].blocks == Addresses(s, i, n);
    AddressesLength(s, i, n);
    AddressesAt(s, i, n, k);
  }

  /** No two logical blocks, of one file or of two, hold the same block, and a held block is marked used. */
  lemma HeldOnce(s: State, f: nat, k: nat, g: nat, l: nat)
    requires Owns(s) && f in s.files && g in s.files && k < MAX_LOGICAL && l < MAX_LOGICAL
    requires Addr(s, PosOf(f, k)) == Addr(s, PosOf(g, l)) != 0
    ensures f == g && k == l && Addr(s, PosOf(f, k)) in s.used
  {
    hide Addr, PosOf, Owns;
    assert Disjoint(s) by { OwnsDisjoint(s); }
    PosOfLogical(s.files, f, k);
    PosOfInum(f, k);
    PosOfLogical(s.files, g, l);
    PosOfInum(g, l);
  }

  /** Filesystem-wide ownership passes the checker's block check: every listed block is marked and listed once. */
  lemma OwnsPassesBlockCheck(v: Inodes, inos: set<nat>, s: State)
    requires Owns(s) && ListsBlocks(v, inos, s)
    ensures BlocksOk(v, inos, s.used)
  {
    hide Owns, Addr, PosOf, Lists, ListsBlocks, BlocksOk;
    ListsOk(v, inos, s.used);
    forall i, k, b | Lists(v, inos, i, k, b) ensures b in s.used {
      ListedIsMapped(v, inos, s, i, k, b);
      HeldOnce(s, i, k, i, k);
    }
    forall i, k, j, l, b | Lists(v, inos, i, k, b) && Lists(v, inos, j, l, b) ensures i == j && k == l {
      ListedIsMapped(v, inos, s, i, k, b);
      ListedIsMapped(v, inos, s, j, l, b);
      HeldOnce(s, i, k, j, l);
    }
  }
}
