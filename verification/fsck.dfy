/** The full consistency check decides a declarative invariant of the disk. */
module Fsck {
  import opened Bytes
  import opened Bitmaps
  import opened Allocation
  import opened DirFormat
  import opened DirMaps
  import opened DirRead
  import opened FsckWalk

  const SUPERBLOCK_MAGIC: nat := 0xEF53
  const SUPERBLOCK_MAGIC_V2: nat := 0x53EF

  datatype Super = Super(magic: nat, magicV2: nat, blockSize: nat, inodeSize: nat, freeBlocks: U32, freeInodes: U32)

  predicate SuperOk(sb: Super) {
    && sb.magic == SUPERBLOCK_MAGIC && sb.magicV2 == SUPERBLOCK_MAGIC_V2
    && sb.blockSize == BLOCK_SIZE && sb.inodeSize == INODE_SIZE
  }

  /** Name x of directory i leads to inode n. */
  predicate LeadsTo(v: Inodes, i: nat, x: Name, n: nat) {
    DirInode(v, i) && x in DirMap(v[i].entries) && DirMap(v[i].entries)[x].ino == n
  }

  predicate RootOk(v: Inodes) { DirInode(v, 1) && LeadsTo(v, 1, DOT, 1) && LeadsTo(v, 1, DOTDOT, 1) }

  /** The free count the superblock records is what the bitmap's set bits leave of the total, in 32 bits. */
  ghost predicate CountOk(free: U32, total: nat, bits: seq<Byte>) {
    free == (total - CountTo(bits, 8 * |bits|)) % 0x1_0000_0000
  }

  /** Regular file, directory or symbolic link. */
  predicate TypeOk(v: Inodes, i: nat) { i in v && TypeBits(v[i].mode) in {8, 4, 10} }

  ghost predicate TypesOk(v: Inodes, inos: set<nat>) { forall i :: Taken(inos, i) ==> TypeOk(v, i) }

  ghost predicate EntriesOk(v: Inodes, inos: set<nat>) {
    forall i, k, c :: Taken(inos, i) && Edge(v, i, k, c) ==> Taken(inos, c)
  }

  /** Every listed block is marked used, and no block is listed at two places, of one inode or of two. */
  ghost predicate BlocksOk(v: Inodes, inos: set<nat>, used: set<nat>) {
    && (forall i, k :: Taken(inos, i) && i in v && 0 <= k < |v[i].blocks| && v[i].blocks[k] != 0 ==> v[i].blocks[k] in used)
    && (forall i, k, j, l :: Taken(inos, i) && i in v && 0 <= k < |v[i].blocks| && Taken(inos, j) && j in v && 0 <= l < |v[j].blocks| ==>
          v[i].blocks[k] == v[j].blocks[l] != 0 ==> i == j && k == l)
  }

  ghost predicate NoOrphans(v: Inodes, inos: set<nat>) { forall i :: Taken(inos, i) ==> Reachable(v, i) }

  ghost predicate Consistent(sb: Super, v: Inodes, blockBits: seq<Byte>, inodeBits: seq<Byte>, used: set<nat>, inos: set<nat>) {
    && SuperOk(sb) && RootOk(v)
    && CountOk(sb.freeBlocks, TOTAL_BLOCKS, blockBits) && CountOk(sb.freeInodes, INODE_COUNT, inodeBits)
    && TypesOk(v, inos) && EntriesOk(v, inos) && BlocksOk(v, inos, used)
    && TreeLike(v) && NoOrphans(v, inos)
  }

  /** With clear padding the counts agree exactly when free and used add up. */
  lemma CountIsConservation(free: U32, total: nat, bits: seq<Byte>)
    requires total <= 8 * |bits| && total < 0x1_0000_0000 && forall n: nat :: total <= n ==> !Has(bits, n)
    ensures CountOk(free, total, bits) <==> free + |set n: nat | n < total && Has(bits, n)| == total
  {
    hide Has;
    CountPadding(bits, total, 8 * |bits|);
    CountIsCard(bits, total);
    var used := set n: nat | n < total && Has(bits, n);
    CardBound(used, total);
  }

  // ---------------------------------------------------------------- the checks

  ghost predicate WholeTable(v: Inodes) { forall i :: i in v <==> 1 <= i <= INODE_COUNT }

  method CheckTypes(v: Inodes, inodeBM: Bitmap) returns (ok: bool)
    requires WholeTable(v) && inodeBM.Valid() && inodeBM.size == INODE_COUNT
    ensures ok <==> TypesOk(v, inodeBM.Used())
  {
    hide Bitmap.Used, TypeOk;
    ok := true;
    var i := 1;
    while i <= INODE_COUNT
      invariant 1 <= i <= INODE_COUNT + 1
      invariant ok <==> forall j: nat :: Taken(inodeBM.Used(), j) && j < i ==> TypeOk(v, j)
    {
      var set_ := inodeBM.IsSet(i - 1);
      if set_ && !TypeOk(v, i) { ok := false; }
      i := i + 1;
    }
  }

  ghost predicate EntriesBelow(v: Inodes, inos: set<nat>, i: nat, m: nat) {
    forall j: nat, k: nat, c: nat :: Taken(inos, j) && Edge(v, j, k, c) && (j < i || (j == i && k < m)) ==> Taken(inos, c)
  }

  method CheckDirEntries(v: Inodes, i: nat, inodeBM: Bitmap, ok0: bool) returns (ok: bool)
    requires inodeBM.Valid() && inodeBM.size == INODE_COUNT && DirInode(v, i) && Taken(inodeBM.Used(), i)
    requires ok0 <==> EntriesBelow(v, inodeBM.Used(), i, 0)
    ensures ok <==> EntriesBelow(v, inodeBM.Used(), i + 1, 0)
  {
    hide Bitmap.Used, EntriesBelow;
    ok := ok0;
    var entries := Listed(v, i);
    var m := 0;
    while m < |entries|
      invariant 0 <= m <= |entries| && (ok <==> EntriesBelow(v, inodeBM.Used(), i, m))
    {
      var e := entries[m];
      MoreEntries(v, inodeBM.Used(), i, m);
      if e.name != DOT && e.name != DOTDOT && e.ino != 0 {
        var set_ := inodeBM.IsSet(e.ino - 1);
        UsedInRange(inodeBM);
        if !set_ { ok := false; }
      }
      m := m + 1;
    }
    LastEntry(v, inodeBM.Used(), i, m);
  }

  lemma UsedInRange(bm: Bitmap)
    ensures forall n :: n in bm.Used() ==> n < bm.size
  {
  }

  lemma MoreEntries(v: Inodes, inos: set<nat>, i: nat, m: nat)
    requires Taken(inos, i) && DirInode(v, i) && m < |Listed(v, i)|
    ensures var e := Listed(v, i)[m];
            EntriesBelow(v, inos, i, m + 1) <==> EntriesBelow(v, inos, i, m) && (ProperEntry(e) ==> Taken(inos, e.ino))
  {
    var e := Listed(v, i)[m];
    if ProperEntry(e) { assert Edge(v, i, m, e.ino); }
    hide DirInode, Listed, ProperEntry;
  }

  lemma LastEntry(v: Inodes, inos: set<nat>, i: nat, m: nat)
    requires m >= |Listed(v, i)| || !DirInode(v, i) || !Taken(inos, i)
    ensures EntriesBelow(v, inos, i + 1, 0) <==> EntriesBelow(v, inos, i, m)
  {
    hide Listed;
  }

  method CheckEntries(v: Inodes, inodeBM: Bitmap) returns (ok: bool)
    requires WholeTable(v) && inodeBM.Valid() && inodeBM.size == INODE_COUNT
    ensures ok <==> EntriesOk(v, inodeBM.Used())
  {
    hide Bitmap.Used, EntriesBelow, DirInode, EntriesOk;
    EntriesNone(v, inodeBM.Used());
    ok := true;
    var i := 1;
    while i <= INODE_COUNT
      invariant 1 <= i <= INODE_COUNT + 1 && (ok <==> EntriesBelow(v, inodeBM.Used(), i, 0))
    {
      var set_ := inodeBM.IsSet(i - 1);
      if set_ && DirInode(v, i) {
        ok := CheckDirEntries(v, i, inodeBM, ok);
      } else {
        LastEntry(v, inodeBM.Used(), i, 0);
      }
      i := i + 1;
    }
    EntriesAll(v, inodeBM.Used());
  }

  lemma EntriesNone(v: Inodes, inos: set<nat>)
    ensures EntriesBelow(v, inos, 1, 0)
  {
  }

  lemma EntriesAll(v: Inodes, inos: set<nat>)
    ensures EntriesBelow(v, inos, INODE_COUNT + 1, 0) <==> EntriesOk(v, inos)
  {
    hide Edge;
  }

  /** Block b is the k-th in the list of allocated inode i; a hole lists nothing. */
  predicate Lists(v: Inodes, inos: set<nat>, i: nat, k: nat, b: nat) {
    Taken(inos, i) && i in v && k < |v[i].blocks| && v[i].blocks[k] == b && b != 0
  }

  lemma ListsOk(v: Inodes, inos: set<nat>, used: set<nat>)
    ensures BlocksOk(v, inos, used) <==>
              && (forall i, k, b :: Lists(v, inos, i, k, b) ==> b in used)
              && (forall i, k, j, l, b :: Lists(v, inos, i, k, b) && Lists(v, inos, j, l, b) ==> i == j && k == l)
  {
    if (forall i, k, b :: Lists(v, inos, i, k, b) ==> b in used)
       && (forall i, k, j, l, b :: Lists(v, inos, i, k, b) && Lists(v, inos, j, l, b) ==> i == j && k == l) {
      forall i, k | Taken(inos, i) && i in v && 0 <= k < |v[i].blocks| && v[i].blocks[k] != 0 ensures v[i].blocks[k] in used {
        assert Lists(v, inos, i, k, v[i].blocks[k]);
      }
      forall i, k, j, l | Taken(inos, i) && i in v && 0 <= k < |v[i].blocks| && Taken(inos, j) && j in v && 0 <= l < |v[j].blocks| &&
                          v[i].blocks[k] == v[j].blocks[l] != 0
        ensures i == j && k == l
      {
        assert Lists(v, inos, i, k, v[i].blocks[k]) && Lists(v, inos, j, l, v[i].blocks[k]);
      }
    }
  }

  /** The places before number m of inode i. */
  ghost predicate ListedBefore(v: Inodes, inos: set<nat>, i: nat, m: nat, j: nat, l: nat, b: nat) {
    Lists(v, inos, j, l, b) && (j < i || (j == i && l < m))
  }

  ghost predicate Seen(v: Inodes, inos: set<nat>, i: nat, m: nat, b: nat) { exists j, l :: ListedBefore(v, inos, i, m, j, l, b) }

  ghost predicate BlocksBelow(v: Inodes, inos: set<nat>, used: set<nat>, i: nat, m: nat) {
    && (forall j, l, b :: ListedBefore(v, inos, i, m, j, l, b) ==> b in used)
    && (forall j, l, j', l', b :: ListedBefore(v, inos, i, m, j, l, b) && ListedBefore(v, inos, i, m, j', l', b) ==> j == j' && l == l')
  }

  lemma MoreBlocks(v: Inodes, inos: set<nat>, used: set<nat>, i: nat, m: nat)
    requires Taken(inos, i) && i in v && m < |v[i].blocks|
    ensures var b := v[i].blocks[m];
            && (BlocksBelow(v, inos, used, i, m + 1) <==>
                  BlocksBelow(v, inos, used, i, m) && (b != 0 ==> b in used && !Seen(v, inos, i, m, b)))
            && forall x :: Seen(v, inos, i, m + 1, x) <==> Seen(v, inos, i, m, x) || (x == b && b != 0)
  {
    hide BlocksBelow, Seen, Taken;
    var b := v[i].blocks[m];
    OnePlace(v, inos, i, m);
    hide Lists;
    if b == 0 {
      SamePlaces(v, inos, used, i, m, i, m + 1);
    } else {
      OneMorePlace(v, inos, used, i, m, b);
    }
  }

  lemma OnePlace(v: Inodes, inos: set<nat>, i: nat, m: nat)
    requires Taken(inos, i) && i in v && m < |v[i].blocks|
    ensures forall x: nat :: Lists(v, inos, i, m, x) <==> x == v[i].blocks[m] && x != 0
  {
  }

  lemma OneMorePlace(v: Inodes, inos: set<nat>, used: set<nat>, i: nat, m: nat, b: nat)
    requires forall x: nat :: Lists(v, inos, i, m, x) <==> x == b
    ensures BlocksBelow(v, inos, used, i, m + 1) <==> BlocksBelow(v, inos, used, i, m) && b in used && !Seen(v, inos, i, m, b)
    ensures forall x :: Seen(v, inos, i, m + 1, x) <==> Seen(v, inos, i, m, x) || x == b
  {
    hide Lists;
    var n := m + 1;
    assert ListedBefore(v, inos, i, n, i, m, b);
    forall j: nat, l: nat, x: nat | ListedBefore(v, inos, i, m, j, l, x) ensures ListedBefore(v, inos, i, n, j, l, x) {
    }
    forall j: nat, l: nat, x: nat | ListedBefore(v, inos, i, n, j, l, x)
      ensures ListedBefore(v, inos, i, m, j, l, x) || (j == i && l == m && x == b)
    {
    }
    assert forall j: nat, l: nat, x: nat :: ListedBefore(v, inos, i, m, j, l, x) ==> !(j == i && l == m);
    hide ListedBefore;
  }

  /** Two ends with the same places before them. */
  lemma SamePlaces(v: Inodes, inos: set<nat>, used: set<nat>, i: nat, m: nat, i': nat, m': nat)
    requires forall j: nat, l: nat, x: nat :: Lists(v, inos, j, l, x) ==>
               ((j < i || (j == i && l < m)) <==> (j < i' || (j == i' && l < m')))
    ensures BlocksBelow(v, inos, used, i', m') <==> BlocksBelow(v, inos, used, i, m)
    ensures forall b :: Seen(v, inos, i', m', b) <==> Seen(v, inos, i, m, b)
  {
    hide Lists;
    forall j: nat, l: nat, x: nat | ListedBefore(v, inos, i, m, j, l, x) ensures ListedBefore(v, inos, i', m', j, l, x) {
    }
    forall j: nat, l: nat, x: nat | ListedBefore(v, inos, i', m', j, l, x) ensures ListedBefore(v, inos, i, m, j, l, x) {
    }
    hide ListedBefore;
  }

  /** Past its last place, or for a free inode, an inode adds nothing. */
  lemma LastBlock(v: Inodes, inos: set<nat>, used: set<nat>, i: nat, m: nat)
    requires !Taken(inos, i) || (i in v && m >= |v[i].blocks|)
    ensures BlocksBelow(v, inos, used, i + 1, 0) <==> BlocksBelow(v, inos, used, i, m)
    ensures forall b :: Seen(v, inos, i + 1, 0, b) <==> Seen(v, inos, i, m, b)
  {
    hide BlocksBelow, Seen;
    SamePlaces(v, inos, used, i, m, i + 1, 0);
  }

  lemma NoBlocks(v: Inodes, inos: set<nat>, used: set<nat>)
    ensures BlocksBelow(v, inos, used, 1, 0) && forall b :: !Seen(v, inos, 1, 0, b)
  {
  }

  lemma AllBlocks(v: Inodes, inos: set<nat>, used: set<nat>)
    ensures BlocksBelow(v, inos, used, INODE_COUNT + 1, 0) <==> BlocksOk(v, inos, used)
  {
    ListsOk(v, inos, used);
    forall j, l, b ensures ListedBefore(v, inos, INODE_COUNT + 1, 0, j, l, b) <==> Lists(v, inos, j, l, b) {
    }
    hide ListedBefore, Lists, BlocksOk;
  }

  /** The blocks one inode lists: each marked used, none seen before. */
  method CheckInodeBlocks(v: Inodes, i: nat, blockBM: Bitmap, ghost inos: set<nat>, refs0: set<nat>, ok0: bool)
    returns (refs: set<nat>, ok: bool)
    requires blockBM.Valid() && Taken(inos, i) && i in v
    requires (forall b :: b in refs0 <==> Seen(v, inos, i, 0, b)) && (ok0 <==> BlocksBelow(v, inos, blockBM.Used(), i, 0))
    ensures forall b :: b in refs <==> Seen(v, inos, i + 1, 0, b)
    ensures ok <==> BlocksBelow(v, inos, blockBM.Used(), i + 1, 0)
  {
    hide Bitmap.Used, BlocksBelow, Seen, Taken;
    refs, ok := refs0, ok0;
    var blocks := v[i].blocks;
    var m := 0;
    while m < |blocks|
      invariant 0 <= m <= |blocks| && (forall b :: b in refs <==> Seen(v, inos, i, m, b))
      invariant ok <==> BlocksBelow(v, inos, blockBM.Used(), i, m)
    {
      var b := blocks[m];
      MoreBlocks(v, inos, blockBM.Used(), i, m);
      if b != 0 {
        var marked := blockBM.IsSet(b);
        if !marked { ok := false; }
        if b in refs { ok := false; } else { refs := refs + {b}; }
      }
      m := m + 1;
    }
    LastBlock(v, inos, blockBM.Used(), i, m);
  }

  method CheckBlocks(v: Inodes, blockBM: Bitmap, inodeBM: Bitmap) returns (ok: bool)
    requires WholeTable(v) && blockBM.Valid() && inodeBM.Valid() && inodeBM.size == INODE_COUNT
    ensures ok <==> BlocksOk(v, inodeBM.Used(), blockBM.Used())
  {
    hide Bitmap.Used, BlocksOk, BlocksBelow, Seen;
    ghost var inos := inodeBM.Used();
    NoBlocks(v, inos, blockBM.Used());
    ok := true;
    var refs := {};
    var i := 1;
    while i <= INODE_COUNT
      invariant 1 <= i <= INODE_COUNT + 1 && (forall b :: b in refs <==> Seen(v, inos, i, 0, b))
      invariant ok <==> BlocksBelow(v, inos, blockBM.Used(), i, 0)
    {
      var set_ := inodeBM.IsSet(i - 1);
      if set_ {
        refs, ok := CheckInodeBlocks(v, i, blockBM, inos, refs, ok);
      } else {
        LastBlock(v, inos, blockBM.Used(), i, 0);
      }
      i := i + 1;
    }
    AllBlocks(v, inos, blockBM.Used());
  }

  method CheckOrphans(v: Inodes, inodeBM: Bitmap, visited: set<nat>) returns (ok: bool)
    requires inodeBM.Valid() && inodeBM.size == INODE_COUNT && forall c :: c in visited <==> Reachable(v, c)
    ensures ok <==> NoOrphans(v, inodeBM.Used())
  {
    hide Bitmap.Used, Reachable;
    ok := true;
    var i := 1;
    while i <= INODE_COUNT
      invariant 1 <= i <= INODE_COUNT + 1
      invariant ok <==> forall j: nat :: Taken(inodeBM.Used(), j) && j < i ==> Reachable(v, j)
    {
      var set_ := inodeBM.IsSet(i - 1);
      if set_ && i !in visited { ok := false; }
      i := i + 1;
    }
  }

  /** The check is clean exactly when the disk is consistent. */
  method FsckFull(sb: Super, v: Inodes, blockBM: Bitmap, inodeBM: Bitmap) returns (clean: bool)
    requires WholeTable(v) && blockBM.Valid() && inodeBM.Valid()
    requires blockBM.size == TOTAL_BLOCKS && inodeBM.size == INODE_COUNT
    ensures clean <==> Consistent(sb, v, blockBM.bits, inodeBM.bits, blockBM.Used(), inodeBM.Used())
  {
    hide Bitmap.Used, TypesOk, EntriesOk, BlocksOk, NoOrphans, TreeLike, CountTo, DirMap;
    clean := SuperOk(sb);
    if !DirInode(v, 1) { clean := false; }
    if !LeadsTo(v, 1, DOT, 1) { clean := false; }
    if !LeadsTo(v, 1, DOTDOT, 1) { clean := false; }
    var blocksSet := blockBM.Count();
    if (TOTAL_BLOCKS - blocksSet) % 0x1_0000_0000 != sb.freeBlocks { clean := false; }
    var inodesSet := inodeBM.Count();
    if (INODE_COUNT - inodesSet) % 0x1_0000_0000 != sb.freeInodes { clean := false; }
    var types := CheckTypes(v, inodeBM);
    var entries := CheckEntries(v, inodeBM);
    var blocks := CheckBlocks(v, blockBM, inodeBM);
    var visited, tree := WalkFromRoot(v);
    var orphans := CheckOrphans(v, inodeBM, visited);
    clean := clean && types && entries && blocks && tree && orphans;
  }
}
