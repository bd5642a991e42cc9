/** Changing a file's size: what its bytes are afterwards, and the stale tail that shrinking leaves behind. */
module FileTruncation {
  import opened Bytes
  import opened Device
  import opened Bitmaps
  import opened Allocation
  import opened BlockMap
  import opened Extents
  import opened Truncation
  import opened FileContent

  /** The first block boundary at or after a size. */
  function RoundUp(size: nat): nat { (size + BLOCK_SIZE - 1) / BLOCK_SIZE * BLOCK_SIZE }

  /** Where the blocks cut lie, in bytes. */
  lemma {:induction false} TruncatedBytes(s: State, t: State, inum: nat, start: nat, end: nat, pruned: bool, f: nat, o: nat)
    requires Owns(s) && Truncated(s, t, inum, start, end, pruned) && inum in s.files && f in s.files && end <= MAX_LOGICAL
    ensures ByteAt(t, f, o) == if f == inum && start <= o / BLOCK_SIZE < end then 0 else ByteAt(s, f, o)
  {
    hide Addr, PosOf, Owns, InTree, LogicalOf;
    assert Disjoint(s) && Disjoint(t) by { OwnsDisjoint(s); OwnsDisjoint(t); }
    var lb := o / BLOCK_SIZE;
    if lb < MAX_LOGICAL {
      PosOfLogical(s.files, f, lb);
      SameTree(s.files, t.files, PosOf(f, lb));
      PosOfInum(f, lb);
    }
  }

  /** t is s with file inum cut down to new size: every byte below the next block boundary stays, the rest of the
      old blocks read zero, and no other file changes. */
  ghost predicate CutTo(s: State, t: State, inum: nat, size: nat, old_: nat) {
    && t.files.Keys == s.files.Keys
    && forall f, o: nat :: f in s.files ==>
         ByteAt(t, f, o) == if f == inum && RoundUp(size) <= o < RoundUp(old_) then 0 else ByteAt(s, f, o)
  }

  lemma SizeBlocks(size: nat, o: nat)
    requires size <= 0x1000_0000_0000 - BLOCK_SIZE
    ensures BlocksForSize(size) == (size + BLOCK_SIZE - 1) / BLOCK_SIZE
    ensures o / BLOCK_SIZE < BlocksForSize(size) <==> o < RoundUp(size)
  {
  }

  lemma CutIsTruncated(s: State, t: State, inum: nat, size: nat, old_: nat, pruned: bool)
    requires Owns(s) && inum in s.files && size < old_ <= 0x1000_0000_0000 - BLOCK_SIZE && BlocksForSize(old_) <= MAX_LOGICAL
    requires BlocksForSize(size) < BlocksForSize(old_) ==>
               Truncated(s, t, inum, BlocksForSize(size), BlocksForSize(old_), pruned)
    requires BlocksForSize(size) >= BlocksForSize(old_) ==> t == s
    ensures CutTo(s, t, inum, size, old_)
  {
    hide Owns, Truncated, ByteAt, BlocksForSize, RoundUp;
    if BlocksForSize(size) < BlocksForSize(old_) { TruncatedKeys(s, t, inum, BlocksForSize(size), BlocksForSize(old_), pruned); }
    forall f, o: nat | f in s.files
      ensures ByteAt(t, f, o) == if f == inum && RoundUp(size) <= o < RoundUp(old_) then 0 else ByteAt(s, f, o)
    {
      SizeBlocks(size, o);
      SizeBlocks(old_, o);
      if BlocksForSize(size) < BlocksForSize(old_) {
        TruncatedBytes(s, t, inum, BlocksForSize(size), BlocksForSize(old_), pruned, f, o);
      }
    }
  }

  lemma TruncatedKeys(s: State, t: State, inum: nat, start: nat, end: nat, pruned: bool)
    requires Truncated(s, t, inum, start, end, pruned)
    ensures t.files.Keys == s.files.Keys && Owns(t)
  {
    hide Owns, Addr, InTree;
  }

  /** Sets the size of a file, giving back the blocks beyond a smaller one. */
  method Truncate(alloc: Allocator, di: DiskInode, size: int, ghost files: map<nat, Roots>, ghost inum: nat)
    returns (r: Result<()>, ghost pruned: bool)
    requires alloc.Valid() && di.Valid() && Owns(Now(alloc, di, files, inum))
    modifies alloc.dev`data, alloc.dev`dirty, alloc.blockBM`bits, alloc.sb`freeBlocks, di
    ensures alloc.Valid() && di.Valid() && Owns(Now(alloc, di, files, inum))
    ensures size < 0 ==> r == Err(InvalidArg)
    ensures size >= 0 && di.isDir ==> r == Err(IsDir)
    ensures r.Ok? ==> di.size == size
    ensures r.Err? ==> di.size == old(di.size)
    ensures !di.isDir && size >= old(di.size) ==> r.Ok?
    ensures !di.isDir && 0 <= size < old(di.size) ==>
              (r.Ok? <==> BlocksForSize(size) >= BlocksForSize(old(di.size)) || BlocksForSize(old(di.size)) <= MAX_LOGICAL)
    ensures r.Err? && !di.isDir && size >= 0 ==> r == Err(TooBig)
    ensures var s, t, cur := old(Now(alloc, di, files, inum)), Now(alloc, di, files, inum), old(di.size);
            if !di.isDir && 0 <= size < cur && BlocksForSize(size) < BlocksForSize(cur) then
              && Truncated(s, t, inum, BlocksForSize(size), Min(BlocksForSize(cur), MAX_LOGICAL), pruned)
              && (pruned <==> BlocksForSize(cur) <= MAX_LOGICAL && BlocksForSize(size) <= DIRECT && old(di.indirect1) != 0
                              && SingleCut(s, inum, BlocksForSize(cur)))
            else t == s
    ensures r.Ok? && size < old(di.size) <= MAX_LOGICAL * BLOCK_SIZE ==>
              CutTo(old(Now(alloc, di, files, inum)), Now(alloc, di, files, inum), inum, size, old(di.size))
  {
    hide Owns, Truncated, CutTo, Allocator.Valid, Bitmap.Used, SingleCut;
    pruned := false;
    if size < 0 { return Err(InvalidArg), false; }
    if di.isDir { return Err(IsDir), false; }
    ghost var s := Now(alloc, di, files, inum);
    var cur := di.size;
    if size == cur { return Ok(()), false; }
    if size < cur {
      var startLogical := (size + BLOCK_SIZE - 1) / BLOCK_SIZE % 0x1_0000_0000;
      var freed;
      freed, pruned := FreeBlocksFrom(alloc, di, startLogical, files, inum);
      ghost var t := Now(alloc, di, files, inum);
      if startLogical < BlocksForSize(cur) {
        TruncatedKeys(s, t, inum, startLogical, Min(BlocksForSize(cur), MAX_LOGICAL), pruned);
      }
      if freed.Err? { return Err(freed.error), pruned; }
      if cur <= MAX_LOGICAL * BLOCK_SIZE { CutIsTruncated(s, t, inum, size, cur, pruned); }
    }
    di.size := size;
    return Ok(()), pruned;
  }

  /** Shrinking keeps the bytes of the last, partly used block. Growing again shows them: the regained range reads
      as zeros exactly if the bytes between the new size and the next block boundary were zero before. */
  lemma RegainedReadsZeroIff(s: State, t: State, inum: nat, size: nat, old_: nat)
    requires inum in s.files && CutTo(s, t, inum, size, old_) && size <= old_
    ensures (forall o: nat :: size <= o < old_ ==> ByteAt(t, inum, o) == 0)
       <==> (forall o: nat :: size <= o < Min(RoundUp(size), old_) ==> ByteAt(s, inum, o) == 0)
  {
    hide ByteAt;
    assert size <= RoundUp(size) && old_ <= RoundUp(old_) by { RoundUpAbove(size); RoundUpAbove(old_); }
    hide RoundUp;
    forall o: nat | size <= o < old_
      ensures ByteAt(t, inum, o) == if o < RoundUp(size) then ByteAt(s, inum, o) else 0
    {
      assert o < RoundUp(old_);
    }
  }

  lemma RoundUpAbove(size: nat)
    ensures size <= RoundUp(size) < size + BLOCK_SIZE
  {
  }
}
