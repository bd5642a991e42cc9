/** File content as a sparse byte sequence: what reading returns and what writing changes. */
module FileContent {
  import opened Bytes
  import opened Device
  import opened Bitmaps
  import opened Allocation
  import opened BlockMap
  import opened Extents

  /** The 32-bit logical block number the engine computes from a byte offset. */
  function LogicalBlock(offset: nat): nat { offset / BLOCK_SIZE % 0x1_0000_0000 }

  /** It is the real block number exactly below 16 TiB; from there on it wraps round to the start of the file. */
  lemma LogicalBlockIff(offset: nat)
    ensures LogicalBlock(offset) == offset / BLOCK_SIZE <==> offset < 0x1000_0000_0000
  {
  }

  /** The offset the engine really looks at for byte o. */
  function Seen(o: nat): nat { LogicalBlock(o) * BLOCK_SIZE + o % BLOCK_SIZE }

  lemma SeenIff(o: nat)
    ensures Seen(o) == o <==> o < 0x1000_0000_0000
    ensures Seen(o) / BLOCK_SIZE == LogicalBlock(o) && Seen(o) % BLOCK_SIZE == o % BLOCK_SIZE
  {
    LogicalBlockIff(o);
  }

  /** Byte o of a file: a hole reads as zero. */
  function ByteAt(s: State, inum: nat, o: nat): Byte {
    var a := if o / BLOCK_SIZE < MAX_LOGICAL then Addr(s, PosOf(inum, o / BLOCK_SIZE)) else 0;
    if 0 < a < |s.img| then s.img[a][o % BLOCK_SIZE] else 0
  }

  /** t holds the bytes of s with the first n bytes of buf laid over file inum at offset off. */
  ghost predicate Overlaid(s: State, t: State, inum: nat, off: nat, buf: seq<Byte>, n: nat)
    requires n <= |buf|
  {
    && t.files.Keys == s.files.Keys
    && forall f, o: nat :: f in s.files ==>
         ByteAt(t, f, o) == if f == inum && off <= o < off + n then buf[o - off] else ByteAt(s, f, o)
  }

  /** Growing a tree changes no byte of any file: new data blocks read as the holes they replace. */
  lemma GrownBytes(s: State, t: State, target: Pos, f: nat, o: nat)
    requires Owns(s) && Grown(s, t, target) && InTree(s.files, target) && IsLeaf(target) && f in s.files
    ensures ByteAt(t, f, o) == ByteAt(s, f, o)
  {
    hide Addr, PosOf, Owns, Zero, Above, InTree;
    assert Disjoint(s) && Disjoint(t) by { OwnsDisjoint(s); OwnsDisjoint(t); }
    var lb := o / BLOCK_SIZE;
    if lb < MAX_LOGICAL {
      var p := PosOf(f, lb);
      PosOfLogical(s.files, f, lb);
      LeafAbove(p, target);
      SameTree(s.files, t.files, p);
      if Addr(s, p) == 0 && p == target && Addr(t, p) != 0 {
        ZeroByte(o % BLOCK_SIZE);
      }
    }
  }

  lemma ZeroByte(i: nat)
    requires i < BLOCK_SIZE
    ensures Zero()[i] == 0
  {
  }

  /** Writing a data block changes no mapping. */
  lemma WriteLeaf(s: State, p: Pos, blk: Block)
    requires Owns(s) && InTree(s.files, p) && IsLeaf(p) && Addr(s, p) != 0
    ensures InRegion(Addr(s, p)) && |s.img| == TOTAL_BLOCKS
    ensures var u := State(s.files, s.img[Addr(s, p) := blk], s.used);
            Owns(u) && forall q :: InTree(s.files, q) ==> Addr(u, q) == Addr(s, q)
  {
    hide Addr, InTree;
    assert InRegion(Addr(s, p));
    var u := State(s.files, s.img[Addr(s, p) := blk], s.used);
    assert SameIndex(s, u);
    SameIndexOwns(s, u);
    forall q | InTree(s.files, q) ensures Addr(u, q) == Addr(s, q) { SameIndexAddr(s, u, q); }
  }

  lemma WriteLeafBytes(s: State, inum: nat, lb: nat, blk: Block, f: nat, o: nat)
    requires Owns(s) && inum in s.files && f in s.files && lb < MAX_LOGICAL && Addr(s, PosOf(inum, lb)) != 0
    requires |s.img| == TOTAL_BLOCKS && InRegion(Addr(s, PosOf(inum, lb)))
    ensures var u := State(s.files, s.img[Addr(s, PosOf(inum, lb)) := blk], s.used);
            ByteAt(u, f, o) == if f == inum && o / BLOCK_SIZE == lb then blk[o % BLOCK_SIZE] else ByteAt(s, f, o)
  {
    hide Addr, PosOf, Owns, InTree;
    assert Disjoint(s) by { OwnsDisjoint(s); }
    var p := PosOf(inum, lb);
    PosOfLogical(s.files, inum, lb);
    WriteLeaf(s, p, blk);
    var lb' := o / BLOCK_SIZE;
    if lb' < MAX_LOGICAL {
      PosOfLogical(s.files, f, lb');
      PosOfInum(f, lb');
      PosOfInum(inum, lb);
    }
  }

  // ---------------------------------------------------------------- bytes of one block

  lemma SeenBlock(cur: nat, o: nat)
    requires o / BLOCK_SIZE == cur / BLOCK_SIZE
    ensures Seen(o) / BLOCK_SIZE == LogicalBlock(cur) && Seen(o) % BLOCK_SIZE == o % BLOCK_SIZE
  {
    SeenIff(o);
  }

  lemma SameBlock(cur: nat, i: nat)
    requires cur % BLOCK_SIZE + i < BLOCK_SIZE
    ensures (cur + i) / BLOCK_SIZE == cur / BLOCK_SIZE && (cur + i) % BLOCK_SIZE == cur % BLOCK_SIZE + i
  {
  }

  // ---------------------------------------------------------------- writing

  /** The block with bytes copied in at position bo. */
  function Copied(blk: Block, bo: nat, bytes: seq<Byte>): (r: Block)
    requires bo + |bytes| <= BLOCK_SIZE
    ensures forall i :: 0 <= i < BLOCK_SIZE ==> r[i] == if bo <= i < bo + |bytes| then bytes[i - bo] else blk[i]
  {
    blk[..bo] + bytes + blk[bo + |bytes|..]
  }

  /** Writing one chunk that stays inside a block lays its bytes over the file. */
  lemma ChunkOverlays(s0: State, s: State, t: State, inum: nat, off: nat, buf: seq<Byte>, n: nat, can: nat, blk: Block)
    requires Owns(s0) && n + can <= |buf| && Overlaid(s0, s, inum, off, buf, n) && Owns(s) && inum in s0.files
    requires var cur := off + n;
             && cur / BLOCK_SIZE < MAX_LOGICAL && cur % BLOCK_SIZE + can <= BLOCK_SIZE && |s.img| == TOTAL_BLOCKS
             && InRegion(Addr(s, PosOf(inum, cur / BLOCK_SIZE)))
             && blk == Copied(s.img[Addr(s, PosOf(inum, cur / BLOCK_SIZE))], cur % BLOCK_SIZE, buf[n..n + can])
             && t == State(s.files, s.img[Addr(s, PosOf(inum, cur / BLOCK_SIZE)) := blk], s.used)
    ensures Owns(t) && Overlaid(s0, t, inum, off, buf, n + can)
  {
    hide Addr, PosOf, Owns, InTree, Copied;
    var cur := off + n;
    var lb := cur / BLOCK_SIZE;
    PosOfLogical(s.files, inum, lb);
    WriteLeaf(s, PosOf(inum, lb), blk);
    forall f, o: nat | f in s0.files
      ensures ByteAt(t, f, o) == if f == inum && off <= o < off + n + can then buf[o - off] else ByteAt(s0, f, o)
    {
      WriteLeafBytes(s, inum, lb, blk, f, o);
      if cur <= o < cur + can {
        SameBlock(cur, o - cur);
        assert buf[n..n + can][o - cur] == buf[o - off];
      }
      if f == inum && o / BLOCK_SIZE == lb {
        SameBlockByte(cur, o);
        HeldByte(s, inum, lb, o);
      }
    }
  }

  lemma SameBlockByte(cur: nat, o: nat)
    requires o / BLOCK_SIZE == cur / BLOCK_SIZE
    ensures o % BLOCK_SIZE - cur % BLOCK_SIZE == o - cur
  {
  }

  lemma HeldByte(s: State, inum: nat, lb: nat, o: nat)
    requires lb < MAX_LOGICAL && 0 < Addr(s, PosOf(inum, lb)) < |s.img| && o / BLOCK_SIZE == lb
    ensures ByteAt(s, inum, o) == s.img[Addr(s, PosOf(inum, lb))][o % BLOCK_SIZE]
  {
  }

  lemma OwnsMapped(s: State, inum: nat, lb: nat, a: nat)
    requires Owns(s) && inum in s.files && lb < MAX_LOGICAL && a != 0
    requires GetBlockForOffset(s.img, s.files[inum], lb) == Ok(a)
    ensures Addr(s, PosOf(inum, lb)) == a && InRegion(a) && |s.img| == TOTAL_BLOCKS
  {
    hide Addr, PosOf, GetBlockForOffset;
    PosOfLogical(s.files, inum, lb);
    GetIsAddr(s, inum, lb);
  }

  lemma GrownOverlay(s0: State, s: State, t: State, inum: nat, lb: nat, off: nat, buf: seq<Byte>, n: nat)
    requires Owns(s) && inum in s.files && lb < MAX_LOGICAL && Grown(s, t, PosOf(inum, lb)) && n <= |buf|
    requires s0.files.Keys == s.files.Keys
    ensures Owns(t) && t.files.Keys == s.files.Keys
    ensures Overlaid(s0, s, inum, off, buf, n) ==> Overlaid(s0, t, inum, off, buf, n)
  {
    hide Grown, Owns, ByteAt, PosOf, Addr;
    GrownTree(s, t, PosOf(inum, lb));
    PosOfLogical(s.files, inum, lb);
    forall f, o: nat | f in s0.files ensures ByteAt(t, f, o) == ByteAt(s, f, o) {
      GrownBytes(s, t, PosOf(inum, lb), f, o);
    }
  }
}
