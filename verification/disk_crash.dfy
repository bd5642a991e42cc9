/** The name space on disk across crashes: journal, mutations and name space operations together. */
module DiskCrash {
  import opened Bytes
  import opened Device
  import Bits
  import opened Bitmaps
  import opened Allocation
  import opened BlockMap
  import opened InodeTable
  import opened DirState
  import opened FileContent
  import opened JournalFormat
  import opened JournalRecovery
  import opened JournalReplay
  import opened JournalRuns
  import opened JournalLog
  import opened Mutation
  import opened DiskState
  import opened DiskNames
  import opened DiskInodes
  import opened DiskOps
  import JournalCrash
  import Names
  import Namespaces

  // ---------------------------------------------------------------- a disk as mounting finds it

  /** The set bits below n of a bitmap block. */
  function BitsOf(blk: Block, n: nat): set<nat> { set k: nat | k < n && Has(blk, k) }

  /** The disk an image holds, bitmaps included. */
  ghost function DiskOf(img: Image): (d: Disk)
    requires |img| == TOTAL_BLOCKS
    ensures d.img == img
  {
    Disk(img, BitsOf(img[INODE_BITMAP_ADDR], INODE_COUNT), BitsOf(img[BLOCK_BITMAP_ADDR], TOTAL_BLOCKS))
  }

  lemma PaddedBits(bits: seq<Byte>, n: nat)
    requires |bits| <= BLOCK_SIZE
    ensures BitsOf(BitmapBlock(bits), n) == set k: nat | k < n && Has(bits, k)
  {
    forall k: nat | k < n ensures Has(BitmapBlock(bits), k) <==> Has(bits, k) {
      if k / 8 >= |bits| { Bits.ZeroBit(k % 8); }
    }
  }

  lemma NoBitBeyond(blk: Block, n: nat)
    ensures n !in BitsOf(blk, n)
  {
  }

  /** What an allocator has in memory is what mounting would read. */
  lemma MountedIsNow(alloc: Allocator)
    requires alloc.Valid()
    ensures |alloc.dev.data| == TOTAL_BLOCKS && DiskOf(alloc.dev.data) == DiskNow(alloc)
  {
    hide BitmapBlock, Has, BitsOf;
    PaddedBits(alloc.inodeBM.bits, INODE_COUNT);
    PaddedBits(alloc.blockBM.bits, TOTAL_BLOCKS);
  }

  /** The journal where the disk layout puts it. */
  predicate Placed(c: Config) { c.start == JOURNAL_START && c.length == DATA_START - JOURNAL_START }

  /** Blocks outside the tables and the data region do not matter to a disk. */
  lemma SameHomeHealthy(d: Disk, e: Disk)
    requires Healthy(d) && |e.img| == TOTAL_BLOCKS && e.inos == d.inos && e.used == d.used && TOTAL_BLOCKS !in d.used
    requires forall i :: 1 <= i <= INODE_COUNT ==> RecordAt(e.img, i) == RecordAt(d.img, i)
    requires forall a :: DATA_START <= a < TOTAL_BLOCKS ==> e.img[a] == d.img[a]
    ensures Healthy(e) && NodesOf(e) == NodesOf(d) && KeptExcept(d, e, {})
  {
    hide RecordAt, Owns, GoodDir, DirRecord, Keeps, NodeOf, Size, RootsOf, KeptExcept;
    MetaWrite(BlocksOf(d), e.img, TOTAL_BLOCKS);
    assert BlocksOf(e) == State(BlocksOf(d).files, e.img, BlocksOf(d).used);
    KeptFrom(d, e, {});
    forall i | 1 <= i <= INODE_COUNT && Taken(d.inos, i)
      ensures NodeOf(BlocksOf(e), i, RecordAt(e.img, i)) == NodeOf(BlocksOf(d), i, RecordAt(d.img, i))
      ensures GoodDir(BlocksOf(d), i, Size(RecordAt(d.img, i))) ==> GoodDir(BlocksOf(e), i, Size(RecordAt(e.img, i)))
    {
      KeptNode(BlocksOf(d), BlocksOf(e), {}, i, RecordAt(d.img, i));
    }
  }

  /** The journal's own blocks do not matter to the name space. */
  lemma SameHomeSound(c: Config, a: Image, b: Image)
    requires Placed(c) && |a| == TOTAL_BLOCKS && Sound(DiskOf(a)) && JournalCrash.SameHome(c, a, b)
    ensures Sound(DiskOf(b)) && NodesOf(DiskOf(b)) == NodesOf(DiskOf(a))
    ensures DiskOf(b).inos == DiskOf(a).inos && KeptExcept(DiskOf(a), DiskOf(b), {})
  {
    hide RecordAt, Healthy, NodesOf, Names.Inv, BitsOf, KeptExcept;
    TableSame(a, b);
    NoBitBeyond(a[BLOCK_BITMAP_ADDR], TOTAL_BLOCKS);
    SameHomeHealthy(DiskOf(a), DiskOf(b));
  }

  // ---------------------------------------------------------------- runs of operations, crashes included

  /** One successful operation inside its mutation: the image it wants on disk, and its result. */
  datatype Call = Call(op: Namespaces.Op, after: Image, r: Result<nat>)

  /** The call turns img into its own image as the operations on disk promise, and tx logs exactly what changed. */
  ghost predicate Performs(c: Config, img: Image, tx: Tx, call: Call) {
    && |img| == |call.after| == TOTAL_BLOCKS && call.r.Ok?
    && Sound(DiskOf(call.after)) && Namespaces.Step(NodesOf(DiskOf(img)), call.op, NodesOf(DiskOf(call.after)), call.r)
    && OthersKept(DiskOf(img), DiskOf(call.after), call.op.parent)
    && exists changed :: IsDiff(c, img, call.after, changed) && Logs(tx, changed, call.after)
  }

  /** Each commit attempt is that of a call made on what the attempts before it left. */
  ghost predicate Calls(c: Config, img: Image, head: nat, es: seq<JournalCrash.Event>, calls: seq<Call>)
    decreases |es|
  {
    |es| == |calls| && (es != [] ==>
      && Loggable(es[0].tx) && Performs(c, img, es[0].tx, calls[0])
      && Calls(c, if JournalCrash.Durable(c, head, es[0]) then calls[0].after else img,
               head + Needed(|es[0].tx.blocks|), es[1..], calls[1..]))
  }

  /** The calls whose transaction reached the journal whole, in order. */
  function DurableCalls(c: Config, head: nat, es: seq<JournalCrash.Event>, calls: seq<Call>): seq<Call>
    requires |es| == |calls| && forall i :: 0 <= i < |es| ==> Loggable(es[i].tx)
    decreases |es|
  {
    if es == [] then []
    else
      (if JournalCrash.Durable(c, head, es[0]) then [calls[0]] else [])
      + DurableCalls(c, head + Needed(|es[0].tx.blocks|), es[1..], calls[1..])
  }

  /** From s the name space comes to t by exactly these calls, each with its result. */
  ghost predicate Leads(s: Names.Nodes, calls: seq<Call>, t: Names.Nodes)
    decreases |calls|
  {
    if calls == [] then t == s
    else
      && |calls[0].after| == TOTAL_BLOCKS
      && var next := NodesOf(DiskOf(calls[0].after));
         Namespaces.Step(s, calls[0].op, next, calls[0].r) && Leads(next, calls[1..], t)
  }

  lemma {:induction false} SameHomeTxs(c: Config, a: Image, b: Image, txs: seq<Tx>)
    requires JournalCrash.SameHome(c, a, b)
    ensures JournalCrash.SameHome(c, JournalCrash.ApplyTxs(a, txs), JournalCrash.ApplyTxs(b, txs))
    decreases |txs|
  {
    hide ApplyWrites, HomeWrites;
    if txs != [] {
      var ws := HomeWrites(txs[0]);
      forall x: nat | x < |a| && !InJournal(c, x) ensures ApplyWrites(a, ws)[x] == ApplyWrites(b, ws)[x] { SameWrites(a, b, ws, x); }
      SameHomeTxs(c, ApplyWrites(a, ws), ApplyWrites(b, ws), txs[1..]);
    }
  }

  lemma {:induction false} SameWrites(a: Image, b: Image, ws: seq<Write>, x: nat)
    requires x < |a| == |b| && a[x] == b[x]
    ensures ApplyWrites(a, ws)[x] == ApplyWrites(b, ws)[x]
  {
    if ws != [] { SameWrites(a, b, ws[..|ws| - 1], x); }
  }

  /** The durable transactions, applied, leave the name space that the durable calls lead to. */
  lemma {:induction false} DurableCallsLead(c: Config, img: Image, head: nat, es: seq<JournalCrash.Event>, calls: seq<Call>)
    requires Placed(c) && |img| == TOTAL_BLOCKS && Sound(DiskOf(img)) && Calls(c, img, head, es, calls)
    requires forall i :: 0 <= i < |es| ==> Loggable(es[i].tx)
    ensures var end := JournalCrash.ApplyTxs(img, JournalCrash.DurableTxs(c, head, es));
            Sound(DiskOf(end)) && Leads(NodesOf(DiskOf(img)), DurableCalls(c, head, es, calls), NodesOf(DiskOf(end)))
    decreases |es|
  {
    hide Sound, NodesOf, DiskOf, Performs, HomeWrites, ApplyWrites, Namespaces.Step, JournalCrash.Durable, Loggable, Needed, JournalCrash.SameHome;
    if es != [] {
      var e, call, next := es[0], calls[0], head + Needed(|es[0].tx.blocks|);
      var txs := JournalCrash.DurableTxs(c, next, es[1..]);
      if JournalCrash.Durable(c, head, e) {
        PerformsReplays(c, img, e.tx, call);
        DurableCallsLead(c, call.after, next, es[1..], calls[1..]);
        var more := DurableCalls(c, next, es[1..], calls[1..]);
        assert JournalCrash.DurableTxs(c, head, es) == [e.tx] + txs && ([e.tx] + txs)[1..] == txs;
        assert DurableCalls(c, head, es, calls) == [call] + more && ([call] + more)[1..] == more;
        SameHomeTxs(c, call.after, ApplyWrites(img, HomeWrites(e.tx)), txs);
        SameHomeSound(c, JournalCrash.ApplyTxs(call.after, txs), JournalCrash.ApplyTxs(ApplyWrites(img, HomeWrites(e.tx)), txs));
      } else {
        DurableCallsLead(c, img, next, es[1..], calls[1..]);
        assert JournalCrash.DurableTxs(c, head, es) == txs;
        assert DurableCalls(c, head, es, calls) == DurableCalls(c, next, es[1..], calls[1..]);
      }
    }
  }

  lemma PerformsReplays(c: Config, img: Image, tx: Tx, call: Call)
    requires Performs(c, img, tx, call)
    ensures |call.after| == TOTAL_BLOCKS && Sound(DiskOf(call.after)) && call.r.Ok?
    ensures Namespaces.Step(NodesOf(DiskOf(img)), call.op, NodesOf(DiskOf(call.after)), call.r)
    ensures JournalCrash.SameHome(c, call.after, ApplyWrites(img, HomeWrites(tx)))
  {
    hide Sound, NodesOf, DiskOf, HomeWrites, ApplyWrites, Namespaces.Step, Logs, IsDiff;
    var changed :| IsDiff(c, img, call.after, changed) && Logs(tx, changed, call.after);
    DiffReplays(c, img, call.after, img, changed, tx);
  }

  /** A call made on the engine's image, journal blocks and all, is a call made on any image with the same home blocks. */
  lemma PerformsHome(c: Config, img: Image, actual: Image, tx: Tx, call: Call)
    requires Placed(c) && |img| == TOTAL_BLOCKS && Sound(DiskOf(img)) && JournalCrash.SameHome(c, img, actual)
    ensures Performs(c, actual, tx, call) <==> Performs(c, img, tx, call)
  {
    hide Sound, NodesOf, DiskOf, Namespaces.Step, Logs, KeptExcept, OthersKept, IsDiff;
    SameHomeSound(c, img, actual);
    SameHomeSound(c, actual, img);
    if |call.after| == TOTAL_BLOCKS {
      if OthersKept(DiskOf(actual), DiskOf(call.after), call.op.parent) {
        KeptBefore(DiskOf(img), DiskOf(actual), DiskOf(call.after), call.op.parent);
      }
      if OthersKept(DiskOf(img), DiskOf(call.after), call.op.parent) {
        KeptBefore(DiskOf(actual), DiskOf(img), DiskOf(call.after), call.op.parent);
      }
    }
    forall changed ensures IsDiff(c, actual, call.after, changed) <==> IsDiff(c, img, call.after, changed) {
      SameDiff(c, img, actual, call.after, changed);
    }
  }

  lemma SameDiff(c: Config, a: Image, b: Image, after: Image, changed: seq<nat>)
    requires JournalCrash.SameHome(c, a, b)
    ensures IsDiff(c, b, after, changed) <==> IsDiff(c, a, after, changed)
  {
  }

  lemma KeptBefore(d: Disk, e: Disk, f: Disk, dir: nat)
    requires KeptExcept(d, e, {}) && d.inos == e.inos && OthersKept(e, f, dir)
    ensures OthersKept(d, f, dir)
  {
    hide Kept;
    forall i | Taken(d.inos, i) && Taken(f.inos, i) && i != dir ensures Kept(d, f, i) { KeptTrans(d, e, f, i); }
  }

  /** The file system across crashes. From a sound disk with an empty journal, let operations run, each in its own
      mutation, and let any of them be given up or cut short by a crash at any device operation, recoveries cut short
      included. The disk then holds a sound name space: the one to which exactly the operations whose journal blocks
      were synced lead, in order. A further crash and recovery changes nothing. */
  lemma CrashesKeepNames(c: Config, scan: Scanner, img0: Image, es: seq<JournalCrash.Event>, calls: seq<Call>)
    requires Placed(c) && |img0| == TOTAL_BLOCKS && IsScanner(scan, c.crc, c.start, c.length)
    requires forall a :: c.start <= a < c.start + c.length ==> img0[a] == Zero()
    requires JournalCrash.CoveredRun(c, |img0|, 0, es)
    requires forall i :: 0 <= i < |es| ==> Loggable(es[i].tx)
    requires Sound(DiskOf(img0)) && Calls(c, img0, 0, es, calls)
    ensures var r := JournalCrash.RunFrom(c, scan, JournalCrash.State(JournalCrash.Disk(img0, img0), 0), es).disk;
            var again := RecoverFrom(scan, r.dur, c.length, 0, Unlimited).img;
            && |r.dur| == |again| == TOTAL_BLOCKS && Sound(DiskOf(r.dur)) && Sound(DiskOf(again))
            && Leads(NodesOf(DiskOf(img0)), DurableCalls(c, 0, es, calls), NodesOf(DiskOf(r.dur)))
            && NodesOf(DiskOf(again)) == NodesOf(DiskOf(r.dur))
  {
    hide Sound, NodesOf, DiskOf, Calls, Leads, JournalCrash.RunFrom, RecoverFrom, JournalCrash.CoveredRun, IsScanner, Zero, DurableCalls,
      JournalCrash.ApplyTxs, JournalCrash.DurableTxs;
    JournalCrash.RunIsAtomic(c, scan, img0, es);
    DurableCallsLead(c, img0, 0, es, calls);
    var r := JournalCrash.RunFrom(c, scan, JournalCrash.State(JournalCrash.Disk(img0, img0), 0), es).disk;
    SameHomeSound(c, JournalCrash.ApplyTxs(img0, JournalCrash.DurableTxs(c, 0, es)), r.dur);
    SameHomeSound(c, r.dur, RecoverFrom(scan, r.dur, c.length, 0, Unlimited).img);
  }

  // ---------------------------------------------------------------- file content across crashes

  ghost predicate FileIn(img: Image, i: nat)
    requires |img| == TOTAL_BLOCKS
  {
    i in NodesOf(DiskOf(img)) && NodesOf(DiskOf(img))[i].File?
  }

  /** No call takes file i away. */
  ghost predicate Stays(calls: seq<Call>, i: nat) {
    forall k :: 0 <= k < |calls| ==> |calls[k].after| == TOTAL_BLOCKS && i in NodesOf(DiskOf(calls[k].after))
  }

  /** A call that does not take a file away keeps it: it is not the directory the call changes. */
  lemma CallKeepsFile(c: Config, img: Image, tx: Tx, call: Call, i: nat)
    requires Performs(c, img, tx, call) && |img| == TOTAL_BLOCKS && Sound(DiskOf(img)) && FileIn(img, i)
    requires i in NodesOf(DiskOf(call.after))
    ensures Kept(DiskOf(img), DiskOf(call.after), i) && FileIn(call.after, i)
  {
    hide RecordAt, BlocksOf, NodesOf, DiskOf, Healthy, Names.Inv, Kept;
    NodeAt(DiskOf(img), i);
    NodeAt(DiskOf(call.after), i);
    assert Names.DirAt(NodesOf(DiskOf(img)), call.op.parent) by { StepParent(NodesOf(DiskOf(img)), call); }
    assert Kept(DiskOf(img), DiskOf(call.after), i);
    KeptIsFile(DiskOf(img), DiskOf(call.after), i);
  }

  lemma StepParent(s: Names.Nodes, call: Call)
    requires |call.after| == TOTAL_BLOCKS && call.r.Ok? && Namespaces.Step(s, call.op, NodesOf(DiskOf(call.after)), call.r)
    ensures Names.DirAt(s, call.op.parent)
  {
    hide NodesOf, DiskOf;
  }

  lemma KeptIsFile(d: Disk, e: Disk, i: nat)
    requires Kept(d, e, i) && NodesOf(d)[i].File?
    requires i in NodesOf(d) && i in NodesOf(e)
    ensures NodesOf(e)[i].File?
  {
    hide RecordAt, NodesOf, Entries, BlocksOf;
    NodeAt(d, i);
    NodeAt(e, i);
  }

  lemma {:induction false} DurableCallsKeep(c: Config, img: Image, head: nat, es: seq<JournalCrash.Event>, calls: seq<Call>, i: nat)
    requires Placed(c) && |img| == TOTAL_BLOCKS && Sound(DiskOf(img)) && Calls(c, img, head, es, calls)
    requires forall k :: 0 <= k < |es| ==> Loggable(es[k].tx)
    requires FileIn(img, i) && Stays(DurableCalls(c, head, es, calls), i)
    ensures Kept(DiskOf(img), DiskOf(JournalCrash.ApplyTxs(img, JournalCrash.DurableTxs(c, head, es))), i)
    decreases |es|
  {
    hide Sound, NodesOf, DiskOf, Performs, HomeWrites, ApplyWrites, Namespaces.Step, JournalCrash.Durable, Loggable, Needed,
      JournalCrash.SameHome, Kept, FileIn, KeptExcept;
    if es == [] {
      KeptRefl(img, i);
    } else {
      var e, call, next := es[0], calls[0], head + Needed(|es[0].tx.blocks|);
      var txs := JournalCrash.DurableTxs(c, next, es[1..]);
      var more := DurableCalls(c, next, es[1..], calls[1..]);
      if JournalCrash.Durable(c, head, e) {
        assert JournalCrash.DurableTxs(c, head, es) == [e.tx] + txs && ([e.tx] + txs)[1..] == txs;
        StaysTail(call, more, i);
        PerformsReplays(c, img, e.tx, call);
        CallKeepsFile(c, img, e.tx, call, i);
        DurableCallsKeep(c, call.after, next, es[1..], calls[1..], i);
        var mid, end := JournalCrash.ApplyTxs(call.after, txs), JournalCrash.ApplyTxs(ApplyWrites(img, HomeWrites(e.tx)), txs);
        SameHomeTxs(c, call.after, ApplyWrites(img, HomeWrites(e.tx)), txs);
        DurableCallsLead(c, call.after, next, es[1..], calls[1..]);
        SameHomeSound(c, mid, end);
        KeptTrans(DiskOf(img), DiskOf(call.after), DiskOf(mid), i);
        KeptOn(DiskOf(img), DiskOf(mid), DiskOf(end), i);
      } else {
        assert JournalCrash.DurableTxs(c, head, es) == txs && DurableCalls(c, head, es, calls) == more;
        DurableCallsKeep(c, img, next, es[1..], calls[1..], i);
      }
    }
  }

  lemma KeptRefl(img: Image, i: nat)
    requires |img| == TOTAL_BLOCKS && FileIn(img, i)
    ensures Kept(DiskOf(img), DiskOf(img), i)
  {
    hide RecordAt, BlocksOf, NodesOf, DiskOf, BlockOf, Addr, PosOf;
    NodeAt(DiskOf(img), i);
  }

  lemma StaysTail(call: Call, more: seq<Call>, i: nat)
    requires Stays([call] + more, i)
    ensures |call.after| == TOTAL_BLOCKS && i in NodesOf(DiskOf(call.after)) && Stays(more, i)
  {
    hide NodesOf, DiskOf;
    var all := [call] + more;
    assert all[0] == call;
    forall k | 0 <= k < |more| ensures |more[k].after| == TOTAL_BLOCKS && i in NodesOf(DiskOf(more[k].after)) {
      assert all[k + 1] == more[k];
    }
  }

  lemma KeptOn(d: Disk, e: Disk, f: Disk, i: nat)
    requires Kept(d, e, i) && KeptExcept(e, f, {})
    ensures Kept(d, f, i)
  {
    hide Kept;
    KeptTaken(d, e, i);
    KeptTrans(d, e, f, i);
  }

  /** Inode i has the same size and the same bytes on both disks. */
  ghost predicate SameContent(d: Disk, e: Disk, i: nat) {
    && |d.img| == |e.img| == TOTAL_BLOCKS && 1 <= i <= INODE_COUNT
    && Size(RecordAt(e.img, i)) == Size(RecordAt(d.img, i))
    && forall o: nat :: ByteAt(BlocksOf(e), i, o) == ByteAt(BlocksOf(d), i, o)
  }

  lemma KeptContent(d: Disk, e: Disk, i: nat)
    requires Kept(d, e, i)
    ensures SameContent(d, e, i)
  {
    hide RecordAt, Addr, PosOf;
  }

  /** Crashes lose no file content: whatever operations ran and wherever they were cut short, a file that no synced
      operation took away has the size, the blocks and the bytes it started with. */
  lemma CrashesKeepFiles(c: Config, scan: Scanner, img0: Image, es: seq<JournalCrash.Event>, calls: seq<Call>, i: nat)
    requires Placed(c) && |img0| == TOTAL_BLOCKS && IsScanner(scan, c.crc, c.start, c.length)
    requires forall a :: c.start <= a < c.start + c.length ==> img0[a] == Zero()
    requires JournalCrash.CoveredRun(c, |img0|, 0, es)
    requires forall k :: 0 <= k < |es| ==> Loggable(es[k].tx)
    requires Sound(DiskOf(img0)) && Calls(c, img0, 0, es, calls) && FileIn(img0, i) && Stays(DurableCalls(c, 0, es, calls), i)
    ensures var r := JournalCrash.RunFrom(c, scan, JournalCrash.State(JournalCrash.Disk(img0, img0), 0), es).disk;
            |r.dur| == TOTAL_BLOCKS && Kept(DiskOf(img0), DiskOf(r.dur), i) && SameContent(DiskOf(img0), DiskOf(r.dur), i)
  {
    hide Sound, NodesOf, DiskOf, Calls, Leads, JournalCrash.RunFrom, RecoverFrom, JournalCrash.CoveredRun, IsScanner, Zero, DurableCalls,
      JournalCrash.ApplyTxs, JournalCrash.DurableTxs, Kept, KeptExcept, FileIn, Stays, SameContent;
    JournalCrash.RunIsAtomic(c, scan, img0, es);
    DurableCallsLead(c, img0, 0, es, calls);
    DurableCallsKeep(c, img0, 0, es, calls, i);
    var r := JournalCrash.RunFrom(c, scan, JournalCrash.State(JournalCrash.Disk(img0, img0), 0), es).disk;
    var end := JournalCrash.ApplyTxs(img0, JournalCrash.DurableTxs(c, 0, es));
    SameHomeSound(c, end, r.dur);
    KeptOn(DiskOf(img0), DiskOf(end), DiskOf(r.dur), i);
    KeptContent(DiskOf(img0), DiskOf(r.dur), i);
  }
}
