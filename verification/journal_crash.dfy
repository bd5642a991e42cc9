/** Crash atomicity over whole runs of commits, aborts, crashes and recoveries. */
module JournalCrash {
  import opened Bytes
  import opened Device
  import opened JournalFormat
  import opened JournalReplay
  import opened JournalRecovery
  import opened JournalLog
  import opened JournalRuns
  import opened JournalRestart

  // ---------------------------------------------------------------- the steps of one commit

  datatype Disk = Disk(vol: Image, dur: Image)

  function JournalWrites(c: Config, tx: Tx, off: nat): (r: seq<Write>)
    requires Loggable(tx)
    ensures |r| == Needed(|tx.blocks|)
    ensures forall i :: 0 <= i < |r| ==> r[i] == Write(c.start + off + i, TxImage(c.crc, tx)[i])
  {
    seq(Needed(|tx.blocks|), i requires 0 <= i < Needed(|tx.blocks|) => Write(c.start + off + i, TxImage(c.crc, tx)[i]))
  }

  /** Device operations of a commit: the journal writes, a sync, the home writes, a sync. */
  function CommitSteps(tx: Tx): nat { Needed(|tx.blocks|) + |tx.blocks| + 2 }

  /** Operation m of a commit is a sync. */
  predicate Syncing(tx: Tx, m: nat) {
    m == Needed(|tx.blocks|) || m == Needed(|tx.blocks|) + 1 + |tx.blocks|
  }

  /** The disk after the first m device operations of a commit whose journal offset is off. */
  function DiskAt(c: Config, d: Disk, tx: Tx, off: nat, m: nat): (r: Disk)
    requires Loggable(tx)
    ensures |r.vol| == |d.vol| && (|d.vol| == |d.dur| ==> |r.dur| == |d.dur|)
  {
    if m <= Needed(|tx.blocks|) then Disk(ApplyWrites(d.vol, JournalWrites(c, tx, off)[..m]), d.dur)
    else if m <= Needed(|tx.blocks|) + 1 + |tx.blocks| then
      Disk(ApplyWrites(LoggedImage(c, d, tx, off), HomeWrites(tx)[..m - Needed(|tx.blocks|) - 1]), LoggedImage(c, d, tx, off))
    else
      Disk(AppliedImage(c, d, tx, off), AppliedImage(c, d, tx, off))
  }

  function LoggedImage(c: Config, d: Disk, tx: Tx, off: nat): (r: Image)
    requires Loggable(tx)
    ensures |r| == |d.vol|
  {
    ApplyWrites(d.vol, JournalWrites(c, tx, off))
  }

  function AppliedImage(c: Config, d: Disk, tx: Tx, off: nat): (r: Image)
    requires Loggable(tx)
    ensures |r| == |d.vol|
  {
    ApplyWrites(LoggedImage(c, d, tx, off), HomeWrites(tx))
  }

  /** What a crash during operation m leaves on the disk: inside a sync, any mixture of old and new blocks. */
  function CrashImage(d: Disk, tx: Tx, m: nat, persisted: set<nat>): Image
    requires |d.vol| == |d.dur|
  {
    if Syncing(tx, m) then Persist(d.dur, d.vol, persisted) else d.dur
  }

  // ---------------------------------------------------------------- runs

  /** One commit attempt: completed, given up before its journal sync and rolled back, or cut short by a crash
      during device operation m. A crash is followed by recoveries that are cut short in turn, and one that is not. */
  datatype Event =
    | Completed(tx: Tx)
    | Aborted(tx: Tx, m: nat)
    | Crashed(tx: Tx, m: nat, persisted: set<nat>, retries: seq<Retry>)

  datatype State = State(disk: Disk, head: nat)

  function Step(c: Config, scan: Scanner, s: State, e: Event): (r: State)
    requires Loggable(e.tx) && |s.disk.vol| == |s.disk.dur|
    ensures |r.disk.vol| == |r.disk.dur|
  {
    var head := s.head + Needed(|e.tx.blocks|);
    match e
    case Completed(tx) => State(DiskAt(c, s.disk, tx, s.head, CommitSteps(tx)), head)
    case Aborted(tx, m) =>
      var dur := DiskAt(c, s.disk, tx, s.head, m).dur;
      State(Disk(dur, dur), head)
    case Crashed(tx, m, persisted, retries) =>
      var crashed := CrashImage(DiskAt(c, s.disk, tx, s.head, m), tx, m, persisted);
      var left := AfterRetries(scan, c.length, crashed, retries);
      var img := RecoverFrom(scan, left, c.length, 0, Unlimited).img;
      State(Disk(img, img), head)
  }

  /** The journal blocks of the transaction that a crash inside its journal sync left behind. */
  function Kept(c: Config, head: nat, e: Event): (kept: set<nat>)
    requires e.Crashed?
    ensures forall k: nat :: k < Needed(|e.tx.blocks|) ==> (k in kept <==> c.start + head + k in e.persisted)
  {
    var lo := c.start + head;
    set a | a in e.persisted && lo <= a < lo + Needed(|e.tx.blocks|) :: a - lo
  }

  /** The transaction reached the journal whole. */
  predicate Durable(c: Config, head: nat, e: Event)
    requires Loggable(e.tx)
  {
    match e
    case Completed(_) => true
    case Aborted(_, _) => false
    case Crashed(tx, m, _, _) =>
      || m > Needed(|tx.blocks|)
      || (m == Needed(|tx.blocks|) && TornImage(c.crc, tx, Kept(c, head, e)) == TxImage(c.crc, tx))
  }

  /** A step the theorem covers: the head does not wrap, and a torn journal write can be told from a whole one. */
  ghost predicate Covered(c: Config, size: nat, head: nat, e: Event) {
    && GoodTx(c, size, e.tx)
    && head + Needed(|e.tx.blocks|) <= c.length
    && (e.Aborted? ==> e.m <= Needed(|e.tx.blocks|))
    && (e.Crashed? ==> e.m <= CommitSteps(e.tx))
    && (e.Crashed? && e.m == Needed(|e.tx.blocks|) ==> Durable(c, head, e) || Detectable(c, e.tx, Kept(c, head, e)))
  }

  ghost predicate CoveredRun(c: Config, size: nat, head: nat, es: seq<Event>)
    decreases |es|
  {
    es == [] || (Covered(c, size, head, es[0]) && CoveredRun(c, size, head + Needed(|es[0].tx.blocks|), es[1..]))
  }

  /** The transactions of a run that reached the journal whole, in order. */
  function DurableTxs(c: Config, head: nat, es: seq<Event>): seq<Tx>
    requires forall i :: 0 <= i < |es| ==> Loggable(es[i].tx)
    decreases |es|
  {
    if es == [] then []
    else
      (if Durable(c, head, es[0]) then [es[0].tx] else [])
      + DurableTxs(c, head + Needed(|es[0].tx.blocks|), es[1..])
  }

  /** The image after the given transactions, one after the other. */
  function ApplyTxs(img: Image, txs: seq<Tx>): (r: Image)
    ensures |r| == |img|
    decreases |txs|
  {
    if txs == [] then img else ApplyTxs(ApplyWrites(img, HomeWrites(txs[0])), txs[1..])
  }

  // ---------------------------------------------------------------- effect of a run of block writes

  /** Consecutive blocks written from base on replace exactly that range. */
  lemma {:induction false} WriteRange(img: Image, base: nat, blocks: seq<Block>, ws: seq<Write>, m: nat)
    requires |ws| == |blocks| && base + |blocks| <= |img| && m <= |ws|
    requires forall i :: 0 <= i < |ws| ==> ws[i] == Write(base + i, blocks[i])
    ensures forall a :: 0 <= a < |img| ==>
              ApplyWrites(img, ws[..m])[a] == if base <= a < base + m then blocks[a - base] else img[a]
  {
    if m > 0 {
      WriteRange(img, base, blocks, ws, m - 1);
      assert ws[..m][..m - 1] == ws[..m - 1];
      assert ws[..m][m - 1] == ws[m - 1];
    }
  }

  lemma LoggedImageBlocks(c: Config, d: Disk, tx: Tx, off: nat)
    requires Loggable(tx) && c.start + off + Needed(|tx.blocks|) <= |d.vol|
    ensures forall a :: 0 <= a < |d.vol| ==>
              LoggedImage(c, d, tx, off)[a] == if c.start + off <= a < c.start + off + Needed(|tx.blocks|)
                                               then TxImage(c.crc, tx)[a - c.start - off] else d.vol[a]
  {
    hide TxImage, ApplyWrites;
    var ws := JournalWrites(c, tx, off);
    WriteRange(d.vol, c.start + off, TxImage(c.crc, tx), ws, |ws|);
    assert ws[..|ws|] == ws;
  }

  // ---------------------------------------------------------------- the log grows at its end

  lemma {:induction false} PrefixStable(img: Image, log: seq<Segment>, more: seq<Segment>, i: nat)
    requires i <= |log|
    ensures Off(log + more, i) == Off(log, i)
    ensures ApplyLog(img, log + more, i) == ApplyLog(img, log, i)
  {
    if i > 0 {
      PrefixStable(img, log, more, i - 1);
      assert (log + more)[i - 1] == log[i - 1];
    }
  }

  /** Writing a segment right behind the log extends the log. */
  lemma ExtendLog(c: Config, before: Image, img: Image, log: seq<Segment>, s: Segment)
    requires HoldsLog(c, before, log) && |img| == |before|
    requires GoodSegment(c, |img|, s) && Off(log, |log|) + SegLength(s) <= c.length
    requires SegAt(c, img, s, Off(log, |log|))
    requires forall a: nat :: InJournal(c, a) && !(c.start + Off(log, |log|) <= a < c.start + Off(log, |log|) + SegLength(s))
                       ==> img[a] == before[a]
    ensures HoldsLog(c, img, log + [s])
    ensures Off(log + [s], |log + [s]|) == Off(log, |log|) + SegLength(s)
  {
    hide SegAt, GoodSegment, SegLength, Off;
    var all, head := log + [s], Off(log, |log|);
    PrefixStable(img, log, [s], |log|);
    OffLast(all);
    forall i | 0 <= i < |all| ensures GoodSegment(c, |img|, all[i]) && SegAt(c, img, all[i], Off(all, i)) {
      if i < |log| {
        PrefixStable(img, log, [s], i);
        HoldsSegment(c, before, log, i);
        OffMonotone(log, i + 1, |log|);
        assert all[i] == log[i];
        SegmentMoves(c, before, img, log[i], Off(log, i), head);
      }
    }
  }

  lemma OffLast(log: seq<Segment>)
    requires log != []
    ensures Off(log, |log|) == Off(log, |log| - 1) + SegLength(log[|log| - 1])
  {
  }

  lemma SegmentMoves(c: Config, before: Image, img: Image, s: Segment, off: nat, head: nat)
    requires SegAt(c, before, s, off) && off + SegLength(s) <= head <= c.length && |img| == |before|
    requires forall a: nat :: c.start <= a < c.start + head ==> a < |img| && img[a] == before[a]
    ensures SegAt(c, img, s, off)
  {
    hide SegImage;
  }

  function Gaps(n: nat): (r: seq<Segment>)
    ensures |r| == n && forall i :: 0 <= i < n ==> r[i] == Gap
  {
    seq(n, _ => Gap)
  }

  /** Blocks skipped over and never written are part of the log. */
  lemma {:induction false} ExtendWithGaps(c: Config, img: Image, log: seq<Segment>, n: nat)
    requires HoldsLog(c, img, log) && Off(log, |log|) + n <= c.length
    ensures HoldsLog(c, img, log + Gaps(n))
    ensures Off(log + Gaps(n), |log| + n) == Off(log, |log|) + n
    ensures forall base: Image :: ApplyLog(base, log + Gaps(n), |log| + n) == ApplyLog(base, log, |log|)
  {
    hide HoldsLog;
    if n == 0 {
      assert log + Gaps(0) == log;
    } else {
      ExtendWithGaps(c, img, log, n - 1);
      var front := log + Gaps(n - 1);
      assert log + Gaps(n) == front + [Gap];
      GapBehind(c, img, front);
      ExtendLog(c, img, img, front, Gap);
      forall base: Image ensures ApplyLog(base, log + Gaps(n), |log| + n) == ApplyLog(base, log, |log|) {
        PrefixStable(base, front, [Gap], |front|);
      }
    }
  }

  lemma GapBehind(c: Config, img: Image, log: seq<Segment>)
    requires HoldsLog(c, img, log) && Off(log, |log|) < c.length
    ensures SegAt(c, img, Gap, Off(log, |log|)) && c.start + c.length <= |img|
  {
    hide SegLength, Off, Zero;
  }

  // ---------------------------------------------------------------- home blocks

  /** Both images hold the same blocks outside the journal. */
  ghost predicate SameHome(c: Config, a: Image, b: Image) {
    |a| == |b| && forall x: nat :: x < |a| && !InJournal(c, x) ==> a[x] == b[x]
  }

  ghost predicate TouchedBy(log: seq<Segment>, i: nat, x: nat)
    requires i <= |log|
  {
    exists k :: 0 <= k < i && log[k].Logged? && Touches(HomeWrites(log[k].tx), x)
  }

  /** A block that some replayed transaction holds, or that starts out the same, ends the same. */
  lemma {:induction false} ReplayPoint(a: Image, b: Image, log: seq<Segment>, i: nat, x: nat)
    requires i <= |log| && x < |a| == |b|
    requires a[x] == b[x] || TouchedBy(log, i, x)
    ensures ApplyLog(a, log, i)[x] == ApplyLog(b, log, i)[x]
  {
    hide HomeWrites, ApplyWrites, Touches;
    if i > 0 {
      var s := log[i - 1];
      if s.Logged? {
        if !Touches(HomeWrites(s.tx), x) {
          ReplayPoint(a, b, log, i - 1, x);
        }
        ApplyOverwrites(ApplyLog(a, log, i - 1), ApplyLog(b, log, i - 1), HomeWrites(s.tx), x);
      } else {
        ReplayPoint(a, b, log, i - 1, x);
      }
    }
  }

  lemma {:induction false} ReplayUntouched(a: Image, log: seq<Segment>, i: nat, x: nat)
    requires i <= |log| && x < |a| && !TouchedBy(log, i, x)
    ensures ApplyLog(a, log, i)[x] == a[x]
  {
    hide HomeWrites, ApplyWrites, Touches;
    if i > 0 {
      ReplayUntouched(a, log, i - 1, x);
      if log[i - 1].Logged? {
        ApplyFrame(ApplyLog(a, log, i - 1), HomeWrites(log[i - 1].tx), x);
      }
    }
  }

  /** Replaying the log over an image that differs from its result only on replayed blocks gives that result. */
  lemma ReplayIdempotent(c: Config, base: Image, left: Image, log: seq<Segment>)
    requires |left| == |base|
    requires forall x: nat :: x < |left| && !InJournal(c, x) && !TouchedBy(log, |log|, x)
                       ==> left[x] == ApplyLog(base, log, |log|)[x]
    ensures SameHome(c, ApplyLog(left, log, |log|), ApplyLog(base, log, |log|))
  {
    hide ApplyLog, TouchedBy;
    forall x: nat | x < |left| && !InJournal(c, x)
      ensures ApplyLog(left, log, |log|)[x] == ApplyLog(base, log, |log|)[x]
    {
      if !TouchedBy(log, |log|, x) {
        ReplayUntouched(base, log, |log|, x);
      }
      ReplayPoint(left, base, log, |log|, x);
    }
  }

  // ---------------------------------------------------------------- the invariant of a run

  /** Between commits: memory and disk agree, the journal holds the log, and every home block is what the
      log's transactions made of the initial image. */
  ghost predicate Inv(c: Config, img0: Image, s: State, log: seq<Segment>) {
    && s.disk.vol == s.disk.dur
    && HoldsLog(c, s.disk.dur, log)
    && s.head == Off(log, |log|)
    && SameHome(c, s.disk.dur, ApplyLog(img0, log, |log|))
  }

  /** What an event adds to the log. */
  function Added(c: Config, head: nat, e: Event): seq<Segment>
    requires Loggable(e.tx)
  {
    if Durable(c, head, e) then [Logged(e.tx)]
    else if e.Crashed? && e.m == Needed(|e.tx.blocks|) then [Torn(e.tx, Kept(c, head, e))]
    else Gaps(Needed(|e.tx.blocks|))
  }

  /** After the journal sync only home blocks of the transaction can differ from the synced image. */
  lemma AfterJournalSync(c: Config, d: Disk, tx: Tx, off: nat, m: nat, persisted: set<nat>, a: nat)
    requires GoodTx(c, |d.vol|, tx) && |d.vol| == |d.dur| && a < |d.vol|
    requires Needed(|tx.blocks|) < m <= CommitSteps(tx)
    ensures var left := CrashImage(DiskAt(c, d, tx, off, m), tx, m, persisted);
            && |left| == |d.vol|
            && (left[a] == LoggedImage(c, d, tx, off)[a] || Touches(HomeWrites(tx), a))
            && (InJournal(c, a) ==> left[a] == LoggedImage(c, d, tx, off)[a])
  {
    hide LoggedImage, ApplyWrites, Touches;
    HomeOutside(c, |d.vol|, tx, a);
    if !Touches(HomeWrites(tx), a) {
      var k := Min(m - Needed(|tx.blocks|) - 1, |tx.blocks|);
      TouchesPrefix(HomeWrites(tx), k, a);
      ApplyFrame(LoggedImage(c, d, tx, off), HomeWrites(tx)[..k], a);
      ApplyFrame(LoggedImage(c, d, tx, off), HomeWrites(tx), a);
    }
  }

  lemma HomeOutside(c: Config, size: nat, tx: Tx, a: nat)
    requires GoodTx(c, size, tx)
    ensures InJournal(c, a) ==> !Touches(HomeWrites(tx), a)
  {
  }

  /** The image a sync of the logged transaction leaves holds the longer log. */
  lemma LoggedExtends(c: Config, d: Disk, tx: Tx, log: seq<Segment>, left: Image)
    requires HoldsLog(c, d.dur, log) && d.vol == d.dur && GoodTx(c, |d.dur|, tx) && |left| == |d.dur|
    requires Off(log, |log|) + Needed(|tx.blocks|) <= c.length
    requires forall a: nat :: InJournal(c, a) && a < |left| ==> left[a] == LoggedImage(c, d, tx, Off(log, |log|))[a]
    ensures HoldsLog(c, left, log + [Logged(tx)])
    ensures Off(log + [Logged(tx)], |log| + 1) == Off(log, |log|) + Needed(|tx.blocks|)
  {
    hide HoldsLog, TxImage, LoggedImage, Off, SegAt;
    HoldsBounds(c, d.dur, log);
    LoggedImageBlocks(c, d, tx, Off(log, |log|));
    SegAtLoggedIntro(c, left, tx, Off(log, |log|));
    ExtendLog(c, d.dur, left, log, Logged(tx));
  }

  lemma HoldsBounds(c: Config, img: Image, log: seq<Segment>)
    requires HoldsLog(c, img, log)
    ensures Off(log, |log|) <= c.length && c.start + c.length <= |img|
    ensures forall a :: c.start + Off(log, |log|) <= a < c.start + c.length ==> img[a] == Zero()
  {
    hide Off, SegAt, GoodSegment, Zero;
  }

  lemma SegAtLoggedIntro(c: Config, img: Image, tx: Tx, off: nat)
    requires Loggable(tx) && BlocksAt(img, c.start + off, TxImage(c.crc, tx))
    ensures SegAt(c, img, Logged(tx), off)
  {
    hide TxImage, BlocksAt;
  }

  lemma SegAtTornIntro(c: Config, img: Image, tx: Tx, kept: set<nat>, off: nat)
    requires Loggable(tx) && BlocksAt(img, c.start + off, TornImage(c.crc, tx, kept))
    ensures SegAt(c, img, Torn(tx, kept), off)
  {
    hide TornImage, BlocksAt;
  }

  /** A crash inside the journal sync changes the journal blocks behind the log, and nothing else. */
  lemma TornBlocks(c: Config, d: Disk, e: Event, head: nat, a: nat)
    requires d.vol == d.dur && Loggable(e.tx) && c.start + head + Needed(|e.tx.blocks|) <= |d.dur|
    requires e.Crashed? && e.m == Needed(|e.tx.blocks|) && a < |d.dur|
    requires forall x :: c.start + head <= x < c.start + head + Needed(|e.tx.blocks|) ==> d.dur[x] == Zero()
    ensures var left := CrashImage(DiskAt(c, d, e.tx, head, e.m), e.tx, e.m, e.persisted);
            && |left| == |d.dur|
            && left[a] == if c.start + head <= a < c.start + head + Needed(|e.tx.blocks|)
                          then TornImage(c.crc, e.tx, Kept(c, head, e))[a - c.start - head] else d.dur[a]
  {
    hide TxImage, DiskAt, CrashImage, LoggedImage, Kept, Zero;
    LoggedImageBlocks(c, d, e.tx, head);
    CrashInJournalSync(c, d, e.tx, head, e.persisted);
    if c.start + head <= a < c.start + head + Needed(|e.tx.blocks|) {
      var k: nat := a - c.start - head;
      assert k in Kept(c, head, e) <==> a in e.persisted;
    }
  }

  lemma CrashInJournalSync(c: Config, d: Disk, tx: Tx, head: nat, persisted: set<nat>)
    requires Loggable(tx) && |d.vol| == |d.dur|
    ensures CrashImage(DiskAt(c, d, tx, head, Needed(|tx.blocks|)), tx, Needed(|tx.blocks|), persisted)
         == Persist(d.dur, LoggedImage(c, d, tx, head), persisted)
  {
    hide ApplyWrites, TxImage;
    var ws := JournalWrites(c, tx, head);
    assert ws[..Needed(|tx.blocks|)] == ws;
  }

  lemma TornExtends(c: Config, d: Disk, e: Event, log: seq<Segment>)
    requires HoldsLog(c, d.dur, log) && d.vol == d.dur && GoodTx(c, |d.dur|, e.tx)
    requires Off(log, |log|) + Needed(|e.tx.blocks|) <= c.length
    requires e.Crashed? && e.m == Needed(|e.tx.blocks|)
    requires Detectable(c, e.tx, Kept(c, Off(log, |log|), e))
    ensures var left := CrashImage(DiskAt(c, d, e.tx, Off(log, |log|), e.m), e.tx, e.m, e.persisted);
            var torn := Torn(e.tx, Kept(c, Off(log, |log|), e));
            && |left| == |d.dur| && SameHome(c, left, d.dur)
            && HoldsLog(c, left, log + [torn])
            && Off(log + [torn], |log| + 1) == Off(log, |log|) + Needed(|e.tx.blocks|)
  {
    hide HoldsLog, TornImage, Off, Detectable, DiskAt, CrashImage, SegAt, Zero, Kept;
    var head, kept := Off(log, |log|), Kept(c, Off(log, |log|), e);
    var left := CrashImage(DiskAt(c, d, e.tx, head, e.m), e.tx, e.m, e.persisted);
    HoldsBounds(c, d.dur, log);
    TornBlocks(c, d, e, head, c.start + head);
    forall a: nat | a < |d.dur|
      ensures left[a] == if c.start + head <= a < c.start + head + Needed(|e.tx.blocks|)
                         then TornImage(c.crc, e.tx, kept)[a - c.start - head] else d.dur[a]
    {
      TornBlocks(c, d, e, head, a);
    }
    assert BlocksAt(left, c.start + head, TornImage(c.crc, e.tx, kept));
    SegAtTornIntro(c, left, e.tx, kept, head);
    ExtendLog(c, d.dur, left, log, Torn(e.tx, kept));
  }

  // ---------------------------------------------------------------- one event

  lemma TouchedByLonger(log: seq<Segment>, more: seq<Segment>, x: nat)
    requires TouchedBy(log, |log|, x)
    ensures TouchedBy(log + more, |log + more|, x)
  {
    var k :| 0 <= k < |log| && log[k].Logged? && Touches(HomeWrites(log[k].tx), x);
    assert (log + more)[k] == log[k];
  }

  /** Recovery of what a crash left: only blocks of logged transactions may differ from the last good image. */
  lemma RecoverLeft(c: Config, scan: Scanner, img0: Image, dur: Image, left: Image, log: seq<Segment>, more: seq<Segment>)
    requires IsScanner(scan, c.crc, c.start, c.length)
    requires HoldsLog(c, left, log + more)
    requires SameHome(c, dur, ApplyLog(img0, log, |log|)) && |left| == |dur|
    requires forall x: nat :: x < |left| && !InJournal(c, x) ==> left[x] == dur[x] || TouchedBy(log + more, |log + more|, x)
    ensures var r := RecoverFrom(scan, left, c.length, 0, Unlimited);
            && r.ok && HoldsLog(c, r.img, log + more)
            && SameHome(c, r.img, ApplyLog(img0, log + more, |log + more|))
  {
    hide IsScanner, HoldsLog, RecoverFrom, ApplyLog, TouchedBy;
    var all := log + more;
    RecoverLog(c, scan, left, all, |all|);
    forall x: nat | x < |left| && !InJournal(c, x) && !TouchedBy(all, |all|, x)
      ensures left[x] == ApplyLog(img0, all, |all|)[x]
    {
      if TouchedBy(log, |log|, x) { TouchedByLonger(log, more, x); }
      ReplayUntouched(img0, log, |log|, x);
      ReplayUntouched(img0, all, |all|, x);
    }
    ReplayIdempotent(c, img0, left, all);
  }

  /** The same after recoveries that were cut short. */
  lemma RecoverRetried(c: Config, scan: Scanner, img0: Image, dur: Image, left: Image, log: seq<Segment>, more: seq<Segment>,
                       retries: seq<Retry>)
    requires IsScanner(scan, c.crc, c.start, c.length)
    requires HoldsLog(c, left, log + more)
    requires SameHome(c, dur, ApplyLog(img0, log, |log|)) && |left| == |dur|
    requires forall x: nat :: x < |left| && !InJournal(c, x) ==> left[x] == dur[x] || TouchedBy(log + more, |log + more|, x)
    ensures var r := RecoverFrom(scan, AfterRetries(scan, c.length, left, retries), c.length, 0, Unlimited);
            && r.ok && HoldsLog(c, r.img, log + more)
            && SameHome(c, r.img, ApplyLog(img0, log + more, |log + more|))
  {
    hide IsScanner, HoldsLog, RecoverFrom, ApplyLog, TouchedBy, AfterRetries;
    RecoverLeft(c, scan, img0, dur, left, log, more);
    RetriesConverge(c, scan, left, log + more, retries);
  }

  lemma LastTouches(log: seq<Segment>, tx: Tx, x: nat)
    requires Touches(HomeWrites(tx), x)
    ensures TouchedBy(log + [Logged(tx)], |log| + 1, x)
  {
    assert (log + [Logged(tx)])[|log|] == Logged(tx);
  }

  /** A crash after the journal sync. */
  lemma CrashAfterSync(c: Config, scan: Scanner, img0: Image, s: State, log: seq<Segment>, e: Event)
    requires IsScanner(scan, c.crc, c.start, c.length)
    requires Inv(c, img0, s, log) && Covered(c, |s.disk.dur|, s.head, e)
    requires e.Crashed? && e.m > Needed(|e.tx.blocks|)
    ensures Inv(c, img0, Step(c, scan, s, e), log + [Logged(e.tx)])
  {
    hide IsScanner, HoldsLog, RecoverFrom, AfterRetries, ApplyLog, TouchedBy, DiskAt, CrashImage, Off, LoggedImage, Touches, Detectable;
    var d := s.disk;
    var left := CrashImage(DiskAt(c, d, e.tx, s.head, e.m), e.tx, e.m, e.persisted);
    HoldsBounds(c, d.dur, log);
    LoggedImageBlocks(c, d, e.tx, s.head);
    AfterJournalSync(c, d, e.tx, s.head, e.m, e.persisted, c.start);
    forall a: nat | a < |left|
      ensures InJournal(c, a) ==> left[a] == LoggedImage(c, d, e.tx, s.head)[a]
      ensures !InJournal(c, a) ==> left[a] == d.dur[a] || TouchedBy(log + [Logged(e.tx)], |log| + 1, a)
    {
      AfterJournalSync(c, d, e.tx, s.head, e.m, e.persisted, a);
      if Touches(HomeWrites(e.tx), a) { LastTouches(log, e.tx, a); }
    }
    LoggedExtends(c, d, e.tx, log, left);
    RecoverRetried(c, scan, img0, d.dur, left, log, [Logged(e.tx)], e.retries);
  }

  /** A crash inside the journal sync. */
  lemma CrashInSync(c: Config, scan: Scanner, img0: Image, s: State, log: seq<Segment>, e: Event)
    requires IsScanner(scan, c.crc, c.start, c.length)
    requires Inv(c, img0, s, log) && Covered(c, |s.disk.dur|, s.head, e)
    requires e.Crashed? && e.m == Needed(|e.tx.blocks|)
    ensures Inv(c, img0, Step(c, scan, s, e), log + Added(c, s.head, e))
  {
    hide IsScanner, HoldsLog, RecoverFrom, AfterRetries, ApplyLog, TouchedBy, DiskAt, CrashImage, Off, LoggedImage, Kept, TornImage, TxImage, Detectable;
    var d := s.disk;
    var left := CrashImage(DiskAt(c, d, e.tx, s.head, e.m), e.tx, e.m, e.persisted);
    HoldsBounds(c, d.dur, log);
    if Durable(c, s.head, e) {
      LoggedImageBlocks(c, d, e.tx, s.head);
      TornBlocks(c, d, e, s.head, c.start + s.head);
      forall a: nat | a < |left| ensures left[a] == LoggedImage(c, d, e.tx, s.head)[a] {
        TornBlocks(c, d, e, s.head, a);
      }
      LoggedExtends(c, d, e.tx, log, left);
    } else {
      TornExtends(c, d, e, log);
    }
    RecoverRetried(c, scan, img0, d.dur, left, log, Added(c, s.head, e), e.retries);
  }

  /** A crash, or an abort, before the journal sync: the disk is untouched. */
  lemma StopBeforeSync(c: Config, scan: Scanner, img0: Image, s: State, log: seq<Segment>, e: Event)
    requires IsScanner(scan, c.crc, c.start, c.length)
    requires Inv(c, img0, s, log) && Covered(c, |s.disk.dur|, s.head, e)
    requires e.Aborted? || (e.Crashed? && e.m < Needed(|e.tx.blocks|))
    ensures Inv(c, img0, Step(c, scan, s, e), log + Gaps(Needed(|e.tx.blocks|)))
  {
    hide IsScanner, HoldsLog, RecoverFrom, AfterRetries, ApplyLog, TouchedBy, Off, ApplyWrites, Detectable;
    ExtendWithGaps(c, s.disk.dur, log, Needed(|e.tx.blocks|));
    RecoverRetried(c, scan, img0, s.disk.dur, s.disk.dur, log, Gaps(Needed(|e.tx.blocks|)), if e.Crashed? then e.retries else []);
  }

  lemma CommitCompletes(c: Config, img0: Image, s: State, log: seq<Segment>, tx: Tx)
    requires Inv(c, img0, s, log) && Covered(c, |s.disk.dur|, s.head, Completed(tx))
    ensures Inv(c, img0, State(DiskAt(c, s.disk, tx, s.head, CommitSteps(tx)), s.head + Needed(|tx.blocks|)),
                log + [Logged(tx)])
  {
    hide HoldsLog, ApplyWrites, Off, LoggedImage, TxImage;
    var d, all := s.disk, log + [Logged(tx)];
    var after := AppliedImage(c, d, tx, s.head);
    HoldsBounds(c, d.dur, log);
    LoggedImageBlocks(c, d, tx, s.head);
    forall a: nat | a < |after| && InJournal(c, a) ensures after[a] == LoggedImage(c, d, tx, s.head)[a] {
      HomeOutside(c, |after|, tx, a);
      ApplyFrame(LoggedImage(c, d, tx, s.head), HomeWrites(tx), a);
    }
    LoggedExtends(c, d, tx, log, after);
    PrefixStable(img0, log, [Logged(tx)], |log|);
    forall x: nat | x < |after| && !InJournal(c, x) ensures after[x] == ApplyLog(img0, all, |all|)[x] {
      ApplyOverwrites(LoggedImage(c, d, tx, s.head), ApplyLog(img0, log, |log|), HomeWrites(tx), x);
    }
  }

  lemma StepKeepsInv(c: Config, scan: Scanner, img0: Image, s: State, log: seq<Segment>, e: Event)
    requires IsScanner(scan, c.crc, c.start, c.length)
    requires Inv(c, img0, s, log) && Covered(c, |s.disk.dur|, s.head, e)
    ensures Inv(c, img0, Step(c, scan, s, e), log + Added(c, s.head, e))
  {
    hide IsScanner, Inv, Covered, RecoverFrom, AfterRetries, DiskAt, CrashImage, Kept;
    if e.Completed? {
      CommitCompletes(c, img0, s, log, e.tx);
    } else if e.Crashed? && e.m > Needed(|e.tx.blocks|) {
      CrashAfterSync(c, scan, img0, s, log, e);
    } else if e.Crashed? && e.m == Needed(|e.tx.blocks|) {
      CrashInSync(c, scan, img0, s, log, e);
    } else {
      StopBeforeSync(c, scan, img0, s, log, e);
    }
  }

  // ---------------------------------------------------------------- a commit that reports an error

  /** A commit that fails after its journal sync is reported as an error and memory goes back to the durable image,
      but the transaction is in the journal: the next recovery applies it. When the first home write failed,
      callers meanwhile see every block as it was before. */
  lemma ReportedFailureComesBack(c: Config, scan: Scanner, img0: Image, s: State, log: seq<Segment>, tx: Tx, m: nat, persisted: set<nat>)
    requires IsScanner(scan, c.crc, c.start, c.length)
    requires Inv(c, img0, s, log) && GoodTx(c, |s.disk.dur|, tx) && s.head + Needed(|tx.blocks|) <= c.length
    requires Needed(|tx.blocks|) < m < CommitSteps(tx)
    ensures var reloaded := CrashImage(DiskAt(c, s.disk, tx, s.head, m), tx, m, persisted);
            var recovered := RecoverFrom(scan, reloaded, c.length, 0, Unlimited).img;
            && SameHome(c, recovered, ApplyWrites(ApplyLog(img0, log, |log|), HomeWrites(tx)))
            && (m == Needed(|tx.blocks|) + 1 ==> SameHome(c, reloaded, s.disk.dur))
  {
    hide IsScanner, RecoverFrom, ApplyLog, Off, HoldsLog, ApplyWrites, HomeWrites;
    var e := Crashed(tx, m, persisted, []);
    CrashAfterSync(c, scan, img0, s, log, e);
    AddedApplies(c, img0, log, s.head, e);
    if m == Needed(|tx.blocks|) + 1 { JustSynced(c, s, log, tx, persisted); }
  }

  lemma JustSynced(c: Config, s: State, log: seq<Segment>, tx: Tx, persisted: set<nat>)
    requires Loggable(tx) && s.disk.vol == s.disk.dur && HoldsLog(c, s.disk.dur, log) && s.head == Off(log, |log|)
    requires s.head + Needed(|tx.blocks|) <= c.length
    ensures var m := Needed(|tx.blocks|) + 1;
            SameHome(c, CrashImage(DiskAt(c, s.disk, tx, s.head, m), tx, m, persisted), s.disk.dur)
  {
    hide HoldsLog, Off, LoggedImage, TxImage, Zero;
    HoldsBounds(c, s.disk.dur, log);
    LoggedImageBlocks(c, s.disk, tx, s.head);
    var logged := LoggedImage(c, s.disk, tx, s.head);
    assert HomeWrites(tx)[..0] == [];
    assert ApplyWrites(logged, []) == logged;
  }

  /** What an event does to the logged history. */
  lemma AddedApplies(c: Config, img0: Image, log: seq<Segment>, head: nat, e: Event)
    requires Loggable(e.tx)
    ensures var all := log + Added(c, head, e);
            ApplyLog(img0, all, |all|) == if Durable(c, head, e) then ApplyWrites(ApplyLog(img0, log, |log|), HomeWrites(e.tx))
                                          else ApplyLog(img0, log, |log|)
  {
    hide Durable, HomeWrites, ApplyWrites, Needed;
    var more := Added(c, head, e);
    PrefixStable(img0, log, more, |log|);
    if |more| == 1 {
      assert (log + more)[|log|] == more[0];
    } else {
      GapsApply(img0, log, |more|);
    }
  }

  lemma {:induction false} GapsApply(img0: Image, log: seq<Segment>, n: nat)
    ensures ApplyLog(img0, log + Gaps(n), |log| + n) == ApplyLog(img0, log, |log|)
  {
    if n == 0 {
      assert log + Gaps(0) == log;
    } else {
      GapsApply(img0, log, n - 1);
      var front := log + Gaps(n - 1);
      assert log + Gaps(n) == front + [Gap];
      PrefixStable(img0, front, [Gap], |front|);
    }
  }

  function RunFrom(c: Config, scan: Scanner, s: State, es: seq<Event>): State
    requires forall i :: 0 <= i < |es| ==> Loggable(es[i].tx)
    requires |s.disk.vol| == |s.disk.dur|
    decreases |es|
  {
    if es == [] then s else RunFrom(c, scan, Step(c, scan, s, es[0]), es[1..])
  }

  lemma {:induction false} CoveredIsLoggable(c: Config, size: nat, head: nat, es: seq<Event>)
    requires CoveredRun(c, size, head, es)
    ensures forall i :: 0 <= i < |es| ==> Loggable(es[i].tx)
    decreases |es|
  {
    if es != [] {
      CoveredIsLoggable(c, size, head + Needed(|es[0].tx.blocks|), es[1..]);
      assert forall i :: 1 <= i < |es| ==> es[i] == es[1..][i - 1];
    }
  }

  lemma {:induction false} RunKeepsInv(c: Config, scan: Scanner, img0: Image, s: State, log: seq<Segment>, es: seq<Event>)
    requires IsScanner(scan, c.crc, c.start, c.length)
    requires Inv(c, img0, s, log) && CoveredRun(c, |img0|, s.head, es)
    requires forall i :: 0 <= i < |es| ==> Loggable(es[i].tx)
    ensures var r := RunFrom(c, scan, s, es).disk;
            && r.vol == r.dur
            && SameHome(c, r.dur, ApplyTxs(ApplyLog(img0, log, |log|), DurableTxs(c, s.head, es)))
            && SameHome(c, RecoverFrom(scan, r.dur, c.length, 0, Unlimited).img, r.dur)
    decreases |es|
  {
    hide IsScanner, Covered, RecoverFrom, Durable, Step, HoldsLog, ApplyLog, Added;
    if es == [] {
      assert log + [] == log;
      RecoverLeft(c, scan, img0, s.disk.dur, s.disk.dur, log, []);
    } else {
      StepKeepsInv(c, scan, img0, s, log, es[0]);
      AddedApplies(c, img0, log, s.head, es[0]);
      var next := Step(c, scan, s, es[0]);
      StepHead(c, scan, s, es[0]);
      RunKeepsInv(c, scan, img0, next, log + Added(c, s.head, es[0]), es[1..]);
      DurableTxsStep(img0, c, s.head, es, ApplyLog(img0, log, |log|));
    }
  }

  lemma StepHead(c: Config, scan: Scanner, s: State, e: Event)
    requires Loggable(e.tx) && |s.disk.vol| == |s.disk.dur|
    ensures Step(c, scan, s, e).head == s.head + Needed(|e.tx.blocks|)
  {
    hide RecoverFrom, DiskAt, CrashImage;
  }

  lemma DurableTxsStep(img0: Image, c: Config, head: nat, es: seq<Event>, base: Image)
    requires es != [] && forall i :: 0 <= i < |es| ==> Loggable(es[i].tx)
    ensures ApplyTxs(base, DurableTxs(c, head, es))
         == ApplyTxs(if Durable(c, head, es[0]) then ApplyWrites(base, HomeWrites(es[0].tx)) else base,
                     DurableTxs(c, head + Needed(|es[0].tx.blocks|), es[1..]))
  {
    hide Durable, HomeWrites, ApplyWrites;
    var rest := DurableTxs(c, head + Needed(|es[0].tx.blocks|), es[1..]);
    if Durable(c, head, es[0]) {
      assert ([es[0].tx] + rest)[1..] == rest;
    } else {
      assert [] + rest == rest;
    }
  }

  /** Crash atomicity over whole runs. Whatever mixture of commits, aborts and crashes the engine goes through
      before the journal head wraps, the home blocks are those of exactly the transactions whose journal blocks
      were synced, in order; and a further crash at rest changes nothing. */
  lemma RunIsAtomic(c: Config, scan: Scanner, img0: Image, es: seq<Event>)
    requires IsScanner(scan, c.crc, c.start, c.length)
    requires c.start + c.length <= |img0|
    requires forall a :: c.start <= a < c.start + c.length ==> img0[a] == Zero()
    requires CoveredRun(c, |img0|, 0, es)
    requires forall i :: 0 <= i < |es| ==> Loggable(es[i].tx)
    ensures var r := RunFrom(c, scan, State(Disk(img0, img0), 0), es).disk;
            && r.vol == r.dur
            && SameHome(c, r.dur, ApplyTxs(img0, DurableTxs(c, 0, es)))
            && SameHome(c, RecoverFrom(scan, r.dur, c.length, 0, Unlimited).img, r.dur)
  {
    hide IsScanner, RecoverFrom, RunFrom, DurableTxs, CoveredRun, Zero;
    RunKeepsInv(c, scan, img0, State(Disk(img0, img0), 0), [], es);
  }
}
