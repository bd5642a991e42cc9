/** Recovery of a journal that holds a log: its whole transactions are replayed, in order. */
module JournalRuns {
  import opened Bytes
  import opened Device
  import opened JournalFormat
  import opened JournalReplay
  import opened JournalRecovery
  import opened JournalLog

  // ---------------------------------------------------------------- recovery of a well-formed log

  /** Positions that the scan passes over change nothing. */
  lemma {:induction false} SkipRange(scan: Scanner, img: Image, length: nat, a: nat, b: nat, budget: Budget)
    requires a <= b <= length
    requires forall p: nat :: a <= p < b ==> scan(img, p) == Skip
    ensures RecoverFrom(scan, img, length, a, budget) == RecoverFrom(scan, img, length, b, budget)
    decreases b - a
  {
    if a < b { SkipRange(scan, img, length, a + 1, b, budget); }
  }

  /** Replaying a transaction leaves the journal region alone. */
  lemma ReplayKeepsJournal(c: Config, img: Image, tx: Tx, a: nat)
    requires GoodTx(c, |img|, tx) && InJournal(c, a) && a < |img|
    ensures ApplyWrites(img, HomeWrites(tx))[a] == img[a]
  {
    ApplyFrame(img, HomeWrites(tx), a);
  }

  /** The journal region of both images is the same. */
  ghost predicate SameJournal(c: Config, a: Image, b: Image) {
    |a| == |b| && forall x: nat :: x < |a| && InJournal(c, x) ==> a[x] == b[x]
  }

  lemma SameJournalSegment(c: Config, a: Image, b: Image, s: Segment, off: nat)
    requires SameJournal(c, a, b) && SegAt(c, a, s, off) && off + SegLength(s) <= c.length
    ensures SegAt(c, b, s, off)
  {
    hide SegImage;
  }

  lemma HoldsSegment(c: Config, img: Image, log: seq<Segment>, i: nat)
    requires HoldsLog(c, img, log) && i < |log|
    ensures GoodSegment(c, |img|, log[i]) && SegAt(c, img, log[i], Off(log, i))
    ensures Off(log, i + 1) == Off(log, i) + SegLength(log[i]) <= c.length
  {
    hide GoodSegment, SegAt;
    OffMonotone(log, i + 1, |log|);
  }

  lemma SameJournalLog(c: Config, a: Image, b: Image, log: seq<Segment>)
    requires SameJournal(c, a, b) && HoldsLog(c, a, log)
    ensures HoldsLog(c, b, log)
  {
    hide SegAt, GoodSegment, Off, SegLength;
    forall i | 0 <= i < |log| ensures SegAt(c, b, log[i], Off(log, i)) {
      HoldsSegment(c, a, log, i);
      SameJournalSegment(c, a, b, log[i], Off(log, i));
    }
  }

  lemma ReplayKeepsLog(c: Config, img: Image, log: seq<Segment>, tx: Tx)
    requires HoldsLog(c, img, log) && GoodTx(c, |img|, tx)
    ensures HoldsLog(c, ApplyWrites(img, HomeWrites(tx)), log)
  {
    hide HoldsLog, ApplyWrites, HomeWrites, GoodTx;
    var img' := ApplyWrites(img, HomeWrites(tx));
    forall a: nat | a < |img| && InJournal(c, a) ensures img'[a] == img[a] {
      ReplayKeepsJournal(c, img, tx, a);
    }
    SameJournalLog(c, img, img', log);
  }

  lemma InRangeIsGood(n: nat, ws: seq<Write>)
    requires forall i :: 0 <= i < |ws| ==> ws[i].addr < n
    ensures GoodPrefix(n, ws) == |ws|
  {
  }

  lemma RecoverLogged(c: Config, scan: Scanner, img: Image, tx: Tx, off: nat)
    requires IsScanner(scan, c.crc, c.start, c.length)
    requires GoodTx(c, |img|, tx) && SegAt(c, img, Logged(tx), off) && off + Needed(|tx.blocks|) <= c.length
    ensures RecoverFrom(scan, img, c.length, off, Unlimited)
         == RecoverFrom(scan, ApplySeg(img, Logged(tx)), c.length, off + Needed(|tx.blocks|), Unlimited)
  {
    hide IsScanner, RecoverFrom, SegAt, BlocksAt, TxImage, ApplyWrites;
    SegAtLogged(c, img, tx, off);
    ScanLogged(c, scan, img, tx, off);
    InRangeIsGood(|img|, HomeWrites(tx));
    StepWhole(scan, img, c.length, off, HomeWrites(tx), Needed(|tx.blocks|), Unlimited);
  }

  lemma RecoverTorn(c: Config, scan: Scanner, img: Image, tx: Tx, kept: set<nat>, off: nat)
    requires IsScanner(scan, c.crc, c.start, c.length)
    requires Loggable(tx) && Detectable(c, tx, kept)
    requires SegAt(c, img, Torn(tx, kept), off) && off + Needed(|tx.blocks|) <= c.length
    ensures RecoverFrom(scan, img, c.length, off, Unlimited)
         == RecoverFrom(scan, img, c.length, off + Needed(|tx.blocks|), Unlimited)
  {
    hide IsScanner, RecoverFrom, SegAt, BlocksAt, TornImage, Detectable;
    SegAtTorn(c, img, tx, kept, off);
    forall p: nat | off <= p < off + Needed(|tx.blocks|) ensures scan(img, p) == Skip {
      ScanTorn(c, scan, img, tx, kept, off, p);
    }
    SkipRange(scan, img, c.length, off, off + Needed(|tx.blocks|), Unlimited);
  }

  /** Recovery takes one segment after the other. */
  lemma RecoverSegment(c: Config, scan: Scanner, img: Image, log: seq<Segment>, i: nat)
    requires IsScanner(scan, c.crc, c.start, c.length)
    requires HoldsLog(c, img, log) && i < |log|
    ensures RecoverFrom(scan, img, c.length, Off(log, i), Unlimited)
         == RecoverFrom(scan, ApplySeg(img, log[i]), c.length, Off(log, i + 1), Unlimited)
    ensures HoldsLog(c, ApplySeg(img, log[i]), log)
  {
    hide IsScanner, HoldsLog, RecoverFrom, SegAt, Detectable, ApplyWrites, HomeWrites;
    var off := Off(log, i);
    HoldsSegment(c, img, log, i);
    match log[i]
    case Logged(tx) =>
      RecoverLogged(c, scan, img, tx, off);
      ReplayKeepsLog(c, img, log, tx);
    case Gap =>
      ScanGap(c, scan, img, off);
      SkipRange(scan, img, c.length, off, off + 1, Unlimited);
    case Torn(tx, kept) =>
      RecoverTorn(c, scan, img, tx, kept, off);
  }

  lemma SegAtLogged(c: Config, img: Image, tx: Tx, off: nat)
    requires SegAt(c, img, Logged(tx), off)
    ensures Loggable(tx) && BlocksAt(img, c.start + off, TxImage(c.crc, tx))
  {
    hide TxImage, BlocksAt;
  }

  lemma SegAtTorn(c: Config, img: Image, tx: Tx, kept: set<nat>, off: nat)
    requires SegAt(c, img, Torn(tx, kept), off)
    ensures Loggable(tx) && BlocksAt(img, c.start + off, TornImage(c.crc, tx, kept))
  {
    hide TornImage, BlocksAt;
  }

  lemma ScanGap(c: Config, scan: Scanner, img: Image, off: nat)
    requires IsScanner(scan, c.crc, c.start, c.length)
    requires SegAt(c, img, Gap, off)
    ensures scan(img, off) == Skip
  {
    hide IsDescriptor, IsScanner;
    ZeroIsNotDescriptor();
    assert img[c.start + off] == Zero();
    ScanZero(c, scan, img, off);
  }

  /** Recovery of a well-formed log replays exactly its whole transactions, in order, and completes. */
  lemma {:induction false} RecoverLog(c: Config, scan: Scanner, img: Image, log: seq<Segment>, i: nat)
    requires IsScanner(scan, c.crc, c.start, c.length)
    requires HoldsLog(c, img, log) && i <= |log|
    ensures RecoverFrom(scan, img, c.length, 0, Unlimited)
         == RecoverFrom(scan, ApplyLog(img, log, i), c.length, Off(log, i), Unlimited)
    ensures HoldsLog(c, ApplyLog(img, log, i), log)
    ensures i == |log| ==> RecoverFrom(scan, img, c.length, 0, Unlimited) == Outcome(ApplyLog(img, log, i), true)
  {
    hide IsScanner, HoldsLog, IsDescriptor, ApplySeg;
    if i > 0 {
      RecoverLog(c, scan, img, log, i - 1);
      RecoverSegment(c, scan, ApplyLog(img, log, i - 1), log, i - 1);
    }
    if i == |log| {
      RecoverTail(c, scan, ApplyLog(img, log, i), log);
    }
  }

  lemma RecoverTail(c: Config, scan: Scanner, img: Image, log: seq<Segment>)
    requires IsScanner(scan, c.crc, c.start, c.length)
    requires HoldsLog(c, img, log)
    ensures RecoverFrom(scan, img, c.length, Off(log, |log|), Unlimited) == Outcome(img, true)
  {
    hide IsDescriptor, IsScanner;
    forall p: nat | Off(log, |log|) <= p < c.length ensures scan(img, p) == Skip {
      ZeroIsNotDescriptor();
      assert img[c.start + p] == Zero();
      ScanZero(c, scan, img, p);
    }
    SkipRange(scan, img, c.length, Off(log, |log|), c.length, Unlimited);
  }
}
