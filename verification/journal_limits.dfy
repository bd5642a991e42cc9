/** Where the promise of atomicity ends: journals in which a newer transaction lies in front of an older one. */
module JournalLimits {
  import opened Bytes
  import opened Device
  import opened JournalFormat
  import opened JournalReplay
  import opened JournalRecovery
  import opened JournalLog
  import opened JournalRuns
  import opened JournalRestart
  import opened JournalCrash

  // ---------------------------------------------------------------- when the head has wrapped

  datatype Value = Unlogged | Last(data: Block)

  function LastWrite(ws: seq<Write>, x: nat): Value {
    if ws == [] then Unlogged
    else if ws[|ws| - 1].addr == x then Last(ws[|ws| - 1].data)
    else LastWrite(ws[..|ws| - 1], x)
  }

  lemma {:induction false} ApplyWritesLast(img: Image, ws: seq<Write>, x: nat)
    requires x < |img|
    ensures ApplyWrites(img, ws)[x] == match LastWrite(ws, x) case Unlogged => img[x] case Last(d) => d
  {
    if ws != [] { ApplyWritesLast(img, ws[..|ws| - 1], x); }
  }

  /** The home writes a recovery of img performs from off on, in order. */
  ghost function Replayed(scan: Scanner, img: Image, length: nat, off: nat): seq<Write>
    decreases length - off
  {
    if off >= length then []
    else match scan(img, off)
      case Skip => Replayed(scan, img, length, off + 1)
      case Stop => []
      case Unreadable => []
      case Replay(ws, needed) =>
        if GoodPrefix(|img|, ws) < |ws| then ws[..GoodPrefix(|img|, ws)] else ws + Replayed(scan, img, length, off + needed)
  }

  /** Recovery performs exactly those writes. */
  lemma {:induction false} RecoveryReplays(c: Config, scan: Scanner, img: Image, a: Image, off: nat)
    requires IsScanner(scan, c.crc, c.start, c.length) && c.start + c.length <= |img|
    requires SelfContainedFrom(c, scan, img, off) && SameJournal(c, img, a)
    ensures RecoverFrom(scan, a, c.length, off, Unlimited).img == ApplyWrites(a, Replayed(scan, img, c.length, off))
    decreases c.length - off
  {
    hide IsScanner, ChainInside, SameJournal, InJournal, ApplyWrites;
    SameSize(c, img, a);
    ApplyNone(a);
    if off < c.length {
      SelfContainedTransfers(c, scan, img, a, off);
      match scan(img, off)
      case Skip => RecoveryReplays(c, scan, img, a, off + 1);
      case Stop =>
      case Unreadable =>
      case Replay(ws, needed) =>
        if GoodPrefix(|img|, ws) == |ws| {
          JournalKept(c, img, a, ws);
          RecoveryReplays(c, scan, img, ApplyWrites(a, ws), off + needed);
          ApplyAppend(a, ws, Replayed(scan, img, c.length, off + needed));
        }
    }
  }

  lemma ApplyNone(a: Image)
    ensures ApplyWrites(a, []) == a
  {
  }

  /** Exactly when a crash at rest keeps the home blocks, whatever the journal came to hold by wrapping or by being
      opened again: every block the scan would write must still have the value it would write to it last. */
  lemma RestIsSafeIff(c: Config, scan: Scanner, img: Image)
    requires IsScanner(scan, c.crc, c.start, c.length) && SelfContained(c, scan, img)
    ensures SameHome(c, RecoverFrom(scan, img, c.length, 0, Unlimited).img, img) <==>
            forall x: nat :: x < |img| && !InJournal(c, x) && LastWrite(Replayed(scan, img, c.length, 0), x).Last?
                        ==> LastWrite(Replayed(scan, img, c.length, 0), x) == Last(img[x])
  {
    hide IsScanner, RecoverFrom, Replayed, LastWrite, SelfContainedFrom, ApplyWrites;
    assert SameJournal(c, img, img);
    RecoveryReplays(c, scan, img, img, 0);
    var ws := Replayed(scan, img, c.length, 0);
    forall x: nat | x < |img|
      ensures ApplyWrites(img, ws)[x] == match LastWrite(ws, x) case Unlogged => img[x] case Last(d) => d
    {
      ApplyWritesLast(img, ws, x);
    }
  }

  /** A transaction of one block. */
  function OneBlock(sequence: U32, addr: U32, data: Block): Tx {
    Tx(sequence, [TxBlock(addr, data)])
  }

  lemma OneBlockWrites(sequence: U32, addr: U32, data: Block)
    ensures HomeWrites(OneBlock(sequence, addr, data)) == [Write(addr, data)]
  {
  }

  /** A journal that holds the newest transaction in front of an older one. */
  lemma WrappedHoldsLog(c: Config, d: Disk, first: Tx, second: Tx, newest: Tx)
    requires d.vol == d.dur && HoldsLog(c, d.dur, [Logged(first), Logged(second)])
    requires GoodTx(c, |d.dur|, newest) && Needed(|newest.blocks|) == Needed(|first.blocks|)
    ensures HoldsLog(c, DiskAt(c, d, newest, 0, CommitSteps(newest)).dur, [Logged(newest), Logged(second)])
  {
    hide TxImage, ApplyWrites, LoggedImage;
    var log, all := [Logged(first), Logged(second)], [Logged(newest), Logged(second)];
    var logged := LoggedImage(c, d, newest, 0);
    assert Off(log, 1) == Off(all, 1) == Needed(|first.blocks|) && Off(log, 2) == Off(all, 2);
    LoggedImageBlocks(c, d, newest, 0);
    SegAtLoggedIntro(c, logged, newest, 0);
    assert SegAt(c, d.dur, log[1], Off(log, 1));
    assert SegAt(c, logged, Logged(second), Off(all, 1));
    assert HoldsLog(c, logged, all);
    ReplayKeepsLog(c, logged, all, newest);
  }

  /** Two commits to one block that fill the journal. */
  function AfterTwo(c: Config, scan: Scanner, img0: Image, addr: U32, x: Block, y: Block): (r: State)
    ensures |r.disk.vol| == |r.disk.dur|
  {
    Step(c, scan, Step(c, scan, State(Disk(img0, img0), 0), Completed(OneBlock(2, addr, x))), Completed(OneBlock(3, addr, y)))
  }

  /** The disk after a third commit to the same block, which is logged at offset 0. */
  function AfterWrap(c: Config, scan: Scanner, img0: Image, addr: U32, x: Block, y: Block): Image {
    DiskAt(c, AfterTwo(c, scan, img0, addr, x, y).disk, OneBlock(4, addr, x), 0, CommitSteps(OneBlock(4, addr, x))).dur
  }

  /** Past the wrap the promise fails: of three commits to one block, the third finds the journal full and is
      logged in front of the second, so a crash at rest brings the second value back. */
  lemma WrapRevertsCommit(c: Config, scan: Scanner, img0: Image, addr: U32, x: Block, y: Block)
    requires IsScanner(scan, c.crc, c.start, c.length)
    requires 6 <= c.length < 9 && c.start + c.length <= |img0| && addr < |img0| && !InJournal(c, addr)
    requires forall a :: c.start <= a < c.start + c.length ==> img0[a] == Zero()
    ensures AfterTwo(c, scan, img0, addr, x, y).head + Needed(1) > c.length
    ensures var dur := AfterWrap(c, scan, img0, addr, x, y);
            && |dur| == |img0| && dur[addr] == x
            && RecoverFrom(scan, dur, c.length, 0, Unlimited).img[addr] == y
  {
    hide IsScanner, HoldsLog, RecoverFrom, DiskAt, GoodTx, ApplyLog, Zero;
    var a, b, third := OneBlock(2, addr, x), OneBlock(3, addr, y), OneBlock(4, addr, x);
    var s0 := State(Disk(img0, img0), 0);
    OneBlockGood(c, |img0|, 2, addr, x);
    OneBlockGood(c, |img0|, 3, addr, y);
    OneBlockGood(c, |img0|, 4, addr, x);
    EmptyLog(c, img0);
    StepKeepsInv(c, scan, img0, s0, [], Completed(a));
    var s1 := Step(c, scan, s0, Completed(a));
    assert [] + [Logged(a)] == [Logged(a)];
    StepKeepsInv(c, scan, img0, s1, [Logged(a)], Completed(b));
    var s := Step(c, scan, s1, Completed(b));
    assert [Logged(a)] + [Logged(b)] == [Logged(a), Logged(b)];
    WrappedHoldsLog(c, s.disk, a, b, third);
    var dur := DiskAt(c, s.disk, third, 0, CommitSteps(third)).dur;
    RecoverLog(c, scan, dur, [Logged(third), Logged(b)], 2);
    WrappedValue(c, s.disk, third, addr, x);
    OneBlockWrites(3, addr, y);
    WrappedReplay(dur, third, b, addr, y);
  }

  lemma OneBlockGood(c: Config, size: nat, sequence: U32, addr: U32, data: Block)
    requires addr < size && !InJournal(c, addr)
    ensures GoodTx(c, size, OneBlock(sequence, addr, data))
    ensures Needed(1) == 3
  {
  }

  lemma EmptyLog(c: Config, img0: Image)
    requires c.start + c.length <= |img0|
    requires forall a :: c.start <= a < c.start + c.length ==> img0[a] == Zero()
    ensures Inv(c, img0, State(Disk(img0, img0), 0), [])
  {
    hide Zero;
  }

  lemma WrappedValue(c: Config, d: Disk, tx: Tx, addr: U32, x: Block)
    requires Loggable(tx) && tx.blocks == [TxBlock(addr, x)] && addr < |d.vol|
    ensures DiskAt(c, d, tx, 0, CommitSteps(tx)).dur[addr] == x
  {
    hide LoggedImage, Needed;
    assert HomeWrites(tx) == [Write(addr, x)];
  }

  lemma WrappedReplay(img: Image, third: Tx, b: Tx, addr: U32, y: Block)
    requires addr < |img| && HomeWrites(b) == [Write(addr, y)]
    ensures ApplyLog(img, [Logged(third), Logged(b)], 2)[addr] == y
  {
    hide HomeWrites;
    assert ApplyLog(img, [Logged(third), Logged(b)], 2)
        == ApplyWrites(ApplyLog(img, [Logged(third), Logged(b)], 1), HomeWrites(b));
  }
}
