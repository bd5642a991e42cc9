/** Recovery can be stopped and started again: what it does depends on the journal alone, and it converges. */
module JournalRestart {
  import opened Bytes
  import opened Device
  import opened JournalFormat
  import opened JournalReplay
  import opened JournalRecovery
  import opened JournalLog
  import opened JournalRuns

  // ---------------------------------------------------------------- what the scan reads

  /** The descriptor chain that starts at offset off ends, or breaks, inside the journal. */
  ghost predicate ChainInside(c: Config, img: Image, off: nat)
    requires c.start + c.length <= |img| && off < c.length
  {
    var blk := img[c.start + off];
    IsDescriptor(blk) && GetBE32(blk, COUNT_OFFSET) > 0 ==>
      || off + DescriptorBlocksFor(GetBE32(blk, COUNT_OFFSET)) <= c.length
      || BreaksInside(c, img, off, DecodeHeader(blk).sequence, DescriptorBlocksFor(GetBE32(blk, COUNT_OFFSET)))
  }

  ghost predicate BreaksInside(c: Config, img: Image, off: nat, sequence: U32, count: nat)
    requires c.start + c.length <= |img|
  {
    exists a: nat :: c.start + off < a < c.start + off + count && a < c.start + c.length
                     && DecodeHeader(img[a]) != Header(MAGIC, DESCRIPTOR, sequence)
  }

  ghost predicate AddressesOutside(c: Config, s: Scan) {
    s.Replay? ==> forall i :: 0 <= i < |s.ws| ==> !InJournal(c, s.ws[i].addr)
  }

  /** From offset off on, wherever recovery looks: chains stay inside the journal, logged addresses outside it. */
  ghost predicate SelfContainedFrom(c: Config, scan: Scanner, img: Image, off: nat)
    requires c.start + c.length <= |img|
    decreases c.length - off
  {
    off < c.length ==>
      && ChainInside(c, img, off) && AddressesOutside(c, scan(img, off))
      && match scan(img, off)
         case Skip => SelfContainedFrom(c, scan, img, off + 1)
         case Stop => true
         case Unreadable => true
         case Replay(_, needed) => SelfContainedFrom(c, scan, img, off + needed)
  }

  ghost predicate SelfContained(c: Config, scan: Scanner, img: Image) {
    c.start + c.length <= |img| && SelfContainedFrom(c, scan, img, 0)
  }

  lemma {:induction false} ChainReadsJournal(c: Config, a: Image, b: Image, base: nat, sequence: U32, d: nat, count: nat)
    requires SameJournal(c, a, b) && c.start + c.length <= |a|
    requires c.start <= base && base + count <= c.start + c.length
    ensures CheckChain(a, base, sequence, d, count) == CheckChain(b, base, sequence, d, count)
    decreases count - d
  {
    hide DecodeHeader;
    if d < count {
      assert a[base + d] == b[base + d];
      ChainReadsJournal(c, a, b, base, sequence, d + 1, count);
    }
  }

  lemma TagsReadJournal(c: Config, a: Image, b: Image, base: nat, n: nat)
    requires SameJournal(c, a, b) && c.start + c.length <= |a|
    requires c.start <= base && n >= 1 && base + DescriptorBlocksFor(n) <= c.start + c.length
    ensures Tags(a, base, n) == Tags(b, base, n)
  {
    hide GetBE32, DescriptorBlocksFor;
    var s, t := Tags(a, base, n), Tags(b, base, n);
    forall i | 0 <= i < n ensures s[i] == t[i] {
      ChunksCover(n, ChunkOf(i));
      assert a[base + ChunkOf(i)] == b[base + ChunkOf(i)];
    }
  }

  lemma BodyReadsJournal(c: Config, a: Image, b: Image, off: nat, n: nat)
    requires SameJournal(c, a, b) && c.start + c.length <= |a|
    requires n >= 1 && off + DescriptorBlocksFor(n) <= c.length
    ensures ScanBody(c.crc, a, c.start + off, c.length, off, n) == ScanBody(c.crc, b, c.start + off, c.length, off, n)
  {
    hide DecodeHeader, GetBE32, Tags, Checksum, DescriptorBlocksFor;
    var base := c.start + off;
    if off + Needed(n) <= c.length {
      var lo := base + DescriptorBlocksFor(n);
      assert a[lo..lo + n] == b[lo..lo + n];
      assert a[lo + n] == b[lo + n];
      assert a[base] == b[base];
      TagsReadJournal(c, a, b, base, n);
    }
  }

  lemma BreakReadsJournal(c: Config, a: Image, b: Image, off: nat, sequence: U32, count: nat)
    requires SameJournal(c, a, b) && c.start + c.length <= |a| && BreaksInside(c, a, off, sequence, count)
    ensures BreaksInside(c, b, off, sequence, count)
    ensures CheckChain(a, c.start + off, sequence, 1, count) == CheckChain(b, c.start + off, sequence, 1, count) == Broken
  {
    hide DecodeHeader, CheckChain;
    var base := c.start + off;
    var x: nat :| base < x < base + count && x < c.start + c.length && DecodeHeader(a[x]) != Header(MAGIC, DESCRIPTOR, sequence);
    assert a[x] == b[x];
    ChainBreaks(a, base, sequence, 1, count, x - base);
    ChainBreaks(b, base, sequence, 1, count, x - base);
  }

  /** With its chains inside, what the scan finds depends on the journal region alone. */
  lemma ScanReadsJournal(c: Config, scan: Scanner, a: Image, b: Image, off: nat)
    requires IsScanner(scan, c.crc, c.start, c.length)
    requires SameJournal(c, a, b) && c.start + c.length <= |a| && off < c.length && ChainInside(c, a, off)
    ensures scan(a, off) == scan(b, off) && ChainInside(c, b, off)
  {
    hide DecodeHeader, GetBE32, ScanBody, CheckChain, DescriptorBlocksFor, BreaksInside;
    var base := c.start + off;
    assert a[base] == b[base];
    assert scan(a, off) == ScanAt(c.crc, a, c.start, c.length, off);
    assert scan(b, off) == ScanAt(c.crc, b, c.start, c.length, off);
    var total := GetBE32(a[base], COUNT_OFFSET);
    if IsDescriptor(a[base]) && total > 0 {
      var sequence, count := DecodeHeader(a[base]).sequence, DescriptorBlocksFor(total);
      if off + count <= c.length {
        ChainReadsJournal(c, a, b, base, sequence, 1, count);
        BodyReadsJournal(c, a, b, off, total);
      } else {
        BreakReadsJournal(c, a, b, off, sequence, count);
      }
    }
  }

  lemma {:induction false} SelfContainedTransfers(c: Config, scan: Scanner, a: Image, b: Image, off: nat)
    requires IsScanner(scan, c.crc, c.start, c.length)
    requires SameJournal(c, a, b) && c.start + c.length <= |a| && SelfContainedFrom(c, scan, a, off)
    ensures SelfContainedFrom(c, scan, b, off)
    ensures off < c.length ==> scan(a, off) == scan(b, off) && AddressesOutside(c, scan(b, off))
    decreases c.length - off
  {
    hide IsScanner, ChainInside, AddressesOutside, SameJournal;
    if off < c.length {
      assert |a| == |b| by { SameSize(c, a, b); }
      ScanReadsJournal(c, scan, a, b, off);
      match scan(a, off)
      case Skip => SelfContainedTransfers(c, scan, a, b, off + 1);
      case Stop =>
      case Unreadable =>
      case Replay(_, needed) => SelfContainedTransfers(c, scan, a, b, off + needed);
    }
  }

  lemma SameSize(c: Config, a: Image, b: Image)
    requires SameJournal(c, a, b)
    ensures |a| == |b|
  {
  }

  // ---------------------------------------------------------------- what recovery writes

  lemma TouchesPrefix(ws: seq<Write>, k: nat, a: nat)
    requires k <= |ws| && !Touches(ws, a)
    ensures !Touches(ws[..k], a)
  {
    assert forall i :: 0 <= i < k ==> ws[..k][i] == ws[i];
  }

  ghost function WriteSet(ws: seq<Write>): set<nat> { set w | w in ws :: w.addr }

  /** The home blocks that the recovery of img writes from off on. */
  ghost function Rewritten(scan: Scanner, img: Image, length: nat, off: nat): set<nat>
    decreases length - off
  {
    if off >= length then {}
    else match scan(img, off)
      case Skip => Rewritten(scan, img, length, off + 1)
      case Stop => {}
      case Unreadable => {}
      case Replay(ws, needed) =>
        var good := ws[..GoodPrefix(|img|, ws)];
        WriteSet(good) + if |good| < |ws| then {} else Rewritten(scan, img, length, off + needed)
  }

  ghost predicate AgreeOutside(a: Image, b: Image, s: set<nat>) {
    |a| == |b| && forall x: nat :: x < |a| && x !in s ==> a[x] == b[x]
  }

  lemma WritesTouch(ws: seq<Write>, x: nat)
    ensures Touches(ws, x) <==> x in WriteSet(ws)
  {
    if Touches(ws, x) {
      var i :| 0 <= i < |ws| && ws[i].addr == x;
      assert ws[i] in ws;
    }
  }

  lemma JournalKept(c: Config, img: Image, a: Image, ws: seq<Write>)
    requires SameJournal(c, img, a)
    requires forall i :: 0 <= i < |ws| ==> !InJournal(c, ws[i].addr)
    ensures SameJournal(c, img, ApplyWrites(a, ws))
  {
    hide ApplyWrites;
    forall x: nat | x < |a| && InJournal(c, x) ensures ApplyWrites(a, ws)[x] == a[x] {
      ApplyFrame(a, ws, x);
    }
  }

  lemma ConvergeStep(a: Image, b: Image, ws: seq<Write>, rest: set<nat>)
    requires AgreeOutside(a, b, WriteSet(ws) + rest)
    ensures AgreeOutside(ApplyWrites(a, ws), ApplyWrites(b, ws), rest)
  {
    hide ApplyWrites, Touches, WriteSet;
    forall x: nat | x < |a| && x !in rest ensures ApplyWrites(a, ws)[x] == ApplyWrites(b, ws)[x] {
      WritesTouch(ws, x);
      ApplyOverwrites(a, b, ws, x);
    }
  }

  lemma PrefixFrame(a: Image, ws: seq<Write>, k: nat, good: nat)
    requires k <= good <= |ws|
    ensures AgreeOutside(a, ApplyWrites(a, ws[..k]), WriteSet(ws[..good]))
  {
    hide ApplyWrites, Touches, WriteSet;
    forall x: nat | x < |a| && x !in WriteSet(ws[..good]) ensures ApplyWrites(a, ws[..k])[x] == a[x] {
      assert ws[..good][..k] == ws[..k];
      WritesTouch(ws[..good], x);
      TouchesPrefix(ws[..good], k, x);
      ApplyFrame(a, ws[..k], x);
    }
  }

  /** However far it gets, a recovery changes only the blocks it rewrites, never the journal. */
  lemma {:induction false} RecoveryFrame(c: Config, scan: Scanner, img: Image, a: Image, off: nat, budget: Budget)
    requires IsScanner(scan, c.crc, c.start, c.length) && c.start + c.length <= |img|
    requires SelfContainedFrom(c, scan, img, off) && SameJournal(c, img, a)
    ensures var r := RecoverFrom(scan, a, c.length, off, budget).img;
            SameJournal(c, img, r) && AgreeOutside(a, r, Rewritten(scan, img, c.length, off))
    decreases c.length - off
  {
    hide IsScanner, ChainInside, SameJournal, InJournal, ApplyWrites, WriteSet;
    SameSize(c, img, a);
    if off < c.length {
      SelfContainedTransfers(c, scan, img, a, off);
      match scan(img, off)
      case Skip => RecoveryFrame(c, scan, img, a, off + 1, budget);
      case Stop =>
      case Unreadable =>
      case Replay(ws, needed) =>
        var good := GoodPrefix(|img|, ws);
        var k := if !Covers(budget, good) then budget.n else good;
        var next := ApplyWrites(a, ws[..k]);
        JournalKept(c, img, a, ws[..k]);
        PrefixFrame(a, ws, k, good);
        if Covers(budget, good) && good == |ws| {
          assert ws[..good] == ws;
          RecoveryFrame(c, scan, img, next, off + needed, Spend(budget, good));
        }
    }
  }

  /** Two images that differ only on blocks still to be rewritten recover to the same image. */
  lemma {:induction false} RecoveryConverges(c: Config, scan: Scanner, img: Image, a: Image, b: Image, off: nat)
    requires IsScanner(scan, c.crc, c.start, c.length) && c.start + c.length <= |img|
    requires SelfContainedFrom(c, scan, img, off) && SameJournal(c, img, a) && SameJournal(c, img, b)
    requires AgreeOutside(a, b, Rewritten(scan, img, c.length, off))
    ensures RecoverFrom(scan, a, c.length, off, Unlimited) == RecoverFrom(scan, b, c.length, off, Unlimited)
    decreases c.length - off
  {
    hide IsScanner, ChainInside, SameJournal, InJournal, ApplyWrites, WriteSet;
    SameSize(c, img, a);
    SameSize(c, img, b);
    if off < c.length {
      SelfContainedTransfers(c, scan, img, a, off);
      SelfContainedTransfers(c, scan, img, b, off);
      match scan(img, off)
      case Skip => RecoveryConverges(c, scan, img, a, b, off + 1);
      case Stop => assert a == b;
      case Unreadable => assert a == b;
      case Replay(ws, needed) =>
        var good := ws[..GoodPrefix(|img|, ws)];
        var rest := if |good| < |ws| then {} else Rewritten(scan, img, c.length, off + needed);
        ConvergeStep(a, b, good, rest);
        if |good| == |ws| {
          assert good == ws;
          JournalKept(c, img, a, good);
          JournalKept(c, img, b, good);
          RecoveryConverges(c, scan, img, ApplyWrites(a, ws), ApplyWrites(b, ws), off + needed);
        } else {
          assert ApplyWrites(a, good) == ApplyWrites(b, good);
        }
    } else {
      assert a == b;
    }
  }

  /** Recovery is restartable: stopped after any number of home writes, with any part of the rewritten blocks
      on disk, and run again from the start, it gives what one full run gives; the journal never changes. */
  lemma RecoveryRestarts(c: Config, scan: Scanner, img: Image, budget: Budget, persisted: set<nat>)
    requires IsScanner(scan, c.crc, c.start, c.length)
    requires SelfContained(c, scan, img)
    ensures var stopped := RecoverFrom(scan, img, c.length, 0, budget).img;
            var left := Persist(img, stopped, persisted);
            && SameJournal(c, img, stopped) && SameJournal(c, img, left)
            && RecoverFrom(scan, left, c.length, 0, Unlimited) == RecoverFrom(scan, img, c.length, 0, Unlimited)
  {
    hide IsScanner, RecoverFrom, Rewritten, SelfContainedFrom;
    assert SameJournal(c, img, img);
    RecoveryFrame(c, scan, img, img, 0, budget);
    var stopped := RecoverFrom(scan, img, c.length, 0, budget).img;
    var left := Persist(img, stopped, persisted);
    RecoveryConverges(c, scan, img, left, img, 0);
  }

  // ---------------------------------------------------------------- journals that hold a log

  /** Positions the scan passes over, none of which starts a chain that leaves the journal. */
  lemma {:induction false} SelfContainedSkips(c: Config, scan: Scanner, img: Image, a: nat, b: nat)
    requires c.start + c.length <= |img| && a <= b <= c.length && SelfContainedFrom(c, scan, img, b)
    requires forall p: nat :: a <= p < b ==> scan(img, p) == Skip && ChainInside(c, img, p)
    ensures SelfContainedFrom(c, scan, img, a)
    decreases b - a
  {
    hide ChainInside;
    if a < b { SelfContainedSkips(c, scan, img, a + 1, b); }
  }

  lemma TornChainInside(c: Config, scan: Scanner, img: Image, tx: Tx, kept: set<nat>, off: nat, p: nat)
    requires IsScanner(scan, c.crc, c.start, c.length) && c.start + c.length <= |img|
    requires Loggable(tx) && Detectable(c, tx, kept) && off + Needed(|tx.blocks|) <= c.length
    requires BlocksAt(img, c.start + off, TornImage(c.crc, tx, kept)) && off <= p < off + Needed(|tx.blocks|)
    ensures ChainInside(c, img, p)
  {
    hide IsDescriptor, DecodeHeader, GetBE32, TornImage, DescriptorBlocksFor, IsScanner, BlocksAt, TxImage, ChunkStart, Checksum;
    var base, d, k := c.start + off, DescriptorBlocksFor(|tx.blocks|), p - off;
    OneAt(img, base, TornImage(c.crc, tx, kept), k);
    if k < d && k in kept {
      TornDescriptor(c, img, base, tx, kept, k);
      if k > 0 {
        TornBlock(c, tx, kept, d);
        OneAt(img, base, TornImage(c.crc, tx, kept), d);
        NotDescriptor(img[base + d], tx.sequence);
        assert base + d < c.start + c.length && c.start + p < base + d;
      }
    } else {
      TornBlock(c, tx, kept, k);
    }
  }

  lemma NotDescriptor(blk: Block, sequence: U32)
    requires !IsDescriptor(blk)
    ensures DecodeHeader(blk) != Header(MAGIC, DESCRIPTOR, sequence)
  {
  }

  lemma LoggedChainInside(c: Config, img: Image, tx: Tx, off: nat)
    requires c.start + c.length <= |img| && Loggable(tx) && off + Needed(|tx.blocks|) <= c.length
    requires BlocksAt(img, c.start + off, TxImage(c.crc, tx))
    ensures ChainInside(c, img, off)
  {
    hide IsDescriptor, DecodeHeader, GetBE32, TxImage, Checksum, DescriptorBlocksFor, Descriptors;
    LoggedParts(c.crc, img, c.start + off, tx);
    LoggedHeader(img, c.start + off, tx, 0);
  }

  lemma ZeroChainInside(c: Config, img: Image, off: nat)
    requires c.start + c.length <= |img| && off < c.length && img[c.start + off] == Zero()
    ensures ChainInside(c, img, off)
  {
    hide IsDescriptor, Zero;
    ZeroIsNotDescriptor();
  }

  /** One segment of a log. */
  lemma SegmentSelfContained(c: Config, scan: Scanner, img: Image, log: seq<Segment>, i: nat)
    requires IsScanner(scan, c.crc, c.start, c.length)
    requires HoldsLog(c, img, log) && i < |log| && c.start + c.length <= |img|
    requires SelfContainedFrom(c, scan, img, Off(log, i + 1))
    ensures SelfContainedFrom(c, scan, img, Off(log, i))
  {
    hide IsScanner, HoldsLog, SegAt, Detectable, HomeWrites, ChainInside, BlocksAt, TornImage, TxImage, Off;
    var off := Off(log, i);
    HoldsSegment(c, img, log, i);
    match log[i]
    case Logged(tx) =>
      SegAtLogged(c, img, tx, off);
      ScanLogged(c, scan, img, tx, off);
      LoggedChainInside(c, img, tx, off);
    case Gap =>
      ScanGap(c, scan, img, off);
      GapBlock(c, img, off);
      ZeroChainInside(c, img, off);
    case Torn(tx, kept) =>
      SegAtTorn(c, img, tx, kept, off);
      forall p: nat | off <= p < off + Needed(|tx.blocks|) ensures scan(img, p) == Skip && ChainInside(c, img, p) {
        ScanTorn(c, scan, img, tx, kept, off, p);
        TornChainInside(c, scan, img, tx, kept, off, p);
      }
      SelfContainedSkips(c, scan, img, off, off + Needed(|tx.blocks|));
  }

  lemma GapBlock(c: Config, img: Image, off: nat)
    requires SegAt(c, img, Gap, off)
    ensures c.start + off < |img| && img[c.start + off] == Zero()
  {
    assert img[c.start + off] == [Zero()][0];
  }

  lemma {:induction false} LogSelfContainedFrom(c: Config, scan: Scanner, img: Image, log: seq<Segment>, i: nat)
    requires IsScanner(scan, c.crc, c.start, c.length)
    requires HoldsLog(c, img, log) && i <= |log| && c.start + c.length <= |img|
    ensures SelfContainedFrom(c, scan, img, Off(log, i))
    decreases |log| - i
  {
    hide IsScanner, HoldsLog, SelfContainedFrom;
    if i < |log| {
      LogSelfContainedFrom(c, scan, img, log, i + 1);
      SegmentSelfContained(c, scan, img, log, i);
    } else {
      TailSelfContained(c, scan, img, log);
    }
  }

  lemma TailSelfContained(c: Config, scan: Scanner, img: Image, log: seq<Segment>)
    requires IsScanner(scan, c.crc, c.start, c.length)
    requires HoldsLog(c, img, log) && c.start + c.length <= |img|
    ensures SelfContainedFrom(c, scan, img, Off(log, |log|))
  {
    hide IsScanner, ChainInside, IsDescriptor, Zero, SegAt, GoodSegment, Off;
    forall p: nat | Off(log, |log|) <= p < c.length ensures scan(img, p) == Skip && ChainInside(c, img, p) {
      ZeroIsNotDescriptor();
      assert img[c.start + p] == Zero();
      ScanZero(c, scan, img, p);
      ZeroChainInside(c, img, p);
    }
    SelfContainedSkips(c, scan, img, Off(log, |log|), c.length);
  }

  /** A journal that holds a log, whatever its data blocks look like, is one whose recovery can be restarted. */
  lemma LogIsSelfContained(c: Config, scan: Scanner, img: Image, log: seq<Segment>)
    requires IsScanner(scan, c.crc, c.start, c.length) && HoldsLog(c, img, log)
    ensures SelfContained(c, scan, img)
  {
    hide IsScanner, SelfContainedFrom, SegAt, GoodSegment;
    LogSelfContainedFrom(c, scan, img, log, 0);
  }

  /** A recovery cut short by a further crash: after so many home writes, with these blocks persisted. */
  datatype Retry = Retry(writes: nat, persisted: set<nat>)

  /** What is on disk after recoveries that were all cut short. */
  function AfterRetries(scan: Scanner, length: nat, left: Image, retries: seq<Retry>): (r: Image)
    ensures |r| == |left|
    decreases |retries|
  {
    if retries == [] then left
    else
      var stopped := RecoverFrom(scan, left, length, 0, Limited(retries[0].writes)).img;
      AfterRetries(scan, length, Persist(left, stopped, retries[0].persisted), retries[1..])
  }

  /** However often recovery of a log is cut short, the run that completes ends where one full run ends. */
  lemma {:induction false} RetriesConverge(c: Config, scan: Scanner, left: Image, log: seq<Segment>, retries: seq<Retry>)
    requires IsScanner(scan, c.crc, c.start, c.length) && HoldsLog(c, left, log)
    ensures var final := AfterRetries(scan, c.length, left, retries);
            RecoverFrom(scan, final, c.length, 0, Unlimited) == RecoverFrom(scan, left, c.length, 0, Unlimited)
    decreases |retries|
  {
    hide IsScanner, HoldsLog, RecoverFrom, SelfContained, SameJournal;
    if retries != [] {
      var stopped := RecoverFrom(scan, left, c.length, 0, Limited(retries[0].writes)).img;
      var next := Persist(left, stopped, retries[0].persisted);
      LogIsSelfContained(c, scan, left, log);
      RecoveryRestarts(c, scan, left, Limited(retries[0].writes), retries[0].persisted);
      SameJournalLog(c, left, next, log);
      RetriesConverge(c, scan, next, log, retries[1..]);
    }
  }
}
