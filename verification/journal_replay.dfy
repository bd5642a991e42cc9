/** The replay loop of recovery, for any way of scanning the journal. */
module JournalReplay {
  import opened Bytes
  import opened Device

  type Positive = n: int | n >= 1 witness 1

  /** What the scan finds at one journal offset. */
  datatype Scan = Skip | Stop | Unreadable | Replay(ws: seq<Write>, needed: Positive)

  type Scanner = (Image, nat) -> Scan

  /** Number of leading writes that fall on a device of n blocks. */
  function GoodPrefix(n: nat, ws: seq<Write>): (k: nat)
    ensures k <= |ws|
    ensures forall i :: 0 <= i < k ==> ws[i].addr < n
    ensures k < |ws| ==> ws[k].addr >= n
  {
    if ws == [] || ws[0].addr >= n then 0 else 1 + GoodPrefix(n, ws[1..])
  }

  /** How many home writes the recovery gets to perform before it is stopped. */
  datatype Budget = Unlimited | Limited(n: nat)

  predicate Covers(b: Budget, n: nat) { b.Unlimited? || n <= b.n }

  function Spend(b: Budget, n: nat): Budget
    requires Covers(b, n)
  {
    if b.Unlimited? then b else Limited(b.n - n)
  }

  /** The image a recovery leaves, and whether it ran to its end. */
  datatype Outcome = Outcome(img: Image, ok: bool)

  function RecoverFrom(scan: Scanner, img: Image, length: nat, off: nat, budget: Budget): (r: Outcome)
    ensures |r.img| == |img|
    decreases length - off
  {
    if off >= length then Outcome(img, true)
    else match scan(img, off)
      case Skip => RecoverFrom(scan, img, length, off + 1, budget)
      case Stop => Outcome(img, true)
      case Unreadable => Outcome(img, false)
      case Replay(ws, needed) =>
        var good := GoodPrefix(|img|, ws);
        if !Covers(budget, good) then Outcome(ApplyWrites(img, ws[..budget.n]), false)
        else if good < |ws| then Outcome(ApplyWrites(img, ws[..good]), false)
        else RecoverFrom(scan, ApplyWrites(img, ws), length, off + needed, Spend(budget, good))
  }

  // ---------------------------------------------------------------- running the loop

  /** Recovering img0 from the start is the same as recovering img from off with k home writes already spent. */
  ghost predicate Resumes(scan: Scanner, img0: Image, length: nat, img: Image, off: nat, k: nat) {
    && RecoverFrom(scan, img0, length, 0, Unlimited) == RecoverFrom(scan, img, length, off, Unlimited)
    && forall b: nat {:trigger RecoverFrom(scan, img, length, off, Limited(b))} ::
         RecoverFrom(scan, img0, length, 0, Limited(k + b)) == RecoverFrom(scan, img, length, off, Limited(b))
  }

  lemma {:induction false} NoBudgetNoWrite(scan: Scanner, img: Image, length: nat, off: nat)
    ensures RecoverFrom(scan, img, length, off, Limited(0)).img == img
    decreases length - off
  {
    if off < length {
      match scan(img, off)
      case Skip => NoBudgetNoWrite(scan, img, length, off + 1);
      case Stop =>
      case Unreadable =>
      case Replay(ws, needed) =>
        if ws == [] {
          NoBudgetNoWrite(scan, img, length, off + needed);
        }
    }
  }

  lemma ResumeWhole(scan: Scanner, img0: Image, length: nat, img: Image, off: nat, k: nat,
                    ws: seq<Write>, needed: Positive)
    requires Resumes(scan, img0, length, img, off, k)
    requires off < length && scan(img, off) == Replay(ws, needed)
    requires GoodPrefix(|img|, ws) == |ws|
    ensures Resumes(scan, img0, length, ApplyWrites(img, ws), off + needed, k + |ws|)
  {
    StepWhole(scan, img, length, off, ws, needed, Unlimited);
    forall b: nat
      ensures RecoverFrom(scan, img0, length, 0, Limited(k + |ws| + b))
           == RecoverFrom(scan, ApplyWrites(img, ws), length, off + needed, Limited(b))
    {
      StepWhole(scan, img, length, off, ws, needed, Limited(|ws| + b));
      assert Limited(k + |ws| + b) == Limited(k + (|ws| + b));
    }
  }

  lemma StepWhole(scan: Scanner, img: Image, length: nat, off: nat, ws: seq<Write>, needed: Positive, budget: Budget)
    requires off < length && scan(img, off) == Replay(ws, needed)
    requires GoodPrefix(|img|, ws) == |ws| && Covers(budget, |ws|)
    ensures RecoverFrom(scan, img, length, off, budget)
         == RecoverFrom(scan, ApplyWrites(img, ws), length, off + needed, Spend(budget, |ws|))
  {
  }

  lemma ResumeSkip(scan: Scanner, img0: Image, length: nat, img: Image, off: nat, k: nat)
    requires Resumes(scan, img0, length, img, off, k)
    requires off < length && scan(img, off) == Skip
    ensures Resumes(scan, img0, length, img, off + 1, k)
  {
    forall b: nat
      ensures RecoverFrom(scan, img0, length, 0, Limited(k + b)) == RecoverFrom(scan, img, length, off + 1, Limited(b))
    {
      assert RecoverFrom(scan, img, length, off, Limited(b)) == RecoverFrom(scan, img, length, off + 1, Limited(b));
    }
  }

  lemma ResumePart(scan: Scanner, img0: Image, length: nat, img: Image, off: nat, k: nat,
                   ws: seq<Write>, needed: Positive, j: nat)
    requires Resumes(scan, img0, length, img, off, k)
    requires off < length && scan(img, off) == Replay(ws, needed)
    requires j <= GoodPrefix(|img|, ws) && j < |ws|
    ensures RecoverFrom(scan, img0, length, 0, Limited(k + j)).img == ApplyWrites(img, ws[..j])
    ensures j == GoodPrefix(|img|, ws) ==>
              RecoverFrom(scan, img0, length, 0, Unlimited) == Outcome(ApplyWrites(img, ws[..j]), false)
  {
    hide RecoverFrom, ApplyWrites, GoodPrefix;
    StepPart(scan, img, length, off, ws, needed, j);
    assert RecoverFrom(scan, img, length, off, Limited(j)).img == ApplyWrites(img, ws[..j]);
  }

  lemma StepPart(scan: Scanner, img: Image, length: nat, off: nat, ws: seq<Write>, needed: Positive, j: nat)
    requires off < length && scan(img, off) == Replay(ws, needed)
    requires j <= GoodPrefix(|img|, ws) && j < |ws|
    ensures RecoverFrom(scan, img, length, off, Limited(j)).img == ApplyWrites(img, ws[..j])
    ensures j == GoodPrefix(|img|, ws) ==> RecoverFrom(scan, img, length, off, Unlimited) == Outcome(ApplyWrites(img, ws[..j]), false)
  {
    hide ApplyWrites, GoodPrefix;
  }

  /** The loop leaves at off without a write. */
  lemma ResumeEnd(scan: Scanner, img0: Image, length: nat, img: Image, off: nat, k: nat)
    requires Resumes(scan, img0, length, img, off, k)
    ensures RecoverFrom(scan, img0, length, 0, Limited(k)).img == img
    ensures off < length && scan(img, off).Unreadable? ==>
              RecoverFrom(scan, img0, length, 0, Unlimited) == Outcome(img, false)
    ensures off >= length || scan(img, off).Stop? ==>
              RecoverFrom(scan, img0, length, 0, Unlimited) == Outcome(img, true)
  {
    NoBudgetNoWrite(scan, img, length, off);
    assert Limited(k + 0) == Limited(k);
  }
}
