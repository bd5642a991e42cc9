/** Words as bit strings: the bitwise operators of the engine, by their effect on each bit. */
module Bits {

  /** Bit i of w, counted from the least significant. */
  predicate Bit(w: nat, i: nat)
    decreases i
  {
    if i == 0 then w % 2 == 1 else Bit(w / 2, i - 1)
  }

  function Or(a: nat, b: nat): nat {
    if a == 0 then b
    else if b == 0 then a
    else (if a % 2 == 1 || b % 2 == 1 then 1 else 0) + 2 * Or(a / 2, b / 2)
  }

  function AndNot(a: nat, b: nat): nat {
    if a == 0 then 0 else (if a % 2 == 1 && b % 2 == 0 then 1 else 0) + 2 * AndNot(a / 2, b / 2)
  }

  function Shl(x: nat, k: nat): (r: nat)
    ensures x >= 1 ==> r >= 1
    decreases k
  {
    if k == 0 then x else 2 * Shl(x, k - 1)
  }

  /** The complement of w within n bits. */
  function Not(w: nat, n: nat): nat
    decreases n
  {
    if n == 0 then 0 else (if w % 2 == 1 then 0 else 1) + 2 * Not(w / 2, n - 1)
  }

  function TrailingZeros(w: nat): nat
    requires w > 0
  {
    if w % 2 == 1 then 0 else 1 + TrailingZeros(w / 2)
  }

  function OnesCount(w: nat): nat {
    if w == 0 then 0 else w % 2 + OnesCount(w / 2)
  }

  lemma {:induction false} ZeroBit(i: nat)
    ensures !Bit(0, i)
    decreases i
  {
    if i > 0 { ZeroBit(i - 1); }
  }

  lemma {:induction false} OrBit(a: nat, b: nat, i: nat)
    ensures Bit(Or(a, b), i) == (Bit(a, i) || Bit(b, i))
    decreases i
  {
    ZeroBit(i);
    if i > 0 && a > 0 && b > 0 { OrBit(a / 2, b / 2, i - 1); }
  }

  lemma {:induction false} AndNotBit(a: nat, b: nat, i: nat)
    ensures Bit(AndNot(a, b), i) == (Bit(a, i) && !Bit(b, i))
    decreases i
  {
    ZeroBit(i);
    if i > 0 && a > 0 { AndNotBit(a / 2, b / 2, i - 1); }
  }

  lemma {:induction false} ShlBit(x: nat, k: nat, i: nat)
    ensures Bit(Shl(x, k), i) == (i >= k && Bit(x, i - k))
    decreases k
  {
    if k > 0 && i > 0 { ShlBit(x, k - 1, i - 1); }
  }

  lemma {:induction false} NotBit(w: nat, n: nat, i: nat)
    ensures Bit(Not(w, n), i) == (i < n && !Bit(w, i))
    decreases n
  {
    if n == 0 {
      ZeroBit(i);
    } else if i > 0 {
      NotBit(w / 2, n - 1, i - 1);
    }
  }

  /** The mask (1 << k) - 1 has exactly the k lowest bits. */
  lemma {:induction false} MaskBit(k: nat, i: nat)
    ensures Bit(Shl(1, k) - 1, i) == (i < k)
    decreases k
  {
    if k == 0 {
      ZeroBit(i);
    } else {
      MaskBit(k - 1, if i == 0 then 0 else i - 1);
      assert (2 * Shl(1, k - 1) - 1) / 2 == Shl(1, k - 1) - 1;
    }
  }

  lemma {:induction false} TrailingZerosBit(w: nat)
    requires w > 0
    ensures Bit(w, TrailingZeros(w))
    ensures forall j: nat :: j < TrailingZeros(w) ==> !Bit(w, j)
  {
    if w % 2 == 0 { TrailingZerosBit(w / 2); }
  }

  /** Words below 2^n have no bit from n on. */
  lemma {:induction false} HighBit(w: nat, n: nat, i: nat)
    requires w < Shl(1, n) && i >= n
    ensures !Bit(w, i)
    decreases n
  {
    if n == 0 {
      ZeroBit(i);
    } else {
      HighBit(w / 2, n - 1, i - 1);
    }
  }

  lemma {:induction false} OrBound(a: nat, b: nat, n: nat)
    requires a < Shl(1, n) && b < Shl(1, n)
    ensures Or(a, b) < Shl(1, n)
    decreases n
  {
    if n > 0 && a > 0 && b > 0 { OrBound(a / 2, b / 2, n - 1); }
  }

  lemma {:induction false} AndNotBound(a: nat, b: nat)
    ensures AndNot(a, b) <= a
  {
    if a > 0 { AndNotBound(a / 2, b / 2); }
  }

  lemma {:induction false} ShlMonotone(k: nat, n: nat)
    requires k < n
    ensures Shl(1, k) < Shl(1, n)
    decreases n
  {
    if k == 0 {
      if n > 1 { ShlMonotone(0, n - 1); }
    } else {
      ShlMonotone(k - 1, n - 1);
    }
  }

  lemma {:induction false} ShlBound(x: nat, m: nat, k: nat)
    requires x < Shl(1, m)
    ensures Shl(x, k) < Shl(1, m + k)
    decreases k
  {
    if k > 0 { ShlBound(x, m, k - 1); }
  }

  /** The number of set bits below n. */
  function Ones(w: nat, n: nat): nat
    decreases n
  {
    if n == 0 then 0 else Ones(w, n - 1) + if Bit(w, n - 1) then 1 else 0
  }

  lemma {:induction false} OnesHalf(w: nat, n: nat)
    requires n > 0
    ensures Ones(w, n) == w % 2 + Ones(w / 2, n - 1)
    decreases n
  {
    if n > 1 { OnesHalf(w, n - 1); }
  }

  /** Halving the word counts the same bits as looking at each of them. */
  lemma {:induction false} OnesCountIsOnes(w: nat, n: nat)
    requires w < Shl(1, n)
    ensures OnesCount(w) == Ones(w, n)
    decreases n
  {
    if n > 0 {
      OnesHalf(w, n);
      OnesCountIsOnes(w / 2, n - 1);
    }
  }
}
