/** The allocation bitmap: single bits in bytes, searched and counted a 64-bit word at a time. */
module Bitmaps {
  import opened Bytes
  import opened Bits

  /** Bit n of the byte string; bits beyond its end are clear. */
  predicate Has(bits: seq<Byte>, n: nat) {
    n / 8 < |bits| && Bit(bits[n / 8], n % 8)
  }

  // ---------------------------------------------------------------- words

  lemma ByteHighBit(b: Byte, i: nat)
    requires i >= 8
    ensures !Bit(b, i)
  {
    assert Shl(1, 8) == 256 by { assert Shl(1, 4) == 16; assert Shl(1, 6) == 64; }
    HighBit(b, 8, i);
  }

  /** The free bits of a word from position lo on. */
  function FreeFrom(word: nat, lo: nat): nat {
    if lo > 0 then AndNot(Not(word, 64), Shl(1, lo) - 1) else Not(word, 64)
  }

  lemma FreeFromBit(word: nat, lo: nat, j: nat)
    ensures Bit(FreeFrom(word, lo), j) == (lo <= j < 64 && !Bit(word, j))
  {
    hide Bit, Not, AndNot, Shl;
    NotBit(word, 64, j);
    if lo > 0 {
      MaskBit(lo, j);
      AndNotBit(Not(word, 64), Shl(1, lo) - 1, j);
    }
  }

  /** A word or its absence of free bits, as the search reads it. */
  lemma FreeFromSearch(word: nat, lo: nat)
    requires lo < 64
    ensures FreeFrom(word, lo) == 0 ==> forall j :: lo <= j < 64 ==> Bit(word, j)
    ensures FreeFrom(word, lo) > 0 ==>
              var tz := TrailingZeros(FreeFrom(word, lo));
              lo <= tz < 64 && !Bit(word, tz) && forall j :: lo <= j < tz ==> Bit(word, j)
  {
    hide Bit, FreeFrom, TrailingZeros;
    var inv := FreeFrom(word, lo);
    forall j: nat ensures Bit(inv, j) == (lo <= j < 64 && !Bit(word, j)) { FreeFromBit(word, lo, j); }
    if inv == 0 {
      forall j: nat ensures !Bit(inv, j) { ZeroBit(j); }
    } else {
      TrailingZerosBit(inv);
    }
  }

  class Bitmap {
    var bits: seq<Byte>
    var size: nat

    ghost predicate Valid()
      reads this
    {
      size <= 8 * |bits|
    }

    /** The set bits below size. */
    ghost function Used(): (s: set<nat>)
      reads this
    {
      set n: nat | n < size && Has(bits, n)
    }

    /** No bit is set between size and the end of the bytes. */
    ghost predicate Padded()
      reads this
    {
      forall n: nat :: size <= n ==> !Has(bits, n)
    }

    constructor (n: nat)
      ensures Valid() && Padded() && size == n && |bits| == (n + 7) / 8 && Used() == {}
    {
      bits := seq((n + 7) / 8, _ => 0);
      size := n;
      new;
      forall k: nat ensures !Has(bits, k) { ZeroBit(k % 8); }
    }

    /** Wraps existing bytes. */
    constructor FromBytes(data: seq<Byte>, n: nat)
      requires n <= 8 * |data|
      ensures Valid() && size == n && bits == data
    {
      bits, size := data, n;
    }

    method IsSet(n: nat) returns (b: bool)
      requires Valid()
      ensures b <==> n in Used()
    {
      if n >= size { return false; }
      b := Bit(bits[n / 8], n % 8);
    }

    method Set(n: nat)
      requires Valid()
      modifies this`bits
      ensures Valid() && |bits| == |old(bits)|
      ensures forall k: nat :: Has(bits, k) <==> old(Has(bits, k)) || (k == n && n < size)
      ensures Used() == if n < size then old(Used()) + {n} else old(Used())
      ensures old(Padded()) ==> Padded()
    {
      if n >= size { return; }
      ghost var before := bits;
      SetByte(bits[n / 8], n % 8);
      bits := bits[n / 8 := Or(bits[n / 8], Shl(1, n % 8))];
      forall k: nat ensures Has(bits, k) <==> Has(before, k) || k == n {
        SetByteBit(before[n / 8], n % 8, k % 8);
      }
    }

    method Clear(n: nat)
      requires Valid()
      modifies this`bits
      ensures Valid() && |bits| == |old(bits)|
      ensures forall k: nat :: Has(bits, k) <==> old(Has(bits, k)) && !(k == n && n < size)
      ensures Used() == if n < size then old(Used()) - {n} else old(Used())
      ensures old(Padded()) ==> Padded()
    {
      if n >= size { return; }
      ghost var before := bits;
      AndNotBound(bits[n / 8], Shl(1, n % 8));
      bits := bits[n / 8 := AndNot(bits[n / 8], Shl(1, n % 8))];
      forall k: nat ensures Has(bits, k) <==> Has(before, k) && k != n {
        ClearByteBit(before[n / 8], n % 8, k % 8);
      }
    }

    /** Eight bytes gathered into one word, the lowest first; bytes beyond the end count as zero. */
    method LoadWord(w: nat) returns (word: nat)
      ensures forall j: nat :: j < 64 ==> (Bit(word, j) <==> Has(bits, 64 * w + j))
      ensures word < Shl(1, 64)
    {
      hide Bit, Or, Shl;
      word := 0;
      var base := w * 8;
      var i := 0;
      forall j: nat ensures !Bit(0, j) { ZeroBit(j); }
      while i < 8 && base + i < |bits|
        invariant 0 <= i <= 8
        invariant word < Shl(1, 64)
        invariant forall j: nat :: Bit(word, j) <==> j < 8 * i && Has(bits, 64 * w + j)
      {
        ghost var before := word;
        LoadBound(word, bits[base + i], i);
        word := Or(word, Shl(bits[base + i], i * 8));
        forall j: nat ensures Bit(word, j) <==> j < 8 * (i + 1) && Has(bits, 64 * w + j) {
          LoadByte(bits, before, w, i, j);
        }
        i := i + 1;
      }
    }

    /** The least clear bit at or after start and below size, if there is one. */
    method FindNext(start: nat) returns (idx: nat, ok: bool)
      requires Valid()
      ensures ok ==> start <= idx < size && !Has(bits, idx) && forall n: nat :: start <= n < idx ==> Has(bits, n)
      ensures !ok ==> idx == 0 && forall n: nat :: start <= n < size ==> Has(bits, n)
    {
      hide Has, Bit, FreeFrom, TrailingZeros;
      var wordIdx, bitOff := start / 64, start % 64;
      var nWords := (|bits| + 7) / 8;
      var w := wordIdx;
      while w <= nWords
        invariant wordIdx <= w
        invariant forall n: nat :: start <= n < 64 * w && n < size ==> Has(bits, n)
        decreases nWords + 1 - w
      {
        var word := LoadWord(w);
        var lo := if w == wordIdx then bitOff else 0;
        var inv := FreeFrom(word, lo);
        FreeFromSearch(word, lo);
        if inv != 0 {
          var tz := TrailingZeros(inv);
          idx := w * 64 + tz;
          WordBits(bits, word, w, lo, tz);
          if idx < size { return idx, true; }
        } else {
          WordBits(bits, word, w, lo, 64);
        }
        w := w + 1;
      }
      return 0, false;
    }

    /** Counts word by word, then the remaining bytes one by one. */
    method Count() returns (count: nat)
      requires Valid()
      ensures count == CountTo(bits, 8 * |bits|)
      ensures Padded() ==> count == |Used()|
    {
      hide Has, Bit, OnesCount, CountTo, Shl;
      count := 0;
      CountNone(bits);
      var i := 0;
      while i + 8 <= |bits|
        invariant 0 <= i <= |bits| && i % 8 == 0
        invariant count == CountTo(bits, 8 * i)
      {
        var word := LoadWord(i / 8);
        assert 64 * (i / 8) == 8 * i;
        CountSpan(bits, 8 * i, word, 64);
        OnesCountIsOnes(word, 64);
        count := count + OnesCount(word);
        i := i + 8;
      }
      i := (|bits| / 8) * 8;
      while i < |bits|
        invariant 0 <= i <= |bits|
        invariant count == CountTo(bits, 8 * i)
      {
        forall j: nat | j < 8 ensures Bit(bits[i], j) <==> Has(bits, 8 * i + j) { HasByte(bits, i, j); }
        CountSpan(bits, 8 * i, bits[i], 8);
        ByteBound(bits[i]);
        OnesCountIsOnes(bits[i], 8);
        count := count + OnesCount(bits[i]);
        i := i + 1;
      }
      if Padded() {
        CountPadding(bits, size, 8 * |bits|);
        CountIsCard(bits, size);
      }
    }
  }

  lemma CountNone(bits: seq<Byte>)
    ensures CountTo(bits, 0) == 0
  {
  }

  lemma HasByte(bits: seq<Byte>, i: nat, j: nat)
    requires i < |bits| && j < 8
    ensures Has(bits, 8 * i + j) <==> Bit(bits[i], j)
  {
    assert (8 * i + j) / 8 == i && (8 * i + j) % 8 == j;
  }

  lemma LoadBound(word: nat, b: Byte, i: nat)
    requires i < 8 && word < Shl(1, 64)
    ensures Or(word, Shl(b, i * 8)) < Shl(1, 64)
  {
    hide Shl, Or;
    ByteBound(b);
    ShlBound(b, 8, i * 8);
    if i < 7 { ShlMonotone(8 + i * 8, 64); }
    OrBound(word, Shl(b, i * 8), 64);
  }

  lemma ByteBound(b: Byte)
    ensures b < Shl(1, 8)
  {
    assert Shl(1, 8) == 256 by { assert Shl(1, 4) == 16; assert Shl(1, 6) == 64; }
  }

  /** The number of set bits below n, one at a time. */
  function CountTo(bits: seq<Byte>, n: nat): nat {
    if n == 0 then 0 else CountTo(bits, n - 1) + if Has(bits, n - 1) then 1 else 0
  }

  lemma {:induction false} CountIsCard(bits: seq<Byte>, n: nat)
    ensures CountTo(bits, n) == |set k: nat | k < n && Has(bits, k)|
  {
    hide Has;
    if n > 0 {
      CountIsCard(bits, n - 1);
      var s, t := set k: nat | k < n - 1 && Has(bits, k), set k: nat | k < n && Has(bits, k);
      assert t == if Has(bits, n - 1) then s + {n - 1} else s;
    } else {
      assert (set k: nat | k < n && Has(bits, k)) == {};
    }
  }

  /** A word read at bit base adds its set bits to the count. */
  lemma {:induction false} CountSpan(bits: seq<Byte>, base: nat, word: nat, m: nat)
    requires forall j: nat :: j < m ==> (Bit(word, j) <==> Has(bits, base + j))
    ensures CountTo(bits, base + m) == CountTo(bits, base) + Ones(word, m)
    decreases m
  {
    hide Has, Bit;
    if m > 0 {
      CountSpan(bits, base, word, m - 1);
      assert Bit(word, m - 1) <==> Has(bits, base + (m - 1));
    }
  }

  lemma {:induction false} CountPadding(bits: seq<Byte>, size: nat, n: nat)
    requires size <= n && forall k: nat :: size <= k ==> !Has(bits, k)
    ensures CountTo(bits, n) == CountTo(bits, size)
    decreases n
  {
    hide Has;
    if size < n { CountPadding(bits, size, n - 1); }
  }

  /** Set bits lo .. hi-1 of word w are set bits of the string. */
  lemma WordBits(bits: seq<Byte>, word: nat, w: nat, lo: nat, hi: nat)
    requires forall j: nat :: j < 64 ==> (Bit(word, j) <==> Has(bits, 64 * w + j))
    requires hi <= 64 && forall j: nat :: lo <= j < hi ==> Bit(word, j)
    ensures forall n: nat :: 64 * w + lo <= n < 64 * w + hi ==> Has(bits, n)
  {
    hide Bit, Has;
    forall n: nat | 64 * w + lo <= n < 64 * w + hi ensures Has(bits, n) {
      var j: nat := n - 64 * w;
      assert Bit(word, j);
    }
  }

  lemma LoadByte(bits: seq<Byte>, before: nat, w: nat, i: nat, j: nat)
    requires i < 8 && w * 8 + i < |bits|
    requires Bit(before, j) <==> j < 8 * i && Has(bits, 64 * w + j)
    ensures Bit(Or(before, Shl(bits[w * 8 + i], i * 8)), j) <==> j < 8 * (i + 1) && Has(bits, 64 * w + j)
  {
    hide Bit, Or, Shl;
    var b := bits[w * 8 + i];
    OrBit(before, Shl(b, i * 8), j);
    ShlBit(b, i * 8, j);
    if j >= 8 * (i + 1) {
      ByteHighBit(b, j - i * 8);
    } else if j >= 8 * i {
      assert (64 * w + j) / 8 == w * 8 + i && (64 * w + j) % 8 == j - 8 * i;
    }
  }

  lemma SetByte(b: Byte, k: nat)
    requires k < 8
    ensures Or(b, Shl(1, k)) < 256
  {
    assert Shl(1, 8) == 256 by { assert Shl(1, 4) == 16; assert Shl(1, 6) == 64; }
    ShlMonotone(k, 8);
    OrBound(b, Shl(1, k), 8);
  }

  lemma OneBit(k: nat, i: nat)
    ensures Bit(Shl(1, k), i) <==> i == k
  {
    ShlBit(1, k, i);
    if i > k { ZeroBit(i - k - 1); }
  }

  lemma SetByteBit(b: Byte, k: nat, i: nat)
    ensures Bit(Or(b, Shl(1, k)), i) <==> Bit(b, i) || i == k
  {
    hide Bit, Or, Shl;
    OrBit(b, Shl(1, k), i);
    OneBit(k, i);
  }

  lemma ClearByteBit(b: Byte, k: nat, i: nat)
    ensures Bit(AndNot(b, Shl(1, k)), i) <==> Bit(b, i) && i != k
  {
    hide Bit, AndNot, Shl;
    AndNotBit(b, Shl(1, k), i);
    OneBit(k, i);
  }
}
