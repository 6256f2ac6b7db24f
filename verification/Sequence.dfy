/** The 32-bit sequence counter of the transmit side, against the number of allocations. */
module Sequence {
  import opened Words

  /** `fetch_add(1)` on 32 bits. */
  function Next(v: bv32): bv32 {
    v + 1
  }

  /** The counter after n allocations: it starts at 0 and wraps. */
  function Wrapped(n: nat): bv32 {
    if n == 0 then 0 else Next(Wrapped(n - 1))
  }

  /** How many numbers there are. */
  const PERIOD := 0x1_0000_0000

  lemma NextNumber(n: nat)
    ensures Wrapped(n + 1) == Next(Wrapped(n))
  {
    hide Next;
  }

  lemma NextIsInjective(v: bv32, w: bv32)
    ensures Next(v) == Next(w) <==> v == w
  {
  }

  /** Only the distance between two allocations matters. */
  lemma {:induction false} Distance(i: nat, d: nat)
    ensures Wrapped(i) == Wrapped(i + d) <==> Wrapped(d) == 0
    decreases i
  {
    hide Wrapped, Next;
    NoNumber();
    if i > 0 {
      Distance(i - 1, d);
      NextNumber(i - 1);
      NextNumber(i - 1 + d);
      NextIsInjective(Wrapped(i - 1), Wrapped(i - 1 + d));
    }
  }

  lemma NoNumber()
    ensures Wrapped(0) == 0
  {
  }

  lemma NextOfEven(w: bv32, x: bv32)
    requires x == w << 1
    ensures Next(x) == (w << 1) | 1
  {
  }

  lemma NextOfOdd(w: bv32, x: bv32, y: bv32, u: bv32)
    requires x == (w << 1) | 1 && y == Next(x) && u == Next(w)
    ensures y == u << 1
  {
  }

  lemma NextOfTwice(w: bv32)
    ensures Next(Twice(w, false)) == Twice(w, true)
    ensures Next(Twice(w, true)) == Twice(Next(w), false)
  {
    hide Next;
    NextOfEven(w, Twice(w, false));
    NextOfOdd(w, Twice(w, true), Next(Twice(w, true)), Next(w));
  }

  lemma TwiceZero()
    ensures Twice(0, false) == 0
  {
  }

  /** Counting twice as far shifts the counter. */
  lemma {:induction false} WrappedTwice(k: nat)
    ensures Wrapped(2 * k) == Twice(Wrapped(k), false)
    ensures Wrapped(2 * k + 1) == Twice(Wrapped(k), true)
  {
    hide Wrapped, Next, Twice;
    if k == 0 {
      NoNumber();
      TwiceZero();
    } else {
      WrappedTwice(k - 1);
      NextNumber(k - 1);
      NextNumber(2 * (k - 1));
      NextNumber(2 * (k - 1) + 1);
      NextOfTwice(Wrapped(k - 1));
    }
    NextNumber(2 * k);
    NextOfTwice(Wrapped(k));
  }

  lemma TwiceIsOdd(w: bv32)
    ensures Twice(w, true) & 1 != 0
  {
  }

  lemma {:induction false} ShlOfZero(n: nat)
    ensures Shl(0, n) == 0
  {
    if n > 0 {
      ShlOfZero(n - 1);
    }
  }

  lemma Shl31(c: bv32, d: bv32, e: bv32, f: bv32)
    requires d == c << 8 && e == d << 8 && f == e << 8
    ensures Shl(c, 31) == f << 7
  {
    hide Shl;
    ShlTwice(c, 24, 7);
    Shl24(c, d, e);
    Shl7(f);
  }

  lemma LowBitAtTop(c: bv32, d: bv32, e: bv32, f: bv32)
    requires d == c << 8 && e == d << 8 && f == e << 8 && f << 7 == 0
    ensures c & 1 == 0
  {
  }

  /** The low bit is not shifted out in fewer than 32 steps. */
  lemma LowBitSurvives(c: bv32, j: nat)
    requires j < 32 && Shl(c, j) == 0
    ensures c & 1 == 0
  {
    hide Shl;
    ShlTwice(c, j, 31 - j);
    ShlOfZero(31 - j);
    var d := c << 8;
    var e := d << 8;
    var f := e << 8;
    Shl31(c, d, e, f);
    LowBitAtTop(c, d, e, f);
  }

  lemma ShlOnce(c: bv32, j: nat)
    ensures Shl(c, j + 1) == Shl(Twice(c, false), j)
  {
  }

  /** A counter whose low 32 - j bits are zero has counted a multiple of 2^(32 - j). */
  lemma {:induction false} ZeroMeansMultiple(k: nat, j: nat) returns (q: nat)
    requires j <= 32 && Shl(Wrapped(k), j) == 0
    ensures k == q * Pow2(32 - j)
    decreases 32 - j
  {
    hide Shl, Wrapped, Pow2, Twice;
    if j == 32 {
      q := k;
      assert Pow2(0) == 1 by { Pow2Unfold(0); }
    } else {
      LowBitSurvives(Wrapped(k), j);
      var m := k / 2;
      WrappedTwice(m);
      TwiceIsOdd(Wrapped(m));
      ShlOnce(Wrapped(m), j);
      q := ZeroMeansMultiple(m, j + 1);
      Pow2Unfold(32 - j);
      Regroup(k, m, q, Pow2(32 - (j + 1)), Pow2(32 - j));
    }
  }

  lemma Regroup(k: nat, m: nat, q: nat, p: nat, p': nat)
    requires k == 2 * m && m == q * p && p' == 2 * p
    ensures k == q * p'
  {
  }

  lemma Pow2Of32()
    ensures Pow2(32) == PERIOD
  {
    assert Pow2(8) == 0x100 by { assert Pow2(4) == 16; }
    assert Pow2(16) == 0x1_0000 by { assert Pow2(12) == 0x1000; }
    assert Pow2(24) == 0x100_0000 by { assert Pow2(20) == 0x10_0000; }
    assert Pow2(28) == 0x1000_0000;
  }

  lemma {:induction false} WrappedMultiple(q: nat, n: nat)
    ensures Wrapped(q * Pow2(n)) == Shl(Wrapped(q), n)
    decreases n
  {
    hide Wrapped, Shl, Pow2, Twice;
    Pow2Unfold(n);
    if n == 0 {
      assert q * Pow2(n) == q;
      NoShift(Wrapped(q));
    } else {
      WrappedMultiple(2 * q, n - 1);
      Regroup(2 * q * Pow2(n - 1), q * Pow2(n - 1), q, Pow2(n - 1), Pow2(n));
      WrappedTwice(q);
      ShlOnce(Wrapped(q), n - 1);
    }
  }

  lemma NoShift(c: bv32)
    ensures Shl(c, 0) == c
  {
  }

  lemma ShiftedOut(c: bv32, d: bv32, e: bv32)
    requires d == c << 8 && e == d << 8
    ensures Shl(c, 32) == 0
  {
    hide Shl;
    var f := e << 8;
    ShlTwice(c, 24, 8);
    Shl24(c, d, e);
    Shl8(f);
    Gone(c, d, e, f);
  }

  lemma Gone(c: bv32, d: bv32, e: bv32, f: bv32)
    requires d == c << 8 && e == d << 8 && f == e << 8
    ensures f << 8 == 0
  {
  }

  lemma ZeroIffMultiple(k: nat)
    ensures Wrapped(k) == 0 <==> k % PERIOD == 0
  {
    hide Wrapped, Pow2, Shl;
    Pow2Of32();
    if Wrapped(k) == 0 {
      NoShift(Wrapped(k));
      var q := ZeroMeansMultiple(k, 0);
    }
    if k % PERIOD == 0 {
      var q := k / PERIOD;
      WrappedMultiple(q, 32);
      var d := Wrapped(q) << 8;
      ShiftedOut(Wrapped(q), d, d << 8);
    }
  }

  /** Two allocations share a number exactly when they are a multiple of 2^32 apart. */
  lemma NumbersRepeatIff(i: nat, j: nat)
    requires i <= j
    ensures Wrapped(i) == Wrapped(j) <==> (j - i) % PERIOD == 0
  {
    hide Wrapped;
    Distance(i, j - i);
    ZeroIffMultiple(j - i);
  }

  // ---- The number itself -------------------------------------------------------------------------

  lemma LowMask31()
    ensures LowMask(31) == 0x7FFF_FFFF
  {
    assert LowMask(4) == 0xF;
    assert LowMask(8) == 0xFF;
    assert LowMask(12) == 0xFFF;
    assert LowMask(16) == 0xFFFF;
    assert LowMask(20) == 0xF_FFFF;
    assert LowMask(24) == 0xFF_FFFF;
    assert LowMask(28) == 0xFFF_FFFF;
  }

  lemma HalfDiffersOnTop(w: bv32, odd: bool, c: bv32, h: bv32, x: bv32)
    requires c == Twice(w, odd) && h == c >> 1 && IsXor(h, w, x)
    ensures x & 0x7FFF_FFFF == 0
    ensures (c & 1 != 0) == odd
  {
  }

  lemma {:induction false} LowBitsPrefix(a: bv32, b: bv32, n: nat, k: nat)
    requires LowBits(a, n + k) == LowBits(b, n + k)
    ensures LowBits(a, n) == LowBits(b, n)
  {
    hide LowBits;
    LowBitsSplit(a, n, k);
    LowBitsSplit(b, n, k);
    assert LowBits(a, n) == LowBits(a, n + k)[..n];
    assert LowBits(b, n) == LowBits(b, n + k)[..n];
  }

  /** Doubling and halving again loses only the top bit. */
  lemma HalfKeepsValue(w: bv32, odd: bool, c: bv32, h: bv32, n: nat)
    requires c == Twice(w, odd) && h == c >> 1 && n <= 31
    ensures Value(h, n) == Value(w, n)
  {
    hide LowBits, Value, LowMask;
    var x := h ^ w;
    HalfDiffersOnTop(w, odd, c, h, x);
    LowMask31();
    LowBitsEqual(h, w, x, 31);
    LowBitsPrefix(h, w, n, 31 - n);
    ValueDetermines(h, w, n);
  }

  lemma ValueOfDouble(w: bv32, odd: bool, n: nat)
    requires 0 < n <= 32
    ensures Value(Twice(w, odd), n) == (if odd then 1 else 0) + 2 * Value(w, n - 1)
  {
    hide Twice, Value;
    var c := Twice(w, odd);
    HalfKeepsValue(w, odd, c, c >> 1, n - 1);
    HalfDiffersOnTop(w, odd, c, c >> 1, (c >> 1) ^ w);
    ValueUnfold(c, c >> 1, odd, n);
  }

  lemma HalfRemainder(n: nat, m: nat, odd: bool, p: nat, p': nat)
    requires n == 2 * m + (if odd then 1 else 0) && p > 0 && p' == 2 * p
    ensures n % p' == (if odd then 1 else 0) + 2 * (m % p)
  {
    var q, r := m / p, m % p;
    TwiceThat(q, p, p');
    RemainderIs(n, q, p', (if odd then 1 else 0) + 2 * r);
  }

  lemma TwiceThat(q: nat, p: nat, p': nat)
    requires p' == 2 * p
    ensures q * p' == 2 * (q * p)
  {
  }

  lemma RemainderIs(n: nat, q: nat, p: nat, r: nat)
    requires p > 0 && n == q * p + r && r < p
    ensures n % p == r
  {
    if n / p < q {
      assert (n / p + 1) * p <= q * p;
    } else if n / p > q {
      assert (q + 1) * p <= n / p * p;
    }
  }

  lemma {:induction false} ValueOfWrapped(n: nat, k: nat)
    requires k <= 32
    ensures Value(Wrapped(n), k) == n % Pow2(k)
    decreases k
  {
    hide Value, Wrapped, Pow2, Twice;
    Pow2Unfold(k);
    if k == 0 {
      ValueOfNothing(Wrapped(n));
    } else {
      var m, odd := n / 2, n % 2 == 1;
      WrappedTwice(m);
      ValueOfWrapped(m, k - 1);
      ValueOfDouble(Wrapped(m), odd, k);
      HalfRemainder(n, m, odd, Pow2(k - 1), Pow2(k));
    }
  }

  /** The n-th allocation, counted from 0, is given the number n modulo 2^32. */
  lemma NumberOfAllocation(n: nat)
    ensures Value(Wrapped(n), 32) == n % 0x1_0000_0000
  {
    hide Value, Wrapped, Pow2;
    ValueOfWrapped(n, 32);
    Pow2Of32();
  }
}
