/**
 Machine words read as coefficient sequences.  `TopBits` reads from bit 23 downwards, as
 the 24-bit register does; `LowBits` reads from bit 0 upwards, as the reflected 32-bit
 register does.  The facts about one bit are bit-vector facts; the rest is induction.
 */
module Words {
  import opened PolynomialRegister

  predicate IsXor(a: bv32, b: bv32, x: bv32) {
    x == a ^ b
  }

  predicate NoneOf(x: bv32, mask: bv32) {
    x & mask == 0
  }

  // ---- From bit 23 downwards -------------------------------------------------------------

  function TopBits(c: bv32, n: nat): (p: Poly)
    ensures |p| == n
    decreases n
  {
    if n == 0 then [] else [c & 0x800000 != 0] + TopBits(c << 1, n - 1)
  }

  /** The bits that TopBits reads in n steps. */
  function TopMask(n: nat): (m: bv32)
    ensures m <= 0xFFFFFF
  {
    if n == 0 then 0 else 0x800000 | (TopMask(n - 1) >> 1)
  }

  function Shl(c: bv32, n: nat): bv32
    decreases n
  {
    if n == 0 then c else Shl(c << 1, n - 1)
  }

  lemma PeelTopXor(a: bv32, b: bv32, c: bv32)
    requires c == a ^ b
    ensures c << 1 == (a << 1) ^ (b << 1)
    ensures (c & 0x800000 != 0) == ((a & 0x800000 != 0) != (b & 0x800000 != 0))
  {
  }

  lemma JoinTopXor(a: bv32, b: bv32, c: bv32, n: nat)
    requires n > 0 && (c & 0x800000 != 0) == ((a & 0x800000 != 0) != (b & 0x800000 != 0))
    requires TopBits(c << 1, n - 1) == Add(TopBits(a << 1, n - 1), TopBits(b << 1, n - 1))
    ensures TopBits(c, n) == Add(TopBits(a, n), TopBits(b, n))
  {
  }

  lemma {:induction false} TopBitsXor(a: bv32, b: bv32, c: bv32, n: nat)
    requires IsXor(a, b, c)
    ensures TopBits(c, n) == Add(TopBits(a, n), TopBits(b, n))
    decreases n
  {
    if n > 0 {
      PeelTopXor(a, b, c);
      TopBitsXor(a << 1, b << 1, c << 1, n - 1);
      JoinTopXor(a, b, c, n);
    }
  }

  lemma PeelTop(x: bv32, y: bv32, m: bv32, k: bv32)
    requires m <= 0xFFFFFF && y == x << 1 && k == 0x800000 | (m >> 1)
    ensures x & 0x800000 == 0 && y & m == 0 <==> x & k == 0
  {
  }

  lemma NextTopIsZero(x: bv32, n: nat)
    requires n > 0
    ensures TopBits(x, n) == Zeros(n) <==> x & 0x800000 == 0 && TopBits(x << 1, n - 1) == Zeros(n - 1)
  {
    assert TopBits(x, n)[0] == (x & 0x800000 != 0) && TopBits(x, n)[1..] == TopBits(x << 1, n - 1);
    assert Zeros(n)[1..] == Zeros(n - 1);
    assert TopBits(x << 1, n - 1) == Zeros(n - 1) && x & 0x800000 == 0 ==> TopBits(x, n) == [false] + Zeros(n - 1);
    assert [false] + Zeros(n - 1) == Zeros(n);
  }

  lemma TopZeroStep(x: bv32, y: bv32, m: bv32, k: bv32, n: nat)
    requires n > 0 && y == x << 1
    requires TopBits(y, n - 1) == Zeros(n - 1) <==> y & m == 0
    requires x & 0x800000 == 0 && y & m == 0 <==> x & k == 0
    ensures TopBits(x, n) == Zeros(n) <==> x & k == 0
  {
    NextTopIsZero(x, n);
  }

  lemma {:induction false} TopBitsAreZero(x: bv32, n: nat, m: bv32)
    requires m == TopMask(n)
    ensures TopBits(x, n) == Zeros(n) <==> x & m == 0
    decreases n
  {
    if n > 0 {
      var y, before := x << 1, TopMask(n - 1);
      TopBitsAreZero(y, n - 1, before);
      PeelTop(x, y, before, m);
      TopZeroStep(x, y, before, m, n);
    }
  }

  lemma TopBitsNone(x: bv32, n: nat)
    ensures TopBits(x, n) == Zeros(n) <==> NoneOf(x, TopMask(n))
  {
    hide TopBits, TopMask, Zeros;
    TopBitsAreZero(x, n, TopMask(n));
  }

  /** Exactly the bits under the mask decide. */
  lemma TopBitsEqual(a: bv32, b: bv32, x: bv32, n: nat)
    requires IsXor(a, b, x)
    ensures TopBits(a, n) == TopBits(b, n) <==> NoneOf(x, TopMask(n))
  {
    hide TopBits, TopMask, Add, Zeros, NoneOf;
    TopBitsXor(a, b, x, n);
    TopBitsNone(x, n);
    hide IsXor;
    SumIsZero(TopBits(a, n), TopBits(b, n));
  }

  lemma TopMasks()
    ensures TopMask(8) == 0xFF0000 && TopMask(24) == 0xFFFFFF
  {
    assert TopMask(2) == 0xC00000;
    assert TopMask(4) == 0xF00000;
    assert TopMask(6) == 0xFC0000;
    assert TopMask(8) == 0xFF0000;
    assert TopMask(10) == 0xFFC000;
    assert TopMask(12) == 0xFFF000;
    assert TopMask(14) == 0xFFFC00;
    assert TopMask(16) == 0xFFFF00;
    assert TopMask(18) == 0xFFFFC0;
    assert TopMask(20) == 0xFFFFF0;
    assert TopMask(22) == 0xFFFFFC;
  }

  lemma {:induction false} TopBitsOfZero(n: nat)
    ensures TopBits(0, n) == Zeros(n)
  {
    if n > 0 {
      TopBitsOfZero(n - 1);
    }
  }

  lemma {:induction false} TopBitsSplit(c: bv32, n: nat, k: nat)
    ensures TopBits(c, n + k) == TopBits(c, n) + TopBits(Shl(c, n), k)
    decreases n
  {
    if n > 0 {
      TopBitsSplit(c << 1, n - 1, k);
    }
  }

  lemma {:induction false} ShlTwice(c: bv32, n: nat, k: nat)
    ensures Shl(c, n + k) == Shl(Shl(c, n), k)
    decreases n
  {
    if n > 0 {
      ShlTwice(c << 1, n - 1, k);
    }
  }

  lemma Shl8(c: bv32)
    ensures Shl(c, 8) == c << 8
  {
  }

  lemma Shl23(c: bv32, d: bv32, e: bv32)
    requires d == c << 8 && e == d << 8
    ensures Shl(c, 23) == e << 7
  {
    ShlTwice(c, 8, 15);
    ShlTwice(d, 8, 7);
    Shl8(c);
    Shl8(d);
    Shl7(e);
  }

  lemma Shl7(c: bv32)
    ensures Shl(c, 7) == c << 7
  {
  }

  lemma TopBitsSplit8(c: bv32, k: nat)
    ensures TopBits(c, 8 + k) == TopBits(c, 8) + TopBits(c << 8, k)
  {
    TopBitsSplit(c, 8, k);
    Shl8(c);
  }

  lemma TopBitsMasked(a: bv32, b: bv32, x: bv32)
    requires x == a ^ b && x & 0xFFFFFF == 0
    ensures TopBits(a, 24) == TopBits(b, 24)
  {
    TopMasks();
    TopBitsEqual(a, b, x, 24);
  }

  lemma {:induction false} TopBitsAt(c: bv32, n: nat, k: nat)
    requires k < n
    ensures TopBits(c, n)[k] == (Shl(c, k) & 0x800000 != 0)
    decreases n
  {
    if k > 0 {
      TopBitsAt(c << 1, n - 1, k - 1);
    }
  }

  lemma TopBitsOfThree(c: bv32)
    ensures TopBits(c, 24) == TopBits(c, 8) + (TopBits(c << 8, 8) + TopBits(c << 8 << 8, 8))
  {
    hide TopBits;
    TopBitsSplit8(c, 16);
    TopBitsSplit8(c << 8, 8);
  }

  /** Shifting the 24-bit register moves its coefficients up by one. */
  lemma TopBitsShift(c: bv32)
    ensures TopBits(c << 1, 24) == TopBits(c, 24)[1..] + [false]
  {
    hide TopBits, Shl;
    TopBitsSplit(c, 24, 1);
    LastTopBit(Shl(c, 24), c);
    TopBitsUnfold(c, 25);
    assert TopBits(c, 25) == TopBits(c, 24) + [false];
    assert TopBits(c << 1, 24) == TopBits(c, 25)[1..];
  }

  lemma TopBitsUnfold(c: bv32, n: nat)
    ensures TopBits(c, n) == if n == 0 then [] else [c & 0x800000 != 0] + TopBits(c << 1, n - 1)
  {
  }

  lemma LastTopBit(out: bv32, c: bv32)
    requires out == Shl(c, 24)
    ensures TopBits(out, 1) == [false]
  {
    hide TopBits, Shl;
    Shl24(c, c << 8, c << 8 << 8);
    Gone24(c);
    TopBitsUnfold(out, 1);
    TopBitsUnfold(out << 1, 0);
  }

  lemma Shl24(c: bv32, d: bv32, e: bv32)
    requires d == c << 8 && e == d << 8
    ensures Shl(c, 24) == e << 8
  {
    hide Shl;
    ShlTwice(c, 16, 8);
    ShlTwice(c, 8, 8);
    Shl8(c);
    Shl8(d);
    Shl8(e);
  }

  /** The parity of TopBits(c, n), one bit at a time. */
  predicate TopParity(c: bv32, n: nat)
    decreases n
  {
    if n == 0 then false else (c & 0x800000 != 0) != TopParity(c << 1, n - 1)
  }

  lemma {:induction false} TopBitsParity(c: bv32, n: nat)
    ensures Parity(TopBits(c, n)) == TopParity(c, n)
    decreases n
  {
    if n > 0 {
      TopBitsParity(c << 1, n - 1);
      assert TopBits(c, n)[1..] == TopBits(c << 1, n - 1);
    }
  }

  lemma Gone24(c: bv32)
    ensures (c << 8 << 8 << 8) & 0x800000 == 0
  {
  }

  // ---- From bit 0 upwards ------------------------------------------------------------------

  function LowBits(c: bv32, n: nat): (p: Poly)
    ensures |p| == n
    decreases n
  {
    if n == 0 then [] else [c & 1 != 0] + LowBits(c >> 1, n - 1)
  }

  /** The bits that LowBits reads in n steps. */
  function LowMask(n: nat): bv32 {
    if n == 0 then 0 else 1 | (LowMask(n - 1) << 1)
  }

  function Shr(c: bv32, n: nat): bv32
    decreases n
  {
    if n == 0 then c else Shr(c >> 1, n - 1)
  }

  lemma PeelLowXor(a: bv32, b: bv32, c: bv32)
    requires c == a ^ b
    ensures c >> 1 == (a >> 1) ^ (b >> 1)
    ensures (c & 1 != 0) == ((a & 1 != 0) != (b & 1 != 0))
  {
  }

  lemma JoinLowXor(a: bv32, b: bv32, c: bv32, n: nat)
    requires n > 0 && (c & 1 != 0) == ((a & 1 != 0) != (b & 1 != 0))
    requires LowBits(c >> 1, n - 1) == Add(LowBits(a >> 1, n - 1), LowBits(b >> 1, n - 1))
    ensures LowBits(c, n) == Add(LowBits(a, n), LowBits(b, n))
  {
  }

  lemma {:induction false} LowBitsXor(a: bv32, b: bv32, c: bv32, n: nat)
    requires IsXor(a, b, c)
    ensures LowBits(c, n) == Add(LowBits(a, n), LowBits(b, n))
    decreases n
  {
    if n > 0 {
      PeelLowXor(a, b, c);
      LowBitsXor(a >> 1, b >> 1, c >> 1, n - 1);
      JoinLowXor(a, b, c, n);
    }
  }

  lemma LowMasks(n: nat)
    requires n <= 8
    ensures LowMask(n) <= 0xFF && LowMask(8) == 0xFF
  {
    assert LowMask(2) == 3;
    assert LowMask(4) == 0xF;
    assert LowMask(6) == 0x3F;
  }

  lemma PeelLow(x: bv32, y: bv32, m: bv32, k: bv32)
    requires y == x >> 1 && k == 1 | (m << 1)
    ensures x & 1 == 0 && y & m == 0 <==> x & k == 0
  {
  }

  lemma JoinLow(a: bv32, b: bv32, n: nat)
    requires n > 0
    ensures LowBits(a, n) == LowBits(b, n)
       <==> (a & 1 != 0) == (b & 1 != 0) && LowBits(a >> 1, n - 1) == LowBits(b >> 1, n - 1)
  {
    assert LowBits(a, n)[0] == (a & 1 != 0) && LowBits(a, n)[1..] == LowBits(a >> 1, n - 1);
    assert LowBits(b, n)[0] == (b & 1 != 0) && LowBits(b, n)[1..] == LowBits(b >> 1, n - 1);
  }

  lemma NextLowIsZero(x: bv32, n: nat)
    requires n > 0
    ensures LowBits(x, n) == Zeros(n) <==> x & 1 == 0 && LowBits(x >> 1, n - 1) == Zeros(n - 1)
  {
    assert LowBits(x, n)[0] == (x & 1 != 0) && LowBits(x, n)[1..] == LowBits(x >> 1, n - 1);
    assert Zeros(n)[1..] == Zeros(n - 1);
    assert LowBits(x >> 1, n - 1) == Zeros(n - 1) && x & 1 == 0 ==> LowBits(x, n) == [false] + Zeros(n - 1);
    assert [false] + Zeros(n - 1) == Zeros(n);
  }

  lemma LowZeroStep(x: bv32, y: bv32, m: bv32, k: bv32, n: nat)
    requires n > 0 && y == x >> 1
    requires LowBits(y, n - 1) == Zeros(n - 1) <==> y & m == 0
    requires x & 1 == 0 && y & m == 0 <==> x & k == 0
    ensures LowBits(x, n) == Zeros(n) <==> x & k == 0
  {
    NextLowIsZero(x, n);
  }

  lemma {:induction false} LowBitsAreZero(x: bv32, n: nat, m: bv32)
    requires m == LowMask(n)
    ensures LowBits(x, n) == Zeros(n) <==> x & m == 0
    decreases n
  {
    if n > 0 {
      var y, before := x >> 1, LowMask(n - 1);
      LowBitsAreZero(y, n - 1, before);
      PeelLow(x, y, before, m);
      LowZeroStep(x, y, before, m, n);
    }
  }

  lemma LowBitsNone(x: bv32, n: nat)
    ensures LowBits(x, n) == Zeros(n) <==> NoneOf(x, LowMask(n))
  {
    hide LowBits, LowMask, Zeros;
    LowBitsMasked(x, n, LowMask(n), NoneOf(x, LowMask(n)));
  }

  lemma LowBitsMasked(x: bv32, n: nat, m: bv32, none: bool)
    requires m == LowMask(n) && none == NoneOf(x, m)
    ensures LowBits(x, n) == Zeros(n) <==> none
  {
    hide LowBits, LowMask, Zeros;
    LowBitsAreZero(x, n, m);
  }

  /** Exactly the bits under the mask decide. */
  lemma LowBitsEqual(a: bv32, b: bv32, x: bv32, n: nat)
    requires IsXor(a, b, x)
    ensures LowBits(a, n) == LowBits(b, n) <==> NoneOf(x, LowMask(n))
  {
    hide LowBits, LowMask, Add, Zeros, NoneOf;
    LowBitsXor(a, b, x, n);
    LowBitsNone(x, n);
    hide IsXor;
    SumIsZero(LowBits(a, n), LowBits(b, n));
  }

  lemma {:induction false} LowBitsOfZero(n: nat)
    ensures LowBits(0, n) == Zeros(n)
  {
    if n > 0 {
      LowBitsOfZero(n - 1);
    }
  }

  lemma {:induction false} LowBitsSplit(c: bv32, n: nat, k: nat)
    ensures LowBits(c, n + k) == LowBits(c, n) + LowBits(Shr(c, n), k)
    decreases n
  {
    if n > 0 {
      LowBitsSplit(c >> 1, n - 1, k);
    }
  }

  lemma {:induction false} ShrTwice(c: bv32, n: nat, k: nat)
    ensures Shr(c, n + k) == Shr(Shr(c, n), k)
    decreases n
  {
    if n > 0 {
      ShrTwice(c >> 1, n - 1, k);
    }
  }

  lemma Shr8(c: bv32)
    ensures Shr(c, 8) == c >> 8
  {
  }

  lemma Shr23(c: bv32, d: bv32, e: bv32)
    requires d == c >> 8 && e == d >> 8
    ensures Shr(c, 23) == e >> 7
  {
    hide Shr;
    ShrTwice(c, 8, 15);
    ShrTwice(d, 8, 7);
    Shr8(c);
    Shr8(d);
    Shr7(e);
  }

  lemma Shr31(c: bv32)
    ensures Shr(c, 31) == c >> 8 >> 8 >> 8 >> 7
  {
    ShrTwice(c, 8, 23);
    ShrTwice(c >> 8, 8, 15);
    ShrTwice(c >> 8 >> 8, 8, 7);
    Shr8(c);
    Shr8(c >> 8);
    Shr8(c >> 8 >> 8);
    Shr7(c >> 8 >> 8 >> 8);
  }

  lemma Shr7(c: bv32)
    ensures Shr(c, 7) == c >> 7
  {
  }

  lemma LowBitsSplit8(c: bv32, k: nat)
    ensures LowBits(c, 8 + k) == LowBits(c, 8) + LowBits(c >> 8, k)
  {
    LowBitsSplit(c, 8, k);
    Shr8(c);
  }

  lemma {:induction false} LowBitsAt(c: bv32, n: nat, k: nat)
    requires k < n
    ensures LowBits(c, n)[k] == (Shr(c, k) & 1 != 0)
    decreases n
  {
    if k > 0 {
      LowBitsAt(c >> 1, n - 1, k - 1);
    }
  }

  lemma LowBitsOfThree(c: bv32)
    ensures LowBits(c, 24) == LowBits(c, 8) + (LowBits(c >> 8, 8) + LowBits(c >> 8 >> 8, 8))
  {
    hide LowBits;
    LowBitsSplit8(c, 16);
    LowBitsSplit8(c >> 8, 8);
  }

  lemma LowBitsOfFour(c: bv32, d: bv32)
    requires d == c >> 8
    ensures LowBits(c, 32) == LowBits(c, 8) + (LowBits(d, 8) + (LowBits(d >> 8, 8) + LowBits(d >> 8 >> 8, 8)))
  {
    hide LowBits;
    LowBitsSplit8(c, 24);
    LowBitsOfThree(d);
  }

  /** Shifting the reflected register moves its coefficients up by one. */
  lemma LowBitsShift(c: bv32)
    ensures LowBits(c >> 1, 32) == LowBits(c, 32)[1..] + [false]
  {
    hide LowBits, Shr;
    LowBitsSplit(c, 32, 1);
    NothingAbove32(c);
    LowBitsUnfold(c, 33);
    assert LowBits(c, 33) == LowBits(c, 32) + [false];
    assert LowBits(c >> 1, 32) == LowBits(c, 33)[1..];
  }

  lemma LowBitsUnfold(c: bv32, n: nat)
    ensures LowBits(c, n) == if n == 0 then [] else [c & 1 != 0] + LowBits(c >> 1, n - 1)
  {
  }

  lemma NothingAbove32(c: bv32)
    ensures LowBits(Shr(c, 32), 1) == [false]
  {
    hide LowBits, Shr;
    var d := c >> 8;
    var e := d >> 8;
    var f := e >> 8;
    ShiftedOut32(c, d, e, f);
    LastLowBit(Shr(c, 32));
  }

  lemma LastLowBit(out: bv32)
    requires out & 1 == 0
    ensures LowBits(out, 1) == [false]
  {
    assert LowBits(out >> 1, 0) == [];
  }

  lemma Shr16(c: bv32, d: bv32)
    requires d == c >> 8
    ensures Shr(c, 16) == d >> 8
  {
    hide Shr;
    ShrTwice(c, 8, 8);
    Shr8(c);
    Shr8(d);
  }

  lemma ShiftedOut32(c: bv32, d: bv32, e: bv32, f: bv32)
    requires d == c >> 8 && e == d >> 8 && f == e >> 8
    ensures Shr(c, 32) & 1 == 0
  {
    hide Shr;
    ShrTwice(c, 16, 16);
    Shr16(c, d);
    Shr16(e, f);
    Gone32(c, d, e, f);
  }

  lemma Gone32(c: bv32, d: bv32, e: bv32, f: bv32)
    requires d == c >> 8 && e == d >> 8 && f == e >> 8
    ensures (f >> 8) & 1 == 0
  {
  }

  /** The number spelt by the n low bits. */
  function Value(c: bv32, n: nat): nat
    decreases n
  {
    if n == 0 then 0 else (if c & 1 != 0 then 1 else 0) + 2 * Value(c >> 1, n - 1)
  }

  lemma {:induction false} ValueDetermines(a: bv32, b: bv32, n: nat)
    ensures Value(a, n) == Value(b, n) <==> LowBits(a, n) == LowBits(b, n)
    decreases n
  {
    if n > 0 {
      ValueDetermines(a >> 1, b >> 1, n - 1);
      JoinLow(a, b, n);
    }
  }

  lemma Regroup2(n: nat, p: nat, p': nat, x: nat)
    requires p' == 2 * p
    ensures 2 * (n + p * x) == 2 * n + p' * x
  {
  }

  lemma ValueStep(c: bv32, n: nat)
    requires n > 0
    ensures Value(c, n) == (if c & 1 != 0 then 1 else 0) + 2 * Value(c >> 1, n - 1)
    ensures Shr(c, n) == Shr(c >> 1, n - 1)
  {
  }

  lemma ValueOfNothing(c: bv32)
    ensures Value(c, 0) == 0 && Shr(c, 0) == c && Pow2(0) == 1
  {
  }

  /** Low bits and high bits spell the number together. */
  lemma {:induction false} ValueSplit(c: bv32, n: nat, k: nat)
    ensures Value(c, n + k) == Value(c, n) + Pow2(n) * Value(Shr(c, n), k)
    decreases n
  {
    hide Value, Shr, Pow2;
    if n == 0 {
      ValueOfNothing(c);
    } else {
      ValueStep(c, n + k);
      ValueStep(c, n);
      ValueSplit(c >> 1, n - 1, k);
      Pow2Unfold(n);
      Regroup2(Value(c >> 1, n - 1), Pow2(n - 1), Pow2(n), Value(Shr(c, n), k));
    }
  }

  /** The word whose n low bits spell v. */
  function Word(v: nat, n: nat): (c: bv32)
    decreases n
  {
    if n == 0 then 0 else Twice(Word(v / 2, n - 1), v % 2 == 1)
  }

  function Pow2(n: nat): (p: nat)
    ensures p > 0
  {
    if n == 0 then 1 else 2 * Pow2(n - 1)
  }

  lemma Pow2Unfold(n: nat)
    ensures Pow2(n) == if n == 0 then 1 else 2 * Pow2(n - 1)
  {
  }

  lemma {:induction false} ValueBound(c: bv32, n: nat)
    ensures Value(c, n) < Pow2(n)
    decreases n
  {
    if n > 0 {
      ValueBound(c >> 1, n - 1);
    }
  }

  function Twice(w: bv32, odd: bool): bv32 {
    if odd then (w << 1) | 1 else w << 1
  }

  lemma HalfOfTwice(w: bv32, odd: bool, m: bv32, m': bv32)
    requires w <= m <= 0xFF && m' == 1 | (m << 1)
    ensures Twice(w, odd) >> 1 == w && (Twice(w, odd) & 1 != 0) == odd && Twice(w, odd) <= m'
  {
  }

  /** No bit of w lies beyond the n low ones. */
  predicate FitsIn(w: bv32, n: nat) {
    w <= LowMask(n)
  }

  lemma {:induction false} WordBound(v: nat, n: nat)
    requires n <= 8
    ensures FitsIn(Word(v, n), n)
    decreases n
  {
    if n > 0 {
      hide Twice, FitsIn, Word;
      WordBound(v / 2, n - 1);
      WordUnfold(v, n);
      HalfOfWord(Word(v / 2, n - 1), v % 2 == 1, n);
    }
  }

  lemma WordUnfold(v: nat, n: nat)
    requires n > 0
    ensures Word(v, n) == Twice(Word(v / 2, n - 1), v % 2 == 1)
  {
    hide Twice;
  }

  lemma HalfOfWord(w: bv32, odd: bool, n: nat)
    requires 0 < n <= 8 && FitsIn(w, n - 1)
    ensures Twice(w, odd) >> 1 == w && (Twice(w, odd) & 1 != 0) == odd && FitsIn(Twice(w, odd), n)
  {
    hide Twice;
    LowMasks(n - 1);
    HalfOfTwice(w, odd, LowMask(n - 1), LowMask(n));
  }

  lemma HalveBelow(v: nat, n: nat)
    requires v < Pow2(n)
    ensures n == 0 ==> v == 0
    ensures n > 0 ==> v / 2 < Pow2(n - 1) && v == (if v % 2 == 1 then 1 else 0) + 2 * (v / 2)
  {
  }

  lemma NoValue(c: bv32)
    ensures Value(c, 0) == 0
  {
  }

  lemma ValueUnfold(c: bv32, h: bv32, odd: bool, n: nat)
    requires n > 0 && h == c >> 1 && (c & 1 != 0) == odd
    ensures Value(c, n) == (if odd then 1 else 0) + 2 * Value(h, n - 1)
  {
  }

  lemma ValueOfTwice(w: bv32, odd: bool, n: nat)
    requires 0 < n <= 8 && FitsIn(w, n - 1)
    ensures Value(Twice(w, odd), n) == (if odd then 1 else 0) + 2 * Value(w, n - 1)
  {
    hide Twice, FitsIn, Value;
    HalfOfWord(w, odd, n);
    ValueUnfold(Twice(w, odd), w, odd, n);
  }

  lemma {:induction false} ValueOfWord(v: nat, n: nat)
    requires n <= 8 && v < Pow2(n)
    ensures Value(Word(v, n), n) == v
    decreases n
  {
    hide Twice, FitsIn, Word, Value, Pow2;
    HalveBelow(v, n);
    if n == 0 {
      NoValue(Word(v, 0));
    } else {
      ValueOfWord(v / 2, n - 1);
      WordBound(v / 2, n - 1);
      WordUnfold(v, n);
      ValueOfTwice(Word(v / 2, n - 1), v % 2 == 1, n);
    }
  }

  lemma {:induction false} WordOfZero(n: nat)
    ensures Word(0, n) == 0
  {
    if n > 0 {
      WordOfZero(n - 1);
    }
  }
}
