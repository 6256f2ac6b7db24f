/**
 Float32 values and the two operations the handlers apply to them, rounding included:
 `std::clamp` to [-1, 1] and one multiplication.  The sign of zero is not kept.
 */
module Floats {
  import opened Words

  datatype Float = NaN | Infinite(negative: bool) | Finite(value: real)

  function PowerOfTwo(e: int): (p: real)
    ensures p > 0.0
    decreases if e < 0 then -e else e
  {
    if e == 0 then 1.0 else if e > 0 then 2.0 * PowerOfTwo(e - 1) else PowerOfTwo(e + 1) / 2.0
  }

  /** The value of a float32 bit pattern. */
  function FromBits(bits: bv32): Float {
    var negative, exponent, fraction := bits & 0x8000_0000 != 0, Value(bits >> 23, 8), Value(bits, 23);
    var sign := if negative then -1.0 else 1.0;
    if exponent == 255 then
      if fraction == 0 then Infinite(negative) else NaN
    else if exponent == 0 then
      Finite(sign * (fraction as real) * PowerOfTwo(-149))
    else
      Finite(sign * ((0x80_0000 + fraction) as real) * PowerOfTwo(exponent - 150))
  }

  lemma SignBit(c: bv32, d: bv32)
    requires d == c >> 31
    ensures (d & 1 != 0) == (c & 0x8000_0000 != 0)
  {
  }

  lemma ShiftsBy23(c: bv32, d: bv32, e: bv32, f: bv32)
    requires d == c >> 8 && e == d >> 8 && f == e >> 8
    ensures e >> 7 == c >> 23 && f >> 7 == c >> 31
  {
  }

  lemma OneBitValue(c: bv32)
    ensures Value(c, 1) == if c & 1 != 0 then 1 else 0
  {
    hide Value;
    ValueStep(c, 1);
    ValueOfNothing(c >> 1);
  }

  lemma Pow2Of23()
    ensures Pow2(23) == 0x80_0000 && Pow2(8) == 0x100
  {
    assert Pow2(8) == 0x100 by { assert Pow2(4) == 16; }
    assert Pow2(16) == 0x1_0000 by { assert Pow2(12) == 0x1000; }
    assert Pow2(20) == 0x10_0000;
  }

  lemma Shr23And31(c: bv32)
    ensures Shr(c, 23) == c >> 23 && Shr(c, 31) == c >> 31
  {
    hide Shr;
    var d := c >> 8;
    var e := d >> 8;
    var f := e >> 8;
    ShiftsBy23(c, d, e, f);
    Shr23(c, d, e);
    Shr31(c);
  }

  /** Sign, exponent and fraction, read off the number that the 32 bits spell. */
  lemma FieldsOfBits(bits: bv32)
    ensures Value(bits, 32) == Value(bits, 23) + 0x80_0000 * Value(bits >> 23, 8)
                               + 0x8000_0000 * (if bits & 0x8000_0000 != 0 then 1 else 0)
    ensures Value(bits, 23) < 0x80_0000 && Value(bits >> 23, 8) < 0x100
  {
    hide Value, Shr, Pow2;
    Pow2Of23();
    Shr23And31(bits);
    ValueSplit(bits, 23, 9);
    ValueSplit(bits >> 23, 8, 1);
    ShrTwice(bits, 23, 8);
    OneBitValue(bits >> 31);
    SignBit(bits, bits >> 31);
    ValueBound(bits, 23);
    ValueBound(bits >> 23, 8);
  }

  lemma FieldsOfNumber(n: nat, fraction: nat, exponent: nat, negative: bool)
    requires fraction < 0x80_0000 && exponent < 0x100
    requires n == fraction + 0x80_0000 * exponent + 0x8000_0000 * (if negative then 1 else 0)
    ensures (n >= 0x8000_0000) == negative && n / 0x80_0000 % 0x100 == exponent && n % 0x80_0000 == fraction
  {
    assert n / 0x80_0000 == exponent + (if negative then 0x100 else 0);
  }

  /** Two to the e, by IEEE 754's bias of 127, times 1.fraction; 0.fraction for the lowest exponent. */
  function Encoded(negative: bool, exponent: nat, fraction: nat): real {
    var significand := fraction as real / 8388608.0 + (if exponent == 0 then 0.0 else 1.0);
    var power := PowerOfTwo(if exponent == 0 then -126 else exponent - 127);
    if negative then -Scale(significand, power) else Scale(significand, power)
  }

  lemma {:induction false} SameValue(negative: bool, exponent: nat, fraction: nat)
    ensures Encoded(negative, exponent, fraction)
         == (if negative then -1.0 else 1.0)
            * ((if exponent == 0 then fraction else 0x80_0000 + fraction) as real)
            * PowerOfTwo(if exponent == 0 then -149 else exponent - 150)
  {
    hide PowerOfTwo, Scale;
    var e := if exponent == 0 then -149 else exponent - 150;
    var k := if exponent == 0 then fraction else 0x80_0000 + fraction;
    PowerFactors(e);
    ShiftScale(k as real, PowerOfTwo(e), PowerOfTwo(e + 23));
    ScaleUnfold(k as real, PowerOfTwo(e));
    assert fraction as real / 8388608.0 + (if exponent == 0 then 0.0 else 1.0) == k as real / 8388608.0;
    Signed(negative, k as real, PowerOfTwo(e));
  }

  lemma ScaleUnfold(x: real, g: real)
    ensures Scale(x, g) == x * g
  {
  }

  lemma Signed(negative: bool, x: real, g: real)
    ensures (if negative then -1.0 else 1.0) * x * g == if negative then -(x * g) else x * g
  {
    if negative {
      assert -1.0 * x == -x;
      assert (-x) * g == -(x * g);
    }
  }

  lemma ShiftScale(x: real, g: real, h: real)
    requires h == Scale(8388608.0, g)
    ensures Scale(x / 8388608.0, h) == Scale(x, g)
  {
    assert x / 8388608.0 * (8388608.0 * g) == x / 8388608.0 * 8388608.0 * g;
    assert x / 8388608.0 * 8388608.0 == x;
  }

  /** The bits are read as IEEE 754 binary32: bit 31, bits 30 to 23, bits 22 to 0. */
  lemma FromBitsIsBinary32(bits: bv32)
    ensures var n := Value(bits, 32);
            var negative, exponent, fraction := n >= 0x8000_0000, n / 0x80_0000 % 0x100, n % 0x80_0000;
            FromBits(bits) ==
              if exponent == 255 then (if fraction == 0 then Infinite(negative) else NaN)
              else Finite(Encoded(negative, exponent, fraction))
  {
    hide Value, Encoded, PowerOfTwo;
    FieldsOfBits(bits);
    FieldsOfNumber(Value(bits, 32), Value(bits, 23), Value(bits >> 23, 8), bits & 0x8000_0000 != 0);
    SameValue(bits & 0x8000_0000 != 0, Value(bits >> 23, 8), Value(bits, 23));
  }

  /** `std::clamp(x, -1, 1)`: NaN compares false both ways and passes through. */
  function Clamp(x: Float): (y: Float)
    ensures !y.Infinite? && (y.NaN? <==> x.NaN?)
    ensures y.Finite? ==> -1.0 <= y.value <= 1.0
  {
    match x
    case NaN => NaN
    case Infinite(negative) => Finite(if negative then -1.0 else 1.0)
    case Finite(v) => Finite(if v < -1.0 then -1.0 else if 1.0 < v then 1.0 else v)
  }

  // ---- Rounding --------------------------------------------------------------------------------

  const MIN_EXPONENT := -149
  const MAX_EXPONENT := 104

  /** The exponent of the last of the 24 significant bits of m. */
  function GridExponent(m: real, e: int): (g: int)
    requires e <= MAX_EXPONENT
    ensures e <= g <= MAX_EXPONENT
    ensures g < MAX_EXPONENT ==> m < PowerOfTwo(g + 24)
    ensures g > e ==> PowerOfTwo(g + 23) <= m
    decreases MAX_EXPONENT - e
  {
    if e == MAX_EXPONENT || m < PowerOfTwo(e + 24) then e else GridExponent(m, e + 1)
  }

  /** The nearest integer, the even one if two are as near. */
  function HalfEven(q: real): (n: int)
    ensures q - 0.5 <= n as real <= q + 0.5
  {
    var below := q.Floor;
    var d := q - below as real;
    if d < 0.5 || (d == 0.5 && below % 2 == 0) then below else below + 1
  }

  function Magnitude(x: real): real {
    if x < 0.0 then -x else x
  }

  /** The exact product. */
  function Scale(x: real, g: real): real {
    x * g
  }

  /** m >= 0 rounded to 24 significant bits. */
  function Nearest(m: real): real {
    var g := PowerOfTwo(GridExponent(m, MIN_EXPONENT));
    Scale(HalfEven(m / g) as real, g)
  }

  /** Rounding to nearest even, as IEEE 754 has it. */
  function Rounded(x: real): (y: Float)
    ensures !y.NaN?
  {
    var r := Nearest(Magnitude(x));
    if r >= PowerOfTwo(128) then Infinite(x < 0.0) else Finite(if x < 0.0 then -r else r)
  }

  /** `static_cast<float>` of a double. */
  function Narrowed(x: Float): Float {
    if x.Finite? then Rounded(x.value) else x
  }

  predicate Negative(x: Float) {
    (x.Infinite? && x.negative) || (x.Finite? && x.value < 0.0)
  }

  function Times(x: Float, y: Float): Float {
    if x.NaN? || y.NaN? then NaN
    else if x.Finite? && y.Finite? then Rounded(Scale(x.value, y.value))
    else if x == Finite(0.0) || y == Finite(0.0) then NaN
    else Infinite(Negative(x) != Negative(y))
  }

  // ---- What rounding guarantees ------------------------------------------------------------------

  predicate OnGrid(y: real, k: nat, e: int) {
    k < 0x100_0000 && MIN_EXPONENT <= e <= MAX_EXPONENT && y == Scale(k as real, PowerOfTwo(e))
  }

  /** y >= 0 is a finite float32. */
  ghost predicate Representable(y: real) {
    exists k: nat, e: int :: OnGrid(y, k, e)
  }

  function Distance(x: real, y: real): real {
    if x < y then y - x else x - y
  }

  lemma ScaleOrder(x: real, y: real, g: real)
    requires g > 0.0 && x <= y
    ensures Scale(x, g) <= Scale(y, g)
  {
    assert (y - x) * g >= 0.0;
  }

  lemma ScaleStrict(x: real, y: real, g: real)
    requires g > 0.0 && x < y
    ensures Scale(x, g) < Scale(y, g)
  {
    assert (y - x) * g > 0.0;
  }

  lemma ScaleUp(x: real, g: real, h: real)
    requires x >= 0.0 && g <= h
    ensures Scale(x, g) <= Scale(x, h)
  {
    assert x * (h - g) >= 0.0;
  }

  lemma ScaleDistance(x: real, y: real, g: real)
    requires g > 0.0
    ensures Distance(Scale(x, g), Scale(y, g)) == Scale(Distance(x, y), g)
  {
    if x < y {
      ScaleStrict(x, y, g);
    } else {
      ScaleOrder(y, x, g);
    }
  }

  lemma ScaleTwice(x: real, g: real, h: real)
    requires h == 2.0 * g
    ensures Scale(x, h) == Scale(2.0 * x, g)
  {
  }

  lemma ScaleQuotient(m: real, g: real)
    requires g > 0.0
    ensures Scale(m / g, g) == m
  {
  }

  lemma QuotientSign(m: real, g: real)
    requires m >= 0.0 && g > 0.0
    ensures m / g >= 0.0
  {
  }

  lemma PowerStep(e: int)
    ensures PowerOfTwo(e + 1) == 2.0 * PowerOfTwo(e)
  {
  }

  lemma {:induction false} PowersAscend(e: int, f: int)
    requires e <= f
    ensures PowerOfTwo(e) <= PowerOfTwo(f)
    decreases f - e
  {
    hide PowerOfTwo;
    if e < f {
      PowersAscend(e, f - 1);
      PowerStep(f - 1);
    }
  }

  /** A point of a coarse grid is one of any finer grid. */
  lemma {:induction false} Refine(k: nat, e: int, g: int)
    requires g <= e
    ensures Scale(k as real, PowerOfTwo(e)) == Scale((k * Pow2(e - g)) as real, PowerOfTwo(g))
    decreases e - g
  {
    hide PowerOfTwo, Scale, Pow2;
    Pow2Unfold(e - g);
    if g < e {
      Refine(2 * k, e - 1, g);
      PowerStep(e - 1);
      ScaleTwice(k as real, PowerOfTwo(e - 1), PowerOfTwo(e));
      Doubled(k, Pow2(e - 1 - g), Pow2(e - g));
    } else {
      assert k * Pow2(e - g) == k;
    }
  }

  lemma Doubled(k: nat, p: nat, p': nat)
    requires p' == 2 * p
    ensures 2 * k * p == k * p'
  {
  }

  lemma PowerFactors(e: int)
    ensures PowerOfTwo(e + 23) == Scale(0x80_0000 as real, PowerOfTwo(e))
    ensures PowerOfTwo(e + 24) == Scale(0x100_0000 as real, PowerOfTwo(e))
  {
    hide PowerOfTwo, Scale, Pow2;
    Refine(1, e + 23, e);
    Refine(1, e + 24, e);
    Pow2Of23();
    Pow2Unfold(24);
    ScaleOne(PowerOfTwo(e + 23));
    ScaleOne(PowerOfTwo(e + 24));
  }

  lemma ScaleOne(g: real)
    ensures Scale(1 as real, g) == g
  {
  }

  lemma NearestInteger(q: real, n: int)
    ensures Distance(HalfEven(q) as real, q) <= Distance(n as real, q)
  {
    var below := q.Floor;
    if n <= below {
      assert n as real <= below as real;
    } else {
      assert (below + 1) as real <= n as real;
    }
  }

  /** No other point of the grid of m is nearer to it. */
  lemma NearestOnGrid(m: real, n: int, g: real)
    requires g == PowerOfTwo(GridExponent(m, MIN_EXPONENT))
    ensures Distance(Nearest(m), m) <= Distance(Scale(n as real, g), m)
  {
    hide PowerOfTwo, GridExponent, HalfEven, Distance, Scale;
    var q := m / g;
    ScaleQuotient(m, g);
    NearestInteger(q, n);
    ScaleDistance(HalfEven(q) as real, q, g);
    ScaleDistance(n as real, q, g);
    ScaleOrder(Distance(HalfEven(q) as real, q), Distance(n as real, q), g);
  }

  /** A float32 finer than the grid of m lies below the first point of that grid. */
  lemma FinerIsBelow(m: real, y: real, k: nat, e: int, g: int)
    requires OnGrid(y, k, e) && g == GridExponent(m, MIN_EXPONENT) && e < g
    ensures y <= Scale(0x80_0000 as real, PowerOfTwo(g)) <= m
  {
    hide PowerOfTwo, GridExponent, Scale;
    PowerFactors(g);
    PowersAscend(e, g - 1);
    PowerStep(g - 1);
    var p := PowerOfTwo(g - 1);
    ScaleUp(k as real, PowerOfTwo(e), p);
    ScaleOrder(k as real, 0x100_0000 as real, p);
    ScaleTwice(0x80_0000 as real, p, PowerOfTwo(g));
  }

  /** No finite float32 is nearer to m than what rounding gives. */
  lemma NothingIsNearer(m: real, y: real)
    requires m >= 0.0 && Representable(y)
    ensures Distance(Nearest(m), m) <= Distance(y, m)
  {
    hide PowerOfTwo, GridExponent, Nearest, Scale;
    var k: nat, e: int :| OnGrid(y, k, e);
    var g := GridExponent(m, MIN_EXPONENT);
    if e >= g {
      Refine(k, e, g);
      NearestOnGrid(m, k * Pow2(e - g), PowerOfTwo(g));
    } else {
      FinerIsBelow(m, y, k, e, g);
      NearestOnGrid(m, 0x80_0000, PowerOfTwo(g));
    }
  }

  lemma SmallRepresentable(y: real)
    requires Representable(y)
    ensures 0.0 <= y < PowerOfTwo(128)
  {
    hide PowerOfTwo, Scale;
    var k: nat, e: int :| OnGrid(y, k, e);
    PowersAscend(e, MAX_EXPONENT);
    PowerFactors(MAX_EXPONENT);
    var p := PowerOfTwo(MAX_EXPONENT);
    ScaleUp(k as real, PowerOfTwo(e), p);
    ScaleStrict(k as real, 0x100_0000 as real, p);
    ScaleOrder(0.0, k as real, PowerOfTwo(e));
    ScaleZero(PowerOfTwo(e));
  }

  lemma ScaleZero(g: real)
    ensures Scale(0.0, g) == 0.0
  {
  }

  lemma InTheGrid(n: int, m: real, g: real)
    requires g > 0.0 && m >= 0.0 && n == HalfEven(m / g)
    ensures n >= 0
    ensures m < Scale(0x100_0000 as real, g) ==> n <= 0x100_0000
    ensures Scale(n as real, g) < Scale(0x100_0000 as real, g) ==> n < 0x100_0000
  {
    hide HalfEven, Scale;
    var q := m / g;
    ScaleQuotient(m, g);
    QuotientSign(m, g);
    if q >= 0x100_0000 as real {
      ScaleOrder(0x100_0000 as real, q, g);
    }
    if n >= 0x100_0000 {
      ScaleOrder(0x100_0000 as real, n as real, g);
    }
  }

  /** What rounding gives is a float32, unless it overflows. */
  lemma NearestIsRepresentable(m: real)
    requires m >= 0.0 && Nearest(m) < PowerOfTwo(128)
    ensures Representable(Nearest(m))
  {
    hide PowerOfTwo, GridExponent, HalfEven, Scale;
    var e := GridExponent(m, MIN_EXPONENT);
    var g := PowerOfTwo(e);
    var n := HalfEven(m / g);
    PowerFactors(e);
    InTheGrid(n, m, g);
    if n < 0x100_0000 {
      assert OnGrid(Nearest(m), n, e);
    } else {
      PowerStep(e);
      ScaleTwice(0x80_0000 as real, g, PowerOfTwo(e + 1));
      assert OnGrid(Nearest(m), 0x80_0000, e + 1);
    }
  }

  /** Rounding never passes a float32: what is within s stays within s. */
  lemma RoundingStaysWithin(x: real, s: real)
    requires Magnitude(x) <= s && Representable(s)
    ensures Rounded(x).Finite? && Magnitude(Rounded(x).value) <= s
  {
    hide PowerOfTwo, Nearest;
    var m := Magnitude(x);
    SmallRepresentable(s);
    NothingIsNearer(m, s);
    NearestIsNotNegative(m);
  }

  lemma NearestIsNotNegative(m: real)
    requires m >= 0.0
    ensures Nearest(m) >= 0.0
  {
    hide PowerOfTwo, GridExponent, HalfEven, Scale;
    var g := PowerOfTwo(GridExponent(m, MIN_EXPONENT));
    InTheGrid(HalfEven(m / g), m, g);
    ScaleZero(g);
    ScaleOrder(0.0, HalfEven(m / g) as real, g);
  }

  lemma RoundedIsRepresentable(x: real)
    requires Rounded(x).Finite?
    ensures Representable(Magnitude(Rounded(x).value))
  {
    hide PowerOfTwo, Nearest;
    NearestIsNotNegative(Magnitude(x));
    NearestIsRepresentable(Magnitude(x));
  }

  /**
   IEEE 754 rounding to nearest: the result is a float32, and no other is nearer to the
   exact value; a value that is a float32 is not changed.
   */
  lemma RoundedIsNearest(x: real, y: real)
    requires Rounded(x).Finite? && Representable(Magnitude(y))
    ensures Representable(Magnitude(Rounded(x).value))
    ensures Distance(Rounded(x).value, x) <= Distance(y, x)
    ensures y == x ==> Rounded(x).value == x
  {
    hide PowerOfTwo, Nearest;
    RoundedIsRepresentable(x);
    NearestIsNotNegative(Magnitude(x));
    NothingIsNearer(Magnitude(x), Magnitude(y));
  }

  /** A stick value times a limit never exceeds the limit, rounding included. */
  lemma ScaledStickStaysWithin(x: Float, limit: Float)
    requires Narrowed(limit).Finite? && limit.Finite?
    ensures var y := Times(Clamp(x), Narrowed(limit));
            y.NaN? || (y.Finite? && Magnitude(y.value) <= Magnitude(Narrowed(limit).value))
    ensures Times(Clamp(x), Narrowed(limit)).NaN? <==> x.NaN?
  {
    hide Rounded, Magnitude, Scale;
    RoundedIsRepresentable(limit.value);
    if !x.NaN? {
      ProductRoundsWithin(Clamp(x).value, Narrowed(limit).value);
    }
  }

  lemma ProductRoundsWithin(v: real, s: real)
    requires -1.0 <= v <= 1.0 && Representable(Magnitude(s))
    ensures Rounded(Scale(v, s)).Finite? && Magnitude(Rounded(Scale(v, s)).value) <= Magnitude(s)
  {
    hide Rounded, Magnitude, Scale;
    ProductStaysWithin(v, s);
    RoundingStaysWithin(Scale(v, s), Magnitude(s));
  }

  lemma ProductStaysWithin(v: real, s: real)
    requires -1.0 <= v <= 1.0
    ensures Magnitude(Scale(v, s)) <= Magnitude(s)
  {
    hide Scale;
    if s > 0.0 {
      ScaledBetween(v, s);
    } else if s < 0.0 {
      ScaledBetween(v, -s);
      ScaleNegated(v, s);
    } else {
      NothingScaled(v, s);
    }
  }

  lemma ScaledBetween(v: real, s: real)
    requires -1.0 <= v <= 1.0 && s > 0.0
    ensures -s <= Scale(v, s) <= s
  {
    hide Scale;
    ScaleOrder(-1.0, v, s);
    ScaleOrder(v, 1.0, s);
    ScaledUnits(s);
  }

  lemma ScaledUnits(s: real)
    ensures Scale(-1.0, s) == -s && Scale(1.0, s) == s
  {
  }

  lemma ScaleNegated(v: real, s: real)
    ensures Scale(v, -s) == -Scale(v, s)
  {
  }

  lemma NothingScaled(v: real, s: real)
    requires s == 0.0
    ensures Scale(v, s) == 0.0
  {
  }

  // ---- What a stick does -------------------------------------------------------------------------

  /** x is the sign and magnitude of a finite float32. */
  ghost predicate IsFloat(x: real) {
    Representable(Magnitude(x))
  }

  /** w is a float32, and none is nearer to the exact value x. */
  ghost predicate NearestFloat(w: real, x: real) {
    IsFloat(w) && forall y :: IsFloat(y) ==> Distance(w, x) <= Distance(y, x)
  }

  /** The deflection that a stick value stands for: itself within [-1, 1], else the end on its side. */
  function Deflection(x: Float): real
    requires !x.NaN?
  {
    match x
    case Infinite(negative) => if negative then -1.0 else 1.0
    case Finite(v) => if v > 1.0 then 1.0 else if v < -1.0 then -1.0 else v
  }

  /** What an axis must show for a stick value and a configured limit. */
  ghost predicate Obeys(axis: Float, stick: Float, limit: Float) {
    if stick.NaN? || limit.NaN? then axis.NaN?
    else
      var d := Deflection(stick);
      match Narrowed(limit)
      case Finite(l) => axis.Finite? && NearestFloat(axis.value, Scale(d, l))
      case Infinite(negative) => if d == 0.0 then axis.NaN? else axis == Infinite(negative != (d < 0.0))
      case NaN => false
  }

  lemma RoundsToNearest(x: real)
    requires Rounded(x).Finite?
    ensures NearestFloat(Rounded(x).value, x)
  {
    hide Rounded, Representable, Magnitude, Distance;
    RoundedIsRepresentable(x);
    forall y | IsFloat(y) ensures Distance(Rounded(x).value, x) <= Distance(y, x) {
      RoundedIsNearest(x, y);
    }
  }

  /** The limit itself is the float32 nearest to the configured double. */
  lemma NarrowedIsNearest(limit: Float)
    requires limit.Finite? && Narrowed(limit).Finite?
    ensures NearestFloat(Narrowed(limit).value, limit.value)
  {
    hide NearestFloat, Rounded;
    RoundsToNearest(limit.value);
  }

  lemma StickObeys(stick: Float, limit: Float)
    ensures Obeys(Times(Clamp(stick), Narrowed(limit)), stick, limit)
  {
    hide Rounded, NearestFloat, Representable, Magnitude, Scale;
    if !stick.NaN? && !limit.NaN? {
      var d := Deflection(stick);
      assert Clamp(stick) == Finite(d);
      if Narrowed(limit).Finite? {
        RoundedIsRepresentable(limit.value);
        ProductRoundsWithin(d, Narrowed(limit).value);
        RoundsToNearest(Scale(d, Narrowed(limit).value));
      }
    }
  }

  /** A stick pushed to the end or beyond gives exactly the limit. */
  lemma FullDeflection(w: real, l: real)
    requires IsFloat(l)
    ensures NearestFloat(w, Scale(1.0, l)) ==> w == l
    ensures NearestFloat(w, Scale(-1.0, l)) ==> w == -l
  {
    hide Scale, Representable;
    UnitScale(l);
    assert IsFloat(-l);
    assert Distance(l, l) == 0.0 && Distance(-l, -l) == 0.0;
  }

  lemma UnitScale(l: real)
    ensures Scale(1.0, l) == l && Scale(-1.0, l) == -l
  {
  }

  // ---- Ties and overflow ---------------------------------------------------------------------------

  lemma HalfEvenTie(q: real, n: int)
    requires n != HalfEven(q) && Distance(n as real, q) == Distance(HalfEven(q) as real, q)
    ensures HalfEven(q) % 2 == 0 && Distance(n as real, HalfEven(q) as real) == 1.0
  {
    var below := q.Floor;
    if n < below {
      assert n as real <= below as real - 1.0;
    } else if n > below + 1 {
      assert n as real >= below as real + 2.0;
    }
  }

  lemma ScaleEqual(x: real, y: real, g: real)
    requires g > 0.0 && Scale(x, g) == Scale(y, g)
    ensures x == y
  {
    hide Scale;
    if x < y {
      ScaleStrict(x, y, g);
    } else if y < x {
      ScaleStrict(y, x, g);
    }
  }

  lemma TieOnGrid(m: real, n: int, g: real)
    requires g == PowerOfTwo(GridExponent(m, MIN_EXPONENT))
    requires Scale(n as real, g) != Nearest(m)
    requires Distance(Scale(n as real, g), m) == Distance(Nearest(m), m)
    ensures HalfEven(m / g) % 2 == 0 && Nearest(m) == Scale(HalfEven(m / g) as real, g)
    ensures Distance(Scale(n as real, g), Nearest(m)) == g
  {
    hide PowerOfTwo, GridExponent, HalfEven, Distance, Scale;
    var q := m / g;
    ScaleQuotient(m, g);
    ScaleDistance(HalfEven(q) as real, q, g);
    ScaleDistance(n as real, q, g);
    ScaleEqual(Distance(n as real, q), Distance(HalfEven(q) as real, q), g);
    HalfEvenTie(q, n);
    ScaleDistance(n as real, HalfEven(q) as real, g);
    UnitScale(g);
  }

  /**
   Halfway between two float32 values the one with the even last bit is taken: it is an
   even multiple of the grid spacing, and the other lies one spacing away.
   */
  lemma TiesGoToEven(m: real, y: real) returns (n: int, g: real)
    requires m >= 0.0 && Representable(y) && y != Nearest(m)
    requires Distance(y, m) == Distance(Nearest(m), m)
    ensures n % 2 == 0 && g > 0.0 && Nearest(m) == Scale(n as real, g) && Distance(y, Nearest(m)) == g
  {
    hide PowerOfTwo, GridExponent, Nearest, Scale, HalfEven;
    var k: nat, e: int :| OnGrid(y, k, e);
    var ge := GridExponent(m, MIN_EXPONENT);
    g := PowerOfTwo(ge);
    n := HalfEven(m / g);
    if e >= ge {
      Refine(k, e, ge);
      TieOnGrid(m, k * Pow2(e - ge), g);
    } else {
      FinerIsBelow(m, y, k, e, ge);
      NearestOnGrid(m, 0x80_0000, g);
      assert y == Scale(0x80_0000 as real, g);
      TieOnGrid(m, 0x80_0000, g);
    }
  }

  lemma TopOfHalfEven(q: real)
    ensures HalfEven(q) >= 0x100_0000 <==> q >= 16777215.5
  {
    if q >= 16777215.5 && q < 16777216.0 {
      assert q.Floor == 16777215;
    }
  }

  /** Beyond the largest float32 by half a spacing or more, and only there, the result is infinite. */
  lemma OverflowIff(x: real)
    ensures Rounded(x).Infinite? <==> Magnitude(x) >= Scale(16777215.5, PowerOfTwo(104))
    ensures Rounded(x).Infinite? ==> Rounded(x).negative == (x < 0.0)
  {
    hide PowerOfTwo, GridExponent, HalfEven, Scale;
    var m := Magnitude(x);
    var e := GridExponent(m, MIN_EXPONENT);
    var g := PowerOfTwo(e);
    var n := HalfEven(m / g);
    PowerFactors(e);
    PowerFactors(104);
    InTheGrid(n, m, g);
    ScaleQuotient(m, g);
    if e < MAX_EXPONENT {
      PowersAscend(e + 24, 127);
      PowersAscend(127, 128);
      PowerStep(127);
      ScaleTwice(8388608.0, PowerOfTwo(104), 2.0 * PowerOfTwo(104));
      ScaleOrder(8388608.0, 16777215.5, PowerOfTwo(104));
      ScaleOrder(n as real, 0x100_0000 as real, g);
    } else {
      TopOfHalfEven(m / g);
      if m / g >= 16777215.5 {
        ScaleOrder(16777215.5, m / g, g);
        ScaleOrder(0x100_0000 as real, n as real, g);
      } else {
        ScaleStrict(m / g, 16777215.5, g);
        ScaleStrict(n as real, 0x100_0000 as real, g);
      }
    }
  }
}
