/**
 The arithmetic behind both checksums of the radio link, over polynomials with
 coefficients in GF(2).

 A polynomial is a sequence of coefficients, highest power first.  A generator
 x^n + g(x) is given by its n low coefficients `g`.  `Feed` is the usual shift
 register: one coefficient of the message enters per step.  Nothing here depends
 on the width or on a particular generator, so the 24-bit RTCM checksum and the
 reflected 32-bit frame checksum are two instances.
 */
module PolynomialRegister {
  type Poly = seq<bool>

  function Zeros(n: nat): (z: Poly)
    ensures |z| == n && forall i :: 0 <= i < n ==> !z[i]
  {
    seq(n, _ => false)
  }

  /** Coefficient-wise sum, which over GF(2) is also the difference. */
  function Add(a: Poly, b: Poly): (c: Poly)
    requires |a| == |b|
    ensures |c| == |a| && forall i :: 0 <= i < |a| ==> c[i] == (a[i] != b[i])
  {
    seq(|a|, i requires 0 <= i < |a| => a[i] != b[i])
  }

  lemma SumWithSelf(a: Poly)
    ensures Add(a, a) == Zeros(|a|)
  {
  }

  lemma SumWithZeros(a: Poly)
    ensures Add(a, Zeros(|a|)) == a
  {
  }

  lemma CancelLeft(a: Poly, b: Poly, c: Poly)
    requires |a| == |b| == |c| && Add(a, b) == Add(a, c)
    ensures b == c
  {
    forall i | 0 <= i < |a| ensures b[i] == c[i] {
      assert Add(a, b)[i] == Add(a, c)[i];
    }
  }

  lemma SumIsZero(a: Poly, b: Poly)
    requires |a| == |b|
    ensures Add(a, b) == Zeros(|a|) <==> a == b
  {
    SumWithSelf(a);
    if Add(a, b) == Zeros(|a|) {
      CancelLeft(a, a, b);
    }
  }

  lemma Regroup(a: Poly, b: Poly, c: Poly)
    requires |a| == |b| + 1 == |c| + 1
    ensures Add(a, [false] + Add(b, c)) == Add(Add(a, [false] + b), [false] + c)
  {
  }

  /** `w` followed by zero coefficients up to width n. */
  function PadRight(w: Poly, n: nat): (p: Poly)
    requires |w| <= n
    ensures |p| == n
  {
    w + Zeros(n - |w|)
  }

  /** The generator has the constant term 1, so x does not divide it. */
  predicate Odd(g: Poly) {
    |g| > 0 && g[|g| - 1]
  }

  // ---- The shift register ----------------------------------------------------

  function Step(g: Poly, r: Poly, b: bool): (r': Poly)
    requires |g| == |r| > 0
    ensures |r'| == |r|
  {
    var shifted := r[1..] + [false];
    if r[0] != b then Add(shifted, g) else shifted
  }

  function Feed(g: Poly, r: Poly, m: Poly): (r': Poly)
    requires |g| == |r| > 0
    ensures |r'| == |r|
    decreases |m|
  {
    if m == [] then r else Feed(g, Step(g, r, m[0]), m[1..])
  }

  lemma {:induction false} FeedConcat(g: Poly, r: Poly, a: Poly, b: Poly)
    requires |g| == |r| > 0
    ensures Feed(g, r, a + b) == Feed(g, Feed(g, r, a), b)
    decreases |a|
  {
    if a == [] {
      assert a + b == b;
    } else {
      assert (a + b)[1..] == a[1..] + b;
      FeedConcat(g, Step(g, r, a[0]), a[1..], b);
    }
  }

  lemma FeedUnfold(g: Poly, r: Poly, m: Poly)
    requires |g| == |r| > 0
    ensures Feed(g, r, m) == if m == [] then r else Feed(g, Step(g, r, m[0]), m[1..])
  {
    hide Step;
  }

  lemma FeedOneMoreZero(g: Poly, r: Poly, k: nat)
    requires |g| == |r| > 0
    ensures Feed(g, r, Zeros(k + 1)) == Step(g, Feed(g, r, Zeros(k)), false)
  {
    hide Feed, Step;
    assert Zeros(k + 1) == Zeros(k) + [false];
    FeedConcat(g, r, Zeros(k), [false]);
    FeedUnfold(g, Feed(g, r, Zeros(k)), [false]);
    FeedUnfold(g, Step(g, Feed(g, r, Zeros(k)), false), [false][1..]);
  }

  lemma StepIsLinear(g: Poly, r: Poly, s: Poly, b: bool, c: bool)
    requires |g| == |r| == |s| > 0
    ensures Step(g, Add(r, s), b != c) == Add(Step(g, r, b), Step(g, s, c))
  {
  }

  /** The register is linear in its start value and in the message together. */
  lemma {:induction false} FeedIsLinear(g: Poly, r: Poly, s: Poly, a: Poly, b: Poly)
    requires |g| == |r| == |s| > 0 && |a| == |b|
    ensures Feed(g, Add(r, s), Add(a, b)) == Add(Feed(g, r, a), Feed(g, s, b))
    decreases |a|
  {
    if a != [] {
      StepIsLinear(g, r, s, a[0], b[0]);
      assert Add(a, b)[1..] == Add(a[1..], b[1..]);
      FeedIsLinear(g, Step(g, r, a[0]), Step(g, s, b[0]), a[1..], b[1..]);
    }
  }

  lemma {:induction false} FeedZeros(g: Poly, k: nat)
    requires |g| > 0
    ensures Feed(g, Zeros(|g|), Zeros(k)) == Zeros(|g|)
  {
    if k > 0 {
      assert Step(g, Zeros(|g|), Zeros(k)[0]) == Zeros(|g|);
      assert Zeros(k)[1..] == Zeros(k - 1);
      FeedZeros(g, k - 1);
    }
  }

  /**
   Running backwards from zero.  A message no longer than the register drives it to
   zero from exactly one start value: the message itself, in the high coefficients.
   */
  lemma {:induction false} FeedReachesZero(g: Poly, r: Poly, w: Poly)
    requires |g| == |r| && Odd(g) && |w| <= |g|
    ensures Feed(g, r, w) == Zeros(|g|) <==> r == PadRight(w, |g|)
    decreases |w|
  {
    var n := |g|;
    if w == [] {
      assert PadRight(w, n) == Zeros(n);
    } else {
      var next := Step(g, r, w[0]);
      FeedReachesZero(g, next, w[1..]);
      var wanted := PadRight(w[1..], n);
      assert !wanted[n - 1];
      if next == wanted {
        // The last coefficient is 0 and the generator is odd: nothing was added.
        assert r[0] == w[0];
        forall i | 0 <= i < n ensures r[i] == PadRight(w, n)[i] {
          if i > 0 {
            assert r[i] == next[i - 1];
          }
        }
      }
      if r == PadRight(w, n) {
        assert next == wanted;
      }
    }
  }

  /** Zeros fed to the register never hide a nonzero value. */
  lemma {:induction false} ZerosKeepNonZero(g: Poly, r: Poly, k: nat)
    requires |g| == |r| && Odd(g)
    requires Feed(g, r, Zeros(k)) == Zeros(|g|)
    ensures r == Zeros(|g|)
    decreases k
  {
    if k > 0 {
      assert Zeros(k)[1..] == Zeros(k - 1);
      ZerosKeepNonZero(g, Step(g, r, false), k - 1);
      FeedReachesZero(g, r, [false]);
      assert Feed(g, Step(g, r, false), []) == Zeros(|g|);
      assert r == PadRight([false], |g|);
    }
  }

  /** XORing a short message into the top of the register and shifting in zeros feeds it. */
  lemma FeedFromTop(g: Poly, r: Poly, w: Poly)
    requires |g| == |r| && Odd(g) && |w| <= |g|
    ensures Feed(g, r, w) == Feed(g, Add(r, PadRight(w, |g|)), Zeros(|w|))
  {
    var p := PadRight(w, |g|);
    FeedReachesZero(g, p, w);
    FeedIsLinear(g, r, p, w, w);
    SumWithSelf(w);
    SumWithZeros(Feed(g, r, w));
  }

  // ---- Remainders --------------------------------------------------------------

  /** The product of two polynomials, by long multiplication. */
  function Product(q: Poly, h: Poly): (p: Poly)
    requires |h| > 0
    ensures |p| == |q| + |h| - 1
  {
    if q == [] then
      Zeros(|h| - 1)
    else
      Add(Multiple(h, q[0], |q| - 1), [false] + Product(q[1..], h))
  }

  /** `rem` has degree below n and m(x) * x^n == q(x) * (x^n + g(x)) + rem(x). */
  predicate DividesWith(g: Poly, m: Poly, q: Poly, rem: Poly) {
    && |g| == |rem|
    && |q| == |m|
    && m + Zeros(|g|) == Add(Product(q, [true] + g), Zeros(|m|) + rem)
  }

  ghost predicate IsRemainder(g: Poly, m: Poly, rem: Poly) {
    exists q :: DividesWith(g, m, q, rem)
  }

  /** What long division subtracts when the leading quotient coefficient is `top`. */
  function Multiple(h: Poly, top: bool, k: nat): (p: Poly)
    requires |h| > 0
    ensures |p| == |h| + k
  {
    if top then h + Zeros(k) else Zeros(|h| + k)
  }

  /** One register step is one subtraction of long division. */
  lemma DivideStep(g: Poly, r: Poly, m: Poly)
    requires |g| == |r| > 0 && m != []
    ensures Add(m + Zeros(|g|), r + Zeros(|m|))
         == Add(Multiple([true] + g, r[0] != m[0], |m| - 1),
                [false] + Add(m[1..] + Zeros(|g|), Step(g, r, m[0]) + Zeros(|m| - 1)))
  {
    var n, k := |g|, |m| - 1;
    var r' := Step(g, r, m[0]);
    var left := Add(m + Zeros(n), r + Zeros(|m|));
    var inner := Add(m[1..] + Zeros(n), r' + Zeros(k));
    var head := Multiple([true] + g, r[0] != m[0], k);
    forall i | 0 <= i < |left| ensures left[i] == (head[i] != ([false] + inner)[i]) {
      if i > 0 {
        assert (m + Zeros(n))[i] == (m[1..] + Zeros(n))[i - 1];
        assert 0 < i <= n ==> (r + Zeros(|m|))[i] == (if i < n then r[i] else false);
      }
    }
  }

  /** The coefficients of q(x) * h(x) + rem(x), read off one position at a time. */
  lemma DivisionCoefficients(h: Poly, q: Poly, rem: Poly)
    requires |h| == |rem| + 1 && h[0] && q != []
    ensures Add(Product(q, h), Zeros(|q|) + rem)
         == Add(Multiple(h, q[0], |q| - 1), [false] + Add(Product(q[1..], h), Zeros(|q| - 1) + rem))
  {
    assert Zeros(|q|) + rem == [false] + (Zeros(|q| - 1) + rem);
    Regroup(Multiple(h, q[0], |q| - 1), Product(q[1..], h), Zeros(|q| - 1) + rem);
  }

  /** Division with a register that starts at r, which is how the induction goes. */
  lemma {:induction false} Divide(g: Poly, r: Poly, m: Poly) returns (q: Poly)
    requires |g| == |r| > 0
    ensures |q| == |m|
    ensures Add(m + Zeros(|g|), r + Zeros(|m|)) == Add(Product(q, [true] + g), Zeros(|m|) + Feed(g, r, m))
    decreases |m|
  {
    hide Product, Multiple, Add, Zeros, Feed, Step;
    FeedUnfold(g, r, m);
    if m == [] {
      q := [];
      DivideNothing(g, r, m);
    } else {
      var q' := Divide(g, Step(g, r, m[0]), m[1..]);
      q := [r[0] != m[0]] + q';
      assert q[1..] == q';
      DivideStep(g, r, m);
      DivisionCoefficients([true] + g, q, Feed(g, r, m));
    }
  }

  lemma DivideNothing(g: Poly, r: Poly, m: Poly)
    requires |g| == |r| > 0 && m == []
    ensures Add(m + Zeros(|g|), r + Zeros(|m|)) == Add(Product([], [true] + g), Zeros(|m|) + r)
  {
    hide Add;
    assert m + Zeros(|g|) == Product([], [true] + g);
    assert r + Zeros(|m|) == r == Zeros(|m|) + r;
  }

  lemma StripLeading(h: Poly, top: bool, top': bool, k: nat, b: Poly, b': Poly)
    requires |h| > 0 && h[0] && |b| == |b'| == |h| + k - 1
    requires Add(Multiple(h, top, k), [false] + b) == Add(Multiple(h, top', k), [false] + b')
    ensures top == top' && b == b'
  {
    assert Add(Multiple(h, top, k), [false] + b)[0] == top;
    assert Add(Multiple(h, top', k), [false] + b')[0] == top';
    CancelLeft(Multiple(h, top, k), [false] + b, [false] + b');
    assert ([false] + b)[1..] == b && ([false] + b')[1..] == b';
  }

  /** Long division has one answer: the leading coefficients fix the quotient one by one. */
  lemma {:induction false} DivisionIsUnique(h: Poly, q: Poly, q': Poly, rem: Poly, rem': Poly)
    requires |h| == |rem| + 1 == |rem'| + 1 && h[0] && |q| == |q'|
    requires Add(Product(q, h), Zeros(|q|) + rem) == Add(Product(q', h), Zeros(|q|) + rem')
    ensures q == q' && rem == rem'
    decreases |q|
  {
    hide Product, Multiple, Add, Zeros;
    if q == [] {
      CancelLeft(Product(q, h), Zeros(|q|) + rem, Zeros(|q|) + rem');
      assert Zeros(|q|) + rem == rem && Zeros(|q|) + rem' == rem';
    } else {
      DivisionCoefficients(h, q, rem);
      DivisionCoefficients(h, q', rem');
      var k := |q| - 1;
      StripLeading(h, q[0], q'[0], k,
                   Add(Product(q[1..], h), Zeros(k) + rem), Add(Product(q'[1..], h), Zeros(k) + rem'));
      DivisionIsUnique(h, q[1..], q'[1..], rem, rem');
      assert q == [q[0]] + q[1..] && q' == [q'[0]] + q'[1..];
    }
  }

  /** What the register computes: THE remainder of m(x) * x^n modulo the generator. */
  lemma FeedIsRemainder(g: Poly, m: Poly, rem: Poly)
    requires |g| > 0
    ensures IsRemainder(g, m, rem) <==> rem == Feed(g, Zeros(|g|), m)
  {
    var fed := Feed(g, Zeros(|g|), m);
    var q := Divide(g, Zeros(|g|), m);
    assert Add(m + Zeros(|g|), Zeros(|g|) + Zeros(|m|)) == m + Zeros(|g|);
    assert DividesWith(g, m, q, fed);
    if IsRemainder(g, m, rem) {
      var q' :| DividesWith(g, m, q', rem);
      DivisionIsUnique([true] + g, q, q', fed, rem);
    }
  }

  /** Appending n coefficients leaves residue zero exactly when they are the checksum. */
  lemma ZeroResidue(g: Poly, r: Poly, m: Poly, c: Poly)
    requires |g| == |r| == |c| && Odd(g)
    ensures Feed(g, r, m + c) == Zeros(|g|) <==> Feed(g, r, m) == c
  {
    FeedConcat(g, r, m, c);
    FeedReachesZero(g, Feed(g, r, m), c);
    assert PadRight(c, |g|) == c;
  }

  // ---- Error detection -----------------------------------------------------------

  /** a and b differ only inside some window of n consecutive coefficients. */
  ghost predicate DifferWithin(a: Poly, b: Poly, n: nat) {
    exists lo: int :: DifferOnlyIn(a, b, lo, n)
  }

  ghost predicate DifferOnlyIn(a: Poly, b: Poly, lo: int, n: nat) {
    |a| == |b| && forall k :: 0 <= k < |a| && a[k] != b[k] ==> lo <= k < lo + n
  }

  lemma WiderWindow(a: Poly, b: Poly, n: nat, m: nat)
    requires DifferWithin(a, b, n) && n <= m
    ensures DifferWithin(a, b, m)
  {
    var lo: int :| DifferOnlyIn(a, b, lo, n);
    assert DifferOnlyIn(a, b, lo, m);
  }

  /** Adding the generator changes nothing outside its own n + 1 coefficients. */
  lemma GeneratorIsOneBurst(a: Poly, b: Poly, g: Poly, before: nat, after: nat)
    requires |a| == before + 1 + |g| + after
    requires b == Add(a, Zeros(before) + ([true] + g) + Zeros(after))
    ensures DifferWithin(a, b, |g| + 1) && a != b
  {
    var d := Zeros(before) + ([true] + g) + Zeros(after);
    assert d[before];
    assert DifferOnlyIn(a, b, before, |g| + 1);
  }

  /** Two messages with the same residue are equal unless they differ in a longer burst. */
  lemma BurstIsDetected(g: Poly, r: Poly, a: Poly, b: Poly)
    requires |g| == |r| && Odd(g)
    requires DifferWithin(a, b, |g|)
    requires Feed(g, r, a) == Feed(g, r, b)
    ensures a == b
  {
    var n := |g|;
    FeedIsLinear(g, r, r, a, b);
    SumWithSelf(r);
    SumWithSelf(Feed(g, r, a));
    var at: int :| DifferOnlyIn(a, b, at, n);
    var lo, hi := DifferenceIsWindow(a, b, at, n);
    WindowIsZero(g, lo, Add(a, b)[lo..hi], |a| - hi);
    assert Add(a, b) == Zeros(|a|);
    SumWithSelf(a);
    CancelLeft(a, b, a);
  }

  /** The bound is exact: adding the generator itself, n + 1 coefficients long, goes unseen. */
  lemma GeneratorBurstIsMissed(g: Poly, r: Poly, a: Poly, before: nat, after: nat)
    requires |g| == |r| && Odd(g) && |a| == before + 1 + |g| + after
    ensures Feed(g, r, Add(a, Zeros(before) + ([true] + g) + Zeros(after))) == Feed(g, r, a)
  {
    PaddedGeneratorFeedsZero(g, before, after);
    hide Feed, Add, Zeros;
    FeedIsLinear(g, r, Zeros(|g|), a, Zeros(before) + ([true] + g) + Zeros(after));
    SumWithZeros(r);
    SumWithZeros(Feed(g, r, a));
  }

  lemma PaddedGeneratorFeedsZero(g: Poly, before: nat, after: nat)
    requires Odd(g)
    ensures Feed(g, Zeros(|g|), Zeros(before) + ([true] + g) + Zeros(after)) == Zeros(|g|)
  {
    GeneratorFeedsZero(g);
    hide Feed, Zeros;
    var z, h := Zeros(|g|), [true] + g;
    FeedConcat(g, z, Zeros(before) + h, Zeros(after));
    FeedConcat(g, z, Zeros(before), h);
    FeedZeros(g, before);
    FeedZeros(g, after);
  }

  lemma StepFromZero(g: Poly)
    requires |g| > 0
    ensures Step(g, Zeros(|g|), true) == g
  {
    assert Zeros(|g|)[1..] + [false] == Zeros(|g|);
  }

  lemma GeneratorFeedsZero(g: Poly)
    requires Odd(g)
    ensures Feed(g, Zeros(|g|), [true] + g) == Zeros(|g|)
  {
    hide Feed, Step;
    FeedUnfold(g, Zeros(|g|), [true] + g);
    assert ([true] + g)[1..] == g;
    StepFromZero(g);
    FeedReachesZero(g, g, g);
    assert PadRight(g, |g|) == g;
  }

  lemma DifferenceIsWindow(a: Poly, b: Poly, at: int, n: nat) returns (lo: nat, hi: nat)
    requires DifferOnlyIn(a, b, at, n)
    ensures lo <= hi <= |a| && hi - lo <= n
    ensures Add(a, b) == Zeros(lo) + Add(a, b)[lo..hi] + Zeros(|a| - hi)
  {
    lo := if at < 0 then 0 else if at > |a| then |a| else at;
    hi := if at + n < lo then lo else if at + n > |a| then |a| else at + n;
  }

  lemma WindowIsZero(g: Poly, before: nat, w: Poly, after: nat)
    requires Odd(g) && |w| <= |g|
    requires Feed(g, Zeros(|g|), Zeros(before) + w + Zeros(after)) == Zeros(|g|)
    ensures w == Zeros(|w|)
  {
    var z := Zeros(|g|);
    FeedConcat(g, z, Zeros(before) + w, Zeros(after));
    FeedConcat(g, z, Zeros(before), w);
    FeedZeros(g, before);
    ZerosKeepNonZero(g, Feed(g, z, w), after);
    FeedReachesZero(g, z, w);
    assert w == PadRight(w, |g|)[..|w|];
  }

  /** The parity of the number of nonzero coefficients. */
  function Parity(a: Poly): bool {
    if a == [] then false else a[0] != Parity(a[1..])
  }

  lemma {:induction false} ParityIsAdditive(a: Poly, b: Poly)
    requires |a| == |b|
    ensures Parity(Add(a, b)) == (Parity(a) != Parity(b))
  {
    if a != [] {
      assert Add(a, b)[1..] == Add(a[1..], b[1..]);
      ParityIsAdditive(a[1..], b[1..]);
    }
  }

  lemma {:induction false} ParityConcat(a: Poly, b: Poly)
    ensures Parity(a + b) == (Parity(a) != Parity(b))
  {
    if a == [] {
      assert a + b == b;
    } else {
      assert (a + b)[1..] == a[1..] + b;
      ParityConcat(a[1..], b);
    }
  }

  /**
   If the generator has an even number of terms (so x + 1 divides it), the register
   carries the parity of everything fed to it.
   */
  lemma {:induction false} FeedKeepsParity(g: Poly, r: Poly, m: Poly)
    requires |g| == |r| > 0 && Parity(g)
    ensures Parity(Feed(g, r, m)) == (Parity(r) != Parity(m))
    decreases |m|
  {
    if m != [] {
      var shifted := r[1..] + [false];
      ParityConcat(r[1..], [false]);
      ParityIsAdditive(shifted, g);
      FeedKeepsParity(g, Step(g, r, m[0]), m[1..]);
    }
  }

  /** With an even generator no odd number of coefficient errors keeps the residue. */
  lemma OddErrorIsDetected(g: Poly, r: Poly, a: Poly, b: Poly)
    requires |g| == |r| > 0 && Parity(g) && |a| == |b|
    requires Parity(Add(a, b))
    ensures Feed(g, r, a) != Feed(g, r, b)
  {
    FeedKeepsParity(g, r, a);
    FeedKeepsParity(g, r, b);
    ParityIsAdditive(a, b);
  }
}
