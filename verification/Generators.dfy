/** The generators of both checksums, term by term, as their standards give them. */
module Generators {
  import opened PolynomialRegister
  import opened Words
  import opened Crc

  /** p, of degree n, has exactly these powers of x. */
  predicate HasTerms(p: Poly, n: nat, powers: set<int>) {
    |p| == n + 1 && forall k :: 0 <= k <= n ==> (p[k] <==> n - k in powers)
  }

  lemma Terms24A()
    ensures TopBits(0x864cfb, 8) == [true, false, false, false, false, true, true, false]
  {
    assert TopBits(0x21933ec0, 2) == [true, false];
    assert TopBits(0x864cfb0, 4) == [false, true, true, false];
    assert TopBits(0x21933ec, 6) == [false, false, false, true, true, false];
  }

  lemma Terms24B()
    ensures TopBits(0x864cfb00, 8) == [false, true, false, false, true, true, false, false]
  {
    assert TopBits(0x933ec000, 2) == [false, false];
    assert TopBits(0x64cfb000, 4) == [true, true, false, false];
    assert TopBits(0x1933ec00, 6) == [false, false, true, true, false, false];
  }

  lemma Terms24C()
    ensures TopBits(0x4cfb0000, 8) == [true, true, true, true, true, false, true, true]
  {
    assert TopBits(0x3ec00000, 2) == [true, true];
    assert TopBits(0xcfb00000, 4) == [true, false, true, true];
    assert TopBits(0x33ec0000, 6) == [true, true, true, false, true, true];
  }

  lemma Terms32A()
    ensures LowBits(0xedb88320, 8) == [false, false, false, false, false, true, false, false]
  {
    assert LowBits(0x3b6e20c, 2) == [false, false];
    assert LowBits(0xedb8832, 4) == [false, true, false, false];
    assert LowBits(0x3b6e20c8, 6) == [false, false, false, true, false, false];
  }

  lemma Terms32B()
    ensures LowBits(0xedb883, 8) == [true, true, false, false, false, false, false, true]
  {
    assert LowBits(0x3b6e2, 2) == [false, true];
    assert LowBits(0xedb88, 4) == [false, false, false, true];
    assert LowBits(0x3b6e20, 6) == [false, false, false, false, false, true];
  }

  lemma Terms32C()
    ensures LowBits(0xedb8, 8) == [false, false, false, true, true, true, false, true]
  {
    assert LowBits(0x3b6, 2) == [false, true];
    assert LowBits(0xedb, 4) == [true, true, false, true];
    assert LowBits(0x3b6e, 6) == [false, true, true, true, false, true];
  }

  lemma Terms32D()
    ensures LowBits(0xed, 8) == [true, false, true, true, false, true, true, true]
  {
    assert LowBits(0x3, 2) == [true, true];
    assert LowBits(0xe, 4) == [false, true, true, true];
    assert LowBits(0x3b, 6) == [true, true, false, true, true, true];
  }

  /** CRC-24Q: x^24 + x^23 + x^18 + x^17 + x^14 + x^11 + x^10 + x^7 + x^6 + x^5 + x^4 + x^3 + x + 1. */
  lemma Generator24()
    ensures HasTerms([true] + G24, 24, {24, 23, 18, 17, 14, 11, 10, 7, 6, 5, 4, 3, 1, 0})
  {
    hide TopBits;
    Terms24A();
    Terms24B();
    Terms24C();
    TopBitsOfThree(0x864CFB);
  }

  /** The polynomial of IEEE 802.3, which section 8 of RFC 1952 uses. */
  lemma Generator32()
    ensures HasTerms([true] + G32, 32, {32, 26, 23, 22, 16, 12, 11, 10, 8, 7, 5, 4, 2, 1, 0})
  {
    hide LowBits;
    Terms32A();
    Terms32B();
    Terms32C();
    Terms32D();
    LowBitsOfFour(0xEDB88320, 0xEDB883);
  }
}
