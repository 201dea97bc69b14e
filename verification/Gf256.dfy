/** Arithmetic in GF(2^8) as section 4 of FIPS-197 defines it, one byte at a time. */
module Gf256 {

  type Byte = bv8

  /** Addition in the field. */
  function Add(a: Byte, b: Byte): Byte {
    a ^ b
  }

  function Sum4(a: Byte, b: Byte, c: Byte, d: Byte): Byte {
    Add(Add(Add(a, b), c), d)
  }

  /** Multiplication by x, reduced by the AES polynomial. */
  function XTime(b: Byte): Byte {
    (b << 1) ^ (if b & 0x80 == 0x80 then 0x1b else 0)
  }

  function X2(b: Byte): Byte { XTime(XTime(b)) }
  function X3(b: Byte): Byte { XTime(XTime(XTime(b))) }

  // The multiples that MixColumns and InvMixColumns use, as sums of repeated XTime.
  function Mul2(b: Byte): Byte { XTime(b) }
  function Mul3(b: Byte): Byte { Add(XTime(b), b) }
  function Mul9(b: Byte): Byte { Add(X3(b), b) }
  function MulB(b: Byte): Byte { Add(Add(X3(b), XTime(b)), b) }
  function MulD(b: Byte): Byte { Add(Add(X3(b), X2(b)), b) }
  function MulE(b: Byte): Byte { Add(Add(X3(b), X2(b)), XTime(b)) }

  lemma AddCancels(a: Byte, b: Byte)
    ensures Add(Add(a, b), b) == a
  {
    assert (a ^ b) ^ b == a;
  }

  /** The middle-four exchange: sums of pairs may be regrouped. */
  lemma AddExchange(a: Byte, b: Byte, c: Byte, d: Byte)
    ensures Add(Add(a, b), Add(c, d)) == Add(Add(a, c), Add(b, d))
  {
    assert (a ^ b) ^ (c ^ d) == (a ^ c) ^ (b ^ d);
  }

  /** Four sums of pairs, added up, are the sum of the two four-term sums. */
  lemma SumExchange(a: Byte, b: Byte, c: Byte, d: Byte, a': Byte, b': Byte, c': Byte, d': Byte)
    ensures Sum4(Add(a, a'), Add(b, b'), Add(c, c'), Add(d, d')) == Add(Sum4(a, b, c, d), Sum4(a', b', c', d'))
  {
    hide Add;
    AddExchange(a, a', b, b');
    AddExchange(Add(a, b), Add(a', b'), c, c');
    AddExchange(Add(Add(a, b), c), Add(Add(a', b'), c'), d, d');
  }

  lemma XTimeAdds(a: Byte, b: Byte)
    ensures XTime(Add(a, b)) == Add(XTime(a), XTime(b))
  {
    if a & 0x80 == 0x80 {
      if b & 0x80 == 0x80 {
      } else {
      }
    } else {
      if b & 0x80 == 0x80 {
      } else {
      }
    }
  }

  lemma PowersAdd(a: Byte, b: Byte)
    ensures XTime(Add(a, b)) == Add(XTime(a), XTime(b))
    ensures X2(Add(a, b)) == Add(X2(a), X2(b))
    ensures X3(Add(a, b)) == Add(X3(a), X3(b))
  {
    hide XTime, Add;
    XTimeAdds(a, b);
    XTimeAdds(XTime(a), XTime(b));
    XTimeAdds(XTime(XTime(a)), XTime(XTime(b)));
  }

  /** Multiplication by each constant of InvMixColumns distributes over field addition. */
  lemma MulAdds(a: Byte, b: Byte)
    ensures Mul9(Add(a, b)) == Add(Mul9(a), Mul9(b))
    ensures MulB(Add(a, b)) == Add(MulB(a), MulB(b))
    ensures MulD(Add(a, b)) == Add(MulD(a), MulD(b))
    ensures MulE(Add(a, b)) == Add(MulE(a), MulE(b))
  {
    hide XTime, X2, X3, Add;
    PowersAdd(a, b);
    AddExchange(X3(a), X3(b), a, b);
    AddExchange(X3(a), X3(b), XTime(a), XTime(b));
    AddExchange(Add(X3(a), XTime(a)), Add(X3(b), XTime(b)), a, b);
    AddExchange(X3(a), X3(b), X2(a), X2(b));
    AddExchange(Add(X3(a), X2(a)), Add(X3(b), X2(b)), a, b);
    AddExchange(Add(X3(a), X2(a)), Add(X3(b), X2(b)), XTime(a), XTime(b));
  }

  lemma MulSums(a: Byte, b: Byte, c: Byte, d: Byte)
    ensures Mul9(Sum4(a, b, c, d)) == Sum4(Mul9(a), Mul9(b), Mul9(c), Mul9(d))
    ensures MulB(Sum4(a, b, c, d)) == Sum4(MulB(a), MulB(b), MulB(c), MulB(d))
    ensures MulD(Sum4(a, b, c, d)) == Sum4(MulD(a), MulD(b), MulD(c), MulD(d))
    ensures MulE(Sum4(a, b, c, d)) == Sum4(MulE(a), MulE(b), MulE(c), MulE(d))
  {
    hide Mul9, MulB, MulD, MulE, Add;
    MulAdds(a, b);
    MulAdds(Add(a, b), c);
    MulAdds(Add(Add(a, b), c), d);
  }

  lemma SumRotates(a: Byte, b: Byte, c: Byte, d: Byte)
    ensures Sum4(a, b, c, d) == Sum4(b, c, d, a)
  {
    assert a ^ b ^ c ^ d == b ^ c ^ d ^ a;
  }

  /** Four diagonal sums, added up, regroup into the sums by letter. */
  lemma SumTransposes(a1: Byte, a2: Byte, a3: Byte, a4: Byte, b1: Byte, b2: Byte, b3: Byte, b4: Byte,
                      c1: Byte, c2: Byte, c3: Byte, c4: Byte, d1: Byte, d2: Byte, d3: Byte, d4: Byte)
    ensures Sum4(Sum4(a1, b1, c1, d1), Sum4(b2, c2, d2, a2), Sum4(c3, d3, a3, b3), Sum4(d4, a4, b4, c4))
         == Sum4(Sum4(a1, a2, a3, a4), Sum4(b1, b2, b3, b4), Sum4(c1, c2, c3, c4), Sum4(d1, d2, d3, d4))
  {
    hide Add;
    SumRotates(a2, b2, c2, d2);
    SumRotates(a3, b3, c3, d3);
    SumRotates(b3, c3, d3, a3);
    SumRotates(d4, a4, b4, c4);
    SumExchange(a1, b1, c1, d1, a2, b2, c2, d2);
    SumExchange(Add(a1, a2), Add(b1, b2), Add(c1, c2), Add(d1, d2), a3, b3, c3, d3);
    SumExchange(Add(Add(a1, a2), a3), Add(Add(b1, b2), b3), Add(Add(c1, c2), c3), Add(Add(d1, d2), d3), a4, b4, c4, d4);
  }

  // The rows of (e b d 9)(2 3 1 1) as sums of formal powers of x, pk standing for x^k: one is 1, three are 0.

  lemma Row1Cancels(p4: Byte, p3: Byte, p2: Byte, p1: Byte, p0: Byte)
    ensures Sum4(Add(Add(p4, p3), p2), Add(Add(p3, p1), p0), Add(Add(p3, p2), p0), Add(Add(p4, p3), Add(p1, p0))) == p0
  {
    assert (p4 ^ p3 ^ p2) ^ (p3 ^ p1 ^ p0) ^ (p3 ^ p2 ^ p0) ^ ((p4 ^ p3) ^ (p1 ^ p0)) == p0;
  }

  lemma Row2Cancels(p4: Byte, p3: Byte, p2: Byte, p1: Byte, p0: Byte)
    ensures Sum4(Add(Add(Add(p4, p3), Add(p3, p2)), Add(p2, p1)), Add(Add(p4, p2), p1), Add(Add(p3, p2), p0),
        Add(p3, p0)) == 0
  {
    assert ((p4 ^ p3) ^ (p3 ^ p2) ^ (p2 ^ p1)) ^ (p4 ^ p2 ^ p1) ^ (p3 ^ p2 ^ p0) ^ (p3 ^ p0) == 0;
  }

  lemma Row3Cancels(p4: Byte, p3: Byte, p2: Byte, p1: Byte, p0: Byte)
    ensures Sum4(Add(Add(p3, p2), p1), Add(Add(Add(p4, p3), Add(p2, p1)), Add(p1, p0)), Add(Add(p4, p3), p1),
        Add(p3, p0)) == 0
  {
    assert (p3 ^ p2 ^ p1) ^ ((p4 ^ p3) ^ (p2 ^ p1) ^ (p1 ^ p0)) ^ (p4 ^ p3 ^ p1) ^ (p3 ^ p0) == 0;
  }

  lemma Row4Cancels(p4: Byte, p3: Byte, p2: Byte, p1: Byte, p0: Byte)
    ensures Sum4(Add(Add(p3, p2), p1), Add(Add(p3, p1), p0), Add(Add(Add(p4, p3), Add(p3, p2)), Add(p1, p0)),
        Add(p4, p1)) == 0
  {
    assert (p3 ^ p2 ^ p1) ^ (p3 ^ p1 ^ p0) ^ ((p4 ^ p3) ^ (p3 ^ p2) ^ (p1 ^ p0)) ^ (p4 ^ p1) == 0;
  }

  /** The circulant (e b d 9) undoes the circulant (2 3 1 1): one input byte at a time. */
  lemma CirculantInverse(b: Byte)
    ensures Sum4(MulE(Mul2(b)), MulB(b), MulD(b), Mul9(Mul3(b))) == b
    ensures Sum4(MulE(Mul3(b)), MulB(Mul2(b)), MulD(b), Mul9(b)) == 0
    ensures Sum4(MulE(b), MulB(Mul3(b)), MulD(Mul2(b)), Mul9(b)) == 0
    ensures Sum4(MulE(b), MulB(b), MulD(Mul3(b)), Mul9(Mul2(b))) == 0
  {
    hide XTime, Add, Sum4;
    PowersAdd(XTime(b), b);
    Row1Cancels(X3(XTime(b)), X3(b), X2(b), XTime(b), b);
    Row2Cancels(X3(XTime(b)), X3(b), X2(b), XTime(b), b);
    Row3Cancels(X3(XTime(b)), X3(b), X2(b), XTime(b), b);
    Row4Cancels(X3(XTime(b)), X3(b), X2(b), XTime(b), b);
  }
}
