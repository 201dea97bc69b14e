/** Division, remainder and powers with variable divisors, through their defining equation only. */
module Division {

  function Div(n: nat, p: nat): nat
    requires p >= 1
  {
    n / p
  }

  function Mod(n: nat, p: nat): nat
    requires p >= 1
  {
    n % p
  }

  lemma DivIs(n: nat, p: nat)
    requires p >= 1
    ensures n == Div(n, p) * p + Mod(n, p)
    ensures Mod(n, p) < p
  {
  }

  lemma ProductMonotone(a: nat, b: nat, p: nat, q: nat)
    requires a <= b && p <= q
    ensures a * p <= b * q
  {
    assert a * p <= a * q;
    assert a * q <= b * q;
  }

  lemma DivUnique(n: nat, p: nat, q: nat, r: nat)
    requires p >= 1 && n == q * p + r && r < p
    ensures Div(n, p) == q && Mod(n, p) == r
  {
    hide Div, Mod;
    DivIs(n, p);
    var d := Div(n, p);
    assert (q + 1) * p == q * p + p && (d + 1) * p == d * p + p;
    if d > q {
      ProductMonotone(q + 1, d, p, p);
    } else if d < q {
      ProductMonotone(d + 1, q, p, p);
    }
  }

  lemma DivFacts(n: nat, p: nat)
    requires p >= 2
    ensures Div(n, p) <= n && (n > 0 ==> Div(n, p) < n)
    ensures n < p <==> Div(n, p) == 0
    ensures n < p ==> Mod(n, p) == n
  {
    hide Div, Mod;
    DivIs(n, p);
    var q := Div(n, p);
    ProductMonotone(q, q, 2, p);
    if q >= 1 {
      ProductMonotone(1, q, p, p);
    }
  }

  lemma DivBelow(n: nat, p: nat, m: nat)
    requires p >= 1
    ensures Div(n, p) < m <==> n < p * m
  {
    hide Div, Mod;
    DivIs(n, p);
    var q := Div(n, p);
    assert (q + 1) * p == q * p + p && m * p == p * m;
    if q < m {
      ProductMonotone(q + 1, m, p, p);
    } else {
      ProductMonotone(m, q, p, p);
    }
  }

  /** Dividing by p and keeping sixteen-fold digits apart: the quotient by 16 p is one place higher. */
  lemma SplitLower(n: nat, p: nat)
    requires p >= 1
    ensures Div(n, p) == Div(n, 16 * p) * 16 + Div(Mod(n, 16 * p), p)
    ensures Mod(n, p) == Mod(Mod(n, 16 * p), p)
  {
    hide Div, Mod;
    var (hi, lo) := (Div(n, 16 * p), Mod(n, 16 * p));
    DivIs(n, 16 * p);
    DivIs(lo, p);
    PlacesCombine(hi, p, Div(lo, p), Mod(lo, p));
    DivUnique(n, p, hi * 16 + Div(lo, p), Mod(lo, p));
  }

  lemma PlacesCombine(hi: nat, p: nat, q: nat, r: nat)
    ensures hi * (16 * p) + (q * p + r) == (hi * 16 + q) * p + r
  {
    assert (hi * 16 + q) * p == (hi * 16) * p + q * p;
    assert (hi * 16) * p == hi * (16 * p);
  }

  lemma Regroup(q: nat, p: nat, r: nat, w: nat)
    ensures (q * p + r) * w == q * (p * w) + r * w
  {
    assert (q * p + r) * w == (q * p) * w + r * w;
    assert (q * p) * w == q * (p * w);
  }

  lemma RestBelow(r: nat, p: nat, w: nat)
    requires r < p && w >= 1
    ensures r * w < p * w
  {
    ProductMonotone(r + 1, p, w, w);
    assert (r + 1) * w == r * w + w;
  }

  /** The top digit of a number below 16 p, after it has been scaled up by w. */
  lemma SplitDigit(n: nat, p: nat, w: nat)
    requires p >= 1 && w >= 1 && n < 16 * p
    ensures p * w >= 1
    ensures Div(n, p) < 16
    ensures Div(n * w, p * w) == Div(n, p)
    ensures Mod(n * w * 16, 16 * (p * w)) == Mod(n, p) * (16 * w)
  {
    hide Div, Mod;
    var (q, r) := (Div(n, p), Mod(n, p));
    DivIs(n, p);
    DivBelow(n, p, 16);
    ProductMonotone(1, p, 1, w);
    RestBelow(r, p, w);
    Regroup(q, p, r, w);
    DivUnique(n * w, p * w, q, r * w);
    Regroup(q, p * w, r * w, 16);
    DivUnique(n * w * 16, 16 * (p * w), q, r * w * 16);
    assert r * w * 16 == r * (16 * w);
  }

  // ---- Powers ----

  function Power(base: nat, k: nat): (p: nat)
    ensures base >= 1 ==> p >= 1
  {
    if k == 0 then 1 else base * Power(base, k - 1)
  }

  lemma {:induction false} PowerGrows(base: nat, k: nat)
    requires base >= 2 && k >= 1
    ensures Power(base, k) >= base
  {
    if k > 1 {
      PowerGrows(base, k - 1);
      ProductMonotone(base, base, 1, Power(base, k - 1));
    }
  }

  lemma {:induction false} PowerMonotone(a: nat, b: nat, k: nat)
    requires a <= b
    ensures Power(a, k) <= Power(b, k)
  {
    if k > 0 {
      PowerMonotone(a, b, k - 1);
      ProductMonotone(a, b, Power(a, k - 1), Power(b, k - 1));
    }
  }

  lemma {:induction false} PowersMultiply(base: nat, a: nat, b: nat)
    ensures Power(base, a) * Power(base, b) == Power(base, a + b)
  {
    if a > 0 {
      PowersMultiply(base, a - 1, b);
      ScaleProduct(base, Power(base, a - 1), Power(base, b));
    }
  }

  lemma ScaleProduct(m: nat, x: nat, y: nat)
    ensures (m * x) * y == m * (x * y)
  {
  }

  lemma PowerFacts(j: nat)
    requires j < 16
    ensures Power(16, 16 - j) == 16 * Power(16, 15 - j) && Power(16, j + 1) == 16 * Power(16, j)
    ensures Power(16, 15 - j) * Power(16, j) == Power(16, 15)
    ensures Power(16, 16) == 16 * Power(16, 15)
  {
    PowersMultiply(16, 15 - j, j);
  }

  /** Shifting the next hexadecimal digit out of the top: n is split at a power of 16. */
  lemma TopDigit(n: nat, j: nat)
    requires j < 16 && n < Power(16, 16 - j)
    ensures var p := Power(16, 15 - j);
            && Div(n, p) < 16
            && Div(n * Power(16, j), Power(16, 15)) == Div(n, p)
            && Mod(n * Power(16, j) * 16, Power(16, 16)) == Mod(n, p) * Power(16, j + 1)
  {
    PowerFacts(j);
    hide Power, Div, Mod;
    SplitDigit(n, Power(16, 15 - j), Power(16, j));
  }

  /** One digit further: n is split one place lower. */
  lemma NextPlace(n: nat, j: nat)
    requires j < 16
    ensures var (big, p) := (Power(16, 16 - j), Power(16, 15 - j));
            Div(n, p) == Div(n, big) * 16 + Div(Mod(n, big), p) && Mod(n, p) == Mod(Mod(n, big), p)
  {
    PowerFacts(j);
    hide Power, Div, Mod;
    SplitLower(n, Power(16, 15 - j));
  }

  lemma PowersOfSixteen()
    ensures Power(16, 16) == 0x1_0000_0000_0000_0000 && Power(16, 15) == 0x1000_0000_0000_0000 && Power(16, 0) == 1
  {
    assert Power(16, 2) == 0x100 && Power(16, 4) == 0x1_0000 && Power(16, 6) == 0x100_0000
        && Power(16, 8) == 0x1_0000_0000;
    assert Power(16, 10) == 0x100_0000_0000 && Power(16, 12) == 0x1_0000_0000_0000
        && Power(16, 14) == 0x100_0000_0000_0000;
  }

  /** 2^32 and 2^31 between powers of some bases. */
  lemma PowersAround32Bits()
    ensures Power(5, 14) > 0x1_0000_0000
    ensures Power(4, 16) == 0x1_0000_0000 && Power(4, 15) == 0x4000_0000
    ensures Power(10, 10) > 0x1_0000_0000
  {
    assert Power(5, 2) == 25 && Power(5, 4) == 625 && Power(5, 6) == 15625 && Power(5, 8) == 390625;
    assert Power(5, 10) == 9765625 && Power(5, 12) == 244140625 && Power(5, 14) == 6103515625;
    assert Power(4, 2) == 16 && Power(4, 4) == 256 && Power(4, 6) == 4096 && Power(4, 8) == 65536;
    assert Power(4, 10) == 1048576 && Power(4, 12) == 16777216 && Power(4, 14) == 268435456;
    assert Power(10, 2) == 100 && Power(10, 4) == 10000 && Power(10, 6) == 1000000 && Power(10, 8) == 100000000;
  }
}
