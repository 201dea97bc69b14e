/** strcmp and strncmp of user/lib/string.c: the lexicographic order of unsigned bytes. */
module StringOrder {
  import opened Memory
  import opened StringLib

  /** The value of an unsigned char. */
  function Value(b: Byte): (v: int)
    ensures 0 <= v < 256
  {
    b as int
  }

  lemma ValueInjective(a: Byte, b: Byte)
    ensures Value(a) == Value(b) <==> a == b
  {
    assert (a as int) as Byte == a && (b as int) as Byte == b;
  }

  /** The values are those of the bytes, in the same order. */
  lemma ValueOrders(a: Byte, b: Byte)
    ensures Value(a) < Value(b) <==> a < b
    ensures Value(a) as Byte == a
  {
  }

  /** A string of memory without its terminator. */
  type Text = s: seq<Byte> | 0 !in s witness []

  /** The difference at the first place where two strings differ, the end of a string counting as 0. */
  function Compare(a: seq<Byte>, b: seq<Byte>): int {
    if a == [] && b == [] then 0
    else if a == [] then 0 - Value(b[0])
    else if b == [] then Value(a[0])
    else if a[0] != b[0] then Value(a[0]) - Value(b[0])
    else Compare(a[1..], b[1..])
  }

  lemma ValuePositive(b: Byte)
    ensures Value(b) == 0 <==> b == 0
  {
    ValueInjective(b, 0);
  }

  /** Two texts agree up to place k, and there they differ or one of them ends. */
  predicate DifferAt(a: seq<Byte>, b: seq<Byte>, k: nat) {
    && k <= |a| && k <= |b| && (forall i :: 0 <= i < k ==> a[i] == b[i])
    && (k == |a| || k == |b| || a[k] != b[k])
  }

  /** There is such a place, and the result is the difference of the bytes there, as numbers, the end being zero. */
  lemma {:induction false} CompareDecides(a: Text, b: Text) returns (k: nat)
    ensures DifferAt(a, b, k)
    ensures Compare(a, b) == (if k < |a| then a[k] as int else 0) - (if k < |b| then b[k] as int else 0)
    decreases |a|
  {
    if a == [] || b == [] || a[0] != b[0] {
      k := 0;
    } else {
      var n := CompareDecides(a[1..], b[1..]);
      k := n + 1;
      assert forall i :: 1 <= i < k ==> a[i] == a[1..][i - 1] == b[1..][i - 1] == b[i];
    }
  }

  /**
    The sign: the left text is less exactly when, at the first place where the two differ, its byte is the smaller
    unsigned one or it has ended.
  */
  lemma CompareSign(a: Text, b: Text, k: nat)
    requires DifferAt(a, b, k)
    ensures Compare(a, b) < 0 <==> k < |b| && (k == |a| || a[k] < b[k])
    ensures Compare(a, b) > 0 <==> k < |a| && (k == |b| || a[k] > b[k])
  {
    hide Compare;
    var n := CompareDecides(a, b);
    assert n == k;
    if k < |a| && k < |b| {
      ValueOrders(a[k], b[k]);
      ValueOrders(b[k], a[k]);
    }
    if k < |a| {
      ValuePositive(a[k]);
    }
    if k < |b| {
      ValuePositive(b[k]);
    }
  }

  /** Compare is zero just for equal strings, and turns its sign when the arguments change places. */
  lemma {:induction false} CompareAntisymmetric(a: Text, b: Text)
    ensures Compare(a, b) == 0 <==> a == b
    ensures Compare(a, b) == 0 - Compare(b, a)
    decreases |a|
  {
    hide Value;
    if a != [] && b != [] {
      ValueInjective(a[0], b[0]);
      if a[0] == b[0] {
        CompareAntisymmetric(a[1..], b[1..]);
        assert a == [a[0]] + a[1..] && b == [b[0]] + b[1..];
      }
    } else if a != [] {
      ValuePositive(a[0]);
    } else if b != [] {
      ValuePositive(b[0]);
    }
  }

  /** Together with the lemma above: a total order. */
  lemma {:induction false} CompareTransitive(a: Text, b: Text, c: Text)
    requires Compare(a, b) <= 0 && Compare(b, c) <= 0
    ensures Compare(a, c) <= 0
    decreases |a|
  {
    hide Value;
    if a != [] {
      ValuePositive(a[0]);
      if b != [] {
        ValueInjective(a[0], b[0]);
        ValuePositive(b[0]);
        if c != [] {
          ValueInjective(b[0], c[0]);
          ValueInjective(a[0], c[0]);
          if a[0] == b[0] == c[0] {
            CompareTransitive(a[1..], b[1..], c[1..]);
          }
        }
      }
    }
  }

  /** A string cut to n bytes. */
  function Cut(s: seq<Byte>, n: nat): seq<Byte> {
    if |s| <= n then s else s[..n]
  }

  /** The string at s, as a value. */
  ghost function TextAt(ram: Ram, s: nat, z: nat): (t: seq<Byte>)
    requires StringAt(ram, s, z)
    reads ram.cells
    ensures |t| == z - s
  {
    ram.cells[s - ram.base..z - ram.base]
  }

  /** Two bytes in place, equal and not both terminators: the rest decides. */
  lemma CompareStep(ram: Ram, l: nat, zl: nat, r: nat, zr: nat)
    requires StringAt(ram, l, zl) && StringAt(ram, r, zr)
    ensures ram.Load(l) == 0 <==> l == zl
    ensures ram.Load(r) == 0 <==> r == zr
    ensures ram.Load(l) == ram.Load(r) && l < zl ==>
      r < zr && StringAt(ram, l + 1, zl) && StringAt(ram, r + 1, zr)
      && TextAt(ram, l, zl)[1..] == TextAt(ram, l + 1, zl) && TextAt(ram, r, zr)[1..] == TextAt(ram, r + 1, zr)
      && TextAt(ram, l, zl)[0] == TextAt(ram, r, zr)[0]
    ensures ram.Load(l) != ram.Load(r) || l == zl ==>
      Compare(TextAt(ram, l, zl), TextAt(ram, r, zr)) == Value(ram.Load(l)) - Value(ram.Load(r))
  {
    hide Value;
    assert Value(0) == 0 by { ValuePositive(0); }
    if l < zl {
      assert TextAt(ram, l, zl)[0] == ram.Load(l);
    }
    if r < zr {
      assert TextAt(ram, r, zr)[0] == ram.Load(r);
    }
  }

  /** The bytes i places on are the same and do not end the texts. */
  ghost predicate SameAt(ram: Ram, l: nat, r: nat, i: nat)
    reads ram.cells
  {
    && ram.Mapped(l + i, l + i + 1) && ram.Mapped(r + i, r + i + 1)
    && ram.Load(l + i) == ram.Load(r + i) != 0
  }

  lemma Same(ram: Ram, l: nat, r: nat, i: nat)
    requires ram.Mapped(l + i, l + i + 1) && ram.Mapped(r + i, r + i + 1)
    requires ram.Load(l + i) == ram.Load(r + i) != 0
    ensures SameAt(ram, l, r, i)
  {
  }

  /** d is the difference of the bytes k places on, and nothing has ended the comparison before. */
  ghost predicate DecidedAt(ram: Ram, l: nat, r: nat, k: nat, d: int)
    reads ram.cells
  {
    && ram.Mapped(l + k, l + k + 1) && ram.Mapped(r + k, r + k + 1)
    && (forall i: nat :: i < k ==> SameAt(ram, l, r, i))
    && d == ram.Load(l + k) as int - ram.Load(r + k) as int
    && (d < 0 <==> ram.Load(l + k) < ram.Load(r + k)) && (d == 0 <==> ram.Load(l + k) == ram.Load(r + k))
  }

  lemma Decided(ram: Ram, l: nat, r: nat, k: nat)
    requires ram.Mapped(l + k, l + k + 1) && ram.Mapped(r + k, r + k + 1)
    requires forall i: nat :: i < k ==> SameAt(ram, l, r, i)
    ensures DecidedAt(ram, l, r, k, Value(ram.Load(l + k)) - Value(ram.Load(r + k)))
  {
    hide Ram.Load, SameAt;
    var (a, b) := (ram.Load(l + k), ram.Load(r + k));
    ValueOrders(a, b);
    ValueInjective(a, b);
  }

  method StrCmp(ram: Ram, l0: nat, r0: nat, ghost zl: nat, ghost zr: nat) returns (d: int)
    requires StringAt(ram, l0, zl) && StringAt(ram, r0, zr)
    ensures d == Compare(TextAt(ram, l0, zl), TextAt(ram, r0, zr))
    ensures exists k: nat :: DecidedAt(ram, l0, r0, k, d) && (d == 0 ==> ram.Load(l0 + k) == 0)
  {
    hide Value, TextAt, Ram.Load, DecidedAt, SameAt;
    var l: nat, r: nat := l0, r0;
    CompareStep(ram, l, zl, r, zr);
    while ram.Load(l) == ram.Load(r) && ram.Load(l) != 0
      invariant l <= zl && r <= zr && StringAt(ram, l, zl) && StringAt(ram, r, zr)
      invariant Compare(TextAt(ram, l0, zl), TextAt(ram, r0, zr)) == Compare(TextAt(ram, l, zl), TextAt(ram, r, zr))
      invariant l - l0 == r - r0 >= 0
      invariant forall i: nat :: i < l - l0 ==> SameAt(ram, l0, r0, i)
      decreases zl - l
    {
      CompareStep(ram, l, zl, r, zr);
      Same(ram, l0, r0, l - l0);
      l, r := l + 1, r + 1;
    }
    CompareStep(ram, l, zl, r, zr);
    d := Value(ram.Load(l)) - Value(ram.Load(r));
    ghost var k := l - l0;
    assert l0 + k == l && r0 + k == r;
    Decided(ram, l0, r0, k);
    ValueInjective(ram.Load(l), ram.Load(r));
    assert DecidedAt(ram, l0, r0, k, d);
  }

  // ---- strncmp ----

  /** The bytes from s up to z, as a value. */
  ghost function BytesAt(ram: Ram, s: nat, z: nat): (t: seq<Byte>)
    requires ram.Mapped(s, z)
    reads ram.cells
    ensures |t| == z - s
  {
    ram.cells[s - ram.base..z - ram.base]
  }

  /** For a terminated string, the bytes before its first NUL within n bytes are the string cut to n bytes. */
  lemma CutIsBounded(ram: Ram, s: nat, n: nat, z: nat)
    requires StringAt(ram, s, z)
    ensures var e := if z < s + n then z else s + n;
            FirstByte(ram, s, n, 0, e) && BytesAt(ram, s, e) == Cut(TextAt(ram, s, z), n)
  {
  }

  lemma BoundedHead(ram: Ram, s: nat, n: nat, z: nat)
    requires FirstByte(ram, s, n, 0, z) && n >= 1
    ensures ram.Mapped(s, s + 1)
    ensures ram.Load(s) == 0 <==> s == z
    ensures s < z ==>
      && FirstByte(ram, s + 1, n - 1, 0, z)
      && BytesAt(ram, s, z)[0] == ram.Load(s) && BytesAt(ram, s, z)[1..] == BytesAt(ram, s + 1, z)
    ensures s == z ==> BytesAt(ram, s, z) == []
  {
    if s < z {
      assert BytesAt(ram, s, z)[0] == ram.Load(s);
    }
  }

  lemma NothingLeft(ram: Ram, s: nat, z: nat)
    requires FirstByte(ram, s, 0, 0, z)
    ensures BytesAt(ram, s, z) == []
  {
  }

  lemma FirstMapped(ram: Ram, s: nat, n: nat, z: nat)
    requires FirstByte(ram, s, n, 0, z)
    ensures ram.Mapped(s, z)
  {
  }

  /** Two equal bytes that end neither text: the same holds one place further on, and the rest decides. */
  lemma BoundedStep(ram: Ram, l: nat, zl: nat, r: nat, zr: nat, n: nat)
    requires FirstByte(ram, l, n + 1, 0, zl) && FirstByte(ram, r, n + 1, 0, zr) && n > 0
    requires ram.Mapped(l, zl) && ram.Mapped(r, zr) && ram.Mapped(l, l + 1) && ram.Mapped(r, r + 1)
    requires ram.Load(l) == ram.Load(r) != 0
    ensures FirstByte(ram, l + 1, n, 0, zl) && FirstByte(ram, r + 1, n, 0, zr)
    ensures ram.Mapped(l + 1, zl) && ram.Mapped(r + 1, zr) && ram.Mapped(l + 1, l + 2) && ram.Mapped(r + 1, r + 2)
    ensures (ram.Load(l + 1) == 0 <==> l + 1 == zl) && (ram.Load(r + 1) == 0 <==> r + 1 == zr)
    ensures Compare(BytesAt(ram, l, zl), BytesAt(ram, r, zr))
            == Compare(BytesAt(ram, l + 1, zl), BytesAt(ram, r + 1, zr))
  {
    hide BytesAt, Ram.Load, Compare, FirstByte;
    BoundedHead(ram, l, n + 1, zl);
    BoundedHead(ram, r, n + 1, zr);
    FirstMapped(ram, l + 1, n, zl);
    FirstMapped(ram, r + 1, n, zr);
    CompareHeads(BytesAt(ram, l, zl), BytesAt(ram, r, zr));
    BoundedHead(ram, l + 1, n, zl);
    BoundedHead(ram, r + 1, n, zr);
  }

  /**
    Two buffers of which the first n bytes may be read up to a NUL, if there is one: the difference at the first
    place where the texts before the NUL, or of n bytes, differ.
  */
  method StrNCmp(ram: Ram, l0: nat, r0: nat, n0: nat, ghost zl: nat, ghost zr: nat) returns (d: int)
    requires FirstByte(ram, l0, n0, 0, zl) && FirstByte(ram, r0, n0, 0, zr)
    ensures d == Compare(BytesAt(ram, l0, zl), BytesAt(ram, r0, zr))
    ensures if n0 == 0 then d == 0
            else exists k: nat ::
              k < n0 && DecidedAt(ram, l0, r0, k, d) && (d == 0 ==> k == n0 - 1 || ram.Load(l0 + k) == 0)
  {
    hide Value, BytesAt, Ram.Load, Compare, FirstByte, DecidedAt, SameAt;
    assert ram.Mapped(l0, zl) && ram.Mapped(r0, zr) by { FirstMapped(ram, l0, n0, zl); FirstMapped(ram, r0, n0, zr); }
    ghost var all := Compare(BytesAt(ram, l0, zl), BytesAt(ram, r0, zr));
    if n0 == 0 {
      NothingLeft(ram, l0, zl);
      NothingLeft(ram, r0, zr);
      assert Compare([], []) == 0 by { NothingCompared(); }
      return 0;
    }
    var l: nat, r: nat, n: nat := l0, r0, n0 - 1;
    BoundedHead(ram, l, n + 1, zl);
    BoundedHead(ram, r, n + 1, zr);
    while ram.Load(l) != 0 && ram.Load(r) != 0 && n > 0 && ram.Load(l) == ram.Load(r)
      invariant FirstByte(ram, l, n + 1, 0, zl) && FirstByte(ram, r, n + 1, 0, zr)
      invariant ram.Mapped(l, zl) && ram.Mapped(r, zr) && ram.Mapped(l, l + 1) && ram.Mapped(r, r + 1)
      invariant (ram.Load(l) == 0 <==> l == zl) && (ram.Load(r) == 0 <==> r == zr)
      invariant all == Compare(BytesAt(ram, l, zl), BytesAt(ram, r, zr))
      invariant l - l0 == r - r0 == n0 - 1 - n >= 0
      invariant forall i: nat :: i < l - l0 ==> SameAt(ram, l0, r0, i)
      decreases n
    {
      BoundedStep(ram, l, zl, r, zr, n);
      Same(ram, l0, r0, l - l0);
      l, r, n := l + 1, r + 1, n - 1;
    }
    LastCompared(ram, l, zl, r, zr, n);
    d := Value(ram.Load(l)) - Value(ram.Load(r));
    ghost var k := l - l0;
    assert l0 + k == l && r0 + k == r;
    Decided(ram, l0, r0, k);
    ValueInjective(ram.Load(l), ram.Load(r));
    assert DecidedAt(ram, l0, r0, k, d);
  }

  lemma NothingCompared()
    ensures Compare([], []) == 0
  {
  }

  /** Equal first bytes: the rest decides. Different ones decide. The end of a text counts as 0. */
  lemma CompareHeads(a: seq<Byte>, b: seq<Byte>)
    ensures a != [] && b != [] && a[0] == b[0] ==> Compare(a, b) == Compare(a[1..], b[1..])
    ensures a == [] || b == [] || a[0] != b[0] ==>
      Compare(a, b) == (if a == [] then 0 else Value(a[0])) - (if b == [] then 0 else Value(b[0]))
  {
    hide Value;
  }

  lemma LastCompared(ram: Ram, l: nat, zl: nat, r: nat, zr: nat, n: nat)
    requires FirstByte(ram, l, n + 1, 0, zl) && FirstByte(ram, r, n + 1, 0, zr)
    requires ram.Mapped(l, l + 1) && ram.Mapped(r, r + 1)
    requires ram.Load(l) == 0 || ram.Load(r) == 0 || n == 0 || ram.Load(l) != ram.Load(r)
    ensures Compare(BytesAt(ram, l, zl), BytesAt(ram, r, zr)) == Value(ram.Load(l)) - Value(ram.Load(r))
  {
    hide Value, BytesAt, FirstByte, Compare, Ram.Load;
    assert Value(0) == 0 by { ValuePositive(0); }
    FirstMapped(ram, l, n + 1, zl);
    FirstMapped(ram, r, n + 1, zr);
    BoundedHead(ram, l, n + 1, zl);
    BoundedHead(ram, r, n + 1, zr);
    CompareHeads(BytesAt(ram, l, zl), BytesAt(ram, r, zr));
    if n == 0 && l < zl && r < zr {
      NothingLeft(ram, l + 1, zl);
      NothingLeft(ram, r + 1, zr);
      NothingCompared();
    }
  }
}
