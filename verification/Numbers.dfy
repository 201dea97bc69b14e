/**
  Numbers as text: printint and printptr of user/lib/stdio.c, atoi of user/lib/string.c, and append_u32 of
  user/src/test/test_fork_wait.c, with 32-bit integers.
*/
module Numbers {
  import opened Division

  type Int32 = n: int | -0x8000_0000 <= n < 0x8000_0000
  type UInt32 = n: int | 0 <= n < 0x1_0000_0000
  type UInt64 = n: int | 0 <= n < 0x1_0000_0000_0000_0000

  const DIGITS := "0123456789abcdef"

  function Digit(d: nat): char
    requires d < 16
  {
    DIGITS[d]
  }

  /** The value that a C conversion to unsigned int has. */
  function ToUnsigned(n: int): UInt32 {
    n % 0x1_0000_0000
  }

  /** The digits of n, most significant first. */
  function Digits(n: nat, base: nat): (s: string)
    requires 2 <= base <= 16
    ensures |s| >= 1
  {
    DivFacts(n, base);
    DivIs(n, base);
    if n < base then [Digit(n)] else Digits(Div(n, base), base) + [Digit(Mod(n, base))]
  }

  /** -xx as the C code assigns it to an unsigned int: the smallest int wraps around. */
  function Negated(xx: int): UInt32 {
    ToUnsigned(-xx)
  }

  /** What printint puts out. */
  function IntString(xx: Int32, base: nat, sign: bool): string
    requires 2 <= base <= 16
  {
    if sign && xx < 0 then "-" + Digits(Negated(xx), base) else Digits(ToUnsigned(xx), base)
  }

  // ---- printint ----

  /** The digits of x still to be laid down once the last one has been; none for zero. */
  function Rest(x: nat, base: nat): string
    requires 2 <= base <= 16
  {
    if x == 0 then "" else Digits(x, base)
  }

  lemma RestStep(x: nat, base: nat)
    requires 2 <= base <= 16
    ensures Mod(x, base) < 16
    ensures Digits(x, base) == Rest(Div(x, base), base) + [Digit(Mod(x, base))]
    ensures Div(x, base) <= x && (x > 0 ==> Div(x, base) < x)
  {
    hide Div, Mod, Digit;
    DivFacts(x, base);
    DivIs(x, base);
  }

  /** The do-while loop: digits are laid down from the right, and the index never leaves the buffer. */
  method LayDigits(buf: array<char>, x0: UInt32, base: nat) returns (i: int)
    requires 2 <= base <= 16 && buf.Length == 17 && |Digits(x0, base)| <= 16
    modifies buf
    ensures i == 15 - |Digits(x0, base)| && buf[i + 1..16] == Digits(x0, base)
  {
    hide Digits, Digit, Rest, Div, Mod;
    ghost var all := Digits(x0, base);
    var x: nat := x0;
    i := 15;
    ghost var done := "";
    var more := true;
    while more
      invariant -1 <= i <= 15 && i == 15 - |done|
      invariant buf[i + 1..16] == done
      invariant if more then Digits(x, base) + done == all else x == 0 && done == all
      invariant more ==> i >= 0
      decreases more, x
    {
      RestStep(x, base);
      buf[i] := Digit(Mod(x, base));
      done := [Digit(Mod(x, base))] + done;
      assert buf[i..16] == done;
      i := i - 1;
      x := Div(x, base);
      more := x != 0;
      RestIs(x, base);
    }
  }

  lemma RestIs(x: nat, base: nat)
    requires 2 <= base <= 16
    ensures if x == 0 then Rest(x, base) == "" else Rest(x, base) == Digits(x, base)
  {
  }

  /** The error branch of printint is dead: the text always fits. */
  method PrintInt(xx: Int32, base: nat, sign: bool) returns (text: string)
    requires 2 <= base <= 16 && |IntString(xx, base, sign)| <= 16
    ensures text == IntString(xx, base, sign)
  {
    hide Digits;
    var buf := new char[17](_ => '\0');
    var negative := sign && xx < 0;
    var x: UInt32 := if negative then Negated(xx) else ToUnsigned(xx);
    var i := LayDigits(buf, x, base);
    if negative {
      buf[i] := '-';
      assert buf[i..16] == ['-'] + Digits(x, base);
      i := i - 1;
    }
    i := i + 1;
    text := "";
    if i < 0 {
      text := text + "printint error";
    }
    text := text + buf[i..16];
  }

  // ---- How much room the digits need ----

  /** k digits are enough just for the numbers below the k-th power of the base. */
  lemma {:induction false} DigitsFit(n: nat, base: nat, k: nat)
    requires 2 <= base <= 16 && k >= 1
    ensures |Digits(n, base)| <= k <==> n < Power(base, k)
    decreases k
  {
    hide Div, Mod, Digit;
    DivFacts(n, base);
    DivIs(n, base);
    if n < base {
      PowerGrows(base, k);
    } else if k == 1 {
      assert Power(base, 1) == base * Power(base, 0) == base;
    } else {
      DigitsFit(Div(n, base), base, k - 1);
      DivBelow(n, base, Power(base, k - 1));
      assert Power(base, k) == base * Power(base, k - 1);
    }
  }

  /** The buffer is large enough for every int just for the bases from 5 up. */
  lemma FitsExactly(base: nat)
    requires 2 <= base <= 16
    ensures (forall xx: Int32, sign: bool :: |IntString(xx, base, sign)| <= 16) <==> base >= 5
  {
    hide Digits, Power;
    PowersAround32Bits();
    if base >= 5 {
      PowerMonotone(5, base, 14);
      forall xx: Int32, sign: bool ensures |IntString(xx, base, sign)| <= 16 {
        DigitsFit(Negated(xx), base, 14);
        DigitsFit(ToUnsigned(xx), base, 14);
      }
    } else {
      // the smallest int: a minus sign and sixteen digits or more
      PowerMonotone(base, 4, 15);
      DigitsFit(0x8000_0000, base, 15);
      assert Negated(-0x8000_0000) == 0x8000_0000;
      assert |IntString(-0x8000_0000, base, true)| > 16;
    }
  }

  // ---- atoi ----

  predicate IsSpace(c: char) {
    c == ' ' || '\t' <= c <= '\r'
  }

  predicate IsDigit(c: char) {
    '0' <= c <= '9'
  }

  function DigitValue(c: char): int {
    c as int - '0' as int
  }

  /** The number that a text starts with, going on from the digits already read. */
  function ReadDigits(s: string, value: nat): nat {
    if s == [] || !IsDigit(s[0]) then value else ReadDigits(s[1..], 10 * value + DigitValue(s[0]))
  }

  function SkipSpaces(s: string): string {
    if s != [] && IsSpace(s[0]) then SkipSpaces(s[1..]) else s
  }

  /** The number that a text means: spaces, a sign, digits; whatever follows is ignored. */
  function Meaning(s: string): int {
    var t := SkipSpaces(s);
    if t != [] && t[0] == '-' then 0 - ReadDigits(t[1..], 0)
    else if t != [] && t[0] == '+' then ReadDigits(t[1..], 0)
    else ReadDigits(t, 0)
  }

  lemma {:induction false} ReadDigitsGrows(s: string, value: nat)
    ensures ReadDigits(s, value) >= value
  {
    if s != [] && IsDigit(s[0]) {
      ReadDigitsGrows(s[1..], 10 * value + DigitValue(s[0]));
    }
  }

  /** The loop over the leading spaces. */
  method PassSpaces(text: string) returns (i: nat)
    requires '\0' in text
    ensures i < |text| && '\0' in text[i..] && text[i..] == SkipSpaces(text)
  {
    i := 0;
    while IsSpace(text[i])
      invariant i < |text| && '\0' in text[i..]
      invariant SkipSpaces(text[i..]) == SkipSpaces(text)
      decreases |text| - i
    {
      assert text[i..][1..] == text[i + 1..];
      i := i + 1;
    }
  }

  /** The digit loop: the number is built up negated, so that it never leaves the range of int. */
  method TakeDigits(text: string, start: nat) returns (n: int)
    requires start < |text| && '\0' in text[start..]
    requires ReadDigits(text[start..], 0) <= 0x8000_0000
    ensures n == 0 - ReadDigits(text[start..], 0)
  {
    n := 0;
    var i := start;
    ghost var value := ReadDigits(text[start..], 0);
    while IsDigit(text[i])
      invariant i < |text| && '\0' in text[i..]
      invariant n <= 0 && ReadDigits(text[i..], 0 - n) == value
      decreases |text| - i
    {
      assert text[i..][1..] == text[i + 1..];
      ReadDigitsGrows(text[i + 1..], 10 * (0 - n) + DigitValue(text[i]));
      assert -0x8000_0000 <= 10 * n - DigitValue(text[i]) <= 10 * n <= 0;
      n := 10 * n - DigitValue(text[i]);
      i := i + 1;
    }
  }

  /** The number at the start of a NUL-terminated text, if that number is an int. */
  method Atoi(text: string) returns (result: int)
    requires '\0' in text
    requires -0x8000_0000 <= Meaning(text) < 0x8000_0000
    ensures result == Meaning(text)
  {
    var neg := false;
    var i := PassSpaces(text);
    assert text[i..][1..] == text[i + 1..];
    if text[i] == '-' {
      neg := true;
      i := i + 1;
    } else if text[i] == '+' {
      i := i + 1;
    }
    var n := TakeDigits(text, i);
    return if neg then n else -n;
  }

  // ---- append_u32 ----

  /**
    What unsigned printint puts out for the same bits is written from index p on; the result is the index after it.
  */
  method AppendU32(out: array<char>, p0: nat, v0: UInt32) returns (p: nat)
    requires p0 + |Digits(v0, 10)| <= out.Length
    modifies out
    ensures p == p0 + |Digits(v0, 10)|
    ensures forall xx: Int32 :: ToUnsigned(xx) == v0 ==> Digits(v0, 10) == IntString(xx, 10, false)
    ensures out[..] == old(out[..p0]) + Digits(v0, 10) + old(out[p0 + |Digits(v0, 10)|..])
  {
    hide Digits;
    p := p0;
    var v: nat := v0;
    if v == 0 {
      SmallDigit(v);
      out[p] := '0';
      return p + 1;
    }
    var tmp := new char[10](_ => '0');
    ghost var all := Digits(v0, 10);
    TenDigits(v0);
    var n := 0;
    while v > 0
      invariant 0 <= n <= |all| && n + |Rest(v, 10)| == |all| && Rest(v, 10) == all[..|all| - n]
      invariant forall k :: 0 <= k < n ==> tmp[k] == all[|all| - 1 - k]
      invariant out[..] == old(out[..])
      decreases v
    {
      RestIs(v, 10);
      RestStep(v, 10);
      DecimalDigit(v % 10);
      tmp[n] := '0' + (v % 10) as char;
      n := n + 1;
      v := v / 10;
    }
    RestIs(v, 10);
    var i := n - 1;
    while i >= 0
      invariant -1 <= i < n == |all| && p == p0 + (n - 1 - i)
      invariant forall k :: 0 <= k < n ==> tmp[k] == all[|all| - 1 - k]
      invariant forall k :: 0 <= k < out.Length ==> out[k] == if p0 <= k < p then all[k - p0] else old(out[k])
    {
      out[p] := tmp[i];
      p := p + 1;
      i := i - 1;
    }
  }

  lemma SmallDigit(v: nat)
    requires v == 0
    ensures Digits(v, 10) == ['0']
  {
  }

  lemma DecimalDigit(d: nat)
    requires d < 10
    ensures '0' + d as char == Digit(d)
  {
  }

  /** The scratch array of append_u32 is large enough. */
  lemma TenDigits(v: UInt32)
    ensures |Digits(v, 10)| <= 10
  {
    hide Digits;
    DigitsFit(v, 10, 10);
    PowersAround32Bits();
  }

  // ---- printptr ----

  /** The lowest k hexadecimal digits of x. */
  function HexDigits(x: nat, k: nat): (s: string)
    ensures |s| == k
  {
    if k == 0 then "" else HexDigits(x / 16, k - 1) + [Digit(x % 16)]
  }

  function PtrString(x: UInt64): string {
    "0x" + HexDigits(x, 16)
  }

  lemma HexStep(hi: nat, q: nat, j: nat)
    requires q < 16
    ensures HexDigits(hi * 16 + q, j + 1) == HexDigits(hi, j) + [Digit(q)]
  {
    assert (hi * 16 + q) / 16 == hi && (hi * 16 + q) % 16 == q;
  }

  /** Sixteen digits shifted out of the top of a 64-bit integer are its sixteen hexadecimal digits. */
  method PrintPtr(x0: UInt64) returns (text: string)
    ensures text == PtrString(x0)
  {
    hide Power, HexDigits, Digit, Div, Mod;
    var buf := new char[33](_ => '\0');
    buf[0], buf[1] := '0', 'x';
    var i := 2;
    var x: nat := x0;
    PowersOfSixteen();
    AllPlaces(x0);
    NoHexDigits(Div(x0, Power(16, 16)));
    for j := 0 to 16
      invariant i == 2 + j && buf[..2] == "0x"
      invariant buf[2..i] == HexDigits(Div(x0, Power(16, 16 - j)), j)
      invariant x == Mod(x0, Power(16, 16 - j)) * Power(16, j)
    {
      ghost var (hi, lo) := (Div(x0, Power(16, 16 - j)), Mod(x0, Power(16, 16 - j)));
      DivIs(x0, Power(16, 16 - j));
      TopDigit(lo, j);
      NextPlace(x0, j);
      HexStep(hi, Div(lo, Power(16, 15 - j)), j);
      ghost var done := buf[..i];
      buf[i] := Digit(Div(x, 0x1000_0000_0000_0000));
      assert buf[..i] == done && buf[2..i + 1] == buf[2..i] + [buf[i]] && buf[2..i] == done[2..];
      i := i + 1;
      x := Mod(x * 16, 0x1_0000_0000_0000_0000);
    }
    assert Div(x0, 1) == x0 by { DivUnique(x0, 1, x0, 0); }
    assert buf[..i] == buf[..2] + buf[2..i];
    text := buf[..i];
  }

  lemma AllPlaces(x: UInt64)
    ensures Div(x, 0x1_0000_0000_0000_0000) == 0 && Mod(x, 0x1_0000_0000_0000_0000) == x
  {
  }

  lemma NoHexDigits(x: nat)
    ensures HexDigits(x, 0) == ""
  {
  }

  // ---- What the texts mean ----

  /** The value of a digit character, 16 for any other character. */
  function CharValue(c: char): nat {
    if '0' <= c <= '9' then c as int - 48 else if 'a' <= c <= 'f' then c as int - 87 else 16
  }

  /** The number that digits stand for, the most significant one first. */
  function NumeralValue(s: string, base: nat): nat {
    if s == "" then 0 else NumeralValue(s[..|s| - 1], base) * base + CharValue(s[|s| - 1])
  }

  /** Digits below the base, at least one. */
  predicate AllDigits(s: string, base: nat) {
    s != "" && forall k :: 0 <= k < |s| ==> CharValue(s[k]) < base
  }

  /** s writes n in the base, without a leading zero. */
  predicate Writes(s: string, n: nat, base: nat) {
    AllDigits(s, base) && NumeralValue(s, base) == n && (|s| > 1 ==> s[0] != '0')
  }

  /** The same for an integer, with a minus sign for a negative one. */
  predicate WritesInt(s: string, i: int, base: nat) {
    if i < 0 then s != "" && s[0] == '-' && Writes(s[1..], -i, base) else Writes(s, i, base)
  }

  lemma DigitIs(d: nat)
    requires d < 16
    ensures CharValue(Digit(d)) == d && (d > 0 ==> Digit(d) != '0')
  {
  }

  lemma NumeralAppend(s: string, c: char, base: nat)
    ensures NumeralValue(s + [c], base) == NumeralValue(s, base) * base + CharValue(c)
  {
    var all := s + [c];
    assert all[..|all| - 1] == s && all[|all| - 1] == c;
  }

  lemma WritesDigit(d: nat, base: nat)
    requires d < base <= 16
    ensures Writes([Digit(d)], d, base)
  {
    hide Digit, CharValue;
    DigitIs(d);
    NumeralAppend("", Digit(d), base);
    assert "" + [Digit(d)] == [Digit(d)];
  }

  /** One digit more, after a numeral without a leading zero. */
  lemma WritesMore(s: string, n: nat, d: nat, base: nat)
    requires d < base <= 16 && Writes(s, n, base) && s[0] != '0'
    ensures Writes(s + [Digit(d)], n * base + d, base)
  {
    hide Digit, CharValue, NumeralValue;
    DigitIs(d);
    NumeralAppend(s, Digit(d), base);
  }

  lemma {:induction false} DigitsWrite(n: nat, base: nat)
    requires 2 <= base <= 16
    ensures Writes(Digits(n, base), n, base)
    ensures n > 0 ==> Digits(n, base)[0] != '0'
  {
    hide Div, Mod, Digit, Writes;
    DivFacts(n, base);
    DivIs(n, base);
    if n < base {
      WritesDigit(n, base);
      DigitIs(n);
    } else {
      DigitsWrite(Div(n, base), base);
      WritesMore(Digits(Div(n, base), base), Div(n, base), Mod(n, base), base);
    }
  }

  /** printint writes the number itself, or what a C conversion to unsigned makes of it. */
  lemma IntStringWrites(xx: Int32, base: nat, sign: bool)
    requires 2 <= base <= 16
    ensures WritesInt(IntString(xx, base, sign), if sign || xx >= 0 then xx else xx + 0x1_0000_0000, base)
  {
    hide Digits, Writes;
    if sign && xx < 0 {
      var n: nat := 0 - xx;
      assert Negated(xx) == n;
      DigitsWrite(n, base);
      assert ("-" + Digits(n, base))[1..] == Digits(n, base);
    } else {
      DigitsWrite(ToUnsigned(xx), base);
    }
  }

  lemma {:induction false} HexDigitsWrite(x: nat, k: nat)
    ensures NumeralValue(HexDigits(x, k), 16) == Mod(x, Power(16, k))
    ensures forall j :: 0 <= j < k ==> CharValue(HexDigits(x, k)[j]) < 16
  {
    hide Digit, Div, Mod, Power;
    if k == 0 {
      assert Power(16, 0) == 1 by { PowersOfSixteen(); }
      DivUnique(x, 1, x, 0);
    } else {
      HexDigitsWrite(x / 16, k - 1);
      DigitIs(x % 16);
      NumeralAppend(HexDigits(x / 16, k - 1), Digit(x % 16), 16);
      LowDigits(x, k);
    }
  }

  lemma LowDigits(x: nat, k: nat)
    requires k >= 1
    ensures Mod(x, Power(16, k)) == Mod(x / 16, Power(16, k - 1)) * 16 + x % 16
  {
    hide Div, Mod;
    var p := Power(16, k - 1);
    DivIs(x / 16, p);
    var (q, r) := (Div(x / 16, p), Mod(x / 16, p));
    assert x == q * (16 * p) + (r * 16 + x % 16) by {
      assert x == 16 * (q * p + r) + x % 16;
    }
    DivUnique(x, 16 * p, q, r * 16 + x % 16);
  }

  /** printptr writes 0x and the number with sixteen hexadecimal digits. */
  lemma PtrStringWrites(x: UInt64)
    ensures var s := PtrString(x);
            |s| == 18 && s[..2] == "0x" && AllDigits(s[2..], 16) && NumeralValue(s[2..], 16) == x
  {
    hide HexDigits, Power, Div, Mod;
    PowersOfSixteen();
    AllPlaces(x);
    HexDigitsWrite(x, 16);
    assert PtrString(x)[2..] == HexDigits(x, 16);
  }

  // ---- What atoi reads ----

  predicate IsBlank(c: char) {
    c as int == 32 || 9 <= c as int <= 13
  }

  lemma {:induction false} DigitsThenTail(s: string, t: string)
    requires forall k :: 0 <= k < |s| ==> CharValue(s[k]) < 10
    ensures ReadDigits(s + t, 0) == ReadDigits(t, NumeralValue(s, 10))
  {
    if s == "" {
      assert s + t == t;
    } else {
      var (init, c) := (s[..|s| - 1], s[|s| - 1]);
      DigitsThenTail(init, [c] + t);
      assert s + t == init + ([c] + t);
      assert ([c] + t)[1..] == t;
    }
  }

  lemma {:induction false} BlanksSkipped(s: string, t: string)
    requires forall k :: 0 <= k < |s| ==> IsBlank(s[k])
    requires t == "" || !IsBlank(t[0])
    ensures SkipSpaces(s + t) == t
  {
    if s == "" {
      assert s + t == t;
    } else {
      BlanksSkipped(s[1..], t);
      assert (s + t)[1..] == s[1..] + t;
    }
  }

  /** Any text at all: blanks, perhaps a sign, digits, and a rest that starts with no digit. */
  lemma MeaningOf(blanks: string, sign: string, digits: string, rest: string)
    requires forall k :: 0 <= k < |blanks| ==> IsBlank(blanks[k])
    requires sign == "" || sign == "-" || sign == "+"
    requires forall k :: 0 <= k < |digits| ==> CharValue(digits[k]) < 10
    requires rest == "" || CharValue(rest[0]) >= 10
    requires sign == "" && digits == "" && rest != "" ==> !IsBlank(rest[0]) && rest[0] != '-' && rest[0] != '+'
    ensures Meaning(blanks + (sign + (digits + rest))) ==
      if sign == "-" then 0 - NumeralValue(digits, 10) else NumeralValue(digits, 10)
  {
    var t := sign + (digits + rest);
    DigitsThenTail(digits, rest);
    BlanksSkipped(blanks, t);
    if sign == "" {
      assert t == digits + rest;
    } else {
      assert t[1..] == digits + rest;
    }
  }

  /** For every int, the smallest one included, atoi reads back what printint(x, 10, 1) puts out. */
  lemma AtoiUndoesPrintInt(x: Int32)
    ensures |IntString(x, 10, true)| <= 16
    ensures Meaning(IntString(x, 10, true) + "\0") == x
  {
    hide IntString, Meaning;
    FitsExactly(10);
    IntStringWrites(x, 10, true);
    var s := IntString(x, 10, true);
    if x < 0 {
      MeaningOf("", "-", s[1..], "\0");
      assert s + "\0" == "" + ("-" + (s[1..] + "\0"));
    } else {
      MeaningOf("", "", s, "\0");
      assert s + "\0" == "" + ("" + (s + "\0"));
    }
  }
}
