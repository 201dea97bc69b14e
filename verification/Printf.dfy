/**
  printf of user/lib/stdio.c: the pointer loop over the format, against a formatter that reads the format
  one character after the other.
*/
module Printf {
  import opened Outcome
  import opened Seqs
  import opened Numbers

  /** An argument as va_arg takes it: an int, a long, a 64-bit word, or a string (None is a null pointer). */
  datatype Arg = IntArg(i: Int32) | LongArg(l: int) | PtrArg(p: UInt64) | StrArg(s: Option<string>)

  /** (int) of a long. */
  function ToInt(l: int): Int32 {
    var u := l % 0x1_0000_0000;
    if u < 0x8000_0000 then u else u - 0x1_0000_0000
  }

  /** At most 200 characters of a string argument. */
  function StrText(s: Option<string>): string {
    var text := if s.None? then "(null)" else s.value;
    if |text| <= 200 then text else text[..200]
  }

  /** The kind of argument that the conversion at the start of f takes, as a constructor test. */
  predicate Takes(f: string, a: Arg) {
    |f| >= 2 && f[0] == '%' &&
    ((f[1] == 'l' && |f| >= 3 && f[2] == 'd' && a.LongArg?)
     || ((f[1] == 'd' || f[1] == 'x') && a.IntArg?)
     || (f[1] == 'p' && a.PtrArg?)
     || (f[1] == 's' && a.StrArg?))
  }

  /** The format starts with a conversion that takes an argument. */
  predicate Converts(f: string) {
    |f| >= 2 && f[0] == '%' &&
    (f[1] == 'd' || f[1] == 'x' || f[1] == 'p' || f[1] == 's' || (f[1] == 'l' && |f| >= 3 && f[2] == 'd'))
  }

  /** The length of the item at the start of f: a literal character, "%%", or a conversion. */
  function ItemLength(f: string): (n: nat)
    requires f != []
    ensures 1 <= n <= |f|
  {
    if f[0] != '%' || |f| == 1 then 1
    else if f[1] == 'l' && |f| >= 3 && f[2] == 'd' then 3
    else 2
  }

  /** The arguments are there and have the types that the format asks for; anything else is undefined in C. */
  predicate ArgsFit(f: string, args: seq<Arg>) {
    if f == [] then true
    else if Converts(f) then args != [] && Takes(f, args[0]) && ArgsFit(f[ItemLength(f)..], args[1..])
    else ArgsFit(f[ItemLength(f)..], args)
  }

  /** The text of one argument. */
  function ArgText(f: string, a: Arg): string
    requires Takes(f, a)
  {
    match a
    case IntArg(i) => IntString(i, if f[1] == 'x' then 16 else 10, true)
    case LongArg(l) => IntString(ToInt(l), 10, true)
    case PtrArg(p) => PtrString(p)
    case StrArg(s) => StrText(s)
  }

  /** What a format and its arguments mean, one item after the other. A lone % at the end prints nothing. */
  function Format(f: string, args: seq<Arg>): string
    requires ArgsFit(f, args)
  {
    if f == [] then ""
    else if Converts(f) then ArgText(f, args[0]) + Format(f[ItemLength(f)..], args[1..])
    else Literal(f) + Format(f[ItemLength(f)..], args)
  }

  /** The text of an item that takes no argument: itself, but one % for two and none for a lone one. */
  function Literal(f: string): string
    requires f != []
  {
    if f[0] != '%' then [f[0]]
    else if |f| == 1 then ""
    else if f[1] == '%' then "%"
    else ['%', f[1]]
  }

  // ---- One item at index s of the format ----

  /** What the format from index s on still prints. */
  function Remaining(fmt: string, z: nat, s: nat, args: seq<Arg>): string
    requires s <= z <= |fmt| && ArgsFit(fmt[s..z], args)
  {
    Format(fmt[s..z], args)
  }

  lemma PlainCharacter(fmt: string, z: nat, s: nat, args: seq<Arg>)
    requires s < z <= |fmt| && fmt[s] != '%' && ArgsFit(fmt[s..z], args)
    ensures ArgsFit(fmt[s + 1..z], args)
    ensures Remaining(fmt, z, s, args) == [fmt[s]] + Remaining(fmt, z, s + 1, args)
  {
    assert fmt[s..z][1..] == fmt[s + 1..z];
  }

  lemma PercentPair(fmt: string, z: nat, s: nat, args: seq<Arg>)
    requires s + 1 < z <= |fmt| && fmt[s] == '%' && fmt[s + 1] == '%' && ArgsFit(fmt[s..z], args)
    ensures ArgsFit(fmt[s + 2..z], args)
    ensures Remaining(fmt, z, s, args) == "%" + Remaining(fmt, z, s + 2, args)
  {
    assert fmt[s..z][2..] == fmt[s + 2..z];
  }

  lemma LonePercent(fmt: string, z: nat, s: nat, args: seq<Arg>)
    requires s + 1 == z <= |fmt| && fmt[s] == '%' && ArgsFit(fmt[s..z], args)
    ensures Remaining(fmt, z, s, args) == ""
  {
    assert fmt[s..z][ItemLength(fmt[s..z])..] == "";
    assert Format("", args) == "";
  }

  lemma UnknownConversion(fmt: string, z: nat, s: nat, args: seq<Arg>)
    requires s + 1 < z <= |fmt| && fmt[s] == '%' && fmt[s + 1] != '%'
    requires !Converts(fmt[s..z]) && ArgsFit(fmt[s..z], args)
    ensures ArgsFit(fmt[s + 2..z], args)
    ensures Remaining(fmt, z, s, args) == ['%', fmt[s + 1]] + Remaining(fmt, z, s + 2, args)
  {
    assert fmt[s..z][2..] == fmt[s + 2..z];
  }

  lemma Conversion(fmt: string, z: nat, s: nat, args: seq<Arg>)
    requires s < z <= |fmt| && Converts(fmt[s..z]) && ArgsFit(fmt[s..z], args)
    ensures args != [] && Takes(fmt[s..z], args[0])
    ensures var t := s + ItemLength(fmt[s..z]);
            t <= z && ArgsFit(fmt[t..z], args[1..])
            && Remaining(fmt, z, s, args) == ArgText(fmt[s..z], args[0]) + Remaining(fmt, z, t, args[1..])
  {
    assert fmt[s..z][ItemLength(fmt[s..z])..] == fmt[s + ItemLength(fmt[s..z])..z];
  }

  // ---- The pointer loop ----

  class Console {
    var text: string

    constructor ()
      ensures text == ""
    {
      text := "";
    }

    /** out(f, s, l), putchar, and the output of the number routines */
    method Out(s: string)
      modifies this
      ensures text == old(text) + s
    {
      text := text + s;
    }
  }

  /** No NUL before index z of the format, and one there. */
  predicate Terminated(fmt: string, z: nat) {
    z < |fmt| && fmt[z] == '\0' && '\0' !in fmt[..z]
  }

  lemma TerminatedAt(fmt: string, z: nat, i: nat)
    requires Terminated(fmt, z) && i <= z
    ensures z < |fmt|
    ensures fmt[i] == '\0' <==> i == z
  {
    if i < z {
      assert fmt[i] == fmt[..z][i];
    }
  }

  /** for (a = s; *s && *s != '%'; s++); */
  method PlainRun(fmt: string, ghost z: nat, a: nat, ghost args: seq<Arg>) returns (s: nat)
    requires Terminated(fmt, z) && a <= z && ArgsFit(fmt[a..z], args)
    ensures a <= s <= z && (s == z || fmt[s] == '%') && ArgsFit(fmt[s..z], args)
    ensures s == a ==> a == z || fmt[a] == '%'
    ensures Remaining(fmt, z, a, args) == fmt[a..s] + Remaining(fmt, z, s, args)
  {
    hide Remaining, ArgsFit, Terminated;
    s := a;
    TerminatedAt(fmt, z, s);
    assert fmt[a..a] == "";
    EmptyConcat(Remaining(fmt, z, a, args));
    while fmt[s] != '\0' && fmt[s] != '%'
      invariant a <= s <= z < |fmt| && ArgsFit(fmt[s..z], args)
      invariant fmt[s] == '\0' <==> s == z
      invariant Remaining(fmt, z, a, args) == fmt[a..s] + Remaining(fmt, z, s, args)
      decreases z - s
    {
      PlainCharacter(fmt, z, s, args);
      ConcatAssociates(fmt[a..s], [fmt[s]], Remaining(fmt, z, s + 1, args));
      assert fmt[a..s] + [fmt[s]] == fmt[a..s + 1];
      s := s + 1;
      TerminatedAt(fmt, z, s);
    }
  }

  /** for (z = s; s[0] == '%' && s[1] == '%'; z++, s += 2); */
  method PercentPairs(fmt: string, ghost z: nat, s0: nat, ghost args: seq<Arg>) returns (e: nat, s: nat)
    requires Terminated(fmt, z) && s0 <= z && ArgsFit(fmt[s0..z], args)
    ensures s0 <= e <= s <= z && ArgsFit(fmt[s..z], args)
    ensures e == s0 ==> s == s0 && !(s0 + 1 < z && fmt[s0] == '%' && fmt[s0 + 1] == '%')
    ensures Remaining(fmt, z, s0, args) == fmt[s0..e] + Remaining(fmt, z, s, args)
  {
    hide Remaining, ArgsFit, Terminated;
    e, s := s0, s0;
    TerminatedAt(fmt, z, s);
    assert fmt[s0..s0] == "";
    EmptyConcat(Remaining(fmt, z, s0, args));
    while fmt[s] == '%' && fmt[s + 1] == '%'
      invariant s0 <= e <= s <= z < |fmt| && ArgsFit(fmt[s..z], args)
      invariant forall i :: s0 <= i < s ==> fmt[i] == '%'
      invariant fmt[s] == '\0' <==> s == z
      invariant e == s0 ==> s == s0
      invariant Remaining(fmt, z, s0, args) == fmt[s0..e] + Remaining(fmt, z, s, args)
      decreases z - s
    {
      TerminatedAt(fmt, z, s + 1);
      PercentPair(fmt, z, s, args);
      ConcatAssociates(fmt[s0..e], "%", Remaining(fmt, z, s + 2, args));
      assert fmt[e] == '%' && fmt[s0..e] + "%" == fmt[s0..e + 1];
      e, s := e + 1, s + 2;
      TerminatedAt(fmt, z, s);
    }
  }

  /** The switch: one conversion, known or not. Returns the number of arguments used. */
  method Convert(console: Console, fmt: string, ghost z: nat, s0: nat, args: seq<Arg>) returns (s: nat, used: nat)
    requires Terminated(fmt, z) && s0 + 1 < z && fmt[s0] == '%' && fmt[s0 + 1] != '%' && ArgsFit(fmt[s0..z], args)
    modifies console
    ensures s0 < s <= z && used <= |args| && ArgsFit(fmt[s..z], args[used..])
    ensures console.text + Remaining(fmt, z, s, args[used..]) == old(console.text) + Remaining(fmt, z, s0, args)
  {
    hide Remaining, ArgsFit, Terminated, Takes, ArgText;
    s, used := s0, 0;
    TerminatedAt(fmt, z, s0 + 2);
    var c := fmt[s + 1];
    assert args[0..] == args;
    if (c == 'l' && fmt[s + 2] != 'd') || c !in "ldxps" {
      UnknownConversion(fmt, z, s0, args);
      console.Out(['%']);
      console.Out([c]);
    } else {
      Conversion(fmt, z, s0, args);
      used := 1;
      var text := Render(c, args[0], fmt[s0..z]);
      console.Out(text);
      if c == 'l' {
        s := s + 1;
      }
    }
    s := s + 2;
  }

  /** The text that the case of conversion character c puts out for its argument. */
  method Render(c: char, arg: Arg, ghost f: string) returns (text: string)
    requires Takes(f, arg) && c == f[1]
    ensures text == ArgText(f, arg)
  {
    hide IntString, PtrString, StrText;
    ArgKind(f, arg);
    match c {
      case 'l' => text := PrintBase(ToInt(arg.l), 10);
      case 'd' => text := PrintBase(arg.i, 10);
      case 'x' => text := PrintBase(arg.i, 16);
      case 'p' => text := PrintPtr(arg.p);
      case _ => text := StrText(arg.s);
    }
  }

  method PrintBase(i: Int32, base: nat) returns (text: string)
    requires base == 10 || base == 16
    ensures text == IntString(i, base, true)
  {
    FitsExactly(base);
    text := PrintInt(i, base, true);
  }

  lemma ArgKind(f: string, a: Arg)
    requires Takes(f, a)
    ensures match f[1]
      case 'l' => a.LongArg? && ArgText(f, a) == IntString(ToInt(a.l), 10, true)
      case 'd' => a.IntArg? && ArgText(f, a) == IntString(a.i, 10, true)
      case 'x' => a.IntArg? && ArgText(f, a) == IntString(a.i, 16, true)
      case 'p' => a.PtrArg? && ArgText(f, a) == PtrString(a.p)
      case _ => a.StrArg? && ArgText(f, a) == StrText(a.s)
  {
  }

  /**
    printf prints what the format means. It reads no character after the NUL, takes exactly the arguments that
    the format asks for, and returns.
  */
  method Printf(console: Console, fmt: string, ghost z: nat, args: seq<Arg>)
    requires Terminated(fmt, z) && ArgsFit(fmt[..z], args)
    modifies console
    ensures console.text == old(console.text) + Format(fmt[..z], args)
  {
    hide ArgsFit, Terminated, Format, Remaining;
    var ap, s := 0, 0;
    TerminatedAt(fmt, z, 0);
    ghost var all := old(console.text) + Format(fmt[..z], args);
    assert args[0..] == args && fmt[0..z] == fmt[..z];
    RemainingIs(fmt, z, 0, args);
    while fmt[s] != '\0'
      invariant s <= z < |fmt| && ap <= |args| && ArgsFit(fmt[s..z], args[ap..])
      invariant fmt[s] == '\0' <==> s == z
      invariant console.text + Remaining(fmt, z, s, args[ap..]) == all
      decreases z - s
    {
      ghost var before := console.text;
      var a := s;
      s := PlainRun(fmt, z, a, args[ap..]);
      var e, s' := PercentPairs(fmt, z, s, args[ap..]);
      JoinRuns(fmt, z, a, s, e, s', args[ap..]);
      s := s';
      console.Out(fmt[a..e]);
      ConcatAssociates(before, fmt[a..e], Remaining(fmt, z, s, args[ap..]));
      if e == a {
        TerminatedAt(fmt, z, s + 1);
        if fmt[s + 1] == '\0' {
          LonePercent(fmt, z, s, args[ap..]);
          break;
        }
        var used;
        s, used := Convert(console, fmt, z, s, args[ap..]);
        assert args[ap..][used..] == args[ap + used..];
        ap := ap + used;
      }
      TerminatedAt(fmt, z, s);
    }
    if s == z {
      assert fmt[s..z] == "";
      NothingLeft(fmt, z, args[ap..]);
    }
  }

  lemma RemainingIs(fmt: string, z: nat, s: nat, args: seq<Arg>)
    requires s <= z <= |fmt| && ArgsFit(fmt[s..z], args)
    ensures Remaining(fmt, z, s, args) == Format(fmt[s..z], args)
  {
  }

  lemma NothingLeft(fmt: string, z: nat, args: seq<Arg>)
    requires z <= |fmt| && ArgsFit(fmt[z..z], args)
    ensures Remaining(fmt, z, z, args) == ""
  {
  }

  lemma JoinRuns(fmt: string, z: nat, a: nat, s: nat, e: nat, s': nat, args: seq<Arg>)
    requires a <= s <= e <= s' <= z <= |fmt|
    requires ArgsFit(fmt[a..z], args) && ArgsFit(fmt[s..z], args) && ArgsFit(fmt[s'..z], args)
    requires Remaining(fmt, z, a, args) == fmt[a..s] + Remaining(fmt, z, s, args)
    requires Remaining(fmt, z, s, args) == fmt[s..e] + Remaining(fmt, z, s', args)
    ensures Remaining(fmt, z, a, args) == fmt[a..e] + Remaining(fmt, z, s', args)
  {
    hide Remaining, ArgsFit;
    ConcatAssociates(fmt[a..s], fmt[s..e], Remaining(fmt, z, s', args));
    assert fmt[a..s] + fmt[s..e] == fmt[a..e];
  }

  // ---- What a format means, item by item ----

  /** The int that a long is cut to: equal to it modulo 2^32. */
  lemma ToIntIs(l: int)
    ensures -0x8000_0000 <= ToInt(l) < 0x8000_0000 && (l - ToInt(l)) % 0x1_0000_0000 == 0
  {
  }

  /** A character other than % stands for itself. */
  lemma FormatCharacter(c: char, f: string, args: seq<Arg>)
    requires c != '%' && ArgsFit(f, args)
    ensures ArgsFit([c] + f, args) && Format([c] + f, args) == [c] + Format(f, args)
  {
    assert ([c] + f)[1..] == f;
  }

  /** %% stands for one, a % at the end for nothing. */
  lemma FormatPercent(f: string, args: seq<Arg>)
    requires ArgsFit(f, args)
    ensures ArgsFit("%%" + f, args) && Format("%%" + f, args) == "%" + Format(f, args)
    ensures ArgsFit("%", args) && Format("%", args) == "" && Format("", args) == ""
  {
    assert ("%%" + f)[2..] == f;
    assert "%"[1..] == "";
  }

  /** Any other character after % is put out with it, and so is an l that no d follows. */
  lemma FormatUnknown(c: char, f: string, args: seq<Arg>)
    requires c != '%' && c != 'd' && c != 'x' && c != 'p' && c != 's' && (c == 'l' ==> f == "" || f[0] != 'd')
    requires ArgsFit(f, args)
    ensures ArgsFit(['%', c] + f, args) && Format(['%', c] + f, args) == ['%', c] + Format(f, args)
  {
    assert (['%', c] + f)[2..] == f;
  }

  /** The text that a conversion puts out for its argument. */
  lemma FormatArgument(c: string, a: Arg, f: string, args: seq<Arg>) returns (text: string)
    requires ArgsFit(f, args)
    requires match a
             case IntArg(_) => c == "%d" || c == "%x"
             case LongArg(_) => c == "%ld"
             case PtrArg(_) => c == "%p"
             case StrArg(_) => c == "%s"
    ensures ArgsFit(c + f, [a] + args) && Format(c + f, [a] + args) == text + Format(f, args)
    ensures match a
            case IntArg(i) => WritesInt(text, i, if c == "%x" then 16 else 10)
            case LongArg(l) => exists i: Int32 :: WritesInt(text, i, 10) && (l - i) % 0x1_0000_0000 == 0
            case PtrArg(p) =>
              |text| == 18 && text[..2] == "0x" && AllDigits(text[2..], 16) && NumeralValue(text[2..], 16) == p
            case StrArg(s) => text == if s.None? then "(null)" else if |s.value| <= 200 then s.value else s.value[..200]
  {
    hide IntString, PtrString, WritesInt;
    var (g, all) := (c + f, [a] + args);
    assert g[|c|..] == f && all[1..] == args;
    assert g[0] == c[0] && g[1] == c[1] && (a.LongArg? ==> g[2] == c[2]);
    text := ArgText(g, a);
    match a
    case IntArg(i) => IntStringWrites(i, if c == "%x" then 16 else 10, true);
    case LongArg(l) =>
      ToIntIs(l);
      IntStringWrites(ToInt(l), 10, true);
    case PtrArg(p) => PtrStringWrites(p);
    case StrArg(_) =>
  }
}
