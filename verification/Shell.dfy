/**
  The line buffer and the argument splitter of usershell.c. The splitter works in place: it overwrites every
  space of the line with NUL and leaves pointers to the words.
*/
module Shell {
  import opened Outcome
  import opened Seqs

  const MAX_STR_LEN := 200

  // ---- Words of a line ----

  /** The length of the run of non-spaces at the start. */
  function RunLength(s: string): (n: nat)
    ensures n <= |s|
    ensures forall i :: 0 <= i < n ==> s[i] != ' '
    ensures n < |s| ==> s[n] == ' '
  {
    if s == [] || s[0] == ' ' then 0 else 1 + RunLength(s[1..])
  }

  /** The maximal runs of non-spaces, in order. */
  function Words(s: string): (ws: seq<string>)
    ensures forall w :: w in ws ==> w != "" && ' ' !in w
  {
    if s == [] then []
    else if s[0] == ' ' then Words(s[1..])
    else [s[..RunLength(s)]] + Words(s[RunLength(s)..])
  }

  /** Words with spaces before, between and after them; gaps[k] + 1 spaces follow word k. */
  function Spaced(ws: seq<string>, gaps: seq<nat>): string
    requires |gaps| == |ws|
  {
    if ws == [] then "" else ws[0] + Spaces(gaps[0] + 1) + Spaced(ws[1..], gaps[1..])
  }

  function Spaces(n: nat): (s: string)
    ensures |s| == n && forall i :: 0 <= i < n ==> s[i] == ' '
  {
    seq(n, _ => ' ')
  }

  lemma {:induction false} WordsAfterSpaces(n: nat, s: string)
    ensures Words(Spaces(n) + s) == Words(s)
  {
    if n == 0 {
      EmptyConcat(s);
    } else {
      WordsAfterSpaces(n - 1, s);
      assert (Spaces(n) + s)[1..] == Spaces(n - 1) + s;
    }
  }

  lemma {:induction false} RunOfWord(w: string, s: string)
    requires ' ' !in w && (s != [] ==> s[0] == ' ')
    ensures RunLength(w + s) == |w|
  {
    if w == [] {
      EmptyConcat(s);
    } else {
      assert (w + s)[1..] == w[1..] + s;
      RunOfWord(w[1..], s);
    }
  }

  /**
    Splitting undoes joining: any number of spaces in front, at least one after every word but the last, which is
    left out when it is empty. Every line has this form.
  */
  lemma {:induction false} WordsUndoSpaced(lead: nat, ws: seq<string>, gaps: seq<nat>, last: string)
    requires |gaps| == |ws| && forall w :: w in ws ==> w != "" && ' ' !in w
    requires ' ' !in last
    ensures Words(Spaces(lead) + (Spaced(ws, gaps) + last)) == ws + if last == "" then [] else [last]
    decreases ws
  {
    WordsAfterSpaces(lead, Spaced(ws, gaps) + last);
    if ws == [] {
      LastWord(last);
      EmptyConcat(last);
    } else {
      var (w, gap, more) := (ws[0], Spaces(gaps[0] + 1), Spaced(ws[1..], gaps[1..]));
      assert w in ws && forall v :: v in ws[1..] ==> v in ws;
      assert Spaced(ws, gaps) + last == w + (gap + (more + last));
      RunOfWord(w, gap + (more + last));
      AfterWord(w, gap + (more + last));
      WordsUndoSpaced(gaps[0] + 1, ws[1..], gaps[1..], last);
      assert [w] + ws[1..] == ws;
    }
  }

  lemma AfterWord(w: string, s: string)
    requires w != "" && w[0] != ' ' && RunLength(w + s) == |w|
    ensures Words(w + s) == [w] + Words(s)
  {
    assert (w + s)[..|w|] == w && (w + s)[|w|..] == s;
  }

  lemma LastWord(w: string)
    requires ' ' !in w
    ensures Words(w) == if w == "" then [] else [w]
  {
    EmptyConcat(w);
    if w != "" {
      RunOfWord(w, "");
      AfterWord(w, "");
    }
  }

  // ---- get_argv ----

  /** A NUL-terminated copy of w starts at index a. */
  predicate TextAt(line: seq<char>, a: nat, w: string) {
    a + |w| < |line| && line[a..a + |w|] == w && line[a + |w|] == '\0'
  }

  /** The spaces before index s have become NULs; the rest is as before. */
  ghost predicate Blanked(line: seq<char>, before: seq<char>, s: nat) {
    |line| == |before| && forall i :: 0 <= i < |line| ==>
        line[i] == if i < s && before[i] == ' ' then '\0' else before[i]
  }

  /** A maximal run of non-spaces starts at index a. */
  predicate StartsWord(before: seq<char>, a: nat) {
    a < |before| && before[a] != ' ' && (a == 0 || before[a - 1] == ' ')
  }

  /** The first argc pointers go from left to right. */
  ghost predicate Ordered(argv: seq<Option<nat>>, argc: nat)
    requires argc <= |argv|
  {
    && (forall k :: 0 <= k < argc ==> argv[k].Some?)
    && (forall j, k :: 0 <= j < k < argc ==> argv[j].value < argv[k].value)
  }

  /**
    The words found so far are the first ones of the line; the pointers lead to them, each to the start of its run,
    from left to right.
  */
  ghost predicate Found(before: seq<char>, z: nat, argv: seq<Option<nat>>, argc: nat, s: nat)
    requires s <= z < |before| && argc <= |argv|
  {
    var ws := Words(before[..z]);
    && argc <= |ws| && ws[argc..] == Words(before[s..z])
    && Ordered(argv, argc)
    && forall k :: 0 <= k < argc ==>
         && argv[k].value + |ws[k]| <= s && StartsWord(before, argv[k].value)
         && before[argv[k].value..argv[k].value + |ws[k]|] == ws[k]
         && (before[argv[k].value + |ws[k]|] == ' ' || argv[k].value + |ws[k]| == z)
  }

  lemma WordStarts(before: seq<char>, z: nat, s: nat)
    requires s < z < |before| && before[s] != ' '
    ensures var n := RunLength(before[s..z]);
            && n >= 1 && s + n <= z
            && Words(before[s..z]) == [before[s..s + n]] + Words(before[s + n..z])
            && (before[s + n] == ' ' || s + n == z)
            && forall i :: s <= i < s + n ==> before[i] != ' '
  {
    var n := RunLength(before[s..z]);
    assert before[s..z][..n] == before[s..s + n] && before[s..z][n..] == before[s + n..z];
    forall i | s <= i < s + n ensures before[i] != ' ' {
      assert before[i] == before[s..z][i - s];
    }
  }

  lemma SpaceSkipped(before: seq<char>, z: nat, s: nat)
    requires s < z < |before| && before[s] == ' '
    ensures Words(before[s..z]) == Words(before[s + 1..z])
  {
    assert before[s..z][1..] == before[s + 1..z];
  }

  /** while (*s == ' ') *(s++) = 0; */
  method SkipSpaces(line: array<char>, s0: nat, ghost before: seq<char>, ghost z: nat) returns (s: nat)
    requires z < line.Length == |before| && before[z] == '\0' && s0 <= z && Blanked(line[..], before, s0)
    modifies line
    ensures s0 <= s <= z && before[s] != ' ' && Blanked(line[..], before, s)
    ensures s == s0 || before[s - 1] == ' '
    ensures Words(before[s0..z]) == Words(before[s..z])
  {
    s := s0;
    while line[s] == ' '
      invariant s0 <= s <= z && Blanked(line[..], before, s)
      invariant s == s0 || before[s - 1] == ' '
      invariant Words(before[s0..z]) == Words(before[s..z])
      decreases z - s
    {
      SpaceSkipped(before, z, s);
      line[s] := '\0';
      s := s + 1;
    }
  }

  /** while (*s && *s != ' ') s++; */
  method SkipWord(line: array<char>, start: nat, ghost before: seq<char>, ghost z: nat) returns (s: nat)
    requires z < line.Length == |before| && before[z] == '\0' && '\0' !in before[..z]
    requires start < z && before[start] != ' ' && Blanked(line[..], before, start)
    ensures start < s <= z && s == start + RunLength(before[start..z]) && Blanked(line[..], before, s)
  {
    hide RunLength, Words;
    WordStarts(before, z, start);
    s := start;
    while line[s] != '\0' && line[s] != ' '
      invariant start <= s <= start + RunLength(before[start..z])
      decreases z - s
    {
      s := s + 1;
    }
    NoNul(before, z, s);
  }

  lemma PointerStored(before: seq<char>, z: nat, argv: seq<Option<nat>>, argc: nat, s: nat)
    requires s < z < |before| && StartsWord(before, s) && argc < |argv| && Found(before, z, argv, argc, s)
    ensures var t := s + RunLength(before[s..z]);
            t <= z && Found(before, z, argv[argc := Some(s)], argc + 1, t)
  {
    hide Words, RunLength;
    WordStarts(before, z, s);
    var (ws, n) := (Words(before[..z]), RunLength(before[s..z]));
    assert ws[argc..] == [before[s..s + n]] + Words(before[s + n..z]);
    assert ws[argc] == ws[argc..][0] && ws[argc + 1..] == ws[argc..][1..];
    assert forall k :: 0 <= k < argc ==> argv[k].value < argv[k].value + |ws[k]| <= s by { WordsNotEmpty(before[..z]); }
  }

  lemma WordsNotEmpty(s: string)
    ensures forall k :: 0 <= k < |Words(s)| ==> |Words(s)[k]| > 0
  {
    forall k | 0 <= k < |Words(s)| ensures |Words(s)[k]| > 0 {
      assert Words(s)[k] in Words(s);
    }
  }

  lemma FoundMore(before: seq<char>, z: nat, argv: seq<Option<nat>>, argc: nat, s: nat, s': nat)
    requires s <= s' <= z < |before| && argc <= |argv| && Found(before, z, argv, argc, s)
    requires Words(before[s..z]) == Words(before[s'..z])
    ensures Found(before, z, argv, argc, s')
    ensures argc <= |Words(before[..z])|
    ensures s' < z && before[s'] != ' ' ==> argc < |Words(before[..z])|
    ensures s' == z ==> argc == |Words(before[..z])|
  {
    hide Words, RunLength;
    if s' < z && before[s'] != ' ' {
      WordStarts(before, z, s');
    }
    assert before[z..z] == "" && Words("") == [] by { NoWords(); }
  }

  lemma NoWords()
    ensures Words("") == []
  {
  }

  /** What the pointers lead to when the whole line has been gone through. */
  lemma PointersLead(line: seq<char>, before: seq<char>, z: nat, argv: seq<Option<nat>>, argc: nat)
    requires z < |before| && argc <= |argv| && before[z] == '\0' && Blanked(line, before, z)
        && Found(before, z, argv, argc, z)
    ensures argc <= |Words(before[..z])|
    ensures forall k :: 0 <= k < argc ==>
      argv[k].Some? && TextAt(line, argv[k].value, Words(before[..z])[k]) && StartsWord(before, argv[k].value)
    ensures Ordered(argv, argc)
  {
    hide Words;
    var ws := Words(before[..z]);
    forall k | 0 <= k < argc ensures TextAt(line, argv[k].value, ws[k]) {
      WordCopied(line, before, argv[k].value, ws, k, z);
    }
  }

  /**
    The line's words, and nothing else, become the arguments: pointer k leads to the start of the k-th run of
    non-spaces, which is NUL-terminated now, and a null pointer follows the last one.
  */
  method GetArgv(line: array<char>, argv: array<Option<nat>>, ghost z: nat) returns (argc: nat)
    requires z < line.Length && line[z] == '\0' && '\0' !in line[..z]
    requires argv.Length == 32 && |Words(line[..z])| < 32
    modifies line, argv
    ensures argc == |Words(old(line[..z]))| && argv[argc] == None
    ensures Ordered(argv[..], argc)
    ensures forall k :: 0 <= k < argc ==>
      TextAt(line[..], argv[k].value, Words(old(line[..z]))[k]) && StartsWord(old(line[..]), argv[k].value)
    ensures Blanked(line[..], old(line[..]), z)
  {
    hide Words, RunLength, Found, Blanked, TextAt;
    ghost var before := line[..];
    ghost var ws := Words(before[..z]);
    assert before[..z] == line[..z];
    argc := 0;
    var s := 0;
    Starts(before, z, argv[..]);
    while true
      invariant s <= z && argc <= |ws| && before == old(line[..]) && Blanked(line[..], before, s)
      invariant Found(before, z, argv[..], argc, s)
      invariant s == 0 || s == z || before[s] == ' '
      decreases |ws| - argc
    {
      var s' := SkipSpaces(line, s, before, z);
      FoundMore(before, z, argv[..], argc, s, s');
      AtIndex(line[..], before, s');
      s := s';
      if line[s] == '\0' {
        EndReached(before, z, s);
        break;
      }
      PointerStored(before, z, argv[..], argc, s);
      argv[argc] := Some(s);
      argc := argc + 1;
      s := SkipWord(line, s, before, z);
    }
    PointersLead(line[..], before, z, argv[..], argc);
    ghost var pointers := argv[..];
    argv[argc] := None;
    assert argv[..argc] == pointers[..argc];
  }

  lemma Starts(before: seq<char>, z: nat, argv: seq<Option<nat>>)
    requires z < |before|
    ensures Blanked(before, before, 0) && Found(before, z, argv, 0, 0)
  {
    hide Words;
    assert before[0..z] == before[..z];
  }

  lemma AtIndex(line: seq<char>, before: seq<char>, s: nat)
    requires s < |before| && Blanked(line, before, s)
    ensures |line| == |before| && line[s] == before[s]
  {
  }

  lemma EndReached(before: seq<char>, z: nat, s: nat)
    requires s <= z < |before| && before[s] == '\0' && '\0' !in before[..z]
    ensures s == z && Words(before[s..z]) == []
  {
    NoNul(before, z, s);
  }

  lemma NoNul(before: seq<char>, z: nat, s: nat)
    requires s <= z < |before| && '\0' !in before[..z]
    ensures s < z ==> before[s] != '\0'
  {
    if s < z {
      assert before[s] in before[..z];
    }
  }

  lemma WordCopied(line: seq<char>, before: seq<char>, a: nat, ws: seq<string>, k: nat, z: nat)
    requires k < |ws| && a + |ws[k]| <= z < |before| && ' ' !in ws[k] && Blanked(line, before, z) && before[z] == '\0'
    requires before[a..a + |ws[k]|] == ws[k] && (before[a + |ws[k]|] == ' ' || a + |ws[k]| == z)
    ensures TextAt(line, a, ws[k])
  {
    var w := ws[k];
    forall i | 0 <= i < |w| ensures line[a..a + |w|][i] == w[i] {
      assert w[i] == before[a + i] && w[i] in w;
    }
  }

  // ---- The line buffer ----

  const LF := '\n'
  const CR := '\r'
  const DL: char := 127 as char
  const BS: char := 8 as char

  /** What a sequence of keys leaves in the buffer, when none of them ends the line. */
  function Typed(keys: string): (s: string)
    ensures |s| <= |keys|
  {
    if keys == [] then ""
    else
      var (before, key) := (Typed(keys[..|keys| - 1]), keys[|keys| - 1]);
      if key == BS || key == DL then (if before == "" then "" else before[..|before| - 1])
      else before + [key]
  }

  class LineBuffer {
    const line: array<char>
    var top: nat

    ghost predicate Valid()
      reads this
    {
      line.Length == MAX_STR_LEN && top <= line.Length
    }

    function Contents(): string
      requires Valid()
      reads this, line
    {
      line[..top]
    }

    constructor ()
      ensures Valid() && Contents() == "" && fresh(line) && line.Length == 200
    {
      line := new char[MAX_STR_LEN](_ => '\0');
      top := 0;
    }

    method Push(c: char)
      requires Valid() && top < MAX_STR_LEN
      modifies this, line
      ensures Valid() && Contents() == old(Contents()) + [c]
    {
      line[top] := c;
      top := top + 1;
    }

    method Pop()
      requires Valid() && top > 0
      modifies this
      ensures Valid() && Contents() == old(Contents())[..old(top) - 1]
    {
      top := top - 1;
    }

    /** The cases of main for keys that do not end the line; the ghost keys typed so far grow by c. */
    method Key(c: char, ghost keys: string)
      requires Valid() && Contents() == Typed(keys) && c != LF && c != CR
      requires top < MAX_STR_LEN || c == BS || c == DL
      modifies this, line
      ensures Valid() && Contents() == Typed(keys + [c])
    {
      assert (keys + [c])[..|keys|] == keys;
      if c == BS || c == DL {
        if top != 0 {
          Pop();
        }
      } else {
        Push(c);
      }
    }
  }

  /** Typing a text and then as many backspaces leaves what was there before. */
  lemma {:induction false} BackspacesUndo(keys: string, text: string)
    requires BS !in text && DL !in text
    ensures Typed(keys + text + seq(|text|, _ => BS)) == Typed(keys)
    decreases text
  {
    if text == [] {
      assert keys + text + [] == keys;
    } else {
      var init := text[..|text| - 1];
      var c := text[|text| - 1];
      assert c in text;
      BackspacesUndoOne(keys + init, c, |init|);
      BackspacesUndo(keys, init);
      assert keys + text == (keys + init) + [c];
    }
  }

  /** One key more, in key codes: these equations leave no choice. */
  lemma TypedMore(keys: string, key: char)
    ensures Typed("") == ""
    ensures Typed(keys + [key]) ==
      if key as int == 8 || key as int == 127 then (if Typed(keys) == "" then "" else Typed(keys)[..|Typed(keys)| - 1])
      else Typed(keys) + [key]
  {
    assert (keys + [key])[..|keys|] == keys;
  }

  lemma OneBackspaceMore(keys: string, n: nat)
    ensures keys + seq(n + 1, _ => BS) == keys + seq(n, _ => BS) + [BS]
    ensures keys + seq(0, _ => BS) == keys
  {
  }

  /** A key and a backspace right after it cancel out, whatever backspaces follow. */
  lemma {:induction false} BackspacesUndoOne(keys: string, c: char, n: nat)
    requires c != BS && c != DL
    ensures Typed(keys + [c] + seq(n + 1, _ => BS)) == Typed(keys + seq(n, _ => BS))
  {
    hide Typed;
    OneBackspaceMore(keys + [c], n);
    TypedMore(keys + [c] + seq(n, _ => BS), BS);
    if n == 0 {
      OneBackspaceMore(keys, 0);
      TypedMore(keys, c);
    } else {
      BackspacesUndoOne(keys, c, n - 1);
      OneBackspaceMore(keys, n - 1);
      TypedMore(keys + seq(n - 1, _ => BS), BS);
    }
  }
}
