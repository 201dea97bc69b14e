/**
  The string routines of user/lib/string.c over byte-addressed memory: word-at-a-time scanning and copying
  with alignment prologues, for every address and every length.
*/
module StringLib {
  import opened Outcome
  import opened Memory
  import opened Seqs

  /** The memory from address `base` on that the program may touch. */
  class Ram {
    const base: nat
    const cells: array<Byte>

    constructor (base: nat, cells: array<Byte>)
      ensures this.base == base && this.cells == cells && Mapped(base, base + cells.Length)
    {
      this.base, this.cells := base, cells;
    }

    /** All addresses from lo up to hi may be touched. */
    predicate Mapped(lo: nat, hi: nat) {
      base <= lo <= hi <= base + cells.Length
    }

    function Load(a: nat): Byte
      requires Mapped(a, a + 1)
      reads cells
    {
      cells[a - base]
    }

    function LoadWord(a: nat): Word
      requires a % SS == 0 && Mapped(a, a + SS)
      reads cells
    {
      Pack(cells[a - base..a - base + SS])
    }

    method Store(a: nat, b: Byte)
      requires Mapped(a, a + 1)
      modifies cells
      ensures cells[..] == old(cells[..])[a - base := b]
    {
      cells[a - base] := b;
    }

    method StoreWord(a: nat, w: Word)
      requires a % SS == 0 && Mapped(a, a + SS)
      modifies cells
      ensures forall i :: 0 <= i < cells.Length ==>
        cells[i] == if a - base <= i < a - base + SS then ByteOf(w, i - (a - base)) else old(cells[i])
    {
      hide ByteOf;
      for k := 0 to SS
        invariant forall i :: 0 <= i < cells.Length ==>
          cells[i] == if a - base <= i < a - base + k then ByteOf(w, i - (a - base)) else old(cells[i])
      {
        cells[a - base + k] := ByteOf(w, k);
      }
    }
  }

  /** The first multiple of the word size above a. */
  function WordEnd(a: nat): (e: nat)
    ensures e % SS == 0 && a < e <= a + SS
  {
    a / SS * SS + SS
  }

  lemma NextWord(w: nat, z: nat)
    requires w % SS == 0 && w + SS <= z
    ensures w + SS + SS <= WordEnd(z)
  {
  }

  /** A NUL-terminated string starts at s and has its terminator at z. */
  ghost predicate StringAt(ram: Ram, s: nat, z: nat)
    reads ram.cells
  {
    && ram.Mapped(s, z + 1) && s <= z
    && (forall a :: s <= a < z ==> ram.Load(a) != 0)
    && ram.Load(z) == 0
  }

  /** An aligned word is made of the eight bytes from its address on. */
  lemma WordBytes(ram: Ram, w: nat)
    requires w % SS == 0 && ram.Mapped(w, w + SS)
    ensures forall a :: w <= a < w + SS ==> ram.Load(a) == ByteOf(ram.LoadWord(w), a - w)
  {
    hide ByteOf, Pack;
    var b := ram.cells[w - ram.base..w - ram.base + SS];
    PackBytes(b);
    forall a | w <= a < w + SS ensures ram.Load(a) == ByteOf(ram.LoadWord(w), a - w) {
      assert b[a - w] == ram.Load(a);
    }
  }

  lemma WordHasZero(ram: Ram, w: nat)
    requires w % SS == 0 && ram.Mapped(w, w + SS)
    ensures HasZero(ram.LoadWord(w)) == 0 <==> forall a :: w <= a < w + SS ==> ram.Load(a) != 0
  {
    hide HasZero, ByteOf, Ram.LoadWord, Ram.Load;
    WordBytes(ram, w);
    HasZeroFinds(ram.LoadWord(w));
    if k :| 0 <= k < SS && ByteOf(ram.LoadWord(w), k) == 0 {
      assert ram.Load(w + k) == ByteOf(ram.LoadWord(w), w + k - w);
    }
    if HasZero(ram.LoadWord(w)) == 0 {
      forall a | w <= a < w + SS ensures ram.Load(a) != 0 {
        assert ByteOf(ram.LoadWord(w), a - w) == ram.Load(a);
      }
    }
  }

  lemma WordHasByte(ram: Ram, w: nat, c: Byte)
    requires w % SS == 0 && ram.Mapped(w, w + SS)
    ensures HasZero(ram.LoadWord(w) ^ Repeated(c)) == 0 <==> forall a :: w <= a < w + SS ==> ram.Load(a) != c
  {
    hide HasZero, ByteOf, Repeated, Ram.LoadWord, Ram.Load;
    WordBytes(ram, w);
    HasByteFinds(ram.LoadWord(w), c);
    if k :| 0 <= k < SS && ByteOf(ram.LoadWord(w), k) == c {
      assert ram.Load(w + k) == ByteOf(ram.LoadWord(w), w + k - w);
    }
    if HasZero(ram.LoadWord(w) ^ Repeated(c)) == 0 {
      forall a | w <= a < w + SS ensures ram.Load(a) != c {
        assert ByteOf(ram.LoadWord(w), a - w) == ram.Load(a);
      }
    }
  }

  /**
    The length of a string at any address. No byte before the string and no aligned word after the one that
    holds the terminator has to be mapped.
  */
  method StrLen(ram: Ram, start: nat, ghost z: nat) returns (n: nat)
    requires StringAt(ram, start, z) && ram.Mapped(start, WordEnd(z))
    ensures n == z - start
  {
    hide HasZero, Ram.LoadWord;
    var s := start;
    while s % SS != 0
      invariant start <= s <= z
      decreases z - s
    {
      if ram.Load(s) == 0 {
        return s - start;
      }
      s := s + 1;
    }
    WordHasZero(ram, s);
    while HasZero(ram.LoadWord(s)) == 0
      invariant s % SS == 0 && start <= s <= z
      invariant HasZero(ram.LoadWord(s)) == 0 ==> forall a :: s <= a < s + SS ==> ram.Load(a) != 0
      decreases z - s
    {
      assert ram.Load(z) == 0;
      NextWord(s, z);
      s := s + SS;
      WordHasZero(ram, s);
    }
    while ram.Load(s) != 0
      invariant start <= s <= z
      decreases z - s
    {
      s := s + 1;
    }
    return s - start;
  }

  /** How far reading by words may go: within n bytes, and not past the word that holds the byte looked for. */
  function WordLimit(src: nat, n: nat, z: nat): (e: nat)
    ensures e <= WordEnd(z) && e <= src + n
  {
    if WordEnd(z) < src + n then WordEnd(z) else src + n
  }

  /** z is the first address in [src, src + n) that holds c, or src + n if there is none. */
  ghost predicate FirstByte(ram: Ram, src: nat, n: nat, c: Byte, z: nat)
    reads ram.cells
  {
    && src <= z <= src + n && ram.Mapped(src, z)
    && (forall a :: src <= a < z ==> ram.Load(a) != c)
    && (z < src + n ==> ram.Mapped(z, z + 1) && ram.Load(z) == c)
  }

  lemma WordBeforeByte(ram: Ram, src: nat, n: nat, c: Byte, s: nat, z: nat)
    requires FirstByte(ram, src, n, c, z) && ram.Mapped(src, WordLimit(src, n, z))
    requires s % SS == 0 && src <= s <= z && s + SS <= src + n
    ensures ram.Mapped(s, s + SS)
    ensures HasZero(ram.LoadWord(s) ^ Repeated(c)) == 0 <==> s + SS <= z
  {
    hide HasZero, Ram.LoadWord, Repeated;
    WordHasByte(ram, s, c);
    if z < src + n {
      assert ram.Load(z) == c;
    }
  }

  /** The word loop of MemChr. */
  method MemChrWords(ram: Ram, src: nat, c: Byte, n: nat, s0: nat, m0: nat, ghost z: nat) returns (s: nat, m: nat)
    requires FirstByte(ram, src, n, c, z) && ram.Mapped(src, WordLimit(src, n, z))
    requires src <= s0 <= z && s0 + m0 == src + n && s0 % SS == 0
    ensures src <= s <= z && s + m == src + n
  {
    hide HasZero, Repeated, Ram.LoadWord, WordLimit, FirstByte, Ram.Mapped;
    assert z <= src + n by { FirstOrder(ram, src, n, c, z); }
    s, m := s0, m0;
    var k := Repeated(c);
    if m >= SS {
      WordBeforeByte(ram, src, n, c, s, z);
    }
    while m >= SS && HasZero(ram.LoadWord(s) ^ k) == 0
      invariant src <= s <= z && s + m == src + n && s % SS == 0
      invariant m >= SS ==> ram.Mapped(s, s + SS)
      decreases m
    {
      WordBeforeByte(ram, src, n, c, s, z);
      s, m := s + SS, m - SS;
      if m >= SS {
        WordBeforeByte(ram, src, n, c, s, z);
      }
    }
  }

  lemma FirstOrder(ram: Ram, src: nat, n: nat, c: Byte, z: nat)
    requires FirstByte(ram, src, n, c, z)
    ensures src <= z <= src + n
  {
  }

  /**
    The first byte c in [src, src + n). No byte outside that range has to be mapped, and no aligned word after
    the one that holds the byte.
  */
  method MemChr(ram: Ram, src: nat, c: Byte, n: nat, ghost z: nat) returns (p: Option<nat>)
    requires FirstByte(ram, src, n, c, z) && ram.Mapped(src, WordLimit(src, n, z))
    ensures p == if z < src + n then Some(z) else None
  {
    hide HasZero, Repeated, Ram.LoadWord, WordLimit;
    var s, m := src, n;
    while s % SS != 0 && m > 0 && ram.Load(s) != c
      invariant src <= s <= z && s + m == src + n
      decreases m
    {
      s, m := s + 1, m - 1;
    }
    if m > 0 && ram.Load(s) != c {
      s, m := MemChrWords(ram, src, c, n, s, m, z);
    }
    while m > 0 && ram.Load(s) != c
      invariant src <= s <= z && s + m == src + n
      decreases m
    {
      s, m := s + 1, m - 1;
    }
    return if m > 0 then Some(s) else None;
  }

  /** The length of the string, cut to n. */
  method StrNLen(ram: Ram, s: nat, n: nat, ghost z: nat) returns (r: nat)
    requires FirstByte(ram, s, n, 0, z) && ram.Mapped(s, WordLimit(s, n, z))
    ensures r == z - s
  {
    var p := MemChr(ram, s, 0, n, z);
    r := if p.Some? then p.value - s else n;
  }

  // ---- Copying ----

  /** The first n bytes of dest hold c afterwards, and nothing else changes. */
  method MemSet(ram: Ram, dest: nat, c: Byte, n: nat) returns (r: nat)
    requires ram.Mapped(dest, dest + n) && n <= 0x7fff_ffff
    modifies ram.cells
    ensures r == dest
    ensures forall a: nat :: ram.Mapped(a, a + 1) ==>
        ram.Load(a) == if dest <= a < dest + n then c else old(ram.Load(a))
  {
    var p := dest;
    var i := 0;
    while i < n
      invariant 0 <= i <= n && p == dest + i
      invariant forall k :: 0 <= k < ram.cells.Length ==>
        ram.cells[k] == if dest - ram.base <= k < p - ram.base then c else old(ram.cells[k])
    {
      i := i + 1;
      assert i <= 0x7fff_ffff;
      ghost var was := ram.cells[..];
      ram.Store(p, c);
      assert ram.cells[..] == was[p - ram.base := c];
      p := p + 1;
    }
    return dest;
  }

  /** The memory after a copy: the bytes `data` from address d on, all else as before. */
  ghost predicate Copied(ram: Ram, before: seq<Byte>, d: nat, data: seq<Byte>)
    requires |before| == ram.cells.Length && ram.base <= d
    reads ram.cells
  {
    forall i :: 0 <= i < ram.cells.Length ==>
      ram.cells[i] == if d - ram.base <= i < d - ram.base + |data| then data[i - (d - ram.base)] else before[i]
  }

  /** The bytes of memory m at addresses lo up to hi. */
  function Bytes(ram: Ram, m: seq<Byte>, lo: nat, hi: nat): (r: seq<Byte>)
    requires |m| == ram.cells.Length && ram.Mapped(lo, hi)
    ensures |r| == hi - lo
  {
    m[lo - ram.base..hi - ram.base]
  }

  /** What memory m holds at address a. */
  function Cell(ram: Ram, m: seq<Byte>, a: nat): Byte
    requires |m| == ram.cells.Length && ram.Mapped(a, a + 1)
  {
    m[a - ram.base]
  }

  /** The source bytes from src up to s have been copied to dest; the source up to e is not affected by that. */
  ghost predicate Copying(ram: Ram, before: seq<Byte>, dest: nat, src: nat, e: nat, s: nat)
    reads ram.cells
  {
    && |before| == ram.cells.Length
    && src <= s <= e && ram.Mapped(src, e) && ram.Mapped(dest, dest + (e - src))
    && (e <= dest || dest + (e - src) <= src)
    && Copied(ram, before, dest, Bytes(ram, before, src, s))
  }

  lemma SourceKept(ram: Ram, before: seq<Byte>, dest: nat, src: nat, e: nat, s: nat)
    requires Copying(ram, before, dest, src, e, s)
    ensures forall a :: src <= a < e ==> ram.Load(a) == Cell(ram, before, a)
  {
  }

  /** *d = *s */
  method CopyByte(ram: Ram, d: nat, s: nat, ghost before: seq<Byte>, ghost dest: nat, ghost src: nat, ghost e: nat)
    requires Copying(ram, before, dest, src, e, s) && s < e && d - dest == s - src
    modifies ram.cells
    ensures Copying(ram, before, dest, src, e, s + 1)
  {
    SourceKept(ram, before, dest, src, e, s);
    ram.Store(d, ram.Load(s));
  }

  /** Eight more bytes in place. */
  lemma WordCopied(ram: Ram, before: seq<Byte>, mid: seq<Byte>, dest: nat, src: nat, s: nat)
    requires |before| == |mid| == ram.cells.Length && src <= s
    requires ram.Mapped(src, s + SS) && ram.Mapped(dest, dest + (s + SS - src))
    requires forall i :: 0 <= i < |mid| ==>
      mid[i] == if dest - ram.base <= i < dest - ram.base + (s - src)
                then Bytes(ram, before, src, s)[i - (dest - ram.base)] else before[i]
    requires var at := dest - ram.base + (s - src);
      forall i :: 0 <= i < |mid| ==>
        ram.cells[i] == if at <= i < at + SS then before[s - ram.base + (i - at)] else mid[i]
    ensures Copied(ram, before, dest, Bytes(ram, before, src, s + SS))
  {
    var (at, more) := (dest - ram.base, Bytes(ram, before, src, s + SS));
    forall i | 0 <= i < ram.cells.Length
      ensures ram.cells[i] == if at <= i < at + |more| then more[i - at] else before[i]
    {
      assert at + (s - src) <= i < at + (s - src) + SS ==>
          more[i - at] == before[s - ram.base + (i - (at + (s - src)))];
      assert at <= i < at + (s - src) ==> more[i - at] == Bytes(ram, before, src, s)[i - at];
    }
  }

  /** *wd = *ws */
  method CopyWord(ram: Ram, d: nat, s: nat, ghost before: seq<Byte>, ghost dest: nat, ghost src: nat, ghost e: nat)
    requires Copying(ram, before, dest, src, e, s) && s + SS <= e && d - dest == s - src
    requires s % SS == 0 && d % SS == 0
    modifies ram.cells
    ensures Copying(ram, before, dest, src, e, s + SS)
  {
    hide ByteOf, Ram.LoadWord;
    SourceKept(ram, before, dest, src, e, s);
    WordBytes(ram, s);
    ghost var mid := ram.cells[..];
    var w := ram.LoadWord(s);
    assert forall a :: s <= a < s + SS ==> Cell(ram, before, a) == ByteOf(w, a - s);
    ram.StoreWord(d, w);
    forall i | d - ram.base <= i < d - ram.base + SS
      ensures ram.cells[i] == before[s - ram.base + (i - (d - ram.base))]
    {
      assert Cell(ram, before, s + (i - (d - ram.base))) == ByteOf(w, i - (d - ram.base));
    }
    WordCopied(ram, before, mid, dest, src, s);
  }

  /** A string in the source bytes before any copying. */
  ghost predicate SourceString(ram: Ram, before: seq<Byte>, src: nat, z: nat)
  {
    && |before| == ram.cells.Length && ram.Mapped(src, z + 1) && src <= z
    && (forall a :: src <= a < z ==> Cell(ram, before, a) != 0)
    && Cell(ram, before, z) == 0
  }

  /** During a copy, a zero byte in the source is its terminator. */
  lemma AtTerminator(ram: Ram, before: seq<Byte>, dest: nat, src: nat, e: nat, s: nat, z: nat)
    requires Copying(ram, before, dest, src, e, s) && SourceString(ram, before, src, z) && s <= z < e
    ensures ram.Mapped(s, s + 1)
    ensures ram.Load(s) == 0 <==> s == z
  {
    SourceKept(ram, before, dest, src, e, s);
  }

  /** During a copy, an aligned word of the source without a zero byte lies before its terminator. */
  lemma WordBeforeTerminator(ram: Ram, before: seq<Byte>, dest: nat, src: nat, e: nat, s: nat, z: nat)
    requires Copying(ram, before, dest, src, e, s) && SourceString(ram, before, src, z) && s <= z < e
    requires s % SS == 0 && ram.Mapped(s, s + SS)
    ensures HasZero(ram.LoadWord(s)) == 0 <==> s + SS <= z
  {
    hide HasZero, Ram.LoadWord;
    SourceKept(ram, before, dest, src, e, s);
    WordHasZero(ram, s);
    assert ram.Load(z) == 0;
  }

  lemma WordMapped(ram: Ram, src: nat, s: nat, z: nat)
    requires s % SS == 0 && src <= s <= z && ram.Mapped(src, WordEnd(z))
    ensures ram.Mapped(s, s + SS)
  {
  }

  lemma Aligned(s: nat, d: nat, src: nat, dest: nat)
    requires src % SS == dest % SS && d - dest == s - src && s % SS == 0
    ensures d % SS == 0
  {
  }

  /** The byte loop before the first aligned word; `done` when it has copied the terminator. */
  method CopyHead(ram: Ram, dest: nat, src: nat, ghost before: seq<Byte>, ghost z: nat)
      returns (d: nat, s: nat, done: bool)
    requires Copying(ram, before, dest, src, z + 1, src) && SourceString(ram, before, src, z)
    modifies ram.cells
    ensures src <= s <= z && d - dest == s - src
    ensures Copying(ram, before, dest, src, z + 1, if done then z + 1 else s)
    ensures if done then s == z else s % SS == 0
  {
    hide Ram.Load, Copying, SourceString;
    d, s := dest, src;
    assert src <= z by { SourceOrdered(ram, before, src, z); }
    while s % SS != 0
      invariant src <= s <= z && d - dest == s - src
      invariant Copying(ram, before, dest, src, z + 1, s)
      decreases z - s
    {
      AtTerminator(ram, before, dest, src, z + 1, s, z);
      var b := ram.Load(s);
      CopyByte(ram, d, s, before, dest, src, z + 1);
      if b == 0 {
        return d, s, true;
      }
      s, d := s + 1, d + 1;
    }
    done := false;
  }

  lemma SourceOrdered(ram: Ram, before: seq<Byte>, src: nat, z: nat)
    requires SourceString(ram, before, src, z)
    ensures src <= z
  {
  }

  /** The word loop, up to the word that holds the terminator. */
  method CopyWords(ram: Ram, dest: nat, src: nat, d0: nat, s0: nat, ghost before: seq<Byte>, ghost z: nat)
      returns (d: nat, s: nat)
    requires Copying(ram, before, dest, src, z + 1, s0) && SourceString(ram, before, src, z)
    requires ram.Mapped(src, WordEnd(z)) && src <= s0 <= z && d0 - dest == s0 - src && s0 % SS == 0 && d0 % SS == 0
    modifies ram.cells
    ensures src <= s <= z && d - dest == s - src
    ensures Copying(ram, before, dest, src, z + 1, s)
  {
    hide HasZero, Ram.LoadWord, Copying, SourceString, WordEnd, Ram.Mapped;
    d, s := d0, s0;
    WordMapped(ram, src, s, z);
    while HasZero(ram.LoadWord(s)) == 0
      invariant src <= s <= z && d - dest == s - src && s % SS == 0 && d % SS == 0 && ram.Mapped(s, s + SS)
      invariant Copying(ram, before, dest, src, z + 1, s)
      decreases z - s
    {
      WordBeforeTerminator(ram, before, dest, src, z + 1, s, z);
      CopyWord(ram, d, s, before, dest, src, z + 1);
      s, d := s + SS, d + SS;
      WordMapped(ram, src, s, z);
    }
  }

  /**
    The string is copied with its terminator, whatever the two alignments; nothing else changes, and the
    result is the address of the copied terminator.
  */
  method StrCpy(ram: Ram, dest: nat, src: nat, ghost z: nat) returns (end: nat)
    requires StringAt(ram, src, z) && ram.Mapped(src, WordEnd(z))
    requires ram.Mapped(dest, dest + (z - src) + 1)
    requires z + 1 <= dest || dest + (z - src) + 1 <= src
    modifies ram.cells
    ensures Copied(ram, old(ram.cells[..]), dest, Bytes(ram, old(ram.cells[..]), src, z + 1))
    ensures end == dest + (z - src)
  {
    hide Ram.Load, Copying, SourceString, Copied, Bytes, WordEnd;
    ghost var before := ram.cells[..];
    var d, s := dest, src;
    CopyStarts(ram, dest, src, z);
    if s % SS == d % SS {
      var done;
      d, s, done := CopyHead(ram, dest, src, before, z);
      if done {
        CopyEnds(ram, before, dest, src, z + 1);
        return d;
      }
      Aligned(s, d, src, dest);
      d, s := CopyWords(ram, dest, src, d, s, before, z);
    }
    while true
      invariant src <= s <= z && d - dest == s - src
      invariant Copying(ram, before, dest, src, z + 1, s)
      decreases z - s
    {
      AtTerminator(ram, before, dest, src, z + 1, s, z);
      var b := ram.Load(s);
      CopyByte(ram, d, s, before, dest, src, z + 1);
      if b == 0 {
        break;
      }
      s, d := s + 1, d + 1;
    }
    CopyEnds(ram, before, dest, src, z + 1);
    end := d;
  }

  lemma CopyStarts(ram: Ram, dest: nat, src: nat, z: nat)
    requires StringAt(ram, src, z)
    requires ram.Mapped(dest, dest + (z - src) + 1)
    requires z + 1 <= dest || dest + (z - src) + 1 <= src
    ensures Copying(ram, ram.cells[..], dest, src, z + 1, src)
    ensures SourceString(ram, ram.cells[..], src, z)
  {
    assert forall a :: src <= a <= z ==> Cell(ram, ram.cells[..], a) == ram.Load(a);
  }

  lemma CopyEnds(ram: Ram, before: seq<Byte>, dest: nat, src: nat, e: nat)
    requires Copying(ram, before, dest, src, e, e)
    ensures |before| == ram.cells.Length && ram.Mapped(src, e) && ram.base <= dest
    ensures Copied(ram, before, dest, Bytes(ram, before, src, e))
  {
  }

  /** The padded copy: the string bytes, then NULs up to n bytes in all. */
  function Padded(ram: Ram, before: seq<Byte>, src: nat, n: nat, z: nat): (r: seq<Byte>)
    requires |before| == ram.cells.Length && ram.Mapped(src, z) && src <= z <= src + n
    ensures |r| == n
  {
    Bytes(ram, before, src, z) + Zeros(n - (z - src))
  }

  /** The address where reading the source stops: after the terminator, or after n bytes. */
  function ReadEnd(src: nat, n: nat, z: nat): nat {
    if z < src + n then z + 1 else src + n
  }

  /** The first n bytes, or the whole string and NULs up to n, are written; all else is as before. */
  lemma PaddedAfterFill(ram: Ram, before: seq<Byte>, mid: seq<Byte>, dest: nat, src: nat, n: nat, z: nat, s: nat)
    requires |before| == |mid| == ram.cells.Length
    requires src <= z <= src + n && z <= s <= ReadEnd(src, n, z)
    requires ram.Mapped(src, ReadEnd(src, n, z)) && ram.Mapped(dest, dest + n)
    requires z < src + n ==> Cell(ram, before, z) == 0
    requires forall i :: 0 <= i < |mid| ==>
      mid[i] == if dest - ram.base <= i < dest - ram.base + (s - src)
                then Bytes(ram, before, src, s)[i - (dest - ram.base)] else before[i]
    requires forall a: nat :: ram.Mapped(a, a + 1) ==>
      ram.Load(a) == if dest + (z - src) <= a < dest + n then 0 else mid[a - ram.base]
    ensures Copied(ram, before, dest, Padded(ram, before, src, n, z))
  {
    forall i | 0 <= i < ram.cells.Length
      ensures ram.cells[i] == if dest - ram.base <= i < dest - ram.base + n
                              then Padded(ram, before, src, n, z)[i - (dest - ram.base)] else before[i]
    {
      assert ram.cells[i] == ram.Load(ram.base + i);
    }
  }

  /** In the source bytes before any copying, the first NUL within n bytes is at z; z is src + n if there is none. */
  ghost predicate BoundedString(ram: Ram, before: seq<Byte>, src: nat, n: nat, z: nat) {
    && |before| == ram.cells.Length && src <= z <= src + n && ram.Mapped(src, ReadEnd(src, n, z))
    && (forall a :: src <= a < z ==> Cell(ram, before, a) != 0)
    && (z < src + n ==> Cell(ram, before, z) == 0)
  }

  lemma AtBound(ram: Ram, before: seq<Byte>, dest: nat, src: nat, n: nat, s: nat, z: nat)
    requires BoundedString(ram, before, src, n, z) && Copying(ram, before, dest, src, ReadEnd(src, n, z), s)
    requires s <= z && s < src + n
    ensures s < ReadEnd(src, n, z) && ram.Mapped(s, s + 1)
    ensures ram.Load(s) == 0 <==> s == z
  {
    SourceKept(ram, before, dest, src, ReadEnd(src, n, z), s);
  }

  lemma WordBeforeBound(ram: Ram, before: seq<Byte>, dest: nat, src: nat, n: nat, s: nat, z: nat)
    requires BoundedString(ram, before, src, n, z) && Copying(ram, before, dest, src, ReadEnd(src, n, z), s)
    requires src <= s <= z && s + SS <= src + n && s % SS == 0 && ram.Mapped(s, s + SS)
    ensures HasZero(ram.LoadWord(s)) == 0 <==> s + SS <= z
  {
    hide HasZero, Ram.LoadWord;
    SourceKept(ram, before, dest, src, ReadEnd(src, n, z), s);
    WordHasZero(ram, s);
    if z < src + n {
      assert ram.Load(z) == 0;
    }
  }

  lemma WordInLimit(ram: Ram, src: nat, n: nat, s: nat, z: nat)
    requires s % SS == 0 && src <= s <= z <= src + n && s + SS <= src + n && ram.Mapped(src, WordLimit(src, n, z))
    ensures ram.Mapped(s, s + SS)
  {
  }

  /** The byte loop before the first aligned word; `copied` is how far the source has been copied. */
  method BoundedHead(ram: Ram, dest: nat, src: nat, n: nat, ghost before: seq<Byte>, ghost z: nat)
      returns (d: nat, s: nat, m: nat, ghost copied: nat)
    requires BoundedString(ram, before, src, n, z) && Copying(ram, before, dest, src, ReadEnd(src, n, z), src)
    modifies ram.cells
    ensures src <= s <= z && d - dest == s - src && s + m == src + n
    ensures Copying(ram, before, dest, src, ReadEnd(src, n, z), copied)
    ensures copied == s || (copied == z + 1 && s == z < src + n)
    ensures copied != s || s % SS == 0 || m == 0
  {
    hide Ram.Load, Copying;
    d, s, m := dest, src, n;
    while s % SS != 0 && m > 0
      invariant src <= s <= z && d - dest == s - src && s + m == src + n
      invariant Copying(ram, before, dest, src, ReadEnd(src, n, z), s)
      decreases m
    {
      AtBound(ram, before, dest, src, n, s, z);
      var b := ram.Load(s);
      CopyByte(ram, d, s, before, dest, src, ReadEnd(src, n, z));
      if b == 0 {
        copied := s + 1;
        return;
      }
      m, s, d := m - 1, s + 1, d + 1;
    }
    copied := s;
  }

  /** The word loop. */
  method BoundedWords(ram: Ram, dest: nat, src: nat, n: nat, d0: nat, s0: nat, m0: nat, ghost before: seq<Byte>,
      ghost z: nat)
      returns (d: nat, s: nat, m: nat)
    requires BoundedString(ram, before, src, n, z) && Copying(ram, before, dest, src, ReadEnd(src, n, z), s0)
    requires ram.Mapped(src, WordLimit(src, n, z))
    requires src <= s0 <= z && d0 - dest == s0 - src && s0 + m0 == src + n && s0 % SS == 0 && d0 % SS == 0
    modifies ram.cells
    ensures src <= s <= z && d - dest == s - src && s + m == src + n
    ensures Copying(ram, before, dest, src, ReadEnd(src, n, z), s)
  {
    hide HasZero, Ram.LoadWord, Copying, BoundedString, WordLimit, Ram.Mapped;
    d, s, m := d0, s0, m0;
    assert z <= src + n by { BoundedOrder(ram, before, src, n, z); }
    if m >= SS {
      WordInLimit(ram, src, n, s, z);
    }
    while m >= SS && HasZero(ram.LoadWord(s)) == 0
      invariant src <= s <= z && d - dest == s - src && s + m == src + n && s % SS == 0 && d % SS == 0
      invariant m >= SS ==> ram.Mapped(s, s + SS)
      invariant Copying(ram, before, dest, src, ReadEnd(src, n, z), s)
      decreases m
    {
      WordBeforeBound(ram, before, dest, src, n, s, z);
      CopyWord(ram, d, s, before, dest, src, ReadEnd(src, n, z));
      m, s, d := m - SS, s + SS, d + SS;
      if m >= SS {
        WordInLimit(ram, src, n, s, z);
      }
    }
  }

  lemma BoundedOrder(ram: Ram, before: seq<Byte>, src: nat, n: nat, z: nat)
    requires BoundedString(ram, before, src, n, z)
    ensures src <= z <= src + n
  {
  }

  /** The byte loop that ends every copy. */
  method BoundedRest(ram: Ram, dest: nat, src: nat, n: nat, d0: nat, s0: nat, m0: nat, ghost before: seq<Byte>,
      ghost z: nat)
      returns (d: nat, m: nat, ghost copied: nat)
    requires BoundedString(ram, before, src, n, z) && Copying(ram, before, dest, src, ReadEnd(src, n, z), s0)
    requires src <= s0 <= z && d0 - dest == s0 - src && s0 + m0 == src + n
    modifies ram.cells
    ensures d - dest == z - src && z + m == src + n
    ensures z <= copied <= ReadEnd(src, n, z) && Copying(ram, before, dest, src, ReadEnd(src, n, z), copied)
  {
    hide Ram.Load, Copying;
    var s := s0;
    d, m := d0, m0;
    while m > 0
      invariant src <= s <= z && d - dest == s - src && s + m == src + n
      invariant Copying(ram, before, dest, src, ReadEnd(src, n, z), s)
      decreases m
    {
      AtBound(ram, before, dest, src, n, s, z);
      var b := ram.Load(s);
      CopyByte(ram, d, s, before, dest, src, ReadEnd(src, n, z));
      if b == 0 {
        copied := s + 1;
        return;
      }
      m, s, d := m - 1, s + 1, d + 1;
    }
    copied := s;
  }

  /** The label tail: the rest of the n bytes is filled with NULs. */
  method Tail(ram: Ram, dest: nat, src: nat, n: nat, d: nat, m: nat, ghost before: seq<Byte>, ghost z: nat,
      ghost copied: nat)
    requires BoundedString(ram, before, src, n, z)
    requires z <= copied <= ReadEnd(src, n, z) && Copying(ram, before, dest, src, ReadEnd(src, n, z), copied)
    requires d - dest == z - src && z + m == src + n && m <= 0x7fff_ffff && ram.Mapped(dest, dest + n)
    modifies ram.cells
    ensures Copied(ram, before, dest, Padded(ram, before, src, n, z))
  {
    ghost var mid := ram.cells[..];
    var _ := MemSet(ram, d, 0, m);
    PaddedAfterFill(ram, before, mid, dest, src, n, z, copied);
  }

  /**
    Exactly n bytes are written: the string, cut to n bytes, and NULs for the rest; nothing else changes, and
    the result is the address after the last string byte.
  */
  method StrNCpy(ram: Ram, dest: nat, src: nat, n: nat, ghost z: nat) returns (end: nat)
    requires BoundedString(ram, ram.cells[..], src, n, z) && ram.Mapped(src, WordLimit(src, n, z))
    requires ram.Mapped(dest, dest + n)
    requires (if z < src + n then z + 1 else src + n) <= dest || dest + n <= src
    requires n - (z - src) <= 0x7fff_ffff
    modifies ram.cells
    ensures Copied(ram, old(ram.cells[..]), dest, Padded(ram, old(ram.cells[..]), src, n, z))
    ensures end == dest + (z - src)
  {
    hide HasZero, Ram.Load, Ram.LoadWord, Copying, Copied, WordLimit, Padded;
    ghost var before := ram.cells[..];
    ghost var copied := src;
    var d, s, m := dest, src, n;
    assert Copying(ram, before, dest, src, ReadEnd(src, n, z), src) by { BoundedStarts(ram, dest, src, n, z); }
    if s % SS == d % SS {
      d, s, m, copied := BoundedHead(ram, dest, src, n, before, z);
      if m > 0 {
        AfterHead(ram, before, dest, src, n, s, z, copied);
      }
      if m == 0 || ram.Load(s) == 0 {
        Tail(ram, dest, src, n, d, m, before, z, copied);
        return d;
      }
      Aligned(s, d, src, dest);
      d, s, m := BoundedWords(ram, dest, src, n, d, s, m, before, z);
    }
    d, m, copied := BoundedRest(ram, dest, src, n, d, s, m, before, z);
    Tail(ram, dest, src, n, d, m, before, z, copied);
    return d;
  }

  lemma BoundedStarts(ram: Ram, dest: nat, src: nat, n: nat, z: nat)
    requires BoundedString(ram, ram.cells[..], src, n, z)
    requires ram.Mapped(dest, dest + n) && (ReadEnd(src, n, z) <= dest || dest + n <= src)
    ensures Copying(ram, ram.cells[..], dest, src, ReadEnd(src, n, z), src)
  {
  }

  lemma AfterHead(ram: Ram, before: seq<Byte>, dest: nat, src: nat, n: nat, s: nat, z: nat, copied: nat)
    requires BoundedString(ram, before, src, n, z) && Copying(ram, before, dest, src, ReadEnd(src, n, z), copied)
    requires src <= s <= z && s < src + n
    ensures s < ReadEnd(src, n, z) && ram.Mapped(s, s + 1)
    ensures ram.Load(s) == 0 <==> s == z
  {
    SourceKept(ram, before, dest, src, ReadEnd(src, n, z), copied);
  }
}
