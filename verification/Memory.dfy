/**
  Byte-addressed memory with aligned eight-byte words, as the string routines of user/lib/string.c see it
  on a 64-bit little-endian machine, and the bit trick that finds a zero byte in a word.
*/
module Memory {
  type Byte = bv8
  type Word = bv64

  /** sizeof(size_t) */
  const SS := 8

  const ONES: Word := 0x0101_0101_0101_0101
  const HIGHS: Word := 0x8080_8080_8080_8080

  /** HASZERO(x) */
  function HasZero(x: Word): Word {
    (x - ONES) & !x & HIGHS
  }

  /** The byte at bit position s. */
  function ByteAt(w: Word, s: Word): Byte
    requires s <= 56
  {
    ((w >> s) & 0xFF) as Byte
  }

  function Shift(k: nat): (s: Word)
    requires k < SS
    ensures s <= 56
  {
    if k == 0 then 0 else if k == 1 then 8 else if k == 2 then 16 else if k == 3 then 24
    else if k == 4 then 32 else if k == 5 then 40 else if k == 6 then 48 else 56
  }

  /** Byte k of a word, as memory holds it. */
  function ByteOf(w: Word, k: nat): Byte
    requires k < SS
  {
    ByteAt(w, Shift(k))
  }

  /** The word that eight bytes of memory make. */
  function Pack(b: seq<Byte>): Word
    requires |b| == SS
  {
    (b[0] as Word) | ((b[1] as Word) << 8) | ((b[2] as Word) << 16) | ((b[3] as Word) << 24)
    | ((b[4] as Word) << 32) | ((b[5] as Word) << 40) | ((b[6] as Word) << 48) | ((b[7] as Word) << 56)
  }

  /** The bit trick, with the eight bytes written out. */
  lemma HasZeroBits(w: Word)
    ensures HasZero(w) != 0 <==>
      || ((w >> 0) & 0xFF) as Byte == 0 || ((w >> 8) & 0xFF) as Byte == 0
      || ((w >> 16) & 0xFF) as Byte == 0 || ((w >> 24) & 0xFF) as Byte == 0
      || ((w >> 32) & 0xFF) as Byte == 0 || ((w >> 40) & 0xFF) as Byte == 0
      || ((w >> 48) & 0xFF) as Byte == 0 || ((w >> 56) & 0xFF) as Byte == 0
  {
  }

  lemma HasZeroAt(w: Word)
    ensures HasZero(w) != 0 <==>
      || ByteAt(w, 0) == 0 || ByteAt(w, 8) == 0 || ByteAt(w, 16) == 0 || ByteAt(w, 24) == 0
      || ByteAt(w, 32) == 0 || ByteAt(w, 40) == 0 || ByteAt(w, 48) == 0 || ByteAt(w, 56) == 0
  {
    hide HasZero;
    HasZeroBits(w);
  }

  lemma Places(k: nat)
    requires k < SS
    ensures k == 0 || k == 1 || k == 2 || k == 3 || k == 4 || k == 5 || k == 6 || k == 7
  {
  }

  /** HASZERO(w) is nonzero exactly when some byte of the word is zero. */
  lemma HasZeroFinds(w: Word)
    ensures HasZero(w) != 0 <==> exists k :: 0 <= k < SS && ByteOf(w, k) == 0
  {
    hide HasZero, ByteAt;
    HasZeroAt(w);
    assert HasZero(w) != 0 <==>
      || ByteOf(w, 0) == 0 || ByteOf(w, 1) == 0 || ByteOf(w, 2) == 0 || ByteOf(w, 3) == 0
      || ByteOf(w, 4) == 0 || ByteOf(w, 5) == 0 || ByteOf(w, 6) == 0 || ByteOf(w, 7) == 0;
    if k :| 0 <= k < SS && ByteOf(w, k) == 0 {
      Places(k);
    }
  }

  lemma XorBits(w: Word, y: Word, s: Word)
    requires s <= 56
    ensures (((w ^ y) >> s) & 0xFF) as Byte == 0 <==> ((w >> s) & 0xFF) as Byte == ((y >> s) & 0xFF) as Byte
  {
  }

  lemma XorAt(w: Word, y: Word, s: Word)
    requires s <= 56
    ensures ByteAt(w ^ y, s) == 0 <==> ByteAt(w, s) == ByteAt(y, s)
  {
    XorBits(w, y, s);
  }

  lemma XorBytes(w: Word, y: Word, k: nat)
    requires k < SS
    ensures ByteOf(w ^ y, k) == 0 <==> ByteOf(w, k) == ByteOf(y, k)
  {
    hide ByteAt, Shift;
    XorAt(w, y, Shift(k));
  }

  /** ONES * c, for an unsigned char c. */
  function Repeated(c: Byte): Word {
    ONES * (c as Word)
  }

  lemma RepeatedBits(c: Byte)
    ensures var y := 0x0101_0101_0101_0101 * (c as Word);
      && ((y >> 0) & 0xFF) as Byte == c && ((y >> 8) & 0xFF) as Byte == c
      && ((y >> 16) & 0xFF) as Byte == c && ((y >> 24) & 0xFF) as Byte == c
      && ((y >> 32) & 0xFF) as Byte == c && ((y >> 40) & 0xFF) as Byte == c
      && ((y >> 48) & 0xFF) as Byte == c && ((y >> 56) & 0xFF) as Byte == c
  {
  }

  lemma RepeatedAt(c: Byte)
    ensures var y := Repeated(c);
      && ByteAt(y, 0) == c && ByteAt(y, 8) == c && ByteAt(y, 16) == c && ByteAt(y, 24) == c
      && ByteAt(y, 32) == c && ByteAt(y, 40) == c && ByteAt(y, 48) == c && ByteAt(y, 56) == c
  {
    RepeatedBits(c);
  }

  lemma RepeatedBytes(c: Byte, k: nat)
    requires k < SS
    ensures ByteOf(Repeated(c), k) == c
  {
    hide ByteAt, Repeated;
    RepeatedAt(c);
    Places(k);
  }

  /** ONES * c holds c in every byte, so HASZERO(w ^ ONES * c) finds the byte c. */
  lemma HasByteFinds(w: Word, c: Byte)
    ensures HasZero(w ^ Repeated(c)) != 0 <==> exists k :: 0 <= k < SS && ByteOf(w, k) == c
  {
    hide HasZero, ByteOf, Repeated;
    var x := w ^ Repeated(c);
    HasZeroFinds(x);
    forall k | 0 <= k < SS ensures ByteOf(x, k) == 0 <==> ByteOf(w, k) == c {
      XorBytes(w, Repeated(c), k);
      RepeatedBytes(c, k);
    }
    if k :| 0 <= k < SS && ByteOf(w, k) == c {
      assert ByteOf(x, k) == 0;
    }
  }

  lemma PackBits(b0: Byte, b1: Byte, b2: Byte, b3: Byte, b4: Byte, b5: Byte, b6: Byte, b7: Byte)
    ensures var w := (b0 as Word) | ((b1 as Word) << 8) | ((b2 as Word) << 16) | ((b3 as Word) << 24)
                   | ((b4 as Word) << 32) | ((b5 as Word) << 40) | ((b6 as Word) << 48) | ((b7 as Word) << 56);
      && ((w >> 0) & 0xFF) as Byte == b0 && ((w >> 8) & 0xFF) as Byte == b1
      && ((w >> 16) & 0xFF) as Byte == b2 && ((w >> 24) & 0xFF) as Byte == b3
      && ((w >> 32) & 0xFF) as Byte == b4 && ((w >> 40) & 0xFF) as Byte == b5
      && ((w >> 48) & 0xFF) as Byte == b6 && ((w >> 56) & 0xFF) as Byte == b7
  {
  }

  /** Taking a word apart gives back the bytes that made it. */
  lemma PackBytes(b: seq<Byte>)
    requires |b| == SS
    ensures forall k :: 0 <= k < SS ==> ByteOf(Pack(b), k) == b[k]
  {
    hide ByteAt;
    var w := Pack(b);
    PackAt(b);
    forall k | 0 <= k < SS ensures ByteOf(w, k) == b[k] {
      Places(k);
    }
  }

  lemma PackAt(b: seq<Byte>)
    requires |b| == SS
    ensures ByteAt(Pack(b), 0) == b[0] && ByteAt(Pack(b), 8) == b[1] && ByteAt(Pack(b), 16) == b[2]
        && ByteAt(Pack(b), 24) == b[3]
    ensures ByteAt(Pack(b), 32) == b[4] && ByteAt(Pack(b), 40) == b[5] && ByteAt(Pack(b), 48) == b[6]
        && ByteAt(Pack(b), 56) == b[7]
  {
    PackBits(b[0], b[1], b[2], b[3], b[4], b[5], b[6], b[7]);
  }
}
