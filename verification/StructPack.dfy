/** The little-endian integers that struct.pack writes with 'H' and 'I', and what the device reads back. */
module StructPack {
  import opened Gf256

  type U16 = n: int | 0 <= n < 0x1_0000
  type U32 = n: int | 0 <= n < 0x1_0000_0000

  function Half(n: nat): nat {
    n / 2
  }

  predicate Odd(n: nat) {
    n % 2 == 1
  }

  /** The byte whose bits are the binary digits of n. */
  function ToByte(n: int): Byte
    requires 0 <= n < 256
  {
    var n1 := Half(n);
    var n2 := Half(n1);
    var n3 := Half(n2);
    var n4 := Half(n3);
    var n5 := Half(n4);
    var n6 := Half(n5);
    FromBits(Odd(Half(n6)), Odd(n6), Odd(n5), Odd(n4), Odd(n3), Odd(n2), Odd(n1), Odd(n))
  }

  function FromBits(b7: bool, b6: bool, b5: bool, b4: bool, b3: bool, b2: bool, b1: bool, b0: bool): Byte {
    (if b7 then 0x80 else 0) | (if b6 then 0x40 else 0) | (if b5 then 0x20 else 0) | (if b4 then 0x10 else 0) |
    (if b3 then 0x08 else 0) | (if b2 then 0x04 else 0) | (if b1 then 0x02 else 0) | (if b0 then 0x01 else 0)
  }

  /** The number whose binary digits are the bits of b. */
  function FromByte(b: Byte): (n: int)
    ensures 0 <= n < 256
  {
    Weigh(b, 0x80, 128) + Weigh(b, 0x40, 64) + Weigh(b, 0x20, 32) + Weigh(b, 0x10, 16) +
    Weigh(b, 0x08, 8) + Weigh(b, 0x04, 4) + Weigh(b, 0x02, 2) + Weigh(b, 0x01, 1)
  }

  function Weigh(b: Byte, mask: Byte, weight: nat): (w: nat)
    ensures w <= weight
  {
    if b & mask != 0 then weight else 0
  }

  function Digit(b: bool): nat {
    if b then 1 else 0
  }

  function Value(b7: bool, b6: bool, b5: bool, b4: bool, b3: bool, b2: bool, b1: bool, b0: bool): nat {
    128 * Digit(b7) + 64 * Digit(b6) + 32 * Digit(b5) + 16 * Digit(b4) + 8 * Digit(b3) + 4 * Digit(b2)
        + 2 * Digit(b1) + Digit(b0)
  }

  lemma FromByteBits(b7: bool, b6: bool, b5: bool, b4: bool, b3: bool, b2: bool, b1: bool, b0: bool)
    ensures FromByte(FromBits(b7, b6, b5, b4, b3, b2, b1, b0)) == Value(b7, b6, b5, b4, b3, b2, b1, b0)
  {
  }

  lemma HalfAndDigit(n: nat)
    ensures n == 2 * Half(n) + Digit(Odd(n))
  {
  }

  lemma TwoDigits(n: nat)
    ensures n == 4 * Half(Half(n)) + 2 * Digit(Odd(Half(n))) + Digit(Odd(n))
  {
    hide Half, Odd, Digit;
    HalfAndDigit(n);
    HalfAndDigit(Half(n));
  }

  lemma FourDigits(n: nat)
    ensures var (n1, n2) := (Half(n), Half(Half(n)));
            var n3 := Half(n2);
            n == 16 * Half(n3) + 8 * Digit(Odd(n3)) + 4 * Digit(Odd(n2)) + 2 * Digit(Odd(n1)) + Digit(Odd(n))
  {
    hide Half, Odd, Digit;
    TwoDigits(n);
    TwoDigits(Half(Half(n)));
  }

  lemma EightDigits(n: nat)
    requires n < 256
    ensures var (n1, n2) := (Half(n), Half(Half(n)));
            var (n3, n4) := (Half(n2), Half(Half(n2)));
            var (n5, n6) := (Half(n4), Half(Half(n4)));
            n == Value(Odd(Half(n6)), Odd(n6), Odd(n5), Odd(n4), Odd(n3), Odd(n2), Odd(n1), Odd(n))
  {
    hide Half, Odd, Digit;
    FourDigits(n);
    var high := Half(Half(Half(Half(n))));
    assert high < 16;
    FourDigits(high);
    assert Half(Half(Half(Half(high)))) == 0;
  }

  lemma FromToByte(n: int)
    requires 0 <= n < 256
    ensures FromByte(ToByte(n)) == n
  {
    hide FromBits, FromByte, Half, Odd, Value;
    var n1 := Half(n);
    var n2 := Half(n1);
    var n3 := Half(n2);
    var n4 := Half(n3);
    var n5 := Half(n4);
    var n6 := Half(n5);
    EightDigits(n);
    FromByteBits(Odd(Half(n6)), Odd(n6), Odd(n5), Odd(n4), Odd(n3), Odd(n2), Odd(n1), Odd(n));
  }

  function PackH(n: U16): (s: seq<Byte>)
    ensures |s| == 2
  {
    [ToByte(n % 256), ToByte(n / 256)]
  }

  function PackI(n: U32): (s: seq<Byte>)
    ensures |s| == 4
  {
    [ToByte(n % 256), ToByte(n / 256 % 256), ToByte(n / 256 / 256 % 256), ToByte(n / 256 / 256 / 256)]
  }

  function UnpackH(s: seq<Byte>): U16
    requires |s| == 2
  {
    FromByte(s[0]) + 256 * FromByte(s[1])
  }

  function UnpackI(s: seq<Byte>): U32
    requires |s| == 4
  {
    FromByte(s[0]) + 256 * FromByte(s[1]) + 65536 * FromByte(s[2]) + 16777216 * FromByte(s[3])
  }

  lemma UnpackPackH(n: U16)
    ensures UnpackH(PackH(n)) == n
  {
    hide ToByte, FromByte;
    FromToByte(n % 256);
    FromToByte(n / 256);
  }

  lemma UnpackPackI(n: U32)
    ensures UnpackI(PackI(n)) == n
  {
    hide ToByte, FromByte;
    FromToByte(n % 256);
    FromToByte(n / 256 % 256);
    FromToByte(n / 256 / 256 % 256);
    FromToByte(n / 256 / 256 / 256);
  }

  // ---- As numbers ----

  /** The number that bytes stand for, the least significant one first. */
  function LittleEndian(s: seq<Byte>): nat {
    if s == [] then 0 else s[0] as int + 256 * LittleEndian(s[1..])
  }

  lemma FromByteIs(b: Byte)
    ensures FromByte(b) == b as int
  {
  }

  /** What is packed is the number in little-endian bytes. */
  lemma PackIsLittleEndian(h: U16, i: U32)
    ensures LittleEndian(PackH(h)) == h && LittleEndian(PackI(i)) == i
  {
    hide PackH, PackI, UnpackH, UnpackI;
    UnpackPackH(h);
    UnpackPackI(i);
    UnpackIsLittleEndian(PackH(h), PackI(i));
  }

  lemma UnpackIsLittleEndian(h: seq<Byte>, i: seq<Byte>)
    requires |h| == 2 && |i| == 4
    ensures UnpackH(h) == LittleEndian(h) && UnpackI(i) == LittleEndian(i)
  {
    hide LittleEndian, FromByte;
    TwoBytes(h);
    TwoBytes(i);
    TwoBytes(i[2..]);
    assert h[2..] == [] && i[2..][2..] == [];
    FromByteIs(h[0]);
    FromByteIs(h[1]);
    FromByteIs(i[0]);
    FromByteIs(i[1]);
    FromByteIs(i[2]);
    FromByteIs(i[3]);
  }

  lemma TwoBytes(s: seq<Byte>)
    requires |s| >= 2
    ensures LittleEndian(s) == s[0] as int + 256 * s[1] as int + 65536 * LittleEndian(s[2..])
    ensures LittleEndian([]) == 0
  {
    assert s[1..][1..] == s[2..];
  }
}
