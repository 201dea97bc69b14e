/**
  Python integers as the AES code of ktool.py uses them, and its lookup tables. Python's integers are
  unbounded and the key words are unpacked signed, so a word here is a two's complement number that is wide
  enough (64 bits) for every value the code can build: all of them lie from -2^32 up to 2^32 - 1, and
  exclusive-or and arithmetic shift never leave that range (Narrow below). The contracts relate the bytes
  that the code extracts from such numbers to FIPS-197.
*/
module PyWords {
  import opened Gf256
  import opened AesSbox
  import opened AesCipher

  /** A Python integer in two's complement, sign in bit 63. */
  type PyInt = bv64

  /** Python's exclusive-or. */
  function Xor(a: PyInt, b: PyInt): PyInt {
    a ^ b
  }

  function Xor4(a: PyInt, b: PyInt, c: PyInt, d: PyInt): PyInt {
    Xor(Xor(Xor(a, b), c), d)
  }

  /** Python's left shift of a byte. */
  function Shl(b: Byte, k: nat): PyInt
    requires k == 0 || k == 8 || k == 16 || k == 24
  {
    (b as PyInt) << k
  }

  /** Python's right shift: arithmetic, for the shift distances that the code uses. */
  function Shr(w: PyInt, k: nat): PyInt
    requires k == 0 || k == 8 || k == 16 || k == 24
  {
    if w & 0x8000_0000_0000_0000 == 0 then w >> k else !(!w >> k)
  }

  /** The table index (w >> k) & 0xFF. */
  function Index(w: PyInt, k: nat): Byte
    requires k == 0 || k == 8 || k == 16 || k == 24
  {
    (Shr(w, k) & 0xFF) as Byte
  }

  /** The four bytes that the code can see of a word. */
  function Bytes(w: PyInt): Column {
    Column(Index(w, 24), Index(w, 16), Index(w, 8), Index(w, 0))
  }

  /** (b0 << 24) | (b1 << 16) | (b2 << 8) | b3 */
  function CompactWord(b0: Byte, b1: Byte, b2: Byte, b3: Byte): PyInt {
    ((b0 as PyInt) << 24) | ((b1 as PyInt) << 16) | ((b2 as PyInt) << 8) | (b3 as PyInt)
  }

  /** struct.unpack('>i', ...): four big-endian bytes as a signed number. */
  function UnpackSigned(b0: Byte, b1: Byte, b2: Byte, b3: Byte): PyInt {
    CompactWord(b0, b1, b2, b3) | (if b0 & 0x80 == 0 then 0 else 0xFFFF_FFFF_0000_0000)
  }

  // The lookup tables, by the equations that define them.
  function V1(b: Byte): PyInt { CompactWord(Mul2(b), b, b, Mul3(b)) }
  function V2(b: Byte): PyInt { CompactWord(Mul3(b), Mul2(b), b, b) }
  function V3(b: Byte): PyInt { CompactWord(b, Mul3(b), Mul2(b), b) }
  function V4(b: Byte): PyInt { CompactWord(b, b, Mul3(b), Mul2(b)) }
  function U1(b: Byte): PyInt { CompactWord(MulE(b), Mul9(b), MulD(b), MulB(b)) }
  function U2(b: Byte): PyInt { CompactWord(MulB(b), MulE(b), Mul9(b), MulD(b)) }
  function U3(b: Byte): PyInt { CompactWord(MulD(b), MulB(b), MulE(b), Mul9(b)) }
  function U4(b: Byte): PyInt { CompactWord(Mul9(b), MulD(b), MulB(b), MulE(b)) }
  function T1(b: Byte): PyInt { V1(S(b)) }
  function T2(b: Byte): PyInt { V2(S(b)) }
  function T3(b: Byte): PyInt { V3(S(b)) }
  function T4(b: Byte): PyInt { V4(S(b)) }
  function T5(b: Byte): PyInt { U1(Si(b)) }
  function T6(b: Byte): PyInt { U2(Si(b)) }
  function T7(b: Byte): PyInt { U3(Si(b)) }
  function T8(b: Byte): PyInt { U4(Si(b)) }

  // ---- No value outgrows the width of PyInt ----

  /** Bits 32 to 63. */
  function High(w: PyInt): PyInt {
    w & 0xFFFF_FFFF_0000_0000
  }

  /** From -2^32 up to 2^32 - 1: all bits from bit 32 on are copies of the sign. */
  predicate Narrow(w: PyInt) {
    High(w) == 0 || High(w) == 0xFFFF_FFFF_0000_0000
  }

  /** Everything that is packed or unpacked from bytes is narrow. */
  lemma PackedNarrow(b0: Byte, b1: Byte, b2: Byte, b3: Byte)
    ensures Narrow(CompactWord(b0, b1, b2, b3)) && Narrow(UnpackSigned(b0, b1, b2, b3))
    ensures Narrow(Shl(b0, 0)) && Narrow(Shl(b0, 8)) && Narrow(Shl(b0, 16)) && Narrow(Shl(b0, 24))
  {
    assert CompactWord(b0, b1, b2, b3) & 0xFFFF_FFFF_0000_0000 == 0;
    assert UnpackSigned(b0, b1, b2, b3) & 0xFFFF_FFFF_0000_0000 == if b0 & 0x80 == 0 then 0 else 0xFFFF_FFFF_0000_0000;
  }

  lemma HighOfXor(a: PyInt, b: PyInt)
    ensures (High(a) == High(b) ==> High(Xor(a, b)) == 0)
    ensures (High(a) == 0 ==> High(Xor(a, b)) == High(b))
    ensures (High(b) == 0 ==> High(Xor(a, b)) == High(a))
  {
  }

  lemma ShiftNarrow8(w: PyInt)
    requires Narrow(w)
    ensures Narrow(Shr(w, 8))
  {
  }

  lemma ShiftNarrow16(w: PyInt)
    requires Narrow(w)
    ensures Narrow(Shr(w, 16))
  {
  }

  lemma ShiftNarrow24(w: PyInt)
    requires Narrow(w)
    ensures Narrow(Shr(w, 24))
  {
  }

  /** The operations of the code turn narrow numbers into narrow ones: 64 bits lose nothing of Python's integers. */
  lemma NarrowStaysNarrow(a: PyInt, b: PyInt)
    requires Narrow(a) && Narrow(b)
    ensures Narrow(Xor(a, b))
    ensures Narrow(Shr(a, 8)) && Narrow(Shr(a, 16)) && Narrow(Shr(a, 24))
  {
    hide High, Xor, Shr;
    HighOfXor(a, b);
    ShiftNarrow8(a);
    ShiftNarrow16(a);
    ShiftNarrow24(a);
  }

  // ---- What the word operations do to the four visible bytes ----

  /** The four bytes of a 32-bit word, most significant first. */
  function Lanes(x: bv32): Column {
    Column((x >> 24) as Byte, ((x >> 16) & 0xFF) as Byte, ((x >> 8) & 0xFF) as Byte, (x & 0xFF) as Byte)
  }

  /** The number modulo 2^32. */
  function Low32(w: PyInt): bv32 {
    (w & 0xFFFF_FFFF) as bv32
  }

  lemma Index24(w: PyInt)
    ensures Index(w, 24) == (Low32(w) >> 24) as Byte
  {
  }

  lemma Index16(w: PyInt)
    ensures Index(w, 16) == ((Low32(w) >> 16) & 0xFF) as Byte
  {
  }

  lemma Index8(w: PyInt)
    ensures Index(w, 8) == ((Low32(w) >> 8) & 0xFF) as Byte
  {
  }

  /** The code cannot tell a Python integer, negative or not, from its value as a 32-bit word. */
  lemma PythonAgreesWithWords(w: PyInt)
    ensures Bytes(w) == Lanes(Low32(w))
  {
    hide Index, Low32;
    Index24(w);
    Index16(w);
    Index8(w);
    assert Index(w, 0) == (Low32(w) & 0xFF) as Byte by { Index0(w); }
  }

  lemma Index0(w: PyInt)
    ensures Index(w, 0) == (Low32(w) & 0xFF) as Byte
  {
  }

  lemma LanesOfXor(x: bv32, y: bv32)
    ensures Lanes(x ^ y) == AddColumns(Lanes(x), Lanes(y))
  {
    assert ((x ^ y) >> 24) as Byte == (x >> 24) as Byte ^ (y >> 24) as Byte;
    assert (((x ^ y) >> 16) & 0xFF) as Byte == ((x >> 16) & 0xFF) as Byte ^ ((y >> 16) & 0xFF) as Byte;
    assert (((x ^ y) >> 8) & 0xFF) as Byte == ((x >> 8) & 0xFF) as Byte ^ ((y >> 8) & 0xFF) as Byte;
    assert ((x ^ y) & 0xFF) as Byte == (x & 0xFF) as Byte ^ (y & 0xFF) as Byte;
  }

  /** Exclusive-or of Python integers adds the visible bytes separately. */
  lemma BytesOfXor(a: PyInt, b: PyInt)
    ensures Bytes(Xor(a, b)) == AddColumns(Bytes(a), Bytes(b))
  {
    hide Bytes, Lanes;
    PythonAgreesWithWords(a);
    PythonAgreesWithWords(b);
    PythonAgreesWithWords(a ^ b);
    LanesOfXor(Low32(a), Low32(b));
    assert ((a ^ b) & 0xFFFF_FFFF) as bv32 == (a & 0xFFFF_FFFF) as bv32 ^ (b & 0xFFFF_FFFF) as bv32;
  }

  lemma LanesOfPacked(b0: Byte, b1: Byte, b2: Byte, b3: Byte)
    ensures var w := ((b0 as PyInt) << 24) | ((b1 as PyInt) << 16) | ((b2 as PyInt) << 8) | (b3 as PyInt);
            Lanes((w & 0xFFFF_FFFF) as bv32) == Column(b0, b1, b2, b3)
  {
    var w := ((b0 as PyInt) << 24) | ((b1 as PyInt) << 16) | ((b2 as PyInt) << 8) | (b3 as PyInt);
    assert (((w & 0xFFFF_FFFF) as bv32) >> 24) as Byte == b0;
    assert ((((w & 0xFFFF_FFFF) as bv32) >> 16) & 0xFF) as Byte == b1;
    assert ((((w & 0xFFFF_FFFF) as bv32) >> 8) & 0xFF) as Byte == b2;
    assert (((w & 0xFFFF_FFFF) as bv32) & 0xFF) as Byte == b3;
  }

  lemma BytesOfWord(b0: Byte, b1: Byte, b2: Byte, b3: Byte)
    ensures Bytes(CompactWord(b0, b1, b2, b3)) == Column(b0, b1, b2, b3)
  {
    hide Bytes, Lanes;
    PythonAgreesWithWords(CompactWord(b0, b1, b2, b3));
    LanesOfPacked(b0, b1, b2, b3);
  }

  lemma HighBitsUnseen(w: PyInt, high: PyInt)
    requires high & 0xFFFF_FFFF == 0
    ensures Bytes(w | high) == Bytes(w)
  {
    hide Bytes, Lanes;
    PythonAgreesWithWords(w);
    PythonAgreesWithWords(w | high);
    assert ((w | high) & 0xFFFF_FFFF) as bv32 == (w & 0xFFFF_FFFF) as bv32;
  }

  /** Reading the key signed, as the code does, shows the same bytes as reading it unsigned. */
  lemma BytesOfSigned(b0: Byte, b1: Byte, b2: Byte, b3: Byte)
    ensures Bytes(UnpackSigned(b0, b1, b2, b3)) == Column(b0, b1, b2, b3)
  {
    hide Bytes, CompactWord;
    BytesOfWord(b0, b1, b2, b3);
    HighBitsUnseen(CompactWord(b0, b1, b2, b3), if b0 & 0x80 == 0 then 0 else 0xFFFF_FFFF_0000_0000);
  }

  // ---- Words of the code ----

  /** A Python integer that the code may hold for the four bytes c: in range, and showing just these bytes. */
  predicate IsWord(w: PyInt, c: Column) {
    Narrow(w) && Bytes(w) == c
  }

  lemma PackedIsWord(b0: Byte, b1: Byte, b2: Byte, b3: Byte)
    ensures IsWord(CompactWord(b0, b1, b2, b3), Column(b0, b1, b2, b3))
    ensures IsWord(UnpackSigned(b0, b1, b2, b3), Column(b0, b1, b2, b3))
  {
    hide Bytes, Narrow, CompactWord, UnpackSigned, Shl;
    PackedNarrow(b0, b1, b2, b3);
    BytesOfWord(b0, b1, b2, b3);
    BytesOfSigned(b0, b1, b2, b3);
  }

  lemma XorIsWord(a: PyInt, b: PyInt, c: Column, d: Column)
    requires IsWord(a, c) && IsWord(b, d)
    ensures IsWord(Xor(a, b), AddColumns(c, d))
  {
    hide Bytes, Narrow, Xor, AddColumns;
    NarrowStaysNarrow(a, b);
    BytesOfXor(a, b);
  }

  /** Four words added up, lane by lane. */
  lemma Xor4IsWord(w1: PyInt, w2: PyInt, w3: PyInt, w4: PyInt, c1: Column, c2: Column, c3: Column, c4: Column)
    requires IsWord(w1, c1) && IsWord(w2, c2) && IsWord(w3, c3) && IsWord(w4, c4)
    ensures IsWord(Xor4(w1, w2, w3, w4), AddColumns(AddColumns(AddColumns(c1, c2), c3), c4))
  {
    hide IsWord, AddColumns, Xor;
    XorIsWord(w1, w2, c1, c2);
    XorIsWord(Xor(w1, w2), w3, AddColumns(c1, c2), c3);
    XorIsWord(Xor(Xor(w1, w2), w3), w4, AddColumns(AddColumns(c1, c2), c3), c4);
  }

  /** The forward tables together compute MixColumns. */
  lemma ForwardTables(a: Byte, b: Byte, c: Byte, d: Byte)
    ensures IsWord(Xor4(V1(a), V2(b), V3(c), V4(d)), MixColumn(Column(a, b, c, d)))
  {
    hide IsWord, CompactWord, Xor4, Add, Mul2, Mul3;
    PackedIsWord(Mul2(a), a, a, Mul3(a));
    PackedIsWord(Mul3(b), Mul2(b), b, b);
    PackedIsWord(c, Mul3(c), Mul2(c), c);
    PackedIsWord(d, d, Mul3(d), Mul2(d));
    Xor4IsWord(V1(a), V2(b), V3(c), V4(d), Column(Mul2(a), a, a, Mul3(a)), Column(Mul3(b), Mul2(b), b, b),
               Column(c, Mul3(c), Mul2(c), c), Column(d, d, Mul3(d), Mul2(d)));
    SumRotates(a, Mul2(b), Mul3(c), d);
    SumRotates(a, b, Mul2(c), Mul3(d));
    SumRotates(b, Mul2(c), Mul3(d), a);
    SumRotates(Mul2(d), Mul3(a), b, c);
  }

  /** The decryption tables together compute InvMixColumns. */
  lemma InverseTables(a: Byte, b: Byte, c: Byte, d: Byte)
    ensures IsWord(Xor4(U1(a), U2(b), U3(c), U4(d)), InvMixColumn(Column(a, b, c, d)))
  {
    hide IsWord, CompactWord, Xor4, Add, Mul9, MulB, MulD, MulE;
    PackedIsWord(MulE(a), Mul9(a), MulD(a), MulB(a));
    PackedIsWord(MulB(b), MulE(b), Mul9(b), MulD(b));
    PackedIsWord(MulD(c), MulB(c), MulE(c), Mul9(c));
    PackedIsWord(Mul9(d), MulD(d), MulB(d), MulE(d));
    Xor4IsWord(U1(a), U2(b), U3(c), U4(d), Column(MulE(a), Mul9(a), MulD(a), MulB(a)),
               Column(MulB(b), MulE(b), Mul9(b), MulD(b)), Column(MulD(c), MulB(c), MulE(c), Mul9(c)),
               Column(Mul9(d), MulD(d), MulB(d), MulE(d)));
    SumRotates(Mul9(a), MulE(b), MulB(c), MulD(d));
    SumRotates(MulD(a), Mul9(b), MulE(c), MulB(d));
    SumRotates(Mul9(b), MulE(c), MulB(d), MulD(a));
    SumRotates(MulE(d), MulB(a), MulD(b), Mul9(c));
  }

  /** What the code sees of a word are its four bytes. */
  lemma SeenBytes(w: PyInt, c: Column)
    requires IsWord(w, c)
    ensures c == Column(Index(w, 24), Index(w, 16), Index(w, 8), Index(w, 0))
  {
    hide Index, Narrow;
  }
}
