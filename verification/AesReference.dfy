/**
  AES once more, byte by byte: section 5.1 and 5.2 of FIPS-197 on blocks and keys as plain byte sequences, with every
  number written out. It shares only the S-box and the field multiplication with the functions that the code is
  proved against.
*/
module AesReference {
  import opened Gf256
  import opened AesSbox
  import opened AesCipher
  import opened AesKeys

  type Block = s: seq<Byte> | |s| == 16 witness seq(16, _ => 0)

  function Substituted(s: Block): Block {
    seq(16, i requires 0 <= i < 16 => S(s[i]))
  }

  /** Byte i is in row i % 4; that row moves i % 4 columns to the left. */
  function Shifted(s: Block): Block {
    seq(16, i requires 0 <= i < 16 => s[(i + 4 * (i % 4)) % 16])
  }

  /** Byte i of a column gets 2, 3, 1 and 1 times the bytes of that column from its own place on. */
  function Mixed(s: Block): Block {
    seq(16, i requires 0 <= i < 16 => MixedByte(s, i / 4 * 4, i % 4))
  }

  function MixedByte(s: Block, c: nat, r: nat): Byte
    requires c <= 12 && r < 4
  {
    Lane(s[c + r], s[c + (r + 1) % 4], s[c + (r + 2) % 4], s[c + (r + 3) % 4])
  }

  function Lane(p: Byte, q: Byte, r: Byte, s: Byte): Byte {
    Times(2, p) ^ Times(3, q) ^ r ^ s
  }

  function Added(s: Block, k: Block): Block {
    seq(16, i requires 0 <= i < 16 => s[i] ^ k[i])
  }

  /** 10, 12 or 14. */
  function RoundCount(key: seq<Byte>): nat {
    if |key| == 16 then 10 else if |key| == 24 then 12 else 14
  }

  function RoundConstantByte(k: nat): Byte {
    if k == 1 then 0x01 else if k == 2 then 0x02 else if k == 3 then 0x04 else if k == 4 then 0x08
    else if k == 5 then 0x10 else if k == 6 then 0x20 else if k == 7 then 0x40 else if k == 8 then 0x80
    else if k == 9 then 0x1b else 0x36
  }

  /** Byte p of word i of the expanded key. */
  function KeyByte(key: seq<Byte>, i: nat, p: nat): Byte
    requires ValidKey(key) && p < 4
    decreases i
  {
    var nk := |key| / 4;
    if i < nk then key[4 * i + p]
    else
      var change :=
        if i % nk == 0 then S(KeyByte(key, i - 1, (p + 1) % 4)) ^ (if p == 0 then RoundConstantByte(i / nk) else 0)
        else if |key| == 32 && i % 8 == 4 then S(KeyByte(key, i - 1, p))
        else KeyByte(key, i - 1, p);
      KeyByte(key, i - nk, p) ^ change
  }

  /** Round key r: words 4r to 4r + 3. */
  function KeyBlock(key: seq<Byte>, r: nat): Block
    requires ValidKey(key)
  {
    seq(16, n requires 0 <= n < 16 => KeyByte(key, 4 * r + n / 4, n % 4))
  }

  function AfterRounds(key: seq<Byte>, block: Block, r: nat): Block
    requires ValidKey(key)
  {
    if r == 0 then Added(block, KeyBlock(key, 0))
    else Added(Mixed(Shifted(Substituted(AfterRounds(key, block, r - 1)))), KeyBlock(key, r))
  }

  function Enciphered(key: seq<Byte>, block: Block): Block
    requires ValidKey(key)
  {
    var n := RoundCount(key);
    Added(Shifted(Substituted(AfterRounds(key, block, n - 1))), KeyBlock(key, n))
  }

  // ---- The steps agree ----

  lemma SubstitutedAgrees(s: Block, c: nat)
    requires c < 4
    ensures KeyColumn(Substituted(s), c) == SubColumn(KeyColumn(s, c))
  {
    hide S;
  }

  lemma ShiftedAgrees(s: Block)
    ensures LoadState(Shifted(s)) == ShiftRows(LoadState(s))
  {
    hide KeyColumn, Shifted;
    ShiftedColumn(s, 0);
    ShiftedColumn(s, 1);
    ShiftedColumn(s, 2);
    ShiftedColumn(s, 3);
    KeyColumnIs(s, 0);
    KeyColumnIs(s, 1);
    KeyColumnIs(s, 2);
    KeyColumnIs(s, 3);
  }

  lemma KeyColumnIs(s: Block, c: nat)
    requires c < 4
    ensures KeyColumn(s, c) == Column(s[4 * c], s[4 * c + 1], s[4 * c + 2], s[4 * c + 3])
  {
  }

  lemma ShiftedColumn(s: Block, c: nat)
    requires c < 4
    ensures KeyColumn(Shifted(s), c) ==
            Column(s[4 * c], s[(4 * c + 5) % 16], s[(4 * c + 10) % 16], s[(4 * c + 15) % 16])
  {
  }

  lemma TimesAgrees(b: Byte)
    ensures Times(2, b) == Mul2(b) && Times(3, b) == Mul3(b)
  {
  }

  lemma LaneAgrees(p: Byte, q: Byte, r: Byte, s: Byte)
    ensures MixLane(p, q, r, s) == Lane(p, q, r, s)
  {
    hide Sum4, Times, Mul2, Mul3;
    TimesAgrees(p);
    TimesAgrees(q);
    Sum4Is(Mul2(p), Mul3(q), r, s);
  }

  lemma Sum4Is(a: Byte, b: Byte, c: Byte, d: Byte)
    ensures Sum4(a, b, c, d) == a ^ b ^ c ^ d
  {
  }

  lemma MixedAgrees(s: Block, c: nat)
    requires c < 4
    ensures KeyColumn(Mixed(s), c) == MixColumn(KeyColumn(s, c))
  {
    hide MixLane, Lane, Mixed, KeyColumn;
    MixedAt(s, c);
    KeyColumnIs(s, c);
    var (p, q, r, t) := (s[4 * c], s[4 * c + 1], s[4 * c + 2], s[4 * c + 3]);
    LaneAgrees(p, q, r, t);
    LaneAgrees(q, r, t, p);
    LaneAgrees(r, t, p, q);
    LaneAgrees(t, p, q, r);
  }

  lemma MixedAt(s: Block, c: nat)
    requires c < 4
    ensures KeyColumn(Mixed(s), c) ==
            Column(MixedByte(s, 4 * c, 0), MixedByte(s, 4 * c, 1), MixedByte(s, 4 * c, 2), MixedByte(s, 4 * c, 3))
  {
    hide MixedByte;
  }

  lemma AddedAgrees(s: Block, k: Block, c: nat)
    requires c < 4
    ensures KeyColumn(Added(s, k), c) == AddColumns(KeyColumn(s, c), KeyColumn(k, c))
  {
  }

  /** Adding a round key, after any of the steps. */
  lemma AdditionAgrees(s: Block, k: Block)
    ensures LoadState(Added(s, k)) == AddRoundKey(LoadState(s), LoadState(k))
  {
    hide KeyColumn, AddColumns, Added;
    AddedAgrees(s, k, 0);
    AddedAgrees(s, k, 1);
    AddedAgrees(s, k, 2);
    AddedAgrees(s, k, 3);
  }

  lemma SubstitutionAgrees(s: Block)
    ensures LoadState(Substituted(s)) == SubBytes(LoadState(s))
  {
    hide KeyColumn, SubColumn, Substituted;
    SubstitutedAgrees(s, 0);
    SubstitutedAgrees(s, 1);
    SubstitutedAgrees(s, 2);
    SubstitutedAgrees(s, 3);
  }

  lemma MixingAgrees(s: Block)
    ensures LoadState(Mixed(s)) == MixColumns(LoadState(s))
  {
    hide KeyColumn, MixColumn, Mixed;
    MixedAgrees(s, 0);
    MixedAgrees(s, 1);
    MixedAgrees(s, 2);
    MixedAgrees(s, 3);
  }

  // ---- The key schedule ----

  lemma ConstantAgrees(k: nat)
    requires 1 <= k <= 10
    ensures RoundConstantByte(k) == RoundConstant(k)
  {
    hide RoundConstant;
    RconTable(k - 1);
  }

  function KeyWord(key: seq<Byte>, i: nat): Column
    requires ValidKey(key)
  {
    Column(KeyByte(key, i, 0), KeyByte(key, i, 1), KeyByte(key, i, 2), KeyByte(key, i, 3))
  }

  lemma RotatedKeyByte(key: seq<Byte>, i: nat, p: nat, nk: nat, k: nat)
    requires ValidKey(key) && p < 4 && nk == |key| / 4 && i >= nk && i % nk == 0 && k == i / nk
    ensures KeyByte(key, i, p) == KeyByte(key, i - nk, p) ^
      (S(KeyByte(key, i - 1, (p + 1) % 4)) ^ (if p == 0 then RoundConstantByte(k) else 0))
  {
    hide S, RoundConstantByte;
  }

  lemma RotatedWord(key: seq<Byte>, i: nat, nk: nat, k: nat)
    requires ValidKey(key) && nk == |key| / 4 && i >= nk && i % nk == 0 && k == i / nk && 1 <= k <= 10
    ensures KeyWord(key, i) == AddColumns(KeyWord(key, i - nk),
      AddColumns(SubColumn(RotColumn(KeyWord(key, i - 1))), Column(RoundConstant(k), 0, 0, 0)))
  {
    hide S, RoundConstant, RoundConstantByte, KeyByte, ValidKey;
    ConstantAgrees(k);
    RotatedKeyByte(key, i, 0, nk, k);
    RotatedKeyByte(key, i, 1, nk, k);
    RotatedKeyByte(key, i, 2, nk, k);
    RotatedKeyByte(key, i, 3, nk, k);
  }

  lemma OtherKeyByte(key: seq<Byte>, i: nat, p: nat, nk: nat)
    requires ValidKey(key) && p < 4 && nk == |key| / 4 && i >= nk && i % nk != 0
    ensures KeyByte(key, i, p) == KeyByte(key, i - nk, p) ^
      if nk > 6 && i % nk == 4 then S(KeyByte(key, i - 1, p)) else KeyByte(key, i - 1, p)
  {
    hide S;
  }

  lemma OtherWord(key: seq<Byte>, i: nat, nk: nat)
    requires ValidKey(key) && nk == |key| / 4 && i >= nk && i % nk != 0
    ensures KeyWord(key, i) == AddColumns(KeyWord(key, i - nk),
      if nk > 6 && i % nk == 4 then SubColumn(KeyWord(key, i - 1)) else KeyWord(key, i - 1))
  {
    hide S, KeyByte, ValidKey;
    OtherKeyByte(key, i, 0, nk);
    OtherKeyByte(key, i, 1, nk);
    OtherKeyByte(key, i, 2, nk);
    OtherKeyByte(key, i, 3, nk);
  }

  /** Every word that a cipher can use. */
  lemma {:induction false} WordAgrees(key: seq<Byte>, i: nat)
    requires ValidKey(key) && i < 11 * (|key| / 4)
    ensures Word(key, i) == KeyWord(key, i)
  {
    hide AddColumns, SubColumn, RotColumn, RoundConstant, KeyByte;
    var nk := |key| / 4;
    if i >= nk {
      hide KeyWord;
      WordAgrees(key, i - 1);
      WordAgrees(key, i - nk);
      if i % nk == 0 {
        ConstantIndex(nk, i);
        RotatedWord(key, i, nk, i / nk);
      } else {
        OtherWord(key, i, nk);
      }
    } else {
      FirstKeyWord(key, i);
    }
  }

  lemma FirstKeyWord(key: seq<Byte>, i: nat)
    requires ValidKey(key) && i < |key| / 4
    ensures KeyWord(key, i) == KeyColumn(key, i)
  {
  }

  lemma ConstantIndex(nk: nat, i: nat)
    requires nk == 4 || nk == 6 || nk == 8
    requires nk <= i < 11 * nk
    ensures 1 <= i / nk <= 10
  {
  }

  lemma KeyBlockAgrees(key: seq<Byte>, r: nat)
    requires ValidKey(key) && r <= Rounds(key)
    ensures LoadState(KeyBlock(key, r)) == RoundKey(key, r)
  {
    hide KeyByte, Word;
    WordAgrees(key, 4 * r);
    WordAgrees(key, 4 * r + 1);
    WordAgrees(key, 4 * r + 2);
    WordAgrees(key, 4 * r + 3);
  }

  // ---- The ciphers agree ----

  lemma {:induction false} RoundsAgree(key: seq<Byte>, block: Block, r: nat)
    requires ValidKey(key) && r <= Rounds(key)
    ensures LoadState(AfterRounds(key, block, r)) == CipherRounds(LoadState(block), Schedule(key), r)
  {
    hide LoadState, AddRoundKey, MixColumns, ShiftRows, SubBytes, Added, Mixed, Shifted, Substituted;
    hide KeyBlock, RoundKey;
    KeyBlockAgrees(key, r);
    if r == 0 {
      AdditionAgrees(block, KeyBlock(key, 0));
    } else {
      RoundsAgree(key, block, r - 1);
      var s := AfterRounds(key, block, r - 1);
      SubstitutionAgrees(s);
      ShiftedAgrees(Substituted(s));
      MixingAgrees(Shifted(Substituted(s)));
      AdditionAgrees(Mixed(Shifted(Substituted(s))), KeyBlock(key, r));
    }
  }

  /** The cipher that the code computes is this one, for every key of the three lengths and every block. */
  lemma EncryptBlockIsReference(key: seq<Byte>, block: Block)
    requires ValidKey(key)
    ensures EncryptBlock(key, block) == Enciphered(key, block)
  {
    hide LoadState, StoreState, AddRoundKey, MixColumns, ShiftRows, SubBytes, Added, Mixed, Shifted, Substituted;
    hide KeyBlock, RoundKey, AfterRounds, CipherRounds;
    var n := Rounds(key);
    RoundsAgree(key, block, n - 1);
    KeyBlockAgrees(key, n);
    var s := AfterRounds(key, block, n - 1);
    SubstitutionAgrees(s);
    ShiftedAgrees(Substituted(s));
    AdditionAgrees(Shifted(Substituted(s)), KeyBlock(key, n));
    StoreLoad(Enciphered(key, block));
  }
}
