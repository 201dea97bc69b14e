/**
  The AES object of ktool.py: key expansion in place, and the two table-driven block operations, each
  proved against the FIPS-197 functions.
*/
module KtoolAes {
  import opened Gf256
  import opened AesSbox
  import opened AesCipher
  import opened AesKeys
  import opened PyWords
  import opened Outcome

  // ---- The key expansion of AES.__init__ ----

  /** SubWord of RotWord of the last key word, plus the round constant, as one Python integer. */
  function RotSubRcon(tt: PyInt, rcon: Byte): PyInt {
    Xor(Xor4(Shl(S(Index(tt, 16)), 24), Shl(S(Index(tt, 8)), 16), Shl(S(Index(tt, 0)), 8), Shl(S(Index(tt, 24)), 0)),
        Shl(rcon, 24))
  }

  /** SubWord of a key word, as one Python integer. */
  function SubPacked(tt: PyInt): PyInt {
    Xor4(Shl(S(Index(tt, 0)), 0), Shl(S(Index(tt, 8)), 8), Shl(S(Index(tt, 16)), 16), Shl(S(Index(tt, 24)), 24))
  }

  lemma PackUp(a: Byte, b: Byte, c: Byte, d: Byte)
    ensures Xor4(Shl(a, 24), Shl(b, 16), Shl(c, 8), Shl(d, 0)) == CompactWord(a, b, c, d)
  {
    assert ((((a as PyInt) << 24) ^ ((b as PyInt) << 16)) ^ ((c as PyInt) << 8)) ^ ((d as PyInt) << 0)
        == ((a as PyInt) << 24) | ((b as PyInt) << 16) | ((c as PyInt) << 8) | (d as PyInt);
  }

  lemma XorCommutes(a: PyInt, b: PyInt)
    ensures Xor(a, b) == Xor(b, a)
  {
  }

  lemma XorAssociates(a: PyInt, b: PyInt, c: PyInt)
    ensures Xor(Xor(a, b), c) == Xor(a, Xor(b, c))
  {
    assert (a ^ b) ^ c == a ^ (b ^ c);
  }

  lemma Xor4Reverses(a: PyInt, b: PyInt, c: PyInt, d: PyInt)
    ensures Xor4(d, c, b, a) == Xor4(a, b, c, d)
  {
    hide Xor;
    XorCommutes(d, c);
    XorCommutes(Xor(c, d), b);
    XorCommutes(Xor(b, Xor(c, d)), a);
    XorAssociates(a, b, Xor(c, d));
    XorAssociates(Xor(a, b), c, d);
  }

  lemma PackDown(a: Byte, b: Byte, c: Byte, d: Byte)
    ensures Xor4(Shl(d, 0), Shl(c, 8), Shl(b, 16), Shl(a, 24)) == CompactWord(a, b, c, d)
  {
    hide Shl, CompactWord, Xor4;
    Xor4Reverses(Shl(a, 24), Shl(b, 16), Shl(c, 8), Shl(d, 0));
    PackUp(a, b, c, d);
  }

  lemma PackTop(a: Byte)
    ensures Shl(a, 24) == CompactWord(a, 0, 0, 0)
  {
  }

  lemma ScheduleWords(tt: PyInt, rcon: Byte)
    ensures IsWord(RotSubRcon(tt, rcon), AddColumns(SubColumn(RotColumn(Bytes(tt))), Column(rcon, 0, 0, 0)))
    ensures IsWord(SubPacked(tt), SubColumn(Bytes(tt)))
  {
    hide S, Index, CompactWord, AddColumns, Xor, Xor4, Shl, IsWord;
    var (b0, b1, b2, b3) := (S(Index(tt, 24)), S(Index(tt, 16)), S(Index(tt, 8)), S(Index(tt, 0)));
    PackUp(b1, b2, b3, b0);
    PackDown(b0, b1, b2, b3);
    PackTop(rcon);
    PackedIsWord(b1, b2, b3, b0);
    PackedIsWord(b0, b1, b2, b3);
    PackedIsWord(rcon, 0, 0, 0);
    XorIsWord(CompactWord(b1, b2, b3, b0), CompactWord(rcon, 0, 0, 0), Column(b1, b2, b3, b0), Column(rcon, 0, 0, 0));
  }

  /** Words 0 to i-1 of tk belong to batch m + 1 of the key schedule already, the others still to batch m. */
  ghost predicate Advanced(key: seq<Byte>, tk: seq<PyInt>, m: nat, i: nat)
    requires ValidKey(key)
  {
    var nk := |key| / 4;
    && |tk| == nk
    && (forall j :: 0 <= j < i && j < nk ==> IsWord(tk[j], Word(key, nk * (m + 1) + j)))
    && (forall j :: i <= j < nk ==> IsWord(tk[j], Word(key, nk * m + j)))
  }

  lemma AdvanceFirst(key: seq<Byte>, tk: seq<PyInt>, m: nat)
    requires ValidKey(key) && m < 10
    requires Advanced(key, tk, m, 0)
    ensures Advanced(key, tk[0 := Xor(tk[0], RotSubRcon(tk[|tk| - 1], RCON[m]))], m, 1)
  {
    hide Bytes, Xor, RotSubRcon, AddColumns, SubColumn, RotColumn, Word;
    var tt := tk[|tk| - 1];
    RconTable(m);
    ScheduleWords(tt, RCON[m]);
    XorIsWord(tk[0], RotSubRcon(tt, RCON[m]), Bytes(tk[0]), Bytes(RotSubRcon(tt, RCON[m])));
    WordStep(key, m, 0);
    assert |tk| * m + (|tk| - 1) == |tk| * (m + 1) - 1;
  }

  lemma AdvancePlain(key: seq<Byte>, tk: seq<PyInt>, m: nat, i: nat)
    requires ValidKey(key)
    requires 1 <= i < |key| / 4 && !(|key| / 4 == 8 && i == 4)
    requires Advanced(key, tk, m, i)
    ensures Advanced(key, tk[i := Xor(tk[i], tk[i - 1])], m, i + 1)
  {
    hide Bytes, Xor, AddColumns, SubColumn, RotColumn, Word;
    XorIsWord(tk[i], tk[i - 1], Bytes(tk[i]), Bytes(tk[i - 1]));
    WordStep(key, m, i);
  }

  lemma AdvanceMiddle(key: seq<Byte>, tk: seq<PyInt>, m: nat)
    requires ValidKey(key) && |key| == 32
    requires Advanced(key, tk, m, 4)
    ensures Advanced(key, tk[4 := Xor(tk[4], SubPacked(tk[3]))], m, 5)
  {
    hide Bytes, Xor, SubPacked, AddColumns, SubColumn, RotColumn, Word;
    ScheduleWords(tk[3], 0);
    XorIsWord(tk[4], SubPacked(tk[3]), Bytes(tk[4]), Bytes(SubPacked(tk[3])));
    WordStep(key, m, 4);
  }

  /** One pass of the outer loop: tk advances in place from one batch of key words to the next. */
  method NextBatch(tk: array<PyInt>, rconpointer: nat, ghost key: seq<Byte>)
    requires ValidKey(key)
    requires rconpointer < 10
    requires Advanced(key, tk[..], rconpointer, 0)
    modifies tk
    ensures Advanced(key, tk[..], rconpointer + 1, 0)
  {
    hide IsWord, Xor, SubPacked, RotSubRcon, Word;
    var KC := tk.Length;
    var tt := tk[KC - 1];
    AdvanceFirst(key, tk[..], rconpointer);
    tk[0] := Xor(tk[0], RotSubRcon(tt, RCON[rconpointer]));
    if KC != 8 {
      for i := 1 to KC
        invariant Advanced(key, tk[..], rconpointer, i)
      {
        AdvancePlain(key, tk[..], rconpointer, i);
        tk[i] := Xor(tk[i], tk[i - 1]);
      }
    } else {
      for i := 1 to KC / 2
        invariant Advanced(key, tk[..], rconpointer, i)
      {
        AdvancePlain(key, tk[..], rconpointer, i);
        tk[i] := Xor(tk[i], tk[i - 1]);
      }
      tt := tk[KC / 2 - 1];
      AdvanceMiddle(key, tk[..], rconpointer);
      tk[KC / 2] := Xor(tk[KC / 2], SubPacked(tt));
      for i := KC / 2 + 1 to KC
        invariant Advanced(key, tk[..], rconpointer, i)
      {
        AdvancePlain(key, tk[..], rconpointer, i);
        tk[i] := Xor(tk[i], tk[i - 1]);
      }
    }
  }

  /** The first t words of the key schedule are in ke, and in kd with the round order reversed. */
  ghost predicate Filled(ke: array2<PyInt>, kd: array2<PyInt>, key: seq<Byte>, t: nat)
    requires ValidKey(key)
    reads ke, kd
  {
    var n := Rounds(key);
    && ke.Length0 == kd.Length0 == n + 1 && ke.Length1 == kd.Length1 == 4 && ke != kd
    && (forall r, i :: 0 <= r <= n && 0 <= i < 4 && 4 * r + i < t ==> IsWord(ke[r, i], Word(key, 4 * r + i)))
    && (forall r, i :: 0 <= r <= n && 0 <= i < 4 && 4 * (n - r) + i < t ==> kd[r, i] == ke[n - r, i])
  }

  /** self._Ke[t // 4][t % 4] = w; self._Kd[rounds - (t // 4)][t % 4] = w */
  method StoreWord(ke: array2<PyInt>, kd: array2<PyInt>, t: nat, w: PyInt, ghost key: seq<Byte>)
    requires ValidKey(key)
    requires t < 4 * (Rounds(key) + 1)
    requires Filled(ke, kd, key, t)
    requires IsWord(w, Word(key, t))
    modifies ke, kd
    ensures Filled(ke, kd, key, t + 1)
  {
    hide IsWord, Word;
    var rounds := ke.Length0 - 1;
    ke[t / 4, t % 4] := w;
    kd[rounds - t / 4, t % 4] := w;
  }

  lemma KeyWord(key: seq<Byte>, i: nat)
    requires ValidKey(key) && i < |key| / 4
    ensures Word(key, i) == KeyColumn(key, i)
  {
  }

  /** tk = [struct.unpack('>i', key[i:i + 4])[0] for i in range(0, len(key), 4)] */
  method LoadKey(key: seq<Byte>) returns (tk: array<PyInt>)
    requires ValidKey(key)
    ensures fresh(tk) && Advanced(key, tk[..], 0, 0)
  {
    hide IsWord, Word, UnpackSigned;
    var KC := |key| / 4;
    tk := new PyInt[KC](_ => 0);
    for i := 0 to KC
      invariant forall j :: 0 <= j < i ==> IsWord(tk[j], Word(key, j))
    {
      PackedIsWord(key[4 * i], key[4 * i + 1], key[4 * i + 2], key[4 * i + 3]);
      KeyWord(key, i);
      tk[i] := UnpackSigned(key[4 * i], key[4 * i + 1], key[4 * i + 2], key[4 * i + 3]);
    }
  }

  /** The copying loop at the end of a pass; it stops early when both tables are full. */
  method CopyBatch(ke: array2<PyInt>, kd: array2<PyInt>, tk: array<PyInt>, start: nat, m: nat, ghost key: seq<Byte>)
      returns (t: nat)
    requires ValidKey(key) && tk.Length == |key| / 4
    requires start == tk.Length * m <= 4 * (Rounds(key) + 1)
    requires Filled(ke, kd, key, start)
    requires Advanced(key, tk[..], m, 0)
    modifies ke, kd
    ensures Filled(ke, kd, key, t)
    ensures t == if start + tk.Length <= 4 * (Rounds(key) + 1) then start + tk.Length else 4 * (Rounds(key) + 1)
  {
    hide IsWord, Word;
    var j := 0;
    t := start;
    while j < tk.Length && t < 4 * ke.Length0
      invariant 0 <= j <= tk.Length && t == start + j <= 4 * ke.Length0
      invariant Filled(ke, kd, key, t)
      invariant Advanced(key, tk[..], m, 0)
    {
      assert IsWord(tk[..][j], Word(key, tk.Length * m + j));
      StoreWord(ke, kd, t, tk[j], key);
      j := j + 1;
      t := t + 1;
    }
  }

  /** While words are missing, at most ten batches have been made: the round constants do not run out. */
  lemma BatchBound(nk: nat, m: nat)
    requires nk == 4 || nk == 6 || nk == 8
    requires nk * (m + 1) < 4 * (nk + 7)
    ensures m < 10
    ensures nk * (m + 1) + nk == nk * (m + 2)
  {
  }

  /** The key expansion loop: every word of both tables is filled, also when the last batch is cut off. */
  method ExpandKey(key: seq<Byte>) returns (ke: array2<PyInt>, kd: array2<PyInt>)
    requires ValidKey(key)
    ensures fresh(ke) && fresh(kd)
    ensures Filled(ke, kd, key, 4 * (Rounds(key) + 1))
  {
    hide IsWord, Word;
    var rounds := Rounds(key);
    ke := new PyInt[rounds + 1, 4]((_, _) => 0);
    kd := new PyInt[rounds + 1, 4]((_, _) => 0);
    var count := (rounds + 1) * 4;
    var tk := LoadKey(key);
    var KC := tk.Length;
    var t := CopyBatch(ke, kd, tk, 0, 0, key);
    var rconpointer := 0;
    while t < count
      invariant fresh(ke) && fresh(kd) && fresh(tk) && KC == tk.Length == |key| / 4
      invariant Filled(ke, kd, key, t)
      invariant t <= count
      invariant t < count ==> t == KC * (rconpointer + 1) && Advanced(key, tk[..], rconpointer, 0)
      decreases count - t
    {
      BatchBound(KC, rconpointer);
      NextBatch(tk, rconpointer, key);
      rconpointer := rconpointer + 1;
      t := CopyBatch(ke, kd, tk, t, rconpointer, key);
    }
  }

  /** The entry of the decryption table that section 5.3.5 asks for at round r, column i. */
  ghost function InverseWord(key: seq<Byte>, r: nat, i: nat): Column
    requires ValidKey(key) && r <= Rounds(key) && i < 4
  {
    At(InverseRoundKey(key, r), i)
  }

  /** The U-table pass has been made for the places before row r, column j. */
  ghost predicate Inverted(kd: array2<PyInt>, key: seq<Byte>, r: nat, j: nat)
    requires ValidKey(key)
    reads kd
  {
    var n := Rounds(key);
    && kd.Length0 == n + 1 && kd.Length1 == 4
    && forall q, i :: 0 <= q <= n && 0 <= i < 4 ==>
         IsWord(kd[q, i], if q < r || (q == r && i < j) then InverseWord(key, q, i) else Word(key, 4 * (n - q) + i))
  }

  lemma InverseWordAt(key: seq<Byte>, r: nat, i: nat)
    requires ValidKey(key) && r <= Rounds(key) && i < 4
    ensures InverseWord(key, r, i) ==
      if r == 0 || r == Rounds(key) then Word(key, 4 * (Rounds(key) - r) + i)
      else InvMixColumn(Word(key, 4 * (Rounds(key) - r) + i))
  {
    hide InvMixColumn, Word;
  }

  /** The last loop of AES.__init__: all rows of kd but the outer two go through InvMixColumns, in place. */
  method InvertKeys(kd: array2<PyInt>, ghost key: seq<Byte>)
    requires ValidKey(key)
    requires kd.Length0 == Rounds(key) + 1 && kd.Length1 == 4
    requires Inverted(kd, key, 0, 0)
    modifies kd
    ensures Inverted(kd, key, Rounds(key) + 1, 0)
  {
    hide IsWord, Word, Xor, Xor4, U1, U2, U3, U4, InvMixColumn, InverseWord;
    var rounds := kd.Length0 - 1;
    assert Inverted(kd, key, 1, 0) by {
      forall i | 0 <= i < 4 ensures InverseWord(key, 0, i) == Word(key, 4 * rounds + i) {
        InverseWordAt(key, 0, i);
      }
    }
    for r := 1 to rounds
      invariant Inverted(kd, key, r, 0)
    {
      for j := 0 to 4
        invariant Inverted(kd, key, r, j)
      {
        var tt := kd[r, j];
        InverseWordAt(key, r, j);
        InverseTables(Index(tt, 24), Index(tt, 16), Index(tt, 8), Index(tt, 0));
        SeenBytes(tt, Word(key, 4 * (rounds - r) + j));
        kd[r, j] := Xor4(U1(Index(tt, 24)), U2(Index(tt, 16)), U3(Index(tt, 8)), U4(Index(tt, 0)));
      }
    }
    forall i | 0 <= i < 4 ensures InverseWord(key, rounds, i) == Word(key, i) {
      InverseWordAt(key, rounds, i);
    }
  }

  // ---- The object and its two block operations ----

  /** All of ke holds the forward key schedule. */
  ghost predicate ForwardKeys(ke: array2<PyInt>, key: seq<Byte>)
    requires ValidKey(key)
    reads ke
  {
    && ke.Length0 == Rounds(key) + 1 && ke.Length1 == 4
    && forall r, i :: 0 <= r <= Rounds(key) && 0 <= i < 4 ==> IsWord(ke[r, i], Word(key, 4 * r + i))
  }

  /** All of kd holds the key schedule of the equivalent inverse cipher. */
  ghost predicate InverseKeys(kd: array2<PyInt>, key: seq<Byte>)
    requires ValidKey(key)
    reads kd
  {
    && kd.Length0 == Rounds(key) + 1 && kd.Length1 == 4
    && forall r, i :: 0 <= r <= Rounds(key) && 0 <= i < 4 ==> IsWord(kd[r, i], InverseWord(key, r, i))
  }

  /** The four words are those of the state s. */
  ghost predicate Shows(t: seq<PyInt>, s: State) {
    |t| == 4 && forall i :: 0 <= i < 4 ==> IsWord(t[i], At(s, i))
  }

  /** (sb ^ (tt >> k)) & 0xFF */
  function LastByte(sb: Byte, tt: PyInt, k: nat): Byte
    requires k == 0 || k == 8 || k == 16 || k == 24
  {
    (Xor(sb as PyInt, Shr(tt, k)) & 0xFF) as Byte
  }

  lemma LastByteAdds(sb: Byte, tt: PyInt, k: nat)
    requires k == 0 || k == 8 || k == 16 || k == 24
    ensures LastByte(sb, tt, k) == Add(sb, Index(tt, k))
  {
    hide Shr;
    var x := Shr(tt, k);
    assert (((sb as PyInt) ^ x) & 0xFF) as Byte == sb ^ ((x & 0xFF) as Byte);
  }

  lemma ShiftedSub(s: State, i: nat)
    requires i < 4
    ensures At(ShiftRows(SubBytes(s)), i)
         == Column(S(At(s, i).b0), S(At(s, (i + 1) % 4).b1), S(At(s, (i + 2) % 4).b2), S(At(s, (i + 3) % 4).b3))
    ensures At(InvShiftRows(InvSubBytes(s)), i)
         == Column(Si(At(s, i).b0), Si(At(s, (i + 3) % 4).b1), Si(At(s, (i + 2) % 4).b2), Si(At(s, (i + 1) % 4).b3))
  {
    hide S, Si;
    if i == 0 {
    } else if i == 1 {
    } else if i == 2 {
    } else {
    }
  }

  lemma AtRound(s: State, k: State, i: nat)
    requires i < 4
    ensures At(AddRoundKey(MixColumns(s), k), i) == AddColumns(MixColumn(At(s, i)), At(k, i))
    ensures At(AddRoundKey(InvMixColumns(s), k), i) == AddColumns(InvMixColumn(At(s, i)), At(k, i))
    ensures At(AddRoundKey(s, k), i) == AddColumns(At(s, i), At(k, i))
  {
    hide AddColumns, MixColumn, InvMixColumn;
  }

  /** One column of a middle round of encryption: T1[..] ^ T2[..] ^ T3[..] ^ T4[..] ^ Ke[r][i]. */
  function EncryptWord(w0: PyInt, w1: PyInt, w2: PyInt, w3: PyInt, k: PyInt): PyInt {
    Xor(Xor4(T1(Index(w0, 24)), T2(Index(w1, 16)), T3(Index(w2, 8)), T4(Index(w3, 0))), k)
  }

  /** One column of a middle round of decryption: T5[..] ^ T6[..] ^ T7[..] ^ T8[..] ^ Kd[r][i]. */
  function DecryptWord(w0: PyInt, w1: PyInt, w2: PyInt, w3: PyInt, k: PyInt): PyInt {
    Xor(Xor4(T5(Index(w0, 24)), T6(Index(w1, 16)), T7(Index(w2, 8)), T8(Index(w3, 0))), k)
  }

  lemma RoundWords(w0: PyInt, w1: PyInt, w2: PyInt, w3: PyInt, k: PyInt, kc: Column)
    requires IsWord(k, kc)
    ensures var (a, b, c, d) := (Index(w0, 24), Index(w1, 16), Index(w2, 8), Index(w3, 0));
            && IsWord(EncryptWord(w0, w1, w2, w3, k), AddColumns(MixColumn(Column(S(a), S(b), S(c), S(d))), kc))
            && IsWord(DecryptWord(w0, w1, w2, w3, k), AddColumns(InvMixColumn(Column(Si(a), Si(b), Si(c), Si(d))), kc))
  {
    hide S, Si, V1, V2, V3, V4, U1, U2, U3, U4, Xor, Xor4, Index, IsWord, MixColumn, InvMixColumn, AddColumns;
    var (a, b, c, d) := (Index(w0, 24), Index(w1, 16), Index(w2, 8), Index(w3, 0));
    ForwardTables(S(a), S(b), S(c), S(d));
    InverseTables(Si(a), Si(b), Si(c), Si(d));
    XorIsWord(Xor4(T1(a), T2(b), T3(c), T4(d)), k, MixColumn(Column(S(a), S(b), S(c), S(d))), kc);
    XorIsWord(Xor4(T5(a), T6(b), T7(c), T8(d)), k, InvMixColumn(Column(Si(a), Si(b), Si(c), Si(d))), kc);
  }

  /** The bytes that the code indexes the tables with. */
  lemma IndicesAre(t: seq<PyInt>, s: State, i: nat)
    requires Shows(t, s) && i < 4
    ensures At(s, i) == Column(Index(t[i], 24), Index(t[i], 16), Index(t[i], 8), Index(t[i], 0))
  {
    hide Index, At, IsWord;
    SeenBytes(t[i], At(s, i));
  }

  /** A full round of encryption, column i. */
  lemma EncryptColumn(t: seq<PyInt>, s: State, i: nat, k: PyInt, rk: State)
    requires Shows(t, s) && i < 4 && IsWord(k, At(rk, i))
    ensures IsWord(EncryptWord(t[i], t[(i + 1) % 4], t[(i + 2) % 4], t[(i + 3) % 4], k),
                   At(AddRoundKey(MixColumns(ShiftRows(SubBytes(s))), rk), i))
  {
    hide S, EncryptWord, IsWord, Shows, MixColumn, MixColumns, AddColumns, ShiftRows, SubBytes, AddRoundKey, At, Index;
    assert |t| == 4 by { FourWords(t, s); }
    RoundWords(t[i], t[(i + 1) % 4], t[(i + 2) % 4], t[(i + 3) % 4], k, At(rk, i));
    IndicesAre(t, s, i);
    IndicesAre(t, s, (i + 1) % 4);
    IndicesAre(t, s, (i + 2) % 4);
    IndicesAre(t, s, (i + 3) % 4);
    ShiftedSub(s, i);
    AtRound(ShiftRows(SubBytes(s)), rk, i);
  }

  lemma FourWords(t: seq<PyInt>, s: State)
    requires Shows(t, s)
    ensures |t| == 4
  {
  }

  /** A full round of decryption, column i. */
  lemma DecryptColumn(t: seq<PyInt>, s: State, i: nat, k: PyInt, rk: State)
    requires Shows(t, s) && i < 4 && IsWord(k, At(rk, i))
    ensures IsWord(DecryptWord(t[i], t[(i + 3) % 4], t[(i + 2) % 4], t[(i + 1) % 4], k),
                   At(AddRoundKey(InvMixColumns(InvShiftRows(InvSubBytes(s))), rk), i))
  {
    hide Si, DecryptWord, IsWord, Shows, InvMixColumn, InvMixColumns, AddColumns, InvShiftRows, InvSubBytes;
    hide AddRoundKey, At, Index;
    assert |t| == 4 by { FourWords(t, s); }
    RoundWords(t[i], t[(i + 3) % 4], t[(i + 2) % 4], t[(i + 1) % 4], k, At(rk, i));
    IndicesAre(t, s, i);
    IndicesAre(t, s, (i + 1) % 4);
    IndicesAre(t, s, (i + 2) % 4);
    IndicesAre(t, s, (i + 3) % 4);
    ShiftedSub(s, i);
    AtRound(InvShiftRows(InvSubBytes(s)), rk, i);
  }

  lemma KeyAt(key: seq<Byte>, r: nat, i: nat)
    requires ValidKey(key) && r <= Rounds(key) && i < 4
    ensures Schedule(key)[r] == RoundKey(key, r)
    ensures At(RoundKey(key, r), i) == Word(key, 4 * r + i)
    ensures InverseSchedule(key)[r] == InverseRoundKey(key, r)
  {
    hide Word, InverseRoundKey;
  }

  /** AES._compact_word of the bytes of column i. */
  function BlockWord(block: seq<Byte>, i: nat): PyInt
    requires |block| == 16 && i < 4
  {
    CompactWord(block[4 * i], block[4 * i + 1], block[4 * i + 2], block[4 * i + 3])
  }

  lemma LoadAt(block: seq<Byte>, i: nat)
    requires |block| == 16 && i < 4
    ensures At(LoadState(block), i) == KeyColumn(block, i)
  {
  }

  lemma LoadColumn(block: seq<Byte>, i: nat, k: PyInt, rk: State)
    requires |block| == 16 && i < 4 && IsWord(k, At(rk, i))
    ensures IsWord(Xor(BlockWord(block, i), k), At(AddRoundKey(LoadState(block), rk), i))
  {
    hide IsWord, Xor, CompactWord, AddColumns, AddRoundKey, LoadState, At;
    PackedIsWord(block[4 * i], block[4 * i + 1], block[4 * i + 2], block[4 * i + 3]);
    XorIsWord(BlockWord(block, i), k, KeyColumn(block, i), At(rk, i));
    LoadAt(block, i);
    AtRound(LoadState(block), rk, i);
  }

  /** The four bytes that the special last round appends for column i. */
  lemma LastColumn(t: seq<PyInt>, s: State, i: nat, tt: PyInt, rk: State)
    requires Shows(t, s) && i < 4 && IsWord(tt, At(rk, i))
    ensures ColumnBytes(At(AddRoundKey(ShiftRows(SubBytes(s)), rk), i)) ==
      [LastByte(S(Index(t[i], 24)), tt, 24), LastByte(S(Index(t[(i + 1) % 4], 16)), tt, 16),
       LastByte(S(Index(t[(i + 2) % 4], 8)), tt, 8), LastByte(S(Index(t[(i + 3) % 4], 0)), tt, 0)]
    ensures ColumnBytes(At(AddRoundKey(InvShiftRows(InvSubBytes(s)), rk), i)) ==
      [LastByte(Si(Index(t[i], 24)), tt, 24), LastByte(Si(Index(t[(i + 3) % 4], 16)), tt, 16),
       LastByte(Si(Index(t[(i + 2) % 4], 8)), tt, 8), LastByte(Si(Index(t[(i + 1) % 4], 0)), tt, 0)]
  {
    hide S, Si, Index, LastByte, Add, IsWord, ShiftRows, SubBytes, InvShiftRows, InvSubBytes, AddRoundKey, At;
    ShiftedSub(s, i);
    AtRound(ShiftRows(SubBytes(s)), rk, i);
    AtRound(InvShiftRows(InvSubBytes(s)), rk, i);
    SeenBytes(tt, At(rk, i));
    IndicesAre(t, s, i);
    IndicesAre(t, s, (i + 1) % 4);
    IndicesAre(t, s, (i + 2) % 4);
    IndicesAre(t, s, (i + 3) % 4);
    LastByteAdds(S(Index(t[i], 24)), tt, 24);
    LastByteAdds(S(Index(t[(i + 1) % 4], 16)), tt, 16);
    LastByteAdds(S(Index(t[(i + 2) % 4], 8)), tt, 8);
    LastByteAdds(S(Index(t[(i + 3) % 4], 0)), tt, 0);
    LastByteAdds(Si(Index(t[i], 24)), tt, 24);
    LastByteAdds(Si(Index(t[(i + 3) % 4], 16)), tt, 16);
    LastByteAdds(Si(Index(t[(i + 2) % 4], 8)), tt, 8);
    LastByteAdds(Si(Index(t[(i + 1) % 4], 0)), tt, 0);
  }

  class AES {
    ghost const key: seq<Byte>
    const Ke: array2<PyInt>
    const Kd: array2<PyInt>

    ghost predicate Valid()
      reads Ke, Kd
    {
      ValidKey(key) && ForwardKeys(Ke, key) && InverseKeys(Kd, key)
    }

    constructor (key: seq<Byte>)
      requires ValidKey(key)
      ensures Valid() && this.key == key && fresh(Ke) && fresh(Kd)
      ensures Ke.Length0 == Kd.Length0 == if |key| == 16 then 11 else if |key| == 24 then 13 else 15
    {
      hide IsWord, Word, InverseWord;
      this.key := key;
      var ke, kd := ExpandKey(key);
      InvertKeys(kd, key);
      Ke := ke;
      Kd := kd;
    }

    /** The four words of a block, with the first round key added. */
    method LoadBlock(block: seq<Byte>, K: array2<PyInt>, ghost rk: State) returns (t: seq<PyInt>)
      requires |block| == 16
      requires K.Length0 > 0 && K.Length1 == 4
      requires forall i :: 0 <= i < 4 ==> IsWord(K[0, i], At(rk, i))
      ensures Shows(t, AddRoundKey(LoadState(block), rk))
    {
      hide IsWord, BlockWord, Xor, AddRoundKey, LoadState, At;
      t := [];
      for i := 0 to 4
        invariant |t| == i
        invariant forall j :: 0 <= j < i ==> IsWord(t[j], At(AddRoundKey(LoadState(block), rk), j))
      {
        LoadColumn(block, i, K[0, i], rk);
        t := t + [Xor(BlockWord(block, i), K[0, i])];
      }
    }

    /** The inner loop of encrypt: one middle round. */
    method EncryptRound(t: seq<PyInt>, r: nat, ghost s: State) returns (t': seq<PyInt>)
      requires Valid()
      requires r < Ke.Length0 && Shows(t, s)
      ensures Shows(t', AddRoundKey(MixColumns(ShiftRows(SubBytes(s))), RoundKey(key, r)))
    {
      hide IsWord, EncryptWord, Word, RoundKey, AddRoundKey, MixColumns, ShiftRows, SubBytes, At;
      var a := new PyInt[4](_ => 0);
      ghost var next := AddRoundKey(MixColumns(ShiftRows(SubBytes(s))), RoundKey(key, r));
      for i := 0 to 4
        invariant forall j :: 0 <= j < i ==> IsWord(a[j], At(next, j))
      {
        KeyAt(key, r, i);
        EncryptColumn(t, s, i, Ke[r, i], RoundKey(key, r));
        a[i] := EncryptWord(t[i], t[(i + 1) % 4], t[(i + 2) % 4], t[(i + 3) % 4], Ke[r, i]);
      }
      t' := a[..];
    }

    /** The special last round of encrypt. */
    method EncryptLast(t: seq<PyInt>, ghost s: State) returns (result: seq<Byte>)
      requires Valid() && Shows(t, s)
      ensures result == StoreState(AddRoundKey(ShiftRows(SubBytes(s)), RoundKey(key, Rounds(key))))
    {
      hide IsWord, S, LastByte, Word, RoundKey, AddRoundKey, MixColumns, ShiftRows, SubBytes, At, StoreState,
          ColumnBytes;
      var rounds := Ke.Length0 - 1;
      ghost var final := AddRoundKey(ShiftRows(SubBytes(s)), RoundKey(key, rounds));
      result := [];
      for i := 0 to 4
        invariant result == StoreState(final)[..4 * i]
      {
        var tt := Ke[rounds, i];
        KeyAt(key, rounds, i);
        LastColumn(t, s, i, tt, RoundKey(key, rounds));
        StoreStep(final, i);
        result := result + [LastByte(S(Index(t[i], 24)), tt, 24), LastByte(S(Index(t[(i + 1) % 4], 16)), tt, 16),
                            LastByte(S(Index(t[(i + 2) % 4], 8)), tt, 8), LastByte(S(Index(t[(i + 3) % 4], 0)), tt, 0)];
      }
    }

    /** encrypt computes the forward cipher of FIPS-197 under the key the object was made with. */
    method Encrypt(plaintext: seq<Byte>) returns (r: Outcome<seq<Byte>>)
      requires Valid()
      ensures r == if |plaintext| != 16 then Raised else Returned(EncryptBlock(key, plaintext))
    {
      hide IsWord, Word, RoundKey, LoadState, AddRoundKey, MixColumns, ShiftRows, SubBytes, At, StoreState;
      if |plaintext| != 16 {
        return Raised;
      }
      var rounds := Ke.Length0 - 1;
      ghost var s0, w := LoadState(plaintext), Schedule(key);
      forall i | 0 <= i < 4 ensures IsWord(Ke[0, i], At(RoundKey(key, 0), i)) {
        KeyAt(key, 0, i);
      }
      var t := LoadBlock(plaintext, Ke, RoundKey(key, 0));
      for r := 1 to rounds
        invariant Shows(t, CipherRounds(s0, w, r - 1))
      {
        KeyAt(key, r, 0);
        t := EncryptRound(t, r, CipherRounds(s0, w, r - 1));
      }
      KeyAt(key, rounds, 0);
      var result := EncryptLast(t, CipherRounds(s0, w, rounds - 1));
      return Returned(result);
    }

    /** The inner loop of decrypt: one middle round. */
    method DecryptRound(t: seq<PyInt>, r: nat, ghost s: State) returns (t': seq<PyInt>)
      requires Valid()
      requires r < Kd.Length0 && Shows(t, s)
      ensures Shows(t', AddRoundKey(InvMixColumns(InvShiftRows(InvSubBytes(s))), InverseRoundKey(key, r)))
    {
      hide IsWord, DecryptWord, Word, InverseRoundKey, AddRoundKey, InvMixColumns, InvShiftRows, InvSubBytes, At;
      var a := new PyInt[4](_ => 0);
      ghost var next := AddRoundKey(InvMixColumns(InvShiftRows(InvSubBytes(s))), InverseRoundKey(key, r));
      for i := 0 to 4
        invariant forall j :: 0 <= j < i ==> IsWord(a[j], At(next, j))
      {
        KeyAt(key, r, i);
        DecryptColumn(t, s, i, Kd[r, i], InverseRoundKey(key, r));
        a[i] := DecryptWord(t[i], t[(i + 3) % 4], t[(i + 2) % 4], t[(i + 1) % 4], Kd[r, i]);
      }
      t' := a[..];
    }

    /** The special last round of decrypt. */
    method DecryptLast(t: seq<PyInt>, ghost s: State) returns (result: seq<Byte>)
      requires Valid() && Shows(t, s)
      ensures result == StoreState(AddRoundKey(InvShiftRows(InvSubBytes(s)), InverseRoundKey(key, Rounds(key))))
    {
      hide IsWord, Si, LastByte, Word, InverseRoundKey, AddRoundKey, InvMixColumns, InvShiftRows, InvSubBytes, At,
          StoreState, ColumnBytes;
      var rounds := Kd.Length0 - 1;
      ghost var final := AddRoundKey(InvShiftRows(InvSubBytes(s)), InverseRoundKey(key, rounds));
      result := [];
      for i := 0 to 4
        invariant result == StoreState(final)[..4 * i]
      {
        var tt := Kd[rounds, i];
        KeyAt(key, rounds, i);
        LastColumn(t, s, i, tt, InverseRoundKey(key, rounds));
        StoreStep(final, i);
        result := result + [LastByte(Si(Index(t[i], 24)), tt, 24), LastByte(Si(Index(t[(i + 3) % 4], 16)), tt, 16),
                            LastByte(Si(Index(t[(i + 2) % 4], 8)), tt, 8), LastByte(Si(Index(t[(i + 1) % 4], 0)),
                                tt, 0)];
      }
    }

    /** decrypt computes the equivalent inverse cipher of FIPS-197 under the key the object was made with. */
    method Decrypt(ciphertext: seq<Byte>) returns (r: Outcome<seq<Byte>>)
      requires Valid()
      ensures r == if |ciphertext| != 16 then Raised else Returned(DecryptBlock(key, ciphertext))
    {
      hide IsWord, Word, InverseRoundKey, LoadState, AddRoundKey, InvMixColumns, InvShiftRows, InvSubBytes, At,
          StoreState;
      if |ciphertext| != 16 {
        return Raised;
      }
      var rounds := Kd.Length0 - 1;
      ghost var s0, w := LoadState(ciphertext), InverseSchedule(key);
      forall i | 0 <= i < 4 ensures IsWord(Kd[0, i], At(InverseRoundKey(key, 0), i)) {
        KeyAt(key, 0, i);
      }
      var t := LoadBlock(ciphertext, Kd, InverseRoundKey(key, 0));
      for r := 1 to rounds
        invariant Shows(t, EqInvCipherRounds(s0, w, r - 1))
      {
        KeyAt(key, r, 0);
        t := DecryptRound(t, r, EqInvCipherRounds(s0, w, r - 1));
      }
      KeyAt(key, rounds, 0);
      var result := DecryptLast(t, EqInvCipherRounds(s0, w, rounds - 1));
      return Returned(result);
    }
  }
}
