/**
  The AES cipher as FIPS-197 states it on bytes: the forward cipher (section 5.1), the straightforward
  inverse cipher (section 5.3) and the equivalent inverse cipher (section 5.3.5), for any list of round
  keys. Nothing here mentions words or lookup tables other than the S-box pair.
*/
module AesCipher {
  import opened Gf256
  import opened AesSbox

  datatype Column = Column(b0: Byte, b1: Byte, b2: Byte, b3: Byte)

  /** The four-column state; column i holds bytes 4i to 4i+3 of the block. */
  datatype State = State(c0: Column, c1: Column, c2: Column, c3: Column)

  function At(s: State, i: nat): Column
    requires i < 4
  {
    if i == 0 then s.c0 else if i == 1 then s.c1 else if i == 2 then s.c2 else s.c3
  }

  function AddColumns(a: Column, b: Column): Column {
    Column(Add(a.b0, b.b0), Add(a.b1, b.b1), Add(a.b2, b.b2), Add(a.b3, b.b3))
  }

  function AddRoundKey(s: State, k: State): State {
    State(AddColumns(s.c0, k.c0), AddColumns(s.c1, k.c1), AddColumns(s.c2, k.c2), AddColumns(s.c3, k.c3))
  }

  function SubColumn(c: Column): Column {
    Column(S(c.b0), S(c.b1), S(c.b2), S(c.b3))
  }

  function InvSubColumn(c: Column): Column {
    Column(Si(c.b0), Si(c.b1), Si(c.b2), Si(c.b3))
  }

  function SubBytes(s: State): State {
    State(SubColumn(s.c0), SubColumn(s.c1), SubColumn(s.c2), SubColumn(s.c3))
  }

  function InvSubBytes(s: State): State {
    State(InvSubColumn(s.c0), InvSubColumn(s.c1), InvSubColumn(s.c2), InvSubColumn(s.c3))
  }

  /** Row r moves r places to the left. */
  function ShiftRows(s: State): State {
    State(Column(s.c0.b0, s.c1.b1, s.c2.b2, s.c3.b3),
          Column(s.c1.b0, s.c2.b1, s.c3.b2, s.c0.b3),
          Column(s.c2.b0, s.c3.b1, s.c0.b2, s.c1.b3),
          Column(s.c3.b0, s.c0.b1, s.c1.b2, s.c2.b3))
  }

  /** Row r moves r places to the right. */
  function InvShiftRows(s: State): State {
    State(Column(s.c0.b0, s.c3.b1, s.c2.b2, s.c1.b3),
          Column(s.c1.b0, s.c0.b1, s.c3.b2, s.c2.b3),
          Column(s.c2.b0, s.c1.b1, s.c0.b2, s.c3.b3),
          Column(s.c3.b0, s.c2.b1, s.c1.b2, s.c0.b3))
  }

  function MixLane(p: Byte, q: Byte, r: Byte, s: Byte): Byte {
    Sum4(Mul2(p), Mul3(q), r, s)
  }

  function InvMixLane(p: Byte, q: Byte, r: Byte, s: Byte): Byte {
    Sum4(MulE(p), MulB(q), MulD(r), Mul9(s))
  }

  /** One column times the circulant (2 3 1 1). */
  function MixColumn(c: Column): Column {
    Column(MixLane(c.b0, c.b1, c.b2, c.b3), MixLane(c.b1, c.b2, c.b3, c.b0),
           MixLane(c.b2, c.b3, c.b0, c.b1), MixLane(c.b3, c.b0, c.b1, c.b2))
  }

  /** One column times the circulant (e b d 9). */
  function InvMixColumn(c: Column): Column {
    Column(InvMixLane(c.b0, c.b1, c.b2, c.b3), InvMixLane(c.b1, c.b2, c.b3, c.b0),
           InvMixLane(c.b2, c.b3, c.b0, c.b1), InvMixLane(c.b3, c.b0, c.b1, c.b2))
  }

  function MixColumns(s: State): State {
    State(MixColumn(s.c0), MixColumn(s.c1), MixColumn(s.c2), MixColumn(s.c3))
  }

  function InvMixColumns(s: State): State {
    State(InvMixColumn(s.c0), InvMixColumn(s.c1), InvMixColumn(s.c2), InvMixColumn(s.c3))
  }

  // ---- The three ciphers, over a list w of round keys whose last index is the number of rounds ----

  /** The state of the forward cipher after the initial key addition and r full rounds. */
  function CipherRounds(p: State, w: seq<State>, r: nat): State
    requires r < |w|
  {
    if r == 0 then AddRoundKey(p, w[0])
    else AddRoundKey(MixColumns(ShiftRows(SubBytes(CipherRounds(p, w, r - 1)))), w[r])
  }

  /** Section 5.1; the last round has no MixColumns. */
  function Cipher(p: State, w: seq<State>): State
    requires |w| >= 2
  {
    AddRoundKey(ShiftRows(SubBytes(CipherRounds(p, w, |w| - 2))), w[|w| - 1])
  }

  function InvCipherRounds(c: State, w: seq<State>, r: nat): State
    requires r < |w|
  {
    if r == 0 then AddRoundKey(c, w[|w| - 1])
    else InvMixColumns(AddRoundKey(InvSubBytes(InvShiftRows(InvCipherRounds(c, w, r - 1))), w[|w| - 1 - r]))
  }

  /** Section 5.3: the forward steps undone one by one, with the forward round keys in reverse order. */
  function InvCipher(c: State, w: seq<State>): State
    requires |w| >= 2
  {
    AddRoundKey(InvSubBytes(InvShiftRows(InvCipherRounds(c, w, |w| - 2))), w[0])
  }

  function EqInvCipherRounds(c: State, dw: seq<State>, r: nat): State
    requires r < |dw|
  {
    if r == 0 then AddRoundKey(c, dw[0])
    else AddRoundKey(InvMixColumns(InvShiftRows(InvSubBytes(EqInvCipherRounds(c, dw, r - 1)))), dw[r])
  }

  /** Section 5.3.5: the order of steps of the forward cipher, with its own key list dw. */
  function EqInvCipher(c: State, dw: seq<State>): State
    requires |dw| >= 2
  {
    AddRoundKey(InvShiftRows(InvSubBytes(EqInvCipherRounds(c, dw, |dw| - 2))), dw[|dw| - 1])
  }

  /** Section 5.3.5: dw is w reversed, with InvMixColumns applied to all keys but the outer two. */
  ghost predicate IsInverseSchedule(w: seq<State>, dw: seq<State>) {
    && |w| == |dw| >= 2
    && dw[0] == w[|w| - 1]
    && dw[|w| - 1] == w[0]
    && forall r :: 1 <= r < |w| - 1 ==> dw[r] == InvMixColumns(w[|w| - 1 - r])
  }

  // ---- Every step has an inverse ----

  lemma AddColumnsCancels(c: Column, k: Column)
    ensures AddColumns(AddColumns(c, k), k) == c
  {
    hide Add;
    AddCancels(c.b0, k.b0);
    AddCancels(c.b1, k.b1);
    AddCancels(c.b2, k.b2);
    AddCancels(c.b3, k.b3);
  }

  lemma AddRoundKeyCancels(s: State, k: State)
    ensures AddRoundKey(AddRoundKey(s, k), k) == s
  {
    hide AddColumns;
    AddColumnsCancels(s.c0, k.c0);
    AddColumnsCancels(s.c1, k.c1);
    AddColumnsCancels(s.c2, k.c2);
    AddColumnsCancels(s.c3, k.c3);
  }

  lemma InvSubColumnUndoes(c: Column)
    ensures InvSubColumn(SubColumn(c)) == c
  {
    hide S, Si;
    SiUndoesS(c.b0);
    SiUndoesS(c.b1);
    SiUndoesS(c.b2);
    SiUndoesS(c.b3);
  }

  /** ShiftRows and SubBytes are undone in either order, because they commute. */
  lemma InvShiftSubUndoes(s: State)
    ensures InvShiftRows(InvSubBytes(ShiftRows(SubBytes(s)))) == s
    ensures InvSubBytes(InvShiftRows(ShiftRows(SubBytes(s)))) == s
  {
    hide S, Si;
    InvSubColumnUndoes(s.c0);
    InvSubColumnUndoes(s.c1);
    InvSubColumnUndoes(s.c2);
    InvSubColumnUndoes(s.c3);
  }

  /** One lane of InvMixColumn after MixColumn. */
  lemma InvMixLaneUndoes(a: Byte, b: Byte, c: Byte, d: Byte)
    ensures InvMixLane(MixLane(a, b, c, d), MixLane(b, c, d, a), MixLane(c, d, a, b), MixLane(d, a, b, c)) == a
  {
    hide Add, Mul2, Mul3, Mul9, MulB, MulD, MulE;
    MulSums(Mul2(a), Mul3(b), c, d);
    MulSums(Mul2(b), Mul3(c), d, a);
    MulSums(Mul2(c), Mul3(d), a, b);
    MulSums(Mul2(d), Mul3(a), b, c);
    SumTransposes(MulE(Mul2(a)), MulB(a), MulD(a), Mul9(Mul3(a)),
                  MulE(Mul3(b)), MulB(Mul2(b)), MulD(b), Mul9(b),
                  MulE(c), MulB(Mul3(c)), MulD(Mul2(c)), Mul9(c),
                  MulE(d), MulB(d), MulD(Mul3(d)), Mul9(Mul2(d)));
    CirculantInverse(a);
    CirculantInverse(b);
    CirculantInverse(c);
    CirculantInverse(d);
    assert Add(Add(Add(a, 0), 0), 0) == a by { AddZero(a); }
  }

  lemma AddZero(a: Byte)
    ensures Add(a, 0) == a
  {
  }

  lemma InvMixColumnUndoes(c: Column)
    ensures InvMixColumn(MixColumn(c)) == c
  {
    hide MixLane, InvMixLane;
    InvMixLaneUndoes(c.b0, c.b1, c.b2, c.b3);
    InvMixLaneUndoes(c.b1, c.b2, c.b3, c.b0);
    InvMixLaneUndoes(c.b2, c.b3, c.b0, c.b1);
    InvMixLaneUndoes(c.b3, c.b0, c.b1, c.b2);
  }

  /** InvMixColumns undoes MixColumns. */
  lemma InvMixColumnsUndoes(s: State)
    ensures InvMixColumns(MixColumns(s)) == s
  {
    hide MixColumn, InvMixColumn;
    InvMixColumnUndoes(s.c0);
    InvMixColumnUndoes(s.c1);
    InvMixColumnUndoes(s.c2);
    InvMixColumnUndoes(s.c3);
  }

  lemma InvMixLaneAdds(p: Byte, q: Byte, r: Byte, s: Byte, p': Byte, q': Byte, r': Byte, s': Byte)
    ensures InvMixLane(Add(p, p'), Add(q, q'), Add(r, r'), Add(s, s'))
         == Add(InvMixLane(p, q, r, s), InvMixLane(p', q', r', s'))
  {
    hide Add, Sum4, Mul9, MulB, MulD, MulE;
    MulAdds(p, p');
    MulAdds(q, q');
    MulAdds(r, r');
    MulAdds(s, s');
    SumExchange(MulE(p), MulB(q), MulD(r), Mul9(s), MulE(p'), MulB(q'), MulD(r'), Mul9(s'));
  }

  lemma InvMixColumnAdds(c: Column, k: Column)
    ensures InvMixColumn(AddColumns(c, k)) == AddColumns(InvMixColumn(c), InvMixColumn(k))
  {
    hide Add, InvMixLane;
    InvMixLaneAdds(c.b0, c.b1, c.b2, c.b3, k.b0, k.b1, k.b2, k.b3);
    InvMixLaneAdds(c.b1, c.b2, c.b3, c.b0, k.b1, k.b2, k.b3, k.b0);
    InvMixLaneAdds(c.b2, c.b3, c.b0, c.b1, k.b2, k.b3, k.b0, k.b1);
    InvMixLaneAdds(c.b3, c.b0, c.b1, c.b2, k.b3, k.b0, k.b1, k.b2);
  }

  /** InvMixColumns is linear: it passes through a key addition. */
  lemma InvMixColumnsAdds(s: State, k: State)
    ensures InvMixColumns(AddRoundKey(s, k)) == AddRoundKey(InvMixColumns(s), InvMixColumns(k))
  {
    hide AddColumns, InvMixColumn;
    InvMixColumnAdds(s.c0, k.c0);
    InvMixColumnAdds(s.c1, k.c1);
    InvMixColumnAdds(s.c2, k.c2);
    InvMixColumnAdds(s.c3, k.c3);
  }

  // ---- Decryption undoes encryption ----

  /** After r inverse rounds the state is what the forward cipher had before its last r + 1 key additions. */
  lemma {:induction false} InverseRoundsMirror(p: State, w: seq<State>, dw: seq<State>, r: nat)
    requires IsInverseSchedule(w, dw)
    requires r <= |w| - 2
    ensures EqInvCipherRounds(Cipher(p, w), dw, r) == ShiftRows(SubBytes(CipherRounds(p, w, |w| - 2 - r)))
  {
    hide AddRoundKey, MixColumns, InvMixColumns, ShiftRows, InvShiftRows, SubBytes, InvSubBytes;
    if r == 0 {
      AddRoundKeyCancels(ShiftRows(SubBytes(CipherRounds(p, w, |w| - 2))), w[|w| - 1]);
    } else {
      InverseRoundsMirror(p, w, dw, r - 1);
      var k := |w| - 1 - r;
      var before := ShiftRows(SubBytes(CipherRounds(p, w, k - 1)));
      InvShiftSubUndoes(CipherRounds(p, w, k));
      InvMixColumnsAdds(MixColumns(before), w[k]);
      InvMixColumnsUndoes(before);
      AddRoundKeyCancels(before, InvMixColumns(w[k]));
    }
  }

  /** The equivalent inverse cipher undoes the forward cipher, for every block and every list of round keys. */
  lemma DecryptUndoesEncrypt(p: State, w: seq<State>, dw: seq<State>)
    requires IsInverseSchedule(w, dw)
    ensures EqInvCipher(Cipher(p, w), dw) == p
  {
    hide AddRoundKey, MixColumns, InvMixColumns, InvShiftRows, InvSubBytes, ShiftRows, SubBytes;
    InverseRoundsMirror(p, w, dw, |w| - 2);
    InvShiftSubUndoes(CipherRounds(p, w, 0));
    AddRoundKeyCancels(p, w[0]);
  }

  lemma InvSubShiftCommute(s: State)
    ensures InvShiftRows(InvSubBytes(s)) == InvSubBytes(InvShiftRows(s))
  {
  }

  lemma {:induction false} EquivalentRounds(c: State, w: seq<State>, dw: seq<State>, r: nat)
    requires IsInverseSchedule(w, dw)
    requires r <= |w| - 2
    ensures EqInvCipherRounds(c, dw, r) == InvCipherRounds(c, w, r)
  {
    hide AddRoundKey, InvMixColumns, InvShiftRows, InvSubBytes;
    if r > 0 {
      EquivalentRounds(c, w, dw, r - 1);
      var s := InvCipherRounds(c, w, r - 1);
      InvSubShiftCommute(s);
      InvMixColumnsAdds(InvSubBytes(InvShiftRows(s)), w[|w| - 1 - r]);
    }
  }

  /** Section 5.3.5: on every input block the equivalent inverse cipher is the inverse cipher of section 5.3. */
  lemma EquivalentInverse(c: State, w: seq<State>, dw: seq<State>)
    requires IsInverseSchedule(w, dw)
    ensures EqInvCipher(c, dw) == InvCipher(c, w)
  {
    hide AddRoundKey, InvMixColumns, InvShiftRows, InvSubBytes;
    EquivalentRounds(c, w, dw, |w| - 2);
    InvSubShiftCommute(InvCipherRounds(c, w, |w| - 2));
  }
}
