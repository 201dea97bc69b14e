/** Key expansion as section 5.2 of FIPS-197 states it, one four-byte word at a time. */
module AesKeys {
  import opened Gf256
  import opened AesCipher

  /** Key lengths in words: 16, 24 or 32 bytes. */
  predicate ValidKey(key: seq<Byte>) {
    |key| == 16 || |key| == 24 || |key| == 32
  }

  /** 10, 12 or 14 rounds. */
  function Rounds(key: seq<Byte>): (r: nat)
    ensures |key| == 16 ==> r == 10
    ensures |key| == 24 ==> r == 12
    ensures |key| == 32 ==> r == 14
  {
    |key| / 4 + 6
  }

  function KeyColumn(key: seq<Byte>, i: nat): Column
    requires 4 * i + 4 <= |key|
  {
    Column(key[4 * i], key[4 * i + 1], key[4 * i + 2], key[4 * i + 3])
  }

  function RotColumn(c: Column): Column {
    Column(c.b1, c.b2, c.b3, c.b0)
  }

  /** The round constant x^(i-1). */
  function RoundConstant(i: nat): Byte
    requires i >= 1
  {
    if i == 1 then 1 else XTime(RoundConstant(i - 1))
  }

  /** Word i of the key schedule. */
  function Word(key: seq<Byte>, i: nat): Column
    requires ValidKey(key)
  {
    var nk := |key| / 4;
    if i < nk then KeyColumn(key, i)
    else
      var temp := Word(key, i - 1);
      var mixed :=
        if i % nk == 0 then AddColumns(SubColumn(RotColumn(temp)), Column(RoundConstant(i / nk), 0, 0, 0))
        else if nk > 6 && i % nk == 4 then SubColumn(temp)
        else temp;
      AddColumns(Word(key, i - nk), mixed)
  }

  function RoundKey(key: seq<Byte>, r: nat): State
    requires ValidKey(key)
  {
    State(Word(key, 4 * r), Word(key, 4 * r + 1), Word(key, 4 * r + 2), Word(key, 4 * r + 3))
  }

  /** The round keys of the forward cipher. */
  function Schedule(key: seq<Byte>): (w: seq<State>)
    requires ValidKey(key)
    ensures |w| == Rounds(key) + 1
  {
    seq(Rounds(key) + 1, r requires 0 <= r => RoundKey(key, r))
  }

  /** The round keys of the equivalent inverse cipher. */
  function InverseSchedule(key: seq<Byte>): (dw: seq<State>)
    requires ValidKey(key)
    ensures |dw| == Rounds(key) + 1
  {
    seq(Rounds(key) + 1, r requires 0 <= r <= Rounds(key) => InverseRoundKey(key, r))
  }

  function InverseRoundKey(key: seq<Byte>, r: nat): State
    requires ValidKey(key)
    requires r <= Rounds(key)
  {
    var n := Rounds(key);
    if r == 0 || r == n then RoundKey(key, n - r) else InvMixColumns(RoundKey(key, n - r))
  }

  lemma InverseScheduleInverts(key: seq<Byte>)
    requires ValidKey(key)
    ensures IsInverseSchedule(Schedule(key), InverseSchedule(key))
  {
    hide RoundKey, InvMixColumns;
  }

  /** For every key of the three lengths and every block, decryption undoes encryption. */
  lemma RoundTrip(key: seq<Byte>, p: State)
    requires ValidKey(key)
    ensures EqInvCipher(Cipher(p, Schedule(key)), InverseSchedule(key)) == p
  {
    hide Cipher, EqInvCipher, Schedule, InverseSchedule, IsInverseSchedule;
    InverseScheduleInverts(key);
    DecryptUndoesEncrypt(p, Schedule(key), InverseSchedule(key));
  }

  /** The round constants that the table in ktool.py lists. */
  const RCON: seq<Byte> := [
    0x01, 0x02, 0x04, 0x08, 0x10, 0x20, 0x40, 0x80, 0x1b, 0x36, 0x6c, 0xd8, 0xab, 0x4d, 0x9a,
    0x2f, 0x5e, 0xbc, 0x63, 0xc6, 0x97, 0x35, 0x6a, 0xd4, 0xb3, 0x7d, 0xfa, 0xef, 0xc5, 0x91]

  /** As far as a key expansion reaches into the table, it holds the successive powers of x. */
  lemma {:induction false} RconTable(i: nat)
    requires i < 10
    ensures RCON[i] == RoundConstant(i + 1)
  {
    if i > 0 {
      RconTable(i - 1);
      assert RCON[..10] == [0x01, 0x02, 0x04, 0x08, 0x10, 0x20, 0x40, 0x80, 0x1b, 0x36];
      RconStep(RCON[..10], i);
    }
  }

  lemma RconStep(t: seq<Byte>, i: nat)
    requires t == [0x01, 0x02, 0x04, 0x08, 0x10, 0x20, 0x40, 0x80, 0x1b, 0x36]
    requires 1 <= i < 10
    ensures t[i] == XTime(t[i - 1])
  {
    assert XTime(0x01) == 0x02 && XTime(0x02) == 0x04 && XTime(0x04) == 0x08;
    assert XTime(0x08) == 0x10 && XTime(0x10) == 0x20 && XTime(0x20) == 0x40;
    assert XTime(0x40) == 0x80 && XTime(0x80) == 0x1b && XTime(0x1b) == 0x36;
  }

  /** The recurrence, for the word at place j of the batch that follows m complete batches of key length. */
  lemma WordStep(key: seq<Byte>, m: nat, j: nat)
    requires ValidKey(key)
    requires j < |key| / 4
    ensures var nk, t := |key| / 4, |key| / 4 * (m + 1) + j;
            && t > 0
            && Word(key, t) == AddColumns(Word(key, nk * m + j),
                if j == 0 then
                  AddColumns(SubColumn(RotColumn(Word(key, t - 1))), Column(RoundConstant(m + 1), 0, 0, 0))
                else if nk == 8 && j == 4 then SubColumn(Word(key, t - 1))
                else Word(key, t - 1))
  {
    hide AddColumns, SubColumn, RotColumn, RoundConstant, KeyColumn;
    PlaceInBatch(|key| / 4, m, j);
  }

  lemma PlaceInBatch(nk: nat, m: nat, j: nat)
    requires nk == 4 || nk == 6 || nk == 8
    requires j < nk
    ensures (nk * (m + 1) + j) % nk == j
    ensures (nk * (m + 1) + j) / nk == m + 1
    ensures nk * (m + 1) + j - nk == nk * m + j
  {
    if nk == 4 {
    } else if nk == 6 {
    } else {
    }
  }

  // ---- The cipher on blocks of sixteen bytes ----

  function LoadState(block: seq<Byte>): State
    requires |block| == 16
  {
    State(KeyColumn(block, 0), KeyColumn(block, 1), KeyColumn(block, 2), KeyColumn(block, 3))
  }

  function ColumnBytes(c: Column): seq<Byte> {
    [c.b0, c.b1, c.b2, c.b3]
  }

  function StoreState(s: State): (block: seq<Byte>)
    ensures |block| == 16
  {
    ColumnBytes(s.c0) + ColumnBytes(s.c1) + ColumnBytes(s.c2) + ColumnBytes(s.c3)
  }

  lemma StoreStep(s: State, i: nat)
    requires i < 4
    ensures StoreState(s)[..4 * i + 4] == StoreState(s)[..4 * i] + ColumnBytes(At(s, i))
  {
    if i == 0 {
    } else if i == 1 {
    } else if i == 2 {
    } else {
    }
  }

  lemma LoadStore(s: State)
    ensures LoadState(StoreState(s)) == s
  {
  }

  lemma StoreLoad(block: seq<Byte>)
    requires |block| == 16
    ensures StoreState(LoadState(block)) == block
  {
  }

  function EncryptBlock(key: seq<Byte>, block: seq<Byte>): (c: seq<Byte>)
    requires ValidKey(key) && |block| == 16
    ensures |c| == 16
  {
    StoreState(Cipher(LoadState(block), Schedule(key)))
  }

  function DecryptBlock(key: seq<Byte>, block: seq<Byte>): (p: seq<Byte>)
    requires ValidKey(key) && |block| == 16
    ensures |p| == 16
  {
    StoreState(EqInvCipher(LoadState(block), InverseSchedule(key)))
  }

  /** For every key of the three lengths and every block, decrypting what was encrypted returns the block. */
  lemma BlockRoundTrip(key: seq<Byte>, block: seq<Byte>)
    requires ValidKey(key) && |block| == 16
    ensures DecryptBlock(key, EncryptBlock(key, block)) == block
  {
    hide Cipher, EqInvCipher, Schedule, InverseSchedule, LoadState, StoreState;
    RoundTrip(key, LoadState(block));
    LoadStore(Cipher(LoadState(block), Schedule(key)));
    StoreLoad(block);
  }
}
