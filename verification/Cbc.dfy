/**
  The CBC mode of ktool.py (section 6.2 of NIST SP 800-38A), one object per direction, and the way
  flash_firmware pads and enciphers a firmware image with it.
*/
module Cbc {
  import opened Gf256
  import opened AesKeys
  import opened KtoolAes
  import opened Outcome
  import opened Seqs

  /** [p ^ l for (p, l) in zip(a, b)] for two blocks. */
  function XorBlocks(a: seq<Byte>, b: seq<Byte>): (c: seq<Byte>)
    requires |a| == 16 && |b| == 16
    ensures |c| == 16 && forall i :: 0 <= i < 16 ==> c[i] == a[i] ^ b[i]
  {
    seq(16, i requires 0 <= i < 16 => Add(a[i], b[i]))
  }

  type Block = b: seq<Byte> | |b| == 16 witness Zeros(16)

  // ---- The mode on whole messages ----

  /** The block chained into block i: the previous cipher block, or the initialization vector. */
  function Chained(iv: Block, cs: seq<Block>, i: nat): Block
    requires i <= |cs|
  {
    if i == 0 then iv else cs[i - 1]
  }

  function CbcEncrypt(key: seq<Byte>, iv: Block, ps: seq<Block>): (cs: seq<Block>)
    requires ValidKey(key)
    ensures |cs| == |ps|
  {
    if ps == [] then []
    else
      var n := |ps| - 1;
      var cs := CbcEncrypt(key, iv, ps[..n]);
      cs + [EncryptBlock(key, XorBlocks(ps[n], Chained(iv, cs, n)))]
  }

  function CbcDecrypt(key: seq<Byte>, iv: Block, cs: seq<Block>): (ps: seq<Block>)
    requires ValidKey(key)
    ensures |ps| == |cs|
  {
    seq(|cs|, i requires 0 <= i < |cs| => XorBlocks(DecryptBlock(key, cs[i]), Chained(iv, cs, i)))
  }

  lemma XorBlocksCancels(a: Block, b: Block)
    ensures XorBlocks(XorBlocks(a, b), b) == a
  {
    hide Add;
    forall i | 0 <= i < 16 ensures Add(Add(a[i], b[i]), b[i]) == a[i] {
      AddCancels(a[i], b[i]);
    }
  }

  lemma {:induction false} CbcEncryptAt(key: seq<Byte>, iv: Block, ps: seq<Block>, i: nat)
    requires ValidKey(key)
    requires i < |ps|
    ensures var cs := CbcEncrypt(key, iv, ps);
            var before := if i == 0 then iv else cs[i - 1];
            && cs[i] == EncryptBlock(key, XorBlocks(ps[i], Chained(iv, cs, i)))
            && exists x: Block ::
                 (forall k :: 0 <= k < 16 ==> x[k] == ps[i][k] ^ before[k]) && cs[i] == EncryptBlock(key, x)
  {
    hide EncryptBlock, XorBlocks;
    var x: Block := XorBlocks(ps[i], Chained(iv, CbcEncrypt(key, iv, ps), i));
    if i < |ps| - 1 {
      CbcEncryptAt(key, iv, ps[..|ps| - 1], i);
    }
  }

  /** Decrypting a message from the same initialization vector returns it, for any number of blocks. */
  lemma CbcRoundTrip(key: seq<Byte>, iv: Block, ps: seq<Block>)
    requires ValidKey(key)
    ensures CbcDecrypt(key, iv, CbcEncrypt(key, iv, ps)) == ps
  {
    hide EncryptBlock, DecryptBlock, XorBlocks, CbcEncrypt;
    var cs := CbcEncrypt(key, iv, ps);
    forall i | 0 <= i < |ps| ensures CbcDecrypt(key, iv, cs)[i] == ps[i] {
      CbcEncryptAt(key, iv, ps, i);
      BlockRoundTrip(key, XorBlocks(ps[i], Chained(iv, cs, i)));
      XorBlocksCancels(ps[i], Chained(iv, cs, i));
    }
  }

  // ---- The object ----

  class AES_128_CBC {
    ghost const key: seq<Byte>
    const aes: AES
    var lastCipherblock: seq<Byte>

    ghost predicate Valid()
      reads this, aes, aes.Ke, aes.Kd
    {
      aes.Valid() && aes.key == key && |lastCipherblock| == 16
    }

    constructor (key: seq<Byte>, iv: seq<Byte>)
      requires ValidKey(key) && |iv| == 16
      ensures Valid() && this.key == key && lastCipherblock == iv
      ensures fresh(aes) && fresh(aes.Ke) && fresh(aes.Kd)
    {
      this.key := key;
      aes := new AES(key);
      lastCipherblock := iv;
    }

    /** One block: the cipher block is returned and chained into the next call. */
    method Encrypt(plaintext: seq<Byte>) returns (r: Outcome<seq<Byte>>)
      requires Valid()
      modifies this`lastCipherblock
      ensures Valid()
      ensures if |plaintext| != 16 then r == Raised && lastCipherblock == old(lastCipherblock)
              else r == Returned(EncryptBlock(key, XorBlocks(plaintext, old(lastCipherblock))))
                   && lastCipherblock == r.value
      ensures |plaintext| == 16 ==>
        exists x: Block :: (forall i :: 0 <= i < 16 ==> x[i] == plaintext[i] ^ old(lastCipherblock)[i])
                           && r == Returned(EncryptBlock(key, x))
    {
      if |plaintext| != 16 {
        return Raised;
      }
      var precipherblock: Block := XorBlocks(plaintext, lastCipherblock);
      r := aes.Encrypt(precipherblock);
      lastCipherblock := r.value;
    }

    method Decrypt(ciphertext: seq<Byte>) returns (r: Outcome<seq<Byte>>)
      requires Valid()
      modifies this`lastCipherblock
      ensures Valid()
      ensures if |ciphertext| != 16 then r == Raised && lastCipherblock == old(lastCipherblock)
              else r == Returned(XorBlocks(DecryptBlock(key, ciphertext), old(lastCipherblock)))
                   && lastCipherblock == ciphertext
      ensures |ciphertext| == 16 ==>
        r.Returned? && |r.value| == 16
        && forall i :: 0 <= i < 16 ==> r.value[i] == DecryptBlock(key, ciphertext)[i] ^ old(lastCipherblock)[i]
    {
      if |ciphertext| != 16 {
        return Raised;
      }
      var plain := aes.Decrypt(ciphertext);
      r := Returned(XorBlocks(plain.value, lastCipherblock));
      lastCipherblock := ciphertext;
    }
  }

  /** AES_128_CBC(key, iv): a bad key length or a bad vector length raises; no vector means zeros. */
  method NewCbc(key: seq<Byte>, iv: Option<seq<Byte>>) returns (r: Outcome<AES_128_CBC>)
    ensures r.Raised? <==> !ValidKey(key) || (iv.Some? && |iv.value| != 16)
    ensures r.Returned? ==>
      && r.value.Valid() && r.value.key == key && fresh(r.value)
      && r.value.lastCipherblock == if iv.None? then Zeros(16) else iv.value
  {
    if !ValidKey(key) {
      return Raised;
    }
    if iv.None? {
      var cbc := new AES_128_CBC(key, Zeros(16));
      return Returned(cbc);
    } else if |iv.value| != 16 {
      return Raised;
    } else {
      var cbc := new AES_128_CBC(key, iv.value);
      return Returned(cbc);
    }
  }

  // ---- Firmware images ----

  /** The complete sixteen-byte blocks of data. */
  function Blocks(data: seq<Byte>): (bs: seq<Block>)
    ensures |bs| == |data| / 16
  {
    seq(|data| / 16, i requires 0 <= i < |data| / 16 => data[16 * i..16 * i + 16])
  }

  function Join(bs: seq<Block>): (data: seq<Byte>)
    ensures |data| == 16 * |bs|
  {
    if bs == [] then [] else Join(bs[..|bs| - 1]) + bs[|bs| - 1]
  }

  /** What flash_firmware stores instead of the firmware when it has a key. */
  function CipherImage(key: seq<Byte>, firmware: seq<Byte>): seq<Byte>
    requires ValidKey(key)
  {
    Join(CbcEncrypt(key, Zeros(16), Blocks(firmware + Zeros(15))))
  }

  lemma {:induction false} JoinBlocks(data: seq<Byte>, n: nat)
    requires n <= |data| / 16
    ensures Join(Blocks(data)[..n]) == data[..16 * n]
  {
    if n > 0 {
      JoinBlocks(data, n - 1);
      assert Blocks(data)[..n][..n - 1] == Blocks(data)[..n - 1];
    }
  }

  lemma {:induction false} BlocksJoin(bs: seq<Block>)
    ensures Blocks(Join(bs)) == bs
  {
    if bs != [] {
      var n := |bs| - 1;
      BlocksJoin(bs[..n]);
      forall i | 0 <= i < |bs| ensures Blocks(Join(bs))[i] == bs[i] {
        if i < n {
          assert Blocks(Join(bs[..n]))[i] == bs[i];
          assert Join(bs)[16 * i..16 * i + 16] == Join(bs[..n])[16 * i..16 * i + 16];
        }
      }
    }
  }

  /**
    A device that knows the key gets the firmware back: the stored image has ceil(n / 16) blocks and
    decrypts to the firmware followed by fewer than sixteen zero bytes.
  */
  lemma CipherImageDecrypts(key: seq<Byte>, firmware: seq<Byte>)
    requires ValidKey(key)
    ensures var image := CipherImage(key, firmware);
            var pad := (16 - |firmware| % 16) % 16;
            && |image| == |firmware| + pad
            && pad < 16
            && Join(CbcDecrypt(key, Zeros(16), Blocks(image))) == firmware + Zeros(pad)
  {
    hide CbcEncrypt, CbcDecrypt, Join, Blocks;
    var padded := firmware + Zeros(15);
    var ps := Blocks(padded);
    var cs := CbcEncrypt(key, Zeros(16), ps);
    var pad := PadCount(|firmware|);
    BlocksJoin(cs);
    CbcRoundTrip(key, Zeros(16), ps);
    JoinBlocks(padded, |ps|);
    assert ps[..|ps|] == ps;
    assert padded[..|firmware| + pad] == firmware + Zeros(pad);
  }

  /**
    The image byte by byte: every block is the cipher block of sixteen bytes of the zero-padded firmware, added to the
    block before it in the image, to zeros at the start.
  */
  lemma CipherImageAt(key: seq<Byte>, firmware: seq<Byte>, i: nat)
    requires ValidKey(key) && i < (|firmware| + 15) / 16
    ensures var image := CipherImage(key, firmware);
            && |image| == (|firmware| + 15) / 16 * 16
            && exists x: Block ::
                 && image[16 * i..16 * i + 16] == EncryptBlock(key, x)
                 && forall k :: 0 <= k < 16 ==>
                      x[k] == (if 16 * i + k < |firmware| then firmware[16 * i + k] else 0)
                              ^ (if i == 0 then 0 else image[16 * i + k - 16])
  {
    hide EncryptBlock, CbcEncrypt, Join, Blocks;
    var padded := firmware + Zeros(15);
    var cs := CbcEncrypt(key, Zeros(16), Blocks(padded));
    var image := CipherImage(key, firmware);
    CbcEncryptAt(key, Zeros(16), Blocks(padded), i);
    BlocksJoin(cs);
    BlockAt(padded, i);
    BlockAt(image, i);
    if i > 0 {
      BlockAt(image, i - 1);
    }
  }

  lemma BlockAt(data: seq<Byte>, i: nat)
    requires i < |data| / 16
    ensures Blocks(data)[i] == data[16 * i..16 * i + 16]
    ensures forall k :: 0 <= k < 16 ==> Blocks(data)[i][k] == data[16 * i + k]
  {
  }

  /** Fifteen more bytes, cut to whole blocks, fill up the last block. */
  lemma PadCount(n: nat) returns (pad: nat)
    ensures pad == (16 - n % 16) % 16 && 16 * ((n + 15) / 16) == n + pad
  {
    var (q, r) := (n / 16, n % 16);
    pad := (16 - r) % 16;
    assert n + 15 == 16 * q + (r + 15);
    assert (n + 15) / 16 == if r == 0 then q else q + 1;
  }

  lemma CbcNothing(key: seq<Byte>, iv: Block)
    requires ValidKey(key)
    ensures CbcEncrypt(key, iv, []) == []
  {
  }

  /** One block more. */
  lemma CbcStep(key: seq<Byte>, iv: Block, ps: seq<Block>, i: nat)
    requires ValidKey(key) && i < |ps|
    ensures var cs := CbcEncrypt(key, iv, ps[..i]);
            CbcEncrypt(key, iv, ps[..i + 1]) == cs + [EncryptBlock(key, XorBlocks(ps[i], Chained(iv, cs, i)))]
  {
    hide EncryptBlock, XorBlocks;
    assert ps[..i + 1][..i] == ps[..i];
  }

  /** [enc(p) for p in ps] for an object in any state: the message is enciphered from what the object has chained. */
  method EncryptAll(cbc: AES_128_CBC, ps: seq<Block>) returns (cs: seq<Block>)
    requires cbc.Valid()
    modifies cbc`lastCipherblock
    ensures cbc.Valid() && cs == CbcEncrypt(cbc.key, old(cbc.lastCipherblock), ps)
    ensures cbc.lastCipherblock == Chained(old(cbc.lastCipherblock), cs, |cs|)
  {
    hide EncryptBlock, XorBlocks, CbcEncrypt;
    ghost var iv := cbc.lastCipherblock;
    cs := [];
    CbcNothing(cbc.key, iv);
    assert ps[..0] == [];
    for i := 0 to |ps|
      invariant cbc.Valid() && cs == CbcEncrypt(cbc.key, iv, ps[..i])
      invariant cbc.lastCipherblock == Chained(iv, cs, i)
    {
      var c := cbc.Encrypt(ps[i]);
      CbcStep(cbc.key, iv, ps, i);
      cs := cs + [c.value];
    }
    assert ps[..|ps|] == ps;
  }

  /** [dec(c) for c in cs], likewise. */
  method DecryptAll(cbc: AES_128_CBC, cs: seq<Block>) returns (ps: seq<Block>)
    requires cbc.Valid()
    modifies cbc`lastCipherblock
    ensures cbc.Valid() && ps == CbcDecrypt(cbc.key, old(cbc.lastCipherblock), cs)
    ensures cbc.lastCipherblock == Chained(old(cbc.lastCipherblock), cs, |cs|)
  {
    hide DecryptBlock, XorBlocks;
    ghost var iv := cbc.lastCipherblock;
    ps := [];
    for i := 0 to |cs|
      invariant cbc.Valid() && |ps| == i
      invariant ps == CbcDecrypt(cbc.key, iv, cs)[..i]
      invariant cbc.lastCipherblock == Chained(iv, cs, i)
    {
      var p := cbc.Decrypt(cs[i]);
      ps := ps + [p.value];
    }
  }

  /** What one object enciphers, another new object with the same key and vector deciphers to the same message. */
  method EncryptThenDecrypt(key: seq<Byte>, iv: Option<seq<Byte>>, ps: seq<Block>) returns (r: Outcome<seq<Block>>)
    ensures r == if ValidKey(key) && (iv.None? || |iv.value| == 16) then Returned(ps) else Raised
  {
    hide EncryptBlock, DecryptBlock, CbcEncrypt, CbcDecrypt;
    var sender := NewCbc(key, iv);
    if sender.Raised? {
      return Raised;
    }
    var cs := EncryptAll(sender.value, ps);
    var receiver := NewCbc(key, iv);
    var back := DecryptAll(receiver.value, cs);
    CbcRoundTrip(key, if iv.None? then Zeros(16) else iv.value, ps);
    return Returned(back);
  }

  /** The encryption branch of flash_firmware: enc(padded[i*16:i*16+16]) for every i, joined. */
  method EncryptFirmware(key: seq<Byte>, firmware: seq<Byte>) returns (r: Outcome<seq<Byte>>)
    ensures r == if ValidKey(key) then Returned(CipherImage(key, firmware)) else Raised
  {
    hide EncryptBlock, XorBlocks, CbcEncrypt, Join, Blocks;
    var made := NewCbc(key, Some(Zeros(16)));
    if made.Raised? {
      return Raised;
    }
    var padded := firmware + Zeros(15);
    var cs := EncryptAll(made.value, Blocks(padded));
    return Returned(Join(cs));
  }
}
