/**
  What the flasher means to put where: the image, its layout in frames, the request packets, and the
  device that executes them. The checksum and hash functions of the host library are parameters.
*/
module FlashImage {
  import opened Gf256
  import opened AesKeys
  import opened Cbc
  import opened Outcome
  import opened Seqs
  import opened StructPack

  type Digest = d: seq<Byte> | |d| == 32 witness Zeros(32)

  /** binascii.crc32 (masked to 32 bits), hashlib.sha256, and whether bytes.decode accepts its argument. */
  datatype Library = Library(crc32: seq<Byte> -> U32, sha256: seq<Byte> -> Digest, decodes: seq<Byte> -> bool)

  const FLASH_WRITE: U16 := 0xd4
  const SRAM_WRITE: U16 := 0xd8
  const SRAM_EXECUTE: U16 := 0xd9

  // ---- The image and its layout ----

  /** The bytes to be stored: the bare firmware, or flag + length + (possibly enciphered) firmware + hash. */
  function Image(lib: Library, firmware: seq<Byte>, aesKey: seq<Byte>, sha256Prefix: bool, tosram: bool)
    : Outcome<seq<Byte>>
  {
    if !sha256Prefix || tosram then Returned(firmware)
    else if aesKey != [] && !ValidKey(aesKey) then Raised
    else
      var body := if aesKey != [] then CipherImage(aesKey, firmware) else firmware;
      if |body| >= 0x1_0000_0000 then Raised
      else
        var data := [if aesKey != [] then 1 else 0] + PackI(|body|) + body;
        Returned(data + lib.sha256(data))
  }

  /**
    Who reads the stored bytes gets everything back: the flag tells whether the body is enciphered, the length
    how long it is, the hash covers all before it, and the body, deciphered where the flag says so, is the
    firmware followed by fewer than sixteen zero bytes.
  */
  lemma ImageOpens(lib: Library, firmware: seq<Byte>, aesKey: seq<Byte>)
    requires Image(lib, firmware, aesKey, true, false).Returned?
    ensures var image := Image(lib, firmware, aesKey, true, false).value;
            var n := |image| - 37;
            var pad := if aesKey == [] then 0 else (16 - |firmware| % 16) % 16;
            && n == |firmware| + pad
            && image[0] == (if aesKey == [] then 0 else 1)
            && UnpackI(image[1..5]) == n
            && image[5 + n..] == lib.sha256(image[..5 + n])
            && (aesKey == [] || ValidKey(aesKey))
            && (if aesKey == [] then image[5..5 + n] else Join(CbcDecrypt(aesKey, Zeros(16), Blocks(image[5..5 + n]))))
               == firmware + Zeros(pad)
  {
    hide PackI, UnpackI, CipherImage, CbcDecrypt, Blocks, Join;
    var image := Image(lib, firmware, aesKey, true, false).value;
    var body := if aesKey != [] then CipherImage(aesKey, firmware) else firmware;
    if aesKey != [] {
      CipherImageDecrypts(aesKey, firmware);
    } else {
      assert firmware + Zeros(0) == firmware;
    }
    UnpackPackI(|body|);
    var data := [if aesKey != [] then 1 else 0] + PackI(|body|) + body;
    assert image[1..5] == PackI(|body|);
    assert image[5..5 + |body|] == body;
    assert image[..5 + |body|] == data;
    assert image[5 + |body|..] == lib.sha256(data);
  }

  /** There is an image unless the key has a wrong length or the body's length does not fit its field. */
  lemma ImageExistsExactly(lib: Library, firmware: seq<Byte>, aesKey: seq<Byte>)
    ensures Image(lib, firmware, aesKey, true, false).Returned? <==>
      if aesKey == [] then |firmware| < 0x1_0000_0000
      else (|aesKey| == 16 || |aesKey| == 24 || |aesKey| == 32) && (|firmware| + 15) / 16 * 16 < 0x1_0000_0000
  {
    hide PackI, CipherImage, CbcDecrypt, Blocks, Join;
    if aesKey != [] && ValidKey(aesKey) {
      CipherImageDecrypts(aesKey, firmware);
      var pad := PadCount(|firmware|);
    }
  }

  /** 4 KiB frames for images under 128 KiB, else 64 KiB frames. */
  function ChunkSize(length: nat): (cs: nat)
    ensures cs > 0 && cs % 4 == 0
  {
    if length < 128 * 1024 then 4096 else 65536
  }

  /** math.ceil(length / chunk_size) */
  function TotalChunks(length: nat): nat {
    (length + ChunkSize(length) - 1) / ChunkSize(length)
  }

  /** chunk.ljust(n, b'\x00') */
  function LJust(s: seq<Byte>, n: nat): (r: seq<Byte>)
    ensures |r| == if |s| < n then n else |s|
  {
    if |s| < n then s + Zeros(n - |s|) else s
  }

  function Min(a: int, b: int): int {
    if a < b then a else b
  }

  /** Chunk n of chunks(image, chunk_size), padded. */
  function Chunk(image: seq<Byte>, n: nat): (r: seq<Byte>)
    requires n < TotalChunks(|image|)
    ensures |r| == ChunkSize(|image|)
  {
    var cs := ChunkSize(|image|);
    LJust(image[n * cs..Min(n * cs + cs, |image|)], cs)
  }

  /** The place of byte i in the reversed order of its four-byte group. */
  function Mirror(i: nat): nat {
    i / 4 * 4 + 3 - i % 4
  }

  lemma MirrorGroup(i: nat)
    requires i % 4 == 0
    ensures Mirror(i) == i + 3 && Mirror(i + 1) == i + 2 && Mirror(i + 2) == i + 1 && Mirror(i + 3) == i
  {
  }

  lemma MirrorBelow(k: nat, n: nat)
    requires k < n && n % 4 == 0
    ensures Mirror(k) < n
  {
  }

  /** Every four-byte group reversed. */
  function SwapWords(s: seq<Byte>): (r: seq<Byte>)
    requires |s| % 4 == 0
    ensures |r| == |s|
  {
    seq(|s|, i requires 0 <= i < |s| => MirrorBelow(i, |s|); s[Mirror(i)])
  }

  /** The data field of frame n. */
  function Payload(image: seq<Byte>, n: nat, swapped: bool): (r: seq<Byte>)
    requires n < TotalChunks(|image|)
    ensures |r| == ChunkSize(|image|)
  {
    if swapped then SwapWords(Chunk(image, n)) else Chunk(image, n)
  }

  /** The byte that belongs at distance i from the start address. */
  function StoredByte(image: seq<Byte>, swapped: bool, i: nat): Byte {
    var j := if swapped then i / 4 * 4 + 3 - i % 4 else i;
    if j < |image| then image[j] else 0
  }

  lemma ChunkBytes(image: seq<Byte>, n: nat, j: nat)
    requires n < TotalChunks(|image|)
    requires j < ChunkSize(|image|)
    ensures Chunk(image, n)[j] ==
      if n * ChunkSize(|image|) + j < |image| then image[n * ChunkSize(|image|) + j] else 0
  {
  }

  lemma SwapIndex(m: nat, k: nat)
    requires m % 4 == 0
    ensures Mirror(m + k) == m + Mirror(k)
  {
    var (q, d, e) := (m / 4, k / 4, k % 4);
    assert m + k == 4 * (q + d) + e;
    assert (m + k) / 4 == q + d && (m + k) % 4 == e;
  }

  lemma StoredByteIs(image: seq<Byte>, swapped: bool, i: nat)
    ensures var j := if swapped then Mirror(i) else i;
            StoredByte(image, swapped, i) == if j < |image| then image[j] else 0
  {
  }

  lemma PayloadBytes(image: seq<Byte>, n: nat, swapped: bool, k: nat)
    requires n < TotalChunks(|image|)
    requires k < ChunkSize(|image|)
    ensures Payload(image, n, swapped)[k] == StoredByte(image, swapped, n * ChunkSize(|image|) + k)
  {
    hide Chunk, TotalChunks, ChunkSize, Mirror, StoredByte;
    var cs := ChunkSize(|image|);
    MultipleOfFour(n, cs);
    StoredByteIs(image, swapped, n * cs + k);
    if swapped {
      SwapIndex(n * cs, k);
      MirrorBelow(k, cs);
      ChunkBytes(image, n, Mirror(k));
    } else {
      ChunkBytes(image, n, k);
    }
  }

  lemma MultipleOfFour(n: nat, cs: nat)
    requires cs % 4 == 0
    ensures n * cs % 4 == 0
  {
    assert n * cs == 4 * (n * (cs / 4));
  }

  // ---- Request packets ----

  /** op, reserved, checksum, address, data_len, data */
  function Request(lib: Library, op: U16, address: U32, data: seq<Byte>): (p: seq<Byte>)
    requires |data| < 0x1_0000_0000
    ensures |p| == 16 + |data|
  {
    var out := PackI(address) + PackI(|data|);
    PackH(op) + PackH(0) + PackI(lib.crc32(out + data)) + out + data
  }

  /** The request byte by byte. */
  lemma RequestBytes(lib: Library, op: U16, address: U32, data: seq<Byte>)
    requires |data| < 0x1_0000_0000
    ensures var p := Request(lib, op, address, data);
            && LittleEndian(p[0..2]) == op
            && p[2..4] == [0, 0]
            && LittleEndian(p[4..8]) == lib.crc32(p[8..])
            && LittleEndian(p[8..12]) == address
            && LittleEndian(p[12..16]) == |data|
            && p[16..] == data
  {
    hide PackH, PackI, LittleEndian;
    var p := Request(lib, op, address, data);
    var out := PackI(address) + PackI(|data|);
    var crc := lib.crc32(out + data);
    PackIsLittleEndian(op, crc);
    PackIsLittleEndian(op, address);
    PackIsLittleEndian(op, |data|);
    PackedZero();
    assert p[0..2] == PackH(op);
    assert p[2..4] == PackH(0);
    assert p[4..8] == PackI(crc);
    assert p[8..] == out + data;
    assert p[8..12] == PackI(address);
    assert p[12..16] == PackI(|data|);
    assert p[16..] == data;
  }

  lemma PackedZero()
    ensures PackH(0) == [0, 0] && PackI(0) == [0, 0, 0, 0]
  {
  }

  /** The address of frame n. */
  function FrameAddress(image: seq<Byte>, offset: int, n: nat): int {
    n * ChunkSize(|image|) + offset
  }

  /** struct.pack accepts the addresses of the first n frames. */
  predicate Addressable(image: seq<Byte>, offset: int, n: nat) {
    forall k :: 0 <= k < n ==> 0 <= FrameAddress(image, offset, k) < 0x1_0000_0000
  }

  /** What n frames cover. */
  function Covered(image: seq<Byte>, n: nat): nat {
    n * ChunkSize(|image|)
  }

  /** The write requests for the first n frames. */
  function Requests(lib: Library, image: seq<Byte>, offset: int, tosram: bool, swap: bool, n: nat): (ps: seq<seq<Byte>>)
    requires n <= TotalChunks(|image|)
    requires Addressable(image, offset, n)
    ensures |ps| == n
  {
    if n == 0 then []
    else Requests(lib, image, offset, tosram, swap, n - 1) + [WriteRequest(lib, image, offset, tosram, swap, n - 1)]
  }

  /** Frame n. */
  function WriteRequest(lib: Library, image: seq<Byte>, offset: int, tosram: bool, swap: bool, n: nat): (p: seq<Byte>)
    requires n < TotalChunks(|image|)
    requires 0 <= FrameAddress(image, offset, n) < 0x1_0000_0000
    ensures |p| == 16 + ChunkSize(|image|)
  {
    Request(lib, if tosram then SRAM_WRITE else FLASH_WRITE, FrameAddress(image, offset, n),
            Payload(image, n, swap && !tosram))
  }

  /** Frame n in numbers: the operation, where it goes, how long it is, and its byte k. */
  lemma WriteRequestBytes(lib: Library, image: seq<Byte>, offset: int, tosram: bool, swap: bool, n: nat, k: nat)
    requires n < TotalChunks(|image|)
    requires 0 <= FrameAddress(image, offset, n) < 0x1_0000_0000
    requires k < (if |image| < 131072 then 4096 else 65536)
    ensures var p := WriteRequest(lib, image, offset, tosram, swap, n);
            var cs := if |image| < 131072 then 4096 else 65536;
            && |p| == 16 + cs
            && LittleEndian(p[0..2]) == (if tosram then 0xd8 else 0xd4)
            && p[2..4] == [0, 0]
            && LittleEndian(p[4..8]) == lib.crc32(p[8..])
            && LittleEndian(p[8..12]) == n * cs + offset
            && LittleEndian(p[12..16]) == cs
            && p[16 + k] == StoredByte(image, swap && !tosram, n * cs + k)
  {
    hide LittleEndian, Request, Payload, StoredByte, TotalChunks;
    var data := Payload(image, n, swap && !tosram);
    RequestBytes(lib, if tosram then SRAM_WRITE else FLASH_WRITE, FrameAddress(image, offset, n), data);
    PayloadBytes(image, n, swap && !tosram, k);
    var p := WriteRequest(lib, image, offset, tosram, swap, n);
    assert p[16 + k] == p[16..][k];
  }

  // ---- The device ----

  datatype Command = Command(op: U16, address: U32, data: seq<Byte>)

  /** The device takes a packet apart; one whose checksum or length is wrong is ignored. */
  function Parse(lib: Library, p: seq<Byte>): Option<Command> {
    if |p| < 16 then None
    else if UnpackI(p[4..8]) != lib.crc32(p[8..]) || UnpackI(p[12..16]) != |p| - 16 then None
    else Some(Command(UnpackH(p[0..2]), UnpackI(p[8..12]), p[16..]))
  }

  type Memory = map<nat, Byte>

  datatype Device = Device(flash: Memory, sram: Memory)

  function Store(m: Memory, address: nat, data: seq<Byte>): Memory {
    m + (map a: nat | address <= a < address + |data| :: DataAt(data, address, a))
  }

  function DataAt(data: seq<Byte>, address: nat, a: nat): Byte
    requires address <= a < address + |data|
  {
    data[a - address]
  }

  function Execute(lib: Library, d: Device, p: seq<Byte>): Device {
    match Parse(lib, p)
    case None => d
    case Some(c) =>
      if c.op == FLASH_WRITE then d.(flash := Store(d.flash, c.address, c.data))
      else if c.op == SRAM_WRITE then d.(sram := Store(d.sram, c.address, c.data))
      else d
  }

  function ExecuteAll(lib: Library, d: Device, ps: seq<seq<Byte>>): Device {
    if ps == [] then d else Execute(lib, ExecuteAll(lib, d, ps[..|ps| - 1]), ps[|ps| - 1])
  }

  lemma ParseRequest(lib: Library, op: U16, address: U32, data: seq<Byte>)
    requires |data| < 0x1_0000_0000
    ensures Parse(lib, Request(lib, op, address, data)) == Some(Command(op, address, data))
  {
    hide PackH, PackI, UnpackH, UnpackI;
    var p := Request(lib, op, address, data);
    var out := PackI(address) + PackI(|data|);
    var crc := lib.crc32(out + data);
    UnpackPackH(op);
    UnpackPackI(address);
    UnpackPackI(|data|);
    UnpackPackI(crc);
    assert p[0..2] == PackH(op);
    assert p[4..8] == PackI(crc);
    assert p[8..] == out + data;
    assert p[8..12] == PackI(address);
    assert p[12..16] == PackI(|data|);
    assert p[16..] == data;
  }

  /** Receiving the same frame again changes nothing. */
  lemma ExecuteTwice(lib: Library, d: Device, p: seq<Byte>)
    ensures Execute(lib, Execute(lib, d, p), p) == Execute(lib, d, p)
  {
    hide Parse, Store;
    var c := Parse(lib, p);
    if c.Some? {
      StoreTwice(d.flash, c.value.address, c.value.data);
      StoreTwice(d.sram, c.value.address, c.value.data);
    }
  }

  lemma StoreTwice(m: Memory, address: nat, data: seq<Byte>)
    ensures Store(Store(m, address, data), address, data) == Store(m, address, data)
  {
  }

  /** ps is qs with every packet sent between one and five times in a row. */
  ghost predicate Resent(ps: seq<seq<Byte>>, qs: seq<seq<Byte>>)
    decreases qs
  {
    if qs == [] then ps == []
    else exists k :: 1 <= k <= 5 && k <= |ps| && Repeats(ps, k, Last(qs)) && Resent(ps[..|ps| - k], qs[..|qs| - 1])
  }

  function Last(qs: seq<seq<Byte>>): seq<Byte>
    requires qs != []
  {
    qs[|qs| - 1]
  }

  /** The last k packets are all q. */
  predicate Repeats(ps: seq<seq<Byte>>, k: nat, q: seq<Byte>)
    requires k <= |ps|
  {
    forall i :: |ps| - k <= i < |ps| ==> ps[i] == q
  }

  lemma {:induction false} RepeatsDoNothing(lib: Library, d: Device, ps: seq<seq<Byte>>, k: nat, q: seq<Byte>)
    requires 1 <= k <= |ps| && Repeats(ps, k, q)
    ensures ExecuteAll(lib, d, ps) == Execute(lib, ExecuteAll(lib, d, ps[..|ps| - k]), q)
  {
    hide Execute;
    if k > 1 {
      var init := ps[..|ps| - 1];
      RepeatsDoNothing(lib, d, init, k - 1, q);
      assert init[..|init| - (k - 1)] == ps[..|ps| - k];
      ExecuteTwice(lib, ExecuteAll(lib, d, ps[..|ps| - k]), q);
    }
  }

  /** Same-frame resends change nothing on the device. */
  lemma {:induction false} ResendsDoNothing(lib: Library, d: Device, ps: seq<seq<Byte>>, qs: seq<seq<Byte>>)
    requires Resent(ps, qs)
    ensures ExecuteAll(lib, d, ps) == ExecuteAll(lib, d, qs)
    decreases qs
  {
    hide Execute;
    if qs != [] {
      var k :| 1 <= k <= 5 && k <= |ps| && Repeats(ps, k, Last(qs)) && Resent(ps[..|ps| - k], qs[..|qs| - 1]);
      RepeatsDoNothing(lib, d, ps, k, qs[|qs| - 1]);
      ResendsDoNothing(lib, d, ps[..|ps| - k], qs[..|qs| - 1]);
    }
  }

  /** Every packet sent once is one way of sending. */
  lemma {:induction false} ResentOnce(qs: seq<seq<Byte>>)
    ensures Resent(qs, qs)
    decreases qs
  {
    if qs != [] {
      ResentOnce(qs[..|qs| - 1]);
      assert Repeats(qs, 1, Last(qs));
    }
  }

  /** The memory that writing the image leaves behind: its bytes from offset on, all else untouched. */
  ghost predicate Programmed(before: Memory, after: Memory, offset: int, length: nat, image: seq<Byte>, swapped: bool) {
    forall a: nat ::
      if offset <= a < offset + length then a in after && after[a] == StoredByte(image, swapped, a - offset)
      else (a in after <==> a in before) && (a in after ==> after[a] == before[a])
  }

  /** The memory part that a write request reaches. */
  function Target(d: Device, tosram: bool): Memory {
    if tosram then d.sram else d.flash
  }

  /** Flash or SRAM, whichever is written to, holds the image; the other is as before. */
  ghost predicate ImageStored(before: Device, after: Device, image: seq<Byte>, offset: int, length: nat,
                              tosram: bool, swap: bool)
  {
    && Target(after, !tosram) == Target(before, !tosram)
    && Programmed(Target(before, tosram), Target(after, tosram), offset, length, image, swap && !tosram)
  }

  /** No gap and no overlap: the first n frames put the first n chunks of the image in place, and nothing else. */
  lemma {:induction false} RequestsProgram(lib: Library, d: Device, image: seq<Byte>, offset: int, tosram: bool,
                                           swap: bool, n: nat)
    requires n <= TotalChunks(|image|) && Addressable(image, offset, n)
    ensures ImageStored(d, ExecuteAll(lib, d, Requests(lib, image, offset, tosram, swap, n)),
                        image, offset, Covered(image, n), tosram, swap)
  {
    hide Programmed, Execute, StoredByte, Payload, Request, TotalChunks, ChunkSize;
    if n == 0 {
      NothingProgrammed(Target(d, tosram), offset, image, swap && !tosram);
    } else {
      var p := WriteRequest(lib, image, offset, tosram, swap, n - 1);
      var ps := Requests(lib, image, offset, tosram, swap, n);
      RequestsProgram(lib, d, image, offset, tosram, swap, n - 1);
      assert ps[..n - 1] == Requests(lib, image, offset, tosram, swap, n - 1);
      var mid := ExecuteAll(lib, d, ps[..n - 1]);
      WriteRequestStores(lib, mid, image, offset, tosram, swap, n - 1);
      StoreExtends(Target(d, tosram), Target(mid, tosram), offset, n, image, swap && !tosram);
    }
  }

  lemma NothingProgrammed(m: Memory, offset: int, image: seq<Byte>, swapped: bool)
    ensures Programmed(m, m, offset, 0, image, swapped)
  {
  }

  lemma WriteRequestStores(lib: Library, d: Device, image: seq<Byte>, offset: int, tosram: bool, swap: bool, n: nat)
    requires n < TotalChunks(|image|) && 0 <= FrameAddress(image, offset, n) < 0x1_0000_0000
    ensures var after := Execute(lib, d, WriteRequest(lib, image, offset, tosram, swap, n));
            && Target(after, !tosram) == Target(d, !tosram)
            && Target(after, tosram) ==
                 Store(Target(d, tosram), FrameAddress(image, offset, n), Payload(image, n, swap && !tosram))
  {
    hide Request, Parse, Payload, Store;
    ParseRequest(lib, if tosram then SRAM_WRITE else FLASH_WRITE, FrameAddress(image, offset, n),
                 Payload(image, n, swap && !tosram));
  }

  lemma StoreExtends(before: Memory, mid: Memory, offset: int, n: nat, image: seq<Byte>, swapped: bool)
    requires 1 <= n <= TotalChunks(|image|)
    requires FrameAddress(image, offset, n - 1) >= 0
    requires Programmed(before, mid, offset, (n - 1) * ChunkSize(|image|), image, swapped)
    ensures Programmed(before, Store(mid, FrameAddress(image, offset, n - 1), Payload(image, n - 1, swapped)),
                       offset, n * ChunkSize(|image|), image, swapped)
  {
    hide Payload, StoredByte, TotalChunks, ChunkSize;
    var cs := ChunkSize(|image|);
    var start := FrameAddress(image, offset, n - 1);
    var data := Payload(image, n - 1, swapped);
    assert n * cs == (n - 1) * cs + cs;
    var after := Store(mid, start, data);
    forall a: nat
      ensures if offset <= a < offset + n * cs then a in after && after[a] == StoredByte(image, swapped, a - offset)
              else (a in after <==> a in before) && (a in after ==> after[a] == before[a])
    {
      if start <= a < start + cs {
        PayloadBytes(image, n - 1, swapped, a - start);
        assert after[a] == DataAt(data, start, a);
      }
    }
  }
}
