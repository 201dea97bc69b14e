/** Reading the flash back: read_flash, and what it gets from a device that was flashed before. */
module FlashReader {
  import opened Gf256
  import opened AesKeys
  import opened Cbc
  import opened Outcome
  import opened Seqs
  import opened StructPack
  import opened Slip
  import opened SlipLine
  import F = FlashImage
  import opened Flasher

  const FLASH_READ: U16 := 0xda

  function ReadSize(length: int): (rd: U32)
    ensures rd > 0
  {
    if length < 128 * 1024 then 4096 else 65536
  }

  /** The request for one block. */
  function Ask(lib: F.Library, address: U32, rd: U32): Packet {
    F.Request(lib, FLASH_READ, address, PackI(rd))
  }

  /** The read request in numbers. */
  lemma AskBytes(lib: F.Library, address: U32, rd: U32)
    ensures var p := Ask(lib, address, rd);
            && |p| == 20
            && LittleEndian(p[0..2]) == 0xda
            && p[2..4] == [0, 0]
            && LittleEndian(p[4..8]) == lib.crc32(p[8..])
            && LittleEndian(p[8..12]) == address
            && LittleEndian(p[12..16]) == 4
            && LittleEndian(p[16..]) == rd
  {
    hide F.Request, LittleEndian, PackI;
    F.RequestBytes(lib, FLASH_READ, address, PackI(rd));
    PackIsLittleEndian(0, rd);
  }

  datatype ReadLog = ReadLog(requests: seq<Packet>, data: seq<Byte>, ending: Ending, open: bool, rest: seq<Event>)

  function Prepend(requests: seq<Packet>, data: seq<Byte>, log: ReadLog): ReadLog {
    log.(requests := requests + log.requests, data := data + log.data)
  }

  /** All that happens, over an open port, while `left` bytes are still to come. Nothing is asked twice. */
  function Reading(lib: F.Library, left: int, address: int, rd: U32, script: seq<Event>): ReadLog
    requires rd > 0
    decreases left
  {
    if left <= 0 then ReadLog([], [], Done, true, script)
    else if !(0 <= address < 0x1_0000_0000) then ReadLog([], [], Ending.Failed, true, script)
    else
      match AwaitStart(script)
      case Failed(rest) => ReadLog([Ask(lib, address, rd)], [], Ending.Failed, false, rest)
      case Packet(response, rest) =>
        if |response| - 16 != rd then ReadLog([Ask(lib, address, rd)], [], Exited, true, rest)
        else Prepend([Ask(lib, address, rd)], response[16..], Reading(lib, left - rd, address + rd, rd, rest))
  }

  /** One block, as seen from the whole of the reading. */
  lemma ReadingStep(requests: seq<Packet>, data: seq<Byte>, lib: F.Library, left: int, address: int, rd: U32,
                    script: seq<Event>)
    requires rd > 0 && left > 0 && 0 <= address < 0x1_0000_0000
    ensures var more := requests + [Ask(lib, address, rd)];
            Prepend(requests, data, Reading(lib, left, address, rd, script)) ==
              match AwaitStart(script)
              case Failed(rest) => ReadLog(more, data, Ending.Failed, false, rest)
              case Packet(response, rest) =>
                if |response| - 16 != rd then ReadLog(more, data, Exited, true, rest)
                else Prepend(more, data + response[16..], Reading(lib, left - rd, address + rd, rd, rest))
  {
    hide AwaitStart, Ask;
    EmptyConcat(data);
    var received := AwaitStart(script);
    if received.Packet? && |received.data| - 16 == rd {
      var log := Reading(lib, left - rd, address + rd, rd, received.rest);
      ConcatAssociates(requests, [Ask(lib, address, rd)], log.requests);
      ConcatAssociates(data, received.data[16..], log.data);
    }
  }

  /** Request k asks for the k-th block, whatever came before. */
  lemma {:induction false} ReadingAsks(lib: F.Library, left: int, address: int, rd: U32, script: seq<Event>, k: nat)
    requires rd > 0 && k < |Reading(lib, left, address, rd, script).requests|
    ensures 0 <= address + k * rd < 0x1_0000_0000
    ensures Reading(lib, left, address, rd, script).requests[k] == Ask(lib, address + k * rd, rd)
    decreases k
  {
    hide AwaitStart, Ask;
    if k > 0 {
      var rest := AwaitStart(script).rest;
      ReadingAsks(lib, left - rd, address + rd, rd, rest, k - 1);
      OneBlockOn(k, rd);
    }
  }

  lemma OneBlockOn(k: nat, rd: U32)
    requires k > 0
    ensures k * rd == rd + (k - 1) * rd
  {
  }

  /** n blocks are needed for so many bytes. */
  predicate BlocksFor(left: int, rd: U32, n: nat) {
    if left <= 0 then n == 0 else (n - 1) * rd < left <= n * rd
  }

  /** The addresses of n blocks have 32 bits. */
  predicate BlocksFit(address: int, rd: U32, n: nat) {
    n == 0 || (0 <= address && address + (n - 1) * rd < 0x1_0000_0000)
  }

  lemma NextBlocks(left: int, address: int, rd: U32, n: nat)
    requires rd > 0 && n > 0
    ensures BlocksFor(left, rd, n) ==> left > 0 && BlocksFor(left - rd, rd, n - 1)
    ensures BlocksFit(address, rd, n) <==> 0 <= address < 0x1_0000_0000 && BlocksFit(address + rd, rd, n - 1)
  {
    assert n * rd == rd + (n - 1) * rd;
    assert (n - 1) * rd == rd + (n - 2) * rd;
  }

  /** The first n packets have sixteen bytes more than a block. */
  predicate WholeBlocks(responses: seq<Packet>, rd: U32, n: nat)
    decreases n
  {
    n == 0 || (responses != [] && |responses[0]| == 16 + rd && WholeBlocks(responses[1..], rd, n - 1))
  }

  /** The first n packets without their first sixteen bytes. */
  function Bodies(responses: seq<Packet>, rd: U32, n: nat): seq<Byte>
    requires WholeBlocks(responses, rd, n)
    decreases n
  {
    if n == 0 then [] else responses[0][16..] + Bodies(responses[1..], rd, n - 1)
  }

  lemma NoBlocks(address: int, rd: U32)
    ensures BlocksFit(address, rd, 0)
  {
  }

  lemma BringsPacket(lib: F.Library, script: seq<Event>, responses: seq<Packet>)
    requires Brings(script, responses)
    ensures if responses == [] then AwaitStart(script).Failed?
            else AwaitStart(script) == SlipLine.Packet(responses[0], AwaitStart(script).rest)
                 && Brings(AwaitStart(script).rest, responses[1..])
  {
    hide AwaitStart, EscapesUnbroken, Frame;
    if responses == [] {
      NoReply(lib, script);
    } else {
      AwaitFrame(script, responses[0], Wire(responses[1..]));
      FrameSeparates(script);
    }
  }

  /**
    Reading n blocks returns if and only if all addresses have 32 bits and each of the first n packets has sixteen
    bytes more than a block. Then the data are these packets without their first sixteen bytes.
  */
  lemma {:induction false} ReadingReturnsExactly(lib: F.Library, left: int, address: int, rd: U32, script: seq<Event>,
                                                 responses: seq<Packet>, n: nat)
    requires rd > 0 && BlocksFor(left, rd, n) && Brings(script, responses)
    ensures var log := Reading(lib, left, address, rd, script);
            && (log.ending == Done <==> BlocksFit(address, rd, n) && WholeBlocks(responses, rd, n))
            && (log.ending == Done ==> log.data == Bodies(responses, rd, n))
    decreases n
  {
    hide AwaitStart, Ask, BlocksFit, Brings;
    if n > 0 {
      hide BlocksFor;
      NextBlocks(left, address, rd, n);
      BringsPacket(lib, script, responses);
      if responses != [] && |responses[0]| == 16 + rd && 0 <= address < 0x1_0000_0000 {
        ReadingReturnsExactly(lib, left - rd, address + rd, rd, AwaitStart(script).rest, responses[1..], n - 1);
      }
    } else {
      assert BlocksFit(address, rd, n) by { NoBlocks(address, rd); }
    }
  }

  /** A wrong checksum in a response is only reported, so it does not appear here. */
  method ReadFlash(lib: F.Library, port: SerialPort, length: int, address: int)
      returns (ending: Ending, firmware: seq<Byte>)
    requires port.Valid()
    modifies port
    ensures port.Valid()
    ensures !old(port.open) ==>
      && ending == (if length <= 0 then Done else Ending.Failed) && firmware == []
      && port.packets == old(port.packets) && port.incoming == old(port.incoming) && !port.open
    ensures old(port.open) ==>
      var log := Reading(lib, length, address, ReadSize(length), old(port.incoming));
      && ending == log.ending && firmware == log.data && port.incoming == log.rest && port.open == log.open
      && port.packets == old(port.packets) + log.requests
  {
    hide AwaitStart, Ask, Wire, Frame;
    var rdsize := ReadSize(length);
    var recvLen, faddress := 0, address;
    firmware := [];
    ghost var log := Reading(lib, length, address, rdsize, port.incoming);
    ghost var asked: seq<Packet> := [];
    EmptyConcat(port.packets);
    assert log == Prepend([], [], log);
    while recvLen < length
      invariant port.Valid() && rdsize > 0 && port.open == old(port.open)
      invariant port.packets == old(port.packets) + asked
      invariant port.open ==>
        log == Prepend(asked, firmware, Reading(lib, length - recvLen, faddress, rdsize, port.incoming))
      invariant !port.open ==> asked == [] && firmware == [] && recvLen == 0 && port.incoming == old(port.incoming)
    {
      EmptyConcat(asked);
      EmptyConcat(firmware);
      if !(0 <= faddress < 0x1_0000_0000) {
        return Ending.Failed, firmware;
      }
      ReadingStep(asked, firmware, lib, length - recvLen, faddress, rdsize, port.incoming);
      ConcatAssociates(old(port.packets), asked, [Ask(lib, faddress, rdsize)]);
      var unsent := port.Write(Ask(lib, faddress, rdsize));
      if unsent {
        return Ending.Failed, firmware;
      }
      asked := asked + [Ask(lib, faddress, rdsize)];
      var response := port.RecvOneReturn();
      if response.Raised? {
        return Ending.Failed, firmware;
      }
      if |response.value| - 16 != rdsize {
        return Exited, firmware;
      }
      firmware := firmware + response.value[16..];
      recvLen := recvLen + rdsize;
      faddress := faddress + rdsize;
    }
    EmptyConcat(asked);
    EmptyConcat(firmware);
    ending := Done;
  }

  // ---- The device's side ----

  /** Bytes never written read as 0xff. */
  function FlashByte(d: F.Device, a: nat): Byte {
    if a in d.flash then d.flash[a] else 0xff
  }

  function FlashBytes(d: F.Device, address: nat, n: nat): (s: seq<Byte>)
    ensures |s| == n
  {
    seq(n, i requires 0 <= i < n => FlashByte(d, address + i))
  }

  lemma FlashBytesAppend(d: F.Device, address: nat, m: nat, n: nat)
    ensures FlashBytes(d, address, m + n) == FlashBytes(d, address, m) + FlashBytes(d, address + m, n)
  {
    hide FlashByte;
  }

  /** The device answers a read request with sixteen header bytes and the flash content asked for. */
  predicate Answers(lib: F.Library, d: F.Device, request: Packet, response: Packet) {
    match F.Parse(lib, request)
    case None => false
    case Some(c) =>
      && c.op == FLASH_READ && |c.data| == 4
      && |response| == 16 + UnpackI(c.data)
      && response[16..] == FlashBytes(d, c.address, UnpackI(c.data))
  }

  /** One answer for every block of rd bytes from the address on. */
  ghost predicate AnswersAll(lib: F.Library, d: F.Device, address: nat, rd: U32, responses: seq<Packet>) {
    && address + |responses| * rd <= 0x1_0000_0000
    && forall k :: 0 <= k < |responses| ==> AnswersBlock(lib, d, address, rd, responses, k)
  }

  ghost predicate AnswersBlock(lib: F.Library, d: F.Device, address: nat, rd: U32, responses: seq<Packet>, k: nat)
    requires k < |responses|
  {
    0 <= address + k * rd < 0x1_0000_0000 && Answers(lib, d, Ask(lib, address + k * rd, rd), responses[k])
  }

  lemma AnswersExactly(lib: F.Library, d: F.Device, address: U32, rd: U32, response: Packet)
    ensures Answers(lib, d, Ask(lib, address, rd), response) <==>
      |response| == 16 + rd && response[16..] == FlashBytes(d, address, rd)
  {
    hide F.Request, F.Parse, PackI, UnpackI, FlashBytes;
    F.ParseRequest(lib, FLASH_READ, address, PackI(rd));
    UnpackPackI(rd);
  }

  lemma AnswersTail(lib: F.Library, d: F.Device, address: nat, rd: U32, responses: seq<Packet>)
    requires responses != [] && rd > 0 && AnswersAll(lib, d, address, rd, responses)
    ensures AnswersBlock(lib, d, address, rd, responses, 0)
    ensures AnswersAll(lib, d, address + rd, rd, responses[1..])
  {
    hide Ask, Answers;
    var (tail, next) := (responses[1..], address + rd);
    assert |responses| * rd == rd + |tail| * rd;
    forall k: nat | k < |tail| ensures AnswersBlock(lib, d, next, rd, tail, k) {
      assert AnswersBlock(lib, d, address, rd, responses, k + 1);
      assert (k + 1) * rd == rd + k * rd;
    }
  }

  /** When the line brings the device's answers, reading returns the content of the flash, block by block. */
  lemma {:induction false} ReadingReturnsFlash(lib: F.Library, d: F.Device, left: int, address: nat, rd: U32,
                                               responses: seq<Packet>, script: seq<Event>)
    requires rd > 0 && AnswersAll(lib, d, address, rd, responses)
    requires (|responses| - 1) * rd < left <= |responses| * rd
    requires Brings(script, responses)
    ensures var log := Reading(lib, left, address, rd, script);
            && log.ending == Done
            && |log.requests| == |responses|
            && log.data == FlashBytes(d, address, |responses| * rd)
    decreases responses
  {
    hide Ask, Answers, AnswersAll, AwaitStart, Brings, FlashBytes;
    BringsPacket(lib, script, responses);
    if responses == [] {
      NoFlashBytes(d, address);
    } else {
      AnswersTail(lib, d, address, rd, responses);
      AnswersExactly(lib, d, address, rd, responses[0]);
      var tail := responses[1..];
      assert |responses| * rd == rd + |tail| * rd;
      assert (|responses| - 1) * rd == rd + (|tail| - 1) * rd;
      ReadingReturnsFlash(lib, d, left - rd, address + rd, rd, tail, AwaitStart(script).rest);
      FlashBytesAppend(d, address, rd, |tail| * rd);
    }
  }

  lemma NoFlashBytes(d: F.Device, address: nat)
    ensures FlashBytes(d, address, 0) == []
  {
  }

  /**
    Reading back what was flashed: whatever block sizes the two commands choose, the data read from the image's
    address is the stored image, swapped if it was, zeros up to a chunk multiple included as far as they were read.
    An unswapped image is a prefix of the data.
  */
  lemma ReadBack(lib: F.Library, before: F.Device, d: F.Device, image: seq<Byte>, offset: nat, swap: bool, length: nat,
                 responses: seq<Packet>, script: seq<Event>)
    requires F.ImageStored(before, d, image, offset, F.Covered(image, F.TotalChunks(|image|)), false, swap)
    requires length >= |image|
    requires |responses| == F.TotalChunks(length) && AnswersAll(lib, d, offset, ReadSize(length), responses)
    requires Brings(script, responses)
    ensures var log := Reading(lib, length, offset, ReadSize(length), script);
            && log.ending == Done && |log.data| >= length
            && (forall i :: 0 <= i < |log.data| && i < F.Covered(image, F.TotalChunks(|image|)) ==>
                  log.data[i] == F.StoredByte(image, swap, i))
            && (!swap ==> image <= log.data)
  {
    hide Reading, AnswersAll, Brings, F.ImageStored, F.TotalChunks;
    var rd := ReadSize(length);
    BlocksNeeded(length);
    ReadingReturnsFlash(lib, d, length, offset, rd, responses, script);
    FlashHoldsImage(before, d, image, offset, swap);
    var data := Reading(lib, length, offset, rd, script).data;
    forall i | 0 <= i < |data| && i < F.Covered(image, F.TotalChunks(|image|))
      ensures data[i] == F.StoredByte(image, swap, i)
    {
      var a := offset + i;
      assert a in d.flash && data[i] == FlashByte(d, a);
    }
    if !swap {
      assert forall i :: 0 <= i < |image| ==> data[i] == F.StoredByte(image, swap, i) == image[i];
    }
  }

  /** What a program on the device makes of the flash at an address: flag, length, and the deciphered body. */
  function Firmware(d: F.Device, offset: nat, aesKey: seq<Byte>): Option<seq<Byte>> {
    var n := UnpackI(FlashBytes(d, offset + 1, 4));
    var body := FlashBytes(d, offset + 5, n);
    if FlashBytes(d, offset, 1) == [0] then Some(body)
    else if FlashBytes(d, offset, 1) == [1] && ValidKey(aesKey) then
      Some(Join(CbcDecrypt(aesKey, Zeros(16), Blocks(body))))
    else None
  }

  /**
    The whole way: after a complete flash_firmware run with header and hash, a device that decodes the line,
    executes what it gets and opens what it has stored finds the firmware, followed by fewer than sixteen zero
    bytes if it was enciphered.
  */
  lemma FirmwareArrives(lib: F.Library, d: F.Device, firmware: seq<Byte>, aesKey: seq<Byte>, offset: nat,
                        written: seq<Packet>)
    requires F.Image(lib, firmware, aesKey, true, false).Returned?
    requires var image := F.Image(lib, firmware, aesKey, true, false).value;
             var total := F.TotalChunks(|image|);
             && F.Addressable(image, offset, total)
             && F.Resent(written, F.Requests(lib, image, offset, false, false, total))
    ensures var received := Read(IDLE, Wire(written));
            var pad := if aesKey == [] then 0 else (16 - |firmware| % 16) % 16;
            && !received.raised
            && Firmware(F.ExecuteAll(lib, d, received.packets), offset, aesKey) == Some(firmware + Zeros(pad))
  {
    hide F.Image, F.Resent, F.Requests, F.ImageStored, F.TotalChunks, F.ExecuteAll, F.Addressable;
    hide Wire, Read, UnpackI, CbcDecrypt, Blocks, Join, Zeros, FlashBytes;
    var image := F.Image(lib, firmware, aesKey, true, false).value;
    var total := F.TotalChunks(|image|);
    FlashedDevice(lib, d, image, offset, false, false, total, written, false);
    EmptyConcat(written);
    var after := F.ExecuteAll(lib, d, Read(IDLE, Wire(written)).packets);
    FlashHoldsImage(d, after, image, offset, false);
    StoredPlainly(image);
    F.ImageOpens(lib, firmware, aesKey);
    FlashPart(after, offset, image, 0, 1);
    FlashPart(after, offset, image, 1, 5);
    FlashPart(after, offset, image, 5, |image| - 32);
    assert image[0..1] == [image[0]];
  }

  /** In particular when nothing has to be resent. */
  lemma FirmwareArrivesAtOnce(lib: F.Library, d: F.Device, firmware: seq<Byte>, aesKey: seq<Byte>, offset: nat)
    requires F.Image(lib, firmware, aesKey, true, false).Returned?
    requires var image := F.Image(lib, firmware, aesKey, true, false).value;
             F.Addressable(image, offset, F.TotalChunks(|image|))
    ensures var image := F.Image(lib, firmware, aesKey, true, false).value;
            var line := Wire(F.Requests(lib, image, offset, false, false, F.TotalChunks(|image|)));
            var pad := if aesKey == [] then 0 else (16 - |firmware| % 16) % 16;
            Firmware(F.ExecuteAll(lib, d, Read(IDLE, line).packets), offset, aesKey) == Some(firmware + Zeros(pad))
  {
    hide F.Image, F.Resent, F.Requests, F.TotalChunks, F.ExecuteAll, F.Addressable, Wire, Read, Firmware, Zeros;
    var image := F.Image(lib, firmware, aesKey, true, false).value;
    var requests := F.Requests(lib, image, offset, false, false, F.TotalChunks(|image|));
    F.ResentOnce(requests);
    FirmwareArrives(lib, d, firmware, aesKey, offset, requests);
  }

  lemma StoredPlainly(image: seq<Byte>)
    ensures forall i: nat :: i < |image| ==> F.StoredByte(image, false, i) == image[i]
  {
  }

  /**
    The same for the method itself, with the defaults of the command line: the call returns exactly under the
    conditions of ReturnsExactly, and then the device finds the firmware in its flash.
  */
  method FlashAndOpen(lib: F.Library, port: SerialPort, ghost d: F.Device, firmware: seq<Byte>, aesKey: seq<Byte>,
                      offset: nat) returns (ending: Ending)
    requires port.Valid() && port.packets == []
    modifies port
    ensures var built := F.Image(lib, firmware, aesKey, true, false);
            && (ending == Done <==>
                  built.Returned? && Returns(lib, built.value, offset, false, old(port.open), old(port.incoming)))
            && (ending == Done ==>
                  var pad := if aesKey == [] then 0 else (16 - |firmware| % 16) % 16;
                  var after := F.ExecuteAll(lib, d, Read(IDLE, port.outgoing).packets);
                  Firmware(after, offset, aesKey) == Some(firmware + Zeros(pad)))
  {
    hide F.Image, F.Resent, F.TotalChunks, F.ExecuteAll, F.Addressable, F.Requests, Wire, Read, BootRequest;
    hide Flashing, Returns, Firmware, Zeros;
    ghost var open, script := port.open, port.incoming;
    ending := FlashFirmware(lib, port, firmware, aesKey, offset, true, false, true, false);
    ghost var built := F.Image(lib, firmware, aesKey, true, false);
    if built.Returned? {
      ghost var image := built.value;
      ReturnsExactly(lib, image, offset, false, true, false, open, script);
      ghost var written, started := FlashingWrites(lib, image, offset, false, true, false, open, script);
      EmptyConcat(written);
      if ending == Done {
        FirmwareArrives(lib, d, firmware, aesKey, offset, written);
      }
    }
  }

  lemma FlashPart(d: F.Device, offset: nat, image: seq<Byte>, lo: nat, hi: nat)
    requires lo <= hi <= |image|
    requires forall a: nat :: offset <= a < offset + |image| ==> a in d.flash && d.flash[a] == image[a - offset]
    ensures FlashBytes(d, offset + lo, hi - lo) == image[lo..hi]
  {
    forall i | 0 <= i < hi - lo ensures FlashBytes(d, offset + lo, hi - lo)[i] == image[lo..hi][i] {
      var a := offset + lo + i;
      assert a in d.flash && d.flash[a] == image[a - offset];
      assert FlashBytes(d, offset + lo, hi - lo)[i] == FlashByte(d, a);
      assert image[lo..hi][i] == image[lo + i];
    }
  }

  lemma BlocksNeeded(length: nat)
    ensures var (rd, n) := (ReadSize(length), F.TotalChunks(length));
            (n - 1) * rd < length <= n * rd
  {
    ChunksCover(length);
  }
}
