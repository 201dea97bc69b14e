/**
  The flashing loops of MAIXLoader over the serial port: acknowledged frames with resends, and the
  firmware download.
*/
module Flasher {
  import opened Gf256
  import opened Outcome
  import opened Seqs
  import opened AesKeys
  import opened Cbc
  import opened StructPack
  import opened Slip
  import opened SlipLine
  import F = FlashImage

  /** How a call ends: it returns, an exception leaves it, or it exits the process. */
  datatype Ending = Done | Failed | Exited

  const MAX_RETRY_TIMES := 4

  // FlashModeResponse.Operation and FlashModeResponse.ErrorCode
  const OPERATIONS: set<Byte> := {0xd1, 0xd2, 0xd3, 0xd4, 0xd5, 0xd6, 0xd7, 0xd8, 0xd9, 0xda, 0xde, 0xdf}
  const ERROR_CODES: set<Byte> := {0x00, 0xe0, 0xe1, 0xe2, 0xe3, 0xe4}
  const ISP_RET_OK: Byte := 0xe0

  /** flash_recv_debug gets through without an exception on this response (whatever boolean it returns). */
  predicate Acceptable(lib: F.Library, response: Packet) {
    && |response| >= 2
    && response[0] in OPERATIONS
    && (response[0] == 0xd1 ==> lib.decodes(response[2..]))
    && response[1] in ERROR_CODES
  }

  /**
    What flash_recv_debug makes of the events ahead: it returns True, it returns False, it raises over a complete
    packet, or it raises because no packet came, which closes the port.
  */
  datatype Reply =
    | Confirmed(rest: seq<Event>)
    | Doubted(rest: seq<Event>)
    | Unparsable(rest: seq<Event>)
    | Lost(rest: seq<Event>)

  /** The caller of flash_recv_debug sees no exception. */
  predicate Passes(reply: Reply) {
    reply.Confirmed? || reply.Doubted?
  }

  function Judged(lib: F.Library, response: Packet, rest: seq<Event>): Reply {
    if !Acceptable(lib, response) then Unparsable(rest)
    else if response[1] == ISP_RET_OK then Confirmed(rest)
    else Doubted(rest)
  }

  function NextReply(lib: F.Library, script: seq<Event>): Reply {
    match AwaitStart(script)
    case Failed(rest) => Lost(rest)
    case Packet(data, rest) => Judged(lib, data, rest)
  }

  /** How often a frame was written, whether the loop ended without exit and with True, and the port afterwards. */
  datatype Attempts = Attempts(sent: nat, ok: bool, confirmed: bool, open: bool, rest: seq<Event>)

  /**
    The attempts still made after `failures` failed ones, at most five in all. Once the port is closed every
    further attempt fails before anything is written.
  */
  function Try(lib: F.Library, open: bool, script: seq<Event>, failures: nat): (a: Attempts)
    requires failures <= MAX_RETRY_TIMES
    ensures a.sent <= MAX_RETRY_TIMES + 1 - failures && (open ==> a.sent >= 1) && (!open ==> a.sent == 0)
    ensures a.ok ==> a.open && a.sent >= 1
    decreases MAX_RETRY_TIMES - failures
  {
    if !open then Attempts(0, false, false, false, script)
    else
      match NextReply(lib, script)
      case Confirmed(rest) => Attempts(1, true, true, true, rest)
      case Doubted(rest) => Attempts(1, true, false, true, rest)
      case Lost(rest) => Attempts(1, false, false, false, rest)
      case Unparsable(rest) =>
        if failures + 1 > MAX_RETRY_TIMES then Attempts(1, false, false, true, rest)
        else
          var a := Try(lib, true, rest, failures + 1);
          a.(sent := a.sent + 1)
  }

  function Copies(p: Packet, n: nat): (ps: seq<Packet>)
    ensures |ps| == n && forall i :: 0 <= i < n ==> ps[i] == p
  {
    seq(n, _ => p)
  }

  /** The verdict on a packet in numbers: which first and second bytes are known, and which second byte says OK. */
  lemma JudgedExactly(lib: F.Library, p: Packet, rest: seq<Event>)
    ensures var reply := Judged(lib, p, rest);
            var known := |p| >= 2 && ((0xd1 <= p[0] <= 0xda) || p[0] == 0xde || p[0] == 0xdf)
                         && (p[0] != 0xd1 || lib.decodes(p[2..])) && (p[1] == 0 || (0xe0 <= p[1] <= 0xe4));
            reply == if !known then Unparsable(rest) else if p[1] == 0xe0 then Confirmed(rest) else Doubted(rest)
  {
  }

  method FlashRecvDebug(lib: F.Library, port: SerialPort) returns (r: Outcome<bool>)
    modifies port`incoming, port`open
    ensures !old(port.open) ==> r == Raised && port.incoming == old(port.incoming) && !port.open
    ensures old(port.open) ==>
      var reply := NextReply(lib, old(port.incoming));
      && r == (if Passes(reply) then Returned(reply.Confirmed?) else Raised)
      && port.open == !reply.Lost?
      && port.incoming == reply.rest
  {
    hide AwaitStart;
    var response := port.RecvOneReturn();
    if response.Raised? || !Acceptable(lib, response.value) {
      return Raised;
    }
    return Returned(response.value[1] == ISP_RET_OK);
  }

  /** SwapWords as the loop over four-byte groups makes it, raising when a group is cut off. */
  method SwapData(data: seq<Byte>) returns (r: Outcome<seq<Byte>>)
    ensures r == if |data| % 4 == 0 then Returned(F.SwapWords(data)) else Raised
  {
    hide F.Mirror;
    var big := new Byte[|data|](_ => 0);
    var i := 0;
    while i < |data|
      invariant i % 4 == 0 && i <= |data|
      invariant forall k :: 0 <= k < i ==> F.Mirror(k) < i && big[k] == data[F.Mirror(k)]
    {
      if i + 3 >= |data| {
        return Raised;
      }
      F.MirrorGroup(i);
      big[i], big[i + 1], big[i + 2], big[i + 3] := data[i + 3], data[i + 2], data[i + 1], data[i];
      i := i + 4;
    }
    assert big[..] == F.SwapWords(data);
    return Returned(big[..]);
  }

  lemma CopiesNone(p: Packet)
    ensures Copies(p, 0) == []
  {
  }

  lemma CopiesMore(p: Packet, n: nat)
    ensures Copies(p, n + 1) == Copies(p, n) + [p]
  {
  }

  /** One attempt. */
  lemma TryStep(lib: F.Library, open: bool, script: seq<Event>, failures: nat)
    requires failures <= MAX_RETRY_TIMES
    ensures var a := Try(lib, open, script, failures);
            var reply := NextReply(lib, script);
            var last := failures == MAX_RETRY_TIMES;
            if !open then
              a == if last then Attempts(0, false, false, false, script) else Try(lib, false, script, failures + 1)
            else if Passes(reply) then a == Attempts(1, true, reply.Confirmed?, true, reply.rest)
            else if last then a == Attempts(1, false, false, !reply.Lost?, reply.rest)
            else var b := Try(lib, !reply.Lost?, reply.rest, failures + 1); a == b.(sent := b.sent + 1)
  {
  }

  /**
    The retry loop: every attempt that raises is followed by another one, five in all. The boolean of
    flash_recv_debug is ignored.
  */
  method SendFrame(lib: F.Library, port: SerialPort, out: Packet) returns (ending: Ending)
    requires port.Valid()
    modifies port
    ensures port.Valid()
    ensures var a := Try(lib, old(port.open), old(port.incoming), 0);
            && ending == (if a.ok then Done else Exited)
            && port.packets == old(port.packets) + Copies(out, a.sent)
            && port.incoming == a.rest && port.open == a.open
  {
    hide NextReply, Wire, Frame, Try, Copies;
    var retryCount := 0;
    CopiesNone(out);
    EmptyConcat(port.packets);
    ghost var a, sent := Try(lib, port.open, port.incoming, 0), 0;
    while true
      invariant port.Valid() && 0 <= retryCount <= MAX_RETRY_TIMES
      invariant port.packets == old(port.packets) + Copies(out, sent)
      invariant var b := Try(lib, port.open, port.incoming, retryCount); a == b.(sent := b.sent + sent)
      decreases MAX_RETRY_TIMES - retryCount
    {
      TryStep(lib, port.open, port.incoming, retryCount);
      var raised := port.Write(out);
      if !raised {
        CopiesMore(out, sent);
        ConcatAssociates(old(port.packets), Copies(out, sent), [out]);
        sent := sent + 1;
        var r := FlashRecvDebug(lib, port);
        raised := r.Raised?;
      }
      if raised {
        retryCount := retryCount + 1;
        if retryCount > MAX_RETRY_TIMES {
          return Exited;
        }
      } else {
        return Done;
      }
    }
  }

  /** Address or length outside 32 bits, or a cut-off word when swapping, raises before anything is sent. */
  method SendDataToIsp(lib: F.Library, port: SerialPort, data: seq<Byte>, address: int, tosram: bool, swap: bool)
      returns (ending: Ending)
    requires port.Valid()
    modifies port
    ensures port.Valid()
    ensures var swapping := swap && !tosram;
            if (swapping && |data| % 4 != 0) || !(0 <= address < 0x1_0000_0000) || |data| >= 0x1_0000_0000 then
              && ending == Ending.Failed && port.packets == old(port.packets)
              && port.incoming == old(port.incoming) && port.open == old(port.open)
            else
              var field := if swapping then F.SwapWords(data) else data;
              var out := F.Request(lib, if tosram then F.SRAM_WRITE else F.FLASH_WRITE, address, field);
              var a := Try(lib, old(port.open), old(port.incoming), 0);
              && ending == (if a.ok then Done else Exited)
              && port.packets == old(port.packets) + Copies(out, a.sent)
              && port.incoming == a.rest && port.open == a.open
  {
    hide F.Request, Try;
    var field := data;
    if !tosram && swap {
      var swapped := SwapData(data);
      if swapped.Raised? {
        return Ending.Failed;
      }
      field := swapped.value;
    }
    if !(0 <= address < 0x1_0000_0000) || |field| >= 0x1_0000_0000 {
      return Ending.Failed;
    }
    ending := SendFrame(lib, port, F.Request(lib, if tosram then F.SRAM_WRITE else F.FLASH_WRITE, address, field));
  }

  // ---- When a frame gets through ----

  /** The reply to attempt k, if all attempts before it got complete packets that do not parse. */
  function ReplyTo(lib: F.Library, script: seq<Event>, k: nat): Option<Reply>
    decreases k
  {
    var reply := NextReply(lib, script);
    if k == 0 then Some(reply)
    else if reply.Unparsable? then ReplyTo(lib, reply.rest, k - 1)
    else None
  }

  /** The first reply that parses, or fails to come, decides everything. */
  lemma {:induction false} FirstReplyDecides(lib: F.Library, script: seq<Event>, failures: nat, k: nat)
    requires failures + k <= MAX_RETRY_TIMES
    requires ReplyTo(lib, script, k).Some? && !ReplyTo(lib, script, k).value.Unparsable?
    ensures var reply := ReplyTo(lib, script, k).value;
            Try(lib, true, script, failures)
              == Attempts(k + 1, Passes(reply), reply.Confirmed?, !reply.Lost?, reply.rest)
    decreases k
  {
    hide NextReply;
    if k > 0 {
      FirstReplyDecides(lib, NextReply(lib, script).rest, failures + 1, k - 1);
    }
  }

  /** Or there are five replies that do not parse. */
  lemma {:induction false} SomeReplyDecides(lib: F.Library, script: seq<Event>, failures: nat) returns (k: nat)
    requires failures <= MAX_RETRY_TIMES
    ensures failures + k <= MAX_RETRY_TIMES && ReplyTo(lib, script, k).Some?
    ensures var a := Try(lib, true, script, failures);
            !ReplyTo(lib, script, k).value.Unparsable?
            || (!a.ok && a.open && a.sent == MAX_RETRY_TIMES + 1 - failures
                && forall j :: 0 <= j <= MAX_RETRY_TIMES - failures ==>
                     ReplyTo(lib, script, j).Some? && ReplyTo(lib, script, j).value.Unparsable?)
    decreases MAX_RETRY_TIMES - failures
  {
    hide NextReply;
    var reply := NextReply(lib, script);
    if !reply.Unparsable? || failures == MAX_RETRY_TIMES {
      k := 0;
    } else {
      var m := SomeReplyDecides(lib, reply.rest, failures + 1);
      k := m + 1;
      if ReplyTo(lib, reply.rest, m).value.Unparsable? {
        forall j | 0 <= j <= MAX_RETRY_TIMES - failures
          ensures ReplyTo(lib, script, j).Some? && ReplyTo(lib, script, j).value.Unparsable?
        {
          if j > 0 {
            assert ReplyTo(lib, script, j) == ReplyTo(lib, reply.rest, j - 1);
          }
        }
      }
    }
  }

  /**
    A frame gets through if and only if one of the five attempts gets an acceptable response and all attempts
    before it get complete packets that do not parse: a lost acknowledgement is not made up for.
  */
  lemma GetsThroughExactly(lib: F.Library, script: seq<Event>)
    ensures Try(lib, true, script, 0).ok <==>
      exists k :: 0 <= k < 5 && ReplyTo(lib, script, k).Some? && Passes(ReplyTo(lib, script, k).value)
  {
    hide Try, ReplyTo, NextReply;
    var m := SomeReplyDecides(lib, script, 0);
    if !ReplyTo(lib, script, m).value.Unparsable? {
      FirstReplyDecides(lib, script, 0, m);
    }
    if k :| 0 <= k < 5 && ReplyTo(lib, script, k).Some? && Passes(ReplyTo(lib, script, k).value) {
      FirstReplyDecides(lib, script, 0, k);
    }
  }

  /**
    The loop ends only with a response that says OK if and only if none of the five attempts gets another known
    error code after complete packets that do not parse.
  */
  lemma EndsConfirmedExactly(lib: F.Library, script: seq<Event>)
    ensures (Try(lib, true, script, 0).ok ==> Try(lib, true, script, 0).confirmed) <==>
      forall k :: 0 <= k < 5 && ReplyTo(lib, script, k).Some? ==> !ReplyTo(lib, script, k).value.Doubted?
  {
    hide Try, ReplyTo, NextReply;
    var m := SomeReplyDecides(lib, script, 0);
    if !ReplyTo(lib, script, m).value.Unparsable? {
      FirstReplyDecides(lib, script, 0, m);
    }
    forall k | 0 <= k < 5 && ReplyTo(lib, script, k).Some? && ReplyTo(lib, script, k).value.Doubted?
      ensures Try(lib, true, script, 0).ok && !Try(lib, true, script, 0).confirmed
    {
      FirstReplyDecides(lib, script, 0, k);
    }
  }

  /** The same in terms of the packets that a device sends in time. */
  lemma {:induction false} ResponsesDecide(lib: F.Library, script: seq<Event>, responses: seq<Packet>, failures: nat)
    requires failures <= MAX_RETRY_TIMES
    requires InTime(script) && EscapesUnbroken(script) && Payload(script) == Wire(responses)
    ensures Try(lib, true, script, failures).ok <==>
      exists k :: 0 <= k < |responses| && k < 5 - failures && Acceptable(lib, responses[k])
    decreases MAX_RETRY_TIMES - failures
  {
    hide EscapesUnbroken, InTime, Acceptable, AwaitStart, Frame;
    if responses == [] {
      NoReply(lib, script);
    } else {
      var tail := responses[1..];
      AwaitFrame(script, responses[0], Wire(tail));
      FrameSeparates(script);
      var rest := AwaitStart(script).rest;
      if !Acceptable(lib, responses[0]) && failures < MAX_RETRY_TIMES {
        ResponsesDecide(lib, rest, tail, failures + 1);
        if k :| 0 <= k < |responses| && k < 5 - failures && Acceptable(lib, responses[k]) {
          assert tail[k - 1] == responses[k];
        }
        if k :| 0 <= k < |tail| && k < 4 - failures && Acceptable(lib, tail[k]) {
          assert responses[k + 1] == tail[k];
        }
      }
    }
  }

  lemma {:induction false} NoReply(lib: F.Library, script: seq<Event>)
    requires InTime(script) && Payload(script) == []
    ensures NextReply(lib, script).Lost?
  {
    if script != [] {
      NoReply(lib, script[1..]);
    }
  }

  /**
    An acknowledgement that comes after the deadline: the frame goes out once, the port is closed, and the
    process exits although the very next packet on the line is a good acknowledgement.
  */
  lemma LateAcknowledgementExits(lib: F.Library)
    ensures var ack := Arriving(Frame([0xd4, 0xe0]));
            && Try(lib, true, [Expired] + ack, 0) == Attempts(1, false, false, false, ack)
            && NextReply(lib, ack).Confirmed?
  {
    var ack := Arriving(Frame([0xd4, 0xe0]));
    assert ([Expired] + ack)[1..] == ack;
    OneReply([0xd4, 0xe0]);
  }

  /** The device reports a bad checksum: the call returns as after a good acknowledgement. */
  lemma ErrorCodeEndsRetries(lib: F.Library)
    ensures var refusal := Arriving(Frame([0xd4, 0xe2]));
            Try(lib, true, refusal, 0) == Attempts(1, true, false, true, [])
  {
    OneReply([0xd4, 0xe2]);
  }

  lemma AllGot(script: seq<Event>)
    requires Payload(script) == [] && Empty !in script && Expired !in script
    ensures script == []
  {
  }

  lemma OneReply(p: Packet)
    ensures AwaitStart(Arriving(Frame(p))) == SlipLine.Packet(p, [])
  {
    hide AwaitStart, EscapesUnbroken, Frame;
    var script := Arriving(Frame(p));
    ArrivingPayload(Frame(p));
    EmptyConcat(Frame(p));
    AwaitFrame(script, p, []);
    NoEmptyNoBreak(script);
    FrameSeparates(script);
    AwaitFromFront(script);
    AllGot(AwaitStart(script).rest);
  }

  /** The request that starts the program in SRAM. */
  function BootRequest(lib: F.Library): Packet {
    F.Request(lib, F.SRAM_EXECUTE, 0x8000_0000, [])
  }

  /** The start command in numbers. */
  lemma BootRequestBytes(lib: F.Library)
    ensures var p := BootRequest(lib);
            && |p| == 16
            && LittleEndian(p[0..2]) == 0xd9
            && p[2..4] == [0, 0]
            && LittleEndian(p[4..8]) == lib.crc32(p[8..])
            && LittleEndian(p[8..12]) == 0x8000_0000
            && LittleEndian(p[12..16]) == 0
  {
    hide F.Request, LittleEndian;
    F.RequestBytes(lib, F.SRAM_EXECUTE, 0x8000_0000, []);
  }

  lemma ResentMore(ps: seq<Packet>, qs: seq<Packet>, q: Packet, k: nat)
    requires F.Resent(ps, qs) && 1 <= k <= 5
    ensures F.Resent(ps + Copies(q, k), qs + [q])
  {
    var (more, longer) := (ps + Copies(q, k), qs + [q]);
    assert F.Last(longer) == q;
    assert longer[..|longer| - 1] == qs && more[..|more| - k] == ps;
    assert F.Repeats(more, k, F.Last(longer));
  }

  lemma OneMoreFrame(lib: F.Library, image: seq<Byte>, offset: int, tosram: bool, swap: bool, n: nat,
                     written: seq<Packet>, k: nat)
    requires n < F.TotalChunks(|image|) && 1 <= k <= 5
    requires F.Addressable(image, offset, n) && 0 <= F.FrameAddress(image, offset, n) < 0x1_0000_0000
    requires F.Resent(written, F.Requests(lib, image, offset, tosram, swap, n))
    ensures F.Addressable(image, offset, n + 1)
    ensures F.Resent(written + Copies(F.WriteRequest(lib, image, offset, tosram, swap, n), k),
                     F.Requests(lib, image, offset, tosram, swap, n + 1))
  {
    hide F.Resent, F.WriteRequest, F.TotalChunks, Copies;
    ResentMore(written, F.Requests(lib, image, offset, tosram, swap, n),
               F.WriteRequest(lib, image, offset, tosram, swap, n), k);
  }

  /** The prologue of flash_firmware: what is to be stored, or an exception before anything is sent. */
  method BuildImage(lib: F.Library, firmware: seq<Byte>, aesKey: seq<Byte>, sha256Prefix: bool, tosram: bool)
      returns (r: Outcome<seq<Byte>>)
    ensures r == F.Image(lib, firmware, aesKey, sha256Prefix, tosram)
  {
    hide CipherImage, PackI;
    if sha256Prefix && !tosram {
      var body := firmware;
      if aesKey != [] {
        var enciphered := EncryptFirmware(aesKey, firmware);
        if enciphered.Raised? {
          return Raised;
        }
        body := enciphered.value;
      }
      if |body| >= 0x1_0000_0000 {
        return Raised;
      }
      var data := [if aesKey != [] then 1 else 0] + PackI(|body|) + body;
      return Returned(data + lib.sha256(data));
    } else {
      return Returned(firmware);
    }
  }

  // ---- The course of a download ----

  /** How it ends, how many frames have been written at least once, all packets written, and the port afterwards. */
  datatype Course = Course(ending: Ending, frames: nat, sent: seq<Packet>, open: bool, rest: seq<Event>)

  function Prepend(sent: seq<Packet>, c: Course): Course {
    c.(sent := sent + c.sent)
  }

  /** The frames from frame n on. */
  function Sending(lib: F.Library, image: seq<Byte>, offset: int, tosram: bool, swap: bool, n: nat,
                   open: bool, script: seq<Event>): Course
    requires n <= F.TotalChunks(|image|)
    decreases F.TotalChunks(|image|) - n
  {
    if n == F.TotalChunks(|image|) then Course(Done, n, [], open, script)
    else if !(0 <= F.FrameAddress(image, offset, n) < 0x1_0000_0000) then Course(Ending.Failed, n, [], open, script)
    else
      var a := Try(lib, open, script, 0);
      var copies := Copies(F.WriteRequest(lib, image, offset, tosram, swap, n), a.sent);
      if a.ok then Prepend(copies, Sending(lib, image, offset, tosram, swap, n + 1, a.open, a.rest))
      else Course(Exited, if a.sent > 0 then n + 1 else n, copies, a.open, a.rest)
  }

  /** The frames, and the start command after them where one is due. */
  function Flashing(lib: F.Library, image: seq<Byte>, offset: int, tosram: bool, dostart: bool, swap: bool,
                    open: bool, script: seq<Event>): Course
  {
    var c := Sending(lib, image, offset, tosram, swap, 0, open, script);
    if c.ending != Done || !(tosram && dostart) then c
    else if !c.open then c.(ending := Ending.Failed)
    else
      var reply := NextReply(lib, c.rest);
      var ending := if Passes(reply) then Done else Ending.Failed;
      Course(ending, c.frames, c.sent + [BootRequest(lib)], !reply.Lost?, reply.rest)
  }

  /** Nothing more is sent when all frames have been, or when the next address does not fit. */
  lemma SendingStops(lib: F.Library, image: seq<Byte>, offset: int, tosram: bool, swap: bool, n: nat,
                     open: bool, script: seq<Event>, sent: seq<Packet>)
    requires n <= F.TotalChunks(|image|)
    requires n == F.TotalChunks(|image|) || !(0 <= F.FrameAddress(image, offset, n) < 0x1_0000_0000)
    ensures Prepend(sent, Sending(lib, image, offset, tosram, swap, n, open, script))
            == Course(if n == F.TotalChunks(|image|) then Done else Ending.Failed, n, sent, open, script)
  {
    EmptyConcat(sent);
  }

  /** One frame, as seen from the whole download. */
  lemma SendingStep(lib: F.Library, image: seq<Byte>, offset: int, tosram: bool, swap: bool, n: nat,
                    open: bool, script: seq<Event>, sent: seq<Packet>)
    requires n < F.TotalChunks(|image|) && 0 <= F.FrameAddress(image, offset, n) < 0x1_0000_0000
    ensures var a := Try(lib, open, script, 0);
            var more := sent + Copies(F.WriteRequest(lib, image, offset, tosram, swap, n), a.sent);
            Prepend(sent, Sending(lib, image, offset, tosram, swap, n, open, script)) ==
              if a.ok then Prepend(more, Sending(lib, image, offset, tosram, swap, n + 1, a.open, a.rest))
              else Course(Exited, if a.sent > 0 then n + 1 else n, more, a.open, a.rest)
  {
    hide Try, Copies, F.WriteRequest, F.TotalChunks, F.FrameAddress;
    var a := Try(lib, open, script, 0);
    if a.ok {
      ConcatAssociates(sent, Copies(F.WriteRequest(lib, image, offset, tosram, swap, n), a.sent),
                       Sending(lib, image, offset, tosram, swap, n + 1, a.open, a.rest).sent);
    }
  }

  /**
    flash_firmware. The ending, everything written, the port and the events left are those of the download; a
    prologue that raises writes nothing.
  */
  method FlashFirmware(lib: F.Library, port: SerialPort, firmware: seq<Byte>, aesKey: seq<Byte>, addressOffset: int,
                       sha256Prefix: bool, tosram: bool, dostart: bool, swap: bool)
      returns (ending: Ending)
    requires port.Valid()
    modifies port
    ensures port.Valid()
    ensures var built := F.Image(lib, firmware, aesKey, sha256Prefix, tosram);
      if built.Raised? then
        && ending == Ending.Failed && port.packets == old(port.packets) && port.incoming == old(port.incoming)
        && port.open == (old(port.open) && (|aesKey| == 0 || |aesKey| == 16 || |aesKey| == 24 || |aesKey| == 32))
      else
        var c := Flashing(lib, built.value, addressOffset, tosram, dostart, swap, old(port.open), old(port.incoming));
        && ending == c.ending && port.packets == old(port.packets) + c.sent
        && port.open == c.open && port.incoming == c.rest
  {
    hide Wire, Try, F.Image, F.Request, F.Payload, F.TotalChunks, F.ChunkSize, F.Chunk;
    hide NextReply, Copies, Sending, Prepend, BootRequest;
    var built := BuildImage(lib, firmware, aesKey, sha256Prefix, tosram);
    if built.Raised? {
      if aesKey != [] && !ValidKey(aesKey) {
        port.Close();
      }
      return Ending.Failed;
    }
    var image := built.value;
    var total := F.TotalChunks(|image|);
    ghost var sent: seq<Packet> := [];
    ghost var c := Sending(lib, image, addressOffset, tosram, swap, 0, port.open, port.incoming);
    NothingSentYet(c, port.packets);
    var n := 0;
    while n < total
      invariant 0 <= n <= total
      invariant port.Valid() && port.packets == old(port.packets) + sent
      invariant c == Prepend(sent, Sending(lib, image, addressOffset, tosram, swap, n, port.open, port.incoming))
    {
      var chunk := F.Chunk(image, n);
      var address := n * F.ChunkSize(|image|) + addressOffset;
      ghost var open, script := port.open, port.incoming;
      ending := SendDataToIsp(lib, port, chunk, address, tosram, swap);
      ChunkFits(image, n, swap && !tosram);
      if ending == Ending.Failed {
        SendingStops(lib, image, addressOffset, tosram, swap, n, open, script, sent);
        return;
      }
      SendingStep(lib, image, addressOffset, tosram, swap, n, open, script, sent);
      ghost var a := Try(lib, open, script, 0);
      ghost var copies := Copies(F.WriteRequest(lib, image, addressOffset, tosram, swap, n), a.sent);
      ConcatAssociates(old(port.packets), sent, copies);
      sent := sent + copies;
      if ending == Exited {
        return;
      }
      n := n + 1;
    }
    SendingStops(lib, image, addressOffset, tosram, swap, n, port.open, port.incoming, sent);
    if tosram && dostart {
      ConcatAssociates(old(port.packets), sent, [BootRequest(lib)]);
      var unsent := port.Write(BootRequest(lib));
      if unsent {
        return Ending.Failed;
      }
      var r := FlashRecvDebug(lib, port);
      if r.Raised? {
        return Ending.Failed;
      }
    }
    ending := Done;
  }

  lemma NothingSentYet(c: Course, packets: seq<Packet>)
    ensures c == Prepend([], c) && packets == packets + []
  {
  }

  // ---- What is written ----

  /**
    Whatever the replies, the packets written are a prefix of the write requests, in order, each one to five times;
    all of them when the loop ends, and then the port is open.
  */
  lemma {:induction false} SendingWrites(lib: F.Library, image: seq<Byte>, offset: int, tosram: bool, swap: bool,
                                         n: nat, open: bool, script: seq<Event>, written: seq<Packet>)
    requires n <= F.TotalChunks(|image|) && F.Addressable(image, offset, n)
    requires F.Resent(written, F.Requests(lib, image, offset, tosram, swap, n))
    ensures var c := Sending(lib, image, offset, tosram, swap, n, open, script);
            && n <= c.frames <= F.TotalChunks(|image|) && F.Addressable(image, offset, c.frames)
            && F.Resent(written + c.sent, F.Requests(lib, image, offset, tosram, swap, c.frames))
            && (c.ending == Done ==> c.frames == F.TotalChunks(|image|) && c.open == (open || c.frames > n))
    decreases F.TotalChunks(|image|) - n
  {
    hide Try, Copies, F.WriteRequest, F.TotalChunks, F.FrameAddress, F.Addressable, F.Resent, F.Requests;
    EmptyConcat(written);
    if n < F.TotalChunks(|image|) && 0 <= F.FrameAddress(image, offset, n) < 0x1_0000_0000 {
      var a := Try(lib, open, script, 0);
      var copies := Copies(F.WriteRequest(lib, image, offset, tosram, swap, n), a.sent);
      if a.sent > 0 {
        OneMoreFrame(lib, image, offset, tosram, swap, n, written, a.sent);
      } else {
        assert copies == [] by { CopiesNone(F.WriteRequest(lib, image, offset, tosram, swap, n)); }
      }
      if a.ok {
        SendingWrites(lib, image, offset, tosram, swap, n + 1, a.open, a.rest, written + copies);
        ConcatAssociates(written, copies, Sending(lib, image, offset, tosram, swap, n + 1, a.open, a.rest).sent);
      }
    }
  }

  /** The start command, if one was written. */
  function Boot(lib: F.Library, started: bool): seq<Packet> {
    if started then [BootRequest(lib)] else []
  }

  /** The same for the whole call; the start command can only follow the last frame. */
  lemma FlashingWrites(lib: F.Library, image: seq<Byte>, offset: int, tosram: bool, dostart: bool, swap: bool,
                       open: bool, script: seq<Event>) returns (written: seq<Packet>, started: bool)
    ensures var c := Flashing(lib, image, offset, tosram, dostart, swap, open, script);
            var total := F.TotalChunks(|image|);
            && c.frames <= total && F.Addressable(image, offset, c.frames)
            && F.Resent(written, F.Requests(lib, image, offset, tosram, swap, c.frames))
            && c.sent == written + Boot(lib, started)
            && (started ==> tosram && dostart && c.frames == total)
            && (c.ending == Done ==> c.frames == total && started == (tosram && dostart))
            && (c.ending == Done && c.sent != [] ==> c.open)
  {
    hide F.TotalChunks, F.Addressable, F.Resent, F.Requests, Sending, NextReply, BootRequest;
    NothingResent(lib, image, offset, tosram, swap);
    SendingWrites(lib, image, offset, tosram, swap, 0, open, script, []);
    var s := Sending(lib, image, offset, tosram, swap, 0, open, script);
    EmptyConcat(s.sent);
    written, started := s.sent, s.ending == Done && tosram && dostart && s.open;
    if s.frames == 0 {
      ResentNone(written, F.Requests(lib, image, offset, tosram, swap, 0));
    }
  }

  lemma ResentNone(ps: seq<Packet>, qs: seq<Packet>)
    requires qs == [] && F.Resent(ps, qs)
    ensures ps == []
  {
  }

  lemma NothingResent(lib: F.Library, image: seq<Byte>, offset: int, tosram: bool, swap: bool)
    ensures F.Addressable(image, offset, 0) && F.Resent([], F.Requests(lib, image, offset, tosram, swap, 0))
  {
  }

  // ---- When the call returns ----

  /** The events left when n frames get through one after the other; None when one does not. */
  function Through(lib: F.Library, script: seq<Event>, n: nat): Option<seq<Event>>
    decreases n
  {
    if n == 0 then Some(script)
    else
      var a := Try(lib, true, script, 0);
      if a.ok then Through(lib, a.rest, n - 1) else None
  }

  lemma {:induction false} SendingReturns(lib: F.Library, image: seq<Byte>, offset: int, tosram: bool, swap: bool,
                                          n: nat, open: bool, script: seq<Event>)
    requires n <= F.TotalChunks(|image|) && F.Addressable(image, offset, n)
    ensures var c := Sending(lib, image, offset, tosram, swap, n, open, script);
            var total := F.TotalChunks(|image|);
            var left := Through(lib, script, total - n);
            && (c.ending == Done <==> F.Addressable(image, offset, total) && (open || n == total) && left.Some?)
            && (c.ending == Done ==> left == Some(c.rest) && c.open == open)
    decreases F.TotalChunks(|image|) - n
  {
    hide Try, Copies, F.WriteRequest, F.TotalChunks, F.FrameAddress;
    if n < F.TotalChunks(|image|) && 0 <= F.FrameAddress(image, offset, n) < 0x1_0000_0000 {
      var a := Try(lib, open, script, 0);
      if a.ok {
        SendingReturns(lib, image, offset, tosram, swap, n + 1, a.open, a.rest);
      }
    }
  }

  /** The conditions for a return: addresses of 32 bits, an open port, and a reply that passes to everything sent. */
  predicate Returns(lib: F.Library, image: seq<Byte>, offset: int, started: bool, open: bool, script: seq<Event>) {
    var total := F.TotalChunks(|image|);
    && F.Addressable(image, offset, total)
    && (open || (total == 0 && !started))
    && Through(lib, script, total).Some?
    && (started ==> Passes(NextReply(lib, Through(lib, script, total).value)))
  }

  /**
    The call returns if and only if all addresses have 32 bits, the port is open, every frame in turn gets through,
    and the reply to the start command, where one is due, passes.
  */
  lemma ReturnsExactly(lib: F.Library, image: seq<Byte>, offset: int, tosram: bool, dostart: bool, swap: bool,
                       open: bool, script: seq<Event>)
    ensures Flashing(lib, image, offset, tosram, dostart, swap, open, script).ending == Done
            <==> Returns(lib, image, offset, tosram && dostart, open, script)
  {
    hide F.TotalChunks, Sending, Through, NextReply, BootRequest, F.FrameAddress;
    SendingReturns(lib, image, offset, tosram, swap, 0, open, script);
  }

  // ---- The same in terms of the packets that a device sends in time ----

  /** The responses left when a frame has `attempts` attempts; None when none of those it gets is acceptable. */
  function Served(lib: F.Library, responses: seq<Packet>, attempts: nat): Option<seq<Packet>> {
    if responses == [] || attempts == 0 then None
    else if Acceptable(lib, responses[0]) then Some(responses[1..])
    else Served(lib, responses[1..], attempts - 1)
  }

  function ServedAll(lib: F.Library, responses: seq<Packet>, n: nat): Option<seq<Packet>>
    decreases n
  {
    if n == 0 then Some(responses)
    else
      match Served(lib, responses, MAX_RETRY_TIMES + 1)
      case None => None
      case Some(more) => ServedAll(lib, more, n - 1)
  }

  /** The line brings just these packets, in time and without a pause inside an escape sequence. */
  ghost predicate Brings(script: seq<Event>, responses: seq<Packet>) {
    InTime(script) && EscapesUnbroken(script) && Payload(script) == Wire(responses)
  }

  lemma BringsFirst(lib: F.Library, script: seq<Event>, responses: seq<Packet>)
    requires Brings(script, responses)
    ensures if responses == [] then NextReply(lib, script).Lost?
            else NextReply(lib, script) == Judged(lib, responses[0], NextReply(lib, script).rest)
                 && Brings(NextReply(lib, script).rest, responses[1..])
  {
    hide EscapesUnbroken, InTime, Acceptable, AwaitStart, Frame;
    if responses == [] {
      NoReply(lib, script);
    } else {
      AwaitFrame(script, responses[0], Wire(responses[1..]));
      FrameSeparates(script);
    }
  }

  lemma {:induction false} TryServed(lib: F.Library, script: seq<Event>, responses: seq<Packet>, failures: nat)
    requires failures <= MAX_RETRY_TIMES && Brings(script, responses)
    ensures var (a, left) := (Try(lib, true, script, failures), Served(lib, responses, MAX_RETRY_TIMES + 1 - failures));
            && (a.ok <==> left.Some?)
            && (a.ok ==> Brings(a.rest, left.value))
            && (responses != [] && Acceptable(lib, responses[0]) ==> a.sent == 1)
    decreases MAX_RETRY_TIMES - failures
  {
    hide Brings, NextReply, Acceptable;
    BringsFirst(lib, script, responses);
    if responses != [] && !Acceptable(lib, responses[0]) && failures < MAX_RETRY_TIMES {
      TryServed(lib, NextReply(lib, script).rest, responses[1..], failures + 1);
    }
  }

  lemma {:induction false} ThroughServed(lib: F.Library, script: seq<Event>, responses: seq<Packet>, n: nat)
    requires Brings(script, responses)
    ensures var (rest, left) := (Through(lib, script, n), ServedAll(lib, responses, n));
            (rest.Some? <==> left.Some?) && (rest.Some? ==> Brings(rest.value, left.value))
    decreases n
  {
    hide Brings, Try, Served;
    if n > 0 {
      TryServed(lib, script, responses, 0);
      var a := Try(lib, true, script, 0);
      if a.ok {
        ThroughServed(lib, a.rest, Served(lib, responses, MAX_RETRY_TIMES + 1).value, n - 1);
      }
    }
  }

  /**
    Over an open port the call returns if and only if the addresses have 32 bits, every frame in turn finds an
    acceptable packet among the next five, and the packet after these, where the start command is due, is acceptable.
  */
  lemma DownloadReturnsExactly(lib: F.Library, image: seq<Byte>, offset: int, tosram: bool, dostart: bool, swap: bool,
                               script: seq<Event>, responses: seq<Packet>)
    requires Brings(script, responses)
    ensures var left := ServedAll(lib, responses, F.TotalChunks(|image|));
            Flashing(lib, image, offset, tosram, dostart, swap, true, script).ending == Done <==>
              && F.Addressable(image, offset, F.TotalChunks(|image|))
              && left.Some?
              && (tosram && dostart ==> left.value != [] && Acceptable(lib, left.value[0]))
  {
    hide Flashing, F.TotalChunks, F.Addressable, Through, ServedAll, Brings, NextReply, Acceptable;
    var total := F.TotalChunks(|image|);
    ReturnsExactly(lib, image, offset, tosram, dostart, swap, true, script);
    ThroughServed(lib, script, responses, total);
    if Through(lib, script, total).Some? {
      BringsFirst(lib, Through(lib, script, total).value, ServedAll(lib, responses, total).value);
    }
  }

  /** A device that sends one acceptable packet for every packet it gets, and sends it in time. */
  ghost predicate Prompt(lib: F.Library, script: seq<Event>, responses: seq<Packet>, n: nat) {
    Brings(script, responses) && |responses| == n && forall k :: 0 <= k < n ==> Acceptable(lib, responses[k])
  }

  lemma {:induction false} PromptSending(lib: F.Library, image: seq<Byte>, offset: int, tosram: bool, swap: bool,
                                         n: nat, script: seq<Event>, responses: seq<Packet>)
    requires n <= F.TotalChunks(|image|) && F.Addressable(image, offset, F.TotalChunks(|image|))
    requires |responses| >= F.TotalChunks(|image|) - n && Prompt(lib, script, responses, |responses|)
    ensures var (total, c) := (F.TotalChunks(|image|), Sending(lib, image, offset, tosram, swap, n, true, script));
            && c.ending == Done && c.open
            && c.sent == F.Requests(lib, image, offset, tosram, swap, total)[n..]
            && Prompt(lib, c.rest, responses[total - n..], |responses| - (total - n))
    decreases F.TotalChunks(|image|) - n
  {
    hide Try, Copies, F.WriteRequest, F.TotalChunks, F.FrameAddress, F.Requests, Brings, Acceptable;
    var total := F.TotalChunks(|image|);
    if n == total {
      assert responses[0..] == responses;
    } else {
      TryServed(lib, script, responses, 0);
      var a := Try(lib, true, script, 0);
      var tail := responses[1..];
      assert Served(lib, responses, MAX_RETRY_TIMES + 1) == Some(tail);
      PromptSending(lib, image, offset, tosram, swap, n + 1, a.rest, tail);
      assert tail[total - (n + 1)..] == responses[total - n..];
      var request := F.WriteRequest(lib, image, offset, tosram, swap, n);
      assert Copies(request, 1) == [request] by { CopiesMore(request, 0); CopiesNone(request); }
      RequestAt(lib, image, offset, tosram, swap, total, n);
    }
  }

  lemma {:induction false} RequestAt(lib: F.Library, image: seq<Byte>, offset: int, tosram: bool, swap: bool,
                                     n: nat, k: nat)
    requires k < n <= F.TotalChunks(|image|) && F.Addressable(image, offset, n)
    ensures var ps := F.Requests(lib, image, offset, tosram, swap, n);
            ps[k] == F.WriteRequest(lib, image, offset, tosram, swap, k) && ps[k..] == [ps[k]] + ps[k + 1..]
    decreases n
  {
    hide F.WriteRequest, F.TotalChunks, F.FrameAddress;
    if k < n - 1 {
      RequestAt(lib, image, offset, tosram, swap, n - 1, k);
    }
  }

  /**
    With one acceptable packet in time for every packet sent, the call returns, and every frame has been sent
    exactly once.
  */
  lemma PromptDeviceReturns(lib: F.Library, image: seq<Byte>, offset: int, tosram: bool, dostart: bool, swap: bool,
                            script: seq<Event>, responses: seq<Packet>)
    requires F.Addressable(image, offset, F.TotalChunks(|image|))
    requires Prompt(lib, script, responses, F.TotalChunks(|image|) + if tosram && dostart then 1 else 0)
    ensures var c := Flashing(lib, image, offset, tosram, dostart, swap, true, script);
            && c.ending == Done && c.open
            && c.sent ==
                 F.Requests(lib, image, offset, tosram, swap, F.TotalChunks(|image|)) + Boot(lib, tosram && dostart)
  {
    hide Sending, F.TotalChunks, F.Addressable, F.Requests, Brings, Acceptable, NextReply, BootRequest;
    var total := F.TotalChunks(|image|);
    PromptSending(lib, image, offset, tosram, swap, 0, script, responses);
    var requests := F.Requests(lib, image, offset, tosram, swap, total);
    assert requests[0..] == requests;
    EmptyConcat(requests);
    BringsFirst(lib, Sending(lib, image, offset, tosram, swap, 0, true, script).rest, responses[total..]);
  }

  lemma ChunkFits(image: seq<Byte>, n: nat, swapped: bool)
    requires n < F.TotalChunks(|image|)
    ensures |F.Chunk(image, n)| % 4 == 0 && |F.Chunk(image, n)| < 0x1_0000_0000
    ensures F.Payload(image, n, swapped) == if swapped then F.SwapWords(F.Chunk(image, n)) else F.Chunk(image, n)
  {
    hide F.Chunk;
  }

  // ---- End to end ----

  /**
    A device that takes the line apart with the SLIP reader and executes what it gets ends with the image in
    place and nothing else changed, however often each frame was resent and whether or not the start command
    followed.
  */
  lemma FlashedDevice(lib: F.Library, d: F.Device, image: seq<Byte>, offset: int, tosram: bool, swap: bool,
                      frames: nat, written: seq<Packet>, boot: bool)
    requires frames <= F.TotalChunks(|image|) && F.Addressable(image, offset, frames)
    requires F.Resent(written, F.Requests(lib, image, offset, tosram, swap, frames))
    ensures var line := Wire(written + Boot(lib, boot));
            var received := Read(IDLE, line);
            && !received.raised
            && F.ImageStored(d, F.ExecuteAll(lib, d, received.packets), image, offset,
                             F.Covered(image, frames), tosram, swap)
  {
    hide Wire, Read, F.Resent, F.ImageStored, F.Requests, F.Request, F.Execute, F.TotalChunks, F.ChunkSize;
    var sent := written + Boot(lib, boot);
    ReaderRoundTrip(sent);
    F.RequestsProgram(lib, d, image, offset, tosram, swap, frames);
    F.ResendsDoNothing(lib, d, written, F.Requests(lib, image, offset, tosram, swap, frames));
    if boot {
      assert sent[..|sent| - 1] == written;
      BootStoresNothing(lib, F.ExecuteAll(lib, d, written));
    } else {
      assert sent == written;
    }
  }

  lemma BootStoresNothing(lib: F.Library, d: F.Device)
    ensures F.Execute(lib, d, BootRequest(lib)) == d
  {
    hide F.Request, F.Parse;
    F.ParseRequest(lib, F.SRAM_EXECUTE, 0x8000_0000, []);
  }

  /**
    flash_firmware on a new line, with the device at its other end. The call returns exactly under the conditions of
    ReturnsExactly, and then the device holds the whole image; in every other run it holds the chunks of the frames
    that were written. Nothing else changes on the device.
  */
  method FlashDevice(lib: F.Library, port: SerialPort, ghost d: F.Device, firmware: seq<Byte>, aesKey: seq<Byte>,
                     addressOffset: int, sha256Prefix: bool, tosram: bool, dostart: bool, swap: bool)
      returns (ending: Ending)
    requires port.Valid() && port.packets == []
    modifies port
    ensures var built := F.Image(lib, firmware, aesKey, sha256Prefix, tosram);
            var received := Read(IDLE, port.outgoing);
            && !received.raised
            && if built.Raised? then ending == Ending.Failed && received.packets == []
               else
                 var image := built.value;
                 var (open, script) := (old(port.open), old(port.incoming));
                 var c := Flashing(lib, image, addressOffset, tosram, dostart, swap, open, script);
                 && F.ImageStored(d, F.ExecuteAll(lib, d, received.packets), image, addressOffset,
                                  F.Covered(image, c.frames), tosram, swap)
                 && ending == c.ending
                 && (ending == Done <==> Returns(lib, image, addressOffset, tosram && dostart, open, script))
                 && (ending == Done ==> c.frames == F.TotalChunks(|image|))
  {
    hide F.Image, F.Resent, F.ImageStored, F.TotalChunks, F.ExecuteAll, F.Addressable, F.Requests, Wire, Read;
    hide BootRequest, Flashing, Returns;
    ghost var open, script := port.open, port.incoming;
    ending := FlashFirmware(lib, port, firmware, aesKey, addressOffset, sha256Prefix, tosram, dostart, swap);
    ghost var built := F.Image(lib, firmware, aesKey, sha256Prefix, tosram);
    ReaderRoundTrip(port.packets);
    if built.Returned? {
      ghost var image := built.value;
      EmptyConcat(Flashing(lib, image, addressOffset, tosram, dostart, swap, open, script).sent);
      ReturnsExactly(lib, image, addressOffset, tosram, dostart, swap, open, script);
      ghost var written, started := FlashingWrites(lib, image, addressOffset, tosram, dostart, swap, open, script);
      FlashedDevice(lib, d, image, addressOffset, tosram, swap,
                    Flashing(lib, image, addressOffset, tosram, dostart, swap, open, script).frames, written, started);
    }
  }

  /**
    The same without a header, in terms of the firmware alone. The call returns exactly under the conditions of
    ReturnsExactly for the bare firmware, and then the memory written to reads as the firmware, four-byte groups
    reversed where that was asked for, and zeros up to a multiple of the frame size; nothing else has changed.
  */
  method FlashBare(lib: F.Library, port: SerialPort, ghost d: F.Device, firmware: seq<Byte>, aesKey: seq<Byte>,
                   offset: int, sha256Prefix: bool, tosram: bool, dostart: bool, swap: bool)
      returns (ending: Ending)
    requires port.Valid() && port.packets == [] && (tosram || !sha256Prefix)
    modifies port
    ensures ending == Done <==>
      Returns(lib, firmware, offset, tosram && dostart, old(port.open), old(port.incoming))
    ensures ending == Done ==>
      var size := if |firmware| < 131072 then 4096 else 65536;
      var length := (|firmware| + size - 1) / size * size;
      var after := F.ExecuteAll(lib, d, Read(IDLE, port.outgoing).packets);
      var (was, now) := if tosram then (d.sram, after.sram) else (d.flash, after.flash);
      && (if tosram then after.flash == d.flash else after.sram == d.sram)
      && forall a: nat ::
           if offset <= a < offset + length then
             var i := a - offset;
             var j := if swap && !tosram then i / 4 * 4 + 3 - i % 4 else i;
             a in now && now[a] == if j < |firmware| then firmware[j] else 0
           else (a in now <==> a in was) && (a in now ==> now[a] == was[a])
  {
    hide F.ExecuteAll, Read, Returns, Flashing;
    ending := FlashDevice(lib, port, d, firmware, aesKey, offset, sha256Prefix, tosram, dostart, swap);
  }

  /** The stored image can be read at its address, swapped if it was; zeros fill the last chunk. */
  lemma FlashHoldsImage(before: F.Device, after: F.Device, image: seq<Byte>, offset: nat, swap: bool)
    requires F.ImageStored(before, after, image, offset, F.Covered(image, F.TotalChunks(|image|)), false, swap)
    ensures forall a: nat :: offset <= a < offset + F.Covered(image, F.TotalChunks(|image|)) ==>
              a in after.flash && after.flash[a] == F.StoredByte(image, swap, a - offset)
    ensures |image| <= F.Covered(image, F.TotalChunks(|image|)) < |image| + F.ChunkSize(|image|)
    ensures after.sram == before.sram
  {
    ChunksCover(|image|);
  }

  lemma ChunksCover(length: nat)
    ensures length <= F.TotalChunks(length) * F.ChunkSize(length) < length + F.ChunkSize(length)
  {
  }

  /** No two frames of an image are alike: they carry different addresses. */
  lemma FramesDiffer(lib: F.Library, image: seq<Byte>, offset: int, tosram: bool, swap: bool, i: nat, j: nat)
    requires i < j < F.TotalChunks(|image|) && F.Addressable(image, offset, j + 1)
    ensures F.WriteRequest(lib, image, offset, tosram, swap, i) != F.WriteRequest(lib, image, offset, tosram, swap, j)
  {
    hide F.Request, F.Parse, F.Payload, F.TotalChunks;
    var cs := F.ChunkSize(|image|);
    var op := if tosram then F.SRAM_WRITE else F.FLASH_WRITE;
    F.ParseRequest(lib, op, F.FrameAddress(image, offset, i), F.Payload(image, i, swap && !tosram));
    F.ParseRequest(lib, op, F.FrameAddress(image, offset, j), F.Payload(image, j, swap && !tosram));
    assert (j - i) * cs > 0;
    assert j * cs - i * cs == (j - i) * cs;
  }
}
