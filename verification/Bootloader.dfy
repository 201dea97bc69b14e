/**
  Loading the second-stage loader into SRAM through the loader in ROM. The address moves on with every frame
  sent, whether or not it is acknowledged, so a frame that is refused is sent again to a later address.
*/
module Bootloader {
  import opened Gf256
  import opened Outcome
  import opened Seqs
  import opened StructPack
  import opened Slip
  import opened SlipLine
  import F = FlashImage
  import opened Flasher

  const ISP_SRAM_START_ADDRESS := 0x805E_0000
  const DATAFRAME_SIZE := 1024
  const MEMORY_WRITE: U16 := 0xc3

  // ISPResponse.ErrorCode: those that recv_debug takes for success, and the others
  const OK_CODES: set<Byte> := {0x00, 0xe0}
  const RETRY_CODES: set<Byte> := {0xe1, 0xe2, 0xe3}

  /** recv_debug returns True, it returns False, or it raises; only a failed reception closes the port. */
  datatype Answer = Accepted(rest: seq<Event>) | Refused(rest: seq<Event>) | Broken(rest: seq<Event>, open: bool)

  /** What recv_debug makes of the events ahead. An unknown operation or undecodable text is only warned about. */
  function NextAnswer(script: seq<Event>): (a: Answer)
    ensures !a.Broken? ==> |a.rest| < |script|
  {
    match AwaitStart(script)
    case Failed(rest) => Broken(rest, false)
    case Packet(data, rest) =>
      if |data| < 2 then Broken(rest, true)
      else if data[1] in OK_CODES then Accepted(rest)
      else if data[1] in RETRY_CODES then Refused(rest)
      else Broken(rest, true)
  }

  /** The answer in terms of the packet that comes first, in numbers. */
  lemma AnswerExactly(script: seq<Event>)
    ensures match AwaitStart(script)
            case Failed(rest) => NextAnswer(script) == Broken(rest, false)
            case Packet(p, rest) =>
              NextAnswer(script) ==
                if |p| >= 2 && (p[1] == 0 || p[1] == 0xe0) then Accepted(rest)
                else if |p| >= 2 && 0xe1 <= p[1] <= 0xe3 then Refused(rest)
                else Broken(rest, true)
  {
    hide AwaitStart;
  }

  type Chunk = s: seq<Byte> | |s| <= DATAFRAME_SIZE

  /** The chunk that chunks() yields at i. */
  function Piece(data: seq<Byte>, i: nat): (c: Chunk)
    requires i < |data|
    ensures |c| == if i + DATAFRAME_SIZE < |data| then DATAFRAME_SIZE else |data| - i
    ensures |c| > 0
  {
    data[i..F.Min(i + DATAFRAME_SIZE, |data|)]
  }

  /** One frame sent: the chunk at i, where it was sent to, and whether the answer accepted it. */
  datatype Attempt = Attempt(i: nat, address: U32, chunk: Chunk, accepted: bool)

  datatype Log = Log(attempts: seq<Attempt>, done: bool, open: bool, rest: seq<Event>)

  function Prepend(sent: seq<Attempt>, log: Log): Log {
    log.(attempts := sent + log.attempts)
  }

  /** All that is sent from chunk i on, starting at the given address, over a port that is open. */
  function Install(data: seq<Byte>, i: nat, address: nat, script: seq<Event>): Log
    decreases |script|
  {
    if i >= |data| then Log([], true, true, script)
    else if address >= 0x1_0000_0000 then Log([], false, true, script)
    else
      var c := Piece(data, i);
      match NextAnswer(script)
      case Accepted(rest) =>
        Prepend([Attempt(i, address, c, true)], Install(data, i + DATAFRAME_SIZE, address + |c|, rest))
      case Refused(rest) =>
        Prepend([Attempt(i, address, c, false)], Install(data, i, address + |c|, rest))
      case Broken(rest, open) => Log([Attempt(i, address, c, false)], false, open, rest)
  }

  function Frames(lib: F.Library, attempts: seq<Attempt>): seq<Packet> {
    if attempts == [] then []
    else [F.Request(lib, MEMORY_WRITE, attempts[0].address, attempts[0].chunk)] + Frames(lib, attempts[1..])
  }

  /** The frame of an attempt in numbers. */
  lemma FrameBytes(lib: F.Library, a: Attempt)
    ensures |Frames(lib, [a])| == 1
    ensures var p := Frames(lib, [a])[0];
            && |p| == 16 + |a.chunk|
            && LittleEndian(p[0..2]) == 0xc3
            && p[2..4] == [0, 0]
            && LittleEndian(p[4..8]) == lib.crc32(p[8..])
            && LittleEndian(p[8..12]) == a.address
            && LittleEndian(p[12..16]) == |a.chunk|
            && p[16..] == a.chunk
  {
    hide F.Request, LittleEndian;
    assert [a][1..] == [];
    F.RequestBytes(lib, MEMORY_WRITE, a.address, a.chunk);
  }

  lemma {:induction false} FramesAppend(lib: F.Library, attempts: seq<Attempt>, a: Attempt)
    ensures Frames(lib, attempts + [a]) == Frames(lib, attempts) + [F.Request(lib, MEMORY_WRITE, a.address, a.chunk)]
  {
    hide F.Request;
    if attempts != [] {
      ConcatTail(attempts, [a]);
      FramesAppend(lib, attempts[1..], a);
    } else {
      assert [a][1..] == [];
    }
  }

  /** Sending one frame, as seen from all that is sent. */
  lemma InstallStep(sent: seq<Attempt>, data: seq<Byte>, i: nat, address: nat, script: seq<Event>)
    requires i < |data| && address < 0x1_0000_0000
    ensures var (c, answer) := (Piece(data, i), NextAnswer(script));
            var more := sent + [Attempt(i, address, c, answer.Accepted?)];
            Prepend(sent, Install(data, i, address, script)) ==
              match answer
              case Accepted(rest) => Prepend(more, Install(data, i + DATAFRAME_SIZE, address + |c|, rest))
              case Refused(rest) => Prepend(more, Install(data, i, address + |c|, rest))
              case Broken(rest, open) => Log(more, false, open, rest)
  {
    hide NextAnswer;
    var (c, answer) := (Piece(data, i), NextAnswer(script));
    var next := if answer.Accepted? then i + DATAFRAME_SIZE else i;
    if !answer.Broken? {
      ConcatAssociates(sent, [Attempt(i, address, c, answer.Accepted?)],
                       Install(data, next, address + |c|, answer.rest).attempts);
    }
  }

  method RecvDebug(port: SerialPort) returns (accepted: Option<bool>)
    requires port.open
    modifies port`incoming, port`open
    ensures match NextAnswer(old(port.incoming))
            case Accepted(rest) => accepted == Some(true) && port.incoming == rest && port.open
            case Refused(rest) => accepted == Some(false) && port.incoming == rest && port.open
            case Broken(rest, open) => accepted == None && port.incoming == rest && port.open == open
  {
    hide AwaitStart;
    var response := port.RecvOneReturn();
    if response.Raised? || |response.value| < 2 {
      return None;
    }
    var reason := response.value[1];
    if reason !in OK_CODES && reason !in RETRY_CODES {
      return None;
    }
    return Some(reason in OK_CODES);
  }

  /** Nothing more is sent when the data is used up or the address does not fit any more. */
  lemma InstallStop(sent: seq<Attempt>, data: seq<Byte>, i: nat, address: nat, script: seq<Event>)
    requires i >= |data| || address >= 0x1_0000_0000
    ensures Prepend(sent, Install(data, i, address, script)) == Log(sent, i >= |data|, true, script)
  {
    EmptyConcat(sent);
  }

  /** One frame and its answer; on a closed port nothing is sent. */
  method SendPiece(lib: F.Library, port: SerialPort, address: U32, chunk: Chunk) returns (accepted: Option<bool>)
    requires port.Valid()
    modifies port
    ensures port.Valid()
    ensures !old(port.open) ==>
      accepted == None && port.packets == old(port.packets) && port.incoming == old(port.incoming) && !port.open
    ensures old(port.open) ==> port.packets == old(port.packets) + [F.Request(lib, MEMORY_WRITE, address, chunk)]
    ensures old(port.open) ==>
      match NextAnswer(old(port.incoming))
      case Accepted(rest) => accepted == Some(true) && port.incoming == rest && port.open
      case Refused(rest) => accepted == Some(false) && port.incoming == rest && port.open
      case Broken(rest, open) => accepted == None && port.incoming == rest && port.open == open
  {
    hide NextAnswer, F.Request, Wire, Frame;
    var raised := port.Write(F.Request(lib, MEMORY_WRITE, address, chunk));
    if raised {
      return None;
    }
    accepted := RecvDebug(port);
  }

  method InstallFlashBootloader(lib: F.Library, port: SerialPort, data: seq<Byte>) returns (ending: Ending)
    requires port.Valid()
    modifies port
    ensures port.Valid()
    ensures !old(port.open) ==>
      && ending == (if data == [] then Done else Ending.Failed)
      && port.packets == old(port.packets) && port.incoming == old(port.incoming) && !port.open
    ensures old(port.open) ==>
      var log := Install(data, 0, ISP_SRAM_START_ADDRESS, old(port.incoming));
      && ending == (if log.done then Done else Ending.Failed)
      && port.packets == old(port.packets) + Frames(lib, log.attempts)
      && port.incoming == log.rest && port.open == log.open
  {
    hide NextAnswer, F.Request, Wire, Frame, Install, Frames, Prepend;
    var i, address := 0, ISP_SRAM_START_ADDRESS;
    ghost var log := Install(data, 0, ISP_SRAM_START_ADDRESS, port.incoming);
    ghost var sent: seq<Attempt> := [];
    NothingSent(lib, log);
    EmptyConcat(port.packets);
    while i < |data|
      invariant port.Valid() && address >= 0 && i >= 0
      invariant port.packets == old(port.packets) + Frames(lib, sent) && port.open == old(port.open)
      invariant port.open ==> log == Prepend(sent, Install(data, i, address, port.incoming))
      invariant !port.open ==>
        i == 0 && address == ISP_SRAM_START_ADDRESS && sent == [] && port.incoming == old(port.incoming)
    {
      var chunk := Piece(data, i);
      while true
        invariant port.Valid() && address >= 0
        invariant port.packets == old(port.packets) + Frames(lib, sent) && port.open == old(port.open)
        invariant port.open ==> log == Prepend(sent, Install(data, i, address, port.incoming))
        invariant !port.open ==>
          i == 0 && address == ISP_SRAM_START_ADDRESS && sent == [] && port.incoming == old(port.incoming)
        decreases |port.incoming|
      {
        if address >= 0x1_0000_0000 {
          InstallStop(sent, data, i, address, port.incoming);
          return Ending.Failed;
        }
        ghost var attempt := Attempt(i, address, chunk, NextAnswer(port.incoming).Accepted?);
        InstallStep(sent, data, i, address, port.incoming);
        FramesAppend(lib, sent, attempt);
        ConcatAssociates(old(port.packets), Frames(lib, sent), [F.Request(lib, MEMORY_WRITE, address, chunk)]);
        var accepted := SendPiece(lib, port, address, chunk);
        address := address + |chunk|;
        sent := if old(port.open) then sent + [attempt] else sent;
        if accepted.None? {
          return Ending.Failed;
        }
        if accepted.value {
          break;
        }
      }
      i := i + DATAFRAME_SIZE;
    }
    InstallStop(sent, data, i, address, port.incoming);
    ending := Done;
  }

  lemma NothingSent(lib: F.Library, log: Log)
    ensures log == Prepend([], log) && Frames(lib, []) == []
  {
  }

  // ---- Where the data ends up ----

  ghost predicate AllAccepted(attempts: seq<Attempt>) {
    forall k :: 0 <= k < |attempts| ==> attempts[k].accepted
  }

  /** Every accepted chunk went to its own place. */
  ghost predicate InPlace(attempts: seq<Attempt>) {
    forall k :: 0 <= k < |attempts| && attempts[k].accepted ==>
      attempts[k].address == ISP_SRAM_START_ADDRESS + attempts[k].i
  }

  lemma InPlaceTail(a: Attempt, attempts: seq<Attempt>)
    ensures InPlace([a] + attempts) <==>
              (a.accepted ==> a.address == ISP_SRAM_START_ADDRESS + a.i) && InPlace(attempts)
    ensures AllAccepted([a] + attempts) <==> a.accepted && AllAccepted(attempts)
  {
    var all := [a] + attempts;
    assert all[0] == a;
    assert forall k :: 0 <= k < |attempts| ==> attempts[k] == all[k + 1];
  }

  lemma {:induction false} InstallInPlace(data: seq<Byte>, i: nat, address: nat, script: seq<Event>)
    requires Install(data, i, address, script).done
    requires i < |data| ==> address >= ISP_SRAM_START_ADDRESS + i
    ensures var attempts := Install(data, i, address, script).attempts;
            InPlace(attempts) <==> i >= |data| || (address == ISP_SRAM_START_ADDRESS + i && AllAccepted(attempts))
    decreases |script|
  {
    hide NextAnswer, AllAccepted, InPlace;
    if i >= |data| {
      assert InPlace([]) by { NothingMisplaced(); }
    } else {
      var (c, answer) := (Piece(data, i), NextAnswer(script));
      var next := if answer.Accepted? then i + DATAFRAME_SIZE else i;
      InstallInPlace(data, next, address + |c|, answer.rest);
      var rest := Install(data, next, address + |c|, answer.rest).attempts;
      InPlaceTail(Attempt(i, address, c, answer.Accepted?), rest);
      if next >= |data| {
        assert rest == [];
        NothingMisplaced();
      }
    }
  }

  lemma NothingMisplaced()
    ensures InPlace([]) && AllAccepted([])
  {
  }

  /** The next n frames get a packet each that says OK. */
  predicate Accepts(script: seq<Event>, n: nat)
    decreases n
  {
    n == 0 || (NextAnswer(script).Accepted? && Accepts(NextAnswer(script).rest, n - 1))
  }

  /** The number of chunks from chunk i on. */
  function Chunks(data: seq<Byte>, i: nat): nat {
    if i < |data| then (|data| - i + DATAFRAME_SIZE - 1) / DATAFRAME_SIZE else 0
  }

  lemma ChunksStep(data: seq<Byte>, i: nat)
    requires i < |data|
    ensures Chunks(data, i) == Chunks(data, i + DATAFRAME_SIZE) + 1
  {
  }

  /** The address of the last chunk from chunk i on has 32 bits. */
  predicate Addressable(data: seq<Byte>, i: nat, address: nat) {
    Chunks(data, i) == 0 || address + (Chunks(data, i) - 1) * DATAFRAME_SIZE < 0x1_0000_0000
  }

  /** The call completes without sending anything again just if every answer accepts. */
  lemma {:induction false} AllAcceptedExactly(data: seq<Byte>, i: nat, address: nat, script: seq<Event>)
    ensures var log := Install(data, i, address, script);
            log.done && AllAccepted(log.attempts) <==> Addressable(data, i, address) && Accepts(script, Chunks(data, i))
    decreases |script|
  {
    hide NextAnswer, AllAccepted, InPlace, Chunks, Piece;
    if i >= |data| {
      NothingMisplaced();
      assert Chunks(data, i) == 0 by { NoChunks(data, i); }
    } else {
      ChunksStep(data, i);
      var (c, answer) := (Piece(data, i), NextAnswer(script));
      var next := if answer.Accepted? then i + DATAFRAME_SIZE else i;
      if address < 0x1_0000_0000 {
        var rest := Install(data, next, address + |c|, answer.rest).attempts;
        InPlaceTail(Attempt(i, address, c, answer.Accepted?), if answer.Broken? then [] else rest);
        EmptyConcat([Attempt(i, address, c, answer.Accepted?)]);
        if answer.Accepted? {
          AllAcceptedExactly(data, next, address + |c|, answer.rest);
          if next < |data| {
            assert |c| == DATAFRAME_SIZE by { PieceLength(data, i); }
          } else {
            assert Chunks(data, next) == 0 by { NoChunks(data, next); }
          }
        }
      }
    }
  }

  lemma NoChunks(data: seq<Byte>, i: nat)
    requires i >= |data|
    ensures Chunks(data, i) == 0
  {
  }

  lemma PieceLength(data: seq<Byte>, i: nat)
    requires i + DATAFRAME_SIZE < |data|
    ensures |Piece(data, i)| == DATAFRAME_SIZE
  {
  }

  /** The answers to one frame for every 1024 bytes all accept, and the addresses have 32 bits. */
  predicate GoodAnswers(data: seq<Byte>, script: seq<Event>) {
    var frames := (|data| + 1023) / 1024;
    (frames == 0 || 0x805E_0000 + (frames - 1) * 1024 < 0x1_0000_0000) && Accepts(script, frames)
  }

  lemma GoodAnswersIs(data: seq<Byte>, script: seq<Event>)
    ensures GoodAnswers(data, script) <==>
      Addressable(data, 0, ISP_SRAM_START_ADDRESS) && Accepts(script, Chunks(data, 0))
  {
    hide Accepts;
  }

  /**
    The call completes with every accepted chunk in its place if and only if the first answer to every frame
    accepts.
  */
  lemma AcceptedInPlaceExactly(data: seq<Byte>, script: seq<Event>)
    ensures var log := Install(data, 0, ISP_SRAM_START_ADDRESS, script);
            log.done && InPlace(log.attempts) <==> GoodAnswers(data, script)
  {
    hide Install, InPlace, AllAccepted, Addressable, Accepts, GoodAnswers;
    GoodAnswersIs(data, script);
    AllAcceptedExactly(data, 0, ISP_SRAM_START_ADDRESS, script);
    if Install(data, 0, ISP_SRAM_START_ADDRESS, script).done {
      InstallInPlace(data, 0, ISP_SRAM_START_ADDRESS, script);
      if data == [] {
        NothingInstalled(script);
        NothingMisplaced();
      }
    }
  }

  lemma NothingInstalled(script: seq<Event>)
    ensures Install([], 0, ISP_SRAM_START_ADDRESS, script).attempts == []
  {
  }

  /** One byte of data, refused once: it ends up one byte too far on. */
  lemma RefusedChunkMisplaced()
    ensures var script := Arriving(Wire([[0xc3, 0xe1], [0xc3, 0xe0]]));
            var log := Install([7], 0, ISP_SRAM_START_ADDRESS, script);
            && log.done && |log.attempts| == 2
            && log.attempts[1] == Attempt(0, 0x805E_0001, [7], true)
            && !InPlace(log.attempts)
  {
    hide AwaitStart, EscapesUnbroken, Frame;
    var refusal: Packet, approval: Packet := [0xc3, 0xe1], [0xc3, 0xe0];
    var answers := [refusal, approval];
    var script := Arriving(Wire(answers));
    ArrivingPayload(Wire(answers));
    assert EscapesUnbroken(script) by { NoEmptyNoBreak(script); }
    assert answers[1..] == [approval] && [approval][1..] == [];
    hide Used;
    AwaitFrame(script, refusal, Wire([approval]));
    FrameSeparates(script);
    AwaitFrame(NextAnswer(script).rest, approval, Wire([]));
    FrameSeparates(NextAnswer(script).rest);
    assert NextAnswer(script).Refused?;
    assert NextAnswer(NextAnswer(script).rest).Accepted?;
    var data: seq<Byte> := [7];
    var rest := NextAnswer(script).rest;
    assert Piece(data, 0) == data;
    var wanted := Attempt(0, ISP_SRAM_START_ADDRESS + 1, data, true);
    var second := Install(data, 0, ISP_SRAM_START_ADDRESS + 1, rest);
    var nothing := Install(data, DATAFRAME_SIZE, ISP_SRAM_START_ADDRESS + 2, NextAnswer(rest).rest);
    assert nothing.attempts == [] && nothing.done;
    assert second == Prepend([wanted], nothing);
    var log := Install(data, 0, ISP_SRAM_START_ADDRESS, script);
    assert log == Prepend([Attempt(0, ISP_SRAM_START_ADDRESS, data, false)], second);
    assert log.attempts[1] == wanted;
  }

  // ---- What a device that stores every frame holds in the end ----

  function Receive(lib: F.Library, m: F.Memory, p: Packet): F.Memory {
    match F.Parse(lib, p)
    case None => m
    case Some(c) => if c.op == MEMORY_WRITE then F.Store(m, c.address, c.data) else m
  }

  function ReceiveAll(lib: F.Library, m: F.Memory, ps: seq<Packet>): F.Memory
    decreases |ps|
  {
    if ps == [] then m else ReceiveAll(lib, Receive(lib, m, ps[0]), ps[1..])
  }

  /** The chunks in the order sent, repetitions included. */
  function Stretched(attempts: seq<Attempt>): seq<Byte> {
    if attempts == [] then [] else attempts[0].chunk + Stretched(attempts[1..])
  }

  lemma StoreOn(m: F.Memory, address: nat, s: seq<Byte>, t: seq<Byte>)
    ensures F.Store(F.Store(m, address, s), address + |s|, t) == F.Store(m, address, s + t)
  {
    var (one, two) := (F.Store(F.Store(m, address, s), address + |s|, t), F.Store(m, address, s + t));
    forall a: nat ensures (a in one <==> a in two) && (a in one ==> one[a] == two[a]) {
      if address <= a < address + |s| {
        assert F.DataAt(s, address, a) == F.DataAt(s + t, address, a);
      } else if address + |s| <= a < address + |s| + |t| {
        assert F.DataAt(t, address + |s|, a) == F.DataAt(s + t, address, a);
      }
    }
    assert one.Keys == two.Keys;
  }

  /** Every run writes one unbroken stretch, each chunk as often as it was sent. */
  lemma {:induction false} InstallStores(lib: F.Library, m: F.Memory, data: seq<Byte>, i: nat, address: nat,
                                         script: seq<Event>)
    ensures var attempts := Install(data, i, address, script).attempts;
            ReceiveAll(lib, m, Frames(lib, attempts)) == F.Store(m, address, Stretched(attempts))
    decreases |script|
  {
    hide NextAnswer, F.Request, F.Parse, F.Store;
    if i >= |data| || address >= 0x1_0000_0000 {
      StoreNothing(m, address);
    } else {
      var (c, answer) := (Piece(data, i), NextAnswer(script));
      var next := if answer.Accepted? then i + DATAFRAME_SIZE else i;
      var log := Install(data, i, address, script);
      F.ParseRequest(lib, MEMORY_WRITE, address, c);
      var m' := F.Store(m, address, c);
      if answer.Broken? {
        EmptyConcat(c);
        assert log.attempts[1..] == [];
      } else {
        var rest := Install(data, next, address + |c|, answer.rest).attempts;
        assert log.attempts[1..] == rest;
        InstallStores(lib, m', data, next, address + |c|, answer.rest);
        StoreOn(m, address, c, Stretched(rest));
      }
    }
  }

  lemma StoreNothing(m: F.Memory, address: nat)
    ensures F.Store(m, address, []) == m
  {
  }

  /** The data from i on. */
  function Remaining(data: seq<Byte>, i: nat): seq<Byte> {
    if i < |data| then data[i..] else []
  }

  lemma PieceFirst(data: seq<Byte>, i: nat)
    requires i < |data|
    ensures Piece(data, i) + Remaining(data, i + DATAFRAME_SIZE) == Remaining(data, i)
  {
  }

  /** What is written is the data if nothing was sent again, and longer otherwise. */
  lemma {:induction false} StretchedLength(data: seq<Byte>, i: nat, address: nat, script: seq<Event>)
    requires Install(data, i, address, script).done
    ensures var attempts := Install(data, i, address, script).attempts;
            if AllAccepted(attempts) then Stretched(attempts) == Remaining(data, i)
            else |Stretched(attempts)| > |Remaining(data, i)|
    decreases |script|
  {
    hide NextAnswer, AllAccepted, InPlace, Remaining, Piece;
    if i >= |data| {
      NothingMisplaced();
      assert Remaining(data, i) == [] by { NothingRemains(data, i); }
    } else {
      var (c, answer) := (Piece(data, i), NextAnswer(script));
      var next := if answer.Accepted? then i + DATAFRAME_SIZE else i;
      var rest := Install(data, next, address + |c|, answer.rest).attempts;
      assert Install(data, i, address, script).attempts[1..] == rest;
      StretchedLength(data, next, address + |c|, answer.rest);
      InPlaceTail(Attempt(i, address, c, answer.Accepted?), rest);
      PieceFirst(data, i);
    }
  }

  lemma NothingRemains(data: seq<Byte>, i: nat)
    requires i >= |data|
    ensures Remaining(data, i) == []
  {
  }

  /** From any memory, these frames leave the data at the start address and nothing else changed. */
  ghost predicate Loads(lib: F.Library, ps: seq<Packet>, data: seq<Byte>) {
    forall m :: Holds(m, ReceiveAll(lib, m, ps), data)
  }

  /** The data is in memory from its start address on, and the rest is as before. */
  ghost predicate Holds(before: F.Memory, after: F.Memory, data: seq<Byte>) {
    forall a: nat ::
      if 0x805E_0000 <= a < 0x805E_0000 + |data| then a in after && after[a] == data[a - 0x805E_0000]
      else (a in after <==> a in before) && (a in after ==> after[a] == before[a])
  }

  lemma StoreHolds(m: F.Memory, written: seq<Byte>, data: seq<Byte>)
    ensures written == data ==> Holds(m, F.Store(m, ISP_SRAM_START_ADDRESS, written), data)
    ensures m == map[] && |written| > |data| ==> !Holds(m, F.Store(m, ISP_SRAM_START_ADDRESS, written), data)
  {
    var after := F.Store(m, ISP_SRAM_START_ADDRESS, written);
    if written == data {
      forall a: nat | 0x805E_0000 <= a < 0x805E_0000 + |data|
        ensures a in after && after[a] == data[a - 0x805E_0000]
      {
        assert F.DataAt(written, 0x805E_0000, a) == data[a - 0x805E_0000];
      }
    } else if |written| > |data| {
      assert 0x805E_0000 + |data| in after;
    }
  }

  /**
    The call completes and leaves exactly the data in SRAM, whatever was there before, if and only if the first
    answer to every frame accepts it.
  */
  lemma LoadsExactly(lib: F.Library, data: seq<Byte>, script: seq<Event>)
    ensures var log := Install(data, 0, ISP_SRAM_START_ADDRESS, script);
            log.done && Loads(lib, Frames(lib, log.attempts), data) <==> GoodAnswers(data, script)
  {
    hide Install, F.Store, AllAccepted, Receive, GoodAnswers, Frames, Loads, Stretched;
    var log := Install(data, 0, ISP_SRAM_START_ADDRESS, script);
    assert log.done && AllAccepted(log.attempts) <==> GoodAnswers(data, script) by {
      GoodAnswersAccept(data, script);
    }
    if log.done {
      LoadsWithoutResend(lib, data, script);
    }
  }

  lemma GoodAnswersAccept(data: seq<Byte>, script: seq<Event>)
    ensures var log := Install(data, 0, ISP_SRAM_START_ADDRESS, script);
            log.done && AllAccepted(log.attempts) <==> GoodAnswers(data, script)
  {
    hide Install, AllAccepted, Addressable, Accepts, GoodAnswers;
    GoodAnswersIs(data, script);
    AllAcceptedExactly(data, 0, ISP_SRAM_START_ADDRESS, script);
  }

  /** A completed load leaves exactly the data if and only if no frame was sent again. */
  lemma LoadsWithoutResend(lib: F.Library, data: seq<Byte>, script: seq<Event>)
    requires Install(data, 0, ISP_SRAM_START_ADDRESS, script).done
    ensures var attempts := Install(data, 0, ISP_SRAM_START_ADDRESS, script).attempts;
            Loads(lib, Frames(lib, attempts), data) <==> AllAccepted(attempts)
  {
    hide Install, F.Store, AllAccepted, Receive, Holds;
    var attempts := Install(data, 0, ISP_SRAM_START_ADDRESS, script).attempts;
    var written := Stretched(attempts);
    StretchedLength(data, 0, ISP_SRAM_START_ADDRESS, script);
    assert Remaining(data, 0) == data;
    forall m ensures ReceiveAll(lib, m, Frames(lib, attempts)) == F.Store(m, ISP_SRAM_START_ADDRESS, written) {
      InstallStores(lib, m, data, 0, ISP_SRAM_START_ADDRESS, script);
    }
    forall m ensures AllAccepted(attempts) ==> Holds(m, ReceiveAll(lib, m, Frames(lib, attempts)), data) {
      StoreHolds(m, written, data);
    }
    if !AllAccepted(attempts) {
      StoreHolds(map[], written, data);
      assert !Holds(map[], ReceiveAll(lib, map[], Frames(lib, attempts)), data);
    }
  }
}
