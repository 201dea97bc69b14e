/**
  SLIP framing (RFC 1055) as ktool.py does it: the encoder of MAIXLoader.write and its two independent
  decoders, the generator slip_reader and the polling method recv_one_return.
*/
module Slip {
  import opened Gf256
  import opened Outcome
  import opened Seqs

  const END: Byte := 0xc0
  const ESC: Byte := 0xdb
  const ESC_END: Byte := 0xdc
  const ESC_ESC: Byte := 0xdd

  type Packet = seq<Byte>

  // ---- Encoding ----

  function EscapeByte(b: Byte): seq<Byte> {
    if b == END then [ESC, ESC_END] else if b == ESC then [ESC, ESC_ESC] else [b]
  }

  /** The body of a frame, one packet byte at a time. */
  function Escape(p: Packet): seq<Byte> {
    if p == [] then [] else EscapeByte(p[0]) + Escape(p[1..])
  }

  function Frame(p: Packet): seq<Byte> {
    [END] + Escape(p) + [END]
  }

  /** What back-to-back writes put on the line. */
  function Wire(ps: seq<Packet>): seq<Byte> {
    if ps == [] then [] else Frame(ps[0]) + Wire(ps[1..])
  }

  /** bytes.replace with a one-byte pattern. */
  function Replace(s: seq<Byte>, pattern: Byte, replacement: seq<Byte>): seq<Byte> {
    if s == [] then []
    else (if s[0] == pattern then replacement else [s[0]]) + Replace(s[1..], pattern, replacement)
  }

  lemma {:induction false} ReplaceAppends(a: seq<Byte>, b: seq<Byte>, pattern: Byte, replacement: seq<Byte>)
    ensures Replace(a + b, pattern, replacement) == Replace(a, pattern, replacement) + Replace(b, pattern, replacement)
  {
    if a == [] {
      EmptyConcat(b);
      EmptyConcat(Replace(b, pattern, replacement));
    } else {
      ReplaceAppends(a[1..], b, pattern, replacement);
      ConcatTail(a, b);
      ConcatAssociates(if a[0] == pattern then replacement else [a[0]], Replace(a[1..], pattern, replacement),
                       Replace(b, pattern, replacement));
    }
  }

  /** The two ordered replace passes of write are one byte-wise escaping pass. */
  lemma {:induction false} ReplacePasses(p: Packet)
    ensures Replace(Replace(p, 0xdb, [0xdb, 0xdd]), 0xc0, [0xdb, 0xdc]) == Escape(p)
  {
    if p != [] {
      ReplacePasses(p[1..]);
      var head := if p[0] == ESC then [ESC, ESC_ESC] else [p[0]];
      ReplaceAppends(head, Replace(p[1..], ESC, [ESC, ESC_ESC]), END, [ESC, ESC_END]);
      assert head[1..] == if p[0] == ESC then [ESC_ESC] else [];
      assert p[0] == ESC ==> head[1..][1..] == [];
      assert Replace(head, END, [ESC, ESC_END]) == EscapeByte(p[0]);
    }
  }

  /** No frame delimiter inside a frame. */
  lemma {:induction false} BodyHasNoEnd(p: Packet)
    ensures END !in Escape(p)
  {
    if p != [] {
      BodyHasNoEnd(p[1..]);
    }
  }

  lemma {:induction false} EscapeAppends(a: Packet, b: Packet)
    ensures Escape(a + b) == Escape(a) + Escape(b)
  {
    hide EscapeByte;
    if a == [] {
      EmptyConcat(b);
      EmptyConcat(Escape(b));
    } else {
      EscapeAppends(a[1..], b);
      ConcatTail(a, b);
      ConcatAssociates(EscapeByte(a[0]), Escape(a[1..]), Escape(b));
    }
  }

  lemma EscapeLast(q: Packet, b: Byte)
    ensures Escape(q + [b]) == Escape(q) + EscapeByte(b)
  {
    EscapeAppends(q, [b]);
    assert Escape([b]) == EscapeByte(b) + Escape([]);
  }

  /** The frame in numbers: these equations leave no choice. */
  lemma FrameNumbers(q: Packet, b: Byte)
    ensures Frame(q) == [0xc0] + Escape(q) + [0xc0] && Escape([]) == []
    ensures Escape(q + [b]) ==
      Escape(q) + if b == 0xc0 then [0xdb, 0xdc] else if b == 0xdb then [0xdb, 0xdd] else [b]
  {
    EscapeLast(q, b);
  }

  lemma {:induction false} WireAppends(ps: seq<Packet>, qs: seq<Packet>)
    ensures Wire(ps + qs) == Wire(ps) + Wire(qs)
  {
    hide Frame;
    if ps == [] {
      EmptyConcat(qs);
      EmptyConcat(Wire(qs));
    } else {
      WireAppends(ps[1..], qs);
      ConcatTail(ps, qs);
      ConcatAssociates(Frame(ps[0]), Wire(ps[1..]), Wire(qs));
    }
  }

  lemma WireNone()
    ensures Wire([]) == []
  {
  }

  lemma WireOne(p: Packet)
    ensures Wire([p]) == Frame(p)
  {
    assert [p][1..] == [];
  }

  // ---- The generator slip_reader ----

  /** partial_packet and in_escape. */
  datatype ReaderState = ReaderState(partial: Option<Packet>, inEscape: bool)

  const IDLE := ReaderState(None, false)

  /** The packets yielded, and whether an exception ended the generator. */
  datatype ReaderRun = ReaderRun(packets: seq<Packet>, state: ReaderState, raised: bool)

  /** What one received byte does. */
  function ReadByte(st: ReaderState, b: Byte): ReaderRun {
    match st.partial
    case None =>
      if b == END then ReaderRun([], ReaderState(Some([]), st.inEscape), false) else ReaderRun([], st, true)
    case Some(q) =>
      if st.inEscape then
        if b == ESC_END then ReaderRun([], ReaderState(Some(q + [END]), false), false)
        else if b == ESC_ESC then ReaderRun([], ReaderState(Some(q + [ESC]), false), false)
        else ReaderRun([], ReaderState(Some(q), false), true)
      else if b == ESC then ReaderRun([], ReaderState(Some(q), true), false)
      else if b == END then ReaderRun([q], ReaderState(None, false), false)
      else ReaderRun([], ReaderState(Some(q + [b]), false), false)
  }

  function Read(st: ReaderState, s: seq<Byte>): ReaderRun
    decreases s
  {
    if s == [] then ReaderRun([], st, false)
    else
      var first := ReadByte(st, s[0]);
      if first.raised then first
      else
        var rest := Read(first.state, s[1..]);
        ReaderRun(first.packets + rest.packets, rest.state, rest.raised)
  }

  /** A sequence of port reads; an empty one is a timeout, which raises. */
  function ReadAll(st: ReaderState, parts: seq<seq<Byte>>): ReaderRun
    decreases parts
  {
    if parts == [] then ReaderRun([], st, false)
    else if parts[0] == [] then ReaderRun([], st, true)
    else
      var first := Read(st, parts[0]);
      if first.raised then first
      else
        var rest := ReadAll(first.state, parts[1..]);
        ReaderRun(first.packets + rest.packets, rest.state, rest.raised)
  }

  function Flatten(parts: seq<seq<Byte>>): seq<Byte> {
    if parts == [] then [] else parts[0] + Flatten(parts[1..])
  }

  lemma ReadNothing(st: ReaderState)
    ensures Read(st, []) == ReaderRun([], st, false)
  {
  }

  lemma ReadHead(st: ReaderState, s: seq<Byte>)
    requires s != []
    ensures var first := ReadByte(st, s[0]);
            Read(st, s) ==
              if first.raised then first
              else var rest := Read(first.state, s[1..]);
                ReaderRun(first.packets + rest.packets, rest.state, rest.raised)
  {
  }

  lemma OneRead(st: ReaderState, s: seq<Byte>)
    ensures ReadAll(st, [s]) == if s == [] then ReaderRun([], st, true) else Read(st, s)
  {
    assert [s][1..] == [];
  }

  lemma {:induction false} ReadAppends(st: ReaderState, a: seq<Byte>, b: seq<Byte>)
    ensures var first := Read(st, a);
            Read(st, a + b) ==
              if first.raised then first
              else var rest := Read(first.state, b);
                ReaderRun(first.packets + rest.packets, rest.state, rest.raised)
    decreases a
  {
    if a == [] {
      assert a + b == b;
    } else {
      assert (a + b)[1..] == a[1..] + b;
      ReadAppends(ReadByte(st, a[0]).state, a[1..], b);
    }
  }

  /** How the bytes are split into non-empty reads makes no difference, in any state and for any bytes. */
  lemma {:induction false} SplitsDoNotMatter(st: ReaderState, parts: seq<seq<Byte>>)
    requires [] !in parts
    ensures ReadAll(st, parts) == Read(st, Flatten(parts))
    decreases parts
  {
    if parts != [] {
      ReadAppends(st, parts[0], Flatten(parts[1..]));
      SplitsDoNotMatter(Read(st, parts[0]).state, parts[1..]);
    }
  }

  /** The bytes received since the last complete packet, as far as the state remembers them. */
  function Pending(st: ReaderState): seq<Byte> {
    match st.partial
    case None => []
    case Some(q) => [END] + Escape(q) + (if st.inEscape then [ESC] else [])
  }

  lemma PendingStep(st: ReaderState, b: Byte)
    requires st.partial.None? ==> !st.inEscape
    requires !ReadByte(st, b).raised
    ensures Pending(st) + [b] == Wire(ReadByte(st, b).packets) + Pending(ReadByte(st, b).state)
    ensures ReadByte(st, b).state.partial.None? ==> !ReadByte(st, b).state.inEscape
  {
    if st.partial.Some? {
      var q := st.partial.value;
      if st.inEscape {
        EscapeLast(q, if b == ESC_END then END else ESC);
      } else if b == END {
        WireOne(q);
      } else if b != ESC {
        EscapeLast(q, b);
      }
    }
  }

  /**
    The generator loses nothing and accepts nothing else: unless it raises, what it has yielded, framed
    again, together with what it still remembers, is exactly what it has received.
  */
  lemma {:induction false} ReaderLosesNothing(st: ReaderState, s: seq<Byte>)
    requires st.partial.None? ==> !st.inEscape
    requires !Read(st, s).raised
    ensures Pending(st) + s == Wire(Read(st, s).packets) + Pending(Read(st, s).state)
    ensures Read(st, s).state.partial.None? ==> !Read(st, s).state.inEscape
    decreases s
  {
    hide Wire, Pending, ReadByte;
    if s == [] {
      assert Wire([]) == [] by { WireNone(); }
      assert Pending(st) + [] == [] + Pending(st);
    } else {
      var first := ReadByte(st, s[0]);
      var rest := Read(first.state, s[1..]);
      PendingStep(st, s[0]);
      ReaderLosesNothing(first.state, s[1..]);
      WireAppends(first.packets, rest.packets);
      var (w1, w2, p1, p2) := (Wire(first.packets), Wire(rest.packets), Pending(first.state), Pending(rest.state));
      HeadTail(s);
      ConcatAssociates(Pending(st), [s[0]], s[1..]);
      ConcatAssociates(w1, p1, s[1..]);
      ConcatAssociates(w1, w2, p2);
    }
  }

  lemma ReadEscaped(q: Packet, b: Byte)
    ensures Read(ReaderState(Some(q), false), EscapeByte(b)) == ReaderRun([], ReaderState(Some(q + [b]), false), false)
  {
    var st, e := ReaderState(Some(q), false), EscapeByte(b);
    if |e| == 2 {
      assert e[1..] == [e[1]] && [e[1]][1..] == [];
      assert Read(ReaderState(Some(q), true), [e[1]]) == ReaderRun([], ReaderState(Some(q + [b]), false), false);
    } else {
      assert e[1..] == [];
    }
  }

  lemma {:induction false} ReadBody(q: Packet, p: Packet)
    ensures Read(ReaderState(Some(q), false), Escape(p)) == ReaderRun([], ReaderState(Some(q + p), false), false)
    decreases p
  {
    var st := ReaderState(Some(q), false);
    if p == [] {
      assert q + p == q;
    } else {
      var e := EscapeByte(p[0]);
      ReadAppends(st, e, Escape(p[1..]));
      ReadEscaped(q, p[0]);
      ReadBody(q + [p[0]], p[1..]);
      assert q + [p[0]] + p[1..] == q + p;
    }
  }

  lemma ReadFrame(p: Packet)
    ensures Read(IDLE, Frame(p)) == ReaderRun([p], IDLE, false)
  {
    var start := ReaderState(Some([]), false);
    ReadAppends(IDLE, [END], Escape(p) + [END]);
    assert [END] + (Escape(p) + [END]) == Frame(p);
    ReadAppends(start, Escape(p), [END]);
    ReadBody([], p);
    assert [] + p == p;
    assert [END][1..] == [];
    assert Read(ReaderState(Some(p), false), [END]) == ReaderRun([p], IDLE, false);
  }

  /** Every list of packets written back to back is yielded again, in order, and leaves the reader idle. */
  lemma {:induction false} ReaderRoundTrip(ps: seq<Packet>)
    ensures Read(IDLE, Wire(ps)) == ReaderRun(ps, IDLE, false)
  {
    if ps != [] {
      ReadAppends(IDLE, Frame(ps[0]), Wire(ps[1..]));
      ReadFrame(ps[0]);
      ReaderRoundTrip(ps[1..]);
      assert [ps[0]] + ps[1..] == ps;
    }
  }

  /** The generator ends idle and without an exception on the encoder's outputs and on nothing else. */
  lemma ReaderAcceptsExactlyWires(s: seq<Byte>, ps: seq<Packet>)
    ensures Read(IDLE, s) == ReaderRun(ps, IDLE, false) <==> s == Wire(ps)
  {
    ReaderRoundTrip(ps);
    if Read(IDLE, s) == ReaderRun(ps, IDLE, false) {
      ReaderLosesNothing(IDLE, s);
      assert Pending(IDLE) + s == s;
      assert Wire(ps) + Pending(IDLE) == Wire(ps);
    }
  }

  /** The generator's local variables, kept between reads. */
  class SlipReader {
    var partialPacket: Option<Packet>
    var inEscape: bool

    function State(): ReaderState
      reads this
    {
      ReaderState(partialPacket, inEscape)
    }

    constructor ()
      ensures State() == IDLE
    {
      partialPacket := None;
      inEscape := false;
    }

    /** The body of the inner loop, for one byte. */
    method Take(b: Byte) returns (yielded: seq<Packet>, raised: bool)
      modifies this
      ensures ReaderRun(yielded, State(), raised) == ReadByte(old(State()), b)
    {
      yielded, raised := [], false;
      if partialPacket.None? {
        if b == END {
          partialPacket := Some([]);
        } else {
          raised := true;
        }
      } else if inEscape {
        inEscape := false;
        if b == ESC_END {
          partialPacket := Some(partialPacket.value + [END]);
        } else if b == ESC_ESC {
          partialPacket := Some(partialPacket.value + [ESC]);
        } else {
          raised := true;
        }
      } else if b == ESC {
        inEscape := true;
      } else if b == END {
        yielded := [partialPacket.value];
        partialPacket := None;
      } else {
        partialPacket := Some(partialPacket.value + [b]);
      }
    }

    /** One turn of the outer loop: the bytes of one read, with the packets that they complete. */
    method Feed(readBytes: seq<Byte>) returns (yielded: seq<Packet>, raised: bool)
      modifies this
      ensures ReaderRun(yielded, State(), raised) == ReadAll(old(State()), [readBytes])
    {
      hide ReadByte, Read, ReadAll;
      OneRead(State(), readBytes);
      if readBytes == [] {
        return [], true;
      }
      yielded, raised := [], false;
      ghost var all := Read(State(), readBytes);
      var i := 0;
      while i < |readBytes|
        invariant 0 <= i <= |readBytes| && !raised
        invariant var rest := Read(State(), readBytes[i..]);
                  all == ReaderRun(yielded + rest.packets, rest.state, rest.raised)
      {
        assert readBytes[i..][1..] == readBytes[i + 1..];
        ReadHead(State(), readBytes[i..]);
        var out;
        out, raised := Take(readBytes[i]);
        yielded := yielded + out;
        if raised {
          return;
        }
        i := i + 1;
      }
      assert readBytes[i..] == [];
      ReadNothing(State());
    }
  }
}
