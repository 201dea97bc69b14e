/**
  The serial line as MAIXLoader sees it: write puts one frame on it, recv_one_return polls it byte by
  byte under a deadline. Time enters as events: a poll may find a byte, find nothing, or come after the
  deadline has passed.
*/
module SlipLine {
  import opened Gf256
  import opened Outcome
  import opened Seqs
  import opened Slip

  datatype Event = Got(b: Byte) | Empty | Expired

  // ---- What one call of recv_one_return makes of the events ahead ----

  datatype Reception = Packet(data: Packet, rest: seq<Event>) | Failed(rest: seq<Event>)

  /** The first loop: everything up to the start of a frame is skipped. When the events run out, time does too. */
  function AwaitStart(script: seq<Event>): (r: Reception)
    ensures |r.rest| <= |script|
    ensures r.Packet? ==> |r.rest| < |script|
  {
    if script == [] then Failed([])
    else if script[0] == Expired then Failed(script[1..])
    else if script[0] == Got(END) then Collect(script[1..], false, [])
    else AwaitStart(script[1..])
  }

  /** The second loop. The frame delimiter is recognised before the escape flag is looked at. */
  function Collect(script: seq<Event>, inEscape: bool, data: Packet): (r: Reception)
    ensures |r.rest| <= |script|
    ensures r.Packet? ==> |r.rest| < |script|
    decreases |script|
  {
    if script == [] then Failed([])
    else
      match script[0]
      case Expired => Failed(script[1..])
      case Empty =>
        if inEscape then Failed(script[1..]) else Collect(script[1..], false, data)
      case Got(b) =>
        if b == END then Packet(data, script[1..])
        else if inEscape then
          if b == ESC_END then Collect(script[1..], false, data + [END])
          else if b == ESC_ESC then Collect(script[1..], false, data + [ESC])
          else Failed(script[1..])
        else if b == ESC then Collect(script[1..], true, data)
        else Collect(script[1..], false, data + [b])
  }

  /** n successive calls; None when one of them raises. */
  function Receive(script: seq<Event>, n: nat): Option<(seq<Packet>, seq<Event>)>
    decreases n
  {
    if n == 0 then Some(([], script))
    else
      match AwaitStart(script)
      case Failed(_) => None
      case Packet(data, rest) =>
        match Receive(rest, n - 1)
        case None => None
        case Some((packets, final)) => Some(([data] + packets, final))
  }

  // ---- The deadline ----

  /** A packet is complete before the deadline passes or not at all, and what comes after it makes no difference. */
  lemma {:induction false} CollectDeadline(a: seq<Event>, b: seq<Event>, inEscape: bool, q: Packet)
    requires Expired !in a
    ensures var r := Collect(a, inEscape, q);
            if r.Packet? then Collect(a + b, inEscape, q) == Packet(r.data, r.rest + b)
            else
              var late := Collect(a + ([Expired] + b), inEscape, q);
              late == Failed(b) || late == Failed(r.rest + ([Expired] + b))
    decreases a
  {
    var e := [Expired] + b;
    assert e[1..] == b;
    if a == [] {
      EmptyConcat(e);
    } else {
      ConcatTail(a, b);
      ConcatTail(a, e);
      var (more, c) := (a[1..], a[0]);
      if c == Empty {
        CollectDeadline(more, b, false, q);
      } else if inEscape {
        CollectDeadline(more, b, false, q + [if c.b == ESC_END then END else ESC]);
      } else {
        CollectDeadline(more, b, c.b == ESC, if c.b == ESC then q else q + [c.b]);
      }
    }
  }

  /**
    A call that has no packet when the deadline passes raises, whatever comes later; it then has used the events up to
    the deadline or has raised before. One that has its packet does not depend on what comes later.
  */
  lemma {:induction false} DeadlineDecides(a: seq<Event>, b: seq<Event>)
    requires Expired !in a
    ensures var r := AwaitStart(a);
            if r.Packet? then AwaitStart(a + b) == Packet(r.data, r.rest + b)
            else
              var late := AwaitStart(a + ([Expired] + b));
              late == Failed(b) || late == Failed(r.rest + ([Expired] + b))
    decreases a
  {
    hide Collect;
    var e := [Expired] + b;
    assert e[1..] == b;
    if a == [] {
      EmptyConcat(e);
    } else {
      ConcatTail(a, b);
      ConcatTail(a, e);
      if a[0] == Got(END) {
        CollectDeadline(a[1..], b, false, []);
      } else {
        DeadlineDecides(a[1..], b);
      }
    }
  }

  // ---- The line carries bytes, with pauses ----

  /** The bytes among the events, in order. */
  function Payload(script: seq<Event>): seq<Byte> {
    if script == [] then []
    else if script[0].Got? then [script[0].b] + Payload(script[1..])
    else Payload(script[1..])
  }

  ghost predicate InTime(script: seq<Event>) {
    Expired !in script
  }

  /** No empty read directly after an escape byte. */
  ghost predicate EscapesUnbroken(script: seq<Event>) {
    forall k :: 0 <= k < |script| - 1 && script[k] == Got(ESC) ==> script[k + 1] != Empty
  }

  /** The bytes s arriving without a pause. */
  function Arriving(s: seq<Byte>): (script: seq<Event>)
    ensures |script| == |s|
  {
    if s == [] then [] else [Got(s[0])] + Arriving(s[1..])
  }

  lemma UnbrokenTail(script: seq<Event>)
    requires script != []
    ensures EscapesUnbroken(script) <==>
      EscapesUnbroken(script[1..]) && !(|script| > 1 && script[0] == Got(ESC) && script[1] == Empty)
  {
    if EscapesUnbroken(script) {
      forall k | 0 <= k < |script[1..]| - 1 && script[1..][k] == Got(ESC) ensures script[1..][k + 1] != Empty {
        assert script[k + 1] == Got(ESC);
      }
    } else {
      var k :| 0 <= k < |script| - 1 && script[k] == Got(ESC) && script[k + 1] == Empty;
      if k > 0 {
        assert script[1..][k - 1] == Got(ESC) && script[1..][k] == Empty;
      }
    }
  }

  lemma PayloadSplits(script: seq<Event>, b: Byte, s: seq<Byte>)
    requires script != [] && Payload(script) == [b] + s
    ensures script[0].Got? ==> script[0].b == b && Payload(script[1..]) == s
    ensures !script[0].Got? ==> Payload(script[1..]) == [b] + s
  {
    if script[0].Got? {
      var t := Payload(script[1..]);
      assert ([script[0].b] + t)[1..] == t && ([b] + s)[1..] == s;
      assert ([script[0].b] + t)[0] == script[0].b;
    }
  }

  /** The events that a call has used up. */
  function Used(script: seq<Event>, rest: seq<Event>): seq<Event>
    requires |rest| <= |script|
  {
    script[..|script| - |rest|]
  }

  /** The first event and the others among those used up. */
  lemma FirstUsed(script: seq<Event>, rest: seq<Event>)
    requires |rest| < |script|
    ensures var (used, more) := (Used(script, rest), Used(script[1..], rest));
            && used != [] && used[0] == script[0]
            && Payload(used) == (if script[0].Got? then [script[0].b] else []) + Payload(more)
            && (EscapesUnbroken(used) <==>
                  EscapesUnbroken(more) && !(more != [] && script[0] == Got(ESC) && more[0] == Empty))
  {
    hide EscapesUnbroken;
    var (used, more) := (Used(script, rest), Used(script[1..], rest));
    assert used[1..] == more;
    UnbrokenTail(used);
  }

  lemma NothingUsed(rest: seq<Event>)
    ensures Used(rest, rest) == [] && EscapesUnbroken([]) && Payload([]) == []
  {
  }

  /**
    Collecting the rest of a frame. Without a deadline it fails exactly when an empty read follows an escape
    byte among the events used up, all of which belong to this frame; otherwise it returns the packet.
  */
  ghost predicate Collected(script: seq<Event>, q: Packet, p: Packet, tail: seq<Byte>) {
    var r := Collect(script, false, q);
    var used := Used(script, r.rest);
    if r.Failed? then !EscapesUnbroken(used) && Payload(used) <= Escape(p)
    else
      && EscapesUnbroken(used) && Payload(used) == Escape(p) + [END]
      && r.data == q + p && Payload(r.rest) == tail && InTime(r.rest)
  }

  lemma {:induction false} CollectFrame(script: seq<Event>, q: Packet, p: Packet, tail: seq<Byte>)
    requires InTime(script)
    requires Payload(script) == Escape(p) + ([END] + tail)
    ensures Collected(script, q, p, tail)
    decreases |script|
  {
    hide EscapesUnbroken, Used;
    if script == [] {
      assert false;
    } else if script[0] == Empty {
      CollectFrame(script[1..], q, p, tail);
      FirstUsed(script, Collect(script[1..], false, q).rest);
    } else if p == [] {
      EmptyConcat([END] + tail);
      EmptyConcat(q);
      PayloadSplits(script, END, tail);
      FirstUsed(script, script[1..]);
      NothingUsed(script[1..]);
    } else {
      var more := Escape(p[1..]) + ([END] + tail);
      ConcatAssociates(EscapeByte(p[0]), Escape(p[1..]), [END] + tail);
      if |EscapeByte(p[0])| == 1 {
        PayloadSplits(script, p[0], more);
        CollectFrame(script[1..], q + [p[0]], p[1..], tail);
        FirstUsed(script, Collect(script[1..], false, q + [p[0]]).rest);
        CollectedMore(q, p);
      } else {
        CollectEscapedFrame(script, q, p, tail);
      }
    }
  }

  lemma CollectedMore(q: Packet, p: Packet)
    requires p != []
    ensures q + [p[0]] + p[1..] == q + p
    ensures Escape(p) + [END] == EscapeByte(p[0]) + (Escape(p[1..]) + [END])
  {
    hide EscapeByte;
    HeadTail(p);
    ConcatAssociates(q, [p[0]], p[1..]);
    ConcatAssociates(EscapeByte(p[0]), Escape(p[1..]), [END]);
  }

  lemma EscapeUsed(script: seq<Event>, rest: seq<Event>, second: Byte)
    requires |script| >= 2 && script[0] == Got(ESC) && script[1] == Got(second) && second != ESC
    requires |rest| <= |script| - 2
    ensures Payload(Used(script, rest)) == [ESC, second] + Payload(Used(script[2..], rest))
    ensures EscapesUnbroken(Used(script, rest)) <==> EscapesUnbroken(Used(script[2..], rest))
  {
    hide EscapesUnbroken, Used;
    FirstUsed(script, rest);
    FirstUsed(script[1..], rest);
    assert script[1..][1..] == script[2..];
    assert [ESC] + ([second] + Payload(Used(script[2..], rest))) == [ESC, second] + Payload(Used(script[2..], rest));
  }

  lemma BrokenEscapeUsed(script: seq<Event>)
    requires |script| >= 2 && script[0] == Got(ESC) && script[1] == Empty
    ensures Payload(Used(script, script[2..])) == [ESC] && !EscapesUnbroken(Used(script, script[2..]))
  {
    var used := Used(script, script[2..]);
    assert used == [Got(ESC), Empty] && used[1..] == [Empty] && [Empty][1..] == [];
    assert Payload([Empty]) == [] && Payload(used) == [ESC] + [];
    assert used[0] == Got(ESC) && used[0 + 1] == Empty;
  }

  lemma CollectedBroken(script: seq<Event>, q: Packet, p: Packet, tail: seq<Byte>)
    requires |script| >= 2 && script[0] == Got(ESC) && script[1] == Empty
    requires p != [] && |EscapeByte(p[0])| == 2 && EscapeByte(p[0])[0] == ESC
    requires Collect(script, false, q) == Failed(script[2..])
    ensures Collected(script, q, p, tail)
  {
    hide EscapesUnbroken, Used, Collect, EscapeByte, InTime;
    BrokenEscapeUsed(script);
    assert (EscapeByte(p[0]) + Escape(p[1..]))[0] == ESC;
  }

  lemma EscapedLine(p: Packet, tail: seq<Byte>)
    requires p != [] && |EscapeByte(p[0])| == 2
    ensures var second := EscapeByte(p[0])[1];
            && EscapeByte(p[0]) == [ESC, second] && second != ESC
            && Escape(p) + ([END] + tail) == [ESC] + ([second] + (Escape(p[1..]) + ([END] + tail)))
  {
    hide Escape;
    var second := EscapeByte(p[0])[1];
    assert EscapeByte(p[0]) == [ESC] + [second];
    EscapeHead(p);
    ConcatAssociates(EscapeByte(p[0]), Escape(p[1..]), [END] + tail);
    ConcatAssociates([ESC], [second], Escape(p[1..]) + ([END] + tail));
  }

  lemma EscapeHead(p: Packet)
    requires p != []
    ensures Escape(p) == EscapeByte(p[0]) + Escape(p[1..])
  {
  }

  lemma InTimeTail(script: seq<Event>)
    requires script != [] && InTime(script)
    ensures InTime(script[1..]) && script[0] != Expired
  {
  }

  lemma CollectEscape(script: seq<Event>, q: Packet)
    requires script != [] && script[0] == Got(ESC)
    ensures Collect(script, false, q) == Collect(script[1..], true, q)
  {
  }

  /** The same where the packet goes on with a byte that is escaped. */
  lemma {:induction false} CollectEscapedFrame(script: seq<Event>, q: Packet, p: Packet, tail: seq<Byte>)
    requires InTime(script) && script != [] && script[0] != Empty
    requires p != [] && |EscapeByte(p[0])| == 2
    requires Payload(script) == Escape(p) + ([END] + tail)
    ensures Collected(script, q, p, tail)
    decreases |script|, 0
  {
    hide EscapesUnbroken, Used, InTime, Payload, Escape, EscapeByte, Collect, Collected;
    var second, more := EscapeByte(p[0])[1], Escape(p[1..]) + ([END] + tail);
    EscapedLine(p, tail);
    PayloadSplits(script, ESC, [second] + more);
    InTimeTail(script);
    assert Payload([]) == [] by { NothingUsed([]); }
    CollectEscaped(script[1..], q, p, tail, second, more);
    CollectEscape(script, q);
    assert script[1..][1..] == script[2..];
    if script[1] == Empty {
      CollectedBroken(script, q, p, tail);
    } else {
      PayloadSplits(script[1..], second, more);
      InTimeTail(script[1..]);
      CollectFrame(script[2..], q + [p[0]], p[1..], tail);
      EscapeUsed(script, Collect(script, false, q).rest, second);
      CollectedMore(q, p);
      CollectedAfterEscape(script, q, p, tail);
    }
  }

  lemma CollectedAfterEscape(script: seq<Event>, q: Packet, p: Packet, tail: seq<Byte>)
    requires |script| >= 2 && p != [] && q + [p[0]] + p[1..] == q + p
    requires Collect(script, false, q) == Collect(script[2..], false, q + [p[0]])
    requires Collected(script[2..], q + [p[0]], p[1..], tail)
    requires var rest := Collect(script, false, q).rest;
             && Payload(Used(script, rest)) == EscapeByte(p[0]) + Payload(Used(script[2..], rest))
             && (EscapesUnbroken(Used(script, rest)) <==> EscapesUnbroken(Used(script[2..], rest)))
    ensures Collected(script, q, p, tail)
  {
    hide EscapesUnbroken, Used, Collect, EscapeByte, InTime;
    CollectedMore(q, p);
  }

  lemma CollectEscaped(script: seq<Event>, q: Packet, p: Packet, tail: seq<Byte>, second: Byte, more: seq<Byte>)
    requires InTime(script) && p != []
    requires EscapeByte(p[0]) == [ESC, second]
    requires Payload(script) == [second] + more
    ensures script != []
    ensures Collect(script, true, q) ==
      if script[0] == Empty then Failed(script[1..]) else Collect(script[1..], false, q + [p[0]])
  {
    if script[0] != Empty {
      PayloadSplits(script, second, more);
      assert EscapeByte(p[0])[1] == second;
    }
  }

  /**
    The same for a whole frame, waiting for its start included: the call fails if and only if an empty read
    follows an escape byte of this frame.
  */
  lemma {:induction false} AwaitFrame(script: seq<Event>, p: Packet, tail: seq<Byte>)
    requires InTime(script)
    requires Payload(script) == Frame(p) + tail
    ensures var r := AwaitStart(script);
            var used := Used(script, r.rest);
            && (r.Failed? <==> !EscapesUnbroken(used))
            && (if r.Failed? then Payload(used) <= [END] + Escape(p)
                else r.data == p && Payload(used) == Frame(p) && Payload(r.rest) == tail && InTime(r.rest))
    decreases |script|
  {
    hide EscapesUnbroken, Used;
    if script == [] {
      assert false;
    } else if script[0] == Empty {
      AwaitFrame(script[1..], p, tail);
      FirstUsed(script, AwaitStart(script[1..]).rest);
    } else {
      var body := Escape(p) + ([END] + tail);
      assert Frame(p) + tail == [END] + body;
      PayloadSplits(script, END, body);
      CollectFrame(script[1..], [], p, tail);
      FirstUsed(script, Collect(script[1..], false, []).rest);
      EmptyConcat(p);
      ConcatAssociates([END], Escape(p), [END]);
    }
  }

  /** A reception uses up events from the front; the last one of a frame is its end. */
  ghost predicate FromFront(script: seq<Event>, r: Reception) {
    && |r.rest| <= |script|
    && script == Used(script, r.rest) + r.rest
    && (r.Packet? ==> |r.rest| < |script| && script[|script| - |r.rest| - 1] == Got(END))
  }

  lemma FromFrontMore(script: seq<Event>, r: Reception)
    requires script != [] && FromFront(script[1..], r)
    ensures FromFront(script, r)
  {
    hide Used;
    HeadTail(script);
    UsedFirst(script, r.rest);
    ConcatAssociates([script[0]], Used(script[1..], r.rest), r.rest);
  }

  lemma UsedFirst(script: seq<Event>, rest: seq<Event>)
    requires |rest| < |script|
    ensures Used(script, rest) == [script[0]] + Used(script[1..], rest)
  {
  }

  lemma FromFrontOne(script: seq<Event>, r: Reception)
    requires script != [] && r.rest == script[1..]
    requires r.Packet? ==> script[0] == Got(END)
    ensures FromFront(script, r)
  {
  }

  lemma {:induction false} CollectFromFront(script: seq<Event>, inEscape: bool, data: Packet)
    ensures FromFront(script, Collect(script, inEscape, data))
    decreases |script|
  {
    hide FromFront;
    var r := Collect(script, inEscape, data);
    if script == [] {
      assert FromFront([], Failed([])) by { NothingFromFront(); }
    } else if script[0] == Expired || (inEscape && script[0] == Empty) || script[0] == Got(END)
              || (inEscape && script[0] != Got(ESC_END) && script[0] != Got(ESC_ESC)) {
      FromFrontOne(script, r);
    } else {
      var more := if script[0] == Empty then data
                  else if inEscape then data + [if script[0] == Got(ESC_END) then END else ESC]
                  else if script[0] == Got(ESC) then data
                  else data + [script[0].b];
      CollectFromFront(script[1..], !inEscape && script[0] == Got(ESC), more);
      FromFrontMore(script, r);
    }
  }

  lemma NothingFromFront()
    ensures FromFront([], Failed([]))
  {
  }

  lemma {:induction false} AwaitFromFront(script: seq<Event>)
    ensures FromFront(script, AwaitStart(script))
    decreases |script|
  {
    hide FromFront;
    var r := AwaitStart(script);
    if script == [] {
      NothingFromFront();
    } else if script[0] == Expired {
      FromFrontOne(script, r);
    } else {
      if script[0] == Got(END) {
        CollectFromFront(script[1..], false, []);
      } else {
        AwaitFromFront(script[1..]);
      }
      FromFrontMore(script, r);
    }
  }

  lemma UnbrokenJoins(a: seq<Event>, b: seq<Event>)
    ensures EscapesUnbroken(a + b) ==> EscapesUnbroken(a) && EscapesUnbroken(b)
    ensures a != [] && a[|a| - 1] == Got(END) && EscapesUnbroken(a) && EscapesUnbroken(b) ==> EscapesUnbroken(a + b)
  {
    var all := a + b;
    if EscapesUnbroken(all) {
      forall k | 0 <= k < |a| - 1 && a[k] == Got(ESC) ensures a[k + 1] != Empty {
        assert all[k] == Got(ESC) && all[k + 1] == a[k + 1];
      }
      forall k | 0 <= k < |b| - 1 && b[k] == Got(ESC) ensures b[k + 1] != Empty {
        assert all[|a| + k] == Got(ESC) && all[|a| + k + 1] == b[k + 1];
      }
    }
  }

  /** A frame that is received leaves no escape sequence open, so the rest of the line stands on its own. */
  lemma FrameSeparates(script: seq<Event>)
    ensures var r := AwaitStart(script);
            if r.Failed? then !EscapesUnbroken(Used(script, r.rest)) ==> !EscapesUnbroken(script)
            else EscapesUnbroken(script) <==> EscapesUnbroken(Used(script, r.rest)) && EscapesUnbroken(r.rest)
  {
    hide EscapesUnbroken;
    var r := AwaitStart(script);
    AwaitFromFront(script);
    UnbrokenJoins(Used(script, r.rest), r.rest);
  }

  /**
    For every list of packets written back to back and every pattern of empty reads within the deadline:
    the calls return exactly those packets in order, and leave no byte behind, if and only if no empty read
    comes directly after an escape byte.
  */
  lemma {:induction false} ReceiveRoundTrip(script: seq<Event>, ps: seq<Packet>)
    requires InTime(script)
    requires Payload(script) == Wire(ps)
    ensures var r := Receive(script, |ps|);
      if r.None? then !EscapesUnbroken(script)
      else EscapesUnbroken(script) && r.value.0 == ps && Payload(r.value.1) == []
    decreases ps
  {
    hide EscapesUnbroken, Used;
    if ps == [] {
      QuietUnbroken(script);
    } else {
      AwaitFrame(script, ps[0], Wire(ps[1..]));
      FrameSeparates(script);
      var first := AwaitStart(script);
      if first.Packet? {
        ReceiveRoundTrip(first.rest, ps[1..]);
        assert [ps[0]] + ps[1..] == ps;
      }
    }
  }

  /** A well-formed frame whose second escape byte comes late: the call raises. */
  lemma LateEscapeFails()
    ensures var script := [Got(END), Got(ESC), Empty, Got(ESC_ESC), Got(END)];
            InTime(script) && Payload(script) == Wire([[ESC]]) && Receive(script, 1).None?
  {
    var script := [Got(END), Got(ESC), Empty, Got(ESC_ESC), Got(END)];
    LateEscapePayload();
    assert Wire([[ESC]]) == [END, ESC, ESC_ESC, END] by {
      assert [ESC][1..] == [] && Escape([ESC]) == [ESC, ESC_ESC];
      WireOne([ESC]);
    }
    assert script[1..] == [Got(ESC), Empty, Got(ESC_ESC), Got(END)];
    assert script[1..][1..] == [Empty, Got(ESC_ESC), Got(END)];
    assert Collect([Empty, Got(ESC_ESC), Got(END)], true, []).Failed?;
    assert Collect(script[1..], false, []).Failed?;
  }

  lemma LateEscapePayload()
    ensures Payload([Got(END), Got(ESC), Empty, Got(ESC_ESC), Got(END)]) == [END, ESC, ESC_ESC, END]
  {
    var script := [Got(END), Got(ESC), Empty, Got(ESC_ESC), Got(END)];
    assert script[4..] == [Got(END)] && script[3..][1..] == script[4..];
    assert script[2..][1..] == script[3..] && script[1..][1..] == script[2..];
    assert script[4..][1..] == [];
    assert Payload(script[4..]) == [END];
    assert Payload(script[3..]) == [ESC_ESC, END];
    assert Payload(script[2..]) == [ESC_ESC, END];
    assert Payload(script[1..]) == [ESC, ESC_ESC, END];
  }

  lemma {:induction false} QuietUnbroken(script: seq<Event>)
    requires Payload(script) == []
    ensures EscapesUnbroken(script)
  {
    if script != [] {
      UnbrokenTail(script);
      QuietUnbroken(script[1..]);
    }
  }

  lemma {:induction false} ArrivingPayload(s: seq<Byte>)
    ensures Payload(Arriving(s)) == s
    ensures InTime(Arriving(s))
    ensures Empty !in Arriving(s)
  {
    if s != [] {
      ArrivingPayload(s[1..]);
    }
  }

  lemma NoEmptyNoBreak(script: seq<Event>)
    requires Empty !in script
    ensures EscapesUnbroken(script)
  {
  }

  // ---- The two decoders ----

  /**
    Whenever slip_reader reads a byte stream to its end without an exception and without an unfinished
    packet, polling the same stream with recv_one_return gives the same packets.
  */
  lemma DecodersAgree(s: seq<Byte>)
    requires !Read(IDLE, s).raised && Read(IDLE, s).state == IDLE
    ensures var ps := Read(IDLE, s).packets;
            Receive(Arriving(s), |ps|).Some? && Receive(Arriving(s), |ps|).value.0 == ps
  {
    var ps := Read(IDLE, s).packets;
    ReaderAcceptsExactlyWires(s, ps);
    ArrivingPayload(s);
    ReceiveRoundTrip(Arriving(s), ps);
  }

  /** What recv_one_return puts up with at one frame: bytes before it, and an escape byte right before its end. */
  datatype Noise = Noise(junk: seq<Byte>, dangling: bool)

  function NoisyFrame(p: Packet, noise: Noise): seq<Byte> {
    noise.junk + ([END] + (Escape(p) + ((if noise.dangling then [ESC] else []) + [END])))
  }

  function NoisyWire(ps: seq<Packet>, noises: seq<Noise>): seq<Byte>
    requires |noises| == |ps|
  {
    if ps == [] then [] else NoisyFrame(ps[0], noises[0]) + NoisyWire(ps[1..], noises[1..])
  }

  /** The bytes before a frame do not start one themselves. */
  predicate Harmless(noises: seq<Noise>) {
    forall k :: 0 <= k < |noises| ==> END !in noises[k].junk
  }

  predicate Clean(noises: seq<Noise>) {
    forall k :: 0 <= k < |noises| ==> noises[k] == Noise([], false)
  }

  lemma {:induction false} ArrivingAppends(a: seq<Byte>, b: seq<Byte>)
    ensures Arriving(a + b) == Arriving(a) + Arriving(b)
  {
    if a == [] {
      EmptyConcat(b);
      EmptyConcat(Arriving(b));
    } else {
      ConcatTail(a, b);
      ArrivingAppends(a[1..], b);
      ConcatAssociates([Got(a[0])], Arriving(a[1..]), Arriving(b));
    }
  }

  lemma ArrivingFirst(s: seq<Byte>)
    requires s != []
    ensures Arriving(s) != [] && Arriving(s)[0] == Got(s[0]) && Arriving(s)[1..] == Arriving(s[1..])
  {
  }

  /** What one byte does to the collecting loop. */
  lemma CollectByte(s: seq<Byte>, inEscape: bool, q: Packet)
    requires s != []
    ensures var (r, more) := (Collect(Arriving(s), inEscape, q), Arriving(s[1..]));
            if s[0] == END then r == Packet(q, more)
            else if !inEscape && s[0] == ESC then r == Collect(more, true, q)
            else if !inEscape then r == Collect(more, false, q + [s[0]])
            else if s[0] == ESC_END then r == Collect(more, false, q + [END])
            else if s[0] == ESC_ESC then r == Collect(more, false, q + [ESC])
            else r.Failed?
  {
    ArrivingFirst(s);
  }

  /** The end of a frame, after an escape byte that stands alone if there is one. */
  function Closing(dangling: bool, tail: seq<Byte>): (s: seq<Byte>)
    ensures s != []
  {
    (if dangling then [ESC] else []) + [END] + tail
  }

  lemma CollectClosing(q: Packet, dangling: bool, tail: seq<Byte>)
    ensures Collect(Arriving(Closing(dangling, tail)), false, q) == Packet(q, Arriving(tail))
  {
    hide Collect, Arriving;
    var s := Closing(dangling, tail);
    CollectByte(s, false, q);
    if dangling {
      CollectByte(s[1..], true, q);
      assert s[1..][1..] == tail;
    } else {
      assert s[1..] == tail;
    }
  }

  /** Collecting over what is left of a noisy frame. */
  lemma {:induction false} CollectNoisy(q: Packet, p: Packet, dangling: bool, tail: seq<Byte>)
    ensures Collect(Arriving(Escape(p) + Closing(dangling, tail)), false, q) == Packet(q + p, Arriving(tail))
    decreases p
  {
    hide Escape, EscapeByte, Closing, Collect, Arriving;
    var end := Closing(dangling, tail);
    var s := Escape(p) + end;
    if p == [] {
      EscapeNothing();
      EmptyConcat(end);
      EmptyConcat(q);
      CollectClosing(q, dangling, tail);
    } else {
      EscapeFirst(p, end);
      CollectByte(s, false, q);
      CollectNoisy(q + [p[0]], p[1..], dangling, tail);
      HeadTail(p);
      ConcatAssociates(q, [p[0]], p[1..]);
      if |EscapeByte(p[0])| == 2 {
        CollectByte(s[1..], true, q);
      }
    }
  }

  lemma EscapeNothing()
    ensures Escape([]) == []
  {
  }

  lemma EscapeFirst(p: Packet, end: seq<Byte>)
    requires p != []
    ensures var (s, more) := (Escape(p) + end, Escape(p[1..]) + end);
            if |EscapeByte(p[0])| == 2 then
              |s| >= 2 && s[0] == ESC && s[1..] != [] && s[1..][1..] == more
              && s[1..][0] == (if p[0] == END then ESC_END else ESC_ESC) && (p[0] == END || p[0] == ESC)
            else s != [] && s[0] == p[0] && s[1..] == more && p[0] != END && p[0] != ESC
  {
    assert Escape(p) + end == EscapeByte(p[0]) + (Escape(p[1..]) + end);
  }

  /** Waiting passes over bytes that do not start a frame. */
  lemma {:induction false} AwaitNoisy(p: Packet, noise: Noise, tail: seq<Byte>)
    requires END !in noise.junk
    ensures AwaitStart(Arriving(NoisyFrame(p, noise) + tail)) == Packet(p, Arriving(tail))
    decreases noise.junk
  {
    hide Collect, Escape;
    var s := NoisyFrame(p, noise) + tail;
    ArrivingFirst(s);
    if noise.junk == [] {
      FrameTail(p, noise, tail);
      CollectNoisy([], p, noise.dangling, tail);
      EmptyConcat(p);
    } else {
      var fewer := Noise(noise.junk[1..], noise.dangling);
      assert s[0] == noise.junk[0] && s[0] in noise.junk;
      assert s[1..] == NoisyFrame(p, fewer) + tail;
      AwaitNoisy(p, fewer, tail);
    }
  }

  /** A byte stream that one call reads as p starts with a noisy frame of p. */
  lemma {:induction false} AwaitShape(s: seq<Byte>) returns (p: Packet, noise: Noise, tail: seq<Byte>)
    requires AwaitStart(Arriving(s)).Packet?
    ensures AwaitStart(Arriving(s)) == Packet(p, Arriving(tail))
    ensures END !in noise.junk && s == NoisyFrame(p, noise) + tail
    decreases s
  {
    hide Collect, Escape;
    assert s != [] by { NothingArrives(s); }
    ArrivingFirst(s);
    HeadTail(s);
    if s[0] == END {
      var dangling;
      p, dangling, tail := CollectShape(s[1..], false, []);
      noise := Noise([], dangling);
      EmptyConcat(p);
      EmptyConcat(s[1..]);
      FrameTail(p, noise, tail);
    } else {
      var more;
      p, more, tail := AwaitShape(s[1..]);
      noise := Noise([s[0]] + more.junk, more.dangling);
      assert s == NoisyFrame(p, noise) + tail;
    }
  }

  lemma FrameTail(p: Packet, noise: Noise, tail: seq<Byte>)
    requires noise.junk == []
    ensures NoisyFrame(p, noise) + tail == [END] + (Escape(p) + Closing(noise.dangling, tail))
  {
    hide Escape;
  }

  lemma NothingArrives(s: seq<Byte>)
    requires AwaitStart(Arriving(s)).Packet?
    ensures s != []
  {
  }

  /** The same inside a frame. In an open escape sequence the escape byte has been read already. */
  lemma {:induction false} CollectShape(s: seq<Byte>, inEscape: bool, q: Packet)
      returns (p: Packet, dangling: bool, tail: seq<Byte>)
    requires Collect(Arriving(s), inEscape, q).Packet?
    ensures Collect(Arriving(s), inEscape, q) == Packet(q + p, Arriving(tail))
    ensures (if inEscape then [ESC] else []) + s == Escape(p) + Closing(dangling, tail)
    decreases |s|
  {
    hide Escape, EscapeByte, Collect, Arriving, Closing;
    assert s != [] by { NothingCollected(s, inEscape, q); }
    CollectByte(s, inEscape, q);
    HeadTail(s);
    EmptyConcat(s);
    if s[0] == END {
      p, dangling, tail := [], inEscape, s[1..];
      EscapeNothing();
      EmptyConcat(q);
      EmptyConcat(Closing(dangling, tail));
      ClosingIs(dangling, tail);
    } else if !inEscape && s[0] == ESC {
      p, dangling, tail := CollectShape(s[1..], true, q);
    } else {
      var b := if !inEscape then s[0] else if s[0] == ESC_END then END else ESC;
      var more;
      more, dangling, tail := CollectShape(s[1..], false, q + [b]);
      p := [b] + more;
      ConcatAssociates(q, [b], more);
      EmptyConcat(s[1..]);
      EscapedAgain(b, more, Closing(dangling, tail));
      EscapeByteIs(b);
      ConcatAssociates([ESC], [s[0]], s[1..]);
      assert [ESC] + [s[0]] == [ESC, s[0]];
    }
  }

  lemma ClosingIs(dangling: bool, tail: seq<Byte>)
    ensures Closing(dangling, tail) == (if dangling then [ESC] else []) + ([END] + tail)
  {
  }

  lemma EscapeByteIs(b: Byte)
    ensures EscapeByte(b) == if b == END then [ESC, ESC_END] else if b == ESC then [ESC, ESC_ESC] else [b]
  {
  }

  lemma NothingCollected(s: seq<Byte>, inEscape: bool, q: Packet)
    requires Collect(Arriving(s), inEscape, q).Packet?
    ensures s != []
  {
  }

  lemma EscapedAgain(b: Byte, more: Packet, end: seq<Byte>)
    ensures Escape([b] + more) + end == EscapeByte(b) + (Escape(more) + end)
  {
    hide EscapeByte;
    assert ([b] + more)[1..] == more;
    ConcatAssociates(EscapeByte(b), Escape(more), end);
  }

  /**
    The language of recv_one_return: successive calls read a byte stream to the end as the packets ps if and only
    if it is their frames, each with bytes before it that do not start a frame, and with or without an escape byte
    before its end.
  */
  lemma ReceivesExactly(s: seq<Byte>, ps: seq<Packet>)
    ensures Receive(Arriving(s), |ps|) == Some((ps, [])) <==>
      exists noises: seq<Noise> :: |noises| == |ps| && Harmless(noises) && s == NoisyWire(ps, noises)
  {
    if Receive(Arriving(s), |ps|) == Some((ps, [])) {
      var noises := NoiseOf(s, ps);
    }
    if noises: seq<Noise> :| |noises| == |ps| && Harmless(noises) && s == NoisyWire(ps, noises) {
      ReceiveNoisy(ps, noises);
    }
  }

  lemma {:induction false} NoiseOf(s: seq<Byte>, ps: seq<Packet>) returns (noises: seq<Noise>)
    requires Receive(Arriving(s), |ps|) == Some((ps, []))
    ensures |noises| == |ps| && Harmless(noises) && s == NoisyWire(ps, noises)
    decreases ps
  {
    hide AwaitStart, Arriving, NoisyFrame;
    if ps == [] {
      noises := [];
      assert |Arriving(s)| == 0;
    } else {
      var p, noise, tail := AwaitShape(s);
      var all := Receive(Arriving(tail), |ps| - 1).value.0;
      assert ([p] + all)[0] == p && ([p] + all)[1..] == all;
      var more := NoiseOf(tail, ps[1..]);
      noises := [noise] + more;
      assert noises[1..] == more;
    }
  }

  lemma {:induction false} ReceiveNoisy(ps: seq<Packet>, noises: seq<Noise>)
    requires |noises| == |ps| && Harmless(noises)
    ensures Receive(Arriving(NoisyWire(ps, noises)), |ps|) == Some((ps, []))
    decreases ps
  {
    hide AwaitStart, NoisyFrame;
    if ps != [] {
      AwaitNoisy(ps[0], noises[0], NoisyWire(ps[1..], noises[1..]));
      ReceiveNoisy(ps[1..], noises[1..]);
      HeadTail(ps);
    }
  }

  lemma {:induction false} NoisyLength(ps: seq<Packet>, noises: seq<Noise>)
    requires |noises| == |ps|
    ensures if Clean(noises) then NoisyWire(ps, noises) == Wire(ps) else |NoisyWire(ps, noises)| > |Wire(ps)|
    decreases ps
  {
    hide Escape;
    if ps != [] {
      NoisyLength(ps[1..], noises[1..]);
      CleanTail(noises);
      NoisyFrameLength(ps[0], noises[0]);
    }
  }

  lemma CleanTail(noises: seq<Noise>)
    requires noises != []
    ensures Clean(noises) <==> noises[0] == Noise([], false) && Clean(noises[1..])
  {
    assert forall k :: 1 <= k < |noises| ==> noises[k] == noises[1..][k - 1];
  }

  lemma NoisyFrameLength(p: Packet, noise: Noise)
    ensures if noise == Noise([], false) then NoisyFrame(p, noise) == Frame(p) else |NoisyFrame(p, noise)| > |Frame(p)|
  {
    hide Escape;
  }

  /**
    A stream that polling reads to the end is read by the generator as the same packets if and only if it has no
    bytes before a frame and no escape byte right before the end of one.
  */
  lemma {:induction false} DecodersAgreeExactly(ps: seq<Packet>, noises: seq<Noise>)
    requires |noises| == |ps| && Harmless(noises)
    ensures var s := NoisyWire(ps, noises);
            && Receive(Arriving(s), |ps|) == Some((ps, []))
            && (Read(IDLE, s) == ReaderRun(ps, IDLE, false) <==> Clean(noises))
  {
    hide Read, Receive, Wire, NoisyWire;
    ReceiveNoisy(ps, noises);
    NoisyLength(ps, noises);
    ReaderAcceptsExactlyWires(NoisyWire(ps, noises), ps);
  }

  /** A byte before a frame: polling skips it, the generator raises. */
  lemma JunkIsSkipped()
    ensures Receive(Arriving([0x41, END, END]), 1) == Some(([[]], []))
    ensures Read(IDLE, [0x41, END, END]).raised
  {
    var nothing: Packet := [];
    var noises := [Noise([0x41], false)];
    ReceiveNoisy([nothing], noises);
    assert [nothing][1..] == [] && noises[1..] == [] && Escape(nothing) == [];
    assert NoisyWire([nothing], noises) == [0x41, END, END];
  }

  /** A frame cut off inside an escape sequence: polling returns a packet, the generator raises. */
  lemma DecodersDiffer()
    ensures Receive(Arriving([END, ESC, END]), 1) == Some(([[]], []))
    ensures Read(IDLE, [END, ESC, END]).raised
  {
    var s := [END, ESC, END];
    assert s[1..] == [ESC, END] && [ESC, END][1..] == [END] && [END][1..] == [];
    assert Arriving([END]) == [Got(END)];
    assert Arriving([ESC, END]) == [Got(ESC), Got(END)];
    assert Arriving(s) == [Got(END), Got(ESC), Got(END)];
    assert Arriving(s)[1..] == [Got(ESC), Got(END)];
    assert [Got(ESC), Got(END)][1..] == [Got(END)] && [Got(END)][1..] == [];
    assert Collect([Got(END)], true, []) == Packet([], []);
    assert AwaitStart(Arriving(s)) == Packet([], []);
    var nothing: Packet := [];
    assert Receive([], 0) == Some(([], []));
    assert [nothing] + [] == [nothing];
    assert Read(ReaderState(Some([]), true), [END]).raised;
    assert Read(ReaderState(Some([]), false), [ESC, END]).raised;
  }

  // ---- The port and the two methods ----

  /** What a poll returns for an event: nothing at all after the deadline, else the byte if there is one. */
  function Found(event: Event): Option<Option<Byte>> {
    match event
    case Expired => None
    case Empty => Some(None)
    case Got(b) => Some(Some(b))
  }

  class SerialPort {
    /** What polls will find. */
    var incoming: seq<Event>
    /** All bytes written so far, and the packets that they frame. */
    var outgoing: seq<Byte>
    ghost var packets: seq<Packet>
    /** Whether the port is still open; nothing opens it again. */
    var open: bool

    ghost predicate Valid()
      reads this
    {
      outgoing == Wire(packets)
    }

    constructor (incoming: seq<Event>)
      ensures Valid() && open && packets == [] && this.incoming == incoming
    {
      this.incoming := incoming;
      outgoing, packets, open := [], [], true;
    }

    /** raise_exception closes the port before it raises. */
    method Close()
      modifies this`open
      ensures !open
    {
      open := false;
    }

    /** Frames one packet; writing to a closed port raises. */
    method Write(packet: Packet) returns (raised: bool)
      requires Valid()
      modifies this`outgoing, this`packets
      ensures Valid() && raised == !open
      ensures if raised then outgoing == old(outgoing) && packets == old(packets)
              else outgoing == old(outgoing) + Frame(packet) && packets == old(packets) + [packet]
    {
      if !open {
        return true;
      }
      ReplacePasses(packet);
      WireAppends(packets, [packet]);
      WireOne(packet);
      packets := packets + [packet];
      var buf := [END] + Replace(Replace(packet, ESC, [ESC, ESC_ESC]), END, [ESC, ESC_END]) + [END];
      outgoing := outgoing + buf;
      raised := false;
    }

    /** The deadline check and the read of one byte; None when the deadline has passed. */
    method Poll() returns (c: Option<Option<Byte>>)
      requires open
      modifies this`incoming
      ensures old(incoming) == [] ==> c == None && incoming == []
      ensures old(incoming) != [] ==> incoming == old(incoming)[1..]
      ensures old(incoming) != [] ==> c == Found(old(incoming)[0])
    {
      if incoming == [] {
        return None;
      }
      var event := incoming[0];
      incoming := incoming[1..];
      c := Found(event);
    }

    /** One packet. A deadline that passes and a bad escape sequence close the port; reading a closed port raises. */
    method RecvOneReturn() returns (r: Outcome<Packet>)
      modifies this`incoming, this`open
      ensures !old(open) ==> r == Raised && incoming == old(incoming) && !open
      ensures old(open) ==>
        match AwaitStart(old(incoming))
        case Failed(rest) => r == Raised && incoming == rest && !open
        case Packet(data, rest) => r == Returned(data) && incoming == rest && open
    {
      if !open {
        return Raised;
      }
      while true
        invariant open && AwaitStart(incoming) == AwaitStart(old(incoming))
        decreases |incoming|
      {
        var c := Poll();
        if c.None? {
          Close();
          return Raised;
        }
        if c.value == Some(END) {
          break;
        }
      }
      var data: Packet := [];
      var inEscape := false;
      while true
        invariant open && Collect(incoming, inEscape, data) == AwaitStart(old(incoming))
        decreases |incoming|
      {
        var c := Poll();
        if c.None? {
          Close();
          return Raised;
        }
        if c.value == Some(END) {
          break;
        } else if inEscape {
          inEscape := false;
          if c.value == Some(ESC_END) {
            data := data + [END];
          } else if c.value == Some(ESC_ESC) {
            data := data + [ESC];
          } else {
            Close();
            return Raised;
          }
        } else if c.value == Some(ESC) {
          inEscape := true;
        } else {
          EmptyConcat(data);
          data := data + if c.value.Some? then [c.value.value] else [];
        }
      }
      return Returned(data);
    }
  }
}
