/**
  The three-semaphore ring buffer of ch8b_mpsc_sem.c: any number of producers, one consumer, any buffer
  size and item count. A state machine whose steps are the atomic actions of the two thread bodies.
*/
module BoundedBuffer {
  import opened Outcome
  import opened RingIndex
  import opened Seqs
  import opened Sums

  /** buffer_size, producers, number_per_producer */
  datatype Config = Config(size: nat, producers: nat, items: nat) {
    ghost predicate Valid() {
      size >= 1
    }
  }

  /**
    Where a thread stands in its loop: before its first down, before the mutex, at the buffer access, at the
    index update, before the mutex is released, before its last up, or exited.
  */
  datatype PC = Enter | Lock | Access | Advance | Unlock | Leave | Exited

  datatype Thread = Thread(pc: PC, i: nat)

  /** The shared globals, the threads, and the history of stores and reads of the buffer. */
  datatype State = State(empty: nat, mutex: nat, existed: nat, buffer: seq<int>, front: nat, tail: nat,
                         prod: seq<Thread>, cons: Thread, stored: seq<int>, consumed: seq<int>)

  function Init(c: Config): State {
    State(c.size, 1, 0, seq(c.size, _ => 0), 0, 0, seq(c.producers, _ => Thread(Enter, 0)), Thread(Enter, 0), [], [])
  }

  /** The loop bound of a thread; thread number c.producers is the consumer. */
  function Limit(c: Config, t: nat): nat {
    if t < c.producers then c.items else c.items * c.producers
  }

  function TheThread(c: Config, s: State, t: nat): Thread
    requires |s.prod| == c.producers && t <= c.producers
  {
    if t < c.producers then s.prod[t] else s.cons
  }

  /** A thread can move: its semaphore is up, or it needs none. */
  predicate Enabled(c: Config, s: State, t: nat)
    requires |s.prod| == c.producers && t <= c.producers
  {
    var th := TheThread(c, s, t);
    match th.pc
    case Enter => th.i < Limit(c, t) ==> (if t < c.producers then s.empty else s.existed) > 0
    case Lock => s.mutex > 0
    case Exited => false
    case _ => true
  }

  /**
    Who has to wait: at the mutex while it is taken, and before a round, while the semaphore is down, with rounds left:
    a producer has c.items of them, the consumer c.items for each producer.
  */
  lemma WaitsExactly(c: Config, s: State, t: nat)
    requires |s.prod| == c.producers && t <= c.producers && TheThread(c, s, t).pc != Exited
    ensures !Enabled(c, s, t) <==>
      if TheThread(c, s, t).pc == Lock then s.mutex == 0
      else if t < c.producers then s.prod[t].pc == Enter && s.prod[t].i < c.items && s.empty == 0
      else s.cons.pc == Enter && s.cons.i < c.items * c.producers && s.existed == 0
  {
  }

  function Moved(th: Thread, pc: PC): Thread {
    Thread(pc, th.i)
  }

  /** One step of producer t. */
  function Produce(c: Config, s: State, t: nat): State
    requires |s.prod| == c.producers && t < c.producers && |s.buffer| == c.size >= 1 && s.front < c.size
    requires Enabled(c, s, t)
  {
    var th := s.prod[t];
    match th.pc
    case Enter =>
      if th.i < c.items then s.(empty := s.empty - 1, prod := s.prod[t := Moved(th, Lock)])
      else s.(prod := s.prod[t := Moved(th, Exited)])
    case Lock => s.(mutex := s.mutex - 1, prod := s.prod[t := Moved(th, Access)])
    case Access =>
      s.(buffer := s.buffer[s.front := t], stored := s.stored + [t], prod := s.prod[t := Moved(th, Advance)])
    case Advance => s.(front := (s.front + 1) % c.size, prod := s.prod[t := Moved(th, Unlock)])
    case Unlock => s.(mutex := s.mutex + 1, prod := s.prod[t := Moved(th, Leave)])
    case Leave => s.(existed := s.existed + 1, prod := s.prod[t := Thread(Enter, th.i + 1)])
  }

  /** One step of the consumer. */
  function Consume(c: Config, s: State): State
    requires |s.prod| == c.producers && |s.buffer| == c.size >= 1 && s.tail < c.size
    requires Enabled(c, s, c.producers)
  {
    var th := s.cons;
    match th.pc
    case Enter =>
      if th.i < Limit(c, c.producers) then s.(existed := s.existed - 1, cons := Moved(th, Lock))
      else s.(cons := Moved(th, Exited))
    case Lock => s.(mutex := s.mutex - 1, cons := Moved(th, Access))
    case Access => s.(consumed := s.consumed + [s.buffer[s.tail]], cons := Moved(th, Advance))
    case Advance => s.(tail := (s.tail + 1) % c.size, cons := Moved(th, Unlock))
    case Unlock => s.(mutex := s.mutex + 1, cons := Moved(th, Leave))
    case Leave => s.(empty := s.empty + 1, cons := Thread(Enter, th.i + 1))
  }

  predicate WellFormed(c: Config, s: State) {
    |s.prod| == c.producers && |s.buffer| == c.size >= 1 && s.front < c.size && s.tail < c.size
  }

  function Next(c: Config, s: State, t: nat): State
    requires WellFormed(c, s) && t <= c.producers && Enabled(c, s, t)
  {
    if t < c.producers then Produce(c, s, t) else Consume(c, s)
  }

  // ---- Counting threads ----

  /** Between its first down and its last up. */
  function Inside(th: Thread): nat {
    if th.pc == Enter || th.pc == Exited then 0 else 1
  }

  /** Between mutex down and mutex up. */
  function Holding(th: Thread): nat {
    if th.pc == Access || th.pc == Advance || th.pc == Unlock then 1 else 0
  }

  /** Past its buffer access in this round. */
  function Accessed(th: Thread): nat {
    if th.pc == Advance || th.pc == Unlock || th.pc == Leave then 1 else 0
  }

  /** Past its buffer access, index not yet updated. */
  function Updating(th: Thread): nat {
    if th.pc == Advance then 1 else 0
  }

  function Rounds(th: Thread): nat {
    th.i
  }

  function Count(s: seq<int>, id: int): nat {
    if s == [] then 0 else Count(s[..|s| - 1], id) + (if s[|s| - 1] == id then 1 else 0)
  }

  // ---- The invariant ----

  /** Loop counters stay within their bounds, and only threads that have used theirs up exit. */
  predicate CounterOk(th: Thread, limit: nat) {
    th.i <= limit && (th.pc == Exited ==> th.i == limit) && (Inside(th) == 1 ==> th.i < limit)
  }

  ghost predicate Counters(c: Config, s: State) {
    && WellFormed(c, s)
    && (forall t :: 0 <= t < c.producers ==> CounterOk(s.prod[t], c.items))
    && CounterOk(s.cons, c.items * c.producers)
  }

  /** At most one thread is in the mutex; every slot is free, full, or in the hands of one thread. */
  ghost predicate Tokens(c: Config, s: State) {
    && s.mutex + Sum(Holding, s.prod) + Holding(s.cons) == 1
    && s.empty + s.existed + Sum(Inside, s.prod) + Inside(s.cons) == c.size
    && s.existed + s.cons.i + Inside(s.cons) == Sum(Rounds, s.prod)
  }

  /** The histories are as long as the loop counters say, and the two indices follow them. */
  ghost predicate Indices(c: Config, s: State) {
    && WellFormed(c, s)
    && |s.stored| == Sum(Rounds, s.prod) + Sum(Accessed, s.prod)
    && |s.consumed| == s.cons.i + Accessed(s.cons)
    && Sum(Updating, s.prod) <= |s.stored| && Updating(s.cons) <= |s.consumed|
    && s.front == Slot(|s.stored| - Sum(Updating, s.prod), c.size)
    && s.tail == Slot(|s.consumed| - Updating(s.cons), c.size)
  }

  /** First in, first out; and what has been stored but not read is still in its slot. */
  ghost predicate Fifo(c: Config, s: State) {
    && WellFormed(c, s)
    && |s.consumed| <= |s.stored| && s.consumed == s.stored[..|s.consumed|]
    && (forall k :: |s.consumed| <= k < |s.stored| ==> s.buffer[Slot(k, c.size)] == s.stored[k])
  }

  /** Each producer has stored its number once for every round, and nobody else's number. */
  ghost predicate Shares(c: Config, s: State) {
    && WellFormed(c, s)
    && (forall t :: 0 <= t < c.producers ==> Count(s.stored, t) == s.prod[t].i + Accessed(s.prod[t]))
  }

  ghost predicate Inv(c: Config, s: State) {
    Counters(c, s) && Tokens(c, s) && Indices(c, s) && Fifo(c, s) && Shares(c, s)
  }

  lemma InitInv(c: Config)
    requires c.Valid()
    ensures Inv(c, Init(c))
  {
    SumSame(Holding, Thread(Enter, 0), c.producers);
    SumSame(Inside, Thread(Enter, 0), c.producers);
    SumSame(Rounds, Thread(Enter, 0), c.producers);
    SumSame(Accessed, Thread(Enter, 0), c.producers);
    SumSame(Updating, Thread(Enter, 0), c.producers);
  }

  lemma SumsUpdate(ts: seq<Thread>, k: nat, th: Thread)
    requires k < |ts|
    ensures Sum(Holding, ts[k := th]) == Sum(Holding, ts) - Holding(ts[k]) + Holding(th)
        && Sum(Holding, ts) >= Holding(ts[k])
    ensures Sum(Inside, ts[k := th]) == Sum(Inside, ts) - Inside(ts[k]) + Inside(th) && Sum(Inside, ts) >= Inside(ts[k])
    ensures Sum(Rounds, ts[k := th]) == Sum(Rounds, ts) - ts[k].i + th.i && Sum(Rounds, ts) >= ts[k].i
    ensures Sum(Accessed, ts[k := th]) == Sum(Accessed, ts) - Accessed(ts[k]) + Accessed(th)
        && Sum(Accessed, ts) >= Accessed(ts[k])
    ensures Sum(Updating, ts[k := th]) == Sum(Updating, ts) - Updating(ts[k]) + Updating(th)
        && Sum(Updating, ts) >= Updating(ts[k])
  {
    SumUpdate(Holding, ts, k, th);
    SumUpdate(Inside, ts, k, th);
    SumUpdate(Rounds, ts, k, th);
    SumUpdate(Accessed, ts, k, th);
    SumUpdate(Updating, ts, k, th);
  }

  /** Who has accessed the buffer is inside; who is updating an index holds the mutex. */
  lemma {:induction false} SumOrder(ts: seq<Thread>)
    ensures Sum(Accessed, ts) <= Sum(Inside, ts)
    ensures Sum(Updating, ts) <= Sum(Holding, ts)
    ensures Sum(Updating, ts) <= Sum(Accessed, ts)
  {
    if ts != [] {
      SumOrder(ts[1..]);
    }
  }

  /** While producer t is at its access, no other index update is under way and a slot is left for it. */
  lemma AtAccess(c: Config, s: State, t: nat)
    requires Inv(c, s) && t < c.producers && s.prod[t].pc == Access
    ensures Sum(Updating, s.prod) == 0
    ensures |s.stored| < |s.consumed| + c.size
  {
    var (gone, left) := (Thread(Enter, s.prod[t].i), Thread(Leave, s.prod[t].i));
    SumsUpdate(s.prod, t, gone);
    SumOrder(s.prod[t := gone]);
    SumsUpdate(s.prod, t, left);
    SumOrder(s.prod[t := left]);
  }

  /** While producer t updates the index, it is the only one that does. */
  lemma AtAdvance(c: Config, s: State, t: nat)
    requires Inv(c, s) && t < c.producers && s.prod[t].pc == Advance
    ensures Sum(Updating, s.prod) == 1
  {
    SumsUpdate(s.prod, t, s.prod[t]);
    SumOrder(s.prod);
  }

  lemma CountLast(s: seq<int>, x: int, id: int)
    ensures Count(s + [x], id) == Count(s, id) + (if x == id then 1 else 0)
  {
    assert (s + [x])[..|s|] == s;
  }

  lemma ProduceTokens(c: Config, s: State, t: nat)
    requires Counters(c, s) && Tokens(c, s) && t < c.producers && Enabled(c, s, t)
    ensures Counters(c, Produce(c, s, t)) && Tokens(c, Produce(c, s, t))
  {
    hide Sum;
    SumsUpdate(s.prod, t, Produce(c, s, t).prod[t]);
  }

  lemma ProduceIndices(c: Config, s: State, t: nat)
    requires Inv(c, s) && t < c.producers && Enabled(c, s, t)
    ensures Indices(c, Produce(c, s, t))
  {
    hide Sum, Slot, Counters, Tokens, Fifo, Shares;
    var th := s.prod[t];
    var s' := Produce(c, s, t);
    assert WellFormed(c, s) && CounterOk(th, c.items) by { Unfold(c, s, t); }
    SumsUpdate(s.prod, t, s'.prod[t]);
    if th.pc == Access {
      AtAccess(c, s, t);
    } else if th.pc == Advance {
      AtAdvance(c, s, t);
      SlotStep(|s.stored|, c.size);
    }
  }

  lemma Unfold(c: Config, s: State, t: nat)
    requires Counters(c, s) && t < c.producers
    ensures WellFormed(c, s) && CounterOk(s.prod[t], c.items)
  {
  }

  lemma ProduceFifo(c: Config, s: State, t: nat)
    requires Inv(c, s) && t < c.producers && Enabled(c, s, t)
    ensures Fifo(c, Produce(c, s, t))
  {
    hide Sum, Slot, Counters, Tokens, Shares;
    var s' := Produce(c, s, t);
    if s.prod[t].pc == Access {
      AtAccess(c, s, t);
      forall k | |s.consumed| <= k < |s'.stored| ensures s'.buffer[Slot(k, c.size)] == s'.stored[k] {
        if k < |s.stored| {
          SlotsDiffer(k, |s.stored|, c.size);
        }
      }
      assert s'.stored[..|s.consumed|] == s.stored[..|s.consumed|];
    }
  }

  lemma ProduceShares(c: Config, s: State, t: nat)
    requires Shares(c, s) && t < c.producers && Enabled(c, s, t)
    ensures Shares(c, Produce(c, s, t))
  {
    hide Sum, Count;
    forall id | 0 <= id < c.producers
      ensures Count(Produce(c, s, t).stored, id) == Produce(c, s, t).prod[id].i + Accessed(Produce(c, s, t).prod[id])
    {
      CountLast(s.stored, t, id);
    }
  }

  lemma SlotStep(k: nat, size: nat)
    requires size >= 1 && k >= 1
    ensures Slot(k, size) == (Slot(k - 1, size) + 1) % size
  {
  }

  lemma ConsumeTokens(c: Config, s: State)
    requires Counters(c, s) && Tokens(c, s) && Enabled(c, s, c.producers)
    ensures Counters(c, Consume(c, s)) && Tokens(c, Consume(c, s))
  {
    hide Sum;
  }

  lemma ConsumeIndices(c: Config, s: State)
    requires Counters(c, s) && Indices(c, s) && Enabled(c, s, c.producers)
    ensures Indices(c, Consume(c, s))
  {
    hide Sum, Slot;
    if s.cons.pc == Advance {
      SlotStep(|s.consumed|, c.size);
    }
  }

  lemma ConsumeFifo(c: Config, s: State)
    requires Inv(c, s) && Enabled(c, s, c.producers)
    ensures Fifo(c, Consume(c, s)) && Shares(c, Consume(c, s))
  {
    hide Sum, Slot, Count, Counters;
    if s.cons.pc == Access {
      assert s.buffer[s.tail] == s.stored[|s.consumed|];
    }
  }

  /** Every atomic step of every thread keeps the invariant. */
  lemma NextInv(c: Config, s: State, t: nat)
    requires Inv(c, s) && WellFormed(c, s) && t <= c.producers && Enabled(c, s, t)
    ensures Inv(c, Next(c, s, t))
  {
    hide Counters, Tokens, Indices, Fifo, Shares, Produce, Consume;
    if t == c.producers {
      ConsumeTokens(c, s);
      ConsumeIndices(c, s);
      ConsumeFifo(c, s);
    } else {
      ProduceTokens(c, s, t);
      ProduceIndices(c, s, t);
      ProduceFifo(c, s, t);
      ProduceShares(c, s, t);
    }
  }

  // ---- Progress ----

  /** The steps a thread still has to make. */
  function Work(th: Thread, limit: nat): nat {
    if th.pc == Exited || th.i > limit then 0
    else if th.pc == Enter then 6 * (limit - th.i) + 1
    else if th.i == limit then 0
    else 6 * (limit - th.i) + 1 - Phase(th.pc)
  }

  function Phase(pc: PC): (n: nat)
    ensures n <= 6
  {
    match pc
    case Enter => 0
    case Lock => 1
    case Access => 2
    case Advance => 3
    case Unlock => 4
    case Leave => 5
    case Exited => 6
  }

  function WorkOf(limit: nat): Thread -> nat {
    th => Work(th, limit)
  }

  function Left(c: Config, s: State): nat {
    Sum(WorkOf(c.items), s.prod) + Work(s.cons, c.items * c.producers)
  }

  /** The length of every complete run. */
  function Total(c: Config): nat {
    c.producers * (6 * c.items + 1) + 6 * (c.items * c.producers) + 1
  }

  lemma InitLeft(c: Config)
    ensures Left(c, Init(c)) == Total(c)
  {
    hide Sum;
    SumSame(WorkOf(c.items), Thread(Enter, 0), c.producers);
  }

  /** Every step of every thread uses up exactly one unit of the remaining work. */
  lemma NextLeft(c: Config, s: State, t: nat)
    requires Counters(c, s) && t <= c.producers && Enabled(c, s, t)
    ensures Left(c, Next(c, s, t)) == Left(c, s) - 1
  {
    hide Sum;
    if t < c.producers {
      SumUpdate(WorkOf(c.items), s.prod, t, Produce(c, s, t).prod[t]);
    }
  }

  /** A thread that is inside can move, or the thread that holds the mutex can. */
  lemma InsideMoves(c: Config, s: State, t: nat) returns (e: nat)
    requires Inv(c, s) && t <= c.producers && Inside(TheThread(c, s, t)) > 0
    ensures e <= c.producers && Enabled(c, s, e)
  {
    if TheThread(c, s, t).pc != Lock || s.mutex > 0 {
      e := t;
    } else if Holding(s.cons) > 0 {
      e := c.producers;
    } else {
      e := SumPositive(Holding, s.prod);
    }
  }

  /** No reachable state is stuck: while work is left, some thread can move. */
  lemma Progress(c: Config, s: State) returns (t: nat)
    requires Inv(c, s) && Left(c, s) > 0
    ensures t <= c.producers && Enabled(c, s, t)
  {
    hide Sum, Indices, Fifo, Shares;
    if Inside(s.cons) > 0 {
      t := InsideMoves(c, s, c.producers);
    } else if Sum(Inside, s.prod) > 0 {
      t := SumPositive(Inside, s.prod);
      t := InsideMoves(c, s, t);
    } else if s.cons.pc == Enter && (s.existed > 0 || s.cons.i == c.items * c.producers) {
      t := c.producers;
    } else if s.cons.pc == Enter {
      // nothing to consume yet: the whole buffer is free, and some producer is not done
      assert Sum(Rounds, s.prod) < c.items * |s.prod|;
      t := SumShort(Rounds, s.prod, c.items);
      SumUpdate(Inside, s.prod, t, s.prod[t]);
    } else {
      // the consumer has exited, so everything has been produced and the whole buffer is free
      SumBound(Rounds, s.prod, c.items);
      t := SumPositive(WorkOf(c.items), s.prod);
      SumUpdate(Inside, s.prod, t, s.prod[t]);
    }
  }

  // ---- Whole runs ----

  /** The state after a schedule, if every thread it names can move when its turn comes. */
  function Run(c: Config, s: State, schedule: seq<nat>): Option<State>
    decreases |schedule|
  {
    if schedule == [] then Some(s)
    else if WellFormed(c, s) && schedule[0] <= c.producers && Enabled(c, s, schedule[0])
    then Run(c, Next(c, s, schedule[0]), schedule[1..])
    else None
  }

  /** Runs go on with exactly the steps of the threads that can move. */
  lemma {:induction false} RunExtends(c: Config, s: State, schedule: seq<nat>, t: nat)
    requires Run(c, s, schedule).Some?
    ensures var s' := Run(c, s, schedule).value;
            Run(c, s, schedule + [t]) ==
              if WellFormed(c, s') && t <= c.producers && Enabled(c, s', t) then Some(Next(c, s', t)) else None
    decreases |schedule|
  {
    hide WellFormed, Enabled, Next;
    if schedule == [] {
      assert [t][1..] == [] && schedule + [t] == [t];
    } else {
      ConcatTail(schedule, [t]);
      RunExtends(c, Next(c, s, schedule[0]), schedule[1..], t);
    }
  }

  lemma {:induction false} RunKeeps(c: Config, s: State, schedule: seq<nat>)
    requires Inv(c, s) && Run(c, s, schedule).Some?
    ensures Inv(c, Run(c, s, schedule).value)
    ensures Left(c, Run(c, s, schedule).value) == Left(c, s) - |schedule|
    decreases |schedule|
  {
    hide Inv, Left, Next, Enabled;
    if schedule != [] {
      assert Counters(c, s) by { InvCounters(c, s); }
      NextInv(c, s, schedule[0]);
      NextLeft(c, s, schedule[0]);
      RunKeeps(c, Next(c, s, schedule[0]), schedule[1..]);
    }
  }

  lemma InvCounters(c: Config, s: State)
    requires Inv(c, s)
    ensures Counters(c, s)
  {
  }

  /** Safety of every run, whatever the schedule. */
  lemma EveryRunIsSafe(c: Config, schedule: seq<nat>)
    requires c.Valid() && Run(c, Init(c), schedule).Some?
    ensures var s := Run(c, Init(c), schedule).value;
            && Inv(c, s)
            && s.consumed <= s.stored
            && |s.stored| <= |s.consumed| + c.size
            && forall t, u :: 0 <= t < u <= c.producers ==>
                !(Holding(TheThread(c, s, t)) == 1 && Holding(TheThread(c, s, u)) == 1)
  {
    hide Sum;
    InitInv(c);
    RunKeeps(c, Init(c), schedule);
    var s := Run(c, Init(c), schedule).value;
    SumOrder(s.prod);
    forall t: nat, u: nat | t < u <= c.producers
      ensures !(Holding(TheThread(c, s, t)) == 1 && Holding(TheThread(c, s, u)) == 1)
    {
      var gone := Thread(Enter, s.prod[t].i);
      SumsUpdate(s.prod, t, gone);
      if u < c.producers {
        SumsUpdate(s.prod[t := gone], u, gone);
      }
    }
  }

  /**
    Termination of every run: a schedule can be extended exactly while it is shorter than Total(c), and once
    it is that long all threads have exited and each producer's number has been consumed once per round.
  */
  lemma EveryRunCompletes(c: Config, schedule: seq<nat>)
    requires c.Valid() && Run(c, Init(c), schedule).Some?
    ensures var s := Run(c, Init(c), schedule).value;
            && WellFormed(c, s)
            && |schedule| <= Total(c)
            && ((exists t :: 0 <= t <= c.producers && Enabled(c, s, t)) <==> |schedule| < Total(c))
            && (|schedule| == Total(c) ==>
                  && (forall t :: 0 <= t <= c.producers ==> TheThread(c, s, t).pc == Exited)
                  && s.consumed == s.stored && |s.consumed| == c.items * c.producers
                  && forall t :: 0 <= t < c.producers ==> Count(s.consumed, t) == c.items)
  {
    InitInv(c);
    InitLeft(c);
    RunKeeps(c, Init(c), schedule);
    var s := Run(c, Init(c), schedule).value;
    if |schedule| < Total(c) {
      var t := Progress(c, s);
    } else {
      Completed(c, s);
    }
  }

  lemma Completed(c: Config, s: State)
    requires Inv(c, s) && Left(c, s) == 0
    ensures forall t :: 0 <= t <= c.producers ==> TheThread(c, s, t).pc == Exited
    ensures s.consumed == s.stored && |s.consumed| == c.items * c.producers
    ensures forall t :: 0 <= t < c.producers ==> Count(s.consumed, t) == c.items
  {
    hide Sum, Count, Slot;
    forall t: nat | t < c.producers ensures s.prod[t].pc == Exited {
      SumUpdate(WorkOf(c.items), s.prod, t, s.prod[t]);
    }
    SumExact(Rounds, s.prod, c.items);
    SumExact(Accessed, s.prod, 0);
    assert s.stored[..|s.stored|] == s.stored;
  }
}
