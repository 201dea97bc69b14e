/**
  The shared counter of ch8b_mut_race.c, for any number of threads and rounds: read, work, write back,
  all under one mutex. A state machine whose steps are the atomic actions of fun.
*/
module RaceCounter {
  import opened Division
  import opened Outcome
  import opened Seqs
  import opened Sums

  /** thread_count and per_thread */
  datatype Config = Config(threads: nat, rounds: nat)

  /** Before the lock (or the exit), before reading a, before the squarings, before writing a, before the unlock. */
  datatype PC = Lock | Load | Work | Store | Unlock | Exited

  /** The loop counter, oldA and t of one thread. */
  datatype Thread = Thread(pc: PC, i: nat, oldA: int, t: nat)

  datatype State = State(mutex: nat, a: int, threads: seq<Thread>)

  /** n rounds of t = t * t % 10007 */
  function Squared(t: nat, n: nat): nat {
    if n == 0 then t else Squared(t, n - 1) * Squared(t, n - 1) % 10007
  }

  lemma {:induction false} SquaredMore(t: nat, m: nat, n: nat)
    ensures Squared(Squared(t, m), n) == Squared(t, m + n)
  {
    if n > 0 {
      SquaredMore(t, m, n - 1);
    }
  }

  /** n rounds raise t to the power 2^n, modulo 10007. */
  lemma {:induction false} SquaredIsPower(t: nat, n: nat)
    ensures Squared(t, n) % 10007 == Power(t, Power(2, n)) % 10007
    ensures n >= 1 ==> Squared(t, n) == Power(t, Power(2, n)) % 10007
  {
    hide Power;
    PowerStep(t, n);
    if n > 0 {
      var (x, p, h) := (Squared(t, n - 1), Power(t, Power(2, n - 1)), Power(2, n - 1));
      SquaredIsPower(t, n - 1);
      SquareModulo(x, p);
      PowersMultiply(t, h, h);
    }
  }

  lemma PowerStep(t: nat, n: nat)
    ensures Power(t, 1) == t && Power(2, 0) == 1
    ensures n > 0 ==> Power(2, n) == Power(2, n - 1) + Power(2, n - 1)
  {
    assert Power(t, 1) == t * Power(t, 0);
  }

  lemma SquareModulo(x: nat, y: nat)
    requires x % 10007 == y % 10007
    ensures x * x % 10007 == y * y % 10007
  {
    var (q, r, d) := (x / 10007, y / 10007, x % 10007);
    assert x * x == 10007 * (10007 * q * q + 2 * q * d) + d * d;
    assert y * y == 10007 * (10007 * r * r + 2 * r * d) + d * d;
    SameRemainder(x * x, 10007 * q * q + 2 * q * d, d * d);
    SameRemainder(y * y, 10007 * r * r + 2 * r * d, d * d);
  }

  lemma SameRemainder(n: nat, q: nat, r: nat)
    requires n == 10007 * q + r
    ensures n % 10007 == r % 10007
  {
  }

  /** After the first squaring the product of the next one fits a 32-bit int. */
  lemma SquareFits(t: nat, n: nat)
    requires n >= 1
    ensures Squared(t, n) < 10007 && Squared(t, n) * Squared(t, n) < 0x8000_0000
  {
    var q := Squared(t, n);
    assert q <= 10006;
    assert q * q <= 10006 * 10006;
  }

  function Init(c: Config): State {
    State(1, 0, seq(c.threads, id requires 0 <= id => Thread(Lock, 0, 0, id + 1)))
  }

  predicate WellFormed(c: Config, s: State) {
    && |s.threads| == c.threads
    && forall id :: 0 <= id < c.threads ==> CounterOk(c, s.threads[id])
  }

  predicate CounterOk(c: Config, th: Thread) {
    && th.i <= c.rounds
    && (th.pc == Exited ==> th.i == c.rounds)
    && (th.pc != Lock && th.pc != Exited ==> th.i < c.rounds)
  }

  predicate Enabled(c: Config, s: State, id: nat)
    requires WellFormed(c, s) && id < c.threads
  {
    var th := s.threads[id];
    th.pc != Exited && (th.pc == Lock && th.i < c.rounds ==> s.mutex > 0)
  }

  /** Who has to wait: before a round, with rounds left, while the mutex is taken. */
  lemma WaitsExactly(c: Config, s: State, id: nat)
    requires WellFormed(c, s) && id < c.threads && s.threads[id].pc != Exited
    ensures !Enabled(c, s, id) <==> s.threads[id].pc == Lock && s.threads[id].i < c.rounds && s.mutex == 0
  {
  }

  function Next(c: Config, s: State, id: nat): State
    requires WellFormed(c, s) && id < c.threads && Enabled(c, s, id)
  {
    var th := s.threads[id];
    match th.pc
    case Lock =>
      if th.i < c.rounds then s.(mutex := s.mutex - 1, threads := s.threads[id := th.(pc := Load)])
      else s.(threads := s.threads[id := th.(pc := Exited)])
    case Load => s.(threads := s.threads[id := th.(pc := Work, oldA := s.a)])
    case Work => s.(threads := s.threads[id := th.(pc := Store, t := Squared(th.t, 500))])
    case Store => s.(a := th.oldA + 1, threads := s.threads[id := th.(pc := Unlock)])
    case Unlock => s.(mutex := s.mutex + 1, threads := s.threads[id := th.(pc := Lock, i := th.i + 1)])
  }

  /** Between lock and unlock. */
  function Holding(th: Thread): nat {
    if th.pc == Lock || th.pc == Exited then 0 else 1
  }

  /** The increments a thread has written back. */
  function Written(th: Thread): nat {
    th.i + if th.pc == Unlock then 1 else 0
  }

  /** The squarings a thread has made. */
  function Squarings(th: Thread): nat {
    500 * (th.i + if th.pc == Store || th.pc == Unlock then 1 else 0)
  }

  ghost predicate Inv(c: Config, s: State) {
    && WellFormed(c, s)
    && s.mutex + Sum(Holding, s.threads) == 1
    && s.a == Sum(Written, s.threads)
    && forall id :: 0 <= id < c.threads ==>
         && (s.threads[id].pc == Work || s.threads[id].pc == Store ==> s.threads[id].oldA == s.a)
         && s.threads[id].t == Squared(id + 1, Squarings(s.threads[id]))
  }

  /** The steps a thread still has to make. */
  function Remaining(c: Config): Thread -> nat {
    th => if !CounterOk(c, th) then 0
          else match th.pc
            case Lock => 5 * (c.rounds - th.i) + 1
            case Load => 5 * (c.rounds - th.i)
            case Work => 5 * (c.rounds - th.i) - 1
            case Store => 5 * (c.rounds - th.i) - 2
            case Unlock => 5 * (c.rounds - th.i) - 3
            case Exited => 0
  }

  function Left(c: Config, s: State): nat {
    Sum(Remaining(c), s.threads)
  }

  function Total(c: Config): nat {
    c.threads * (5 * c.rounds + 1)
  }

  lemma InitInv(c: Config)
    ensures Inv(c, Init(c)) && Left(c, Init(c)) == Total(c)
  {
    SumExact(Holding, Init(c).threads, 0);
    SumExact(Written, Init(c).threads, 0);
    SumExact(Remaining(c), Init(c).threads, 5 * c.rounds + 1);
  }

  /** Two different threads never hold the mutex together. */
  lemma MutualExclusion(c: Config, s: State, p: nat, q: nat)
    requires Inv(c, s) && p < c.threads && q < c.threads && p != q
    ensures !(Holding(s.threads[p]) == 1 && Holding(s.threads[q]) == 1)
  {
    var gone := Thread(Exited, 0, 0, 0);
    SumUpdate(Holding, s.threads, p, gone);
    SumUpdate(Holding, s.threads[p := gone], q, gone);
  }

  /** Every step keeps the invariant, so no read-modify-write is lost, and uses up one unit of work. */
  lemma NextInv(c: Config, s: State, id: nat)
    requires Inv(c, s) && id < c.threads && Enabled(c, s, id)
    ensures Inv(c, Next(c, s, id)) && Left(c, Next(c, s, id)) == Left(c, s) - 1
  {
    hide Sum, Squared;
    var s' := Next(c, s, id);
    var th, th' := s.threads[id], s'.threads[id];
    SumUpdate(Holding, s.threads, id, th');
    SumUpdate(Written, s.threads, id, th');
    SumUpdate(Remaining(c), s.threads, id, th');
    SquaredMore(id + 1, Squarings(th), 500);
    forall q | 0 <= q < c.threads
      ensures s'.threads[q].pc == Work || s'.threads[q].pc == Store ==> s'.threads[q].oldA == s'.a
      ensures s'.threads[q].t == Squared(q + 1, Squarings(s'.threads[q]))
    {
      if q != id {
        MutualExclusion(c, s, id, q);
      }
    }
  }

  /** While work is left, some thread can move. */
  lemma Progress(c: Config, s: State) returns (id: nat)
    requires Inv(c, s) && Left(c, s) > 0
    ensures id < c.threads && Enabled(c, s, id)
  {
    if s.mutex > 0 {
      id := SumPositive(Remaining(c), s.threads);
    } else {
      id := SumPositive(Holding, s.threads);
    }
  }

  /** The state after a schedule, if every thread it names can move when its turn comes. */
  function Run(c: Config, s: State, schedule: seq<nat>): Option<State>
    decreases |schedule|
  {
    if schedule == [] then Some(s)
    else if WellFormed(c, s) && schedule[0] < c.threads && Enabled(c, s, schedule[0])
    then Run(c, Next(c, s, schedule[0]), schedule[1..])
    else None
  }

  /** Runs go on with exactly the steps of the threads that can move. */
  lemma {:induction false} RunExtends(c: Config, s: State, schedule: seq<nat>, id: nat)
    requires Run(c, s, schedule).Some?
    ensures var s' := Run(c, s, schedule).value;
            Run(c, s, schedule + [id]) ==
              if WellFormed(c, s') && id < c.threads && Enabled(c, s', id) then Some(Next(c, s', id)) else None
    decreases |schedule|
  {
    hide WellFormed, Enabled, Next;
    if schedule == [] {
      assert [id][1..] == [] && schedule + [id] == [id];
    } else {
      ConcatTail(schedule, [id]);
      RunExtends(c, Next(c, s, schedule[0]), schedule[1..], id);
    }
  }

  lemma {:induction false} RunKeeps(c: Config, s: State, schedule: seq<nat>)
    requires Inv(c, s) && Run(c, s, schedule).Some?
    ensures var s' := Run(c, s, schedule).value;
            Inv(c, s') && Left(c, s') == Left(c, s) - |schedule|
    decreases |schedule|
  {
    hide Inv, Left, Next, Enabled;
    if schedule != [] {
      NextInv(c, s, schedule[0]);
      RunKeeps(c, Next(c, s, schedule[0]), schedule[1..]);
    }
  }

  /**
    Every schedule can be extended exactly while it is shorter than Total(c). Once it is that long every
    thread has exited with a code that does not depend on the schedule, and no increment has been lost.
  */
  lemma NoUpdateIsLost(c: Config, schedule: seq<nat>)
    requires Run(c, Init(c), schedule).Some?
    ensures var s := Run(c, Init(c), schedule).value;
            && WellFormed(c, s)
            && |schedule| <= Total(c)
            && ((exists id :: 0 <= id < c.threads && Enabled(c, s, id)) <==> |schedule| < Total(c))
            && (|schedule| == Total(c) ==>
                  && s.a == c.threads * c.rounds
                  && forall id :: 0 <= id < c.threads ==>
                       && s.threads[id].pc == Exited && s.threads[id].t == Squared(id + 1, 500 * c.rounds)
                       && (c.rounds > 0 ==> s.threads[id].t == Power(id + 1, Power(2, 500 * c.rounds)) % 10007))
  {
    hide Sum, Squared, Power;
    InitInv(c);
    RunKeeps(c, Init(c), schedule);
    var s := Run(c, Init(c), schedule).value;
    if |schedule| < Total(c) {
      var id := Progress(c, s);
    } else {
      forall id: nat | id < c.threads
        ensures s.threads[id].pc == Exited
        ensures c.rounds > 0 ==> s.threads[id].t == Power(id + 1, Power(2, 500 * c.rounds)) % 10007
      {
        SquaredIsPower(id + 1, 500 * c.rounds);
        SumUpdate(Remaining(c), s.threads, id, s.threads[id]);
      }
      SumExact(Written, s.threads, c.rounds);
    }
  }
}
