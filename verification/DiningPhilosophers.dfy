/**
  The dining philosophers of ch8b_mut_phi_din.c, for any number of philosophers and rounds: each locks the
  lower-numbered of its two forks first. A state machine whose steps are the atomic actions of
  philosopher_dining; every step happens at some time not before the previous one.
*/
module DiningPhilosophers {
  import opened Outcome
  import opened RingIndex
  import opened Seqs
  import opened Sums

  /** N and ROUND */
  datatype Config = Config(n: nat, rounds: nat)

  /**
    Before thinking (or exiting), before locking the lower fork, before locking the higher fork, before
    noting the start of the meal, before noting its end, before unlocking the higher fork, before unlocking
    the lower fork, exited.
  */
  datatype PC = Think | LockMin | LockMax | Start | Finish | UnlockMax | UnlockMin | Exited

  datatype Philosopher = Philosopher(pc: PC, round: nat)

  /** Who holds each fork, the philosophers, their `eat` arrays, and the time of the last step. */
  datatype State = State(owner: seq<Option<nat>>, phils: seq<Philosopher>, eat: seq<seq<nat>>, now: nat)

  function Init(c: Config): State {
    State(seq(c.n, _ => None), seq(c.n, _ => Philosopher(Think, 0)), seq(c.n, _ => seq(2 * c.rounds, _ => 0)), 0)
  }

  function Right(c: Config, id: nat): (f: nat)
    requires id < c.n
    ensures f == if id == c.n - 1 then 0 else id + 1
  {
    NextIndex(id, c.n);
    (id + 1) % c.n
  }

  function Lower(c: Config, id: nat): (f: nat)
    requires id < c.n
    ensures f < c.n
  {
    if id < Right(c, id) then id else Right(c, id)
  }

  function Higher(c: Config, id: nat): (f: nat)
    requires id < c.n
    ensures f < c.n
  {
    if id < Right(c, id) then Right(c, id) else id
  }

  predicate WellFormed(c: Config, s: State) {
    && |s.owner| == c.n && |s.phils| == c.n && |s.eat| == c.n
    && (forall p :: 0 <= p < c.n ==> |s.eat[p]| == 2 * c.rounds)
    && (forall p :: 0 <= p < c.n ==> CounterOk(c, s.phils[p]))
  }

  predicate CounterOk(c: Config, ph: Philosopher) {
    && ph.round <= c.rounds
    && (ph.pc != Think && ph.pc != Exited ==> ph.round < c.rounds)
    && (ph.pc == Exited ==> ph.round == c.rounds)
  }

  predicate Enabled(c: Config, s: State, id: nat)
    requires WellFormed(c, s) && id < c.n
  {
    match s.phils[id].pc
    case LockMin => s.owner[Lower(c, id)].None?
    case LockMax => s.owner[Higher(c, id)].None?
    case Exited => false
    case _ => true
  }

  /** Who has to wait: for the lower of forks id and id + 1, or 0 after the last, and then for the other one. */
  lemma WaitsExactly(c: Config, s: State, id: nat)
    requires WellFormed(c, s) && id < c.n && s.phils[id].pc != Exited
    ensures var last := id == c.n - 1;
            !Enabled(c, s, id) <==>
              || (s.phils[id].pc == LockMin && s.owner[if last then 0 else id].Some?)
              || (s.phils[id].pc == LockMax && s.owner[if last then id else id + 1].Some?)
  {
  }

  function Note(times: seq<nat>, k: nat, time: nat): seq<nat>
    requires k < |times|
  {
    times[k := time]
  }

  /** One step of philosopher id at the given time. */
  function Next(c: Config, s: State, id: nat, time: nat): State
    requires WellFormed(c, s) && id < c.n && Enabled(c, s, id)
  {
    var ph := s.phils[id];
    var r := ph.round;
    var s := s.(now := time);
    match ph.pc
    case Think => s.(phils := s.phils[id := Philosopher(if r < c.rounds then LockMin else Exited, r)])
    case LockMin => s.(owner := s.owner[Lower(c, id) := Some(id)], phils := s.phils[id := Philosopher(LockMax, r)])
    case LockMax => s.(owner := s.owner[Higher(c, id) := Some(id)], phils := s.phils[id := Philosopher(Start, r)])
    case Start => s.(eat := s.eat[id := Note(s.eat[id], 2 * r, time)], phils := s.phils[id := Philosopher(Finish, r)])
    case Finish =>
      s.(eat := s.eat[id := Note(s.eat[id], 2 * r + 1, time)], phils := s.phils[id := Philosopher(UnlockMax, r)])
    case UnlockMax => s.(owner := s.owner[Higher(c, id) := None], phils := s.phils[id := Philosopher(UnlockMin, r)])
    case UnlockMin => s.(owner := s.owner[Lower(c, id) := None], phils := s.phils[id := Philosopher(Think, r + 1)])
  }

  // ---- The invariant ----

  /** What a philosopher holds at each place of the loop. */
  predicate Holds(c: Config, s: State, id: nat, fork: nat)
    requires id < c.n == |s.phils|
  {
    var pc := s.phils[id].pc;
    || (fork == Lower(c, id) && (pc == LockMax || pc == Start || pc == Finish || pc == UnlockMax || pc == UnlockMin))
    || (fork == Higher(c, id) && (pc == Start || pc == Finish || pc == UnlockMax))
  }

  /** The owner of every fork is the one philosopher who holds it. */
  ghost predicate Ownership(c: Config, s: State) {
    && WellFormed(c, s)
    && forall f, p :: 0 <= f < c.n && 0 <= p < c.n ==> (Holds(c, s, p, f) <==> s.owner[f] == Some(p))
  }

  /** Between locking the second fork and unlocking it. */
  predicate Eating(ph: Philosopher) {
    ph.pc == Start || ph.pc == Finish || ph.pc == UnlockMax
  }

  predicate Neighbours(c: Config, p: nat, q: nat)
    requires p < c.n && q < c.n
  {
    p != q && (q == Right(c, p) || p == Right(c, q))
  }

  /** The meals whose start and end are both noted. */
  function Meals(ph: Philosopher): nat {
    ph.round + if ph.pc == UnlockMax || ph.pc == UnlockMin then 1 else 0
  }

  function Began(s: State, p: nat, r: nat): nat
    requires p < |s.eat| && 2 * r < |s.eat[p]|
  {
    s.eat[p][2 * r]
  }

  function Ended(s: State, p: nat, r: nat): nat
    requires p < |s.eat| && 2 * r + 1 < |s.eat[p]|
  {
    s.eat[p][2 * r + 1]
  }

  /** The noted times lie in the past and in order. */
  ghost predicate Timed(c: Config, s: State)
    requires WellFormed(c, s)
  {
    forall p :: 0 <= p < c.n ==>
      && (forall r :: 0 <= r < Meals(s.phils[p]) ==> Began(s, p, r) <= Ended(s, p, r) <= s.now)
      && (s.phils[p].pc == Finish ==> Began(s, p, s.phils[p].round) <= s.now)
  }

  /** Neighbours' meals do not overlap; nor does a meal under way with a neighbour's finished ones. */
  ghost predicate Apart(c: Config, s: State, p: nat, q: nat)
    requires WellFormed(c, s) && p < c.n && q < c.n
  {
    && (forall r, u :: 0 <= r < Meals(s.phils[p]) && 0 <= u < Meals(s.phils[q]) ==>
          Ended(s, p, r) <= Began(s, q, u) || Ended(s, q, u) <= Began(s, p, r))
    && (s.phils[p].pc == Finish ==>
          forall u :: 0 <= u < Meals(s.phils[q]) ==> Ended(s, q, u) <= Began(s, p, s.phils[p].round))
  }

  ghost predicate Inv(c: Config, s: State) {
    && Ownership(c, s)
    && Timed(c, s)
    && forall p, q :: 0 <= p < c.n && 0 <= q < c.n && Neighbours(c, p, q) ==> Apart(c, s, p, q)
  }

  lemma InitInv(c: Config)
    ensures Inv(c, Init(c))
  {
  }

  /** With two philosophers or more the two forks are different, and neighbours have one in common. */
  lemma ForksDiffer(c: Config, id: nat)
    requires c.n >= 2 && id < c.n
    ensures Lower(c, id) < Higher(c, id)
  {
    NextIndex(id, c.n);
  }

  /** Neighbours never eat at the same time. */
  lemma NeighboursDoNotEatTogether(c: Config, s: State, p: nat, q: nat)
    requires Ownership(c, s) && p < c.n && q < c.n && Neighbours(c, p, q)
    ensures !(Eating(s.phils[p]) && Eating(s.phils[q]))
  {
    var shared := if q == Right(c, p) then q else p;
    if Eating(s.phils[p]) && Eating(s.phils[q]) {
      assert Holds(c, s, p, shared) && Holds(c, s, q, shared);
    }
  }

  lemma NextOwnership(c: Config, s: State, id: nat, time: nat)
    requires c.n >= 2 && Ownership(c, s) && id < c.n && Enabled(c, s, id)
    ensures Ownership(c, Next(c, s, id, time))
  {
    ForksDiffer(c, id);
    var s' := Next(c, s, id, time);
    assert Holds(c, s, id, Lower(c, id)) <==> s.owner[Lower(c, id)] == Some(id);
    assert Holds(c, s, id, Higher(c, id)) <==> s.owner[Higher(c, id)] == Some(id);
    forall f, p | 0 <= f < c.n && 0 <= p < c.n ensures Holds(c, s', p, f) <==> s'.owner[f] == Some(p) {
      assert Holds(c, s, p, f) <==> s.owner[f] == Some(p);
      if p != id {
        assert Holds(c, s', p, f) <==> Holds(c, s, p, f);
      }
    }
  }

  lemma NextTimed(c: Config, s: State, id: nat, time: nat)
    requires WellFormed(c, s) && Timed(c, s) && id < c.n && Enabled(c, s, id) && s.now <= time
    ensures WellFormed(c, Next(c, s, id, time)) && Timed(c, Next(c, s, id, time))
  {
    hide Lower, Higher, Began, Ended, Next;
    NextNow(c, s, id, time);
    var s' := Next(c, s, id, time);
    NextWellFormed(c, s, id, time);
    forall p: nat | p < c.n
      ensures forall r :: 0 <= r < Meals(s'.phils[p]) ==> Began(s', p, r) <= Ended(s', p, r) <= s'.now
      ensures s'.phils[p].pc == Finish ==> Began(s', p, s'.phils[p].round) <= s'.now
    {
      MealsAfter(c, s, id, time, p);
    }
  }

  lemma NextNow(c: Config, s: State, id: nat, time: nat)
    requires WellFormed(c, s) && id < c.n && Enabled(c, s, id)
    ensures Next(c, s, id, time).now == time
  {
  }

  lemma NextWellFormed(c: Config, s: State, id: nat, time: nat)
    requires WellFormed(c, s) && id < c.n && Enabled(c, s, id)
    ensures WellFormed(c, Next(c, s, id, time))
  {
    hide Lower, Higher;
  }

  /** What a step does to the meals of one philosopher. */
  lemma MealsAfter(c: Config, s: State, id: nat, time: nat, p: nat)
    requires WellFormed(c, s) && id < c.n && Enabled(c, s, id) && p < c.n
    requires WellFormed(c, Next(c, s, id, time))
    ensures var s' := Next(c, s, id, time);
            var (ph, ph') := (s.phils[p], s'.phils[p]);
            && (forall r :: 0 <= r < Meals(ph) ==>
                Began(s', p, r) == Began(s, p, r) && Ended(s', p, r) == Ended(s, p, r))
            && (ph.pc == Finish ==> Began(s', p, ph.round) == Began(s, p, ph.round))
            && (p != id ==> ph' == ph)
            && (p == id && ph.pc != Finish ==> Meals(ph') == Meals(ph))
            && (p == id && ph.pc == Finish ==>
                  Meals(ph') == Meals(ph) + 1 && Meals(ph) == ph.round && Ended(s', p, ph.round) == time)
            && (p == id && ph'.pc == Finish ==> ph.pc == Start && Began(s', p, ph'.round) == time)
  {
    hide Lower, Higher;
  }

  lemma NextApart(c: Config, s: State, id: nat, time: nat, p: nat, q: nat)
    requires WellFormed(c, s) && Timed(c, s) && id < c.n && Enabled(c, s, id) && s.now <= time
    requires p < c.n && q < c.n && p != q && Apart(c, s, p, q) && Apart(c, s, q, p)
    requires !(Eating(s.phils[p]) && Eating(s.phils[q]))
    requires WellFormed(c, Next(c, s, id, time))
    ensures Apart(c, Next(c, s, id, time), p, q)
  {
    hide WellFormed, Enabled, Next, Meals, Began, Ended;
    MealsAfter(c, s, id, time, p);
    MealsAfter(c, s, id, time, q);
  }

  /** Every step keeps the invariant. */
  lemma NextInv(c: Config, s: State, id: nat, time: nat)
    requires c.n >= 2 && Inv(c, s) && id < c.n && Enabled(c, s, id) && s.now <= time
    ensures Inv(c, Next(c, s, id, time))
  {
    hide Ownership, Timed, Apart, Next, Neighbours;
    assert WellFormed(c, s) by { OwnershipWellFormed(c, s); }
    NextOwnership(c, s, id, time);
    NextTimed(c, s, id, time);
    forall p, q | 0 <= p < c.n && 0 <= q < c.n && Neighbours(c, p, q) ensures Apart(c, Next(c, s, id, time), p, q) {
      assert Neighbours(c, q, p) && p != q by { NeighboursSymmetric(c, p, q); }
      NeighboursDoNotEatTogether(c, s, p, q);
      NextApart(c, s, id, time, p, q);
    }
  }

  lemma OwnershipWellFormed(c: Config, s: State)
    requires Ownership(c, s)
    ensures WellFormed(c, s)
  {
  }

  lemma NeighboursSymmetric(c: Config, p: nat, q: nat)
    requires p < c.n && q < c.n && Neighbours(c, p, q)
    ensures Neighbours(c, q, p) && p != q
  {
  }

  // ---- Progress ----

  function Phase(pc: PC): nat {
    match pc
    case Think => 0
    case LockMin => 1
    case LockMax => 2
    case Start => 3
    case Finish => 4
    case UnlockMax => 5
    case UnlockMin => 6
    case Exited => 7
  }

  /** The steps a philosopher still has to make. */
  function Work(ph: Philosopher, rounds: nat): nat {
    if ph.pc == Exited || ph.round > rounds then 0
    else if ph.pc == Think then 7 * (rounds - ph.round) + 1
    else if ph.round == rounds then 0
    else 7 * (rounds - ph.round) + 1 - Phase(ph.pc)
  }

  function WorkOf(rounds: nat): Philosopher -> nat {
    ph => Work(ph, rounds)
  }

  function Left(c: Config, s: State): nat {
    Sum(WorkOf(c.rounds), s.phils)
  }

  /** The length of every complete run. */
  function Total(c: Config): nat {
    c.n * (7 * c.rounds + 1)
  }

  lemma InitLeft(c: Config)
    ensures Left(c, Init(c)) == Total(c)
  {
    SumSame(WorkOf(c.rounds), Philosopher(Think, 0), c.n);
  }

  /** Every step uses up exactly one unit of the remaining work. */
  lemma NextLeft(c: Config, s: State, id: nat, time: nat)
    requires WellFormed(c, s) && id < c.n && Enabled(c, s, id)
    ensures WellFormed(c, Next(c, s, id, time))
    ensures Left(c, Next(c, s, id, time)) == Left(c, s) - 1
  {
    hide Sum, Lower, Higher;
    SumUpdate(WorkOf(c.rounds), s.phils, id, Next(c, s, id, time).phils[id]);
  }

  /** Follow the chain of owners upwards: fork numbers rise, so it ends at someone who can move. */
  lemma OwnerMoves(c: Config, s: State, fork: nat) returns (id: nat)
    requires c.n >= 2 && Ownership(c, s) && fork < c.n
    requires s.owner[fork].Some?
    requires forall f :: 0 <= f < c.n && s.owner[f].Some? ==> s.owner[f].value < c.n
    ensures id < c.n && Enabled(c, s, id)
    decreases c.n - fork
  {
    id := s.owner[fork].value;
    assert Holds(c, s, id, fork);
    ForksDiffer(c, id);
    if !Enabled(c, s, id) {
      assert s.phils[id].pc == LockMax && fork == Lower(c, id);
      id := OwnerMoves(c, s, Higher(c, id));
    }
  }

  /** Every owner is a philosopher. */
  ghost predicate OwnersExist(c: Config, s: State) {
    |s.owner| == c.n && forall f :: 0 <= f < c.n && s.owner[f].Some? ==> s.owner[f].value < c.n
  }

  /** No reachable state is deadlocked: while work is left, some philosopher can move. */
  lemma Progress(c: Config, s: State) returns (id: nat)
    requires c.n >= 2 && Ownership(c, s) && OwnersExist(c, s) && Left(c, s) > 0
    ensures id < c.n && Enabled(c, s, id)
  {
    id := SumPositive(WorkOf(c.rounds), s.phils);
    if s.phils[id].pc == LockMin && s.owner[Lower(c, id)].Some? {
      id := OwnerMoves(c, s, Lower(c, id));
    } else if s.phils[id].pc == LockMax && s.owner[Higher(c, id)].Some? {
      id := OwnerMoves(c, s, Higher(c, id));
    }
  }

  // ---- Whole runs ----

  /** Who moves, and when. */
  type Schedule = seq<(nat, nat)>

  /** The state after a schedule, if everybody it names can move at that time. */
  function Run(c: Config, s: State, schedule: Schedule): Option<State>
    decreases |schedule|
  {
    if schedule == [] then Some(s)
    else
      var (id, time) := schedule[0];
      if WellFormed(c, s) && id < c.n && Enabled(c, s, id) && s.now <= time
      then Run(c, Next(c, s, id, time), schedule[1..])
      else None
  }

  /** Runs go on with exactly the steps of the philosophers that can move, at any time not before now. */
  lemma {:induction false} RunExtends(c: Config, s: State, schedule: Schedule, id: nat, time: nat)
    requires Run(c, s, schedule).Some?
    ensures var s' := Run(c, s, schedule).value;
            Run(c, s, schedule + [(id, time)]) ==
              if WellFormed(c, s') && id < c.n && Enabled(c, s', id) && s'.now <= time
              then Some(Next(c, s', id, time)) else None
    decreases |schedule|
  {
    hide WellFormed, Enabled, Next;
    if schedule == [] {
      assert [(id, time)][1..] == [] && schedule + [(id, time)] == [(id, time)];
    } else {
      ConcatTail(schedule, [(id, time)]);
      RunExtends(c, Next(c, s, schedule[0].0, schedule[0].1), schedule[1..], id, time);
    }
  }

  lemma {:induction false} RunLeft(c: Config, s: State, schedule: Schedule)
    requires WellFormed(c, s) && OwnersExist(c, s) && Run(c, s, schedule).Some?
    ensures var s' := Run(c, s, schedule).value;
            WellFormed(c, s') && OwnersExist(c, s') && Left(c, s') == Left(c, s) - |schedule|
    decreases |schedule|
  {
    hide Left, WellFormed, Enabled;
    if schedule != [] {
      var (id, time) := schedule[0];
      NextLeft(c, s, id, time);
      RunLeft(c, Next(c, s, id, time), schedule[1..]);
    }
  }

  lemma {:induction false} RunKeeps(c: Config, s: State, schedule: Schedule)
    requires c.n >= 2 && Inv(c, s) && Run(c, s, schedule).Some?
    ensures Inv(c, Run(c, s, schedule).value)
    decreases |schedule|
  {
    hide Inv, Next, Enabled;
    if schedule != [] {
      var (id, time) := schedule[0];
      NextInv(c, s, id, time);
      RunKeeps(c, Next(c, s, id, time), schedule[1..]);
    }
  }

  /**
    Safety of every run of two or more: neighbours never eat together, and what they have noted for their rounds r
    and u, start before end, never overlaps.
  */
  lemma EveryRunIsSafe(c: Config, schedule: Schedule, p: nat, q: nat, r: nat, u: nat)
    requires c.n >= 2 && Run(c, Init(c), schedule).Some?
    requires p < c.n && q == if p == c.n - 1 then 0 else p + 1
    ensures var s := Run(c, Init(c), schedule).value;
            && WellFormed(c, s)
            && !(Eating(s.phils[p]) && Eating(s.phils[q]))
            && (r < s.phils[p].round ==> s.eat[p][2 * r] <= s.eat[p][2 * r + 1] <= s.now)
            && (r < s.phils[p].round && u < s.phils[q].round ==>
                  s.eat[p][2 * r + 1] <= s.eat[q][2 * u] || s.eat[q][2 * u + 1] <= s.eat[p][2 * r])
  {
    hide Run, Eating, Ownership;
    InitInv(c);
    RunKeeps(c, Init(c), schedule);
    var s := Run(c, Init(c), schedule).value;
    assert WellFormed(c, s) by { OwnershipWellFormed(c, s); }
    assert Neighbours(c, p, q) && Neighbours(c, q, p);
    NeighboursDoNotEatTogether(c, s, p, q);
    MealTimes(c, s, p, q, r, u);
  }

  lemma MealTimes(c: Config, s: State, p: nat, q: nat, r: nat, u: nat)
    requires WellFormed(c, s) && Timed(c, s) && p < c.n && q < c.n && Apart(c, s, p, q)
    ensures r < s.phils[p].round ==> s.eat[p][2 * r] <= s.eat[p][2 * r + 1] <= s.now
    ensures r < s.phils[p].round && u < s.phils[q].round ==>
      s.eat[p][2 * r + 1] <= s.eat[q][2 * u] || s.eat[q][2 * u + 1] <= s.eat[p][2 * r]
  {
    if r < s.phils[p].round {
      assert Began(s, p, r) <= Ended(s, p, r) <= s.now;
      if u < s.phils[q].round {
        assert Ended(s, p, r) <= Began(s, q, u) || Ended(s, q, u) <= Began(s, p, r);
      }
    }
  }

  /** Some philosopher can move. */
  predicate Live(c: Config, s: State)
    requires WellFormed(c, s)
  {
    exists id :: 0 <= id < c.n && Enabled(c, s, id)
  }

  /**
    Termination of every run of two or more: a schedule can be extended exactly while it is shorter than
    Total(c), and once it is that long everybody has finished all rounds.
  */
  lemma EveryRunCompletes(c: Config, schedule: Schedule)
    requires c.n >= 2 && Run(c, Init(c), schedule).Some?
    ensures var s := Run(c, Init(c), schedule).value;
            && WellFormed(c, s)
            && |schedule| <= Total(c)
            && (Live(c, s) <==> |schedule| < Total(c))
            && (|schedule| == Total(c) ==> forall p :: 0 <= p < c.n ==> s.phils[p] == Philosopher(Exited, c.rounds))
  {
    hide Run, Left, Total, WellFormed, Enabled, Ownership, Timed, Apart;
    InitInv(c);
    InitLeft(c);
    RunKeeps(c, Init(c), schedule);
    InitFormed(c);
    RunLeft(c, Init(c), schedule);
    var s := Run(c, Init(c), schedule).value;
    if |schedule| < Total(c) {
      var id := Progress(c, s);
    } else {
      Completed(c, s);
    }
  }

  lemma InitFormed(c: Config)
    ensures WellFormed(c, Init(c)) && OwnersExist(c, Init(c))
  {
  }

  lemma Completed(c: Config, s: State)
    requires WellFormed(c, s) && Left(c, s) == 0
    ensures !Live(c, s)
    ensures forall p :: 0 <= p < c.n ==> s.phils[p] == Philosopher(Exited, c.rounds)
  {
    hide Sum;
    forall p: nat | p < c.n ensures s.phils[p] == Philosopher(Exited, c.rounds) {
      SumUpdate(WorkOf(c.rounds), s.phils, p, s.phils[p]);
    }
  }

  /** A run got stuck: work is left and nobody can move. */
  ghost predicate GetsStuck(c: Config, schedule: Schedule) {
    && Run(c, Init(c), schedule).Some?
    && var s := Run(c, Init(c), schedule).value;
       WellFormed(c, s) && Left(c, s) > 0 && !Live(c, s)
  }

  /** The lock order prevents deadlock exactly when nobody has to lock one and the same fork twice. */
  lemma DeadlockFreeExactly(c: Config)
    ensures (forall schedule :: !GetsStuck(c, schedule)) <==> c.n != 1 || c.rounds == 0
  {
    if c.n == 1 && c.rounds > 0 {
      SelfDeadlock(c);
    } else {
      forall schedule | Run(c, Init(c), schedule).Some? ensures !GetsStuck(c, schedule) {
        var s := Run(c, Init(c), schedule).value;
        if c.n >= 2 {
          InitInv(c);
          RunKeeps(c, Init(c), schedule);
          RunLeft(c, Init(c), schedule);
          if Left(c, s) > 0 {
            var id := Progress(c, s);
          }
        } else if WellFormed(c, s) && Left(c, s) > 0 {
          var id := SumPositive(WorkOf(c.rounds), s.phils);
          assert Enabled(c, s, id);
        }
      }
    }
  }

  /** A lone philosopher's two forks are the same one; the second lock never succeeds. */
  lemma SelfDeadlock(c: Config)
    requires c.n == 1 && c.rounds > 0
    ensures GetsStuck(c, [(0, 0), (0, 0)])
  {
    var s0 := Init(c);
    assert Right(c, 0) == 0 && Lower(c, 0) == 0 && Higher(c, 0) == 0;
    var s1 := Next(c, s0, 0, 0);
    assert s1.phils == [Philosopher(LockMin, 0)];
    var s2 := Next(c, s1, 0, 0);
    assert s2.phils == [Philosopher(LockMax, 0)] && s2.owner == [Some(0)];
    var two: Schedule := [(0, 0), (0, 0)];
    assert two[1..] == [(0, 0)] && two[1..][1..] == [];
    assert Run(c, s2, []) == Some(s2);
    assert Run(c, s1, [(0, 0)]) == Some(s2);
    assert Run(c, s0, two) == Some(s2);
    assert !Enabled(c, s2, 0);
    assert s2.phils[1..] == [];
    assert Sum(WorkOf(c.rounds), s2.phils) >= Work(s2.phils[0], c.rounds);
  }
}
