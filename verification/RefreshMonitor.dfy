/** The rate source's refresh: a flag and a condition variable under one mutex, as a state machine
    over the steps of any number of callers. */
module RefreshMonitor {
  import opened Wrappers

  /** Where a caller of Refresh is. */
  datatype Pc =
    | Idle          // not in Refresh
    | WantLock      // about to lock the mutex for the first time
    | Testing       // holds the mutex, about to test the flag
    | Parked        // waits on the condition variable
    | Woken         // signalled, about to lock the mutex again
    | Rechecking    // holds the mutex again, about to re-test the flag
    | Claimed       // has set the flag, still holds the mutex
    | Working       // fetches tickers without the mutex
    | WantPublish   // about to lock the mutex to store the tickers
    | Publishing    // holds the mutex, stores the tickers
    | WantClear     // about to lock the mutex to clear the flag
    | Clearing      // holds the mutex, about to clear the flag
    | Signalling    // has cleared the flag, about to signal
    | Releasing     // has signalled, about to unlock

  datatype Lock = Free | By(caller: nat) | Outside

  datatype State = State(pcs: seq<Pc>, lock: Lock, refreshing: bool)

  datatype Action =
    | Enter(t: nat)                       // calls Refresh
    | Acquire(t: nat)                     // locks the mutex
    | Proceed(t: nat)                     // takes its next step
    | Signal(t: nat, woken: Option<nat>)  // wakes one parked caller, if there is one
    | OutsideLock                         // another user of the mutex
    | OutsideUnlock

  predicate Holds(pc: Pc) {
    pc in {Testing, Rechecking, Claimed, Publishing, Clearing, Signalling, Releasing}
  }

  /** Between setting and clearing the flag. */
  predicate Inside(pc: Pc) {
    pc in {Claimed, Working, WantPublish, Publishing, WantClear, Clearing}
  }

  function AfterLock(pc: Pc): Option<Pc> {
    match pc
    case WantLock => Some(Testing)
    case Woken => Some(Rechecking)
    case WantPublish => Some(Publishing)
    case WantClear => Some(Clearing)
    case _ => None
  }

  function Step(s: State, a: Action): Option<State> {
    match a
    case Enter(t) =>
      if t < |s.pcs| && s.pcs[t] == Idle then Some(s.(pcs := s.pcs[t := WantLock])) else None
    case Acquire(t) =>
      if t < |s.pcs| && s.lock == Free && AfterLock(s.pcs[t]).Some?
      then Some(s.(pcs := s.pcs[t := AfterLock(s.pcs[t]).value], lock := By(t))) else None
    case Proceed(t) => if t < |s.pcs| then Advance(s, t) else None
    case Signal(t, woken) =>
      if t >= |s.pcs| || s.pcs[t] != Signalling then None
      else (
        match woken
        case None => if Parked in s.pcs then None else Some(s.(pcs := s.pcs[t := Releasing]))
        case Some(u) =>
          if u < |s.pcs| && s.pcs[u] == Parked then Some(s.(pcs := s.pcs[t := Releasing][u := Woken])) else None)
    case OutsideLock => if s.lock == Free then Some(s.(lock := Outside)) else None
    case OutsideUnlock => if s.lock == Outside then Some(s.(lock := Free)) else None
  }

  function Advance(s: State, t: nat): Option<State>
    requires t < |s.pcs|
  {
    match s.pcs[t]
    case Testing => Some(Test(s, t))
    case Rechecking => Some(Test(s, t))
    case Claimed => Some(s.(pcs := s.pcs[t := Working], lock := Free))
    case Working => Some(s.(pcs := s.pcs[t := WantPublish]))
    case Publishing => Some(s.(pcs := s.pcs[t := WantClear], lock := Free))
    case Clearing => Some(s.(pcs := s.pcs[t := Signalling], refreshing := false))
    case Releasing => Some(s.(pcs := s.pcs[t := Idle], lock := Free))
    case _ => None
  }

  /** The test of the wait loop: wait while the flag is set, otherwise set it. */
  function Test(s: State, t: nat): State
    requires t < |s.pcs|
  {
    if s.refreshing then s.(pcs := s.pcs[t := Parked], lock := Free)
    else s.(pcs := s.pcs[t := Claimed], refreshing := true)
  }

  /** The state after a run, if every step of it is enabled. */
  function Exec(s: State, run: seq<Action>): Option<State>
    decreases |run|
  {
    if run == [] then Some(s)
    else match Step(s, run[0]) case None => None case Some(s') => Exec(s', run[1..])
  }

  ghost predicate Initial(s: State) {
    s.lock == Free && !s.refreshing && forall t | 0 <= t < |s.pcs| :: s.pcs[t] == Idle
  }

  // ---------------------------------------------------------------------------------------
  // Safety

  ghost predicate LockAgrees(s: State) {
    && (forall t | 0 <= t < |s.pcs| :: Holds(s.pcs[t]) <==> s.lock == By(t))
    && (s.lock.By? ==> s.lock.caller < |s.pcs|)
  }

  /** The flag is set exactly while a caller is between setting and clearing it, and only one is. */
  ghost predicate Exclusive(s: State) {
    && (forall t, u | 0 <= t < |s.pcs| && 0 <= u < |s.pcs| && Inside(s.pcs[t]) && Inside(s.pcs[u]) :: t == u)
    && (s.refreshing <==> exists t :: 0 <= t < |s.pcs| && Inside(s.pcs[t]))
  }

  /** With the flag clear and callers parked, a signal is on its way: some caller is about to signal,
      or has been signalled and has not re-tested the flag yet. */
  ghost predicate NoLostWakeup(s: State) {
    !s.refreshing && Parked in s.pcs ==> exists t :: 0 <= t < |s.pcs| && s.pcs[t] in {Signalling, Woken, Rechecking}
  }

  ghost predicate Inv(s: State) {
    LockAgrees(s) && Exclusive(s) && NoLostWakeup(s)
  }

  lemma StepKeepsLock(s: State, a: Action)
    requires Inv(s) && Step(s, a).Some?
    ensures LockAgrees(Step(s, a).value)
  {
  }

  /** Only the test and the clearing change who is inside. */
  lemma StepKeepsExclusive(s: State, a: Action)
    requires Inv(s) && Step(s, a).Some?
    ensures Exclusive(Step(s, a).value)
  {
    var s' := Step(s, a).value;
    if a.Proceed? && s.pcs[a.t] in {Testing, Rechecking} && !s.refreshing {
      assert Inside(s'.pcs[a.t]);
    } else if a.Proceed? && s.pcs[a.t] == Clearing {
      assert Inside(s.pcs[a.t]);
    } else {
      assert forall t | 0 <= t < |s.pcs| :: Inside(s'.pcs[t]) <==> Inside(s.pcs[t]);
      SameInside(s, s');
    }
  }

  lemma SameInside(s: State, s': State)
    requires Exclusive(s) && |s'.pcs| == |s.pcs| && s'.refreshing == s.refreshing
    requires forall t | 0 <= t < |s.pcs| :: Inside(s'.pcs[t]) <==> Inside(s.pcs[t])
    ensures Exclusive(s')
  {
    if s.refreshing {
      var t :| 0 <= t < |s.pcs| && Inside(s.pcs[t]);
      assert Inside(s'.pcs[t]);
    }
  }

  lemma StepKeepsWakeup(s: State, a: Action)
    requires Inv(s) && Step(s, a).Some?
    ensures NoLostWakeup(Step(s, a).value)
  {
    var s' := Step(s, a).value;
    if !s'.refreshing && Parked in s'.pcs {
      if a.Proceed? && s.pcs[a.t] == Clearing {
        assert s'.pcs[a.t] == Signalling;
      } else if a.Signal? && a.woken.Some? {
        assert s'.pcs[a.woken.value] == Woken;
      } else {
        var p :| 0 <= p < |s'.pcs| && s'.pcs[p] == Parked;
        assert s.pcs[p] == Parked;
        var w :| 0 <= w < |s.pcs| && s.pcs[w] in {Signalling, Woken, Rechecking};
        assert s'.pcs[w] in {Signalling, Woken, Rechecking};
      }
    }
  }

  /** Safety in every interleaving: the flag is owned by at most one caller, and no wake-up is lost. */
  lemma {:induction false} RunIsSafe(s: State, run: seq<Action>)
    requires Initial(s) || Inv(s)
    requires Exec(s, run).Some?
    ensures Inv(Exec(s, run).value)
    decreases |run|
  {
    if run != [] {
      StepKeepsLock(s, run[0]);
      StepKeepsExclusive(s, run[0]);
      StepKeepsWakeup(s, run[0]);
      RunIsSafe(Step(s, run[0]).value, run[1..]);
    }
  }

  // ---------------------------------------------------------------------------------------
  // Progress

  /** How many more steps a caller can cost, each signal paying for the caller it wakes. */
  function Cost(pc: Pc): nat {
    match pc
    case Idle => 0 case Releasing => 1 case Signalling => 4 case Clearing => 5 case WantClear => 6
    case Publishing => 7 case WantPublish => 8 case Working => 9 case Claimed => 10
    case Parked => 10 case Rechecking => 11 case Woken => 12 case Testing => 11 case WantLock => 12
  }

  function Rank(pcs: seq<Pc>): nat {
    if pcs == [] then 0 else Cost(pcs[0]) + Rank(pcs[1..])
  }

  lemma {:induction false} RankUpdate(pcs: seq<Pc>, t: nat, pc: Pc)
    requires t < |pcs|
    ensures Rank(pcs[t := pc]) == Rank(pcs) - Cost(pcs[t]) + Cost(pc)
  {
    if t == 0 {
      assert pcs[t := pc][1..] == pcs[1..];
    } else {
      RankUpdate(pcs[1..], t - 1, pc);
      assert pcs[t := pc][1..] == pcs[1..][t - 1 := pc];
    }
  }

  predicate OfCaller(a: Action) {
    a.Acquire? || a.Proceed? || a.Signal?
  }

  /** Every step of a caller inside Refresh uses up rank. */
  lemma StepLowersRank(s: State, a: Action)
    requires OfCaller(a) && Step(s, a).Some?
    ensures Rank(Step(s, a).value.pcs) < Rank(s.pcs)
  {
    if a.Signal? {
      RankUpdate(s.pcs, a.t, Releasing);
      if a.woken.Some? {
        RankUpdate(s.pcs[a.t := Releasing], a.woken.value, Woken);
      }
    } else {
      OneChange(s, a);
      RankUpdate(s.pcs, a.t, Step(s, a).value.pcs[a.t]);
    }
  }

  lemma OneChange(s: State, a: Action)
    requires (a.Acquire? || a.Proceed?) && Step(s, a).Some?
    ensures a.t < |s.pcs| == |Step(s, a).value.pcs|
    ensures var pc := Step(s, a).value.pcs[a.t];
      Step(s, a).value.pcs == s.pcs[a.t := pc] && Cost(pc) < Cost(s.pcs[a.t])
  {
  }

  /** No deadlock: unless another user of the mutex holds it, some caller in Refresh can step. */
  lemma CanStep(s: State) returns (a: Action)
    requires Inv(s) && s.lock != Outside
    requires exists t :: 0 <= t < |s.pcs| && s.pcs[t] != Idle
    ensures OfCaller(a) && Step(s, a).Some?
  {
    if s.lock.By? {
      var t := s.lock.caller;
      assert Holds(s.pcs[t]);
      if s.pcs[t] == Signalling {
        if Parked in s.pcs {
          var u :| 0 <= u < |s.pcs| && s.pcs[u] == Parked;
          a := Signal(t, Some(u));
        } else {
          a := Signal(t, None);
        }
      } else {
        a := Proceed(t);
      }
    } else {
      var t :| 0 <= t < |s.pcs| && s.pcs[t] != Idle;
      assert !Holds(s.pcs[t]);
      if s.pcs[t] == Parked {
        if s.refreshing {
          var w :| 0 <= w < |s.pcs| && Inside(s.pcs[w]);
          assert !Holds(s.pcs[w]);
          a := if s.pcs[w] == Working then Proceed(w) else Acquire(w);
        } else {
          assert Parked in s.pcs;
          var w :| 0 <= w < |s.pcs| && s.pcs[w] in {Signalling, Woken, Rechecking};
          assert !Holds(s.pcs[w]);
          a := Acquire(w);
        }
      } else {
        a := if s.pcs[t] == Working then Proceed(t) else Acquire(t);
      }
    }
  }

  /** How many of a run's steps callers take. */
  function CallerSteps(run: seq<Action>): nat {
    if run == [] then 0 else (if OfCaller(run[0]) then 1 else 0) + CallerSteps(run[1..])
  }

  /** So while no new caller enters, the callers take at most Rank steps, whatever other users of the
      mutex do in between. */
  lemma {:induction false} RunsAreFinite(s: State, run: seq<Action>)
    requires Exec(s, run).Some? && forall a | a in run :: !a.Enter?
    ensures CallerSteps(run) <= Rank(s.pcs)
    decreases |run|
  {
    if run != [] {
      if OfCaller(run[0]) {
        StepLowersRank(s, run[0]);
      }
      RunsAreFinite(Step(s, run[0]).value, run[1..]);
    }
  }

  /** And a run that cannot be extended has brought every caller back. */
  lemma {:induction false} EveryoneReturns(s: State, run: seq<Action>)
    requires Inv(s) && Exec(s, run).Some?
    requires Exec(s, run).value.lock != Outside
    requires forall a | OfCaller(a) :: Step(Exec(s, run).value, a).None?
    ensures forall t | 0 <= t < |s.pcs| :: t < |Exec(s, run).value.pcs| && Exec(s, run).value.pcs[t] == Idle
  {
    var s' := Exec(s, run).value;
    RunIsSafe(s, run);
    SameCallers(s, run);
    if exists t :: 0 <= t < |s'.pcs| && s'.pcs[t] != Idle {
      var a := CanStep(s');
      assert false;
    }
  }

  lemma {:induction false} SameCallers(s: State, run: seq<Action>)
    requires Exec(s, run).Some?
    ensures |Exec(s, run).value.pcs| == |s.pcs|
    decreases |run|
  {
    if run != [] {
      SameCallers(Step(s, run[0]).value, run[1..]);
    }
  }

  // ---------------------------------------------------------------------------------------
  // Overtaking

  /** In this run the signalled caller w parks again before it has claimed the flag. */
  ghost predicate ParksAgain(s: State, run: seq<Action>, w: nat)
    requires Exec(s, run).Some?
    decreases |run|
  {
    && w < |s.pcs| && s.pcs[w] != Claimed
    && (s.pcs[w] == Parked || (run != [] && ParksAgain(Step(s, run[0]).value, run[1..], w)))
  }

  lemma StepFirst(s: State, a: Action, s': State, run: seq<Action>, end: State, w: nat) returns (all: seq<Action>)
    requires Step(s, a) == Some(s') && Exec(s', run) == Some(end) && ParksAgain(s', run, w)
    requires w < |s.pcs| && s.pcs[w] != Claimed
    ensures all == [a] + run && Exec(s, all) == Some(end) && ParksAgain(s, all, w)
  {
    all := [a] + run;
    assert all[1..] == run;
  }

  /** What the monitor does not promise: a caller that is idle, wants the mutex or was signalled too can
      get in before the signalled caller w, which then parks again. */
  lemma NewcomerOvertakes(s: State, w: nat, t: nat) returns (run: seq<Action>)
    requires w < |s.pcs| && t < |s.pcs| && t != w && s.pcs[w] == Woken && s.pcs[t] in {Idle, WantLock, Woken}
    requires s.lock == Free && !s.refreshing
    ensures run == (if s.pcs[t] == Idle then [Enter(t)] else [])
                   + [Acquire(t), Proceed(t), Proceed(t), Acquire(w), Proceed(w)]
    ensures Exec(s, run) == Some(State(s.pcs[t := Working][w := Parked], Free, true))
    ensures ParksAgain(s, run, w)
  {
    if s.pcs[t] == Idle {
      var waiting := s.(pcs := s.pcs[t := WantLock]);
      var end := State(s.pcs[t := Working][w := Parked], Free, true);
      assert waiting.pcs[t := Working][w := Parked] == end.pcs;
      run := CompetitorOvertakes(waiting, w, t);
      run := StepFirst(s, Enter(t), waiting, run, end, w);
    } else {
      run := CompetitorOvertakes(s, w, t);
    }
  }

  lemma CompetitorOvertakes(s: State, w: nat, t: nat) returns (run: seq<Action>)
    requires w < |s.pcs| && t < |s.pcs| && t != w && s.pcs[w] == Woken && s.pcs[t] in {WantLock, Woken}
    requires s.lock == Free && !s.refreshing
    ensures run == [Acquire(t), Proceed(t), Proceed(t), Acquire(w), Proceed(w)]
    ensures Exec(s, run) == Some(State(s.pcs[t := Working][w := Parked], Free, true))
    ensures ParksAgain(s, run, w)
  {
    var holds := AfterLock(s.pcs[t]).value;
    var testing := State(s.pcs[t := holds], By(t), false);
    var claimed := State(s.pcs[t := Claimed], By(t), true);
    var working := State(s.pcs[t := Working], Free, true);
    var again := State(s.pcs[t := Working][w := Rechecking], By(w), true);
    var end := State(s.pcs[t := Working][w := Parked], Free, true);
    assert testing.pcs[t := Claimed] == claimed.pcs && claimed.pcs[t := Working] == working.pcs;
    assert again.pcs[w := Parked] == end.pcs;
    run := StepFirst(again, Proceed(w), end, [], end, w);
    run := StepFirst(working, Acquire(w), again, run, end, w);
    run := StepFirst(claimed, Proceed(t), working, run, end, w);
    run := StepFirst(testing, Proceed(t), claimed, run, end, w);
    run := StepFirst(s, Acquire(t), testing, run, end, w);
  }

  /** The state in which only w can still take the flag. */
  predicate OnlyWaiter(s: State, w: nat) {
    && w < |s.pcs| && !s.refreshing && s.pcs[w] in {Woken, Rechecking}
    && forall t | 0 <= t < |s.pcs| && t != w :: s.pcs[t] == Parked
  }

  lemma OnlyWaiterStep(s: State, a: Action, w: nat)
    requires OnlyWaiter(s, w) && Step(s, a).Some?
    ensures var s' := Step(s, a).value;
      OnlyWaiter(s', w) || (w < |s'.pcs| && s'.pcs[w] == Claimed)
  {
  }

  lemma {:induction false} OnlyWaiterIsServed(s: State, run: seq<Action>, w: nat)
    requires OnlyWaiter(s, w) && Exec(s, run).Some?
    ensures !ParksAgain(s, run, w)
    decreases |run|
  {
    if run != [] {
      OnlyWaiterStep(s, run[0], w);
      var s' := Step(s, run[0]).value;
      if OnlyWaiter(s', w) {
        OnlyWaiterIsServed(s', run[1..], w);
      }
    }
  }

  /** Exactly when overtaking is possible: with the mutex free and the flag clear, some run makes the
      signalled caller w park again if and only if another caller is idle, wants the mutex or was
      signalled. Otherwise all others are parked and w is the next to claim the flag. */
  lemma OvertakenIff(s: State, w: nat)
    requires Inv(s) && s.lock == Free && !s.refreshing && w < |s.pcs| && s.pcs[w] == Woken
    ensures (exists run :: Exec(s, run).Some? && ParksAgain(s, run, w)) <==>
            exists t :: 0 <= t < |s.pcs| && t != w && s.pcs[t] in {Idle, WantLock, Woken}
    ensures OnlyWaiter(s, w) ==>
            Exec(s, [Acquire(w), Proceed(w)]) == Some(State(s.pcs[w := Claimed], By(w), true))
  {
    if t :| 0 <= t < |s.pcs| && t != w && s.pcs[t] in {Idle, WantLock, Woken} {
      var run := NewcomerOvertakes(s, w, t);
    } else {
      OthersParked(s, w);
      forall run | Exec(s, run).Some? ensures !ParksAgain(s, run, w) {
        OnlyWaiterIsServed(s, run, w);
      }
    }
    var held, claimed := State(s.pcs[w := Rechecking], By(w), false), State(s.pcs[w := Claimed], By(w), true);
    assert held.pcs[w := Claimed] == claimed.pcs;
    ExecTwo(s, Acquire(w), Proceed(w), held, claimed);
  }

  lemma OthersParked(s: State, w: nat)
    requires Inv(s) && s.lock == Free && !s.refreshing && w < |s.pcs| && s.pcs[w] == Woken
    requires forall t | 0 <= t < |s.pcs| && t != w :: s.pcs[t] !in {Idle, WantLock, Woken}
    ensures OnlyWaiter(s, w)
  {
    forall t | 0 <= t < |s.pcs| && t != w ensures s.pcs[t] == Parked {
      assert !Holds(s.pcs[t]) && !Inside(s.pcs[t]);
    }
  }

  /** Two callers are enough to get there: the first refreshes while the second parks, signals it and
      returns; entering again it overtakes the second. */
  lemma OvertakingIsReachable() returns (run: seq<Action>, overtaking: seq<Action>)
    ensures var start, signalled := State([Idle, Idle], Free, false), State([Idle, Woken], Free, false);
      && Initial(start)
      && Exec(start, run) == Some(signalled)
      && Exec(signalled, overtaking) == Some(State([Working, Parked], Free, true))
      && ParksAgain(signalled, overtaking, 1)
  {
    var end := State([Idle, Woken], Free, false);
    run := FirstCallerSignals(end);
    run := SecondCallerParks(run, end);
    run := FirstCallerWorks(run, end);
    overtaking := NewcomerOvertakes(end, 1, 0);
    assert [Idle, Woken][0 := Working][1 := Parked] == [Working, Parked];
  }

  lemma FirstCallerSignals(end: State) returns (all: seq<Action>)
    requires end == State([Idle, Woken], Free, false)
    ensures Exec(State([Working, Parked], Free, true), all) == Some(end)
  {
    var releasing := State([Releasing, Woken], By(0), false);
    var signalling := State([Signalling, Parked], By(0), false);
    var clearing := State([Clearing, Parked], By(0), true);
    all := Before(releasing, Proceed(0), end, [], end);
    all := Before(signalling, Signal(0, Some(1)), releasing, all, end);
    all := Before(clearing, Proceed(0), signalling, all, end);
    all := FirstCallerPublishes(all, clearing, end);
  }

  lemma FirstCallerPublishes(run: seq<Action>, clearing: State, end: State) returns (all: seq<Action>)
    requires clearing == State([Clearing, Parked], By(0), true) && Exec(clearing, run) == Some(end)
    ensures Exec(State([Working, Parked], Free, true), all) == Some(end)
  {
    var wantClear := State([WantClear, Parked], Free, true);
    var publishing := State([Publishing, Parked], By(0), true);
    var wantPublish := State([WantPublish, Parked], Free, true);
    all := Before(wantClear, Acquire(0), clearing, run, end);
    all := Before(publishing, Proceed(0), wantClear, all, end);
    all := Before(wantPublish, Acquire(0), publishing, all, end);
    all := Before(State([Working, Parked], Free, true), Proceed(0), wantPublish, all, end);
  }

  lemma SecondCallerParks(run: seq<Action>, end: State) returns (all: seq<Action>)
    requires Exec(State([Working, Parked], Free, true), run) == Some(end)
    ensures Exec(State([Working, Idle], Free, true), all) == Some(end)
  {
    var testing := State([Working, Testing], By(1), true);
    var wantLock := State([Working, WantLock], Free, true);
    all := Before(testing, Proceed(1), State([Working, Parked], Free, true), run, end);
    all := Before(wantLock, Acquire(1), testing, all, end);
    all := Before(State([Working, Idle], Free, true), Enter(1), wantLock, all, end);
  }

  lemma FirstCallerWorks(run: seq<Action>, end: State) returns (all: seq<Action>)
    requires Exec(State([Working, Idle], Free, true), run) == Some(end)
    ensures Exec(State([Idle, Idle], Free, false), all) == Some(end)
  {
    var claimed := State([Claimed, Idle], By(0), true);
    var testing := State([Testing, Idle], By(0), false);
    var wantLock := State([WantLock, Idle], Free, false);
    all := Before(claimed, Proceed(0), State([Working, Idle], Free, true), run, end);
    all := Before(testing, Proceed(0), claimed, all, end);
    all := Before(wantLock, Acquire(0), testing, all, end);
    all := Before(State([Idle, Idle], Free, false), Enter(0), wantLock, all, end);
  }

  lemma Before(s: State, a: Action, next: State, run: seq<Action>, end: State) returns (all: seq<Action>)
    requires Step(s, a).Some? && Step(s, a).value.pcs == next.pcs
    requires Step(s, a).value.lock == next.lock && Step(s, a).value.refreshing == next.refreshing
    requires Exec(next, run) == Some(end)
    ensures all == [a] + run && Exec(s, all) == Some(end)
  {
    all := [a] + run;
    assert all[1..] == run && Step(s, a).value == next;
  }

  lemma ExecTwo(s: State, a: Action, b: Action, s1: State, s2: State)
    requires Step(s, a) == Some(s1) && Step(s1, b) == Some(s2)
    ensures Exec(s, [a, b]) == Some(s2)
  {
    assert [a, b][1..] == [b] && [b][1..] == [];
    assert Exec(s2, []) == Some(s2);
    assert Exec(s1, [b]) == Some(s2);
  }
}
