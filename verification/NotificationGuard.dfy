/** The compare-and-swap guard around the notification handler
    (libwallet/assets/btc/sync.go and rescan.go).  Sync starts and rescans race to
    start a handler; handlers end on their own when the sync context is cancelled. */
module NotificationGuard {
  /** A handler is claimed by the swap, begins to listen, leaves its loop when the
      context ends, clears the flag, and only then gives up its subscription. */
  datatype Pc = Claimed | Listening | Leaving | Cleared | Gone

  /** `started` is the flag; `handlers` has every handler ever claimed. */
  datatype State = State(started: bool, handlers: seq<Pc>)

  datatype Action = TryStart | Begin(h: nat) | Leave(h: nat) | Clear(h: nat) | Release(h: nat)

  const Initial: State := State(false, [])

  predicate At(s: State, h: nat, pc: Pc) {
    h < |s.handlers| && s.handlers[h] == pc
  }

  predicate Enabled(s: State, a: Action) {
    match a
    case TryStart => true
    case Begin(h) => At(s, h, Claimed)
    case Leave(h) => At(s, h, Listening)
    case Clear(h) => At(s, h, Leaving)
    case Release(h) => At(s, h, Cleared)
  }

  function Step(s: State, a: Action): State
    requires Enabled(s, a)
  {
    match a
    case TryStart => if s.started then s else State(true, s.handlers + [Claimed])
    case Begin(h) => s.(handlers := s.handlers[h := Listening])
    case Leave(h) => s.(handlers := s.handlers[h := Leaving])
    case Clear(h) => State(false, s.handlers[h := Cleared])
    case Release(h) => s.(handlers := s.handlers[h := Gone])
  }

  ghost predicate Runs(s: State, actions: seq<Action>)
    decreases actions
  {
    actions == [] || (Enabled(s, actions[0]) && Runs(Step(s, actions[0]), actions[1..]))
  }

  function After(s: State, actions: seq<Action>): State
    requires Runs(s, actions)
    decreases actions
  {
    if actions == [] then s else After(Step(s, actions[0]), actions[1..])
  }

  predicate Live(pc: Pc) {
    pc.Claimed? || pc.Listening? || pc.Leaving?
  }

  function LiveCount(handlers: seq<Pc>): nat {
    if handlers == [] then 0
    else LiveCount(handlers[..|handlers| - 1]) + (if Live(handlers[|handlers| - 1]) then 1 else 0)
  }

  /** The flag counts the live handlers, so there is never a second one. */
  ghost predicate Guarded(s: State) {
    LiveCount(s.handlers) == if s.started then 1 else 0
  }

  lemma {:induction false} CountAfterUpdate(handlers: seq<Pc>, h: nat, pc: Pc)
    requires h < |handlers|
    ensures LiveCount(handlers[h := pc]) + (if Live(handlers[h]) then 1 else 0) ==
            LiveCount(handlers) + (if Live(pc) then 1 else 0)
  {
    var n := |handlers| - 1;
    if h == n {
      assert handlers[h := pc][..n] == handlers[..n];
    } else {
      assert handlers[h := pc][..n] == handlers[..n][h := pc];
      CountAfterUpdate(handlers[..n], h, pc);
    }
  }

  lemma StepKeepsGuard(s: State, a: Action)
    requires Guarded(s) && Enabled(s, a)
    ensures Guarded(Step(s, a))
  {
    match a
    case TryStart => assert (s.handlers + [Claimed])[..|s.handlers|] == s.handlers;
    case Begin(h) => CountAfterUpdate(s.handlers, h, Listening);
    case Leave(h) => CountAfterUpdate(s.handlers, h, Leaving);
    case Clear(h) => CountAfterUpdate(s.handlers, h, Cleared);
    case Release(h) => CountAfterUpdate(s.handlers, h, Gone);
  }

  lemma {:induction false} RunKeepsGuard(s: State, actions: seq<Action>)
    requires Guarded(s) && Runs(s, actions)
    ensures Guarded(After(s, actions))
    decreases actions
  {
    if actions != [] {
      StepKeepsGuard(s, actions[0]);
      RunKeepsGuard(Step(s, actions[0]), actions[1..]);
    }
  }

  /** In every interleaving: no two live handlers, and the flag is set exactly while
      there is one. */
  lemma AtMostOneHandler(actions: seq<Action>)
    requires Runs(Initial, actions)
    ensures var s := After(Initial, actions);
            (s.started <==> exists h :: 0 <= h < |s.handlers| && Live(s.handlers[h]))
            && forall h, k :: 0 <= h < k < |s.handlers| ==> !Live(s.handlers[h]) || !Live(s.handlers[k])
  {
    RunKeepsGuard(Initial, actions);
    var s := After(Initial, actions);
    forall h | 0 <= h < |s.handlers| && Live(s.handlers[h]) ensures s.started {
      Counted(s.handlers, h);
    }
    forall h, k | 0 <= h < k < |s.handlers| ensures !Live(s.handlers[h]) || !Live(s.handlers[k]) {
      CountedTwice(s.handlers, h, k);
    }
    if s.started { SomeoneCounted(s.handlers); }
  }

  lemma Counted(handlers: seq<Pc>, h: nat)
    requires h < |handlers| && Live(handlers[h])
    ensures LiveCount(handlers) >= 1
  {
    CountAfterUpdate(handlers, h, Gone);
  }

  lemma CountedTwice(handlers: seq<Pc>, h: nat, k: nat)
    requires h < k < |handlers|
    ensures Live(handlers[h]) && Live(handlers[k]) ==> LiveCount(handlers) >= 2
  {
    CountAfterUpdate(handlers, k, Gone);
    if Live(handlers[h]) { Counted(handlers[k := Gone], h); }
  }

  lemma {:induction false} SomeoneCounted(handlers: seq<Pc>)
    requires LiveCount(handlers) >= 1
    ensures exists h :: 0 <= h < |handlers| && Live(handlers[h])
  {
    var n := |handlers| - 1;
    if !Live(handlers[n]) {
      SomeoneCounted(handlers[..n]);
      var h :| 0 <= h < n && Live(handlers[..n][h]);
      assert Live(handlers[h]);
    }
  }

  // ----- Subscriptions -----

  /** A handler is subscribed from the moment it begins until it gives the subscription up. */
  predicate Subscribed(pc: Pc) {
    pc.Listening? || pc.Leaving? || pc.Cleared?
  }

  ghost predicate TwoSubscribed(s: State) {
    exists h, k :: 0 <= h < k < |s.handlers| && Subscribed(s.handlers[h]) && Subscribed(s.handlers[k])
  }

  predicate SomeCleared(s: State) {
    exists h :: 0 <= h < |s.handlers| && s.handlers[h] == Cleared
  }

  /** From any reachable state with a clear flag and at most one subscription, starting a handler gives
      two subscriptions exactly if the handler before it has cleared the flag but not left yet. */
  lemma OverlapIff(actions: seq<Action>)
    requires Runs(Initial, actions)
    requires !After(Initial, actions).started && !TwoSubscribed(After(Initial, actions))
    ensures var s := After(Initial, actions);
      var s' := Step(s, TryStart);
      Enabled(s', Begin(|s.handlers|)) && (TwoSubscribed(Step(s', Begin(|s.handlers|))) <==> SomeCleared(s))
  {
    var s := After(Initial, actions);
    var n := |s.handlers|;
    var next := Step(Step(s, TryStart), Begin(n));
    AtMostOneHandler(actions);
    assert next.handlers == s.handlers + [Listening];
    if SomeCleared(s) {
      var h :| 0 <= h < n && s.handlers[h] == Cleared;
      assert Subscribed(next.handlers[h]) && Subscribed(next.handlers[n]);
    }
    if TwoSubscribed(next) {
      var h, k :| 0 <= h < k < |next.handlers| && Subscribed(next.handlers[h]) && Subscribed(next.handlers[k]);
      assert !Live(s.handlers[h]);
    }
  }

  /** A handler that has not ended yet. */
  predicate Present(pc: Pc) {
    pc != Gone
  }

  ghost predicate Alone(s: State) {
    forall h, k | 0 <= h < k < |s.handlers| :: !Present(s.handlers[h]) || !Present(s.handlers[k])
  }

  /** Every start that succeeds finds no handler that still holds its subscription. */
  ghost predicate CleanStarts(s: State, actions: seq<Action>)
    requires Runs(s, actions)
    decreases actions
  {
    actions == []
    || ((actions[0] == TryStart && !s.started ==> !SomeCleared(s)) && CleanStarts(Step(s, actions[0]), actions[1..]))
  }

  /** There is never a second handler, in any state of the run. */
  ghost predicate AlwaysAlone(s: State, actions: seq<Action>)
    requires Runs(s, actions)
    decreases actions
  {
    Alone(s) && (actions == [] || AlwaysAlone(Step(s, actions[0]), actions[1..]))
  }

  /** One step keeps a handler alone exactly if it is not a start beside a cleared one. */
  lemma StepAloneIff(s: State, a: Action)
    requires Guarded(s) && Enabled(s, a) && Alone(s)
    ensures Alone(Step(s, a)) <==> (a == TryStart && !s.started ==> !SomeCleared(s))
  {
    var s' := Step(s, a);
    if a == TryStart && !s.started {
      var n := |s.handlers|;
      forall h | 0 <= h < n ensures !Live(s.handlers[h]) {
        if Live(s.handlers[h]) { Counted(s.handlers, h); }
      }
      assert s'.handlers[n] == Claimed;
      if SomeCleared(s) {
        var h :| 0 <= h < n && s.handlers[h] == Cleared;
        assert Present(s'.handlers[h]) && Present(s'.handlers[n]);
      } else {
        assert forall h | 0 <= h < n :: !Present(s.handlers[h]);
      }
    } else {
      assert |s'.handlers| == |s.handlers|;
      assert forall h | 0 <= h < |s.handlers| :: Present(s'.handlers[h]) ==> Present(s.handlers[h]);
    }
  }

  /** Over whole runs: handlers never coexist exactly if every successful start is a clean one. */
  lemma {:induction false} AlwaysAloneIff(s: State, actions: seq<Action>)
    requires Guarded(s) && Alone(s) && Runs(s, actions)
    ensures AlwaysAlone(s, actions) <==> CleanStarts(s, actions)
    decreases actions
  {
    if actions != [] {
      StepAloneIff(s, actions[0]);
      StepKeepsGuard(s, actions[0]);
      var s' := Step(s, actions[0]);
      if Alone(s') {
        AlwaysAloneIff(s', actions[1..]);
      }
    }
  }

  /** So no run of clean starts ever has two subscriptions. */
  lemma CleanStartsNeverOverlap(actions: seq<Action>, n: nat)
    requires Runs(Initial, actions) && CleanStarts(Initial, actions) && n <= |actions|
    ensures Runs(Initial, actions[..n]) && !TwoSubscribed(After(Initial, actions[..n]))
  {
    AlwaysAloneIff(Initial, actions);
    AloneAt(Initial, actions, n);
  }

  lemma {:induction false} AloneAt(s: State, actions: seq<Action>, n: nat)
    requires Runs(s, actions) && AlwaysAlone(s, actions) && n <= |actions|
    ensures Runs(s, actions[..n]) && Alone(After(s, actions[..n]))
    decreases n
  {
    if n > 0 {
      assert actions[..n][1..] == actions[1..][..n - 1];
      AloneAt(Step(s, actions[0]), actions[1..], n - 1);
    }
  }

  /** The condition can fail: here an old handler has not given its subscription up while a new one
      listens. */
  lemma SubscriptionsCanOverlap() returns (actions: seq<Action>)
    ensures Runs(Initial, actions)
    ensures At(After(Initial, actions), 0, Cleared) && At(After(Initial, actions), 1, Listening)
  {
    var end := State(true, [Cleared, Listening]);
    assert [Cleared, Claimed][1 := Listening] == [Cleared, Listening];
    assert [Cleared] + [Claimed] == [Cleared, Claimed];
    assert [Leaving][0 := Cleared] == [Cleared];
    assert [Listening][0 := Leaving] == [Leaving];
    assert [Claimed][0 := Listening] == [Listening];
    assert Initial.handlers + [Claimed] == [Claimed];
    actions := Before(State(true, [Cleared, Claimed]), Begin(1), [], end);
    actions := Before(State(false, [Cleared]), TryStart, actions, end);
    actions := Before(State(true, [Leaving]), Clear(0), actions, end);
    actions := Before(State(true, [Listening]), Leave(0), actions, end);
    actions := Before(State(true, [Claimed]), Begin(0), actions, end);
    actions := Before(Initial, TryStart, actions, end);
  }

  lemma Before(s: State, a: Action, rest: seq<Action>, end: State) returns (actions: seq<Action>)
    requires Enabled(s, a) && Runs(Step(s, a), rest) && After(Step(s, a), rest) == end
    ensures actions == [a] + rest && Runs(s, actions) && After(s, actions) == end
  {
    actions := [a] + rest;
    assert actions[1..] == rest;
  }
}
