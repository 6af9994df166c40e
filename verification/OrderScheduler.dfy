/** The scheduler that keeps swapping a wallet's balance
    (libwallet/instantswap.go, StartScheduler): which orders it dares to create.
    Amounts, balances and rates are reals. */
module OrderScheduler {
  import opened Wrappers

  const DEFAULT_DEVIATION: real := 5.0

  /** What one round of the loop finds outside: `rate` and `max` come from the
      exchange, `price` from the rate source (None when it has no ticker). */
  datatype Round = Round(
    shutdown: bool, balance: Option<real>, rate: Option<real>, max: real,
    price: Option<real>, fromBtc: bool, accepted: bool, settled: bool)

  datatype Reason =
    | NoWallet | AlreadyRunning | NoServer | Shutdown | NoBalance | BelowMaintained | NoRate
    | Deviates | NothingToSend | WholeBalance | Rejected | Unsettled

  datatype Outcome = Pending | Finished | Failed(reason: Reason)

  datatype Verdict = Create(amount: real) | Stop(outcome: Outcome)

  /** A float64 quotient: a zero divisor gives an infinity, or no number at all. */
  datatype Float = Finite(value: real) | Infinite | NaN

  function Abs(x: real): real { if x < 0.0 then -x else x }

  /** The rate source quotes bitcoin the other way round. */
  function MarketRate(price: real, fromBtc: bool): Float {
    if !fromBtc then Finite(price) else if price == 0.0 then Infinite else Finite(1.0 / price)
  }

  /** How far the two rates are apart, in percent of their mean. */
  function Deviation(rate: real, market: Float): Float {
    match market
    case Finite(r) =>
      if rate + r == 0.0 then (if rate == r then NaN else Infinite)
      else Finite(Abs((rate - r) / ((rate + r) / 2.0)) * 100.0)
    case _ => NaN
  }

  function Exceeds(d: Float, tolerance: real): bool {
    match d
    case Finite(x) => x > tolerance
    case Infinite => true
    case NaN => false
  }

  function Tolerance(wanted: real): real {
    if wanted <= 0.0 then DEFAULT_DEVIATION else wanted
  }

  function TooFar(r: Round, tolerance: real): bool
    requires r.rate.Some?
  {
    r.price.Some? && Exceeds(Deviation(r.rate.value, MarketRate(r.price.value, r.fromBtc)), tolerance)
  }

  /** One round up to the creation of the order. */
  function Decide(r: Round, maintain: real, deviation: real, first: bool): Verdict {
    if r.shutdown then Stop(Failed(Shutdown))
    else if r.balance.None? then Stop(Failed(NoBalance))
    else if r.balance.value <= maintain then Stop(if first then Failed(BelowMaintained) else Finished)
    else if r.rate.None? then Stop(Failed(NoRate))
    else if TooFar(r, Tolerance(deviation)) then Stop(Failed(Deviates))
    else
      var amount :=
        if r.max == 0.0 || r.balance.value - r.max < maintain then r.balance.value - maintain else r.max;
      if amount <= 0.0 then Stop(Failed(NothingToSend))
      else if amount == r.balance.value then Stop(Failed(WholeBalance))
      else if !r.accepted then Stop(Failed(Rejected))
      else Create(amount)
  }

  class Scheduler {
    const maintain: real
    var deviation: real
    var running: bool
    var started: nat
    var ended: nat

    constructor (maintain: real, deviation: real)
      ensures this.maintain == maintain && this.deviation == deviation
      ensures !running && started == 0 && ended == 0
    {
      this.maintain, this.deviation := maintain, deviation;
      running, started, ended := false, 0, 0;
    }

    /** Runs for as many rounds as are given; `Pending` means it would go on. */
    method Start(walletFound: bool, serverOpens: bool, rounds: seq<Round>)
      returns (orders: seq<real>, outcome: Outcome)
      modifies this
      ensures running == old(running)
      ensures !walletFound || old(running) ==>
        orders == [] && outcome == Failed(if walletFound then AlreadyRunning else NoWallet)
        && started == old(started) && ended == old(ended) && deviation == old(deviation)
      ensures walletFound && !old(running) ==> started == old(started) + 1 && ended == old(ended) + 1
      ensures walletFound && !old(running) && !serverOpens ==> orders == [] && outcome == Failed(NoServer)
      ensures |orders| <= |rounds|
      ensures forall i {:trigger orders[i]} :: 0 <= i < |orders| ==>
        Decide(rounds[i], maintain, old(deviation), i == 0) == Create(orders[i])
      ensures forall i :: 0 <= i < |orders| - 1 ==> rounds[i].settled
      ensures walletFound && serverOpens && !old(running) ==>
        match outcome
        case Pending => |orders| == |rounds| && (orders == [] || rounds[|orders| - 1].settled)
        case Failed(Unsettled) => orders != [] && !rounds[|orders| - 1].settled
        case _ => |orders| < |rounds|
                  && Decide(rounds[|orders|], maintain, old(deviation), orders == []) == Stop(outcome)
    {
      orders := [];
      if !walletFound { return orders, Failed(NoWallet); }
      if running { return orders, Failed(AlreadyRunning); }
      running, started := true, started + 1;
      outcome := Failed(NoServer);
      if serverOpens {
        orders, outcome := Loop(rounds);
      }
      running, ended := false, ended + 1;
    }

    method Loop(rounds: seq<Round>) returns (orders: seq<real>, outcome: Outcome)
      modifies this`deviation
      ensures |orders| <= |rounds|
      ensures forall i {:trigger orders[i]} :: 0 <= i < |orders| ==>
        Decide(rounds[i], maintain, old(deviation), i == 0) == Create(orders[i])
      ensures forall i :: 0 <= i < |orders| - 1 ==> rounds[i].settled
      ensures match outcome
        case Pending => |orders| == |rounds| && (orders == [] || rounds[|orders| - 1].settled)
        case Failed(Unsettled) => orders != [] && !rounds[|orders| - 1].settled
        case _ => |orders| < |rounds|
                  && Decide(rounds[|orders|], maintain, old(deviation), orders == []) == Stop(outcome)
    {
      orders := [];
      while |orders| < |rounds|
        invariant |orders| <= |rounds|
        invariant Tolerance(deviation) == Tolerance(old(deviation))
        invariant forall i {:trigger orders[i]} :: 0 <= i < |orders| ==>
          Decide(rounds[i], maintain, old(deviation), i == 0) == Create(orders[i])
        invariant forall i :: 0 <= i < |orders| ==> rounds[i].settled
        decreases |rounds| - |orders|
      {
        var r := rounds[|orders|];
        if r.shutdown { return orders, Failed(Shutdown); }
        if r.balance.None? { return orders, Failed(NoBalance); }
        var balance := r.balance.value;
        if balance <= maintain {
          return orders, if orders != [] then Finished else Failed(BelowMaintained);
        }
        if r.rate.None? { return orders, Failed(NoRate); }
        if deviation <= 0.0 { deviation := DEFAULT_DEVIATION; }
        if r.price.Some? {
          var difference := Deviation(r.rate.value, MarketRate(r.price.value, r.fromBtc));
          if Exceeds(difference, deviation) { return orders, Failed(Deviates); }
        }
        var amount := r.max;
        if r.max == 0.0 || balance - r.max < maintain { amount := balance - maintain; }
        if amount <= 0.0 { return orders, Failed(NothingToSend); }
        if amount == balance { return orders, Failed(WholeBalance); }
        if !r.accepted { return orders, Failed(Rejected); }
        orders := orders + [amount];
        if !r.settled { return orders, Failed(Unsettled); }
      }
      outcome := Pending;
    }
  }

  // ----- Amounts -----

  /** Everything above what must stay, up to the exchange's limit if it has one. */
  ghost predicate Allowed(amount: real, balance: real, maintain: real, max: real) {
    balance - amount >= maintain && (max != 0.0 ==> amount <= max)
  }

  ghost predicate Largest(amount: real, balance: real, maintain: real, max: real) {
    Allowed(amount, balance, maintain, max)
    && forall b: real :: Allowed(b, balance, maintain, max) ==> b <= amount
  }

  /** An order is created exactly for the largest allowed amount, provided that it is
      positive and is not the whole balance, and that the market does not object. */
  lemma CreatedIff(r: Round, maintain: real, deviation: real, first: bool, amount: real)
    ensures Decide(r, maintain, deviation, first) == Create(amount) <==>
            !r.shutdown && r.accepted && r.balance.Some? && r.rate.Some?
            && !TooFar(r, Tolerance(deviation)) && maintain < r.balance.value
            && Largest(amount, r.balance.value, maintain, r.max)
            && amount > 0.0 && amount != r.balance.value
  {
    if r.balance.Some? {
      var balance := r.balance.value;
      var best := if r.max == 0.0 || balance - r.max < maintain then balance - maintain else r.max;
      LargestIs(best, balance, maintain, r.max);
      if Largest(amount, balance, maintain, r.max) {
        assert Allowed(best, balance, maintain, r.max) && Allowed(amount, balance, maintain, r.max);
        assert best <= amount && amount <= best;
      }
    }
  }

  lemma LargestIs(best: real, balance: real, maintain: real, max: real)
    requires best == if max == 0.0 || balance - max < maintain then balance - maintain else max
    ensures Largest(best, balance, maintain, max)
  {
    forall b: real | Allowed(b, balance, maintain, max) ensures b <= best {}
  }

  /** An order spends more than the wallet holds exactly when the caller asked for a
      negative balance to be kept and the exchange's limit does not stop it. */
  lemma OverspendsIff(r: Round, maintain: real, deviation: real, first: bool, amount: real)
    requires Decide(r, maintain, deviation, first) == Create(amount)
    ensures amount > r.balance.value <==> maintain < 0.0 && (r.max == 0.0 || r.max > r.balance.value)
  {
    CreatedIff(r, maintain, deviation, first, amount);
    if maintain < 0.0 && (r.max == 0.0 || r.max > r.balance.value) {
      var more := if r.max == 0.0 || r.max > r.balance.value - maintain then r.balance.value - maintain else r.max;
      assert Allowed(more, r.balance.value, maintain, r.max);
    }
  }

  // ----- When a run stops -----

  /** A balance that is too low is an error before the first order and a normal end after it. */
  lemma LowBalanceEnds(r: Round, maintain: real, deviation: real, first: bool)
    requires !r.shutdown && r.balance.Some? && r.balance.value <= maintain
    ensures Decide(r, maintain, deviation, first) == Stop(if first then Failed(BelowMaintained) else Finished)
  {
  }

  /** Every reason for stopping, in the order in which they count: the first that applies. */
  lemma StopsFor(r: Round, maintain: real, deviation: real, first: bool)
    ensures var d := Decide(r, maintain, deviation, first);
      && (d == Stop(Failed(Shutdown)) <==> r.shutdown)
      && (d == Stop(Failed(NoBalance)) <==> !r.shutdown && r.balance == None)
      && (d == Stop(Finished) || d == Stop(Failed(BelowMaintained)) <==>
           !r.shutdown && r.balance.Some? && r.balance.value <= maintain)
      && (d == Stop(Finished) ==> !first) && (d == Stop(Failed(BelowMaintained)) ==> first)
      && (d == Stop(Failed(NoRate)) <==>
           !r.shutdown && r.balance.Some? && r.balance.value > maintain && r.rate == None)
      && (d == Stop(Failed(Deviates)) <==>
           !r.shutdown && r.balance.Some? && r.balance.value > maintain && r.rate.Some?
           && TooFar(r, if deviation <= 0.0 then 5.0 else deviation))
  {
  }

  /** With the rates in order an order fails for its amount or because the exchange rejects it. */
  lemma StopsAfterRates(r: Round, maintain: real, deviation: real, first: bool)
    requires !r.shutdown && r.balance.Some? && r.balance.value > maintain && r.rate.Some?
    requires !TooFar(r, if deviation <= 0.0 then 5.0 else deviation)
    ensures var d := Decide(r, maintain, deviation, first);
      && (d == Stop(Failed(NothingToSend)) <==> r.max < 0.0)
      && (d == Stop(Failed(WholeBalance)) <==>
           (maintain == 0.0 && (r.max == 0.0 || r.max >= r.balance.value))
           || (maintain < 0.0 && r.max == r.balance.value && r.max > 0.0))
      && (d == Stop(Failed(Rejected)) ==> !r.accepted)
  {
  }

  /** A tolerance that is not positive means five percent. */
  lemma UnsetToleranceIsFive(r: Round, maintain: real, deviation: real, first: bool)
    requires deviation <= 0.0
    ensures Decide(r, maintain, deviation, first) == Decide(r, maintain, 5.0, first)
  {
  }

  // ----- Rates -----

  /** The ratio of two positive rates that pass the guard. */
  lemma WithinToleranceIff(rate: real, market: real, tolerance: real)
    requires rate > 0.0 && market > 0.0 && 0.0 < tolerance < 200.0
    ensures !Exceeds(Deviation(rate, Finite(market)), tolerance) <==>
            (200.0 - tolerance) / (200.0 + tolerance) <= rate / market <= (200.0 + tolerance) / (200.0 - tolerance)
  {
    DeviationOf(rate, market, tolerance);
    RatioAtMost(rate, market, 200.0 + tolerance, 200.0 - tolerance);
    RatioAtLeast(rate, market, 200.0 - tolerance, 200.0 + tolerance);
    assert (200.0 + tolerance) * market - (200.0 - tolerance) * rate ==
           tolerance * (rate + market) - 200.0 * (rate - market);
    assert (200.0 + tolerance) * rate - (200.0 - tolerance) * market ==
           tolerance * (rate + market) + 200.0 * (rate - market);
  }

  lemma RatioAtMost(a: real, b: real, c: real, d: real)
    requires b > 0.0 && d > 0.0
    ensures a / b <= c / d <==> a * d <= c * b
  {
    var x, y := a / b, c / d;
    assert a == x * b && c == y * d;
    assert a * d == x * (b * d) && c * b == y * (b * d);
    assert b * d > 0.0;
  }

  lemma RatioAtLeast(a: real, b: real, c: real, d: real)
    requires b > 0.0 && d > 0.0
    ensures c / d <= a / b <==> c * b <= a * d
  {
    RatioAtMost(c, d, a, b);
  }

  /** When the guard objects, for any two rates: with a zero mean it objects to any
      difference, and to nothing when both rates are zero. */
  lemma DeviationOf(rate: real, market: real, tolerance: real)
    ensures Exceeds(Deviation(rate, Finite(market)), tolerance) <==>
            if rate + market == 0.0 then rate != market
            else 200.0 * Abs(rate - market) > tolerance * Abs(rate + market)
  {
    var sum := rate + market;
    if sum != 0.0 {
      var q := (rate - market) / (sum / 2.0);
      assert q * (sum / 2.0) == rate - market;
      assert q * sum == 2.0 * (rate - market);
      AbsTimes(q, sum);
      assert Abs(q) * 100.0 * Abs(sum) == 200.0 * Abs(rate - market);
      Scaled(Abs(q) * 100.0, tolerance, Abs(sum));
    }
  }

  lemma AbsTimes(x: real, y: real)
    ensures Abs(x * y) == Abs(x) * Abs(y)
  {
    if x >= 0.0 && y >= 0.0 { NonNegative(x, y); }
    else if x >= 0.0 { NonNegative(x, -y); }
    else if y >= 0.0 { NonNegative(-x, y); }
    else { NonNegative(-x, -y); }
  }

  lemma NonNegative(x: real, y: real)
    requires x >= 0.0 && y >= 0.0
    ensures x * y >= 0.0
  {}

  lemma Scaled(a: real, b: real, sum: real)
    requires sum > 0.0
    ensures a > b <==> a * sum > b * sum
  {}

  /** A tolerance of two hundred percent or more switches the guard off. */
  lemma WideToleranceNeverObjects(rate: real, market: real, tolerance: real)
    requires rate > 0.0 && market > 0.0 && tolerance >= 200.0
    ensures !Exceeds(Deviation(rate, Finite(market)), tolerance)
  {
    DeviationOf(rate, market, tolerance);
    assert Abs(rate - market) < rate + market;
    Scaled(tolerance, 200.0, rate + market);
  }

  /** When a round's rates stop it, for any rate, price and tolerance: there is a ticker, its price has an
      inverse where one is needed, and the rates are too far apart. */
  lemma TooFarIff(r: Round, tolerance: real)
    requires r.rate.Some?
    ensures TooFar(r, tolerance) <==>
            r.price.Some? && !(r.fromBtc && r.price.value == 0.0)
            && var market := if r.fromBtc then 1.0 / r.price.value else r.price.value;
               if r.rate.value + market == 0.0 then r.rate.value != market
               else 200.0 * Abs(r.rate.value - market) > tolerance * Abs(r.rate.value + market)
  {
    if r.price.Some? && !(r.fromBtc && r.price.value == 0.0) {
      DeviationOf(r.rate.value, if r.fromBtc then 1.0 / r.price.value else r.price.value, tolerance);
    }
  }

  /** A bitcoin price of zero switches the guard off: the inverted rate is infinite,
      and the deviation from it is not a number. */
  lemma ZeroPriceNeverObjects(r: Round, maintain: real, deviation: real, first: bool)
    requires r.fromBtc && r.price == Some(0.0)
    ensures Decide(r, maintain, deviation, first) != Stop(Failed(Deviates))
  {}
}
