/** How far a wallet has synchronised (libwallet/assets/btc/sync.go and rescan.go). */
module SyncProgress {
  import opened Wrappers

  type int32 = x: int | -0x8000_0000 <= x < 0x8000_0000

  /** Subtraction of 32-bit heights wraps around. */
  function Minus(a: int32, b: int32): (d: int32)
    ensures a >= 0 && b >= 0 ==> d == a - b
    ensures (d - (a - b)) % 0x1_0000_0000 == 0
  {
    var d := a - b;
    if d < -0x8000_0000 then d + 0x1_0000_0000
    else if d >= 0x8000_0000 then d - 0x1_0000_0000 else d
  }

  function AtLeastOne(n: int): nat {
    if n < 1 then 1 else n
  }

  /** `fetched` blocks of all there are, in percent, truncated. */
  function Share(fetched: nat, remaining: nat): nat
    requires fetched >= 1
  {
    fetched * 100 / (fetched + remaining)
  }

  function Percentage(height: int32, from: int32, best: int32): nat {
    Share(AtLeastOne(Minus(height, from)), AtLeastOne(Minus(best, height)))
  }

  /** The first peer that is ahead, if any, gives the new target. */
  function Best(best: int32, peers: seq<int32>): int32 {
    if peers == [] then best
    else if peers[0] > best then peers[0]
    else Best(best, peers[1..])
  }

  class SyncData {
    var best: int32
    var syncStart: Option<int32>
    var rescanStart: Option<int32>

    constructor ()
      ensures best == 0 && syncStart == None && rescanStart == None
    {
      best, syncStart, rescanStart := 0, None, None;
    }

    method BestServerPeerBlockHeight(peers: seq<int32>)
      modifies this`best
      ensures best == Best(old(best), peers)
    {
      for i := 0 to |peers|
        invariant best == old(best) && Best(best, peers) == Best(best, peers[i..])
      {
        if peers[i] > best {
          best := peers[i];
          return;
        }
      }
    }

    /** No report is published for the very first block, unless it is the target. */
    method UpdateSyncProgress(height: int32, peers: seq<int32>) returns (report: Option<nat>)
      modifies this`best, this`syncStart
      ensures best == Best(old(best), peers)
      ensures syncStart == Some(if old(syncStart).Some? then old(syncStart).value else height)
      ensures report == if old(syncStart).None? && best != height then None
                        else Some(Percentage(height, syncStart.value, best))
    {
      BestServerPeerBlockHeight(peers);
      if syncStart.None? {
        syncStart := Some(height);
        if best != height { return None; }
      }
      var fetched: int := Minus(height, syncStart.value);
      if fetched < 1 { fetched := 1; }
      var remaining: int := Minus(best, height);
      if remaining < 1 { remaining := 1; }
      report := Some(Share(fetched, remaining));
    }

    /** `walletHeight` is the wallet's own best block. */
    method UpdateRescanProgress(height: int32, walletHeight: int32) returns (report: nat)
      modifies this`rescanStart
      ensures rescanStart == Some(if old(rescanStart).Some? then old(rescanStart).value else height)
      ensures report == Percentage(height, rescanStart.value, walletHeight)
    {
      if rescanStart.None? { rescanStart := Some(height); }
      var fetched: int := Minus(height, rescanStart.value);
      if fetched < 1 { fetched := 1; }
      var remaining: int := Minus(walletHeight, height);
      if remaining < 1 { remaining := 1; }
      report := Share(fetched, remaining);
    }
  }

  // ----- Percentages -----

  /** No report leaves 0 to 99, even where the difference of two heights overflows. */
  lemma PercentageBounded(height: int32, from: int32, best: int32)
    ensures Percentage(height, from, best) <= 99
  {
    var f := AtLeastOne(Minus(height, from));
    var r := AtLeastOne(Minus(best, height));
    QuotientBelow(f * 100, f + r, 100);
  }

  /** What is reported is the whole percentage p of the blocks fetched: p percent are reached and p + 1
      are not.  No block fetched, and none remaining, count as one. */
  lemma PercentageIs(height: int32, from: int32, best: int32)
    requires 0 <= height && 0 <= from && 0 <= best
    ensures var fetched := if height > from then height - from else 1;
            var remaining := if best > height then best - height else 1;
            var p := Percentage(height, from, best);
            p * (fetched + remaining) <= 100 * fetched < (p + 1) * (fetched + remaining)
  {
    var f := AtLeastOne(Minus(height, from));
    var r := AtLeastOne(Minus(best, height));
    WholePart(f * 100, f + r);
  }

  lemma WholePart(a: nat, d: nat)
    requires d > 0
    ensures (a / d) * d <= a < (a / d + 1) * d
  {
    assert a == (a / d) * d + a % d;
  }

  /** Of two blocks of one synchronisation the higher one is not reported lower. */
  lemma PercentageMonotone(lower: int32, higher: int32, from: int32, best: int32)
    requires 0 <= lower <= higher && 0 <= from && 0 <= best
    ensures Percentage(lower, from, best) <= Percentage(higher, from, best)
  {
    ShareMonotone(AtLeastOne(Minus(lower, from)), AtLeastOne(Minus(best, lower)),
                  AtLeastOne(Minus(higher, from)), AtLeastOne(Minus(best, higher)));
  }

  lemma ShareMonotone(f: nat, r: nat, g: nat, t: nat)
    requires 1 <= f <= g && 1 <= t <= r
    ensures Share(f, r) <= Share(g, t)
  {
    Product(f, g, t);
    Product(t, r, g);
    assert (f * 100) * (g + t) == 100 * (f * g) + 100 * (f * t);
    assert (g * 100) * (f + r) == 100 * (f * g) + 100 * (g * r);
    QuotientsOrdered(f * 100, f + r, g * 100, g + t);
  }

  lemma Product(a: nat, b: nat, c: nat)
    requires a <= b
    ensures a * c <= b * c
  {}

  lemma QuotientBelow(a: nat, d: nat, k: nat)
    requires d > 0 && a < k * d
    ensures a / d < k
  {
    if k <= a / d {
      Product(k, a / d, d);
      assert false;
    }
  }

  lemma QuotientAtLeast(b: nat, e: nat, p: nat)
    requires e > 0 && p * e <= b
    ensures p <= b / e
  {
    var q := b / e;
    assert b < q * e + e == (q + 1) * e;
    if q < p {
      Product(q + 1, p, e);
      assert false;
    }
  }

  lemma Cancel(x: nat, y: nat, d: nat)
    requires d > 0 && x * d <= y * d
    ensures x <= y
  {
    if y < x {
      Product(y + 1, x, d);
      assert false;
    }
  }

  lemma QuotientsOrdered(a: nat, d: nat, b: nat, e: nat)
    requires d > 0 && e > 0 && a * e <= b * d
    ensures a / d <= b / e
  {
    var p := a / d;
    Product(p * d, a, e);
    assert p * d * e == p * e * d;
    Cancel(p * e, b, d);
    QuotientAtLeast(b, e, p);
  }

  // ----- The target -----

  lemma {:induction false} BestNeverFalls(best: int32, peers: seq<int32>)
    ensures best <= Best(best, peers)
    ensures Best(best, peers) == best || Best(best, peers) in peers
    ensures Best(best, peers) == best <==> forall i :: 0 <= i < |peers| ==> peers[i] <= best
  {
    if peers != [] {
      BestNeverFalls(best, peers[1..]);
      assert forall i :: 1 <= i < |peers| ==> peers[i] == peers[1..][i - 1];
    }
  }

  /** Of the peers that are ahead the first one counts, however far the others are. */
  lemma {:induction false} BestIsFirstAhead(best: int32, peers: seq<int32>, i: nat)
    requires i < |peers| && peers[i] > best && forall j | 0 <= j < i :: peers[j] <= best
    ensures Best(best, peers) == peers[i]
  {
    if i > 0 {
      BestIsFirstAhead(best, peers[1..], i - 1);
    }
  }

  function Repeated(best: int32, peers: seq<int32>, times: nat): int32
    decreases times
  {
    if times == 0 then best else Repeated(Best(best, peers), peers, times - 1)
  }

  function Ahead(best: int32, peers: seq<int32>): nat {
    if peers == [] then 0 else (if peers[0] > best then 1 else 0) + Ahead(best, peers[1..])
  }

  /** One update may settle for a peer that is not the most advanced one, but as many
      updates as there are peers ahead reach a height that no peer exceeds. */
  lemma {:induction false} TargetIsReached(best: int32, peers: seq<int32>, times: nat)
    requires times >= Ahead(best, peers)
    ensures best <= Repeated(best, peers, times)
    ensures forall i :: 0 <= i < |peers| ==> peers[i] <= Repeated(best, peers, times)
    decreases times
  {
    BestNeverFalls(best, peers);
    if times == 0 {
      NobodyAhead(best, peers);
    } else {
      var next := Best(best, peers);
      if next == best { NobodyAhead(best, peers); } else { FewerAhead(best, next, peers); }
      TargetIsReached(next, peers, times - 1);
    }
  }

  lemma {:induction false} NobodyAhead(best: int32, peers: seq<int32>)
    ensures Ahead(best, peers) == 0 <==> forall i :: 0 <= i < |peers| ==> peers[i] <= best
  {
    if peers != [] {
      NobodyAhead(best, peers[1..]);
      assert forall i :: 1 <= i < |peers| ==> peers[i] == peers[1..][i - 1];
    }
  }

  lemma {:induction false} FewerAhead(best: int32, next: int32, peers: seq<int32>)
    requires best <= next
    ensures Ahead(next, peers) <= Ahead(best, peers)
    ensures next > best && next in peers ==> Ahead(next, peers) < Ahead(best, peers)
  {
    if peers != [] {
      FewerAhead(best, next, peers[1..]);
    }
  }
}
