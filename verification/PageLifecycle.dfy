/** What every run of the page stack keeps. */
module PageLifecycle {
  import opened PageStacks

  datatype Visibility = Unknown | Shown | Hidden

  /** What the last show or hide callback told this page. */
  function Status(log: seq<Event>, p: Page): Visibility {
    if log == [] then Unknown
    else
      var e := log[|log| - 1];
      if e == NavigatedTo(p) then Shown
      else if e == NavigatedFrom(p) then Hidden
      else Status(log[..|log| - 1], p)
  }

  /** The pages told that they are closed, with multiplicity. */
  function ClosedIn(log: seq<Event>): multiset<Page> {
    if log == [] then multiset{}
    else
      var e := log[|log| - 1];
      ClosedIn(log[..|log| - 1]) + if e.Closed? then multiset{e.page} else multiset{}
  }

  ghost predicate DistinctIds(ps: seq<Page>) {
    forall i, j | 0 <= i < j < |ps| :: ps[i].id != ps[j].id
  }

  /** IDs are distinct, the top page was last told that it is shown, every covered page that it is not. */
  ghost predicate Lifecycle(n: Nav) {
    && DistinctIds(n.pages)
    && (forall i | 0 <= i < |n.pages| - 1 :: Status(n.log, n.pages[i]) == Hidden)
    && (n.pages != [] ==> Status(n.log, n.pages[|n.pages| - 1]) == Shown)
  }

  /** Entries minus removals is what is in the stack, and each removal of a closable page closed it once. */
  ghost predicate Conserved(n: Nav) {
    && n.entered == multiset(n.pages) + n.removed
    && forall p :: ClosedIn(n.log)[p] == if p.closable then n.removed[p] else 0
  }

  datatype Op = DoPush(page: Page) | DoPop | DoPopAfter(matcher: Page -> bool) | DoReset(newPages: seq<Page>)

  function Step(n: Nav, op: Op): Nav {
    match op
    case DoPush(p) => Push(n, p)
    case DoPop => Pop(n)
    case DoPopAfter(matcher) => PopAfter(n, matcher)
    case DoReset(ps) => Reset(n, ps)
  }

  function Run(n: Nav, ops: seq<Op>): Nav
    decreases |ops|
  {
    if ops == [] then n else Run(Step(n, ops[0]), ops[1..])
  }

  lemma StatusSnoc(log: seq<Event>, e: Event, p: Page)
    ensures Status(log + [e], p) ==
      if e == NavigatedTo(p) then Shown else if e == NavigatedFrom(p) then Hidden else Status(log, p)
  {
    assert (log + [e])[..|log|] == log;
  }

  lemma ClosedSnoc(log: seq<Event>, e: Event)
    ensures ClosedIn(log + [e]) == ClosedIn(log) + if e.Closed? then multiset{e.page} else multiset{}
  {
    assert (log + [e])[..|log|] == log;
  }

  lemma FarewellEffect(log: seq<Event>, q: Page, p: Page)
    ensures Status(log + Farewell(q), p) == if p == q then Hidden else Status(log, p)
    ensures ClosedIn(log + Farewell(q)) == ClosedIn(log) + if q.closable then multiset{q} else multiset{}
  {
    StatusSnoc(log, NavigatedFrom(q), p);
    ClosedSnoc(log, NavigatedFrom(q));
    if q.closable {
      StatusSnoc(log + [NavigatedFrom(q)], Closed(q), p);
      ClosedSnoc(log + [NavigatedFrom(q)], Closed(q));
      assert log + Farewell(q) == log + [NavigatedFrom(q)] + [Closed(q)];
    } else {
      assert log + Farewell(q) == log + [NavigatedFrom(q)];
    }
  }

  /** Saying farewell to several pages hides them, leaves the others, and closes the closable ones. */
  lemma {:induction false} FarewellsEffect(log: seq<Event>, qs: seq<Page>, p: Page)
    ensures Status(log + Farewells(qs), p) == if p in qs then Hidden else Status(log, p)
    ensures ClosedIn(log + Farewells(qs))[p] == ClosedIn(log)[p] + if p.closable then multiset(qs)[p] else 0
  {
    if qs == [] {
      assert log + Farewells(qs) == log;
    } else {
      var rest, q := qs[..|qs| - 1], qs[|qs| - 1];
      FarewellsEffect(log, rest, p);
      FarewellEffect(log + Farewells(rest), q, p);
      Associate(log, Farewells(rest), Farewell(q));
      LastOut(qs, p);
    }
  }

  lemma Associate(a: seq<Event>, b: seq<Event>, c: seq<Event>)
    ensures a + b + c == a + (b + c)
  {
  }

  lemma LastOut(qs: seq<Page>, p: Page)
    requires qs != []
    ensures p in qs <==> p in qs[..|qs| - 1] || p == qs[|qs| - 1]
    ensures multiset(qs)[p] == multiset(qs[..|qs| - 1])[p] + if p == qs[|qs| - 1] then 1 else 0
  {
    assert qs == qs[..|qs| - 1] + [qs[|qs| - 1]];
  }

  // ---------------------------------------------------------------------------------------
  // Push

  /** The log while a push is under way: the covered page is hidden, the duplicate has left. */
  function PushLog(n: Nav, p: Page): seq<Event> {
    var i := Find(n.pages, p.id, 0);
    n.log + (if n.pages == [] then [] else [NavigatedFrom(n.pages[|n.pages| - 1])])
    + if i == |n.pages| then [] else Farewell(n.pages[i])
  }

  function PushKept(n: Nav, p: Page): seq<Page> {
    var i := Find(n.pages, p.id, 0);
    if i == |n.pages| then n.pages else Remove(n.pages, i)
  }

  lemma PushLogEffect(n: Nav, p: Page, x: Page)
    ensures var i := Find(n.pages, p.id, 0);
      Status(PushLog(n, p), x) ==
        if n.pages != [] && x == n.pages[|n.pages| - 1] then Hidden
        else if i < |n.pages| && x == n.pages[i] then Hidden
        else Status(n.log, x)
    ensures var i := Find(n.pages, p.id, 0);
      ClosedIn(PushLog(n, p)) ==
        ClosedIn(n.log) + if i < |n.pages| && n.pages[i].closable then multiset{n.pages[i]} else multiset{}
  {
    var i := Find(n.pages, p.id, 0);
    var log := n.log + if n.pages == [] then [] else [NavigatedFrom(n.pages[|n.pages| - 1])];
    assert n.pages == [] ==> log == n.log;
    if n.pages != [] {
      StatusSnoc(n.log, NavigatedFrom(n.pages[|n.pages| - 1]), x);
      ClosedSnoc(n.log, NavigatedFrom(n.pages[|n.pages| - 1]));
    }
    if i < |n.pages| {
      FarewellEffect(log, n.pages[i], x);
    } else {
      assert PushLog(n, p) == log;
    }
  }

  lemma ArrivalEffect(log: seq<Event>, p: Page, x: Page)
    ensures Status(log + [Attached(p), NavigatedTo(p)], x) == if x == p then Shown else Status(log, x)
    ensures ClosedIn(log + [Attached(p), NavigatedTo(p)]) == ClosedIn(log)
  {
    assert log + [Attached(p), NavigatedTo(p)] == log + [Attached(p)] + [NavigatedTo(p)];
    StatusSnoc(log, Attached(p), x);
    ClosedSnoc(log, Attached(p));
    StatusSnoc(log + [Attached(p)], NavigatedTo(p), x);
    ClosedSnoc(log + [Attached(p)], NavigatedTo(p));
  }

  lemma PushIs(n: Nav, p: Page)
    requires !(n.pages != [] && n.pages[|n.pages| - 1].id == p.id)
    ensures Push(n, p).pages == PushKept(n, p) + [p]
    ensures Push(n, p).log == PushLog(n, p) + [Attached(p), NavigatedTo(p)]
  {
    var log := n.log + if n.pages == [] then [] else [NavigatedFrom(n.pages[|n.pages| - 1])];
    assert log + [] == log;
  }

  /** What is kept has no page with the new ID, and is hidden. */
  lemma PushKeptHidden(n: Nav, p: Page)
    requires Lifecycle(n) && !(n.pages != [] && n.pages[|n.pages| - 1].id == p.id)
    ensures DistinctIds(PushKept(n, p))
    ensures forall k | 0 <= k < |PushKept(n, p)| ::
      PushKept(n, p)[k].id != p.id && Status(PushLog(n, p), PushKept(n, p)[k]) == Hidden
  {
    var i, kept := Find(n.pages, p.id, 0), PushKept(n, p);
    forall k | 0 <= k < |kept| ensures kept[k].id != p.id && Status(PushLog(n, p), kept[k]) == Hidden {
      var j := if k < i then k else k + 1;
      assert i == |n.pages| ==> k < i;
      assert kept[k] == n.pages[j];
      PushLogEffect(n, p, kept[k]);
    }
  }

  lemma PushKeepsLifecycle(n: Nav, p: Page)
    requires Lifecycle(n)
    ensures Lifecycle(Push(n, p))
  {
    if !(n.pages != [] && n.pages[|n.pages| - 1].id == p.id) {
      PushIs(n, p);
      PushKeptHidden(n, p);
      var kept := PushKept(n, p);
      forall k | 0 <= k < |kept| ensures Status(Push(n, p).log, kept[k]) == Hidden {
        ArrivalEffect(PushLog(n, p), p, kept[k]);
      }
      ArrivalEffect(PushLog(n, p), p, p);
    }
  }

  /** The pages a push removes. */
  function PushGone(n: Nav, p: Page): multiset<Page> {
    var i := Find(n.pages, p.id, 0);
    if i == |n.pages| then multiset{} else multiset{n.pages[i]}
  }

  lemma PushBags(n: Nav, p: Page)
    requires !(n.pages != [] && n.pages[|n.pages| - 1].id == p.id)
    ensures multiset(n.pages) == multiset(PushKept(n, p)) + PushGone(n, p)
    ensures Push(n, p).entered == n.entered + multiset{p} && Push(n, p).removed == n.removed + PushGone(n, p)
  {
    var i := Find(n.pages, p.id, 0);
    if i < |n.pages| {
      RemovedOne(n.pages, i);
    }
  }

  lemma PushConserves(n: Nav, p: Page)
    requires Conserved(n)
    ensures Conserved(Push(n, p))
  {
    if !(n.pages != [] && n.pages[|n.pages| - 1].id == p.id) {
      PushIs(n, p);
      PushBags(n, p);
      PushLogEffect(n, p, p);
      ArrivalEffect(PushLog(n, p), p, p);
      var n' := Push(n, p);
      assert multiset(n'.pages) == multiset(PushKept(n, p)) + multiset{p};
      forall x ensures ClosedIn(n'.log)[x] == if x.closable then n'.removed[x] else 0 {
        assert ClosedIn(n.log)[x] == if x.closable then n.removed[x] else 0;
      }
    }
  }

  lemma RemovedOne(ps: seq<Page>, i: nat)
    requires i < |ps|
    ensures multiset(ps) == multiset(Remove(ps, i)) + multiset{ps[i]}
  {
    assert ps == ps[..i] + [ps[i]] + ps[i + 1..];
  }

  // ---------------------------------------------------------------------------------------
  // Pop, PopAfter, Reset

  /** After pages gone were told farewell, page back (if any) is told that it is shown again. */
  function ReturnLog(log: seq<Event>, gone: seq<Page>, back: seq<Page>): seq<Event> {
    log + Farewells(gone) + if back == [] then [] else [NavigatedTo(back[|back| - 1])]
  }

  lemma ReturnEffect(log: seq<Event>, gone: seq<Page>, back: seq<Page>, x: Page)
    ensures Status(ReturnLog(log, gone, back), x) ==
      if back != [] && x == back[|back| - 1] then Shown else if x in gone then Hidden else Status(log, x)
    ensures ClosedIn(ReturnLog(log, gone, back))[x] == ClosedIn(log)[x] + if x.closable then multiset(gone)[x] else 0
  {
    var left := log + Farewells(gone);
    FarewellsEffect(log, gone, x);
    if back == [] {
      assert left + [] == left;
    } else {
      StatusSnoc(left, NavigatedTo(back[|back| - 1]), x);
      ClosedSnoc(left, NavigatedTo(back[|back| - 1]));
    }
  }

  /** Cutting the stack above some height, in the way both pops do. */
  function Cut(n: Nav, keep: nat): Nav
    requires keep <= |n.pages|
  {
    n.(pages := n.pages[..keep], log := ReturnLog(n.log, n.pages[keep..], n.pages[..keep]),
       removed := n.removed + multiset(n.pages[keep..]))
  }

  lemma CutKeepsLifecycle(n: Nav, keep: nat)
    requires keep <= |n.pages| && Lifecycle(n)
    ensures Lifecycle(Cut(n, keep))
  {
    var kept, gone := n.pages[..keep], n.pages[keep..];
    forall i | 0 <= i < keep
      ensures Status(Cut(n, keep).log, kept[i]) == if i == keep - 1 then Shown else Hidden
    {
      ReturnEffect(n.log, gone, kept, kept[i]);
      assert kept[i] == n.pages[i];
    }
  }

  lemma CutConserves(n: Nav, keep: nat)
    requires keep <= |n.pages| && Conserved(n)
    ensures Conserved(Cut(n, keep))
  {
    var kept, gone := n.pages[..keep], n.pages[keep..];
    assert n.pages == kept + gone;
    forall x ensures ClosedIn(Cut(n, keep).log)[x] == if x.closable then Cut(n, keep).removed[x] else 0 {
      ReturnEffect(n.log, gone, kept, x);
    }
  }

  lemma PopIsCut(n: Nav)
    requires n.pages != []
    ensures Pop(n) == Cut(n, |n.pages| - 1)
  {
    var l, top := |n.pages|, n.pages[|n.pages| - 1];
    assert n.pages[l - 1..] == [top];
    assert Farewells([top]) == Farewells([]) + Farewell(top) by { assert [top][..0] == []; }
    assert Farewells([top]) == Farewell(top);
  }

  lemma PopAfterIsCut(n: Nav, matcher: Page -> bool)
    requires FindBelow(n.pages, matcher, |n.pages|) != -1
    ensures PopAfter(n, matcher) == Cut(n, FindBelow(n.pages, matcher, |n.pages|) + 1)
  {
  }

  lemma PopKeeps(n: Nav)
    ensures Lifecycle(n) ==> Lifecycle(Pop(n))
    ensures Conserved(n) ==> Conserved(Pop(n))
  {
    if n.pages != [] {
      PopIsCut(n);
      CutKeeps(n, |n.pages| - 1);
    }
  }

  lemma CutKeeps(n: Nav, keep: nat)
    requires keep <= |n.pages|
    ensures Lifecycle(n) ==> Lifecycle(Cut(n, keep))
    ensures Conserved(n) ==> Conserved(Cut(n, keep))
  {
    if Lifecycle(n) {
      CutKeepsLifecycle(n, keep);
    }
    if Conserved(n) {
      CutConserves(n, keep);
    }
  }

  lemma PopAfterKeeps(n: Nav, matcher: Page -> bool)
    ensures Lifecycle(n) ==> Lifecycle(PopAfter(n, matcher))
    ensures Conserved(n) ==> Conserved(PopAfter(n, matcher))
  {
    var keep := FindBelow(n.pages, matcher, |n.pages|);
    if keep != -1 {
      CutKeeps(n, keep + 1);
      PopAfterIsCut(n, matcher);
      var cut := Cut(n, keep + 1);
      assert PopAfter(n, matcher) == cut;
    }
  }

  lemma ResetLog(n: Nav, ps: seq<Page>, x: Page)
    ensures Status(Reset(n, ps).log, x) ==
      if ps != [] && x == ps[|ps| - 1] then Shown else if x in n.pages then Hidden else Status(n.log, x)
    ensures ClosedIn(Reset(n, ps).log)[x] == ClosedIn(n.log)[x] + if x.closable then multiset(n.pages)[x] else 0
  {
    ReturnEffect(n.log, n.pages, ps, x);
  }

  /** A reset keeps the lifecycle exactly if the new IDs are distinct and every new page that starts
      out covered had been in the stack or hidden before: nobody else tells it that it is covered. */
  lemma ResetKeepsLifecycleIff(n: Nav, ps: seq<Page>)
    ensures Lifecycle(Reset(n, ps)) <==>
      DistinctIds(ps) && forall i | 0 <= i < |ps| - 1 :: ps[i] in n.pages || Status(n.log, ps[i]) == Hidden
  {
    forall i | 0 <= i < |ps|
      ensures Status(Reset(n, ps).log, ps[i]) ==
        if ps[i] == ps[|ps| - 1] then Shown else if ps[i] in n.pages then Hidden else Status(n.log, ps[i])
    {
      ResetLog(n, ps, ps[i]);
    }
    if DistinctIds(ps) {
      assert forall i | 0 <= i < |ps| - 1 :: ps[i].id != ps[|ps| - 1].id;
    }
  }

  lemma ResetConserves(n: Nav, ps: seq<Page>)
    requires Conserved(n)
    ensures Conserved(Reset(n, ps))
  {
    forall x ensures ClosedIn(Reset(n, ps).log)[x] == if x.closable then Reset(n, ps).removed[x] else 0 {
      ResetLog(n, ps, x);
    }
  }

  // ---------------------------------------------------------------------------------------
  // Whole runs

  ghost predicate SingleResets(ops: seq<Op>) {
    forall op | op in ops :: op.DoReset? ==> |op.newPages| <= 1
  }

  lemma StepKeepsLifecycle(n: Nav, op: Op)
    requires Lifecycle(n) && (op.DoReset? ==> |op.newPages| <= 1)
    ensures Lifecycle(Step(n, op))
  {
    match op
    case DoPush(p) => PushKeepsLifecycle(n, p);
    case DoPop => PopKeeps(n);
    case DoPopAfter(matcher) => PopAfterKeeps(n, matcher);
    case DoReset(ps) => ResetKeepsLifecycleIff(n, ps);
  }

  lemma StepConserves(n: Nav, op: Op)
    requires Conserved(n)
    ensures Conserved(Step(n, op))
  {
    match op
    case DoPush(p) => PushConserves(n, p);
    case DoPop => PopKeeps(n);
    case DoPopAfter(matcher) => PopAfterKeeps(n, matcher);
    case DoReset(ps) => ResetConserves(n, ps);
  }

  /** The lifecycle holds throughout every run whose resets bring at most one page. */
  lemma {:induction false} RunKeepsLifecycle(n: Nav, ops: seq<Op>)
    requires Lifecycle(n) && SingleResets(ops)
    ensures Lifecycle(Run(n, ops))
    decreases |ops|
  {
    if ops != [] {
      assert ops[0] in ops;
      var n1 := Step(n, ops[0]);
      StepKeepsLifecycle(n, ops[0]);
      RunKeepsLifecycle(n1, ops[1..]);
    }
  }

  /** Pages are conserved throughout every run. */
  lemma {:induction false} RunConserves(n: Nav, ops: seq<Op>)
    requires Conserved(n)
    ensures Conserved(Run(n, ops))
    decreases |ops|
  {
    if ops != [] {
      var n1 := Step(n, ops[0]);
      StepConserves(n, ops[0]);
      RunConserves(n1, ops[1..]);
    }
  }

  /** No operation reorders the pages it keeps: short of a reset, the pages below the new top are
      the old ones in their old order. */
  lemma OrderKept(n: Nav, op: Op, i: nat, j: nat) returns (i': nat, j': nat)
    requires !op.DoReset?
    requires i < j < |Step(n, op).pages| && (op.DoPush? ==> j < |Step(n, op).pages| - 1 || Step(n, op) == n)
    ensures i' < j' < |n.pages| && n.pages[i'] == Step(n, op).pages[i] && n.pages[j'] == Step(n, op).pages[j]
  {
    i', j' := i, j;
    if op.DoPush? && Step(n, op) != n {
      PushIs(n, op.page);
      var d := Find(n.pages, op.page.id, 0);
      i', j' := if i < d then i else i + 1, if j < d then j else j + 1;
    }
  }
}
