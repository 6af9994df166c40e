/** In which order pages are told things, over every run of the window. */
module PageCallbacks {
  import opened PageStacks
  import opened PageLifecycle
  import opened Windows

  /** A page that is closed has just been told that it is no longer shown. */
  ghost predicate HiddenBeforeClosed(log: seq<Event>) {
    forall i | 0 <= i < |log| && log[i].Closed? :: i > 0 && log[i - 1] == NavigatedFrom(log[i].page)
  }

  /** A page that is shown has been attached before. */
  ghost predicate AttachedBeforeShown(log: seq<Event>) {
    forall i | 0 <= i < |log| && log[i].NavigatedTo? :: Attached(log[i].page) in log[..i]
  }

  /** The pages that were attached, with multiplicity. */
  function AttachedIn(log: seq<Event>): multiset<Page> {
    if log == [] then multiset{}
    else
      var e := log[|log| - 1];
      AttachedIn(log[..|log| - 1]) + if e.Attached? then multiset{e.page} else multiset{}
  }

  /** Every entry into the stack was announced by one attachment, and callbacks come in order. */
  ghost predicate Told(n: Nav) {
    && HiddenBeforeClosed(n.log) && AttachedBeforeShown(n.log)
    && AttachedIn(n.log) == n.entered
    && forall p | p in n.pages :: Attached(p) in n.log
  }

  /** Callbacks of leaving pages only. */
  ghost predicate Leaving(seg: seq<Event>) {
    HiddenBeforeClosed(seg) && forall e | e in seg :: e.NavigatedFrom? || e.Closed?
  }

  lemma FarewellTells(p: Page)
    ensures Farewell(p) == if p.closable then [NavigatedFrom(p), Closed(p)] else [NavigatedFrom(p)]
    ensures Leaving(Farewell(p))
  {
  }

  lemma LeavingConcat(a: seq<Event>, b: seq<Event>)
    requires Leaving(a) && Leaving(b)
    ensures Leaving(a + b)
  {
    InOrderConcat(a, b);
  }

  lemma InOrderConcat(a: seq<Event>, b: seq<Event>)
    requires HiddenBeforeClosed(a) && HiddenBeforeClosed(b)
    ensures HiddenBeforeClosed(a + b)
  {
    forall i | 0 <= i < |a + b| && (a + b)[i].Closed?
      ensures i > 0 && (a + b)[i - 1] == NavigatedFrom((a + b)[i].page)
    {
      if i >= |a| { assert b[i - |a|].Closed?; }
    }
  }

  lemma {:induction false} FarewellsLeave(ps: seq<Page>)
    ensures Leaving(Farewells(ps))
  {
    if ps != [] {
      FarewellsLeave(ps[..|ps| - 1]);
      FarewellTells(ps[|ps| - 1]);
      LeavingConcat(Farewells(ps[..|ps| - 1]), Farewell(ps[|ps| - 1]));
    }
  }

  /** Leaving pages one group after the other leave in the order of the stack. */
  lemma {:induction false} FarewellsInOrder(a: seq<Page>, b: seq<Page>)
    ensures Farewells(a + b) == Farewells(a) + Farewells(b)
  {
    if b == [] {
      assert a + b == a;
    } else {
      var n := |b| - 1;
      assert (a + b)[..|a| + n] == a + b[..n];
      FarewellsInOrder(a, b[..n]);
    }
  }

  lemma AttachedSnoc(log: seq<Event>, e: Event)
    ensures AttachedIn(log + [e]) == AttachedIn(log) + if e.Attached? then multiset{e.page} else multiset{}
  {
    assert (log + [e])[..|log|] == log;
  }

  lemma {:induction false} AttachedInLeaving(log: seq<Event>, seg: seq<Event>)
    requires forall e | e in seg :: !e.Attached?
    ensures AttachedIn(log + seg) == AttachedIn(log)
    decreases |seg|
  {
    if seg == [] {
      assert log + seg == log;
    } else {
      var n := |seg| - 1;
      assert log + seg == log + seg[..n] + [seg[n]] && seg[n] in seg;
      AttachedInLeaving(log, seg[..n]);
      AttachedSnoc(log + seg[..n], seg[n]);
    }
  }

  /** The log part of the invariant. */
  ghost predicate Orderly(log: seq<Event>) {
    HiddenBeforeClosed(log) && AttachedBeforeShown(log)
  }

  lemma LeavingKeeps(log: seq<Event>, seg: seq<Event>)
    requires Orderly(log) && Leaving(seg)
    ensures Orderly(log + seg) && AttachedIn(log + seg) == AttachedIn(log)
  {
    InOrderConcat(log, seg);
    AttachedInLeaving(log, seg);
    assert forall j | 0 <= j < |seg| :: seg[j] in seg;
    forall i | 0 <= i < |log + seg| && (log + seg)[i].NavigatedTo?
      ensures Attached((log + seg)[i].page) in (log + seg)[..i]
    {
      assert (log + seg)[..i] == log[..i];
    }
  }

  lemma AttachKeeps(log: seq<Event>, p: Page)
    requires Orderly(log)
    ensures Orderly(log + [Attached(p)]) && AttachedIn(log + [Attached(p)]) == AttachedIn(log) + multiset{p}
  {
    var log' := log + [Attached(p)];
    assert log'[..|log|] == log;
    forall i | 0 <= i < |log'| && log'[i].NavigatedTo? ensures Attached(log'[i].page) in log'[..i] {
      assert log'[..i] == log[..i];
    }
  }

  lemma ShowKeeps(log: seq<Event>, p: Page)
    requires Orderly(log) && Attached(p) in log
    ensures Orderly(log + [NavigatedTo(p)]) && AttachedIn(log + [NavigatedTo(p)]) == AttachedIn(log)
  {
    var log' := log + [NavigatedTo(p)];
    assert log'[..|log|] == log;
    forall i | 0 <= i < |log'| && log'[i].NavigatedTo? ensures Attached(log'[i].page) in log'[..i] {
      assert i < |log| ==> log'[..i] == log[..i];
    }
  }

  /** What a push tells: the page on top goes, a page with the new ID goes for good, the new page is
      attached and shown, in this order. */
  lemma PushEvents(n: Nav, p: Page) returns (first: seq<Event>, second: seq<Event>)
    requires !(n.pages != [] && n.pages[|n.pages| - 1].id == p.id)
    ensures first == if n.pages == [] then [] else [NavigatedFrom(n.pages[|n.pages| - 1])]
    ensures if exists x | x in n.pages :: x.id == p.id
            then exists x | x in n.pages :: x.id == p.id && second == Farewell(x)
            else second == []
    ensures Push(n, p).log == n.log + first + second + [Attached(p)] + [NavigatedTo(p)]
    ensures Push(n, p).pages != [] && Push(n, p).pages[|Push(n, p).pages| - 1] == p
  {
    PushIs(n, p);
    var i := Find(n.pages, p.id, 0);
    first := if n.pages == [] then [] else [NavigatedFrom(n.pages[|n.pages| - 1])];
    second := if i == |n.pages| then [] else Farewell(n.pages[i]);
    var left := PushLog(n, p);
    assert left == n.log + first + second;
    assert left + [Attached(p)] + [NavigatedTo(p)] == left + [Attached(p), NavigatedTo(p)];
    if i < |n.pages| {
      assert n.pages[i] in n.pages;
    }
  }

  /** Going back to a page tells it that it is shown, even if no page was above it. */
  lemma PopAfterTells(n: Nav, matcher: Page -> bool)
    requires exists i :: 0 <= i < |n.pages| && matcher(n.pages[i])
    ensures var n' := PopAfter(n, matcher);
      && n'.pages != [] && n'.pages <= n.pages
      && matcher(n'.pages[|n'.pages| - 1]) && forall i | |n'.pages| <= i < |n.pages| :: !matcher(n.pages[i])
    ensures var n' := PopAfter(n, matcher);
      n'.log == n.log + Farewells(n.pages[|n'.pages|..]) + [NavigatedTo(n'.pages[|n'.pages| - 1])]
  {
    var keep := FindBelow(n.pages, matcher, |n.pages|);
    assert keep != -1;
  }

  lemma PushTells(n: Nav, p: Page)
    requires Told(n)
    ensures Told(Push(n, p))
  {
    if !(n.pages != [] && n.pages[|n.pages| - 1].id == p.id) {
      var first, second := PushEvents(n, p);
      EntryTells(n.log, first, second, p);
      PushEnters(n, p);
    }
  }

  lemma PushEnters(n: Nav, p: Page)
    requires !(n.pages != [] && n.pages[|n.pages| - 1].id == p.id)
    ensures Push(n, p).entered == n.entered + multiset{p}
    ensures forall x | x in Push(n, p).pages :: x == p || x in n.pages
  {
    PushIs(n, p);
    assert forall x | x in PushKept(n, p) :: x in n.pages;
  }

  lemma EntryTells(log: seq<Event>, first: seq<Event>, second: seq<Event>, p: Page)
    requires Orderly(log) && Leaving(first)
    requires second == [] || exists x :: second == Farewell(x)
    ensures var log' := log + first + second + [Attached(p)] + [NavigatedTo(p)];
      && Orderly(log') && AttachedIn(log') == AttachedIn(log) + multiset{p}
      && Attached(p) in log' && forall e | e in log :: e in log'
  {
    LeavingKeeps(log, first);
    if second != [] {
      var x :| second == Farewell(x);
      FarewellTells(x);
    }
    LeavingKeeps(log + first, second);
    AttachKeeps(log + first + second, p);
    ShowKeeps(log + first + second + [Attached(p)], p);
  }

  lemma ReturnTells(log: seq<Event>, gone: seq<Page>, back: seq<Page>)
    requires Orderly(log) && (back != [] ==> Attached(back[|back| - 1]) in log)
    ensures Orderly(ReturnLog(log, gone, back)) && AttachedIn(ReturnLog(log, gone, back)) == AttachedIn(log)
    ensures forall e | e in log :: e in ReturnLog(log, gone, back)
  {
    FarewellsLeave(gone);
    LeavingKeeps(log, Farewells(gone));
    var left := log + Farewells(gone);
    if back == [] {
      assert left + [] == left;
    } else {
      ShowKeeps(left, back[|back| - 1]);
    }
  }

  lemma CutTells(n: Nav, keep: nat)
    requires keep <= |n.pages| && Told(n)
    ensures Told(Cut(n, keep))
  {
    ReturnTells(n.log, n.pages[keep..], n.pages[..keep]);
  }

  lemma PopTells(n: Nav)
    requires Told(n)
    ensures Told(Pop(n))
  {
    if n.pages != [] {
      PopIsCut(n);
      CutTells(n, |n.pages| - 1);
    }
  }

  lemma CloseAfterTells(n: Nav, matcher: Page -> bool)
    requires Told(n)
    ensures Told(PopAfter(n, matcher))
  {
    var keep := FindBelow(n.pages, matcher, |n.pages|);
    if keep != -1 {
      PopAfterIsCut(n, matcher);
      CutTells(n, keep + 1);
    }
  }

  lemma ClearTells(n: Nav, p: Page)
    requires Told(n)
    ensures Told(Reset(n.(log := n.log + [Attached(p)]), [p]))
  {
    AttachKeeps(n.log, p);
    ReturnTells(n.log + [Attached(p)], n.pages, [p]);
  }

  lemma CloseAllTells(n: Nav)
    requires Told(n)
    ensures Told(Reset(n, []))
  {
    ReturnTells(n.log, n.pages, []);
  }

  /** Short of a reset, which attaches nobody. */
  lemma StepTells(n: Nav, op: Op)
    requires Told(n) && (op.DoReset? ==> op.newPages == [])
    ensures Told(Step(n, op))
  {
    match op
    case DoPush(p) => PushTells(n, p);
    case DoPop => PopTells(n);
    case DoPopAfter(matcher) => CloseAfterTells(n, matcher);
    case DoReset(ps) => CloseAllTells(n);
  }

  lemma EffectTells(n: Nav, c: Call)
    requires Told(n)
    ensures Told(Effect(n, c))
  {
    if c.CallClearAndDisplay? {
      ClearTells(n, c.page);
    } else {
      StepTells(n, AsOp(c));
    }
  }

  /** Over every run of the window from the start: no page is closed before it is told that it is hidden,
      none is shown before it is attached, and there are as many attachments as entries. */
  lemma {:induction false} WindowTells(n: Nav, calls: seq<Call>)
    requires Told(n)
    ensures Told(Effects(n, calls))
    decreases |calls|
  {
    if calls != [] {
      EffectTells(n, calls[0]);
      WindowTells(Effect(n, calls[0]), calls[1..]);
    }
  }

  lemma WindowTellsInOrder(calls: seq<Call>)
    ensures Told(Effects(EMPTY, calls))
  {
    WindowTells(EMPTY, calls);
  }
}
