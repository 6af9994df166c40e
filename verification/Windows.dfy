/** The window: page navigation on one page stack, and modals stacked over it. */
module Windows {
  import opened PageStacks
  import opened PageLifecycle

  datatype Modal = Modal(instance: nat, id: string)

  datatype ModalEvent = AttachedModal(modal: Modal) | Resumed(modal: Modal) | Dismissed(modal: Modal)

  /** The highest position below j that holds a modal with this ID, or -1. */
  function FindModal(ms: seq<Modal>, id: string, j: nat): (r: int)
    requires j <= |ms|
    ensures -1 <= r < j
    ensures r >= 0 ==> ms[r].id == id
    ensures forall k | r < k < j :: ms[k].id != id
  {
    if j == 0 then -1 else if ms[j - 1].id == id then j - 1 else FindModal(ms, id, j - 1)
  }

  function Dismiss(ms: seq<Modal>, id: string): seq<Modal> {
    var r := FindModal(ms, id, |ms|);
    if r == -1 then ms else ms[..r] + ms[r + 1..]
  }

  /** The modal a dismissal removes, as its OnDismiss callback. */
  function Goodbye(ms: seq<Modal>, id: string): seq<ModalEvent> {
    var r := FindModal(ms, id, |ms|);
    if r == -1 then [] else [Dismissed(ms[r])]
  }

  predicate HasPage(ps: seq<Page>, id: string) {
    exists i :: 0 <= i < |ps| && ps[i].id == id
  }

  lemma {:induction false} FindsPage(ps: seq<Page>, id: string, j: nat)
    requires j <= |ps|
    ensures FindBelow(ps, (p: Page) => p.id == id, j) >= 0 <==> HasPage(ps[..j], id)
  {
    if j > 0 {
      FindsPage(ps, id, j - 1);
      assert ps[..j][..j - 1] == ps[..j - 1];
      assert HasPage(ps[..j], id) <==> ps[j - 1].id == id || HasPage(ps[..j - 1], id) by {
        assert forall i | 0 <= i < j - 1 :: ps[..j][i] == ps[..j - 1][i];
      }
    }
  }

  class WindowNavigator {
    const subPages: PageStack
    var modals: seq<Modal>
    var modalLog: seq<ModalEvent>
    var reloads: nat

    constructor ()
      ensures fresh(subPages) && subPages.State() == EMPTY && modals == [] && modalLog == [] && reloads == 0
    {
      subPages := new PageStack();
      modals, modalLog, reloads := [], [], 0;
    }

    method Reload()
      modifies this`reloads
      ensures reloads == old(reloads) + 1
    {
      reloads := reloads + 1;
    }

    /** Displays a page; the display is reloaded unless the page already is on top. */
    method Display(newPage: Page)
      modifies this`reloads, subPages
      ensures subPages.State() == Effect(old(subPages.State()), CallDisplay(newPage))
      ensures reloads == old(reloads) + if old(subPages.pages != [] && subPages.Top().id == newPage.id) then 0 else 1
    {
      var pushed := subPages.PushAndNavigate(newPage);
      if pushed {
        Reload();
      }
    }

    method CloseCurrentPage()
      modifies this`reloads, subPages
      ensures subPages.State() == Effect(old(subPages.State()), CallCloseCurrent)
      ensures reloads == old(reloads) + if old(subPages.pages) == [] then 0 else 1
    {
      var popped := subPages.PopTop();
      if popped {
        Reload();
      }
    }

    method ClosePagesAfter(keepPageID: string)
      modifies this`reloads, subPages
      ensures subPages.State() == Effect(old(subPages.State()), CallCloseAfter(keepPageID))
      ensures reloads == old(reloads) + if HasPage(old(subPages.pages), keepPageID) then 1 else 0
    {
      FindsPage(subPages.pages, keepPageID, |subPages.pages|);
      var popped := subPages.PopAfterMatch((p: Page) => p.id == keepPageID);
      if popped {
        Reload();
      }
    }

    /** The new page is attached before the old ones are told that they leave. */
    method ClearStackAndDisplay(newPage: Page)
      modifies this`reloads, subPages
      ensures subPages.State() == Effect(old(subPages.State()), CallClearAndDisplay(newPage))
      ensures subPages.pages == [newPage]
      ensures subPages.log ==
        old(subPages.log) + [Attached(newPage)] + Farewells(old(subPages.pages)) + [NavigatedTo(newPage)]
      ensures reloads == old(reloads) + 1
    {
      subPages.log := subPages.log + [Attached(newPage)];
      subPages.ResetTo([newPage]);
      Reload();
    }

    method CloseAllPages()
      modifies this`reloads, subPages
      ensures subPages.State() == Effect(old(subPages.State()), CallCloseAll)
      ensures reloads == old(reloads) + 1
    {
      subPages.ResetTo([]);
      Reload();
    }

    method ShowModal(modal: Modal)
      modifies this`modals, this`modalLog, this`reloads
      ensures modals == old(modals) + [modal]
      ensures modalLog == old(modalLog) + [AttachedModal(modal), Resumed(modal)] && reloads == old(reloads) + 1
    {
      modals := modals + [modal];
      modalLog := modalLog + [AttachedModal(modal)];
      modalLog := modalLog + [Resumed(modal)];
      Reload();
    }

    method DismissModal(modalID: string)
      modifies this`modals, this`modalLog, this`reloads
      ensures modals == Dismiss(old(modals), modalID)
      ensures modalLog == old(modalLog) + Goodbye(old(modals), modalID)
      ensures reloads == old(reloads) + |Goodbye(old(modals), modalID)|
    {
      var found := -1;
      var i := |modals| - 1;
      while i >= 0
        invariant -1 <= i < |modals| && found == -1
        invariant FindModal(modals, modalID, i + 1) == FindModal(modals, modalID, |modals|)
      {
        if modals[i].id == modalID {
          found := i;
          break;
        }
        i := i - 1;
      }
      if found >= 0 {
        var dismissed := modals[found];
        modals := modals[..found] + modals[found + 1..];
        modalLog := modalLog + [Dismissed(dismissed)];
        Reload();
      }
    }

    function TopModal(): (top: Modal)
      requires modals != []
      reads this
    {
      modals[|modals| - 1]
    }

    /** Dismissing the top modal until none is left takes them off last in, first out. */
    method DismissAll()
      modifies this`modals, this`modalLog, this`reloads
      ensures modals == [] && modalLog == old(modalLog) + Dismissals(old(modals))
    {
      while modals != []
        invariant modals <= old(modals)
        invariant modalLog + Dismissals(modals) == old(modalLog) + Dismissals(old(modals))
        decreases |modals|
      {
        ghost var before := modals;
        DismissTop(modals);
        DismissModal(TopModal().id);
        assert modalLog + Dismissals(modals) == old(modalLog) + Dismissals(old(modals));
      }
    }
  }

  /** The dismissals that drain a modal stack from the top. */
  function Dismissals(ms: seq<Modal>): seq<ModalEvent> {
    if ms == [] then [] else [Dismissed(ms[|ms| - 1])] + Dismissals(ms[..|ms| - 1])
  }

  /** Dismissing by the top modal's ID removes the top modal itself. */
  lemma DismissTop(ms: seq<Modal>)
    requires ms != []
    ensures Dismiss(ms, ms[|ms| - 1].id) == ms[..|ms| - 1]
    ensures Goodbye(ms, ms[|ms| - 1].id) == [Dismissed(ms[|ms| - 1])]
  {
    assert ms[|ms|..] == [];
  }

  /** The drain order, position by position. */
  lemma {:induction false} LastInFirstOut(ms: seq<Modal>, i: nat)
    requires i < |ms|
    ensures |Dismissals(ms)| == |ms| && Dismissals(ms)[i] == Dismissed(ms[|ms| - 1 - i])
  {
    if |ms| > 1 {
      LastInFirstOut(ms[..|ms| - 1], if i == 0 then 0 else i - 1);
    }
  }

  /** A dismissal touches one instance: the top-most with that ID. The others keep their order. */
  lemma DismissFrame(ms: seq<Modal>, id: string, k: nat)
    requires k < |ms|
    ensures var r := FindModal(ms, id, |ms|);
      var kept := Dismiss(ms, id);
      if r == -1 then kept == ms
      else |kept| == |ms| - 1 && (k < r ==> kept[k] == ms[k]) && (k > r ==> kept[k - 1] == ms[k])
  {
  }

  lemma DismissOne(ms: seq<Modal>, id: string)
    ensures var r := FindModal(ms, id, |ms|);
      multiset(ms) == multiset(Dismiss(ms, id)) + if r == -1 then multiset{} else multiset{ms[r]}
  {
    var r := FindModal(ms, id, |ms|);
    if r >= 0 {
      assert ms == ms[..r] + [ms[r]] + ms[r + 1..];
    }
  }

  // ---------------------------------------------------------------------------------------
  // Runs of the window

  datatype Call =
    | CallDisplay(page: Page)
    | CallCloseCurrent
    | CallCloseAfter(id: string)
    | CallClearAndDisplay(page: Page)
    | CallCloseAll

  /** The stack operation behind a call. */
  function AsOp(c: Call): Op {
    match c
    case CallDisplay(p) => DoPush(p)
    case CallCloseCurrent => DoPop
    case CallCloseAfter(id) => DoPopAfter((p: Page) => p.id == id)
    case CallClearAndDisplay(p) => DoReset([p])
    case CallCloseAll => DoReset([])
  }

  function Effect(n: Nav, c: Call): Nav {
    Step(if c.CallClearAndDisplay? then n.(log := n.log + [Attached(c.page)]) else n, AsOp(c))
  }

  function Effects(n: Nav, calls: seq<Call>): Nav
    decreases |calls|
  {
    if calls == [] then n else Effects(Effect(n, calls[0]), calls[1..])
  }

  lemma AttachedIsNeutral(n: Nav, p: Page)
    ensures Lifecycle(n) ==> Lifecycle(n.(log := n.log + [Attached(p)]))
    ensures Conserved(n) ==> Conserved(n.(log := n.log + [Attached(p)]))
  {
    ClosedSnoc(n.log, Attached(p));
    forall x ensures Status(n.log + [Attached(p)], x) == Status(n.log, x) {
      StatusSnoc(n.log, Attached(p), x);
    }
  }

  lemma ClearKeeps(n: Nav, p: Page)
    requires Lifecycle(n) && Conserved(n)
    ensures Lifecycle(Effect(n, CallClearAndDisplay(p))) && Conserved(Effect(n, CallClearAndDisplay(p)))
  {
    var n1 := n.(log := n.log + [Attached(p)]);
    AttachedIsNeutral(n, p);
    StepKeepsLifecycle(n1, DoReset([p]));
    StepConserves(n1, DoReset([p]));
  }

  lemma EffectKeeps(n: Nav, c: Call)
    requires Lifecycle(n) && Conserved(n)
    ensures Lifecycle(Effect(n, c)) && Conserved(Effect(n, c))
  {
    if c.CallClearAndDisplay? {
      ClearKeeps(n, c.page);
    } else {
      var op := AsOp(c);
      StepKeepsLifecycle(n, op);
      StepConserves(n, op);
    }
  }

  /** The window only ever resets to at most one page, so it keeps both invariants on every run. */
  lemma {:induction false} WindowKeeps(n: Nav, calls: seq<Call>)
    requires Lifecycle(n) && Conserved(n)
    ensures Lifecycle(Effects(n, calls)) && Conserved(Effects(n, calls))
    decreases |calls|
  {
    if calls != [] {
      var n1 := Effect(n, calls[0]);
      EffectKeeps(n, calls[0]);
      WindowKeeps(n1, calls[1..]);
    }
  }

  /** In particular from the empty window. */
  lemma WindowInvariants(calls: seq<Call>)
    ensures Lifecycle(Effects(EMPTY, calls)) && Conserved(Effects(EMPTY, calls))
  {
    WindowKeeps(EMPTY, calls);
  }
}
