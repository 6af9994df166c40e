/** The page stack: pages entering and leaving the display, and the callbacks they receive. */
module PageStacks {

  /** A page instance. Two instances may carry the same ID. */
  datatype Page = Page(instance: nat, id: string, closable: bool)

  datatype Event = Attached(page: Page) | NavigatedTo(page: Page) | NavigatedFrom(page: Page) | Closed(page: Page)

  /** The stack (top last), every callback delivered so far, and every entry and removal so far. */
  datatype Nav = Nav(pages: seq<Page>, log: seq<Event>, entered: multiset<Page>, removed: multiset<Page>)

  const EMPTY := Nav([], [], multiset{}, multiset{})

  /** What a page that leaves the stack for good is told. */
  function Farewell(p: Page): seq<Event> {
    [NavigatedFrom(p)] + if p.closable then [Closed(p)] else []
  }

  function Farewells(ps: seq<Page>): seq<Event> {
    if ps == [] then [] else Farewells(ps[..|ps| - 1]) + Farewell(ps[|ps| - 1])
  }

  /** The lowest position from i on that holds a page with this ID, or the height of the stack. */
  function Find(ps: seq<Page>, id: string, i: nat): (j: nat)
    requires i <= |ps|
    ensures i <= j <= |ps|
    ensures j < |ps| ==> ps[j].id == id
    ensures forall k | i <= k < j :: ps[k].id != id
    decreases |ps| - i
  {
    if i == |ps| || ps[i].id == id then i else Find(ps, id, i + 1)
  }

  function Remove(ps: seq<Page>, i: nat): seq<Page>
    requires i < |ps|
  {
    ps[..i] + ps[i + 1..]
  }

  function Push(n: Nav, p: Page): Nav {
    var ps := n.pages;
    if ps != [] && ps[|ps| - 1].id == p.id then n
    else
      var log := n.log + if ps == [] then [] else [NavigatedFrom(ps[|ps| - 1])];
      var arrival := [Attached(p), NavigatedTo(p)];
      var i := Find(ps, p.id, 0);
      if i == |ps| then Nav(ps + [p], log + arrival, n.entered + multiset{p}, n.removed)
      else Nav(Remove(ps, i) + [p], log + Farewell(ps[i]) + arrival,
               n.entered + multiset{p}, n.removed + multiset{ps[i]})
  }

  function Pop(n: Nav): Nav {
    var l := |n.pages|;
    if l == 0 then n
    else
      var top := n.pages[l - 1];
      n.(pages := n.pages[..l - 1],
         log := n.log + Farewell(top) + if l > 1 then [NavigatedTo(n.pages[l - 2])] else [],
         removed := n.removed + multiset{top})
  }

  /** The highest matching position below j, if any. */
  function FindBelow(ps: seq<Page>, matcher: Page -> bool, j: nat): (r: int)
    requires j <= |ps|
    ensures -1 <= r < j
    ensures r >= 0 ==> matcher(ps[r])
    ensures forall k | r < k < j :: !matcher(ps[k])
  {
    if j == 0 then -1 else if matcher(ps[j - 1]) then j - 1 else FindBelow(ps, matcher, j - 1)
  }

  function PopAfter(n: Nav, matcher: Page -> bool): Nav {
    var keep := FindBelow(n.pages, matcher, |n.pages|);
    if keep == -1 then n
    else n.(pages := n.pages[..keep + 1],
            log := n.log + Farewells(n.pages[keep + 1..]) + [NavigatedTo(n.pages[keep])],
            removed := n.removed + multiset(n.pages[keep + 1..]))
  }

  function Reset(n: Nav, ps: seq<Page>): Nav {
    Nav(ps,
        n.log + Farewells(n.pages) + if ps == [] then [] else [NavigatedTo(ps[|ps| - 1])],
        n.entered + multiset(ps), n.removed + multiset(n.pages))
  }

  lemma FarewellsNext(ps: seq<Page>, i: nat)
    requires i < |ps|
    ensures Farewells(ps[..i + 1]) == Farewells(ps[..i]) + Farewell(ps[i])
  {
    assert ps[..i + 1][..i] == ps[..i];
  }

  lemma BagNext(ps: seq<Page>, i: nat)
    requires i < |ps|
    ensures multiset(ps[..i + 1]) == multiset(ps[..i]) + multiset{ps[i]}
  {
    assert ps[..i + 1] == ps[..i] + [ps[i]];
  }

  class PageStack {
    var pages: seq<Page>
    var log: seq<Event>
    ghost var entered: multiset<Page>
    ghost var removed: multiset<Page>

    ghost function State(): Nav
      reads this
    {
      Nav(pages, log, entered, removed)
    }

    constructor ()
      ensures State() == EMPTY
    {
      pages, log, entered, removed := [], [], multiset{}, multiset{};
    }

    function Top(): Page
      requires pages != []
      reads this
    {
      pages[|pages| - 1]
    }

    /** Tells a page that it is removed. */
    method SayFarewell(p: Page)
      modifies this`log, this`removed
      ensures log == old(log) + Farewell(p) && removed == old(removed) + multiset{p}
    {
      log := log + [NavigatedFrom(p)];
      if p.closable {
        log := log + [Closed(p)];
      }
      removed := removed + multiset{p};
    }

    method SayFarewells(ps: seq<Page>)
      modifies this`log, this`removed
      ensures log == old(log) + Farewells(ps) && removed == old(removed) + multiset(ps)
    {
      for i := 0 to |ps|
        invariant log == old(log) + Farewells(ps[..i]) && removed == old(removed) + multiset(ps[..i])
      {
        FarewellsNext(ps, i);
        BagNext(ps, i);
        SayFarewell(ps[i]);
      }
      assert ps[..|ps|] == ps;
    }

    method PushAndNavigate(newPage: Page) returns (pushed: bool)
      modifies this
      ensures State() == Push(old(State()), newPage)
      ensures pushed <==> !(old(pages) != [] && old(pages)[|old(pages)| - 1].id == newPage.id)
    {
      if |pages| > 0 {
        if Top().id == newPage.id {
          return false;
        }
        log := log + [NavigatedFrom(Top())];
      }
      CloseDuplicate(newPage.id);
      Enter(newPage);
      pushed := true;
    }

    /** Puts a page on top, attaches it and tells it that it is shown. */
    method Enter(newPage: Page)
      modifies this`pages, this`log, this`entered
      ensures pages == old(pages) + [newPage] && entered == old(entered) + multiset{newPage}
      ensures log == old(log) + [Attached(newPage), NavigatedTo(newPage)]
    {
      pages := pages + [newPage];
      entered := entered + multiset{newPage};
      log := log + [Attached(newPage)];
      log := log + [NavigatedTo(newPage)];
    }

    /** Closes the first page with this ID, if there is one. */
    method CloseDuplicate(id: string)
      modifies this`pages, this`log, this`removed
      ensures var i := Find(old(pages), id, 0);
        if i == |old(pages)| then pages == old(pages) && log == old(log) && removed == old(removed)
        else pages == Remove(old(pages), i) && log == old(log) + Farewell(old(pages)[i])
             && removed == old(removed) + multiset{old(pages)[i]}
    {
      var i := 0;
      while i < |pages|
        invariant i <= |pages| && pages == old(pages) && log == old(log) && removed == old(removed)
        invariant Find(pages, id, 0) == Find(pages, id, i)
      {
        if pages[i].id == id {
          SayFarewell(pages[i]);
          pages := pages[..i] + pages[i + 1..];
          return;
        }
        i := i + 1;
      }
    }

    method PopTop() returns (popped: bool)
      modifies this
      ensures State() == Pop(old(State()))
      ensures popped <==> old(pages) != []
    {
      var l := |pages|;
      if l == 0 {
        return false;
      }
      SayFarewell(pages[l - 1]);
      pages := pages[..l - 1];
      if l > 1 {
        log := log + [NavigatedTo(pages[l - 2])];
      }
      popped := true;
    }

    method PopAfterMatch(matcher: Page -> bool) returns (popped: bool)
      modifies this
      ensures State() == PopAfter(old(State()), matcher)
      ensures popped <==> FindBelow(old(pages), matcher, |old(pages)|) >= 0
    {
      var retain := -1;
      var i := |pages| - 1;
      while i >= 0
        invariant -1 <= i < |pages| && retain == -1 && unchanged(this)
        invariant FindBelow(pages, matcher, i + 1) == FindBelow(pages, matcher, |pages|)
      {
        if matcher(pages[i]) {
          retain := i;
          break;
        }
        i := i - 1;
      }
      if retain == -1 {
        return false;
      }
      SayFarewells(pages[retain + 1..]);
      pages := pages[..retain + 1];
      log := log + [NavigatedTo(pages[retain])];
      popped := true;
    }

    method ResetTo(newPages: seq<Page>)
      modifies this
      ensures State() == Reset(old(State()), newPages)
    {
      SayFarewells(pages);
      pages := newPages;
      entered := entered + multiset(newPages);
      if |newPages| > 0 {
        log := log + [NavigatedTo(pages[|newPages| - 1])];
      }
    }
  }
}
