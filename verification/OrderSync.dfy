/** The exchange-order synchroniser (libwallet/instantswap/sync.go).  Every order
    that belongs to a server is looked up at that server, page by page, while the
    very records that are being paged through are rewritten. */
module OrderSync {
  const PAGE_SIZE: nat := 20
  const MAX_ATTEMPTS: nat := 3
  const INT32_LIMIT: nat := 0x8000_0000

  datatype Server = Server(name: string, apiKey: string)

  /** The zero value an order carries when it predates the exchange-server field. */
  const NoServer: Server := Server("", "")

  /** `legacy` is the old server-name field, `details` whatever the exchange reports. */
  datatype Order = Order(uuid: string, legacy: string, server: Server, details: int)

  /** One sweep over the stored orders on behalf of one server. */
  datatype Pass = Pass(queried: seq<string>, clean: bool)

  /** All sweeps made for one server. */
  datatype Visit = Visit(server: Server, passes: seq<Pass>)

  function AsInt32(n: nat): (r: int)
    ensures n < INT32_LIMIT ==> r == n
    ensures -0x8000_0000 <= r <= 0x7fff_ffff && (r - n) % 0x1_0000_0000 == 0
  {
    var low := n % (2 * INT32_LIMIT);
    if low < INT32_LIMIT then low else low - 2 * INT32_LIMIT
  }

  function Resolve(o: Order, keys: string -> string): Order {
    if o.server == NoServer then o.(server := Server(o.legacy, keys(o.legacy))) else o
  }

  /** The exchange an order is looked up at. */
  function ServerOf(o: Order, keys: string -> string): Server {
    Resolve(o, keys).server
  }

  /** The identifiers of the orders to look up at `s`, in storage order. */
  ghost function QueriesFor(orders: seq<Order>, s: Server, keys: string -> string): seq<string> {
    if orders == [] then []
    else
      var last := orders[|orders| - 1];
      QueriesFor(orders[..|orders| - 1], s, keys) + (if ServerOf(last, keys) == s then [last.uuid] else [])
  }

  /** Position of the record with this identifier. */
  function Find(orders: seq<Order>, uuid: string): (i: nat)
    ensures i <= |orders| && (i < |orders| ==> orders[i].uuid == uuid)
    ensures forall j :: 0 <= j < i ==> orders[j].uuid != uuid
  {
    if orders == [] || orders[0].uuid == uuid then 0
    else
      var i := Find(orders[1..], uuid);
      assert forall j :: 1 <= j < i + 1 ==> orders[j] == orders[1..][j - 1];
      i + 1
  }

  /** What a synchronisation may do to a stored order: refresh its details and fill
      in a missing server. */
  ghost predicate SameOrder(was: Order, now: Order, keys: string -> string) {
    now.uuid == was.uuid && now.legacy == was.legacy
    && (now.server == was.server || now.server == ServerOf(was, keys))
  }

  ghost predicate Kept(was: seq<Order>, now: seq<Order>, keys: string -> string) {
    |was| == |now|
    && forall i {:trigger now[i]} :: 0 <= i < |was| ==> SameOrder(was[i], now[i], keys)
  }

  /** A finished lookup: an order of `s` carries what the exchange answered, any other
      its old details.  When no save fails, a legacy order has its server as well. */
  ghost predicate Swept(was: Order, now: Order, s: Server, answers: string -> int, keys: string -> string,
                        reliable: bool)
  {
    now.details == (if ServerOf(was, keys) == s then answers(was.uuid) else was.details)
    && (reliable ==> now.server == ServerOf(was, keys))
  }

  ghost predicate SweptUpTo(was: seq<Order>, now: seq<Order>, n: nat, s: Server, answers: string -> int,
                            keys: string -> string, reliable: bool)
  {
    n <= |was| == |now|
    && forall j {:trigger now[j]} :: 0 <= j < n ==> Swept(was[j], now[j], s, answers, keys, reliable)
  }

  /** The pass over `s` has dealt with the first `n` orders. */
  ghost predicate Reached(was: seq<Order>, now: seq<Order>, n: nat, queried: seq<string>, s: Server,
                          answers: string -> int, keys: string -> string, reliable: bool)
  {
    Kept(was, now, keys) && Untouched(was, now, n)
    && SweptUpTo(was, now, n, s, answers, keys, reliable)
    && queried == QueriesFor(was[..n], s, keys)
  }

  /** What a clean pass over `s` comes to, order by order.  An order with a server is looked up once if
      that server is `s`, and else not at all.  A legacy order counts under its old name with the key
      configured for that name, and is completed accordingly unless saving it fails. */
  ghost predicate CleanlyChecked(was: seq<Order>, now: seq<Order>, s: Server, queried: seq<string>,
                                 answers: string -> int, keys: string -> string, reliable: bool)
  {
    |was| == |now|
    && forall i {:trigger now[i]} {:trigger was[i]} :: 0 <= i < |was| ==>
         var o, n := was[i], now[i];
         var lookups := multiset(queried)[o.uuid];
         && n.uuid == o.uuid && n.legacy == o.legacy
         && n.details == (if lookups == 0 then o.details else answers(o.uuid))
         && (o.server != Server("", "") ==> n.server == o.server && lookups == if o.server == s then 1 else 0)
         && (o.server == Server("", "") ==>
               && lookups == (if s == Server(o.legacy, keys(o.legacy)) then 1 else 0)
               && (n.server == o.server || n.server == Server(o.legacy, keys(o.legacy)))
               && (reliable ==> n.server == Server(o.legacy, keys(o.legacy))))
  }

  /** The records from position `n` on have not been written yet. */
  ghost predicate Untouched(was: seq<Order>, now: seq<Order>, n: nat) {
    |was| == |now| && forall j {:trigger now[j]} :: n <= j < |was| ==> now[j] == was[j]
  }

  ghost predicate OnPage(page: seq<Order>, was: seq<Order>, offset: nat) {
    offset + |page| <= |was| && forall j {:trigger page[j]} :: 0 <= j < |page| ==> page[j] == was[offset + j]
  }

  /** Every stored order names its exchange. */
  ghost predicate Upgraded(was: seq<Order>, now: seq<Order>, keys: string -> string) {
    |was| == |now| && forall j {:trigger now[j]} :: 0 <= j < |was| ==> now[j].server == ServerOf(was[j], keys)
  }

  ghost predicate DistinctIds(orders: seq<Order>) {
    forall i, j {:trigger orders[i], orders[j]} :: 0 <= i < j < |orders| ==> orders[i].uuid != orders[j].uuid
  }

  /** A clean pass looked up every order of the server; any other stopped early. */
  ghost predicate PassOver(p: Pass, orders: seq<Order>, s: Server, keys: string -> string) {
    p.queried <= QueriesFor(orders, s, keys)
    && (p.clean ==> p.queried == QueriesFor(orders, s, keys))
  }

  /** At most three passes, and none after a clean one. */
  ghost predicate VisitOver(v: Visit, orders: seq<Order>, keys: string -> string) {
    |v.passes| <= MAX_ATTEMPTS
    && (forall i {:trigger v.passes[i]} :: 0 <= i < |v.passes| ==> PassOver(v.passes[i], orders, v.server, keys))
    && forall i {:trigger v.passes[i]} :: 0 <= i < |v.passes| - 1 ==> !v.passes[i].clean
  }

  predicate Clean(v: Visit) {
    v.passes != [] && v.passes[|v.passes| - 1].clean
  }

  /** Three passes and none of them clean. */
  predicate GivenUp(v: Visit) {
    |v.passes| == MAX_ATTEMPTS && !Clean(v)
  }

  /** The servers a client can be built for, in the order they are tried. */
  ghost function Ready(servers: seq<Server>, opens: Server -> bool): seq<Server> {
    if servers == [] then []
    else
      var last := servers[|servers| - 1];
      Ready(servers[..|servers| - 1], opens) + (if opens(last) then [last] else [])
  }

  ghost function Visited(visits: seq<Visit>): (s: seq<Server>)
    ensures |s| == |visits|
  {
    seq(|visits|, i requires 0 <= i < |visits| => visits[i].server)
  }

  class InstantSwap {
    const keys: string -> string // configured API keys, by server name
    const opens: Server -> bool  // whether a client for the server can be built
    const reliable: bool         // neither the database nor an exchange fails
    const calm: bool             // nobody cancels
    var orders: seq<Order>       // newest first
    var syncing: bool
    var lastSynced: int
    var announced: nat           // "orders synced" events delivered

    constructor (keys: string -> string, opens: Server -> bool, reliable: bool, calm: bool,
                 orders: seq<Order>, lastSynced: int)
      ensures this.keys == keys && this.opens == opens && this.orders == orders
      ensures this.reliable == reliable && this.calm == calm
      ensures !syncing && this.lastSynced == lastSynced && announced == 0
    {
      this.keys, this.opens, this.orders, this.reliable, this.calm := keys, opens, orders, reliable, calm;
      syncing, this.lastSynced, announced := false, lastSynced, 0;
    }

    /** A database or exchange error: it can come at any call unless both are reliable. */
    method Fault() returns (fault: bool)
      ensures reliable ==> !fault
    {
      fault := *;
      fault := fault && !reliable;
    }

    /** A cancelled context: it can be seen at any check unless the run is calm. */
    method Cancelled() returns (cancelled: bool)
      ensures calm ==> !cancelled
    {
      cancelled := *;
      cancelled := cancelled && !calm;
    }

    /** One page of the stored orders; no offset or limit unless positive. */
    method GetOrdersRaw(offset: int, limit: int) returns (page: seq<Order>, failed: bool)
      ensures failed ==> page == [] && !reliable
      ensures !failed ==>
        var start := if offset <= 0 then 0 else if offset <= |orders| then offset else |orders|;
        start + |page| <= |orders| && page == orders[start..start + |page|]
        && (start + |page| == |orders| || |page| == limit) && (limit > 0 ==> |page| <= limit)
    {
      page := [];
      failed := Fault();
      if failed { return; }
      page := orders;
      if offset > 0 { page := if offset <= |page| then page[offset..] else []; }
      if 0 < limit <= |page| { page := page[..limit]; }
    }

    /** Overwrites the stored record with this identifier; the database may fail. */
    method UpdateOrder(order: Order, ghost i: nat) returns (failed: bool)
      requires i < |orders| && orders[i].uuid == order.uuid && DistinctIds(orders)
      modifies this`orders
      ensures orders == if failed then old(orders) else old(orders)[i := order]
      ensures reliable ==> !failed
    {
      failed := Fault();
      if failed { return; }
      orders := orders[Find(orders, order.uuid) := order];
    }

    /** Reads the record, asks the exchange about it and stores the answer. */
    method GetOrderInfo(uuid: string, answers: string -> int, ghost i: nat) returns (asked: bool, failed: bool)
      requires i < |orders| && orders[i].uuid == uuid && DistinctIds(orders)
      modifies this`orders
      ensures |orders| == |old(orders)|
      ensures forall j :: 0 <= j < |orders| && j != i ==> orders[j] == old(orders)[j]
      ensures !failed ==> asked && orders[i] == old(orders)[i].(details := answers(uuid))
      ensures failed ==> orders == old(orders) && !reliable
    {
      asked := false;
      failed := Fault();
      if failed { return; }
      var order := orders[Find(orders, uuid)];
      asked := true;
      failed := Fault();
      if failed { return; }
      failed := UpdateOrder(order.(details := answers(uuid)), i);
    }

    /** The body of the inner loop: complete a legacy order, look it up if it
        belongs to `s`.  A failure to save the completed record is only logged. */
    method CheckOrder(page: Order, s: Server, answers: string -> int, ghost i: nat) returns (asked: bool, failed: bool)
      requires i < |orders| && orders[i] == page && DistinctIds(orders)
      modifies this`orders
      ensures |orders| == |old(orders)|
      ensures forall j :: 0 <= j < |orders| && j != i ==> orders[j] == old(orders)[j]
      ensures SameOrder(page, orders[i], keys)
      ensures !failed ==> Swept(page, orders[i], s, answers, keys, reliable)
      ensures asked ==> ServerOf(page, keys) == s
      ensures failed ==> ServerOf(page, keys) == s && !reliable
      ensures !failed ==> asked == (ServerOf(page, keys) == s)
      ensures page.server != Server("", "") ==>
        orders[i].server == page.server && (!failed ==> (asked <==> page.server == s))
      ensures page.server == Server("", "") ==>
        && orders[i].server in {page.server, Server(page.legacy, keys(page.legacy))}
        && (reliable ==> orders[i].server == Server(page.legacy, keys(page.legacy)))
        && (!failed ==> (asked <==> s == Server(page.legacy, keys(page.legacy))))
    {
      var order := page;
      if order.server == NoServer {
        order := order.(server := Server(order.legacy, keys(order.legacy)));
        var ignored := UpdateOrder(order, i);
      }
      asked, failed := false, false;
      if order.server == s {
        asked, failed := GetOrderInfo(order.uuid, answers, i);
      }
    }

    /** One page, whose orders are stored from `offset` on; `sofar` has been asked already. */
    method CheckPage(page: seq<Order>, s: Server, answers: string -> int, sofar: seq<string>,
                     ghost was: seq<Order>, ghost offset: nat)
      returns (queried: seq<string>, failed: bool)
      requires DistinctIds(was) && OnPage(page, was, offset)
      requires Reached(was, orders, offset, sofar, s, answers, keys, reliable)
      modifies this`orders
      ensures Kept(was, orders, keys) && queried <= QueriesFor(was, s, keys)
      ensures !failed ==> Reached(was, orders, offset + |page|, queried, s, answers, keys, reliable)
      ensures failed ==> !reliable
    {
      queried, failed := sofar, false;
      QueriesForPrefix(was, offset, s, keys);
      var k := 0;
      while k < |page|
        invariant 0 <= k <= |page| && queried <= QueriesFor(was, s, keys)
        invariant Reached(was, orders, offset + k, queried, s, answers, keys, reliable)
      {
        ghost var n := offset + k;
        assert page[k] == was[n];
        var stopHere;
        queried, stopHere := CheckNext(page[k], s, answers, queried, was, n);
        if stopHere { return queried, true; }
        k := k + 1;
      }
    }

    /** The order at position `n`. */
    method CheckNext(order: Order, s: Server, answers: string -> int, sofar: seq<string>,
                     ghost was: seq<Order>, ghost n: nat)
      returns (queried: seq<string>, failed: bool)
      requires DistinctIds(was) && n < |was| && order == was[n]
      requires Reached(was, orders, n, sofar, s, answers, keys, reliable)
      modifies this`orders
      ensures Kept(was, orders, keys) && queried <= QueriesFor(was, s, keys)
      ensures !failed ==> Reached(was, orders, n + 1, queried, s, answers, keys, reliable)
      ensures failed ==> !reliable
    {
      assert orders[n] == was[n];
      KeptDistinct(was, orders, keys);
      QueriesForNext(was, n, s, keys);
      QueriesForPrefix(was, n, s, keys);
      QueriesForPrefix(was, n + 1, s, keys);
      ghost var mid := orders;
      var asked;
      asked, failed := CheckOrder(order, s, answers, n);
      KeptOneMore(was, mid, orders, n, keys);
      if !failed { SweptOneMore(was, mid, orders, n, s, answers, keys, reliable); }
      queried := if asked then sofar + [order.uuid] else sofar;
    }

    /** The page at `offset`; it is empty only at the end. */
    method NextPage(at: int, ghost was: seq<Order>, ghost offset: nat) returns (page: seq<Order>, failed: bool)
      requires at == offset <= |orders| && Untouched(was, orders, offset)
      ensures failed ==> !reliable
      ensures !failed ==> OnPage(page, was, offset) && |page| <= 20 && (|page| == 20 || offset + |page| == |was|)
    {
      page, failed := GetOrdersRaw(at, PAGE_SIZE);
      if !failed { SamePage(was, orders, page, offset); }
    }

    /** `answers` is what the exchange reports during this pass. */
    method CheckForUpdates(s: Server, answers: string -> int) returns (pass: Pass)
      requires DistinctIds(orders) && |orders| < INT32_LIMIT
      modifies this`orders
      ensures Kept(old(orders), orders, keys)
      ensures PassOver(pass, old(orders), s, keys)
      ensures pass.clean ==> SweptUpTo(old(orders), orders, |orders|, s, answers, keys, reliable)
      ensures pass.clean ==> CleanlyChecked(old(orders), orders, s, pass.queried, answers, keys, reliable)
      ensures calm && reliable ==> pass.clean
    {
      ghost var was := orders;
      var offset, queried := 0, [];
      KeptItself(was, keys);
      while true
        invariant 0 <= offset <= |was|
        invariant Reached(was, orders, offset, queried, s, answers, keys, reliable)
        decreases |was| - offset
      {
        ReachedPrefix(was, orders, offset, queried, s, answers, keys, reliable);
        var stopped := Cancelled();
        if stopped { return Pass(queried, false); }
        var page, failed := NextPage(AsInt32(offset), was, offset);
        if failed { return Pass(queried, false); }
        if |page| == 0 { break; }
        var stopHere;
        queried, stopHere := CheckPage(page, s, answers, queried, was, offset);
        if stopHere { return Pass(queried, false); }
        offset := offset + |page|;
      }
      AllReached(was, orders, queried, s, answers, keys, reliable);
      CheckedByFields(was, orders, s, queried, answers, keys, reliable);
      pass := Pass(queried, true);
    }

    /** Up to three passes; `stopped` stands for the application's shutdown. */
    method SyncServer(s: Server) returns (visit: Visit, failed: bool)
      requires DistinctIds(orders) && |orders| < INT32_LIMIT
      modifies this`orders
      ensures Kept(old(orders), orders, keys)
      ensures visit.server == s && VisitOver(visit, old(orders), keys)
      ensures failed <==> !Clean(visit)
      ensures |visit.passes| <= 3 && (calm && failed ==> |visit.passes| == 3)
      ensures calm && reliable ==> |visit.passes| == 1 && Clean(visit) && Upgraded(old(orders), orders, keys)
    {
      ghost var was := orders;
      var attempts := 0;
      visit, failed := Visit(s, []), true;
      KeptItself(was, keys);
      var stopped := Cancelled();
      if stopped { return; }
      while true
        invariant |visit.passes| == attempts <= MAX_ATTEMPTS && visit.server == s && failed
        invariant Kept(was, orders, keys) && VisitOver(visit, was, keys)
        invariant forall i {:trigger visit.passes[i]} :: 0 <= i < attempts ==> !visit.passes[i].clean
        invariant calm && reliable ==> attempts == 0
        decreases MAX_ATTEMPTS - attempts
      {
        stopped := Cancelled();
        if stopped { return; }
        attempts := attempts + 1;
        if attempts > MAX_ATTEMPTS { return; }
        KeptDistinct(was, orders, keys);
        KeptQueries(was, orders, s, keys);
        ghost var mid := orders;
        var answers: string -> int := *;
        var pass := CheckForUpdates(s, answers);
        KeptTwice(was, mid, orders, keys);
        if calm && reliable { SweptUpgrades(was, mid, orders, s, answers, keys); }
        visit := visit.(passes := visit.passes + [pass]);
        if pass.clean {
          failed := false;
          return;
        }
      }
    }

    /** A second synchronisation does nothing.  The timestamp and the event come
        only after a clean pass for every server a client could be built for. */
    method Sync(servers: seq<Server>, now: int) returns (visits: seq<Visit>, done: bool)
      requires DistinctIds(orders) && |orders| < INT32_LIMIT
      modifies this
      ensures old(syncing) ==> visits == [] && !done && orders == old(orders) && syncing
      ensures !old(syncing) ==> !syncing
      ensures Kept(old(orders), orders, keys)
      ensures forall v :: v in visits ==> VisitOver(v, old(orders), keys)
      ensures Visited(visits) <= Ready(servers, opens)
      ensures forall i {:trigger visits[i]} :: 0 <= i < |visits| - 1 ==> Clean(visits[i])
      ensures done ==> Visited(visits) == Ready(servers, opens) && forall v :: v in visits ==> Clean(v)
      ensures announced == old(announced) + (if done then 1 else 0)
      ensures lastSynced == old(lastSynced) || (done && lastSynced == now)
      ensures done && reliable ==> lastSynced == now
      ensures calm && !old(syncing) && !done ==> visits != [] && GivenUp(visits[|visits| - 1])
      ensures calm && reliable && !old(syncing) ==> done
      ensures calm && reliable && visits != [] ==> Upgraded(old(orders), orders, keys)
    {
      ghost var was := orders;
      visits, done := [], false;
      KeptItself(was, keys);
      ReadyPrefix(servers, 0, opens);
      if syncing { return; }
      syncing := true;
      var n := 0;
      while n < |servers|
        invariant 0 <= n <= |servers| && syncing && !done
        invariant Kept(was, orders, keys)
        invariant Visited(visits) == Ready(servers[..n], opens)
        invariant forall v :: v in visits ==> VisitOver(v, was, keys) && Clean(v)
        invariant announced == old(announced) && lastSynced == old(lastSynced)
        invariant calm && reliable && visits != [] ==> Upgraded(was, orders, keys)
      {
        ReadyPrefix(servers, n, opens);
        ReadyPrefix(servers, n + 1, opens);
        ReadyNext(servers, n, opens);
        var stopped := Cancelled();
        if stopped { syncing := false; return; }
        if opens(servers[n]) {
          KeptDistinct(was, orders, keys);
          ghost var mid := orders;
          var visit, failed := SyncServer(servers[n]);
          KeptTwice(was, mid, orders, keys);
          KeptVisit(was, mid, visit, keys);
          if calm && reliable { UpgradedAnyway(was, mid, orders, keys); }
          VisitedNext(visits, visit);
          visits := visits + [visit];
          if failed { syncing := false; return; }
        }
        n := n + 1;
      }
      assert servers[..n] == servers;
      var lost := Fault();
      if !lost { lastSynced := now; }
      announced := announced + 1;
      done := true;
      syncing := false;
    }
  }

  lemma VisitedNext(visits: seq<Visit>, v: Visit)
    ensures Visited(visits + [v]) == Visited(visits) + [v.server]
  {}

  lemma ReadyNext(servers: seq<Server>, n: nat, opens: Server -> bool)
    requires n < |servers|
    ensures Ready(servers[..n + 1], opens) ==
            Ready(servers[..n], opens) + (if opens(servers[n]) then [servers[n]] else [])
  {
    assert servers[..n + 1][..n] == servers[..n];
  }

  lemma KeptItself(orders: seq<Order>, keys: string -> string)
    ensures Kept(orders, orders, keys)
  {}

  lemma KeptTwice(a: seq<Order>, b: seq<Order>, c: seq<Order>, keys: string -> string)
    requires Kept(a, b, keys) && Kept(b, c, keys)
    ensures Kept(a, c, keys)
  {
    forall i | 0 <= i < |a| ensures SameOrder(a[i], c[i], keys) {
      assert SameOrder(a[i], b[i], keys) && SameOrder(b[i], c[i], keys);
    }
  }

  lemma KeptDistinct(was: seq<Order>, now: seq<Order>, keys: string -> string)
    requires Kept(was, now, keys) && DistinctIds(was)
    ensures DistinctIds(now)
  {
    forall i, j | 0 <= i < j < |now| ensures now[i].uuid != now[j].uuid {
      assert SameOrder(was[i], now[i], keys) && SameOrder(was[j], now[j], keys);
    }
  }

  /** Rewriting records as they are visited does not change which orders are looked up. */
  lemma {:induction false} KeptQueries(was: seq<Order>, now: seq<Order>, s: Server, keys: string -> string)
    requires Kept(was, now, keys)
    ensures QueriesFor(was, s, keys) == QueriesFor(now, s, keys)
  {
    if was != [] {
      var n := |was| - 1;
      assert SameOrder(was[n], now[n], keys);
      KeptQueries(was[..n], now[..n], s, keys);
    }
  }

  lemma KeptVisit(was: seq<Order>, now: seq<Order>, v: Visit, keys: string -> string)
    requires Kept(was, now, keys) && VisitOver(v, now, keys)
    ensures VisitOver(v, was, keys)
  {
    KeptQueries(was, now, v.server, keys);
    forall i | 0 <= i < |v.passes| ensures PassOver(v.passes[i], was, v.server, keys) {
      assert PassOver(v.passes[i], now, v.server, keys);
    }
  }

  lemma QueriesForNext(orders: seq<Order>, n: nat, s: Server, keys: string -> string)
    requires n < |orders|
    ensures QueriesFor(orders[..n + 1], s, keys) ==
            QueriesFor(orders[..n], s, keys) + (if ServerOf(orders[n], keys) == s then [orders[n].uuid] else [])
  {
    assert orders[..n + 1][..n] == orders[..n];
  }

  lemma {:induction false} QueriesForPrefix(orders: seq<Order>, n: nat, s: Server, keys: string -> string)
    requires n <= |orders|
    ensures QueriesFor(orders[..n], s, keys) <= QueriesFor(orders, s, keys)
    decreases |orders|
  {
    if n == |orders| {
      assert orders[..n] == orders;
    } else {
      var m := |orders| - 1;
      assert orders[..m][..n] == orders[..n];
      QueriesForPrefix(orders[..m], n, s, keys);
    }
  }

  lemma {:induction false} ReadyPrefix(servers: seq<Server>, n: nat, opens: Server -> bool)
    requires n <= |servers|
    ensures Ready(servers[..n], opens) <= Ready(servers, opens)
    decreases |servers|
  {
    if n == |servers| {
      assert servers[..n] == servers;
    } else {
      var m := |servers| - 1;
      assert servers[..m][..n] == servers[..n];
      ReadyPrefix(servers[..m], n, opens);
    }
  }

  lemma SamePage(was: seq<Order>, now: seq<Order>, page: seq<Order>, offset: nat)
    requires offset + |page| <= |now| && page == now[offset..offset + |page|] && Untouched(was, now, offset)
    ensures OnPage(page, was, offset)
  {
    forall j | 0 <= j < |page| ensures page[j] == was[offset + j] {
      assert page[j] == now[offset + j];
    }
  }

  lemma KeptOneMore(was: seq<Order>, mid: seq<Order>, now: seq<Order>, n: nat, keys: string -> string)
    requires n < |was| == |mid| == |now| && Kept(was, mid, keys) && Untouched(was, mid, n)
    requires SameOrder(was[n], now[n], keys)
    requires forall j :: 0 <= j < |now| && j != n ==> now[j] == mid[j]
    ensures Kept(was, now, keys) && Untouched(was, now, n + 1)
  {
    forall j | 0 <= j < |now| ensures SameOrder(was[j], now[j], keys) {
      assert j != n ==> now[j] == mid[j] && SameOrder(was[j], mid[j], keys);
    }
  }

  lemma ReachedPrefix(was: seq<Order>, now: seq<Order>, n: nat, queried: seq<string>, s: Server,
                      answers: string -> int, keys: string -> string, reliable: bool)
    requires n <= |was| && Reached(was, now, n, queried, s, answers, keys, reliable)
    ensures queried <= QueriesFor(was, s, keys)
  {
    QueriesForPrefix(was, n, s, keys);
  }

  lemma AllReached(was: seq<Order>, now: seq<Order>, queried: seq<string>, s: Server,
                   answers: string -> int, keys: string -> string, reliable: bool)
    requires Reached(was, now, |was|, queried, s, answers, keys, reliable)
    ensures queried == QueriesFor(was, s, keys)
  {
    assert was[..|was|] == was;
  }

  lemma SweptOneMore(was: seq<Order>, mid: seq<Order>, now: seq<Order>, n: nat, s: Server, answers: string -> int,
                     keys: string -> string, reliable: bool)
    requires n < |was| == |now| && SweptUpTo(was, mid, n, s, answers, keys, reliable)
    requires forall j :: 0 <= j < |now| && j != n ==> now[j] == mid[j]
    requires Swept(was[n], now[n], s, answers, keys, reliable)
    ensures SweptUpTo(was, now, n + 1, s, answers, keys, reliable)
  {
    forall j | 0 <= j < n ensures Swept(was[j], now[j], s, answers, keys, reliable) {
      assert now[j] == mid[j];
    }
  }

  lemma UpgradedAnyway(was: seq<Order>, mid: seq<Order>, now: seq<Order>, keys: string -> string)
    requires Kept(was, mid, keys) && Upgraded(mid, now, keys)
    ensures Upgraded(was, now, keys)
  {
    forall j | 0 <= j < |was| ensures now[j].server == ServerOf(was[j], keys) {
      assert SameOrder(was[j], mid[j], keys);
    }
  }

  lemma SweptUpgrades(was: seq<Order>, mid: seq<Order>, now: seq<Order>, s: Server, answers: string -> int,
                      keys: string -> string)
    requires Kept(was, mid, keys) && SweptUpTo(mid, now, |now|, s, answers, keys, true)
    ensures Upgraded(was, now, keys)
  {
    forall j | 0 <= j < |mid| ensures now[j].server == ServerOf(mid[j], keys) {
      assert Swept(mid[j], now[j], s, answers, keys, true);
    }
    UpgradedAnyway(was, mid, now, keys);
  }

  // ----- What a synchronisation amounts to -----

  lemma {:induction false} QueriesAreStored(orders: seq<Order>, s: Server, keys: string -> string, u: string)
    requires u in QueriesFor(orders, s, keys)
    ensures exists j {:trigger orders[j]} ::
              0 <= j < |orders| && orders[j].uuid == u && ServerOf(orders[j], keys) == s
  {
    var n := |orders| - 1;
    if u in QueriesFor(orders[..n], s, keys) {
      QueriesAreStored(orders[..n], s, keys, u);
      var j :| 0 <= j < n && orders[..n][j].uuid == u && ServerOf(orders[..n][j], keys) == s;
      assert orders[j] == orders[..n][j];
    } else {
      assert orders[n].uuid == u;
    }
  }

  lemma NotYetQueried(orders: seq<Order>, s: Server, keys: string -> string)
    requires DistinctIds(orders) && orders != []
    ensures orders[|orders| - 1].uuid !in QueriesFor(orders[..|orders| - 1], s, keys)
  {
    var n := |orders| - 1;
    if orders[n].uuid in QueriesFor(orders[..n], s, keys) {
      QueriesAreStored(orders[..n], s, keys, orders[n].uuid);
      assert false;
    }
  }

  /** A clean pass looks every order of its server up once and no other order at all. */
  lemma {:induction false} QueriedExactlyOnce(orders: seq<Order>, s: Server, keys: string -> string, i: nat)
    requires DistinctIds(orders) && i < |orders|
    ensures multiset(QueriesFor(orders, s, keys))[orders[i].uuid] == if ServerOf(orders[i], keys) == s then 1 else 0
    decreases |orders|
  {
    var n := |orders| - 1;
    var u := orders[i].uuid;
    QueriedOneMore(orders, s, keys, u);
    if i < n {
      assert orders[n].uuid != u;
      QueriedExactlyOnce(orders[..n], s, keys, i);
    } else {
      NotYetQueried(orders, s, keys);
    }
  }

  lemma QueriedOneMore(orders: seq<Order>, s: Server, keys: string -> string, u: string)
    requires orders != []
    ensures var n := |orders| - 1;
            multiset(QueriesFor(orders, s, keys))[u] == multiset(QueriesFor(orders[..n], s, keys))[u] +
              (if ServerOf(orders[n], keys) == s && orders[n].uuid == u then 1 else 0)
  {
    var n := |orders| - 1;
    CountAppended(QueriesFor(orders[..n], s, keys), if ServerOf(orders[n], keys) == s then [orders[n].uuid] else [], u);
  }

  lemma CountAppended<T>(a: seq<T>, b: seq<T>, x: T)
    ensures multiset(a + b)[x] == multiset(a)[x] + multiset(b)[x]
  {}

  lemma CheckedByFields(was: seq<Order>, now: seq<Order>, s: Server, queried: seq<string>,
                        answers: string -> int, keys: string -> string, reliable: bool)
    requires DistinctIds(was) && Kept(was, now, keys) && queried == QueriesFor(was, s, keys)
    requires SweptUpTo(was, now, |was|, s, answers, keys, reliable)
    ensures CleanlyChecked(was, now, s, queried, answers, keys, reliable)
  {
    forall i | 0 <= i < |was|
      ensures CleanlyChecked([was[i]], [now[i]], s, queried, answers, keys, reliable)
    {
      QueriedExactlyOnce(was, s, keys, i);
      assert SameOrder(was[i], now[i], keys) && Swept(was[i], now[i], s, answers, keys, reliable);
    }
    forall i | 0 <= i < |was| ensures [was[i]][0] == was[i] && [now[i]][0] == now[i] {}
  }

  /** Lookups follow the order of storage. */
  lemma {:induction false} QueriesInOrder(a: seq<Order>, b: seq<Order>, s: Server, keys: string -> string)
    ensures QueriesFor(a + b, s, keys) == QueriesFor(a, s, keys) + QueriesFor(b, s, keys)
  {
    if b == [] {
      assert a + b == a;
    } else {
      var n := |b| - 1;
      assert (a + b)[..|a| + n] == a + b[..n];
      QueriesInOrder(a, b[..n], s, keys);
    }
  }

  /** Any pass, clean or cut short, looks an order up at most once, and only at its own server. */
  lemma QueriedAtMostOnce(p: Pass, orders: seq<Order>, s: Server, keys: string -> string, i: nat)
    requires DistinctIds(orders) && i < |orders| && PassOver(p, orders, s, keys)
    ensures multiset(p.queried)[orders[i].uuid] <= if ServerOf(orders[i], keys) == s then 1 else 0
  {
    var all := QueriesFor(orders, s, keys);
    assert all == p.queried + all[|p.queried|..];
    QueriedExactlyOnce(orders, s, keys, i);
  }

  /** After a finished synchronisation the last pass at the order's server has looked
      the order up exactly once, and no other server was ever asked about it. */
  lemma SyncedExactlyOnce(visits: seq<Visit>, orders: seq<Order>, keys: string -> string, v: nat, i: nat)
    requires DistinctIds(orders) && i < |orders| && v < |visits|
    requires forall w :: w in visits ==> VisitOver(w, orders, keys) && Clean(w)
    requires forall a, b :: 0 <= a < b < |visits| ==> visits[a].server != visits[b].server
    requires visits[v].server == ServerOf(orders[i], keys)
    ensures visits[v].passes != []
    ensures multiset(visits[v].passes[|visits[v].passes| - 1].queried)[orders[i].uuid] == 1
    ensures forall w, p :: 0 <= w < |visits| && w != v && p in visits[w].passes ==> orders[i].uuid !in p.queried
  {
    assert visits[v] in visits;
    assert VisitOver(visits[v], orders, keys) && Clean(visits[v]);
    var last := |visits[v].passes| - 1;
    assert PassOver(visits[v].passes[last], orders, visits[v].server, keys);
    QueriedExactlyOnce(orders, visits[v].server, keys, i);
    forall w, p | 0 <= w < |visits| && w != v && p in visits[w].passes ensures orders[i].uuid !in p.queried {
      assert visits[w] in visits;
      QueriedAtMostOnce(p, orders, visits[w].server, keys, i);
    }
  }

  lemma {:induction false} ReadyExactly(servers: seq<Server>, opens: Server -> bool, s: Server)
    ensures s in Ready(servers, opens) <==> s in servers && opens(s)
  {
    if servers != [] {
      var n := |servers| - 1;
      ReadyExactly(servers[..n], opens, s);
      assert servers == servers[..n] + [servers[n]];
    }
  }

  /** No server is visited twice, as long as none is configured twice. */
  lemma {:induction false} ReadyDistinct(servers: seq<Server>, opens: Server -> bool)
    requires forall a, b :: 0 <= a < b < |servers| ==> servers[a] != servers[b]
    ensures forall a, b :: 0 <= a < b < |Ready(servers, opens)| ==>
              Ready(servers, opens)[a] != Ready(servers, opens)[b]
  {
    if servers != [] {
      var n := |servers| - 1;
      ReadyDistinct(servers[..n], opens);
      ReadyExactly(servers[..n], opens, servers[n]);
    }
  }
}
