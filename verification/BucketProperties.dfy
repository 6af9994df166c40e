/** What callers of the driver may rely on, and the exact conditions where they may not. */
module BucketProperties {
  import opened Keys
  import opened BadgerStore
  import opened BucketLayout
  import opened BucketTree
  import opened BucketOps
  import opened BucketRun

  /** From the empty database, every run whose names follow the discipline and whose bucket
      prefixes are at most 255 bytes answers exactly as a tree of buckets. */
  lemma DriverIsTree(names: iset<Path>, buckets: iset<Path>, ops: seq<Op>)
    requires Disciplined(names, buckets)
    requires forall b | b in buckets :: |Flat(b)| <= 255
    requires forall op | op in ops :: Speaks(op, names)
    ensures FlatRun(State(map[], map[]), ops).1 == TreeRun(State(map[], map[]), ops).1
    ensures Simulates(names, TreeRun(State(map[], map[]), ops).0, FlatRun(State(map[], map[]), ops).0)
  {
    DisciplineIsNaming(names, buckets);
    RunSimulates(names, State(map[], map[]), State(map[], map[]), ops);
  }

  /** Every store any run can reach, whatever the names, satisfies the ownership invariant. */
  lemma {:induction false} RunOwned(s: State<Store>, ops: seq<Op>)
    requires WellOwned(s.committed) && WellOwned(s.view)
    ensures WellOwned(FlatRun(s, ops).0.committed) && WellOwned(FlatRun(s, ops).0.view)
    decreases |ops|
  {
    if ops != [] {
      StepOwned(s, ops[0]);
      RunOwned(FlatStep(s, ops[0]).0, ops[1..]);
    }
  }

  lemma StepOwned(s: State<Store>, op: Op)
    requires WellOwned(s.committed) && WellOwned(s.view)
    ensures WellOwned(FlatStep(s, op).0.committed) && WellOwned(FlatStep(s, op).0.view)
  {
    match op
    case CreateTop(name) => WritesAreOwned(name, [], []);
    case CreateNested(at, name, _) => WritesAreOwned(Flat(at), name, []);
    case Put(at, name, value) => WritesAreOwned(Flat(at), name, value);
    case _ =>
  }

  /** A marker that owns itself, as the marker of a top-level bucket does. */
  predicate OwnsItself(m: Store, k: Key) {
    k in m && ItemOwned(k, m[k]) && Owner(k, m[k]) == k
  }

  lemma OwnsItselfStep(s: State<Store>, op: Op, k: Key)
    requires OwnsItself(FlatStep(s, op).0.view, k) || OwnsItself(FlatStep(s, op).0.committed, k)
    ensures OwnsItself(s.view, k) || OwnsItself(s.committed, k) || op == CreateTop(k)
  {
    match op
    case CreateNested(at, name, _) => if name != [] { EntryIsNoTop(Flat(at), name, []); }
    case Put(at, name, value) => if name != [] { EntryIsNoTop(Flat(at), name, value); }
    case _ =>
  }

  lemma EntryIsNoTop(prefix: Key, name: Key, value: seq<byte>)
    requires name != []
    ensures Owner(prefix + name, Marker(|prefix|)) != prefix + name
    ensures Owner(prefix + name, Leaf(value, |prefix|)) != prefix + name
  {
  }

  lemma {:induction false} OwnsItselfOrigin(s: State<Store>, ops: seq<Op>, k: Key)
    requires OwnsItself(FlatRun(s, ops).0.view, k) || OwnsItself(FlatRun(s, ops).0.committed, k)
    ensures OwnsItself(s.view, k) || OwnsItself(s.committed, k) || CreateTop(k) in ops
    decreases |ops|
  {
    if ops != [] {
      OwnsItselfOrigin(FlatStep(s, ops[0]).0, ops[1..], k);
      if CreateTop(k) !in ops {
        OwnsItselfStep(s, ops[0], k);
      }
    }
  }

  /** From the empty database, an owner byte spans its whole key for top-level markers only: the key
      is a marker, and it is the name of a top-level bucket the run has created. */
  lemma OnlyTopsOwnThemselves(ops: seq<Op>, k: Key)
    requires OwnsItself(FlatRun(State(map[], map[]), ops).0.view, k)
    ensures FlatRun(State(map[], map[]), ops).0.view[k].isBucket && CreateTop(k) in ops
  {
    RunOwned(State(map[], map[]), ops);
    OwnsItselfOrigin(State(map[], map[]), ops, k);
  }

  // ---------------------------------------------------------------------------------------
  // Put and Get

  /** Can the call change what is stored at q in the transaction's view? */
  predicate Touches(op: Op, q: Path) {
    match op
    case Put(at, name, _) => q == In(at, name)
    case Delete(at, name) => q == In(at, name)
    case DropNested(at, name) => q == Target(at, name) || IsChild(q, Target(at, name))
    case DeleteTop(name) => q == Top(name) || IsChild(q, Top(name))
    case Rollback => true
    case _ => false
  }

  lemma {:induction false} UntouchedRun(s: State<Tree>, ops: seq<Op>, q: Path)
    requires q in s.view
    requires forall op | op in ops :: !Touches(op, q)
    ensures q in TreeRun(s, ops).0.view && TreeRun(s, ops).0.view[q] == s.view[q]
    decreases |ops|
  {
    if ops != [] {
      UntouchedStep(s, ops[0], q);
      UntouchedRun(TreeStep(s, ops[0]).0, ops[1..], q);
    }
  }

  lemma UntouchedStep(s: State<Tree>, op: Op, q: Path)
    requires q in s.view && !Touches(op, q)
    ensures q in TreeStep(s, op).0.view && TreeStep(s, op).0.view[q] == s.view[q]
  {
    match op
    case DropNested(at, name) => assert q !in ChildPaths(s.committed, Target(at, name));
    case DeleteTop(name) => assert q !in ChildPaths(s.view, Top(name));
    case _ =>
  }

  /** What the tree holds at a path is what Get answers after any run that leaves the path alone. */
  lemma UntouchedGet(names: iset<Path>, tree: State<Tree>, flat: State<Store>, at: Path, name: Key, ops: seq<Op>)
    requires Naming(names) && Simulates(names, tree, flat) && at in names && In(at, name) in names
    requires |name| <= MAX_KEY_SIZE && In(at, name) in tree.view && tree.view[In(at, name)].Content?
    requires forall op | op in ops :: Speaks(op, names) && !Touches(op, In(at, name))
    ensures FlatStep(FlatRun(flat, ops).0, Get(at, name)).1 == Found(tree.view[In(at, name)].value)
  {
    assert Named(In(at, name), names);
    UntouchedRun(tree, ops, In(at, name));
    RunSimulates(names, tree, flat, ops);
    StepLookups(names, TreeRun(tree, ops).0, FlatRun(flat, ops).0, at, name);
  }

  /** Get returns the last value Put, however many other calls, commits included, come between. */
  lemma LastPutWins(names: iset<Path>, tree: State<Tree>, flat: State<Store>,
                    at: Path, name: Key, value: seq<byte>, ops: seq<Op>)
    requires Naming(names) && Simulates(names, tree, flat)
    requires name != [] && |name| <= MAX_KEY_SIZE && at in names && In(at, name) in names
    requires forall op | op in ops :: Speaks(op, names) && !Touches(op, In(at, name))
    ensures FlatStep(FlatRun(FlatStep(flat, Put(at, name, value)).0, ops).0, Get(at, name)).1 == Found(value)
  {
    StepSimulates(names, tree, flat, Put(at, name, value));
    UntouchedGet(names, TreeStep(tree, Put(at, name, value)).0, FlatStep(flat, Put(at, name, value)).0, at, name, ops);
  }

  /** So deleting a bucket does not delete what its nested buckets hold: re-creating the two buckets
      brings an entry of the nested one back. */
  lemma DeletedContentsReturn(names: iset<Path>, tree: State<Tree>, flat: State<Store>,
                              a: Key, b: Key, name: Key, value: seq<byte>)
    requires Naming(names) && Simulates(names, tree, flat)
    requires name != [] && |name| <= MAX_KEY_SIZE && In(In(Top(a), b), name) in names
    ensures var at := In(Top(a), b);
      var ops := [DeleteTop(a), CreateTop(a), CreateNested(Top(a), b, true)];
      FlatStep(FlatRun(FlatStep(flat, Put(at, name, value)).0, ops).0, Get(at, name)).1 == Found(value)
  {
    assert Named(In(In(Top(a), b), name), names) && Named(In(Top(a), b), names) && Named(Top(a), names);
    LastPutWins(names, tree, flat, In(Top(a), b), name, value,
                [DeleteTop(a), CreateTop(a), CreateNested(Top(a), b, true)]);
  }

  /** Writing one flat key leaves a bucket's contents alone unless that key is, or becomes, its entry. */
  lemma ListingFrame(m: Store, k: Key, item: Item, q: Key)
    requires !IsDirect(m, k, q) && !IsDirect(m[k := item], k, q)
    ensures Listing(m[k := item], q) == Listing(m, q)
  {
    var m' := m[k := item];
    SameDirect(m, m', q);
  }

  lemma SameDirect(m: Store, m': Store, q: Key)
    requires forall k :: IsDirect(m, k, q) <==> IsDirect(m', k, q)
    requires forall k | IsDirect(m, k, q) && IsDirect(m', k, q) :: m[k] == m'[k]
    ensures Listing(m, q) == Listing(m', q)
  {
    forall n ensures n in ChildNames(m, q) <==> n in ChildNames(m', q) {
      ChildName(m, q, n);
      ChildName(m', q, n);
    }
    assert ChildNames(m, q) == ChildNames(m', q);
    ListingByName(m, q);
    ListingByName(m', q);
  }

  /** Whatever the names: a Put through one bucket shows in another bucket's listing exactly if the
      flat key it writes already is an entry of that other bucket. */
  lemma PutDisturbsIff(m: Store, prefix: Key, key: Key, value: seq<byte>, q: Key)
    requires key != [] && |key| <= MAX_KEY_SIZE && |prefix| <= 255 && q != prefix
    ensures Listing(FlatPut(m, prefix, key, value).0, q) != Listing(m, q) <==> IsDirect(m, prefix + key, q)
  {
    var k := prefix + key;
    var m' := FlatPut(m, prefix, key, value).0;
    assert Owner(k, m'[k]) == prefix;
    if IsDirect(m, k, q) {
      var n := k[|q|..];
      assert q + n == k;
      ChildName(m, q, n);
      ChildName(m', q, n);
      ListingByName(m, q);
      ListingByName(m', q);
      var names, names' := Sorted(ChildNames(m, q)), Sorted(ChildNames(m', q));
      SortedAscends(ChildNames(m, q));
      SortedAscends(ChildNames(m', q));
      assert n in names && n !in names';
      var i :| 0 <= i < |names| && names[i] == n;
      if i < |names'| {
        assert names'[i] in names';
        assert Listing(m, q)[i].0 != Listing(m', q)[i].0;
      }
    } else {
      ListingFrame(m, k, m'[k], q);
    }
  }

  /** Such a collision needs no long names: bucket "a" with a nested bucket "b" owns, under the key
      "bc", the same flat key as the nested bucket does under "c". */
  lemma CollisionExists()
    ensures var a: Key, b: Key, c: Key := [97], [98], [99];
      var nested := In(Top(a), b);
      var (_, replies) := FlatRun(State(map[], map[]),
        [CreateTop(a), CreateNested(Top(a), b, true), Put(nested, c, [1]), Put(Top(a), b + c, [2]), Get(nested, c)]);
      replies == [Opened, Opened, Done, Done, Found([2])]
  {
    var a: Key, b: Key, c: Key := [97], [98], [99];
    var nested := In(Top(a), b);
    var s0: State<Store> := State(map[], map[]);
    var s1, s2 := FlatStep(s0, CreateTop(a)).0, FlatStep(FlatStep(s0, CreateTop(a)).0, CreateNested(Top(a), b, true)).0;
    assert FlatStep(s0, CreateTop(a)).1 == Opened;
    assert FlatStep(s1, CreateNested(Top(a), b, true)).1 == Opened by { assert a + b != a; }
    LastThree(s2, a, b, c);
    var rest := [Put(nested, c, [1]), Put(Top(a), b + c, [2]), Get(nested, c)];
    RunOne(s1, CreateNested(Top(a), b, true), rest, [Done, Done, Found([2])]);
    RunOne(s0, CreateTop(a), [CreateNested(Top(a), b, true)] + rest, [Opened, Done, Done, Found([2])]);
    assert [CreateTop(a)] + ([CreateNested(Top(a), b, true)] + rest)
      == [CreateTop(a), CreateNested(Top(a), b, true), Put(nested, c, [1]), Put(Top(a), b + c, [2]), Get(nested, c)];
  }

  lemma LastThree(s: State<Store>, a: Key, b: Key, c: Key)
    requires b != [] && c != [] && |b + c| <= MAX_KEY_SIZE
    ensures var nested := In(Top(a), b);
      FlatRun(s, [Put(nested, c, [1]), Put(Top(a), b + c, [2]), Get(nested, c)]).1 == [Done, Done, Found([2])]
  {
    var nested := In(Top(a), b);
    var s1 := FlatStep(s, Put(nested, c, [1])).0;
    var s2 := FlatStep(s1, Put(Top(a), b + c, [2])).0;
    SameFlatKey(s1.view, a, b, c, [2]);
    RunOne(s2, Get(nested, c), [], []);
    RunOne(s1, Put(Top(a), b + c, [2]), [Get(nested, c)], [Found([2])]);
    var rest := [Put(Top(a), b + c, [2]), Get(nested, c)];
    RunOne(s, Put(nested, c, [1]), rest, [Done, Found([2])]);
    assert [Put(nested, c, [1])] + rest == [Put(nested, c, [1]), Put(Top(a), b + c, [2]), Get(nested, c)];
  }

  lemma SameFlatKey(m: Store, a: Key, b: Key, c: Key, value: seq<byte>)
    requires b != [] && c != [] && |b + c| <= MAX_KEY_SIZE
    ensures FlatGet(FlatPut(m, a, b + c, value).0, a + b, c) == Found(value)
  {
    assert a + b + c == a + (b + c);
  }

  lemma RunOne(s: State<Store>, op: Op, ops: seq<Op>, replies: seq<Reply>)
    requires FlatRun(FlatStep(s, op).0, ops).1 == replies
    ensures FlatRun(s, [op] + ops).1 == [FlatStep(s, op).1] + replies
  {
    assert ([op] + ops)[1..] == ops;
  }

  /** An entry that was just Put is found by the bucket's scans exactly if the prefix fits its byte. */
  lemma PutVisibleIffShort(m: Store, prefix: Key, key: Key, value: seq<byte>)
    requires key != [] && |key| <= MAX_KEY_SIZE
    ensures prefix + key in DirectKeys(FlatPut(m, prefix, key, value).0, prefix) <==> |prefix| <= 255
    ensures FlatGet(FlatPut(m, prefix, key, value).0, prefix, key) == Found(value)
  {
  }

  /** Under a longer prefix the entry shows up in the bucket that the truncated length names. */
  lemma LongPrefixOwner(m: Store, prefix: Key, key: Key, value: seq<byte>)
    requires key != [] && |key| <= 65378
    ensures prefix + key in DirectKeys(FlatPut(m, prefix, key, value).0, prefix[..|prefix| % 256])
  {
    var k, m' := prefix + key, FlatPut(m, prefix, key, value).0;
    assert Owner(k, m'[k]) == k[..|prefix| % 256] == prefix[..|prefix| % 256];
    assert |prefix[..|prefix| % 256]| < |k|;
  }

  /** Keys of 1 to 65378 bytes are accepted, and no others. */
  lemma AcceptedKeys(m: Store, prefix: Key, key: Key, value: seq<byte>)
    ensures 1 <= |key| <= 65378 <==> FlatPut(m, prefix, key, value).1 == Done
    ensures !(1 <= |key| <= 65378) ==>
      && FlatPut(m, prefix, key, value) == (m, Failed(Invalid))
      && FlatCreateNested(m, prefix, key, false) == (m, Failed(Invalid))
      && FlatGet(m, prefix, key) == Absent
    ensures 1 <= |key| <= 65378 && prefix + key !in m ==> FlatCreateNested(m, prefix, key, true).1 == Opened
    ensures |key| > 65378 ==>
      FlatOpenNested(m, prefix, key) == Absent && FlatDelete(m, prefix, key) == (m, Failed(Invalid))
  {
  }

  /** The flat key of a plain entry is refused wherever a bucket is asked for, at the top and below, and
      the refusal changes nothing. */
  lemma EntryIsNoBucket(s: State<Store>, prefix: Key, key: Key, value: seq<byte>)
    requires 1 <= |key| <= 65378
    ensures var m := FlatPut(s.view, prefix, key, value).0;
      && FlatOpen(m, prefix + key) == Absent && FlatOpenNested(m, prefix, key) == Absent
      && FlatCreateTop(m, prefix + key) == (m, Failed(Invalid))
      && FlatDeleteTop(m, prefix + key) == (m, Failed(Invalid))
      && FlatCreateNested(m, prefix, key, false) == (m, Failed(Invalid))
      && FlatDrop(s.(view := m), prefix, key) == (s.(view := m), Failed(Invalid))
  {
  }

  /** What is missing is reported as missing, what exists as existing, and an empty top-level name is
      refused; none of this changes anything. */
  lemma RefusalsOf(s: State<Store>, prefix: Key, key: Key)
    requires 1 <= |key| <= 65378
    ensures var m := s.view;
      var k := prefix + key;
      && (k !in m ==> FlatDrop(s, prefix, key) == (s, Failed(NotExist)) && FlatDeleteTop(m, k) == (m, Failed(NotExist)))
      && (k !in m ==> FlatGet(m, prefix, key) == Absent && FlatOpen(m, k) == Absent)
      && (k !in m ==> FlatDelete(m, prefix, key) == (m, Done))
      && (k in m && m[k].isBucket ==>
           && FlatCreateNested(m, prefix, key, true) == (m, Failed(Exist))
           && FlatCreateNested(m, prefix, key, false) == (m, Opened))
      && FlatCreateTop(m, []) == (m, Failed(Invalid)) && FlatDeleteTop(m, []) == (m, Failed(Invalid))
      && FlatOpen(m, []) == Absent && FlatDelete(m, prefix, []) == (m, Done)
  {
    assert prefix + key !in s.view ==> s.view - {prefix + key} == s.view;
  }

  /** The flat key of a nested bucket opens at the top too. */
  lemma NestedOpensAtTop(m: Store, prefix: Key, key: Key)
    requires 1 <= |key| <= 65378 && prefix + key !in m
    ensures var m' := FlatCreateNested(m, prefix, key, true).0;
      FlatOpen(m', prefix + key) == Opened && FlatCreateTop(m', prefix + key) == (m', Opened)
  {
  }

  // ---------------------------------------------------------------------------------------
  // Deleting buckets

  /** Is q inside p's bucket, at any depth? */
  predicate Below(q: Path, p: Path) {
    q.In? && (q.parent == p || Below(q.parent, p))
  }

  function Subtree(t: Tree, p: Path): set<Path> {
    set q | q in t && (q == p || Below(q, p))
  }

  /** Deleting a bucket deletes its whole subtree exactly if no bucket directly inside it has contents. */
  lemma DeleteTopIsSubtreeIff(s: State<Tree>, name: Key)
    requires name != [] && Top(name) in s.view
    ensures TreeStep(s, DeleteTop(name)).0.view == s.view - Subtree(s.view, Top(name))
      <==> forall q | q in s.view && q.In? && Below(q.parent, Top(name)) :: false
  {
    var p := Top(name);
    var t := s.view;
    forall q | q in t ensures Below(q, p) <==> IsChild(q, p) || (q.In? && Below(q.parent, p)) {}
    if q :| q in t && q.In? && Below(q.parent, p) {
      assert q in t - ChildPaths(t, p) - {p};
      assert q !in t - Subtree(t, p);
    } else {
      assert ChildPaths(t, p) + {p} == Subtree(t, p);
      assert t - ChildPaths(t, p) - {p} == t - Subtree(t, p);
    }
  }

  /** Dropping a nested bucket removes its whole subtree from the view exactly if everything in the
      bucket lies directly inside it and is durable. Where the view is the durable tree that is again
      the condition that no bucket directly inside it has contents. */
  lemma DropIsSubtreeIff(s: State<Tree>, at: Path, name: Key)
    requires TreeStep(s, DropNested(at, name)).1 == Done
    ensures var p := Target(at, name);
      var exact := TreeStep(s, DropNested(at, name)).0.view == s.view - Subtree(s.view, p);
      && (exact <==> forall q | q in s.view && Below(q, p) :: IsChild(q, p) && q in s.committed)
      && (s.view == s.committed ==>
           (exact <==> forall q | q in s.view && q.In? && Below(q.parent, p) :: false))
  {
    var p, t := Target(at, name), s.view;
    var dropped := ChildPaths(s.committed, p);
    BelowIsLonger(p, p);
    forall q | q in t ensures Below(q, p) <==> IsChild(q, p) || (q.In? && Below(q.parent, p)) {}
    if forall q | q in t && Below(q, p) :: IsChild(q, p) && q in s.committed {
      assert t - dropped - {p} == t - Subtree(t, p);
    } else {
      var q :| q in t && Below(q, p) && !(IsChild(q, p) && q in s.committed);
      assert q in t - dropped - {p};
      assert q !in t - Subtree(t, p);
    }
    forall q | q in t && q.In? && Below(q.parent, p) ensures !IsChild(q, p) {}
  }

  function Depth(p: Path): nat {
    match p case Top(_) => 0 case In(parent, _) => Depth(parent) + 1
  }

  lemma {:induction false} BelowIsLonger(q: Path, p: Path)
    ensures Below(q, p) ==> Depth(q) > Depth(p)
  {
    if q.In? {
      BelowIsLonger(q.parent, p);
    }
  }

  /** Dropping a nested bucket removes, from the view, exactly its marker and its direct entries,
      precisely when the durable store and the view agree on which of the view's keys those are. */
  lemma DropExactIff(s: State<Store>, prefix: Key, key: Key)
    requires FlatDrop(s, prefix, key).1 == Done
    ensures var target := prefix + key;
      FlatDrop(s, prefix, key).0.view == s.view - DirectKeys(s.view, target) - {target}
      <==> s.view.Keys * DirectKeys(s.committed, target) == DirectKeys(s.view, target)
  {
    var target := prefix + key;
    var c, v := DirectKeys(s.committed, target), DirectKeys(s.view, target);
    assert target !in c && target !in v && v <= s.view.Keys;
    if s.view.Keys * c == v {
      assert s.view - c == s.view - v;
    } else {
      var k :| (k in s.view.Keys * c) != (k in v);
      assert (k in s.view - c - {target}) != (k in s.view - v - {target});
    }
  }

  /** In particular when nothing under the bucket is uncommitted. Every other bucket then keeps its
      contents, siblings whose names extend the dropped prefix and nested contents included. */
  lemma DropFrame(s: State<Store>, prefix: Key, key: Key, q: Key)
    requires FlatDrop(s, prefix, key).1 == Done
    requires forall k | prefix + key <= k && k != prefix + key ::
      (k in s.view <==> k in s.committed) && (k in s.view ==> s.view[k] == s.committed[k])
    ensures var s' := FlatDrop(s, prefix, key).0;
      var target := prefix + key;
      && s'.view == s.view - DirectKeys(s.view, target) - {target}
      && DirectKeys(s'.view, target) == {}
      && (q != target ==> DirectKeys(s'.view, q) == DirectKeys(s.view, q) - {target})
      && (q != target && !IsDirect(s.view, target, q) ==> Listing(s'.view, q) == Listing(s.view, q))
  {
    var target := prefix + key;
    forall k ensures IsDirect(s.committed, k, target) <==> IsDirect(s.view, k, target) {
      if IsDirect(s.committed, k, target) { DirectExtends(s.committed, k, target); }
      if IsDirect(s.view, k, target) { DirectExtends(s.view, k, target); }
    }
    assert s.view.Keys * DirectKeys(s.committed, target) == DirectKeys(s.view, target);
    DropExactIff(s, prefix, key);
    RemovalFrame(s.view, target, q);
  }

  /** The frame both bucket deletions share. */
  lemma RemovalFrame(m: Store, target: Key, q: Key)
    ensures var m' := m - DirectKeys(m, target) - {target};
      && DirectKeys(m', target) == {}
      && (q != target ==> DirectKeys(m', q) == DirectKeys(m, q) - {target})
      && (q != target && !IsDirect(m, target, q) ==> Listing(m', q) == Listing(m, q))
  {
    var m' := m - DirectKeys(m, target) - {target};
    if q != target {
      ViewsDisjoint(m, target, q);
      forall k ensures IsDirect(m', k, q) <==> IsDirect(m, k, q) && k != target {
        if IsDirect(m, k, q) { assert k in DirectKeys(m, q); }
      }
      if !IsDirect(m, target, q) {
        SameDirect(m, m', q);
      }
    }
  }

  /** Deleting a top-level bucket has that frame, taken on the transaction's own view. */
  lemma DeleteTopFrame(m: Store, name: Key, q: Key)
    requires FlatDeleteTop(m, name).1 == Done
    ensures var m' := FlatDeleteTop(m, name).0;
      && name !in m' && DirectKeys(m', name) == {}
      && (q != name ==> DirectKeys(m', q) == DirectKeys(m, q) - {name})
      && (q != name && !IsDirect(m, name, q) ==> Listing(m', q) == Listing(m, q))
  {
    RemovalFrame(m, name, q);
  }

  /** Exactly when a call leaves the durable store alone: a commit with nothing to make durable, a drop
      that is refused or finds neither pending writes nor entries, and every other call. */
  ghost predicate KeepsDurable(s: State<Store>, op: Op) {
    match op
    case Commit => s.view == s.committed
    case DropNested(at, name) =>
      FlatDrop(s, Flat(at), name).1 == Done ==>
        s.view == s.committed && DirectKeys(s.committed, Flat(at) + name) == {}
    case _ => true
  }

  lemma KeepsDurableIff(s: State<Store>, op: Op)
    ensures FlatStep(s, op).0.committed == s.committed <==> KeepsDurable(s, op)
  {
    if op.DropNested? && FlatDrop(s, Flat(op.at), op.name).1 == Done {
      var gone := DirectKeys(s.committed, Flat(op.at) + op.name);
      if s.view - gone == s.committed {
        assert forall k | k in gone :: k in s.committed && k !in s.view - gone;
        assert s.view - gone == s.view;
      }
    }
  }

  ghost predicate AllKeepDurable(s: State<Store>, ops: seq<Op>)
    decreases |ops|
  {
    ops == [] || (KeepsDurable(s, ops[0]) && AllKeepDurable(FlatStep(s, ops[0]).0, ops[1..]))
  }

  /** Rollback undoes every run of such calls: in particular every run without a commit and without a
      successful drop. */
  lemma {:induction false} RollbackUndoes(s: State<Store>, ops: seq<Op>)
    requires AllKeepDurable(s, ops)
    ensures FlatStep(FlatRun(s, ops).0, Rollback).0 == State(s.committed, s.committed)
    decreases |ops|
  {
    if ops != [] {
      KeepsDurableIff(s, ops[0]);
      RollbackUndoes(FlatStep(s, ops[0]).0, ops[1..]);
    }
  }

  /** A rollback after dropping a nested bucket is no undo: the marker comes back, its entries do
      not, and everything the transaction had written before has become durable. It restores the
      durable store exactly if there were neither pending writes nor durable entries. */
  lemma DropSurvivesRollback(s: State<Store>, at: Path, key: Key, k: Key)
    requires FlatDrop(s, Flat(at), key).1 == Done
    ensures var s' := FlatStep(FlatStep(s, DropNested(at, key)).0, Rollback).0;
      && s'.committed == s'.view
      && Flat(at) + key in s'.view
      && (k in s'.view <==> k in s.view && !IsDirect(s.committed, k, Flat(at) + key))
      && (k in s'.view ==> s'.view[k] == s.view[k])
      && (s'.committed == s.committed <==>
           s.view == s.committed && DirectKeys(s.committed, Flat(at) + key) == {})
  {
    KeepsDurableIff(s, DropNested(at, key));
  }
}
