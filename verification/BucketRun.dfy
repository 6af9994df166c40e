/** The driver on the flat store simulates the tree of buckets, call by call and over whole runs. */
module BucketRun {
  import opened Keys
  import opened BadgerStore
  import opened BucketLayout
  import opened BucketTree
  import opened BucketOps

  datatype Op =
    | CreateTop(name: Key)
    | OpenTop(name: Key)
    | DeleteTop(name: Key)
    | CreateNested(at: Path, name: Key, errorIfExists: bool)
    | OpenNested(at: Path, name: Key)
    | DropNested(at: Path, name: Key)
    | Put(at: Path, name: Key, value: seq<byte>)
    | Get(at: Path, name: Key)
    | Delete(at: Path, name: Key)
    | ForEach(at: Path)
    | Commit
    | Rollback

  /** An empty name addresses the bucket itself in the calls that do not reject it. */
  function Target(at: Path, name: Key): Path {
    if name == [] then at else In(at, name)
  }

  /** The names a call mentions. */
  function Mentions(op: Op): set<Path> {
    match op
    case CreateTop(name) => if name == [] then {} else {Top(name)}
    case OpenTop(name) => if name == [] then {} else {Top(name)}
    case DeleteTop(name) => if name == [] then {} else {Top(name)}
    case ForEach(at) => {at}
    case Commit => {}
    case Rollback => {}
    case _ => {op.at, Target(op.at, op.name)}
  }

  function FlatStep(s: State<Store>, op: Op): (State<Store>, Reply) {
    match op
    case CreateTop(name) => var (m, r) := FlatCreateTop(s.view, name); (s.(view := m), r)
    case OpenTop(name) => (s, FlatOpen(s.view, name))
    case DeleteTop(name) => var (m, r) := FlatDeleteTop(s.view, name); (s.(view := m), r)
    case CreateNested(at, name, errorIfExists) =>
      var (m, r) := FlatCreateNested(s.view, Flat(at), name, errorIfExists); (s.(view := m), r)
    case OpenNested(at, name) => (s, FlatOpenNested(s.view, Flat(at), name))
    case DropNested(at, name) => FlatDrop(s, Flat(at), name)
    case Put(at, name, value) => var (m, r) := FlatPut(s.view, Flat(at), name, value); (s.(view := m), r)
    case Get(at, name) => (s, FlatGet(s.view, Flat(at), name))
    case Delete(at, name) => var (m, r) := FlatDelete(s.view, Flat(at), name); (s.(view := m), r)
    case ForEach(at) => (s, Listed(Listing(s.view, Flat(at))))
    case Commit => (State(s.view, s.view), Done)
    case Rollback => (State(s.committed, s.committed), Done)
  }

  /** The paths of p's children. */
  function ChildPaths(t: Tree, p: Path): set<Path> {
    set q | q in t && IsChild(q, p)
  }

  function TreeOpen(t: Tree, p: Path): Reply {
    if p in t && t[p].Branch? then Opened else Absent
  }

  function TreeStep(s: State<Tree>, op: Op): (State<Tree>, Reply) {
    match op
    case CreateTop(name) =>
      var p := Top(name);
      if name == [] then (s, Failed(Invalid))
      else (if p in s.view then s else s.(view := s.view[p := Branch]), Opened)
    case OpenTop(name) => (s, if name == [] then Absent else TreeOpen(s.view, Top(name)))
    case DeleteTop(name) =>
      var p := Top(name);
      if name == [] then (s, Failed(Invalid))
      else if p !in s.view then (s, Failed(NotExist))
      else (s.(view := s.view - ChildPaths(s.view, p) - {p}), Done)
    case CreateNested(at, name, errorIfExists) =>
      var p := In(at, name);
      if name == [] || |name| > MAX_KEY_SIZE then (s, Failed(Invalid))
      else if p !in s.view then (s.(view := s.view[p := Branch]), Opened)
      else if s.view[p].Content? then (s, Failed(Invalid))
      else (s, if errorIfExists then Failed(Exist) else Opened)
    case OpenNested(at, name) =>
      (s, if |name| > MAX_KEY_SIZE then Absent else TreeOpen(s.view, Target(at, name)))
    case DropNested(at, name) =>
      var p := Target(at, name);
      if |name| > MAX_KEY_SIZE then (s, Failed(Invalid))
      else if p !in s.view then (s, Failed(NotExist))
      else if s.view[p].Content? then (s, Failed(Invalid))
      else
        var committed := s.view - ChildPaths(s.committed, p);
        (State(committed, committed - {p}), Done)
    case Put(at, name, value) =>
      if name == [] || |name| > MAX_KEY_SIZE then (s, Failed(Invalid))
      else (s.(view := s.view[In(at, name) := Content(value)]), Done)
    case Get(at, name) =>
      var p := In(at, name);
      (s, if name == [] || |name| > MAX_KEY_SIZE || p !in s.view then Absent
          else match s.view[p] case Branch => Found([]) case Content(value) => Found(value))
    case Delete(at, name) =>
      if name == [] then (s, Done)
      else if |name| > MAX_KEY_SIZE then (s, Failed(Invalid))
      else (s.(view := s.view - {In(at, name)}), Done)
    case ForEach(at) => (s, Listed(TreeListing(s.view, at)))
    case Commit => (State(s.view, s.view), Done)
    case Rollback => (State(s.committed, s.committed), Done)
  }

  /** The simulation relation: both stores hold exactly their trees, which use only safe names. */
  ghost predicate Simulates(names: iset<Path>, tree: State<Tree>, flat: State<Store>) {
    && Within(tree.committed, names) && Represents(tree.committed, flat.committed)
    && Within(tree.view, names) && Represents(tree.view, flat.view)
  }

  ghost predicate Speaks(op: Op, names: iset<Path>) {
    forall p | p in Mentions(op) :: p in names
  }

  /** Removing one node, or its marker only, is removing one flat key. */
  lemma RemoveNode(names: iset<Path>, t: Tree, m: Store, p: Path)
    requires Naming(names) && Within(t, names) && Represents(t, m) && p in names
    ensures Represents(t - {p}, m - {Flat(p)}) && Within(t - {p}, names)
  {
    forall q | q in t ensures q in {p} <==> Flat(q) in {Flat(p)} {
      assert Named(p, names) && Named(q, names);
    }
    RemoveNodes(names, t, m, {p}, {Flat(p)});
  }

  /** Removing from one tree what a scan of another (the durable one) finds under p. */
  lemma RemoveChildren(names: iset<Path>, t: Tree, m: Store, scanned: Tree, store: Store, p: Path)
    requires Naming(names) && p in names
    requires Within(t, names) && Represents(t, m)
    requires Within(scanned, names) && Represents(scanned, store)
    ensures Represents(t - ChildPaths(scanned, p), m - DirectKeys(store, Flat(p)))
    ensures Within(t - ChildPaths(scanned, p), names)
  {
    var gone, keys := ChildPaths(scanned, p), DirectKeys(store, Flat(p));
    forall q | q in t ensures q in gone <==> Flat(q) in keys {
      assert Named(q, names);
      if q in scanned {
        DirectIsChild(names, scanned, store, p, q);
      } else {
        Lookup(names, scanned, store, q);
      }
    }
    RemoveNodes(names, t, m, gone, keys);
  }

  /** One call: from simulating states, the answers are equal and the next states simulate. */
  lemma StepSimulates(names: iset<Path>, tree: State<Tree>, flat: State<Store>, op: Op)
    requires Naming(names) && Simulates(names, tree, flat) && Speaks(op, names)
    ensures TreeStep(tree, op).1 == FlatStep(flat, op).1
    ensures Simulates(names, TreeStep(tree, op).0, FlatStep(flat, op).0)
  {
    match op
    case CreateTop(name) =>
      if name != [] {
        assert Top(name) in Mentions(op);
        Lookup(names, tree.view, flat.view, Top(name));
        UpdateNode(names, tree.view, flat.view, Top(name), Branch);
      }
    case OpenTop(name) =>
      if name != [] {
        assert Top(name) in Mentions(op);
        Lookup(names, tree.view, flat.view, Top(name));
      }
    case DeleteTop(name) => StepDeleteTop(names, tree, flat, name);
    case CreateNested(at, name, errorIfExists) => StepCreateNested(names, tree, flat, at, name, errorIfExists);
    case OpenNested(at, name) => StepLookups(names, tree, flat, at, name);
    case DropNested(at, name) => StepDrop(names, tree, flat, at, name);
    case Put(at, name, value) =>
      assert Target(at, name) in Mentions(op);
      if name != [] {
        UpdateNode(names, tree.view, flat.view, In(at, name), Content(value));
      }
    case Get(at, name) => StepLookups(names, tree, flat, at, name);
    case Delete(at, name) =>
      assert Target(at, name) in Mentions(op);
      if name != [] {
        RemoveNode(names, tree.view, flat.view, In(at, name));
      }
    case ForEach(at) =>
      assert at in Mentions(op);
      SameListing(names, tree.view, flat.view, at);
    case Commit =>
    case Rollback =>
  }

  lemma StepDeleteTop(names: iset<Path>, tree: State<Tree>, flat: State<Store>, name: Key)
    requires Naming(names) && Simulates(names, tree, flat) && Speaks(DeleteTop(name), names)
    ensures TreeStep(tree, DeleteTop(name)).1 == FlatStep(flat, DeleteTop(name)).1
    ensures Simulates(names, TreeStep(tree, DeleteTop(name)).0, FlatStep(flat, DeleteTop(name)).0)
  {
    if name != [] {
      var p := Top(name);
      assert p in Mentions(DeleteTop(name));
      Lookup(names, tree.view, flat.view, p);
      RemoveChildren(names, tree.view, flat.view, tree.view, flat.view, p);
      RemoveNode(names, tree.view - ChildPaths(tree.view, p), flat.view - DirectKeys(flat.view, name), p);
    }
  }

  lemma StepCreateNested(names: iset<Path>, tree: State<Tree>, flat: State<Store>, at: Path, name: Key, strict: bool)
    requires Naming(names) && Simulates(names, tree, flat) && Speaks(CreateNested(at, name, strict), names)
    ensures TreeStep(tree, CreateNested(at, name, strict)).1 == FlatStep(flat, CreateNested(at, name, strict)).1
    ensures Simulates(names, TreeStep(tree, CreateNested(at, name, strict)).0,
                      FlatStep(flat, CreateNested(at, name, strict)).0)
  {
    assert Target(at, name) in Mentions(CreateNested(at, name, strict));
    if name != [] && |name| <= MAX_KEY_SIZE {
      var p := In(at, name);
      Lookup(names, tree.view, flat.view, p);
      if p !in tree.view {
        UpdateNode(names, tree.view, flat.view, p, Branch);
      } else {
        assert flat.view[Flat(p)].isBucket <==> tree.view[p].Branch?;
      }
    }
  }

  lemma StepDrop(names: iset<Path>, tree: State<Tree>, flat: State<Store>, at: Path, name: Key)
    requires Naming(names) && Simulates(names, tree, flat) && Speaks(DropNested(at, name), names)
    ensures TreeStep(tree, DropNested(at, name)).1 == FlatStep(flat, DropNested(at, name)).1
    ensures Simulates(names, TreeStep(tree, DropNested(at, name)).0, FlatStep(flat, DropNested(at, name)).0)
  {
    var p := Target(at, name);
    assert p in Mentions(DropNested(at, name)) && Named(p, names);
    assert Flat(p) == Flat(at) + name;
    Lookup(names, tree.view, flat.view, p);
    if |name| <= MAX_KEY_SIZE && p in tree.view && tree.view[p].Branch? {
      DropSimulates(names, tree, flat, p);
      assert Flat(p) != [];
    }
  }

  lemma DropSimulates(names: iset<Path>, tree: State<Tree>, flat: State<Store>, p: Path)
    requires Naming(names) && Simulates(names, tree, flat) && p in names
    ensures var tc, fc := tree.view - ChildPaths(tree.committed, p), flat.view - DirectKeys(flat.committed, Flat(p));
      Simulates(names, State(tc, tc - {p}), State(fc, fc - {Flat(p)}))
  {
    RemoveChildren(names, tree.view, flat.view, tree.committed, flat.committed, p);
    RemoveNode(names, tree.view - ChildPaths(tree.committed, p), flat.view - DirectKeys(flat.committed, Flat(p)), p);
  }

  lemma StepLookups(names: iset<Path>, tree: State<Tree>, flat: State<Store>, at: Path, name: Key)
    requires Naming(names) && Simulates(names, tree, flat) && at in names && Target(at, name) in names
    ensures TreeStep(tree, Get(at, name)).1 == FlatStep(flat, Get(at, name)).1
    ensures TreeStep(tree, OpenNested(at, name)).1 == FlatStep(flat, OpenNested(at, name)).1
  {
    var p := Target(at, name);
    assert Flat(p) == Flat(at) + name;
    assert Named(p, names);
    Lookup(names, tree.view, flat.view, p);
  }

  /** The answers of a run, and the state it ends in. */
  function FlatRun(s: State<Store>, ops: seq<Op>): (State<Store>, seq<Reply>)
    decreases |ops|
  {
    if ops == [] then (s, []) else
      var (s1, r) := FlatStep(s, ops[0]);
      var (s2, rs) := FlatRun(s1, ops[1..]);
      (s2, [r] + rs)
  }

  function TreeRun(s: State<Tree>, ops: seq<Op>): (State<Tree>, seq<Reply>)
    decreases |ops|
  {
    if ops == [] then (s, []) else
      var (s1, r) := TreeStep(s, ops[0]);
      var (s2, rs) := TreeRun(s1, ops[1..]);
      (s2, [r] + rs)
  }

  /** Refinement: any run over safe names answers exactly as the tree of buckets does. */
  lemma {:induction false} RunSimulates(names: iset<Path>, tree: State<Tree>, flat: State<Store>, ops: seq<Op>)
    requires Naming(names) && Simulates(names, tree, flat)
    requires forall op | op in ops :: Speaks(op, names)
    ensures TreeRun(tree, ops).1 == FlatRun(flat, ops).1
    ensures Simulates(names, TreeRun(tree, ops).0, FlatRun(flat, ops).0)
    decreases |ops|
  {
    if ops != [] {
      StepSimulates(names, tree, flat, ops[0]);
      RunSimulates(names, TreeStep(tree, ops[0]).0, FlatStep(flat, ops[0]).0, ops[1..]);
    }
  }
}
