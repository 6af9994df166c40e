/** The abstract database the walletdb interface promises: a tree of buckets. A node is
    addressed by its path of names; the tree is the finite map of its live paths. */
module BucketTree {
  import opened Wrappers
  import opened Keys
  import opened BadgerStore
  import opened BucketLayout

  datatype Path = Top(name: Key) | In(parent: Path, name: Key)

  datatype Node = Branch | Content(value: seq<byte>)

  type Tree = map<Path, Node>

  /** Where a path lives in the flat store. */
  function Flat(p: Path): Key {
    match p
    case Top(name) => name
    case In(parent, name) => Flat(parent) + name
  }

  /** The length that the owner byte of a path's entry stands for. */
  function OwnerLength(p: Path): nat {
    match p
    case Top(name) => |name|
    case In(parent, _) => |Flat(parent)|
  }

  function Encode(p: Path, node: Node): Item {
    match node
    case Branch => Marker(OwnerLength(p))
    case Content(value) => Leaf(value, OwnerLength(p))
  }

  /** A universe of names under which the layout is faithful: closed under parents, with
      non-empty names, short prefixes, and no two paths at the same flat key. */
  ghost predicate Naming(names: iset<Path>) {
    && (forall p | Named(p, names) :: p.name != [] && OwnerLength(p) <= 255 && (p.In? ==> p.parent in names))
    && (forall p, q | Named(p, names) && Named(q, names) && Flat(p) == Flat(q) :: p == q)
  }

  ghost predicate Named(p: Path, names: iset<Path>) {
    p in names
  }

  /** The tree uses only these names, and only buckets at the top. */
  ghost predicate Within(t: Tree, names: iset<Path>) {
    forall q | q in t :: Named(q, names) && (q.Top? ==> t[q].Branch?)
  }

  /** The flat store holds exactly the encoded nodes of the tree. */
  ghost predicate Represents(t: Tree, m: Store) {
    && (forall q | q in t :: Flat(q) in m && m[Flat(q)] == Encode(q, t[q]))
    && (forall k | k in m :: exists q :: q in t && Flat(q) == k)
  }

  lemma Lookup(names: iset<Path>, t: Tree, m: Store, q: Path)
    requires Naming(names) && Within(t, names) && Represents(t, m) && q in names
    ensures q in t <==> Flat(q) in m
    ensures q in t ==> m[Flat(q)] == Encode(q, t[q])
  {
    assert Named(q, names);
  }

  lemma UpdateNode(names: iset<Path>, t: Tree, m: Store, q: Path, node: Node)
    requires Naming(names) && Within(t, names) && Represents(t, m) && q in names
    requires q.Top? ==> node.Branch?
    ensures Represents(t[q := node], m[Flat(q) := Encode(q, node)])
    ensures Within(t[q := node], names)
  {
    assert Named(q, names);
    var t', m' := t[q := node], m[Flat(q) := Encode(q, node)];
    forall k | k in m' ensures exists x :: x in t' && Flat(x) == k {
      var x := if k == Flat(q) then q else var x :| x in t && Flat(x) == k; x;
      assert x in t';
    }
  }

  lemma RemoveNodes(names: iset<Path>, t: Tree, m: Store, gone: set<Path>, keys: set<Key>)
    requires Within(t, names) && Represents(t, m)
    requires forall q | q in t :: q in gone <==> Flat(q) in keys
    ensures Represents(t - gone, m - keys)
    ensures Within(t - gone, names)
  {
    forall k | k in m - keys ensures exists x :: x in t - gone && Flat(x) == k {
      var x :| x in t && Flat(x) == k;
      assert x in t - gone;
    }
  }

  predicate IsChild(q: Path, p: Path) {
    q.In? && q.parent == p
  }

  /** The ownership byte recovers the parent: a stored key is a direct entry of p's bucket
      exactly if its node is a child of p. */
  lemma DirectIsChild(names: iset<Path>, t: Tree, m: Store, p: Path, q: Path)
    requires Naming(names) && Within(t, names) && Represents(t, m) && p in names && q in t
    ensures IsDirect(m, Flat(q), Flat(p)) <==> IsChild(q, p)
  {
    assert Named(q, names) && Named(p, names) && (q.In? ==> Named(q.parent, names));
    EncodedOwner(q, t[q]);
  }

  /** The owner byte of an encoded node names its parent's prefix, or a top-level bucket's own. */
  lemma EncodedOwner(q: Path, node: Node)
    requires q.name != [] && OwnerLength(q) <= 255 && (q.Top? ==> node.Branch?)
    ensures ItemOwned(Flat(q), Encode(q, node))
    ensures Owner(Flat(q), Encode(q, node)) == if q.Top? then Flat(q) else Flat(q.parent)
    ensures q.In? ==> Flat(q) != Flat(q.parent)
  {
  }

  /** The names of p's children. */
  function Children(t: Tree, p: Path): set<Key> {
    set q | q in t && IsChild(q, p) :: q.name
  }

  lemma ChildInTree(t: Tree, p: Path, n: Key)
    ensures n in Children(t, p) <==> In(p, n) in t
  {
    assert IsChild(In(p, n), p);
  }

  function Shown(node: Node): Option<seq<byte>> {
    match node
    case Branch => None
    case Content(value) => Some(value)
  }

  /** What iterating a bucket of the tree yields. */
  function TreeListing(t: Tree, p: Path): seq<Pair> {
    var names := Sorted(Children(t, p));
    SortedAscends(Children(t, p));
    seq(|names|, i requires 0 <= i < |names| =>
      assert names[i] in names; ChildInTree(t, p, names[i]); (names[i], Shown(t[In(p, names[i])])))
  }

  lemma SameChildren(names: iset<Path>, t: Tree, m: Store, p: Path)
    requires Naming(names) && Within(t, names) && Represents(t, m) && p in names
    ensures ChildNames(m, Flat(p)) == Children(t, p)
  {
    forall n ensures n in ChildNames(m, Flat(p)) <==> n in Children(t, p) {
      ChildName(m, Flat(p), n);
      ChildInTree(t, p, n);
      if n in Children(t, p) {
        DirectIsChild(names, t, m, p, In(p, n));
      }
      if n in ChildNames(m, Flat(p)) {
        var q :| q in t && Flat(q) == Flat(p) + n;
        DirectIsChild(names, t, m, p, q);
        assert n == (Flat(p) + n)[|Flat(p)|..] == q.name;
      }
    }
  }

  lemma SameEntry(names: iset<Path>, t: Tree, m: Store, p: Path, n: Key)
    requires Naming(names) && Within(t, names) && Represents(t, m) && p in names && In(p, n) in t
    ensures IsDirect(m, Flat(p) + n, Flat(p)) && EntryOf(m, Flat(p), n) == (n, Shown(t[In(p, n)]))
  {
    var q := In(p, n);
    DirectIsChild(names, t, m, p, q);
    assert m[Flat(q)] == Encode(q, t[q]);
  }

  /** The flat scan and the tree agree on a bucket's contents and their order. */
  lemma SameListing(names: iset<Path>, t: Tree, m: Store, p: Path)
    requires Naming(names) && Within(t, names) && Represents(t, m) && p in names
    ensures Listing(m, Flat(p)) == TreeListing(t, p)
  {
    SameChildren(names, t, m, p);
    ListingByName(m, Flat(p));
    var ns := Sorted(Children(t, p));
    SortedAscends(Children(t, p));
    forall i | 0 <= i < |ns| ensures Listing(m, Flat(p))[i] == TreeListing(t, p)[i] {
      assert ns[i] in ns;
      ChildInTree(t, p, ns[i]);
      SameEntry(names, t, m, p, ns[i]);
    }
  }

  // ---------------------------------------------------------------------------------------
  // Which names are safe

  /** Bucket q's prefix properly extends bucket p's, and p's name k runs into the extension. */
  ghost predicate Clash(p: Path, q: Path, k: Key) {
    && Flat(p) <= Flat(q)
    && |Flat(p)| < |Flat(q)|
    && Flat(q)[|Flat(p)|..] <= k
  }

  /** A rule a caller can follow: where bucket q's prefix extends bucket p's prefix by r, bucket p
      uses no name that starts with r, except r itself when that is how p names its own child q. */
  ghost predicate Disciplined(names: iset<Path>, buckets: iset<Path>) {
    && (forall p | Named(p, names) :: p.name != [])
    && (forall p | Named(p, names) :: if p.Top? then p in buckets else p.parent in names && p.parent in buckets)
    && (forall p, q, k | p in buckets && q in buckets && Named(In(p, k), names) && Clash(p, q, k) :: q == In(p, k))
  }

  /** One key split in two ways: the longer left part extends the shorter one. */
  lemma TwoSplits(x: Key, a: Key, y: Key, b: Key)
    requires x + a == y + b
    ensures |x| == |y| ==> x == y && a == b
    ensures |x| < |y| ==> x <= y && y[|x|..] <= a
  {
    if |x| <= |y| {
      assert x == (x + a)[..|x|] == y[..|x|];
      assert a == (x + a)[|x|..] == (y + b)[|x|..] == y[|x|..] + b;
    }
  }

  /** Two buckets with one prefix are one bucket: the parent of either uses a name that reaches the
      other's prefix. */
  lemma SamePrefix(names: iset<Path>, buckets: iset<Path>, p: Path, q: Path)
    requires Disciplined(names, buckets) && p in names && q in names && p in buckets && q in buckets
    requires Flat(p) == Flat(q)
    ensures p == q
  {
    assert Named(p, names) && Named(q, names);
    if p.In? {
      assert Clash(p.parent, q, p.name) by { assert Flat(q)[|Flat(p.parent)|..] == p.name; }
    } else if q.In? {
      assert Clash(q.parent, p, q.name) by { assert Flat(p)[|Flat(q.parent)|..] == q.name; }
    }
  }

  /** Under the rule no two paths share a flat key. */
  lemma DisciplineIsCollisionFree(names: iset<Path>, buckets: iset<Path>, a: Path, b: Path)
    requires Disciplined(names, buckets) && a in names && b in names && Flat(a) == Flat(b)
    ensures a == b
  {
    assert Named(a, names) && Named(b, names);
    match (a, b)
    case (Top(_), Top(_)) =>
    case (Top(_), In(pb, k)) =>
      assert Clash(pb, a, k) by { assert Flat(a)[|Flat(pb)|..] == k; }
    case (In(pa, k), Top(_)) =>
      assert Clash(pa, b, k) by { assert Flat(b)[|Flat(pa)|..] == k; }
    case (In(pa, ka), In(pb, kb)) =>
      TwoSplits(Flat(pa), ka, Flat(pb), kb);
      TwoSplits(Flat(pb), kb, Flat(pa), ka);
      assert Clash(pa, pb, ka) ==> |Flat(pb)| == |Flat(a)|;
      assert Clash(pb, pa, kb) ==> |Flat(pa)| == |Flat(b)|;
      if |Flat(pa)| == |Flat(pb)| {
        SamePrefix(names, buckets, pa, pb);
      }
  }

  /** Following the rule with short prefixes gives a faithful universe of names. */
  lemma DisciplineIsNaming(names: iset<Path>, buckets: iset<Path>)
    requires Disciplined(names, buckets)
    requires forall b | b in buckets :: |Flat(b)| <= 255
    ensures Naming(names)
  {
    forall p | Named(p, names) ensures OwnerLength(p) <= 255 {
      match p
      case Top(_) => assert p in buckets && |Flat(p)| <= 255;
      case In(parent, _) => assert |Flat(parent)| <= 255;
    }
    forall p, q | Named(p, names) && Named(q, names) && Flat(p) == Flat(q) ensures p == q {
      DisciplineIsCollisionFree(names, buckets, p, q);
    }
  }
}
