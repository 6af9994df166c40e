/** Byte-string keys in the order of bytes.Compare, and the ascending enumeration
    of a finite set of keys. */
module Keys {

  type byte = b: int | 0 <= b < 256

  type Key = seq<byte>

  /** Lexicographic order, shorter keys first. */
  predicate Less(a: Key, b: Key) {
    b != [] && (a == [] || a[0] < b[0] || (a[0] == b[0] && Less(a[1..], b[1..])))
  }

  predicate Leq(a: Key, b: Key) {
    a == b || Less(a, b)
  }

  /** The order of bytes.Compare: a is a proper prefix of b, or smaller at the first byte that differs. */
  ghost predicate ByteBefore(a: Key, b: Key) {
    || (|a| < |b| && a == b[..|a|])
    || exists i: nat :: SmallerAt(a, b, i)
  }

  predicate SmallerAt(a: Key, b: Key, i: nat) {
    i < |a| && i < |b| && a[..i] == b[..i] && a[i] < b[i]
  }

  lemma {:induction false} LessIsByteOrder(a: Key, b: Key)
    ensures Less(a, b) <==> ByteBefore(a, b)
  {
    if a != [] && b != [] {
      LessIsByteOrder(a[1..], b[1..]);
      forall i: nat | i > 0 ensures SmallerAt(a, b, i) <==> a[0] == b[0] && SmallerAt(a[1..], b[1..], i - 1) {
        TailSmallerAt(a, b, i);
      }
      assert SmallerAt(a, b, 0) <==> a[0] < b[0];
      if i: nat :| SmallerAt(a[1..], b[1..], i) {
        TailSmallerAt(a, b, i + 1);
      }
      PrefixOfTail(a, b);
    }
  }

  lemma TailSmallerAt(a: Key, b: Key, i: nat)
    requires a != [] && b != [] && i > 0
    ensures SmallerAt(a, b, i) <==> a[0] == b[0] && SmallerAt(a[1..], b[1..], i - 1)
  {
    if i < |a| && i < |b| {
      assert a[..i] == [a[0]] + a[1..][..i - 1] && b[..i] == [b[0]] + b[1..][..i - 1];
      assert a[..i] == b[..i] ==> a[..i][0] == b[..i][0] && a[..i][1..] == b[..i][1..];
      assert a[..i][1..] == a[1..][..i - 1] && b[..i][1..] == b[1..][..i - 1];
    }
  }

  lemma PrefixOfTail(a: Key, b: Key)
    requires a != [] && b != []
    ensures |a| < |b| && a == b[..|a|] <==> a[0] == b[0] && |a[1..]| < |b[1..]| && a[1..] == b[1..][..|a[1..]|]
  {
    if |a| < |b| {
      assert b[..|a|] == [b[0]] + b[1..][..|a| - 1] && a == [a[0]] + a[1..];
      assert b[..|a|][1..] == b[1..][..|a| - 1];
    }
  }

  lemma {:induction false} LessIrreflexive(a: Key)
    ensures !Less(a, a)
  {
    if a != [] {
      LessIrreflexive(a[1..]);
    }
  }

  lemma {:induction false} LessTransitive(a: Key, b: Key, c: Key)
    requires Less(a, b) && Less(b, c)
    ensures Less(a, c)
  {
    if a != [] && a[0] == b[0] == c[0] {
      LessTransitive(a[1..], b[1..], c[1..]);
    }
  }

  lemma {:induction false} LessTotal(a: Key, b: Key)
    ensures Less(a, b) || a == b || Less(b, a)
  {
    if a != [] && b != [] && a[0] == b[0] {
      LessTotal(a[1..], b[1..]);
      assert a == [a[0]] + a[1..] && b == [b[0]] + b[1..];
    }
  }

  lemma LeqTransitive(a: Key, b: Key, c: Key)
    requires Leq(a, b) && Leq(b, c)
    ensures Leq(a, c)
    ensures Less(a, b) || Less(b, c) ==> Less(a, c)
  {
    if Less(a, b) && Less(b, c) {
      LessTransitive(a, b, c);
    }
  }

  lemma LeqAntisymmetric(a: Key, b: Key)
    requires Leq(a, b) && Leq(b, a)
    ensures a == b
  {
    if a != b {
      LessTransitive(a, b, a);
      LessIrreflexive(a);
    }
  }

  /** A common prefix does not influence the order. */
  lemma {:induction false} LessUnderPrefix(p: Key, a: Key, b: Key)
    ensures Less(p + a, p + b) <==> Less(a, b)
    ensures Leq(p + a, p + b) <==> Leq(a, b)
  {
    if p == [] {
      assert p + a == a && p + b == b;
    } else {
      LessUnderPrefix(p[1..], a, b);
      assert (p + a)[1..] == p[1..] + a && (p + b)[1..] == p[1..] + b;
    }
    assert p + a == p + b ==> a == (p + a)[|p|..] == (p + b)[|p|..] == b;
  }

  lemma PrefixLeq(p: Key, k: Key)
    requires p <= k
    ensures Leq(p, k)
  {
    LessUnderPrefix(p, [], k[|p|..]);
    assert p + [] == p && p + k[|p|..] == k;
  }

  /** The keys that start with p are consecutive: nothing between p and one of them lies outside. */
  lemma {:induction false} PrefixConvex(p: Key, x: Key, y: Key)
    requires Leq(p, x) && Leq(x, y) && p <= y
    ensures p <= x
  {
    if x != y && p != [] {
      if p == x {
      } else {
        assert x[0] == p[0];
        PrefixConvex(p[1..], x[1..], y[1..]);
      }
    }
  }

  predicate Ascending(ks: seq<Key>) {
    forall i, j {:trigger Less(ks[i], ks[j])} | 0 <= i < j < |ks| :: Less(ks[i], ks[j])
  }

  lemma LeastExists(s: set<Key>) returns (least: Key)
    requires s != {}
    ensures least in s && forall x {:trigger Leq(least, x)} | x in s :: Leq(least, x)
  {
    var k :| k in s;
    if s == {k} {
      least := k;
    } else {
      least := LeastExists(s - {k});
      LessTotal(k, least);
      if Less(k, least) {
        forall x | x in s ensures Leq(k, x) {
          if x != k {
            LeqTransitive(k, least, x);
          }
        }
        least := k;
      }
    }
  }

  function Least(s: set<Key>): (least: Key)
    requires s != {}
    ensures least in s && forall x {:trigger Leq(least, x)} | x in s :: Leq(least, x)
  {
    assert exists k :: k in s && forall x {:trigger Leq(k, x)} | x in s :: Leq(k, x) by {
      var k := LeastExists(s);
    }
    assert forall a, b | a in s && b in s && Leq(a, b) && Leq(b, a) :: a == b by {
      forall a, b | a in s && b in s && Leq(a, b) && Leq(b, a) ensures a == b {
        LeqAntisymmetric(a, b);
      }
    }
    var k :| k in s && forall x {:trigger Leq(k, x)} | x in s :: Leq(k, x);
    k
  }

  /** The elements of a set in ascending order. */
  function Sorted(s: set<Key>): seq<Key> {
    if s == {} then [] else
      var k := Least(s);
      [k] + Sorted(s - {k})
  }

  lemma {:induction false} SortedAscends(s: set<Key>)
    ensures Ascending(Sorted(s))
    ensures forall k :: k in Sorted(s) <==> k in s
  {
    if s != {} {
      var k := Least(s);
      var rest := Sorted(s - {k});
      SortedAscends(s - {k});
      forall j | 0 <= j < |rest| ensures Less(k, rest[j]) {
        assert rest[j] in rest;
        assert Leq(k, rest[j]);
      }
    }
  }

  /** Ascending order leaves no choice: the contents determine the sequence. */
  lemma {:induction false} AscendingUnique(a: seq<Key>, b: seq<Key>)
    requires Ascending(a) && Ascending(b)
    requires forall k :: k in a <==> k in b
    ensures a == b
  {
    assert |b| > 0 ==> b[0] in a;
    assert |a| > 0 ==> a[0] in b;
    if a != [] && b != [] {
      FirstIsLeast(a, b[0]);
      FirstIsLeast(b, a[0]);
      LeqAntisymmetric(a[0], b[0]);
      forall k ensures k in a[1..] <==> k in b[1..] {
        LessIrreflexive(a[0]);
        assert a == [a[0]] + a[1..] && b == [b[0]] + b[1..];
        if k in a[1..] { assert k in a && k != a[0]; }
        if k in b[1..] { assert k in b && k != b[0]; }
      }
      AscendingUnique(a[1..], b[1..]);
      assert a == [a[0]] + a[1..] && b == [b[0]] + b[1..];
    }
  }

  lemma FirstIsLeast(a: seq<Key>, k: Key)
    requires Ascending(a) && k in a
    ensures Leq(a[0], k)
  {
    var i :| 0 <= i < |a| && a[i] == k;
  }
}
