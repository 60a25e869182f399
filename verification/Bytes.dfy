/** Byte strings (`std::string` keys) under the engine's unsigned lexicographic order,
    and the ascending enumeration that an ordered iterator walks. */
module Bytes {
  newtype byte = x: int | 0 <= x < 256

  type Str = seq<byte>

  /** The byte `#`, which ends the value part of an index key. */
  const HASH: byte := 35

  /** Unsigned bytewise comparison; a proper prefix is smaller. */
  predicate Less(a: Str, b: Str) {
    if b == [] then false
    else if a == [] then true
    else if a[0] != b[0] then a[0] < b[0]
    else Less(a[1..], b[1..])
  }

  predicate Leq(a: Str, b: Str) {
    a == b || Less(a, b)
  }

  predicate StartsWith(s: Str, p: Str) {
    p <= s
  }

  lemma {:induction false} LessIrreflexive(a: Str)
    ensures !Less(a, a)
    decreases |a|
  {
    if a != [] {
      LessIrreflexive(a[1..]);
    }
  }

  lemma {:induction false} LessTransitive(a: Str, b: Str, c: Str)
    requires Less(a, b) && Less(b, c)
    ensures Less(a, c)
    decreases |a|
  {
    if a != [] && b[0] == a[0] && c[0] == b[0] {
      LessTransitive(a[1..], b[1..], c[1..]);
    }
  }

  lemma {:induction false} LessTotal(a: Str, b: Str)
    ensures a == b || Less(a, b) || Less(b, a)
    decreases |a|
  {
    if a != [] && b != [] && a[0] == b[0] {
      LessTotal(a[1..], b[1..]);
      assert a == [a[0]] + a[1..] && b == [b[0]] + b[1..];
    }
  }

  lemma LessAsymmetric(a: Str, b: Str)
    requires Less(a, b)
    ensures a != b && !Less(b, a)
  {
    LessIrreflexive(a);
    if Less(b, a) {
      LessTransitive(a, b, a);
    }
  }

  /** A common prefix does not influence the order. */
  lemma {:induction false} LessUnderPrefix(p: Str, a: Str, b: Str)
    ensures Less(p + a, p + b) <==> Less(a, b)
    decreases |p|
  {
    if p == [] {
      assert p + a == a && p + b == b;
    } else {
      assert (p + a)[1..] == p[1..] + a && (p + b)[1..] == p[1..] + b;
      LessUnderPrefix(p[1..], a, b);
    }
  }

  /** A string sorts at or before each of its extensions. */
  lemma PrefixLeq(p: Str, s: Str)
    requires StartsWith(s, p)
    ensures Leq(p, s)
  {
    if p != s {
      LessUnderPrefix(p, [], s[|p|..]);
      assert p + [] == p && p + s[|p|..] == s;
    }
  }

  /** Once two strings differ at a byte both have, extensions cannot change their order. */
  lemma {:induction false} LessExtend(a: Str, b: Str, x: Str, y: Str)
    requires Less(a, b) && !StartsWith(b, a)
    ensures Less(a + x, b + y)
    decreases |a|
  {
    if a == [] {
    } else {
      assert (a + x)[1..] == a[1..] + x && (b + y)[1..] == b[1..] + y;
      if a[0] == b[0] {
        assert a == [a[0]] + a[1..] && b == [b[0]] + b[1..];
        LessExtend(a[1..], b[1..], x, y);
      }
    }
  }

  /** The strings that start with `p` form one contiguous block of the order. */
  lemma PrefixBlock(p: Str, j: Str, k: Str)
    requires Leq(p, j) && Leq(j, k) && StartsWith(k, p)
    ensures StartsWith(j, p)
  {
    if !StartsWith(j, p) {
      LessExtend(p, j, k[|p|..], []);
      assert p + k[|p|..] == k && j + [] == j;
      LessAsymmetric(k, j);
    }
  }

  /** Comparing equal-length strings that grow by one byte. */
  lemma {:induction false} LessSnoc(a: Str, b: Str, x: byte, y: byte)
    requires |a| == |b|
    ensures Less(a + [x], b + [y]) <==> Less(a, b) || (a == b && x < y)
    decreases |a|
  {
    if a == [] {
    } else {
      assert (a + [x])[1..] == a[1..] + [x] && (b + [y])[1..] == b[1..] + [y];
      LessSnoc(a[1..], b[1..], x, y);
      assert a == [a[0]] + a[1..] && b == [b[0]] + b[1..];
    }
  }

  // ---------- ascending enumeration of a finite key set ----------

  ghost predicate Ascending(ks: seq<Str>) {
    forall i, j :: 0 <= i < j < |ks| ==> Less(ks[i], ks[j])
  }

  ghost predicate IsLeast(k: Str, s: set<Str>) {
    k in s && forall j :: j in s ==> Leq(k, j)
  }

  lemma {:induction false} LeastExists(s: set<Str>)
    requires s != {}
    ensures exists k :: IsLeast(k, s)
    decreases |s|
  {
    var a :| a in s;
    if s == {a} {
      assert IsLeast(a, s);
    } else {
      var rest := s - {a};
      assert |rest| < |s|;
      LeastExists(rest);
      var m :| IsLeast(m, rest);
      LessTotal(a, m);
      if Less(m, a) {
        assert IsLeast(m, s);
      } else {
        forall j | j in s
          ensures Leq(a, j)
        {
          if j != a {
            assert j in rest;
            if Less(a, m) && Less(m, j) {
              LessTransitive(a, m, j);
            }
          }
        }
        assert IsLeast(a, s);
      }
    }
  }

  lemma LeastUnique(s: set<Str>)
    ensures forall k, m :: IsLeast(k, s) && IsLeast(m, s) ==> k == m
  {
    forall k, m | IsLeast(k, s) && IsLeast(m, s)
      ensures k == m
    {
      if k != m {
        LessAsymmetric(k, m);
      }
    }
  }

  function Least(s: set<Str>): (k: Str)
    requires s != {}
    ensures IsLeast(k, s)
  {
    LeastExists(s);
    LeastUnique(s);
    assert forall k :: (k in s && forall j :: j in s ==> Leq(k, j)) ==> IsLeast(k, s);
    var k :| k in s && forall j :: j in s ==> Leq(k, j);
    k
  }

  /** The order in which an iterator over a key set meets its keys. */
  function Sorted(s: set<Str>): seq<Str>
    decreases |s|
  {
    if s == {} then [] else [Least(s)] + Sorted(s - {Least(s)})
  }

  lemma {:induction false} SortedEnumerates(s: set<Str>)
    ensures Ascending(Sorted(s))
    ensures forall k :: k in Sorted(s) <==> k in s
    ensures |Sorted(s)| == |s|
    decreases |s|
  {
    if s != {} {
      var k := Least(s);
      SortedEnumerates(s - {k});
      assert forall j :: j in s - {k} ==> Less(k, j);
    }
  }

  /** An ascending sequence is determined by its elements. */
  lemma {:induction false} AscendingUnique(a: seq<Str>, b: seq<Str>)
    requires Ascending(a) && Ascending(b)
    requires forall k :: k in a <==> k in b
    ensures a == b
    decreases |a|
  {
    assert |b| > 0 ==> b[0] in a;
    if a != [] {
      assert a[0] in b;
      assert b[0] in a;
      if a[0] != b[0] {
        var i :| 0 <= i < |b| && b[i] == a[0];
        var j :| 0 <= j < |a| && a[j] == b[0];
        LessAsymmetric(b[0], a[0]);
      }
      AscendingDistinct(a);
      AscendingDistinct(b);
      var p, q := a[1..], b[1..];
      forall k
        ensures k in p <==> k in q
      {
        if k in p {
          assert k in a;
          assert k in b;
          assert k != a[0];
        }
        if k in q {
          assert k in b;
          assert k in a;
          assert k != b[0];
        }
      }
      AscendingUnique(p, q);
      assert a == [a[0]] + p && b == [b[0]] + q;
    }
  }

  lemma AscendingDistinct(a: seq<Str>)
    requires Ascending(a)
    ensures forall i, j :: 0 <= i < j < |a| ==> a[i] != a[j]
  {
    forall i, j | 0 <= i < j < |a|
      ensures a[i] != a[j]
    {
      LessIrreflexive(a[i]);
    }
  }

  /** Any ascending enumeration of a key set, such as an ordered iterator's, is the sorted one. */
  lemma SortedIsOnlyOrder(s: set<Str>, ks: seq<Str>)
    requires Ascending(ks) && forall k :: k in ks <==> k in s
    ensures ks == Sorted(s)
  {
    SortedEnumerates(s);
    AscendingUnique(ks, Sorted(s));
  }
}
