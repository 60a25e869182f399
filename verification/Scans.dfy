/** What the four index scans return: selections of the ascending key order by how a key lies
    to the searched prefix. */
module Scans {
  import opened Bytes
  import opened Json

  datatype Region = Below | Within | Above

  /** Where a key lies relative to the block of keys that start with `p`. */
  function RegionOf(k: Str, p: Str): Region {
    if StartsWith(k, p) then Within else if Less(k, p) then Below else Above
  }

  /** The keys of one region, in their order. */
  function Select(ks: seq<Str>, p: Str, r: Region): seq<Str> {
    if ks == [] then []
    else if RegionOf(ks[0], p) == r then [ks[0]] + Select(ks[1..], p, r)
    else Select(ks[1..], p, r)
  }

  /** An index family: every key has its `#` and every value is an id text. */
  ghost predicate IsIndexFamily(fam: Family) {
    forall k :: k in fam ==> HASH in k && fam[k].Raw?
  }

  /** The id an index entry holds; only index families are scanned, so the default is not used. */
  function IdAt(fam: Family, k: Str): Str {
    if k in fam && fam[k].Raw? then fam[k].text else []
  }

  /** The ids stored under a sequence of keys. */
  function Ids(fam: Family, ks: seq<Str>): seq<Str> {
    seq(|ks|, i requires 0 <= i < |ks| => IdAt(fam, ks[i]))
  }

  function Reverse<T>(s: seq<T>): seq<T> {
    if s == [] then [] else Reverse(s[1..]) + [s[0]]
  }

  lemma {:induction false} ReverseSnoc<T>(s: seq<T>, x: T)
    ensures Reverse(s + [x]) == [x] + Reverse(s)
    decreases |s|
  {
    if s == [] {
      assert s + [x] == [x];
    } else {
      assert (s + [x])[1..] == s[1..] + [x];
      ReverseSnoc(s[1..], x);
    }
  }

  lemma {:induction false} ReverseReverse<T>(s: seq<T>)
    ensures Reverse(Reverse(s)) == s
    decreases |s|
  {
    if s != [] {
      ReverseReverse(s[1..]);
      ReverseSnoc(Reverse(s[1..]), s[0]);
      assert s == [s[0]] + s[1..];
    }
  }

  lemma {:induction false} ReverseMembers<T>(s: seq<T>)
    ensures |Reverse(s)| == |s| && multiset(Reverse(s)) == multiset(s)
    decreases |s|
  {
    if s != [] {
      ReverseMembers(s[1..]);
      assert s == [s[0]] + s[1..];
    }
  }

  lemma {:induction false} SelectMembers(ks: seq<Str>, p: Str, r: Region)
    ensures forall k :: k in Select(ks, p, r) <==> k in ks && RegionOf(k, p) == r
    decreases |ks|
  {
    if ks != [] {
      SelectMembers(ks[1..], p, r);
      assert ks == [ks[0]] + ks[1..];
    }
  }

  function EqualScan(fam: Family, p: Str): seq<Str> {
    Ids(fam, Select(Sorted(fam.Keys), p, Within))
  }

  function GreaterScan(fam: Family, p: Str): seq<Str> {
    Ids(fam, Select(Sorted(fam.Keys), p, Above))
  }

  /** Descending, because the source walks backwards from the prefix. */
  function LesserScan(fam: Family, p: Str): seq<Str> {
    Reverse(Ids(fam, Select(Sorted(fam.Keys), p, Below)))
  }

  /** The text `asc`; any other direction is descending. */
  const ASC: Str := [97, 115, 99]

  function OrderScan(fam: Family, ascending: bool): seq<Str> {
    var ids := Ids(fam, Sorted(fam.Keys));
    if ascending then ids else Reverse(ids)
  }

  predicate NotAfter(r: Region, r': Region) {
    r.Below? || r == r' || r'.Above?
  }

  /** Along ascending keys the region never steps back: first below, then within, then above. */
  lemma RegionsInOrder(p: Str, j: Str, k: Str)
    requires Less(j, k)
    ensures NotAfter(RegionOf(j, p), RegionOf(k, p))
  {
    LessTotal(j, p);
    if RegionOf(k, p).Below? {
      LessTransitive(j, k, p);
      if StartsWith(j, p) {
        PrefixLeq(p, j);
        LessAsymmetric(j, p);
      }
    } else if RegionOf(k, p).Within? && RegionOf(j, p).Above? {
      PrefixBlock(p, j, k);
    }
  }

  lemma {:induction false} SelectNone(ks: seq<Str>, p: Str, r: Region)
    requires forall i :: 0 <= i < |ks| ==> RegionOf(ks[i], p) != r
    ensures Select(ks, p, r) == []
    decreases |ks|
  {
    if ks != [] {
      SelectNone(ks[1..], p, r);
    }
  }

  ghost predicate RegionsSorted(ks: seq<Str>, p: Str) {
    forall i, j :: 0 <= i < j < |ks| ==> NotAfter(RegionOf(ks[i], p), RegionOf(ks[j], p))
  }

  /** Keys whose regions are in order are their below, within and above parts in a row. */
  lemma {:induction false} SelectPartition(ks: seq<Str>, p: Str)
    requires RegionsSorted(ks, p)
    ensures ks == Select(ks, p, Below) + Select(ks, p, Within) + Select(ks, p, Above)
    decreases |ks|
  {
    if ks != [] {
      var k, rest := ks[0], ks[1..];
      SelectPartition(rest, p);
      match RegionOf(k, p) {
        case Below =>
        case Within =>
          SelectNone(rest, p, Below);
        case Above =>
          SelectNone(rest, p, Below);
          SelectNone(rest, p, Within);
      }
      assert ks == [k] + rest;
    }
  }

  lemma SortedRegions(s: set<Str>, p: Str)
    ensures RegionsSorted(Sorted(s), p)
  {
    SortedEnumerates(s);
    var ks := Sorted(s);
    forall i, j | 0 <= i < j < |ks|
      ensures NotAfter(RegionOf(ks[i], p), RegionOf(ks[j], p))
    {
      RegionsInOrder(p, ks[i], ks[j]);
    }
  }

  /** `lo` and `hi` delimit the contiguous block of keys that start with `p`. */
  ghost predicate AreCuts(ks: seq<Str>, p: Str, lo: int, hi: int) {
    && 0 <= lo <= hi <= |ks|
    && forall i :: 0 <= i < |ks| ==> (Less(ks[i], p) <==> i < lo) && (StartsWith(ks[i], p) <==> lo <= i < hi)
  }

  lemma RegionCuts(s: set<Str>, p: Str, ks: seq<Str>) returns (lo: int, hi: int)
    requires ks == Sorted(s)
    ensures AreCuts(ks, p, lo, hi)
    ensures ks[..lo] == Select(ks, p, Below) && ks[lo..hi] == Select(ks, p, Within) && ks[hi..] == Select(ks, p, Above)
  {
    SelectPartition(ks, p) by {
      SortedRegions(s, p);
    }
    lo := |Select(ks, p, Below)|;
    hi := lo + |Select(ks, p, Within)|;
    forall i | 0 <= i < |ks|
      ensures (Less(ks[i], p) <==> i < lo) && (StartsWith(ks[i], p) <==> lo <= i < hi)
    {
      var (r, from) := if i < lo then (Below, 0) else if i < hi then (Within, lo) else (Above, hi);
      SelectedAt(ks, p, r, from, i);
      RegionFacts(ks[i], p);
    }
  }

  lemma SelectedAt(ks: seq<Str>, p: Str, r: Region, from: nat, i: nat)
    requires from <= i < |ks| && i - from < |Select(ks, p, r)| && ks[i] == Select(ks, p, r)[i - from]
    ensures RegionOf(ks[i], p) == r
  {
    SelectMembers(ks, p, r);
  }

  lemma RegionFacts(k: Str, p: Str)
    ensures StartsWith(k, p) <==> RegionOf(k, p).Within?
    ensures Less(k, p) <==> RegionOf(k, p).Below?
  {
    if StartsWith(k, p) {
      PrefixLeq(p, k);
      PrefixNotLess(p, k);
    }
  }

  lemma CutsUnique(ks: seq<Str>, p: Str, lo: int, hi: int, lo': int, hi': int)
    requires AreCuts(ks, p, lo, hi) && AreCuts(ks, p, lo', hi')
    ensures lo == lo' && hi == hi'
  {
    assert lo < |ks| ==> !Less(ks[lo], p);
    assert lo' < |ks| ==> !Less(ks[lo'], p);
    assert hi < |ks| ==> !StartsWith(ks[hi], p);
    assert hi' < |ks| ==> !StartsWith(ks[hi'], p);
  }

  lemma PrefixNotLess(p: Str, s: Str)
    requires Leq(p, s)
    ensures !Less(s, p)
  {
    if p == s {
      LessIrreflexive(p);
    } else {
      LessAsymmetric(p, s);
    }
  }

  lemma IdsSlice(fam: Family, ks: seq<Str>, from: int, to: int)
    requires 0 <= from <= to <= |ks|
    ensures Ids(fam, ks[from..to]) == Ids(fam, ks)[from..to]
  {
  }

  lemma CutTwice<T>(s: seq<T>, lo: nat, hi: nat)
    requires lo <= hi <= |s|
    ensures s[..lo] + s[lo..hi] + s[hi..] == s
  {
  }

  /** Pushing the element at `i` extends a copied slice upwards, or a reversed one downwards. */
  lemma PushNext<T>(d: seq<T>, s: seq<T>, from: nat, i: nat)
    requires from <= i < |s|
    ensures d + s[from..i] + [s[i]] == d + s[from..i + 1]
  {
    assert s[from..i + 1] == s[from..i] + [s[i]];
  }

  lemma PushPrev<T>(d: seq<T>, s: seq<T>, i: nat, to: nat)
    requires i < to <= |s|
    ensures d + Reverse(s[i + 1..to]) + [s[i]] == d + Reverse(s[i..to])
  {
    assert s[i..to][1..] == s[i + 1..to];
    assert Reverse(s[i..to]) == Reverse(s[i + 1..to]) + [s[i]];
  }

  /** Each scan is the slice of the whole id sequence that the cuts of the key order delimit. */
  lemma ScansAreSlices(fam: Family, p: Str, lo: int, hi: int)
    requires AreCuts(Sorted(fam.Keys), p, lo, hi)
    ensures var ids := OrderScan(fam, true);
            && |ids| == |Sorted(fam.Keys)|
            && LesserScan(fam, p) == Reverse(ids[..lo])
            && EqualScan(fam, p) == ids[lo..hi]
            && GreaterScan(fam, p) == ids[hi..]
  {
    var ks := Sorted(fam.Keys);
    var lo', hi' := RegionCuts(fam.Keys, p, ks);
    CutsUnique(ks, p, lo, hi, lo', hi');
    IdsSlice(fam, ks, 0, lo);
    IdsSlice(fam, ks, lo, hi);
    IdsSlice(fam, ks, hi, |ks|);
    assert ks[0..lo] == ks[..lo] && ks[hi..|ks|] == ks[hi..];
  }

  /** Scan trichotomy: for every family and every prefix, the lesser scan reversed, the equal scan
      and the greater scan together are the ascending order scan. */
  lemma ScanTrichotomy(fam: Family, p: Str)
    ensures Reverse(LesserScan(fam, p)) + EqualScan(fam, p) + GreaterScan(fam, p) == OrderScan(fam, true)
    ensures OrderScan(fam, false) == Reverse(OrderScan(fam, true))
  {
    var ids := OrderScan(fam, true);
    var lo, hi := RegionCuts(fam.Keys, p, Sorted(fam.Keys));
    ScansAreSlices(fam, p, lo, hi);
    ReverseReverse(ids[..lo]);
    CutTwice(ids, lo, hi);
  }

  lemma {:induction false} ReversedAt(ids: seq<Str>, i: nat)
    requires i < |ids|
    ensures |Reverse(ids)| == |ids| && Reverse(ids)[i] == ids[|ids| - 1 - i]
    decreases |ids|
  {
    ReverseMembers(ids[1..]);
    if i < |ids| - 1 {
      ReversedAt(ids[1..], i);
    }
  }

  /** The greater scan is the end of the ascending scan, the lesser scan its beginning backwards. */
  lemma GreaterIsSuffix(fam: Family, p: Str) returns (hi: nat)
    ensures hi + |GreaterScan(fam, p)| == |OrderScan(fam, true)|
    ensures forall i :: 0 <= i < |GreaterScan(fam, p)| ==> GreaterScan(fam, p)[i] == OrderScan(fam, true)[hi + i]
  {
    var lo;
    lo, hi := RegionCuts(fam.Keys, p, Sorted(fam.Keys));
    ScansAreSlices(fam, p, lo, hi);
  }

  lemma LesserIsReversedPrefix(fam: Family, p: Str) returns (lo: nat)
    ensures lo == |LesserScan(fam, p)| <= |OrderScan(fam, true)|
    ensures forall i :: 0 <= i < lo ==> LesserScan(fam, p)[i] == OrderScan(fam, true)[lo - 1 - i]
  {
    var hi;
    lo, hi := RegionCuts(fam.Keys, p, Sorted(fam.Keys));
    ScansAreSlices(fam, p, lo, hi);
    ReversedPrefix(OrderScan(fam, true), lo);
  }

  lemma ReversedPrefix(ids: seq<Str>, n: nat)
    requires n <= |ids|
    ensures |Reverse(ids[..n])| == n && forall i :: 0 <= i < n ==> Reverse(ids[..n])[i] == ids[n - 1 - i]
  {
    ReverseMembers(ids[..n]);
    forall i | 0 <= i < n
      ensures Reverse(ids[..n])[i] == ids[n - 1 - i]
    {
      ReversedAt(ids[..n], i);
    }
  }
}
