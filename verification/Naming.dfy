/** Column-family names: `collection__index__field` and the parsing that lists collections and
    indexes back from the one namespace of families. */
module Naming {
  import opened Bytes
  import opened Json

  /** The characters of `__index__`. */
  const DELIMITER: Str := [95, 95, 105, 110, 100, 101, 120, 95, 95]

  /** RocksDB's `default` family. */
  const DEFAULT: Str := [100, 101, 102, 97, 117, 108, 116]

  function IndexCfName(c: Str, f: Str): Str {
    c + DELIMITER + f
  }

  predicate DelimiterAt(s: Str, i: nat) {
    i + 9 <= |s| && s[i..i + 9] == DELIMITER
  }

  /** `std::string::find`: the first occurrence of the delimiter at or after `from`. */
  function FindFrom(s: Str, from: nat): (r: Option<nat>)
    ensures r.Some? ==> from <= r.value && r.value + 9 <= |s|
    decreases |s| - from
  {
    if |s| < from + 9 then None
    else if DelimiterAt(s, from) then Some(from)
    else FindFrom(s, from + 1)
  }

  lemma {:induction false} FindsFirst(s: Str, from: nat)
    ensures var r := FindFrom(s, from);
            && (r.Some? ==> DelimiterAt(s, r.value) && forall i :: from <= i < r.value ==> !DelimiterAt(s, i))
            && (r.None? ==> forall i: nat :: from <= i ==> !DelimiterAt(s, i))
    decreases |s| - from
  {
    if from + 9 <= |s| && !DelimiterAt(s, from) {
      FindsFirst(s, from + 1);
    }
  }

  function Find(s: Str): Option<nat> {
    FindFrom(s, 0)
  }

  /** The collection and field that an index family's name is read as. */
  function ParseCf(x: Str): (Str, Str)
    requires Find(x).Some?
  {
    (x[..Find(x).value], x[Find(x).value + 9..])
  }

  predicate IsIndexCf(x: Str) {
    x != DEFAULT && Find(x).Some?
  }

  /** The fields listed as indexed for a collection. */
  function IndexNames(s: set<Str>, c: Str): set<Str> {
    set x | x in s && IsIndexCf(x) && ParseCf(x).0 == c :: ParseCf(x).1
  }

  function CollectionNames(s: set<Str>): set<Str> {
    set x | x in s && x != DEFAULT && Find(x).None?
  }

  /** Collection names that the listing can tell apart from index families. */
  ghost predicate WellFormedName(c: Str) {
    && Find(c).None?
    && !(7 <= |c| && c[|c| - 7..] == DELIMITER[..7])
    && !(8 <= |c| && c[|c| - 8..] == DELIMITER[..8])
  }

  /** The delimiter overlaps itself only in its one or two outer underscores. */
  lemma DelimiterBorders(k: nat)
    requires 0 < k < 7
    ensures DELIMITER[k..] != DELIMITER[..9 - k]
  {
    var d := if k == 1 then 1 else 0;
    assert DELIMITER[k..][d] != DELIMITER[..9 - k][d];
  }

  /** An index family's name is read back as its collection and field exactly when the collection
      name is well formed, whatever the field. */
  lemma NameParsesBackExactly(c: Str, f: Str)
    ensures IsIndexCf(IndexCfName(c, f))
    ensures ParseCf(IndexCfName(c, f)) == (c, f) <==> WellFormedName(c)
  {
    var x := IndexCfName(c, f);
    assert x[|c|..|c| + 9] == DELIMITER;
    assert DelimiterAt(x, |c|);
    assert x != DEFAULT;
    FindsFirst(x, 0);
    var pos := Find(x).value;
    assert pos <= |c|;
    if WellFormedName(c) {
      if pos < |c| {
        EarlyDelimiter(c, f, pos);
      }
      assert x[..|c|] == c && x[|c| + 9..] == f;
    } else {
      var early := EarlierOccurrence(c, f);
      assert |ParseCf(x).0| < |c|;
    }
  }

  /** A delimiter that starts inside the collection name betrays a name that is not well formed. */
  lemma EarlyDelimiter(c: Str, f: Str, pos: nat)
    requires pos < |c| && DelimiterAt(IndexCfName(c, f), pos)
    ensures !WellFormedName(c)
  {
    if pos + 9 <= |c| {
      assert c[pos..pos + 9] == IndexCfName(c, f)[pos..pos + 9];
      assert DelimiterAt(c, pos);
      FindsFirst(c, 0);
    } else {
      StraddlingDelimiter(c, f, pos, |c| - pos);
    }
  }

  lemma StraddlingDelimiter(c: Str, f: Str, pos: nat, k: nat)
    requires pos + k == |c| && 0 < k < 9 && DelimiterAt(IndexCfName(c, f), pos)
    ensures k == 7 || k == 8
    ensures c[pos..] == DELIMITER[..k]
  {
    var x := IndexCfName(c, f);
    assert x[pos..|c|] == c[pos..] == DELIMITER[..k];
    assert x[|c|..|c| + 9] == DELIMITER;
    assert x[|c|..pos + 9] == DELIMITER[k..] == DELIMITER[..9 - k];
    if k < 7 {
      DelimiterBorders(k);
    }
  }

  lemma EarlierOccurrence(c: Str, f: Str) returns (pos: nat)
    requires !WellFormedName(c)
    ensures pos < |c| && DelimiterAt(IndexCfName(c, f), pos)
  {
    if Find(c).Some? {
      pos := Find(c).value;
      InnerDelimiter(c, f);
    } else {
      var k := if 7 <= |c| && c[|c| - 7..] == DELIMITER[..7] then 7 else 8;
      CompletedDelimiter(c, f, k);
      pos := |c| - k;
    }
  }

  lemma InnerDelimiter(c: Str, f: Str)
    requires Find(c).Some?
    ensures DelimiterAt(IndexCfName(c, f), Find(c).value)
  {
    var pos := Find(c).value;
    assert DelimiterAt(c, pos) by {
      FindsFirst(c, 0);
    }
    assert IndexCfName(c, f)[pos..pos + 9] == c[pos..pos + 9];
  }

  lemma CompletedDelimiter(c: Str, f: Str, k: nat)
    requires (k == 7 || k == 8) && k <= |c| && c[|c| - k..] == DELIMITER[..k]
    ensures DelimiterAt(IndexCfName(c, f), |c| - k)
  {
    var x, pos := IndexCfName(c, f), |c| - k;
    forall i | 0 <= i < 9
      ensures x[pos + i] == DELIMITER[i]
    {
      if i < k {
        assert c[pos..][i] == DELIMITER[..k][i];
      } else {
        assert x[pos + i] == DELIMITER[i - k];
      }
    }
    assert x[pos..pos + 9] == DELIMITER;
  }

  /** Listing is exact for a well-formed name, in any namespace: a field is listed precisely when
      its family exists, and nothing of another collection is. */
  lemma IndexNamesExact(s: set<Str>, c: Str)
    requires WellFormedName(c)
    ensures forall f :: f in IndexNames(s, c) <==> IndexCfName(c, f) in s
  {
    forall f
      ensures f in IndexNames(s, c) <==> IndexCfName(c, f) in s
    {
      NameParsesBackExactly(c, f);
      assert ParseCf(IndexCfName(c, f)).1 == f;
      if f in IndexNames(s, c) {
        var x :| x in s && IsIndexCf(x) && ParseCf(x) == (c, f);
        ParsedNameRebuilds(x);
      }
    }
  }

  lemma ParsedNameRebuilds(x: Str)
    requires Find(x).Some?
    ensures IndexCfName(ParseCf(x).0, ParseCf(x).1) == x
  {
    FindsFirst(x, 0);
    var pos := Find(x).value;
    assert x == x[..pos] + x[pos..pos + 9] + x[pos + 9..];
  }

  /** For a name that is not well formed the listing misses every one of its indexes. */
  lemma IndexNamesMissIllFormed(s: set<Str>, c: Str)
    requires !WellFormedName(c)
    ensures IndexNames(s, c) == {}
  {
    forall f | f in IndexNames(s, c)
      ensures false
    {
      var x :| x in s && IsIndexCf(x) && ParseCf(x) == (c, f);
      ParsedNameRebuilds(x);
      NameParsesBackExactly(c, f);
    }
  }

  /** Every family but the default one is listed as exactly one of a collection or an index of one
      collection. */
  lemma FamiliesArePartitioned(s: set<Str>, x: Str)
    requires x in s && x != DEFAULT
    ensures x in CollectionNames(s) <==> !(exists c, f :: f in IndexNames(s, c) && x == IndexCfName(c, f))
    ensures forall c, f, c', f' | f in IndexNames(s, c) && f' in IndexNames(s, c') ::
              IndexCfName(c, f) == x && IndexCfName(c', f') == x ==> c == c' && f == f'
  {
    if Find(x).Some? {
      ParsedNameRebuilds(x);
      assert ParseCf(x).1 in IndexNames(s, ParseCf(x).0);
    }
    forall c, f | f in IndexNames(s, c) && x == IndexCfName(c, f)
      ensures Find(x).Some? && ParseCf(x) == (c, f)
    {
      NameParsesBackExactly(c, f);
      if !WellFormedName(c) {
        IndexNamesMissIllFormed(s, c);
      }
    }
  }

  /** Families of different well-formed collections are never confused. */
  lemma IndexCfNamesDistinct(c: Str, f: Str, d: Str, g: Str)
    requires WellFormedName(c) && WellFormedName(d)
    ensures IndexCfName(c, f) == IndexCfName(d, g) <==> c == d && f == g
    ensures IndexCfName(c, f) != d
  {
    NameParsesBackExactly(c, f);
    NameParsesBackExactly(d, g);
  }
}
