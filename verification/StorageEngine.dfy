/** The storage engine: named column families of ordered keys, the iterator over one family, and
    the loops that read ids off an index family. */
module StorageEngine {
  import opened Bytes
  import opened Json
  import opened Scans
  import opened Naming

  /** One engine write. */
  datatype Write = Put(cf: Str, key: Str, value: Value) | Remove(cf: Str, key: Str)

  /** A write to a family that does not exist changes nothing and is reported as not found. */
  function Apply(s: Families, w: Write): Families {
    if w.cf !in s then s
    else match w
      case Put(cf, key, value) => s[cf := s[cf][key := value]]
      case Remove(cf, key) => s[cf := s[cf] - {key}]
  }

  function ApplyAll(s: Families, ws: seq<Write>): Families {
    if ws == [] then s else ApplyAll(Apply(s, ws[0]), ws[1..])
  }

  /** Dropping a family; RocksDB refuses to drop its default one. */
  function WithoutFamily(s: Families, name: Str): Families {
    if name == DEFAULT then s else s - {name}
  }

  function DropStatus(s: Families, name: Str): Status {
    if name !in s then NotFound else if name == DEFAULT then IOError else OK
  }

  lemma {:induction false} ApplyAllConcat(s: Families, a: seq<Write>, b: seq<Write>)
    ensures ApplyAll(s, a + b) == ApplyAll(ApplyAll(s, a), b)
    decreases |a|
  {
    if a == [] {
      assert a + b == b;
    } else {
      assert (a + b)[1..] == a[1..] + b;
      ApplyAllConcat(Apply(s, a[0]), a[1..], b);
    }
  }

  /** An ordered iterator over a snapshot of one family; it is valid while it stands on a key. */
  class Iterator {
    const family: Family
    const keys: seq<Str>
    var pos: int

    ghost predicate Inv()
      reads this
    {
      && keys == Sorted(family.Keys)
      && (forall i :: 0 <= i < |keys| ==> keys[i] in family)
      && -1 <= pos <= |keys|
    }

    predicate Valid()
      reads this
    {
      0 <= pos < |keys|
    }

    constructor (family: Family)
      ensures Inv() && this.family == family && pos == -1
    {
      this.family := family;
      keys := Sorted(family.Keys);
      pos := -1;
      SortedEnumerates(family.Keys);
    }

    function Key(): Str
      requires Valid()
      reads this
    {
      keys[pos]
    }

    function Value(): Value
      requires Inv() && Valid()
      reads this
    {
      family[keys[pos]]
    }

    method SeekToFirst()
      requires Inv()
      modifies this
      ensures Inv() && pos == 0
    {
      pos := 0;
    }

    method SeekToLast()
      requires Inv()
      modifies this
      ensures Inv() && pos == |keys| - 1
    {
      pos := |keys| - 1;
    }

    /** To the first key at or after `target`. */
    method Seek(target: Str)
      requires Inv()
      modifies this
      ensures Inv() && 0 <= pos
      ensures forall i :: 0 <= i < pos ==> Less(keys[i], target)
      ensures Valid() ==> !Less(keys[pos], target)
    {
      pos := 0;
      while pos < |keys| && Less(keys[pos], target)
        invariant 0 <= pos <= |keys|
        invariant forall i :: 0 <= i < pos ==> Less(keys[i], target)
      {
        pos := pos + 1;
      }
    }

    /** To the last key at or before `target`. */
    method SeekForPrev(target: Str)
      requires Inv()
      modifies this
      ensures Inv() && pos < |keys|
      ensures forall i :: pos < i < |keys| ==> !Leq(keys[i], target)
      ensures Valid() ==> Leq(keys[pos], target)
    {
      pos := |keys| - 1;
      while 0 <= pos && !Leq(keys[pos], target)
        invariant -1 <= pos < |keys|
        invariant forall i :: pos < i < |keys| ==> !Leq(keys[i], target)
      {
        pos := pos - 1;
      }
    }

    method Next()
      requires Inv() && Valid()
      modifies this
      ensures Inv() && pos == old(pos) + 1
    {
      pos := pos + 1;
    }

    method Prev()
      requires Inv() && Valid()
      modifies this
      ensures Inv() && pos == old(pos) - 1
    {
      pos := pos - 1;
    }
  }

  /** The engine's column families; documents and index entries live in families of one namespace. */
  class StorageEngine {
    var families: Families

    constructor (families: Families)
      ensures this.families == families
    {
      this.families := families;
    }

    method CreateCollection(name: Str) returns (status: Status)
      modifies this
      ensures name in old(families) ==> status == InvalidArgument && families == old(families)
      ensures name !in old(families) ==> status == OK && families == old(families)[name := map[]]
    {
      if name in families {
        return InvalidArgument;
      }
      families := families[name := map[]];
      return OK;
    }

    method DropCollection(name: Str) returns (status: Status)
      modifies this
      ensures families == WithoutFamily(old(families), name) && status == DropStatus(old(families), name)
    {
      if name !in families {
        return NotFound;
      }
      if name == DEFAULT {
        return IOError;
      }
      families := families - {name};
      return OK;
    }

    method Put(collection: Str, key: Str, value: Value) returns (status: Status)
      modifies this
      ensures families == Apply(old(families), Write.Put(collection, key, value))
      ensures status == if collection in old(families) then OK else NotFound
    {
      if collection !in families {
        return NotFound;
      }
      families := families[collection := families[collection][key := value]];
      return OK;
    }

    method Get(collection: Str, key: Str) returns (status: Status, value: Option<Value>)
      ensures status == OK <==> collection in families && key in families[collection]
      ensures status == OK ==> value == Some(families[collection][key])
      ensures status != OK ==> status == NotFound && value == None
    {
      if collection !in families || key !in families[collection] {
        return NotFound, None;
      }
      return OK, Some(families[collection][key]);
    }

    method Remove(collection: Str, key: Str) returns (status: Status)
      modifies this
      ensures families == Apply(old(families), Write.Remove(collection, key))
      ensures status == if collection in old(families) then OK else NotFound
    {
      if collection !in families {
        return NotFound;
      }
      families := families[collection := families[collection] - {key}];
      return OK;
    }

    /** Collects the listing of all collections, then looks one up. */
    method GetIndexNames(collection: Str) returns (names: set<Str>)
      ensures names == IndexNames(families.Keys, collection)
    {
      var index: map<Str, set<Str>> := map[];
      var todo := families.Keys;
      ghost var done: set<Str> := {};
      while todo != {}
        invariant done + todo == families.Keys && Lists(index, done)
        decreases |todo|
      {
        var x :| x in todo;
        ListOne(index, done, x);
        todo, done := todo - {x}, done + {x};
        index := WithListed(index, x);
      }
      assert done == families.Keys;
      return FieldsOf(index, collection);
    }

    method GetCollectionNames() returns (names: set<Str>)
      ensures names == CollectionNames(families.Keys)
    {
      names := {};
      var todo := families.Keys;
      while todo != {}
        invariant todo <= families.Keys
        invariant names == CollectionNames(families.Keys - todo)
        decreases |todo|
      {
        var x :| x in todo;
        todo := todo - {x};
        if x != DEFAULT && Find(x).None? {
          names := names + {x};
        }
      }
    }

    method FetchDocIdsByOrder(collection: Str, value: Str, docIds: seq<Str>)
      returns (status: Status, result: seq<Str>)
      requires collection in families ==> IsIndexFamily(families[collection])
      ensures collection !in families ==> status == NotFound && result == docIds
      ensures collection in families ==>
                status == OK && result == docIds + OrderScan(families[collection], value == ASC)
    {
      if collection !in families {
        return NotFound, docIds;
      }
      var it := new Iterator(families[collection]);
      ghost var ids := Ids(it.family, it.keys);
      assert ids[0..] == ids && ids[..|ids|] == ids;
      if value == ASC {
        it.SeekToFirst();
        result := PushForwards(it, docIds);
      } else {
        it.SeekToLast();
        result := PushBackwards(it, docIds, false);
      }
      status := OK;
    }

    method FetchDocIdsForEqual(collection: Str, prefix: Str, docIds: seq<Str>)
      returns (status: Status, result: seq<Str>)
      requires collection in families ==> IsIndexFamily(families[collection])
      ensures collection !in families ==> status == NotFound && result == docIds
      ensures collection in families ==>
                status == OK && result == docIds + EqualScan(families[collection], prefix)
    {
      if collection !in families {
        return NotFound, docIds;
      }
      var fam := families[collection];
      var it := new Iterator(fam);
      ghost var ids := Ids(fam, it.keys);
      ghost var lo, hi := PrefixCuts(fam, prefix);
      it.Seek(prefix);
      SeekLandsAtCut(it.keys, prefix, it.pos, lo);
      result := docIds;
      while it.Valid() && StartsWith(it.Key(), prefix)
        invariant it.Inv() && lo <= it.pos <= hi
        invariant result == docIds + ids[lo..it.pos]
        decreases |it.keys| - it.pos
      {
        PushNext(docIds, ids, lo, it.pos);
        result := result + [it.Value().text];
        it.Next();
      }
      assert it.pos == hi;
      ScansAreSlices(fam, prefix, lo, hi);
      status := OK;
    }

    method FetchDocIdsForGreater(collection: Str, prefix: Str, docIds: seq<Str>)
      returns (status: Status, result: seq<Str>)
      requires collection in families ==> IsIndexFamily(families[collection])
      ensures collection !in families ==> status == NotFound && result == docIds
      ensures collection in families ==>
                status == OK && result == docIds + GreaterScan(families[collection], prefix)
    {
      if collection !in families {
        return NotFound, docIds;
      }
      var fam := families[collection];
      var it := new Iterator(fam);
      ghost var lo, hi := PrefixCuts(fam, prefix);
      it.Seek(prefix);
      SeekLandsAtCut(it.keys, prefix, it.pos, lo);
      while it.Valid() && StartsWith(it.Key(), prefix)
        invariant it.Inv() && lo <= it.pos <= hi
        decreases |it.keys| - it.pos
      {
        it.Next();
      }
      assert it.pos == hi;
      ScansAreSlices(fam, prefix, lo, hi);
      result := PushForwards(it, docIds);
      status := OK;
    }

    method FetchDocIdsForLesser(collection: Str, prefix: Str, docIds: seq<Str>)
      returns (status: Status, result: seq<Str>)
      requires collection in families ==> IsIndexFamily(families[collection])
      ensures collection !in families ==> status == NotFound && result == docIds
      ensures collection in families ==>
                status == OK && result == docIds + LesserScan(families[collection], prefix)
    {
      if collection !in families {
        return NotFound, docIds;
      }
      var fam := families[collection];
      var it := new Iterator(fam);
      ghost var lo, hi := PrefixCuts(fam, prefix);
      SeekBelow(it, prefix, lo, hi);
      ScansAreSlices(fam, prefix, lo, hi);
      result := PushBackwards(it, docIds, true);
      status := OK;
    }
  }

  /** To the last key below the block of the prefix: backwards to the prefix, and one step back from it
      if it is a key itself. */
  method SeekBelow(it: Iterator, prefix: Str, ghost lo: int, ghost hi: int)
    requires it.Inv() && AreCuts(it.keys, prefix, lo, hi)
    modifies it
    ensures it.Inv() && it.pos == lo - 1
  {
    it.SeekForPrev(prefix);
    SeekForPrevLandsAtCut(it.keys, prefix, it.pos, lo) by {
      SortedEnumerates(it.family.Keys);
    }
    if it.Valid() && StartsWith(it.Key(), prefix) {
      it.Prev();
    }
  }

  /** The forward push loop, from where the iterator stands to the end of the family. */
  method PushForwards(it: Iterator, docIds: seq<Str>) returns (result: seq<Str>)
    requires it.Inv() && 0 <= it.pos && IsIndexFamily(it.family)
    modifies it
    ensures result == docIds + Ids(it.family, it.keys)[old(it.pos)..]
  {
    ghost var ids := Ids(it.family, it.keys);
    ghost var from := it.pos;
    result := docIds;
    while it.Valid()
      invariant it.Inv() && from <= it.pos
      invariant result == docIds + ids[from..it.pos]
      decreases |it.keys| - it.pos
    {
      PushNext(docIds, ids, from, it.pos);
      result := result + [it.Value().text];
      it.Next();
    }
    assert ids[from..it.pos] == ids[from..];
  }

  /** The backward push loop. The lesser scan also copies the value part of every key it passes. */
  method PushBackwards(it: Iterator, docIds: seq<Str>, copyValuePart: bool) returns (result: seq<Str>)
    requires it.Inv() && it.pos < |it.keys| && IsIndexFamily(it.family)
    modifies it
    ensures result == docIds + Reverse(Ids(it.family, it.keys)[..old(it.pos) + 1])
  {
    ghost var ids := Ids(it.family, it.keys);
    ghost var to := it.pos + 1;
    result := docIds;
    while it.Valid()
      invariant it.Inv() && it.pos < to
      invariant result == docIds + Reverse(ids[it.pos + 1..to])
      decreases it.pos + 1
    {
      if copyValuePart {
        assert it.Key() in it.family;
        var _ := ValuePart(it.Key());
      }
      PushPrev(docIds, ids, it.pos, to);
      result := result + [it.Value().text];
      it.Prev();
    }
    assert ids[it.pos + 1..to] == ids[..to];
  }

  /** The inner loop of the lesser scan: it stops at the first `#`, so it stays inside the key
      because every key of an index family holds one. */
  method ValuePart(key: Str) returns (value: Str)
    requires HASH in key
    ensures HASH !in value && StartsWith(key, value + [HASH])
  {
    var p := 0;
    value := [];
    while key[p] != HASH
      invariant 0 <= p < |key| && HASH in key[p..] && HASH !in value
      invariant value == key[..p]
      decreases |key| - p
    {
      value := value + [key[p]];
      p := p + 1;
    }
    assert value + [HASH] == key[..p + 1];
  }

  /** `operator[]` of a map of sets: a missing key reads as the empty set. */
  function FieldsOf(index: map<Str, set<Str>>, c: Str): set<Str> {
    if c in index then index[c] else {}
  }

  ghost predicate Lists(index: map<Str, set<Str>>, done: set<Str>) {
    forall c :: FieldsOf(index, c) == IndexNames(done, c)
  }

  /** A family that is named as an index is listed under the collection its name parses to. */
  function WithListed(index: map<Str, set<Str>>, x: Str): map<Str, set<Str>> {
    if !IsIndexCf(x) then index
    else
      var (c, f) := ParseCf(x);
      index[c := FieldsOf(index, c) + {f}]
  }

  lemma ListOne(index: map<Str, set<Str>>, done: set<Str>, x: Str)
    requires Lists(index, done)
    ensures Lists(WithListed(index, x), done + {x})
  {
    forall c
      ensures IndexNames(done + {x}, c) ==
              IndexNames(done, c) + if IsIndexCf(x) && ParseCf(x).0 == c then {ParseCf(x).1} else {}
    {
    }
  }

  lemma PrefixCuts(fam: Family, p: Str) returns (lo: int, hi: int)
    ensures AreCuts(Sorted(fam.Keys), p, lo, hi)
  {
    lo, hi := RegionCuts(fam.Keys, p, Sorted(fam.Keys));
  }

  lemma SeekLandsAtCut(ks: seq<Str>, p: Str, pos: nat, lo: int)
    requires 0 <= lo <= |ks| && pos <= |ks|
    requires forall i :: 0 <= i < |ks| ==> (Less(ks[i], p) <==> i < lo)
    requires forall i :: 0 <= i < pos ==> Less(ks[i], p)
    requires pos < |ks| ==> !Less(ks[pos], p)
    ensures pos == lo
  {
    assert lo < |ks| ==> !Less(ks[lo], p);
  }

  /** Seeking backwards stops just below the cut, or on the prefix itself if that is a key. */
  lemma SeekForPrevLandsAtCut(ks: seq<Str>, p: Str, pos: int, lo: int)
    requires Ascending(ks) && -1 <= pos < |ks| && 0 <= lo <= |ks|
    requires forall i :: 0 <= i < |ks| ==> (Less(ks[i], p) <==> i < lo)
    requires forall i :: pos < i < |ks| ==> !Leq(ks[i], p)
    requires 0 <= pos ==> Leq(ks[pos], p)
    ensures pos == lo - 1 || (pos == lo && ks[pos] == p)
  {
    assert 0 < lo ==> Less(ks[lo - 1], p);
    assert lo < |ks| ==> !Less(ks[lo], p);
  }
}
