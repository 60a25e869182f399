/** Index keys `value#id`: how values are encoded, that keys determine value and id, and that the
    region of a key relative to a searched value is the order of the two values. */
module IndexKeys {
  import opened Bytes
  import opened Json
  import opened Scans
  import KeyCodec
  import TotalOrder

  const TRUE: Str := [116, 114, 117, 101]
  const FALSE: Str := [102, 97, 108, 115, 101]

  /** The encoded form of an indexed value; `None` where the conversion of an object or an array
      to a string throws. */
  function ParseValue(v: Json): (e: Option<Str>)
    ensures e.None? <==> v.Object? || v.Array?
  {
    match v
    case Text(chars) => Some(chars)
    case Integer(number) => Some(KeyCodec.IntKey(KeyCodec.Narrow(number)))
    case Float(bits) => Some(KeyCodec.DoubleKey(bits))
    case Boolean(flag) => Some(if flag then TRUE else FALSE)
    case Null => Some([])
    case Object(_) => None
    case Array(_) => None
  }

  /** `parseValue` itself, with the encoders it calls; an exception is `None`. */
  method EncodeValue(v: Json) returns (e: Option<Str>)
    ensures e == ParseValue(v)
  {
    match v {
      case Text(chars) =>
        e := Some(chars);
      case Integer(number) =>
        var key := KeyCodec.EncodeIntKey(KeyCodec.Narrow(number));
        e := Some(key);
      case Float(bits) =>
        var key := KeyCodec.EncodeDoubleKey(bits);
        e := Some(key);
      case Boolean(flag) =>
        e := Some(if flag then TRUE else FALSE);
      case Null =>
        e := Some([]);
      case Object(_) =>
        e := None;
      case Array(_) =>
        e := None;
    }
  }

  function Term(e: Str): Str {
    e + [HASH]
  }

  function IndexKey(e: Str, id: Str): Str {
    e + [HASH] + id
  }

  // ---------- a key determines its parts ----------

  /** Splits a key at its last `#` into value part and id. */
  function SplitKey(k: Str): (Str, Str) {
    if k == [] then ([], [])
    else
      var n := |k| - 1;
      if k[n] == HASH then (k[..n], [])
      else
        var (e, id) := SplitKey(k[..n]);
        (e, id + [k[n]])
  }

  lemma {:induction false} SplitIndexKey(e: Str, id: Str)
    requires HASH !in id
    ensures SplitKey(IndexKey(e, id)) == (e, id)
    decreases |id|
  {
    var k := IndexKey(e, id);
    var n := |k| - 1;
    if id == [] {
      assert k[..n] == e;
    } else {
      var front := id[..|id| - 1];
      assert k[..n] == IndexKey(e, front);
      SplitIndexKey(e, front);
      assert id == front + [k[n]];
    }
  }

  lemma {:induction false} JoinSplitKey(k: Str)
    requires HASH in k
    ensures IndexKey(SplitKey(k).0, SplitKey(k).1) == k && HASH !in SplitKey(k).1
    decreases |k|
  {
    var n := |k| - 1;
    assert k == k[..n] + [k[n]];
    if k[n] != HASH {
      JoinSplitKey(k[..n]);
    }
  }

  ghost predicate EndsWith(s: Str, t: Str) {
    |t| <= |s| && s[|s| - |t|..] == t
  }

  /** Two different ids can be given a common index key exactly when one of them ends in `#`
      followed by the other; ids without `#` never collide. */
  lemma KeysCollideExactly(id: Str, id': Str)
    requires id != id'
    ensures (exists e, e' :: IndexKey(e, id) == IndexKey(e', id')) <==>
              EndsWith(id, [HASH] + id') || EndsWith(id', [HASH] + id)
    ensures HASH !in id && HASH !in id' ==> !(exists e, e' :: IndexKey(e, id) == IndexKey(e', id'))
  {
    if EndsWith(id, [HASH] + id') {
      CollisionWitness(id, id');
    } else if EndsWith(id', [HASH] + id) {
      CollisionWitness(id', id);
    }
    forall e, e' | IndexKey(e, id) == IndexKey(e', id')
      ensures EndsWith(id, [HASH] + id') || EndsWith(id', [HASH] + id)
      ensures HASH in id || HASH in id'
    {
      if |id| < |id'| {
        CollisionShape(e', id', e, id);
      } else {
        CollisionShape(e, id, e', id');
      }
    }
  }

  lemma CollisionWitness(id: Str, id': Str)
    requires EndsWith(id, [HASH] + id')
    ensures exists e, e' :: IndexKey(e, id) == IndexKey(e', id')
  {
    var head := [HASH] + id[..|id| - |id'| - 1];
    assert id == id[..|id| - |id'| - 1] + ([HASH] + id');
    assert IndexKey([], id) == IndexKey(head, id');
  }

  lemma CollisionShape(e: Str, id: Str, e': Str, id': Str)
    requires IndexKey(e, id) == IndexKey(e', id') && |id'| <= |id| && id != id'
    ensures EndsWith(id, [HASH] + id') && HASH in id
  {
    var k := IndexKey(e, id);
    assert k == IndexKey(e', id');
    assert k[|k| - |id|..] == id && k[|k| - |id'|..] == id';
    assert |id'| < |id|;
    assert k[|e'|] == HASH;
    assert id[|e'| - |e| - 1] == HASH;
    assert id[|id| - |id'| - 1..] == k[|e'|..] == [HASH] + id';
  }

  // ---------- the region of a key is the order of the values ----------

  /** Neither terminated encoding is a prefix of the other unless they are equal. */
  ghost predicate Separated(e: Str, w: Str) {
    e == w || (!StartsWith(Term(w), Term(e)) && !StartsWith(Term(e), Term(w)))
  }

  lemma RegionOfIndexKey(e: Str, id: Str, w: Str)
    requires Separated(e, w)
    ensures RegionOf(IndexKey(e, id), Term(w)) ==
            if e == w then Within else if Less(Term(e), Term(w)) then Below else Above
  {
    assert IndexKey(e, id) == Term(e) + id;
    if e != w {
      assert Term(w) + [] == Term(w);
      if StartsWith(IndexKey(e, id), Term(w)) {
        PrefixesNest(IndexKey(e, id), Term(e), Term(w));
      }
      LessTotal(Term(e), Term(w));
      if Less(Term(e), Term(w)) {
        LessExtend(Term(e), Term(w), id, []);
      } else {
        TermInjective(e, w);
        LessExtend(Term(w), Term(e), [], id);
        LessAsymmetric(Term(w), IndexKey(e, id));
      }
    }
  }

  lemma PrefixesNest(s: Str, p: Str, q: Str)
    requires StartsWith(s, p) && StartsWith(s, q)
    ensures StartsWith(p, q) || StartsWith(q, p)
  {
    if |p| <= |q| {
      assert q[..|p|] == s[..|p|];
    }
  }

  lemma TermInjective(e: Str, w: Str)
    ensures Term(e) == Term(w) <==> e == w
  {
    assert Term(e)[..|e|] == e && Term(w)[..|w|] == w;
  }

  /** `t` is `s` and more, and goes on with a byte that does not sort after `#`. */
  predicate Continues(t: Str, s: Str) {
    |s| < |t| && s <= t && t[|s|] <= HASH
  }

  /** Strings that the `#` behind them does not confuse; for example any whose bytes all sort after
      `#`, and any two of which neither is a prefix of the other. */
  predicate TextComparable(s: Str, t: Str) {
    !Continues(s, t) && !Continues(t, s)
  }

  /** The values that the index can compare: of one scalar type, integers that `int` can hold, and
      strings of which neither continues the other with a byte up to `#`. */
  ghost predicate Comparable(v: Json, w: Json) {
    match (v, w)
    case (Integer(m), Integer(n)) => -KeyCodec.TWO31 <= m < KeyCodec.TWO31 && -KeyCodec.TWO31 <= n < KeyCodec.TWO31
    case (Text(s), Text(t)) => TextComparable(s, t)
    case (Float(_), Float(_)) => true
    case (Boolean(_), Boolean(_)) => true
    case (Null, Null) => true
    case _ => false
  }

  /** The order of comparable values: numbers, totalOrder for doubles, bytes for strings, and
      false before true. */
  ghost predicate ValueLess(v: Json, w: Json) {
    match (v, w)
    case (Integer(m), Integer(n)) => m < n
    case (Text(s), Text(t)) => Less(s, t)
    case (Float(x), Float(y)) => TotalOrder.TotalLess(x, y)
    case (Boolean(a), Boolean(b)) => !a && b
    case _ => false
  }

  lemma TextNotPrefix(s: Str, t: Str)
    requires !Continues(t, s) && s != t
    ensures !StartsWith(Term(t), Term(s))
  {
    if |s| < |t| {
      assert Term(t)[..|s|] == t[..|s|] && Term(s)[..|s|] == s;
      assert Term(s)[|s|] == HASH && Term(t)[|s|] == t[|s|];
    } else {
      TermInjective(s, t);
    }
  }

  lemma ComparableTails(s: Str, t: Str)
    requires s != [] && t != [] && s[0] == t[0] && TextComparable(s, t)
    ensures TextComparable(s[1..], t[1..])
  {
    assert s == [s[0]] + s[1..] && t == [t[0]] + t[1..];
    assert t[1..] <= s[1..] ==> t <= s;
    assert s[1..] <= t[1..] ==> s <= t;
  }

  lemma {:induction false} TextOrder(s: Str, t: Str)
    requires TextComparable(s, t)
    ensures Less(Term(s), Term(t)) <==> Less(s, t)
    ensures Separated(s, t)
    decreases |s|
  {
    if s != t {
      TextNotPrefix(s, t);
      TextNotPrefix(t, s);
    }
    if s != [] && t != [] {
      assert Term(s)[1..] == Term(s[1..]) && Term(t)[1..] == Term(t[1..]);
      if s[0] == t[0] {
        ComparableTails(s, t);
        TextOrder(s[1..], t[1..]);
      }
    }
  }

  lemma FixedLengthOrder(e: Str, w: Str)
    requires |e| == |w|
    ensures Less(Term(e), Term(w)) <==> Less(e, w)
    ensures Separated(e, w)
  {
    LessSnoc(e, w, HASH, HASH);
    TermInjective(e, w);
  }

  /** On comparable values the encodings are equal, and in key order, exactly as the values are. */
  lemma EncodingOrder(v: Json, w: Json)
    requires Comparable(v, w)
    ensures ParseValue(v).Some? && ParseValue(w).Some?
    ensures var e, f := ParseValue(v).value, ParseValue(w).value;
            && Separated(e, f)
            && (e == f <==> v == w)
            && (Less(Term(e), Term(f)) <==> ValueLess(v, w))
  {
    var e, f := ParseValue(v).value, ParseValue(w).value;
    match (v, w) {
      case (Integer(m), Integer(n)) =>
        KeyCodec.IntKeyOrder(m, n);
        FixedLengthOrder(e, f);
      case (Text(s), Text(t)) =>
        TextOrder(s, t);
      case (Float(x), Float(y)) =>
        TotalOrder.DoubleKeyRealisesTotalOrder(x, y);
        FixedLengthOrder(e, f);
      case (Boolean(a), Boolean(b)) =>
        LessIrreflexive(Term(e));
        assert Term(TRUE)[0] == 116 && Term(FALSE)[0] == 102;
      case (Null, Null) =>
        LessIrreflexive(Term(e));
    }
  }

  /** The region that a scan for `w` puts the key of value `v` in. */
  lemma RegionIsValueOrder(v: Json, id: Str, w: Json)
    requires Comparable(v, w)
    ensures ParseValue(v).Some? && ParseValue(w).Some?
    ensures RegionOf(IndexKey(ParseValue(v).value, id), Term(ParseValue(w).value)) ==
            if v == w then Within else if ValueLess(v, w) then Below else Above
    ensures v != w && !ValueLess(v, w) <==> ValueLess(w, v)
  {
    EncodingOrder(v, w);
    EncodingOrder(w, v);
    var e, f := ParseValue(v).value, ParseValue(w).value;
    RegionOfIndexKey(e, id, f);
    TermInjective(e, f);
    LessTotal(Term(e), Term(f));
    if Less(Term(e), Term(f)) {
      LessAsymmetric(Term(e), Term(f));
    } else if e == f {
      LessIrreflexive(Term(e));
    }
  }

  /** Keys in byte order never put a greater value before a smaller one. */
  lemma KeyOrderIsValueOrder(v: Json, id: Str, w: Json, id': Str)
    requires Comparable(v, w) && Scalars(v, w)
    requires Less(IndexKey(ParseValue(v).value, id), IndexKey(ParseValue(w).value, id'))
    ensures !ValueLess(w, v)
  {
    var e, f := ParseValue(v).value, ParseValue(w).value;
    EncodingOrder(w, v);
    assert IndexKey(e, id) == Term(e) + id && IndexKey(f, id') == Term(f) + id';
    if ValueLess(w, v) {
      if e == f {
        LessIrreflexive(Term(e));
      } else {
        LessExtend(Term(f), Term(e), id', id);
        LessAsymmetric(IndexKey(e, id), IndexKey(f, id'));
      }
    }
  }

  predicate Scalars(v: Json, w: Json) {
    ParseValue(v).Some? && ParseValue(w).Some?
  }

  // ---------- where the order breaks ----------

  /** The index compares an integer correctly with every `int` exactly when it is an `int`: outside
      that range narrowing makes it equal to a different number. */
  lemma IntegerComparesExactly(m: int)
    ensures (forall n: KeyCodec.int32 :: ParseValue(Integer(m)) == ParseValue(Integer(n)) <==> m == n) <==>
              -KeyCodec.TWO31 <= m < KeyCodec.TWO31
    ensures -KeyCodec.TWO31 <= m < KeyCodec.TWO31 ==>
              forall n: KeyCodec.int32 :: Comparable(Integer(m), Integer(n))
  {
    if -KeyCodec.TWO31 <= m < KeyCodec.TWO31 {
      forall n: KeyCodec.int32
        ensures ParseValue(Integer(m)) == ParseValue(Integer(n)) <==> m == n
      {
        KeyCodec.IntKeyOrder(m, n);
      }
    } else {
      var n := KeyCodec.Narrow(m);
      assert ParseValue(Integer(m)) == ParseValue(Integer(n)) && m != n;
    }
  }

  /** A search for the string `s` finds an entry of the string `t` exactly when the strings are
      equal or `t` continues `s` with a `#`; only the second case is a false match. */
  lemma TextMatchesExactly(s: Str, t: Str, id: Str)
    requires HASH !in id
    ensures RegionOf(IndexKey(t, id), Term(s)).Within? <==> s == t || StartsWith(t, Term(s))
  {
    var k := IndexKey(t, id);
    if |s| < |t| {
      assert k[..|s| + 1] == t[..|s| + 1];
    } else if |s| == |t| {
      assert k[..|s| + 1] == Term(t);
      TermInjective(s, t);
    } else {
      assert |s| < |k| ==> k[|s|] == id[|s| - |t| - 1] && k[|s|] != HASH;
      assert Term(s)[|s|] == HASH;
    }
  }

  /** The greatest string of a length. */
  function Highest(n: nat): (h: Str)
    ensures |h| == n && HASH !in h
  {
    if n == 0 then [] else [255] + Highest(n - 1)
  }

  lemma {:induction false} HighestAbove(r: Str)
    ensures Less(r + [HASH], Highest(|r| + 1))
    decreases |r|
  {
    if r != [] {
      assert (r + [HASH])[1..] == r[1..] + [HASH];
      HighestAbove(r[1..]);
    }
  }

  /** Searching for `s`, an entry of `t` that continues it lies on the wrong side, or is a match. */
  lemma LongerEntryMisplaced(s: Str, t: Str, id: Str)
    requires Continues(t, s)
    ensures Less(s, t) && !RegionOf(IndexKey(t, id), Term(s)).Above?
  {
    var k := IndexKey(t, id);
    PrefixLeq(s, t);
    assert k == s + k[|s|..] && k[|s|..][0] == t[|s|];
    if t[|s|] == HASH {
      assert k[..|s| + 1] == Term(s);
    } else {
      LessUnderPrefix(s, k[|s|..], [HASH]);
    }
  }

  /** Searching for `s` that continues `t`, the entry of some id under `t` lies on the wrong side. */
  lemma ShorterEntryMisplaced(s: Str, t: Str) returns (id: Str)
    requires Continues(s, t)
    ensures HASH !in id && Less(t, s) && !RegionOf(IndexKey(t, id), Term(s)).Below?
  {
    PrefixLeq(t, s);
    var r := s[|t| + 1..];
    id := Highest(|r| + 1);
    var k, b := IndexKey(t, id), s[|t|];
    assert k == t + ([HASH] + id) && Term(s) == t + ([b] + (r + [HASH]));
    assert Less([b] + (r + [HASH]), [HASH] + id) by {
      HighestAbove(r);
      assert ([b] + (r + [HASH]))[1..] == r + [HASH] && ([HASH] + id)[1..] == id;
    }
    LessUnderPrefix(t, [b] + (r + [HASH]), [HASH] + id);
    LessAsymmetric(Term(s), k);
  }

  /** A search for the string `s` sees the entries of another string `t`, under all ids, on their side
      exactly when neither string continues the other with a byte up to `#`. */
  lemma TextComparesExactly(s: Str, t: Str)
    requires s != t
    ensures (forall id :: HASH !in id ==> RegionOf(IndexKey(t, id), Term(s)) == if Less(t, s) then Below else Above)
            <==> TextComparable(s, t)
  {
    if TextComparable(s, t) {
      forall id
        ensures RegionOf(IndexKey(t, id), Term(s)) == if Less(t, s) then Below else Above
      {
        RegionIsValueOrder(Text(t), id, Text(s));
      }
    } else if Continues(t, s) {
      LongerEntryMisplaced(s, t, []);
      LessAsymmetric(s, t);
    } else {
      var id := ShorterEntryMisplaced(s, t);
    }
  }
}
