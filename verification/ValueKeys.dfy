/** The bytes that values are keyed by, read backwards: what a byte string stands for, when two
    values of any types share their bytes, and what a search finds then. */
module ValueKeys {
  import opened Bytes
  import opened Json
  import opened IndexKeys
  import opened Scans
  import KeyCodec

  /** Only objects and arrays have no key. */
  predicate HasKey(v: Json) {
    !v.Object? && !v.Array?
  }

  /** `bytes` is what the value is keyed by: text by itself, a number by the eight bytes that spell
      its place in the order, a boolean by its name, null by nothing. */
  predicate KeyedBy(v: Json, bytes: Str) {
    match v
    case Text(chars) => bytes == chars
    case Integer(n) => |bytes| == 8 && KeyCodec.FromBigEndian(bytes) == KeyCodec.Narrow(n) + KeyCodec.TWO63
    case Float(bits) =>
      |bytes| == 8 && KeyCodec.FromBigEndian(bytes) ==
                      if bits < KeyCodec.TWO63 then bits + KeyCodec.TWO63 else KeyCodec.TWO64 - 1 - bits
    case Boolean(flag) => bytes == if flag then [116, 114, 117, 101] else [102, 97, 108, 115, 101]
    case Null => bytes == []
    case Object(_) => false
    case Array(_) => false
  }

  /** Eight bytes spell one number. */
  lemma SpelledOnce(bytes: Str, v: KeyCodec.word)
    requires |bytes| == 8
    ensures KeyCodec.FromBigEndian(bytes) == v <==> bytes == KeyCodec.BigEndian(8, v)
  {
    KeyCodec.BigEndianInverts(bytes);
    KeyCodec.Pow256Table();
    KeyCodec.FromBigEndianInverts(8, v);
  }

  /** `parseValue` yields exactly the bytes that the value is keyed by, and throws exactly where there
      are none. */
  lemma ParsesToKey(v: Json, bytes: Str)
    ensures ParseValue(v) == Some(bytes) <==> KeyedBy(v, bytes)
    ensures ParseValue(v) == None <==> !HasKey(v)
  {
    match v {
      case Integer(n) =>
        if |bytes| == 8 {
          SpelledOnce(bytes, KeyCodec.Narrow(n) + KeyCodec.TWO63);
        }
      case Float(bits) =>
        if |bytes| == 8 {
          SpelledOnce(bytes, KeyCodec.DoubleKeyWord(bits));
        }
      case _ =>
    }
  }

  /** The values that share their bytes: equal ones, integers that differ by a multiple of 2^32, text
      that is the eight bytes of a number or the name of a boolean, an integer and a double whose
      bytes spell one number, and null with the empty text. */
  predicate SameKey(v: Json, w: Json) {
    match (v, w)
    case (Text(s), Text(t)) => s == t
    case (Integer(m), Integer(n)) => KeyCodec.Narrow(m) == KeyCodec.Narrow(n)
    case (Float(x), Float(y)) => x == y
    case (Boolean(a), Boolean(b)) => a == b
    case (Null, Null) => true
    case (Text(s), _) => HasKey(w) && KeyedBy(w, s)
    case (_, Text(t)) => HasKey(v) && KeyedBy(v, t)
    case (Integer(n), Float(bits)) => SamePlace(n, bits)
    case (Float(bits), Integer(n)) => SamePlace(n, bits)
    case _ => false
  }

  /** An integer's place in the order of integers is the double's place in the order of doubles. */
  predicate SamePlace(n: int, bits: KeyCodec.word) {
    KeyCodec.Narrow(n) + KeyCodec.TWO63 ==
    if bits < KeyCodec.TWO63 then bits + KeyCodec.TWO63 else KeyCodec.TWO64 - 1 - bits
  }

  lemma NumbersShareKey(v: KeyCodec.word, w: KeyCodec.word)
    ensures KeyCodec.BigEndian(8, v) == KeyCodec.BigEndian(8, w) <==> v == w
  {
    KeyCodec.WordKeyOrder(v, w);
  }

  /** Two values of any types are given the same bytes exactly in these cases. */
  lemma SameKeyExactly(v: Json, w: Json)
    requires HasKey(v) && HasKey(w)
    ensures ParseValue(v).Some? && ParseValue(w).Some?
    ensures ParseValue(v) == ParseValue(w) <==> SameKey(v, w)
  {
    var e, f := ParseValue(v).value, ParseValue(w).value;
    ParsesToKey(v, f);
    ParsesToKey(w, e);
    match (v, w) {
      case (Integer(m), Integer(n)) =>
        NumbersShareKey(KeyCodec.Narrow(m) + KeyCodec.TWO63, KeyCodec.Narrow(n) + KeyCodec.TWO63);
      case (Float(x), Float(y)) =>
        NumbersShareKey(KeyCodec.DoubleKeyWord(x), KeyCodec.DoubleKeyWord(y));
      case (Integer(n), Float(bits)) =>
        NumbersShareKey(KeyCodec.Narrow(n) + KeyCodec.TWO63, KeyCodec.DoubleKeyWord(bits));
      case (Float(bits), Integer(n)) =>
        NumbersShareKey(KeyCodec.Narrow(n) + KeyCodec.TWO63, KeyCodec.DoubleKeyWord(bits));
      case _ =>
    }
  }

  /** Only null and the empty text are keyed by nothing. */
  lemma EmptyKeyExactly(v: Json)
    ensures ParseValue(v) == Some([]) <==> v == Null || v == Text([])
  {
    ParsesToKey(v, []);
  }

  /** The bytes of `v` are those of `w`, a `#` and more. */
  ghost predicate RunsOn(v: Json, w: Json) {
    exists t, s :: KeyedBy(v, t) && KeyedBy(w, s) && StartsWith(t, s + [HASH])
  }

  /** A search for `w` finds an entry of `v`, whatever their types, exactly when they share their bytes
      or those of `v` run on from those of `w` with a `#`. */
  lemma FindsExactly(v: Json, w: Json, id: Str)
    requires HasKey(v) && HasKey(w) && HASH !in id
    ensures ParseValue(v).Some? && ParseValue(w).Some?
    ensures RegionOf(IndexKey(ParseValue(v).value, id), Term(ParseValue(w).value)).Within? <==>
              SameKey(v, w) || RunsOn(v, w)
  {
    SameKeyExactly(v, w);
    var e, f := ParseValue(v).value, ParseValue(w).value;
    TextMatchesExactly(f, e, id);
    ParsesToKey(v, e);
    ParsesToKey(w, f);
    if RunsOn(v, w) {
      var t, s :| KeyedBy(v, t) && KeyedBy(w, s) && StartsWith(t, s + [HASH]);
      ParsesToKey(v, t);
      ParsesToKey(w, s);
    }
  }
}
