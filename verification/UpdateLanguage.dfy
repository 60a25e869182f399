/** The update language: `$set`, `$unset`, `$push` and `$pull` on a document's JSON tree, with
    dotted paths walked token by token. */
module UpdateLanguage {
  import opened Bytes
  import opened Json

  const DOT: byte := 46

  // ---------- addresses: what a pointer into the tree stands for ----------

  datatype PathStep = Key(name: Str) | Index(at: nat)

  type Address = seq<PathStep>

  predicate HasChild(j: Json, st: PathStep) {
    match st
    case Key(name) => j.Object? && name in j.fields
    case Index(at) => j.Array? && at < |j.items|
  }

  function Child(j: Json, st: PathStep): Json
    requires HasChild(j, st)
  {
    match st
    case Key(name) => j.fields[name]
    case Index(at) => j.items[at]
  }

  function WithChild(j: Json, st: PathStep, v: Json): (r: Json)
    requires HasChild(j, st)
    ensures HasChild(r, st) && Child(r, st) == v
    ensures forall other :: other != st ==> (HasChild(r, other) <==> HasChild(j, other))
    ensures forall other :: other != st && HasChild(j, other) ==> Child(r, other) == Child(j, other)
    ensures (r.Object? <==> j.Object?) && (r.Array? <==> j.Array?)
    ensures r.Array? ==> |r.items| == |j.items|
  {
    match st
    case Key(name) => Object(j.fields[name := v])
    case Index(at) => Array(j.items[at := v])
  }

  function At(j: Json, a: Address): Option<Json> {
    if a == [] then Some(j)
    else if HasChild(j, a[0]) then At(Child(j, a[0]), a[1..])
    else None
  }

  function Replace(j: Json, a: Address, v: Json): Json
    requires At(j, a).Some?
  {
    if a == [] then v else WithChild(j, a[0], Replace(Child(j, a[0]), a[1..], v))
  }

  ghost predicate Apart(a: Address, b: Address) {
    !(a <= b) && !(b <= a)
  }

  lemma {:induction false} ReplaceThenAt(j: Json, a: Address, v: Json)
    requires At(j, a).Some?
    ensures At(Replace(j, a, v), a) == Some(v)
    decreases |a|
  {
    if a != [] {
      ReplaceThenAt(Child(j, a[0]), a[1..], v);
    }
  }

  /** A replacement is invisible at every address that does not lead through the replaced node. */
  lemma {:induction false} ReplaceElsewhere(j: Json, a: Address, v: Json, b: Address)
    requires At(j, a).Some? && Apart(a, b)
    ensures At(Replace(j, a, v), b) == At(j, b)
    decreases |a|
  {
    if a[0] == b[0] {
      ReplaceElsewhere(Child(j, a[0]), a[1..], v, b[1..]);
    }
  }

  lemma WithChildTwice(j: Json, st: PathStep, v: Json, w: Json)
    requires HasChild(j, st)
    ensures WithChild(WithChild(j, st, v), st, w) == WithChild(j, st, w)
    ensures WithChild(j, st, Child(j, st)) == j
  {
  }

  lemma WithChildrenCommute(j: Json, st: PathStep, v: Json, tt: PathStep, w: Json)
    requires HasChild(j, st) && HasChild(j, tt) && st != tt
    ensures WithChild(WithChild(j, st, v), tt, w) == WithChild(WithChild(j, tt, w), st, v)
  {
    match (st, tt) {
      case (Key(k), Key(l)) =>
        assert j.fields[k := v][l := w] == j.fields[l := w][k := v];
      case (Index(m), Index(n)) =>
        assert j.items[m := v][n := w] == j.items[n := w][m := v];
      case _ =>
    }
  }

  lemma {:induction false} ReplaceTwice(j: Json, a: Address, v: Json, w: Json)
    requires At(j, a).Some?
    ensures At(Replace(j, a, v), a).Some? && Replace(Replace(j, a, v), a, w) == Replace(j, a, w)
    decreases |a|
  {
    if a != [] {
      ReplaceTwice(Child(j, a[0]), a[1..], v, w);
      WithChildTwice(j, a[0], Replace(Child(j, a[0]), a[1..], v), Replace(Child(j, a[0]), a[1..], w));
    }
  }

  lemma {:induction false} ReplaceBySame(j: Json, a: Address)
    requires At(j, a).Some?
    ensures Replace(j, a, At(j, a).value) == j
    decreases |a|
  {
    if a != [] {
      ReplaceBySame(Child(j, a[0]), a[1..]);
      WithChildTwice(j, a[0], Null, Null);
    }
  }

  lemma HeadsDifferCommute(j: Json, a: Address, v: Json, b: Address, w: Json)
    requires a != [] && b != [] && a[0] != b[0] && At(j, a).Some? && At(j, b).Some?
    ensures At(Replace(j, a, v), b).Some? && At(Replace(j, b, w), a).Some?
    ensures Replace(Replace(j, a, v), b, w) == Replace(Replace(j, b, w), a, v)
  {
    WithChildrenCommute(j, a[0], Replace(Child(j, a[0]), a[1..], v), b[0], Replace(Child(j, b[0]), b[1..], w));
  }

  lemma HeadsAgree(j: Json, a: Address, v: Json, b: Address, w: Json)
    requires a != [] && b != [] && a[0] == b[0] && At(j, a).Some? && At(j, b).Some?
    requires At(Replace(Child(j, a[0]), a[1..], v), b[1..]).Some?
    ensures At(Replace(j, a, v), b).Some?
    ensures Replace(Replace(j, a, v), b, w) ==
            WithChild(j, a[0], Replace(Replace(Child(j, a[0]), a[1..], v), b[1..], w))
  {
    var next := Replace(Child(j, a[0]), a[1..], v);
    WithChildTwice(j, a[0], next, Replace(next, b[1..], w));
  }

  lemma HeadsAgreeCommute(j: Json, a: Address, v: Json, b: Address, w: Json)
    requires a != [] && b != [] && a[0] == b[0] && At(j, a).Some? && At(j, b).Some?
    requires var child := Child(j, a[0]);
             && At(Replace(child, a[1..], v), b[1..]).Some? && At(Replace(child, b[1..], w), a[1..]).Some?
             && Replace(Replace(child, a[1..], v), b[1..], w) == Replace(Replace(child, b[1..], w), a[1..], v)
    ensures At(Replace(j, a, v), b).Some? && At(Replace(j, b, w), a).Some?
    ensures Replace(Replace(j, a, v), b, w) == Replace(Replace(j, b, w), a, v)
  {
    HeadsAgree(j, a, v, b, w);
    HeadsAgree(j, b, w, a, v);
  }

  lemma {:induction false} ReplacesCommute(j: Json, a: Address, v: Json, b: Address, w: Json)
    requires At(j, a).Some? && At(j, b).Some? && Apart(a, b)
    ensures At(Replace(j, a, v), b).Some? && At(Replace(j, b, w), a).Some?
    ensures Replace(Replace(j, a, v), b, w) == Replace(Replace(j, b, w), a, v)
    decreases |a|
  {
    if a[0] == b[0] {
      ReplacesCommute(Child(j, a[0]), a[1..], v, b[1..], w);
      HeadsAgreeCommute(j, a, v, b, w);
    } else {
      HeadsDifferCommute(j, a, v, b, w);
    }
  }

  lemma {:induction false} AtConcat(j: Json, a: Address, b: Address)
    ensures At(j, a + b) == if At(j, a).Some? then At(At(j, a).value, b) else None
    decreases |a|
  {
    if a == [] {
      assert a + b == b;
    } else if HasChild(j, a[0]) {
      assert (a + b)[1..] == a[1..] + b;
      AtConcat(Child(j, a[0]), a[1..], b);
    }
  }

  /** Replacing below an address is replacing the node there by its changed version. */
  lemma {:induction false} ReplaceBelow(j: Json, a: Address, b: Address, v: Json)
    requires At(j, a + b).Some?
    ensures At(j, a).Some? && At(At(j, a).value, b).Some?
    ensures At(Replace(j, a + b, v), a) == Some(Replace(At(j, a).value, b, v))
    decreases |a|
  {
    AtConcat(j, a, b);
    if a == [] {
      assert a + b == b;
    } else {
      assert (a + b)[1..] == a[1..] + b;
      ReplaceBelow(Child(j, a[0]), a[1..], b, v);
    }
  }

  // ---------- tokens ----------

  /** `std::getline` on `.`: the pieces between dots, without an empty last one. */
  function Tokens(key: Str): seq<Str> {
    TokensFrom(key, [])
  }

  function TokensFrom(rest: Str, token: Str): (ts: seq<Str>)
    ensures token != [] || rest != [] ==> ts != []
    decreases |rest|
  {
    if rest == [] then (if token == [] then [] else [token])
    else if rest[0] == DOT then [token] + TokensFrom(rest[1..], [])
    else TokensFrom(rest[1..], token + [rest[0]])
  }

  predicate Digits(token: Str) {
    forall i :: 0 <= i < |token| ==> 48 <= token[i] <= 57
  }

  function Number(token: Str): nat
    requires Digits(token)
  {
    if token == [] then 0 else Number(token[..|token| - 1]) * 10 + (token[|token| - 1] as int - 48)
  }

  /** One step of the walk: into a child, past a token that does not resolve, or an exception of
      `std::stoi` for an empty or too large number. */
  datatype Move = Into(st: PathStep) | Skip | Raise

  function Resolve(j: Json, token: Str): (m: Move)
    ensures m.Into? ==> HasChild(j, m.st)
  {
    if Digits(token) && j.Array? then
      if token == [] || Number(token) > 0x7FFF_FFFF then Raise
      else if Number(token) < |j.items| then Into(Index(Number(token)))
      else Skip
    else if j.Object? && token in j.fields then Into(Key(token))
    else Skip
  }

  /** `$set` skips tokens that do not resolve; `None` is an exception. */
  function GreedyWalk(j: Json, tokens: seq<Str>): (r: Option<Address>)
    ensures r.Some? ==> At(j, r.value).Some?
    decreases |tokens|
  {
    if tokens == [] then Some([])
    else match Resolve(j, tokens[0])
      case Skip => GreedyWalk(j, tokens[1..])
      case Raise => None
      case Into(st) =>
        var r := GreedyWalk(Child(j, st), tokens[1..]);
        if r.None? then None
        else
          assert ([st] + r.value)[1..] == r.value;
          Some([st] + r.value)
  }

  datatype Walk = Reached(address: Address) | Broken | Raised

  /** `$unset` gives up at the first token that does not resolve. */
  function StrictWalk(j: Json, tokens: seq<Str>): (r: Walk)
    ensures r.Reached? ==> At(j, r.address).Some?
    decreases |tokens|
  {
    if tokens == [] then Reached([])
    else match Resolve(j, tokens[0])
      case Skip => Broken
      case Raise => Raised
      case Into(st) =>
        var r := StrictWalk(Child(j, st), tokens[1..]);
        if !r.Reached? then r
        else
          assert ([st] + r.address)[1..] == r.address;
          Reached([st] + r.address)
  }

  // ---------- the operators ----------

  /** The library's `operator==` on JSON values. */
  type Equality = (Json, Json) -> bool

  datatype UpdateOp =
    | Set(key: Str, value: Json)
    | Unset(key: Str)
    | Push(key: Str, value: Json)
    | Pull(key: Str, value: Json)

  function HasField(j: Json, name: Str): bool {
    j.Object? && name in j.fields
  }

  lemma FieldAddress(j: Json, a: Address, name: Str)
    requires At(j, a).Some? && HasField(At(j, a).value, name)
    ensures At(j, a + [Key(name)]) == Some(At(j, a).value.fields[name])
  {
    AtConcat(j, a, [Key(name)]);
    assert [Key(name)][1..] == [];
  }

  /** `$set` of a dotted key assigns only where the last token names a field that exists. */
  function SetDotted(data: Fields, tokens: seq<Str>, value: Json): Option<Fields>
    requires tokens != []
  {
    var n, root := |tokens| - 1, Object(data);
    match GreedyWalk(root, tokens[..n])
    case None => None
    case Some(a) =>
      if HasField(At(root, a).value, tokens[n]) then
        FieldAddress(root, a, tokens[n]);
        Some(Replace(root, a + [Key(tokens[n])], value).fields)
      else Some(data)
  }

  function UnsetDotted(data: Fields, tokens: seq<Str>): Option<Fields>
    requires tokens != []
  {
    var n, root := |tokens| - 1, Object(data);
    match StrictWalk(root, tokens[..n])
    case Raised => None
    case Broken => Some(data)
    case Reached(a) =>
      var node := At(root, a).value;
      if HasField(node, tokens[n]) then
        Some(Replace(root, a, Object(node.fields - {tokens[n]})).fields)
      else Some(data)
  }

  function PushValue(data: Fields, key: Str, value: Json): Fields {
    if key !in data then data[key := value]
    else if data[key].Array? then data[key := Array(data[key].items + [value])]
    else data[key := Array([data[key], value])]
  }

  /** The items of an array that are not equal to the pulled value, in their order. */
  function Without(eq: Equality, items: seq<Json>, value: Json): seq<Json> {
    if items == [] then []
    else (if eq(items[0], value) then [] else [items[0]]) + Without(eq, items[1..], value)
  }

  function PullValue(eq: Equality, data: Fields, key: Str, value: Json): Fields {
    if key !in data then data
    else if data[key].Array? then data[key := Array(Without(eq, data[key].items, value))]
    else if eq(data[key], value) then data - {key}
    else data[key := value]
  }

  function SetKey(data: Fields, key: Str, value: Json): Option<Fields> {
    if DOT !in key then Some(data[key := value])
    else
      SetDotted(data, Tokens(key), value)
  }

  function UnsetKey(data: Fields, key: Str): Option<Fields> {
    if DOT !in key then Some(data - {key})
    else
      UnsetDotted(data, Tokens(key))
  }

  function ApplyOp(eq: Equality, data: Fields, op: UpdateOp): Option<Fields> {
    match op
    case Set(key, value) => SetKey(data, key, value)
    case Unset(key) => UnsetKey(data, key)
    case Push(key, value) => Some(PushValue(data, key, value))
    case Pull(key, value) => Some(PullValue(eq, data, key, value))
  }

  /** The operators of an update in their order; `None` as soon as one throws. */
  function ApplyUpdate(eq: Equality, data: Fields, ops: seq<UpdateOp>): Option<Fields>
    decreases |ops|
  {
    if ops == [] then Some(data)
    else match ApplyOp(eq, data, ops[0])
      case None => None
      case Some(next) => ApplyUpdate(eq, next, ops[1..])
  }

  /** The data once the update is over: if an operator throws, those before it have taken effect. */
  function AppliedUntil(eq: Equality, data: Fields, ops: seq<UpdateOp>): Fields
    decreases |ops|
  {
    if ops == [] then data
    else match ApplyOp(eq, data, ops[0])
      case None => data
      case Some(next) => AppliedUntil(eq, next, ops[1..])
  }

  /** That is the result of the longest prefix that does not throw. */
  lemma {:induction false} AppliedUntilThrows(eq: Equality, data: Fields, ops: seq<UpdateOp>) returns (k: nat)
    ensures k <= |ops| && ApplyUpdate(eq, data, ops[..k]) == Some(AppliedUntil(eq, data, ops))
    ensures k == |ops| <==> ApplyUpdate(eq, data, ops).Some?
    ensures k < |ops| ==> ApplyOp(eq, AppliedUntil(eq, data, ops), ops[k]).None?
    decreases |ops|
  {
    if ops == [] || ApplyOp(eq, data, ops[0]).None? {
      k := 0;
    } else {
      var rest := AppliedUntilThrows(eq, ApplyOp(eq, data, ops[0]).value, ops[1..]);
      k := rest + 1;
      assert ops[..k][1..] == ops[1..][..rest];
    }
  }

  // ---------- laws of dotted `$set` ----------

  /** A token names a step: a field by its name, an array position by its decimal digits. */
  predicate Names(token: Str, st: PathStep) {
    match st
    case Key(name) => token == name
    case Index(at) => Digits(token) && Number(token) == at
  }

  /** The steps of an address are named, in order, by some of the tokens. */
  ghost predicate SpelledBy(a: Address, tokens: seq<Str>)
    decreases |tokens|
  {
    a == [] ||
    (tokens != [] && ((Names(tokens[0], a[0]) && SpelledBy(a[1..], tokens[1..])) || SpelledBy(a, tokens[1..])))
  }

  lemma {:induction false} GreedyIsSpelled(j: Json, tokens: seq<Str>)
    requires GreedyWalk(j, tokens).Some?
    ensures SpelledBy(GreedyWalk(j, tokens).value, tokens)
    decreases |tokens|
  {
    if tokens != [] {
      match Resolve(j, tokens[0]) {
        case Skip =>
          GreedyIsSpelled(j, tokens[1..]);
        case Into(st) =>
          GreedyIsSpelled(Child(j, st), tokens[1..]);
          assert ([st] + GreedyWalk(Child(j, st), tokens[1..]).value)[1..] == GreedyWalk(Child(j, st), tokens[1..]).value;
      }
    }
  }

  /** The one address that a dotted `$set` may assign: the greedily resolved tokens, then the last. */
  function Target(data: Fields, tokens: seq<Str>): Option<Address>
    requires tokens != []
  {
    var n := |tokens| - 1;
    match GreedyWalk(Object(data), tokens[..n])
    case None => None
    case Some(a) => Some(a + [Key(tokens[n])])
  }

  lemma SetAtTarget(data: Fields, tokens: seq<Str>, value: Json)
    requires tokens != [] && Target(data, tokens).Some?
    ensures SetDotted(data, tokens, value).Some?
    ensures var a, after := Target(data, tokens).value, SetDotted(data, tokens, value).value;
            && (At(Object(data), a).None? ==> after == data)
            && (At(Object(data), a).Some? ==> Object(after) == Replace(Object(data), a, value))
  {
    var n, root := |tokens| - 1, Object(data);
    var front := GreedyWalk(root, tokens[..n]).value;
    AtConcat(root, front, [Key(tokens[n])]);
    assert [Key(tokens[n])][1..] == [];
  }

  /** A dotted `$set` throws, changes nothing, or replaces exactly one node that existed: the one at
      its target. Every address apart from the target keeps its value. */
  lemma SetReplacesOneNode(data: Fields, tokens: seq<Str>, value: Json)
    requires tokens != []
    ensures SetDotted(data, tokens, value).Some? <==> Target(data, tokens).Some?
    ensures Target(data, tokens).Some? ==>
              var a, after := Target(data, tokens).value, SetDotted(data, tokens, value).value;
              && SpelledBy(a[..|a| - 1], tokens[..|tokens| - 1])
              && (At(Object(data), a).None? ==> after == data)
              && (At(Object(data), a).Some? ==> Object(after) == Replace(Object(data), a, value))
              && (forall b :: Apart(a, b) ==> At(Object(after), b) == At(Object(data), b))
  {
    if Target(data, tokens).Some? {
      var n, root, a := |tokens| - 1, Object(data), Target(data, tokens).value;
      SetAtTarget(data, tokens, value);
      GreedyIsSpelled(root, tokens[..n]);
      assert a[..|a| - 1] == GreedyWalk(root, tokens[..n]).value;
      if At(root, a).Some? {
        forall b | Apart(a, b)
          ensures At(Replace(root, a, value), b) == At(root, b)
        {
          ReplaceElsewhere(root, a, value, b);
        }
      }
    }
  }

  /** Every token before the last resolves, and the last names a field that exists. */
  ghost predicate Resolves(data: Fields, tokens: seq<Str>, a: Address) {
    && tokens != []
    && var n := |tokens| - 1;
       var w := StrictWalk(Object(data), tokens[..n]);
       && w.Reached? && a == w.address + [Key(tokens[n])]
       && HasField(At(Object(data), w.address).value, tokens[n])
  }

  /** Where every token resolves, skipping and giving up walk alike. */
  lemma {:induction false} WalksAgree(j: Json, tokens: seq<Str>)
    requires StrictWalk(j, tokens).Reached?
    ensures GreedyWalk(j, tokens) == Some(StrictWalk(j, tokens).address)
    decreases |tokens|
  {
    if tokens != [] {
      match Resolve(j, tokens[0]) {
        case Into(st) =>
          WalksAgree(Child(j, st), tokens[1..]);
      }
    }
  }

  lemma ResolvesSets(data: Fields, tokens: seq<Str>, a: Address, value: Json)
    requires Resolves(data, tokens, a)
    ensures At(Object(data), a).Some? && Replace(Object(data), a, value).Object?
    ensures SetDotted(data, tokens, value) == Some(Replace(Object(data), a, value).fields)
  {
    var n := |tokens| - 1;
    WalksAgree(Object(data), tokens[..n]);
    FieldAddress(Object(data), StrictWalk(Object(data), tokens[..n]).address, tokens[n]);
  }

  /** A walk is not affected by a replacement that it does not pass through. */
  lemma {:induction false} WalkUnaffected(j: Json, tokens: seq<Str>, a: Address, v: Json)
    requires At(j, a).Some? && StrictWalk(j, tokens).Reached? && !(a <= StrictWalk(j, tokens).address)
    ensures StrictWalk(Replace(j, a, v), tokens) == StrictWalk(j, tokens)
    decreases |tokens|
  {
    if tokens != [] {
      var st := Resolve(j, tokens[0]).st;
      var b := StrictWalk(Child(j, st), tokens[1..]).address;
      var j' := Replace(j, a, v);
      assert StrictWalk(j, tokens).address == [st] + b;
      assert Resolve(j', tokens[0]) == Into(st);
      if a[0] == st {
        assert a == [a[0]] + a[1..];
        assert a[1..] <= b ==> a <= [st] + b;
        WalkUnaffected(Child(j, st), tokens[1..], a[1..], v);
      }
    }
  }

  /** Setting one path leaves another resolved, to the same address, unless it replaced a node the
      other leads through. */
  lemma StillResolves(data: Fields, tokens: seq<Str>, a: Address, value: Json, other: seq<Str>, b: Address)
    requires Resolves(data, tokens, a) && Resolves(data, other, b) && (Apart(a, b) || b <= a)
    ensures var after := SetDotted(data, tokens, value);
            after.Some? && Resolves(after.value, other, b)
  {
    ResolvesSets(data, tokens, a, value);
    var root := Object(data);
    var n := |other| - 1;
    var front := StrictWalk(root, other[..n]).address;
    assert !(a <= front) by {
      assert a <= front ==> a <= b && |a| < |b|;
    }
    WalkUnaffected(root, other[..n], a, value);
    var root' := Replace(root, a, value);
    AtConcat(root, front, [Key(other[n])]);
    AtConcat(root', front, [Key(other[n])]);
    assert [Key(other[n])][1..] == [];
    if Apart(a, b) {
      ReplaceElsewhere(root, a, value, b);
    } else {
      assert a == b + a[|b|..];
      ReplaceBelow(root, b, a[|b|..], value);
    }
  }

  /** Get after set, and set after set. */
  lemma SetLaws(data: Fields, tokens: seq<Str>, a: Address, v: Json, w: Json)
    requires Resolves(data, tokens, a)
    ensures var after := SetDotted(data, tokens, v);
            && after.Some? && Resolves(after.value, tokens, a)
            && At(Object(after.value), a) == Some(v)
            && SetDotted(after.value, tokens, w) == SetDotted(data, tokens, w)
  {
    ResolvesSets(data, tokens, a, v);
    ResolvesSets(data, tokens, a, w);
    StillResolves(data, tokens, a, v, tokens, a);
    var after := SetDotted(data, tokens, v).value;
    ResolvesSets(after, tokens, a, w);
    ReplaceThenAt(Object(data), a, v);
    ReplaceTwice(Object(data), a, v, w);
  }

  function SetBoth(data: Fields, s: seq<Str>, v: Json, t: seq<Str>, w: Json): Option<Fields>
    requires s != [] && t != []
  {
    match SetDotted(data, s, v)
    case None => None
    case Some(next) => SetDotted(next, t, w)
  }

  lemma ApartSetsCommute(data: Fields, s: seq<Str>, a: Address, v: Json, t: seq<Str>, b: Address, w: Json)
    requires Resolves(data, s, a) && Resolves(data, t, b) && Apart(a, b)
    ensures SetBoth(data, s, v, t, w) == SetBoth(data, t, w, s, v)
  {
    ResolvesSets(data, s, a, v);
    ResolvesSets(data, t, b, w);
    StillResolves(data, s, a, v, t, b);
    StillResolves(data, t, b, w, s, a);
    ResolvesSets(SetDotted(data, s, v).value, t, b, w);
    ResolvesSets(SetDotted(data, t, w).value, s, a, v);
    ReplacesCommute(Object(data), a, v, b, w);
  }

  /** Two sets where one address leads to or through the other do not commute for some values. */
  lemma NestedSetsClash(data: Fields, s: seq<Str>, a: Address, t: seq<Str>, b: Address)
    returns (v: Json, w: Json)
    requires Resolves(data, s, a) && Resolves(data, t, b) && a <= b
    ensures SetBoth(data, s, v, t, w) != SetBoth(data, t, w, s, v)
  {
    var root := Object(data);
    ResolvesSets(data, s, a, Null);
    ResolvesSets(data, t, b, Null);
    v := At(root, a).value;
    w := if At(root, b).value == Null then Boolean(true) else Null;
    ResolvesSets(data, s, a, v);
    ResolvesSets(data, t, b, w);
    ReplaceBySame(root, a);
    ReplaceThenAt(root, b, w);
    StillResolves(data, t, b, w, s, a);
    var mid := SetDotted(data, t, w).value;
    ResolvesSets(mid, s, a, v);
    var rest := b[|a|..];
    assert b == a + rest;
    AtConcat(root, a, rest);
    AtConcat(Replace(Object(mid), a, v), a, rest);
    ReplaceThenAt(Object(mid), a, v);
  }

  /** Sets on resolving paths commute, for all values, exactly when neither address leads through
      the other. */
  lemma SetsCommuteExactly(data: Fields, s: seq<Str>, a: Address, t: seq<Str>, b: Address)
    requires Resolves(data, s, a) && Resolves(data, t, b)
    ensures (forall v, w :: SetBoth(data, s, v, t, w) == SetBoth(data, t, w, s, v)) <==> Apart(a, b)
  {
    if Apart(a, b) {
      forall v, w
        ensures SetBoth(data, s, v, t, w) == SetBoth(data, t, w, s, v)
      {
        ApartSetsCommute(data, s, a, v, t, b, w);
      }
    } else if a <= b {
      var v, w := NestedSetsClash(data, s, a, t, b);
    } else {
      var w, v := NestedSetsClash(data, t, b, s, a);
    }
  }

  /** A piece without a dot is one token. */
  lemma {:induction false} TokensOfPiece(piece: Str, token: Str)
    requires DOT !in piece && (piece != [] || token != [])
    ensures TokensFrom(piece, token) == [token + piece]
    decreases |piece|
  {
    if piece == [] {
      assert token + piece == token;
    } else {
      TokensOfPiece(piece[1..], token + [piece[0]]);
      assert token + [piece[0]] + piece[1..] == token + piece;
    }
  }

  lemma {:induction false} TokensPastDot(piece: Str, rest: Str, token: Str)
    requires DOT !in piece
    ensures TokensFrom(piece + [DOT] + rest, token) == [token + piece] + TokensFrom(rest, [])
    decreases |piece|
  {
    var key := piece + [DOT] + rest;
    if piece == [] {
      assert key[1..] == rest && token + piece == token;
    } else {
      assert key[1..] == piece[1..] + [DOT] + rest;
      TokensPastDot(piece[1..], rest, token + [piece[0]]);
      assert token + [piece[0]] + piece[1..] == token + piece;
    }
  }

  /** The dotted path of three pieces. */
  function Path(k: Str, i: Str, g: Str): Str {
    k + [DOT] + (i + [DOT] + g)
  }

  lemma PathTokens(k: Str, i: Str, g: Str)
    requires DOT !in k && DOT !in i && DOT !in g && g != []
    ensures Tokens(Path(k, i, g)) == [k, i, g] && DOT in Path(k, i, g)
  {
    TokensPastDot(k, i + [DOT] + g, []);
    TokensPastDot(i, g, []);
    TokensOfPiece(g, []);
    assert [] + k == k && [] + i == i && [] + g == g;
    assert Path(k, i, g)[|k|] == DOT;
  }

  /** The digits `0` and `00` are the same array position. */
  lemma ZeroTwice(i: Str)
    requires i == [48] || i == [48, 48]
    ensures Digits(i) && DOT !in i && Number(i) == 0
  {
    assert [48, 48 as byte][..1] == [48] && [48 as byte][..0] == [];
    assert Number([48]) == 0;
  }

  /** A field that holds an array of one object. */
  function Nested(k: Str, g: Str, u: Json): Fields {
    map[k := Array([Object(map[g := u])])]
  }

  lemma NestedResolves(k: Str, g: Str, u: Json, i: Str)
    requires i == [48] || i == [48, 48]
    ensures Resolves(Nested(k, g, u), [k, i, g], [Key(k), Index(0), Key(g)])
  {
    var root := Object(Nested(k, g, u));
    var list := Array([Object(map[g := u])]);
    ZeroTwice(i);
    assert Resolve(root, k) == Into(Key(k)) && Child(root, Key(k)) == list;
    assert Resolve(list, i) == Into(Index(0));
    assert [k, i, g][..2] == [k, i] && [k, i][1..] == [i] && [i][1..] == [];
    assert StrictWalk(list, [i]) == Reached([Index(0)] + []);
    assert StrictWalk(root, [k, i]) == Reached([Key(k)] + [Index(0)]);
    assert [Key(k)] + [Index(0)] + [Key(g)] == [Key(k), Index(0), Key(g)];
  }

  /** Sets on one address: the last one wins. */
  lemma SameAddressLastWins(data: Fields, s: seq<Str>, v: Json, t: seq<Str>, w: Json, a: Address)
    requires Resolves(data, s, a) && Resolves(data, t, a)
    ensures SetBoth(data, s, v, t, w).Some? && At(Object(SetBoth(data, s, v, t, w).value), a) == Some(w)
  {
    StillResolves(data, s, a, v, t, a);
    var mid := SetDotted(data, s, v).value;
    ResolvesSets(mid, t, a, w);
    ReplaceThenAt(Object(mid), a, w);
  }

  /** Paths that differ as text, and neither of which is a prefix of the other, need not commute:
      `k.0.g` and `k.00.g` lead to one node, and the last set wins. */
  lemma PathsMayAlias(k: Str, g: Str, u: Json, v: Json, w: Json)
    requires DOT !in k && DOT !in g && g != [] && v != w
    ensures var data, p, q := Nested(k, g, u), Path(k, [48], g), Path(k, [48, 48], g);
            && !(Tokens(p) <= Tokens(q)) && !(Tokens(q) <= Tokens(p))
            && SetKey(data, p, v).Some? && SetKey(data, q, w).Some?
            && SetKey(SetKey(data, p, v).value, q, w) != SetKey(SetKey(data, q, w).value, p, v)
  {
    var data, a := Nested(k, g, u), [Key(k), Index(0), Key(g)];
    var s, t := [k, [48], g], [k, [48, 48], g];
    assert s[1] != t[1];
    ZeroTwice([48]);
    ZeroTwice([48, 48]);
    PathTokens(k, [48], g);
    PathTokens(k, [48, 48], g);
    NestedResolves(k, g, u, [48]);
    NestedResolves(k, g, u, [48, 48]);
    SameAddressLastWins(data, s, v, t, w, a);
    SameAddressLastWins(data, t, w, s, v, a);
  }

  // ---------- laws of `$unset`, `$push` and `$pull` ----------

  /** A dotted `$unset` removes exactly the resolved node, and otherwise changes nothing. */
  lemma UnsetRemovesOneNode(data: Fields, tokens: seq<Str>)
    requires tokens != []
    ensures forall a :: Resolves(data, tokens, a) ==>
              && UnsetDotted(data, tokens).Some?
              && At(Object(UnsetDotted(data, tokens).value), a).None?
              && forall b :: Apart(a, b) ==> At(Object(UnsetDotted(data, tokens).value), b) == At(Object(data), b)
    ensures !(exists a :: Resolves(data, tokens, a)) && UnsetDotted(data, tokens).Some? ==>
              UnsetDotted(data, tokens).value == data
  {
    var n, root := |tokens| - 1, Object(data);
    var walk := StrictWalk(root, tokens[..n]);
    forall a | Resolves(data, tokens, a)
      ensures UnsetDotted(data, tokens).Some?
      ensures At(Object(UnsetDotted(data, tokens).value), a).None?
      ensures forall b :: Apart(a, b) ==> At(Object(UnsetDotted(data, tokens).value), b) == At(root, b)
    {
      UnsetAt(data, tokens, a);
    }
    if walk.Reached? && HasField(At(root, walk.address).value, tokens[n]) {
      assert Resolves(data, tokens, walk.address + [Key(tokens[n])]);
    }
  }

  lemma UnsetAt(data: Fields, tokens: seq<Str>, a: Address)
    requires Resolves(data, tokens, a)
    ensures UnsetDotted(data, tokens).Some?
    ensures At(Object(UnsetDotted(data, tokens).value), a).None?
    ensures forall b :: Apart(a, b) ==> At(Object(UnsetDotted(data, tokens).value), b) == At(Object(data), b)
  {
    var n, root := |tokens| - 1, Object(data);
    var last, front := tokens[n], StrictWalk(root, tokens[..n]).address;
    var node := At(root, front).value;
    var less := Object(node.fields - {last});
    ReplaceThenAt(root, front, less);
    var root' := Replace(root, front, less);
    AtConcat(root', front, [Key(last)]);
    forall b | Apart(a, b)
      ensures At(root', b) == At(root, b)
    {
      if front <= b {
        var rest := b[|front|..];
        assert b == front + rest;
        AtConcat(root, front, rest);
        AtConcat(root', front, rest);
        assert rest != [] && rest[0] != Key(last) by {
          assert rest == [] ==> b <= a;
          assert rest != [] && rest[0] == Key(last) ==> a <= b;
        }
      } else {
        assert b <= front ==> b <= a;
        ReplaceElsewhere(root, front, less, b);
      }
    }
  }

  lemma {:induction false} WithoutAll(eq: Equality, items: seq<Json>, value: Json)
    ensures Without(eq, items, value) == items <==> forall i :: 0 <= i < |items| ==> !eq(items[i], value)
    ensures |Without(eq, items, value)| <= |items|
    decreases |items|
  {
    if items != [] {
      WithoutAll(eq, items[1..], value);
      var rest := Without(eq, items[1..], value);
      assert items == [items[0]] + items[1..];
      if !eq(items[0], value) {
        assert Without(eq, items, value) == [items[0]] + rest;
        assert Without(eq, items, value)[1..] == rest;
        assert (forall i :: 0 <= i < |items| ==> !eq(items[i], value)) ==>
               forall i :: 0 <= i < |items[1..]| ==> !eq(items[1..][i], value);
      }
    }
  }

  lemma {:induction false} WithoutNone(eq: Equality, items: seq<Json>, value: Json)
    ensures forall x :: x in Without(eq, items, value) ==> !eq(x, value)
    decreases |items|
  {
    if items != [] {
      WithoutNone(eq, items[1..], value);
    }
  }

  lemma {:induction false} WithoutSnoc(eq: Equality, items: seq<Json>, x: Json, value: Json)
    ensures Without(eq, items + [x], value) == Without(eq, items, value) + if eq(x, value) then [] else [x]
    decreases |items|
  {
    if items == [] {
      assert items + [x] == [x];
    } else {
      assert (items + [x])[1..] == items[1..] + [x];
      WithoutSnoc(eq, items[1..], x, value);
    }
  }

  /** A field read as a list: nothing, the items of an array, or the one value. */
  function Items(data: Fields, key: Str): seq<Json> {
    if key !in data then [] else if data[key].Array? then data[key].items else [data[key]]
  }

  /** `$push` adds the value behind what the field held, unless the field was absent and the value is
      itself an array, which is then taken for the list; no other field changes. */
  lemma PushAppendsExactly(data: Fields, key: Str, value: Json)
    ensures Items(PushValue(data, key, value), key) == Items(data, key) + [value] <==> key in data || !value.Array?
    ensures PushValue(data, key, value) - {key} == data - {key}
  {
    if key !in data && value.Array? {
      assert value !in value.items;
    }
  }

  /** A `$push` that is applied twice never ends as if it were applied once. */
  lemma PushTwiceDiffers(data: Fields, key: Str, value: Json)
    ensures var once := PushValue(data, key, value); PushValue(once, key, value) != once
  {
    var once := PushValue(data, key, value);
    var twice := PushValue(once, key, value);
    assert twice[key] != once[key] by {
      if once[key].Array? {
        assert |twice[key].items| == |once[key].items| + 1;
      }
    }
  }

  /** Every item equal to the value is gone, and every other is there as often as before. */
  ghost predicate Filtered(eq: Equality, before: seq<Json>, after: seq<Json>, value: Json) {
    forall x :: multiset(after)[x] == if eq(x, value) then 0 else multiset(before)[x]
  }

  lemma FilteredCons(eq: Equality, head: Json, before: seq<Json>, after: seq<Json>, value: Json)
    requires Filtered(eq, before, after, value)
    ensures Filtered(eq, [head] + before, (if eq(head, value) then [] else [head]) + after, value)
  {
    var kept := if eq(head, value) then [] else [head];
    assert multiset([head] + before) == multiset{head} + multiset(before);
    assert multiset(kept + after) == multiset(kept) + multiset(after);
  }

  lemma {:induction false} WithoutFilters(eq: Equality, items: seq<Json>, value: Json)
    ensures Filtered(eq, items, Without(eq, items, value), value)
    decreases |items|
  {
    if items != [] {
      WithoutFilters(eq, items[1..], value);
      FilteredCons(eq, items[0], items[1..], Without(eq, items[1..], value), value);
      assert items == [items[0]] + items[1..];
    }
  }

  /** `$pull` from an array removes every item equal to the value and no other; a field that is not an
      array disappears if it equals the value and becomes the value otherwise; no other field changes. */
  lemma PullFilters(eq: Equality, data: Fields, key: Str, value: Json)
    ensures var after := PullValue(eq, data, key, value);
            && (forall k :: k != key ==> (k in after <==> k in data) && (k in data ==> after[k] == data[k]))
            && (key in data && data[key].Array? ==>
                  key in after && after[key].Array? && Filtered(eq, data[key].items, after[key].items, value))
            && (key in data && !data[key].Array? ==>
                  if eq(data[key], value) then key !in after else key in after && after[key] == value)
            && (key !in data ==> key !in after)
  {
    if key in data && data[key].Array? {
      WithoutFilters(eq, data[key].items, value);
    }
  }

  /** Pulling what was just pushed restores the document exactly when the value equals itself, and
      the field was an array without it, or was absent and the value is not an array. */
  lemma PullUndoesPushExactly(eq: Equality, data: Fields, key: Str, value: Json)
    ensures PullValue(eq, PushValue(data, key, value), key, value) == data <==>
              eq(value, value) &&
              if key in data then data[key].Array? && forall i :: 0 <= i < |data[key].items| ==> !eq(data[key].items[i], value)
              else !value.Array?
  {
    var pushed := PushValue(data, key, value);
    var pulled := PullValue(eq, pushed, key, value);
    if key !in data {
      assert eq(value, value) && !value.Array? ==> pulled == data;
    } else if data[key].Array? {
      var items := data[key].items;
      WithoutSnoc(eq, items, value, value);
      WithoutAll(eq, items, value);
      WithoutNone(eq, items + [value], value);
      assert pulled == data[key := Array(Without(eq, items + [value], value))];
      assert pulled == data <==> Without(eq, items + [value], value) == items;
    } else {
      assert pulled[key].Array?;
    }
  }
}
