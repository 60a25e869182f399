/** What a key of an update addresses: plain fields, and dotted paths read token by token, described
    by the tree and the spelling of its positions. */
module Paths {
  import opened Bytes
  import opened Json
  import opened UpdateLanguage

  // ---------- dotted keys ----------

  function Dotted(tokens: seq<Str>): Str
    requires tokens != []
  {
    if |tokens| == 1 then tokens[0] else tokens[0] + [DOT] + Dotted(tokens[1..])
  }

  ghost predicate Dotless(tokens: seq<Str>) {
    forall i :: 0 <= i < |tokens| ==> DOT !in tokens[i]
  }

  /** Tokens that a key can be cut into: none holds a dot, and the last one is not empty. */
  ghost predicate AreTokens(tokens: seq<Str>) {
    tokens != [] && Dotless(tokens) && tokens[|tokens| - 1] != []
  }

  lemma {:induction false} TokensOfDotted(tokens: seq<Str>)
    requires AreTokens(tokens)
    ensures Tokens(Dotted(tokens)) == tokens
    ensures |tokens| > 1 ==> DOT in Dotted(tokens)
    decreases |tokens|
  {
    if |tokens| == 1 {
      TokensOfPiece(tokens[0], []);
      assert [] + tokens[0] == tokens[0];
    } else {
      TokensOfDotted(tokens[1..]);
      TokensPastDot(tokens[0], Dotted(tokens[1..]), []);
      assert [] + tokens[0] == tokens[0] && tokens == [tokens[0]] + tokens[1..];
      assert Dotted(tokens)[|tokens[0]|] == DOT;
    }
  }

  /** A dot at the end of a key is not seen, whatever the tokens before it are. */
  lemma {:induction false} TrailingDotUnseen(tokens: seq<Str>)
    requires tokens != [] && Dotless(tokens)
    ensures Tokens(Dotted(tokens) + [DOT]) == tokens
    decreases |tokens|
  {
    if |tokens| == 1 {
      TokensPastDot(tokens[0], [], []);
      assert tokens[0] + [DOT] + [] == tokens[0] + [DOT] && [] + tokens[0] == tokens[0];
    } else {
      TrailingDotUnseen(tokens[1..]);
      var rest := Dotted(tokens[1..]) + [DOT];
      TokensPastDot(tokens[0], rest, []);
      assert tokens[0] + [DOT] + rest == Dotted(tokens) + [DOT];
      assert [] + tokens[0] == tokens[0] && tokens == [tokens[0]] + tokens[1..];
    }
  }

  // ---------- tokens and positions ----------

  /** The largest `int`. */
  const INT_MAX := 0x7FFF_FFFF

  /** A token spells a position: a field by its name, an array element by the decimal digits of its
      number, leading zeros allowed, up to the largest `int`. */
  predicate Spells(token: Str, st: PathStep) {
    match st
    case Key(name) => token == name
    case Index(at) => token != [] && Digits(token) && Number(token) == at && at <= INT_MAX
  }

  /** The token names a child of the node. */
  ghost predicate NamesChild(j: Json, token: Str) {
    exists st :: HasChild(j, st) && Spells(token, st)
  }

  /** `std::stoi` throws: at an array, a token of digits only that is empty or too large. */
  predicate OutOfRange(j: Json, token: Str) {
    j.Array? && Digits(token) && (token == [] || Number(token) > INT_MAX)
  }

  /** A step of the walk enters the child that the token names, throws exactly where the number is out
      of range, and otherwise stays. */
  lemma StepExactly(j: Json, token: Str)
    ensures Resolve(j, token).Raise? <==> OutOfRange(j, token)
    ensures Resolve(j, token).Into? <==> NamesChild(j, token)
    ensures forall st :: HasChild(j, st) && Spells(token, st) ==> Resolve(j, token) == Into(st)
  {
    if Resolve(j, token).Into? {
      assert HasChild(j, Resolve(j, token).st) && Spells(token, Resolve(j, token).st);
    }
  }

  /** The tokens lead from the node to the address, one token for each step. */
  ghost predicate Leads(j: Json, tokens: seq<Str>, a: Address) {
    && |tokens| == |a| && At(j, a).Some?
    && forall i :: 0 <= i < |a| ==> Spells(tokens[i], a[i])
  }

  /** The same, leaving out every token that names no child of the node reached so far. */
  ghost predicate Passes(j: Json, tokens: seq<Str>, a: Address)
    decreases |tokens|
  {
    if tokens == [] then a == []
    else if NamesChild(j, tokens[0]) then
      a != [] && HasChild(j, a[0]) && Spells(tokens[0], a[0]) && Passes(Child(j, a[0]), tokens[1..], a[1..])
    else Passes(j, tokens[1..], a)
  }

  lemma {:induction false} PassesReaches(j: Json, tokens: seq<Str>, a: Address)
    requires Passes(j, tokens, a)
    ensures At(j, a).Some?
    decreases |tokens|
  {
    if tokens != [] {
      if NamesChild(j, tokens[0]) {
        PassesReaches(Child(j, a[0]), tokens[1..], a[1..]);
      } else {
        PassesReaches(j, tokens[1..], a);
      }
    }
  }

  lemma LeadsTail(j: Json, tokens: seq<Str>, a: Address)
    requires Leads(j, tokens, a) && a != []
    ensures HasChild(j, a[0]) && Spells(tokens[0], a[0]) && Leads(Child(j, a[0]), tokens[1..], a[1..])
  {
  }

  lemma LeadsCons(j: Json, tokens: seq<Str>, a: Address)
    requires tokens != [] && a != [] && HasChild(j, a[0]) && Spells(tokens[0], a[0])
    requires Leads(Child(j, a[0]), tokens[1..], a[1..])
    ensures Leads(j, tokens, a)
  {
    forall i | 0 <= i < |a|
      ensures Spells(tokens[i], a[i])
    {
      if i > 0 {
        assert tokens[i] == tokens[1..][i - 1] && a[i] == a[1..][i - 1];
      }
    }
  }

  /** Where every token names a child none is left out. */
  lemma {:induction false} LeadsPasses(j: Json, tokens: seq<Str>, a: Address)
    requires Leads(j, tokens, a)
    ensures Passes(j, tokens, a)
    decreases |tokens|
  {
    if tokens != [] {
      LeadsTail(j, tokens, a);
      LeadsPasses(Child(j, a[0]), tokens[1..], a[1..]);
    }
  }

  // ---------- the walks, exactly ----------

  /** The first number out of range on the way of `$set`, after `k` tokens. */
  ghost predicate SetThrowsAt(j: Json, tokens: seq<Str>, k: int, a: Address) {
    0 <= k < |tokens| && Passes(j, tokens[..k], a) && At(j, a).Some? && OutOfRange(At(j, a).value, tokens[k])
  }

  lemma PassesCons(j: Json, tokens: seq<Str>, k: nat, st: PathStep, a: Address)
    requires k < |tokens| && HasChild(j, st) && Spells(tokens[0], st)
    requires Passes(Child(j, st), tokens[1..][..k], a)
    ensures Passes(j, tokens[..k + 1], [st] + a)
  {
    assert tokens[..k + 1][1..] == tokens[1..][..k] && ([st] + a)[1..] == a;
  }

  lemma PassesOver(j: Json, tokens: seq<Str>, k: nat, a: Address)
    requires k < |tokens| && !NamesChild(j, tokens[0]) && Passes(j, tokens[1..][..k], a)
    ensures Passes(j, tokens[..k + 1], a)
  {
    assert tokens[..k + 1][1..] == tokens[1..][..k];
  }

  /** The walk of `$set` ends at the address that the tokens pass to, unless a number is out of range
      before. */
  lemma {:induction false} GreedyExactly(j: Json, tokens: seq<Str>)
    ensures GreedyWalk(j, tokens).Some? ==> Passes(j, tokens, GreedyWalk(j, tokens).value)
    ensures GreedyWalk(j, tokens).None? ==> exists k, a :: SetThrowsAt(j, tokens, k, a)
    decreases |tokens|
  {
    if tokens != [] {
      StepExactly(j, tokens[0]);
      match Resolve(j, tokens[0]) {
        case Raise =>
          assert tokens[..0] == [];
          assert SetThrowsAt(j, tokens, 0, []);
        case Skip =>
          GreedyExactly(j, tokens[1..]);
          if GreedyWalk(j, tokens[1..]).None? {
            var k, a :| SetThrowsAt(j, tokens[1..], k, a);
            PassesOver(j, tokens, k, a);
            assert SetThrowsAt(j, tokens, k + 1, a);
          }
        case Into(st) =>
          var child := Child(j, st);
          GreedyExactly(child, tokens[1..]);
          if GreedyWalk(child, tokens[1..]).None? {
            var k, a :| SetThrowsAt(child, tokens[1..], k, a);
            PassesCons(j, tokens, k, st, a);
            assert ([st] + a)[1..] == a;
            assert SetThrowsAt(j, tokens, k + 1, [st] + a);
          } else {
            var a := GreedyWalk(child, tokens[1..]).value;
            assert ([st] + a)[1..] == a;
          }
      }
    }
  }

  /** The tokens pass to one address only, and if they pass all the way no number was out of range. */
  lemma {:induction false} PassesOnce(j: Json, tokens: seq<Str>, a: Address, b: Address)
    requires Passes(j, tokens, a) && Passes(j, tokens, b)
    ensures a == b
    decreases |tokens|
  {
    if tokens != [] {
      StepExactly(j, tokens[0]);
      if NamesChild(j, tokens[0]) {
        assert a[0] == b[0];
        PassesOnce(Child(j, a[0]), tokens[1..], a[1..], b[1..]);
        assert a == [a[0]] + a[1..] && b == [b[0]] + b[1..];
      } else {
        PassesOnce(j, tokens[1..], a, b);
      }
    }
  }

  lemma {:induction false} ThrowStopsGreedy(j: Json, tokens: seq<Str>, k: nat, a: Address)
    requires SetThrowsAt(j, tokens, k, a)
    ensures GreedyWalk(j, tokens).None?
    decreases |tokens|
  {
    StepExactly(j, tokens[0]);
    if k > 0 && !OutOfRange(j, tokens[0]) {
      assert tokens[..k][1..] == tokens[1..][..k - 1] && tokens[..k][0] == tokens[0];
      if NamesChild(j, tokens[0]) {
        assert SetThrowsAt(Child(j, a[0]), tokens[1..], k - 1, a[1..]);
        ThrowStopsGreedy(Child(j, a[0]), tokens[1..], k - 1, a[1..]);
      } else {
        assert SetThrowsAt(j, tokens[1..], k - 1, a);
        ThrowStopsGreedy(j, tokens[1..], k - 1, a);
      }
    }
  }

  // ---------- dotted `$set` ----------

  /** The node at an address has a field of the name. */
  ghost predicate FieldAt(j: Json, a: Address, name: Str) {
    At(j, a).Some? && At(j, a).value.Object? && name in At(j, a).value.fields
  }

  /** What a dotted `$set` does, for every key and all data: it throws exactly if a number on its way is
      out of range; otherwise its tokens but the last, leaving out those that name no child, lead to one
      node; if that has a field named by the last token the field's value is replaced, and if not
      nothing is changed. */
  lemma SetKeyExactly(data: Fields, tokens: seq<Str>, value: Json)
    requires AreTokens(tokens) && |tokens| > 1
    ensures var front, last, root := tokens[..|tokens| - 1], tokens[|tokens| - 1], Object(data);
            var after := SetKey(data, Dotted(tokens), value);
            && (after.None? <==> exists k, a :: SetThrowsAt(root, front, k, a))
            && (after.Some? ==> exists a :: Passes(root, front, a))
            && (forall a :: Passes(root, front, a) && after.Some? ==>
                  if FieldAt(root, a, last) then
                    At(root, a + [Key(last)]).Some? && Object(after.value) == Replace(root, a + [Key(last)], value)
                  else after.value == data)
  {
    var front, last, root := tokens[..|tokens| - 1], tokens[|tokens| - 1], Object(data);
    TokensOfDotted(tokens);
    GreedyExactly(root, front);
    if k, a :| SetThrowsAt(root, front, k, a) {
      ThrowStopsGreedy(root, front, k, a);
    }
    if GreedyWalk(root, front).Some? {
      var b := GreedyWalk(root, front).value;
      SetAtTarget(data, tokens, value);
      AtConcat(root, b, [Key(last)]);
      assert [Key(last)][1..] == [];
      forall a | Passes(root, front, a)
        ensures a == b
      {
        PassesOnce(root, front, a, b);
      }
    }
  }

  /** In particular a dotted key that leads, token by token, to an existing field replaces its value. */
  lemma SetKeyReaches(data: Fields, tokens: seq<Str>, a: Address, name: Str, value: Json)
    requires AreTokens(tokens) && |tokens| > 1
    requires Leads(Object(data), tokens[..|tokens| - 1], a) && tokens[|tokens| - 1] == name && FieldAt(Object(data), a, name)
    ensures At(Object(data), a + [Key(name)]).Some?
    ensures Replace(Object(data), a + [Key(name)], value).Object?
    ensures SetKey(data, Dotted(tokens), value) == Some(Replace(Object(data), a + [Key(name)], value).fields)
  {
    var front, root := tokens[..|tokens| - 1], Object(data);
    LeadsPasses(root, front, a);
    LeadsNeverThrows(root, front, a);
    SetKeyExactly(data, tokens, value);
  }

  lemma {:induction false} LeadsNeverThrows(j: Json, tokens: seq<Str>, a: Address)
    requires Leads(j, tokens, a)
    ensures forall k, b :: !SetThrowsAt(j, tokens, k, b)
    decreases |tokens|
  {
    LeadsWalks(j, tokens, a);
    WalksAgree(j, tokens);
    forall k, b
      ensures !SetThrowsAt(j, tokens, k, b)
    {
      if SetThrowsAt(j, tokens, k, b) {
        ThrowStopsGreedy(j, tokens, k, b);
      }
    }
  }

  lemma {:induction false} LeadsWalks(j: Json, tokens: seq<Str>, a: Address)
    requires Leads(j, tokens, a)
    ensures StrictWalk(j, tokens) == Reached(a)
    decreases |tokens|
  {
    if tokens != [] {
      LeadsTail(j, tokens, a);
      StepExactly(j, tokens[0]);
      LeadsWalks(Child(j, a[0]), tokens[1..], a[1..]);
      assert a == [a[0]] + a[1..];
    }
  }

  // ---------- dotted `$unset` ----------

  /** The first token on the way of `$unset`, after `k`, at which the number is out of range. */
  ghost predicate UnsetThrowsAt(j: Json, tokens: seq<Str>, k: int, a: Address) {
    0 <= k < |tokens| && Leads(j, tokens[..k], a) && OutOfRange(At(j, a).value, tokens[k])
  }

  /** The first token that names no child. */
  ghost predicate UnsetBreaksAt(j: Json, tokens: seq<Str>, k: int, a: Address) {
    && 0 <= k < |tokens| && Leads(j, tokens[..k], a)
    && !NamesChild(At(j, a).value, tokens[k]) && !OutOfRange(At(j, a).value, tokens[k])
  }

  lemma LeadsFurther(j: Json, tokens: seq<Str>, k: nat, st: PathStep, a: Address)
    requires k < |tokens| && HasChild(j, st) && Spells(tokens[0], st) && Leads(Child(j, st), tokens[1..][..k], a)
    ensures Leads(j, tokens[..k + 1], [st] + a) && At(j, [st] + a) == At(Child(j, st), a)
  {
    assert tokens[..k + 1][1..] == tokens[1..][..k] && ([st] + a)[1..] == a;
    LeadsCons(j, tokens[..k + 1], [st] + a);
  }

  lemma {:induction false} StrictExactly(j: Json, tokens: seq<Str>)
    ensures StrictWalk(j, tokens).Reached? ==> Leads(j, tokens, StrictWalk(j, tokens).address)
    ensures StrictWalk(j, tokens).Raised? ==> exists k, a :: UnsetThrowsAt(j, tokens, k, a)
    ensures StrictWalk(j, tokens).Broken? ==> exists k, a :: UnsetBreaksAt(j, tokens, k, a)
    decreases |tokens|
  {
    if tokens != [] {
      StepExactly(j, tokens[0]);
      assert tokens[..0] == [];
      match Resolve(j, tokens[0]) {
        case Raise =>
          assert UnsetThrowsAt(j, tokens, 0, []);
        case Skip =>
          assert UnsetBreaksAt(j, tokens, 0, []);
        case Into(st) =>
          StrictInto(j, tokens, st);
      }
    }
  }

  lemma {:induction false} StrictInto(j: Json, tokens: seq<Str>, st: PathStep)
    requires tokens != [] && Resolve(j, tokens[0]) == Into(st) && HasChild(j, st) && Spells(tokens[0], st)
    ensures StrictWalk(j, tokens).Reached? ==> Leads(j, tokens, StrictWalk(j, tokens).address)
    ensures StrictWalk(j, tokens).Raised? ==> exists k, a :: UnsetThrowsAt(j, tokens, k, a)
    ensures StrictWalk(j, tokens).Broken? ==> exists k, a :: UnsetBreaksAt(j, tokens, k, a)
    decreases |tokens|, 0
  {
    var child, rest := Child(j, st), tokens[1..];
    StrictExactly(child, rest);
    match StrictWalk(child, rest) {
      case Reached(a) =>
        assert ([st] + a)[1..] == a;
        LeadsCons(j, tokens, [st] + a);
      case Raised =>
        var k, a :| UnsetThrowsAt(child, rest, k, a);
        LeadsFurther(j, tokens, k, st, a);
        assert UnsetThrowsAt(j, tokens, k + 1, [st] + a);
      case Broken =>
        var k, a :| UnsetBreaksAt(child, rest, k, a);
        LeadsFurther(j, tokens, k, st, a);
        assert UnsetBreaksAt(j, tokens, k + 1, [st] + a);
    }
  }

  lemma {:induction false} ThrowStopsStrict(j: Json, tokens: seq<Str>, k: nat, a: Address)
    requires UnsetThrowsAt(j, tokens, k, a)
    ensures StrictWalk(j, tokens) == Raised
    decreases |tokens|
  {
    StepExactly(j, tokens[0]);
    if k > 0 {
      assert tokens[..k][1..] == tokens[1..][..k - 1] && tokens[..k][0] == tokens[0];
      LeadsTail(j, tokens[..k], a);
      ThrowStopsStrict(Child(j, a[0]), tokens[1..], k - 1, a[1..]);
    }
  }

  lemma {:induction false} BreakStopsStrict(j: Json, tokens: seq<Str>, k: nat, a: Address)
    requires UnsetBreaksAt(j, tokens, k, a)
    ensures StrictWalk(j, tokens) == Broken
    decreases |tokens|
  {
    StepExactly(j, tokens[0]);
    if k > 0 {
      assert tokens[..k][1..] == tokens[1..][..k - 1] && tokens[..k][0] == tokens[0];
      LeadsTail(j, tokens[..k], a);
      BreakStopsStrict(Child(j, a[0]), tokens[1..], k - 1, a[1..]);
    }
  }

  /** The object without one of its fields. */
  function Lacking(j: Json, name: Str): Json
    requires j.Object?
  {
    Object(j.fields - {name})
  }

  /** What a dotted `$unset` does, for every key and all data: it throws exactly if, its tokens having
      led somewhere one by one, the next is a number out of range; it changes nothing if the next
      names no child, or if they lead to a node without the last field; and otherwise it removes
      exactly that field. */
  lemma UnsetKeyExactly(data: Fields, tokens: seq<Str>)
    requires AreTokens(tokens) && |tokens| > 1
    ensures var front, last, root := tokens[..|tokens| - 1], tokens[|tokens| - 1], Object(data);
            var after := UnsetKey(data, Dotted(tokens));
            && (after.None? <==> exists k, a :: UnsetThrowsAt(root, front, k, a))
            && ((exists k, a :: UnsetBreaksAt(root, front, k, a)) ==> after == Some(data))
            && (forall a :: Leads(root, front, a) ==>
                  && after.Some?
                  && if FieldAt(root, a, last) then
                       Object(after.value) == Replace(root, a, Lacking(At(root, a).value, last))
                     else after.value == data)
    ensures var front, root := tokens[..|tokens| - 1], Object(data);
            || (exists k, a :: UnsetThrowsAt(root, front, k, a))
            || (exists k, a :: UnsetBreaksAt(root, front, k, a))
            || (exists a :: Leads(root, front, a))
  {
    var front, last, root := tokens[..|tokens| - 1], tokens[|tokens| - 1], Object(data);
    TokensOfDotted(tokens);
    StrictExactly(root, front);
    if k, a :| UnsetThrowsAt(root, front, k, a) {
      ThrowStopsStrict(root, front, k, a);
    }
    if k, a :| UnsetBreaksAt(root, front, k, a) {
      BreakStopsStrict(root, front, k, a);
    }
    forall a | Leads(root, front, a)
      ensures StrictWalk(root, front) == Reached(a)
      ensures FieldAt(root, a, last) ==> Replace(root, a, Lacking(At(root, a).value, last)).Object?
    {
      LeadsWalks(root, front, a);
    }
  }

  // ---------- keys without a dot, and which operator does what ----------

  /** All fields but one are the same. */
  ghost predicate SameBut(before: Fields, after: Fields, key: Str) {
    forall k :: k != key ==> (k in after <==> k in before) && (k in before && k in after ==> after[k] == before[k])
  }

  /** On a key without a dot `$set` gives the field the value, whether it existed or not, `$unset` removes
      it, and neither can throw; `$push` appends, and `$pull` filters an array, whether the key has a dot
      or not. None of them changes another field. */
  lemma PlainOperators(eq: Equality, data: Fields, key: Str, value: Json)
    ensures DOT !in key ==>
              var with, without := ApplyOp(eq, data, Set(key, value)), ApplyOp(eq, data, Unset(key));
              && with.Some? && key in with.value && with.value[key] == value && SameBut(data, with.value, key)
              && without.Some? && key !in without.value && SameBut(data, without.value, key)
    ensures var push := ApplyOp(eq, data, Push(key, value));
            && push.Some? && SameBut(data, push.value, key)
            && (key in data || !value.Array? ==> Items(push.value, key) == Items(data, key) + [value])
            && (key !in data ==> key in push.value && push.value[key] == value)
            && (key in data ==> key in push.value && push.value[key].Array?)
    ensures var pull := ApplyOp(eq, data, Pull(key, value));
            && pull.Some? && SameBut(data, pull.value, key)
            && (key !in data ==> key !in pull.value)
            && (key in data && data[key].Array? ==>
                  && key in pull.value && pull.value[key].Array?
                  && Filtered(eq, data[key].items, pull.value[key].items, value))
            && (key in data && !data[key].Array? ==>
                  if eq(data[key], value) then key !in pull.value else key in pull.value && pull.value[key] == value)
  {
    PushAppendsExactly(data, key, value);
    PullFilters(eq, data, key, value);
    assert SameBut(data, PushValue(data, key, value), key);
  }
}
