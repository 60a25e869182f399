/** The document object, whose data an update edits in place. A pointer into the JSON tree is the
    address of the node it points to. */
module Document {
  import opened Bytes
  import opened Json
  import opened UpdateLanguage

  /** `std::getline` over the whole key. */
  method Tokenize(key: Str) returns (tokens: seq<Str>)
    ensures tokens == Tokens(key)
  {
    tokens := [];
    var token, i := [], 0;
    while i < |key|
      invariant 0 <= i <= |key|
      invariant tokens + TokensFrom(key[i..], token) == Tokens(key)
    {
      assert key[i..][1..] == key[i + 1..];
      if key[i] == DOT {
        assert tokens + TokensFrom(key[i..], token) == tokens + [token] + TokensFrom(key[i + 1..], []);
        tokens, token := tokens + [token], [];
      } else {
        token := token + [key[i]];
      }
      i := i + 1;
    }
    if token != [] {
      tokens := tokens + [token];
    }
  }

  ghost function Onward(current: Address, rest: Option<Address>): Option<Address> {
    if rest.None? then None else Some(current + rest.value)
  }

  ghost function OnwardStrict(current: Address, rest: Walk): Walk {
    if rest.Reached? then Reached(current + rest.address) else rest
  }

  /** Moving the pointer into a child shifts one step from the walk ahead to the address behind. */
  lemma GreedyMoves(node: Json, current: Address, tokens: seq<Str>)
    requires tokens != [] && !Resolve(node, tokens[0]).Raise?
    ensures var move := Resolve(node, tokens[0]);
            Onward(current, GreedyWalk(node, tokens)) ==
            if move.Skip? then Onward(current, GreedyWalk(node, tokens[1..]))
            else Onward(current + [move.st], GreedyWalk(Child(node, move.st), tokens[1..]))
  {
    var move := Resolve(node, tokens[0]);
    if move.Into? {
      var ahead := GreedyWalk(Child(node, move.st), tokens[1..]);
      assert ahead.Some? ==> current + ([move.st] + ahead.value) == current + [move.st] + ahead.value;
    }
  }

  lemma StrictMoves(node: Json, current: Address, tokens: seq<Str>)
    requires tokens != [] && Resolve(node, tokens[0]).Into?
    ensures var st := Resolve(node, tokens[0]).st;
            OnwardStrict(current, StrictWalk(node, tokens)) ==
            OnwardStrict(current + [st], StrictWalk(Child(node, st), tokens[1..]))
  {
    var st := Resolve(node, tokens[0]).st;
    var ahead := StrictWalk(Child(node, st), tokens[1..]);
    assert ahead.Reached? ==> current + ([st] + ahead.address) == current + [st] + ahead.address;
  }

  lemma OnwardFromRoot(root: Json, tokens: seq<Str>)
    ensures Onward([], GreedyWalk(root, tokens)) == GreedyWalk(root, tokens)
    ensures OnwardStrict([], StrictWalk(root, tokens)) == StrictWalk(root, tokens)
  {
    assert GreedyWalk(root, tokens).Some? ==> [] + GreedyWalk(root, tokens).value == GreedyWalk(root, tokens).value;
    assert StrictWalk(root, tokens).Reached? ==> [] + StrictWalk(root, tokens).address == StrictWalk(root, tokens).address;
  }

  /** The token loop of `$set`: a token that does not resolve is passed over. */
  method WalkGreedily(root: Json, tokens: seq<Str>) returns (r: Option<Address>)
    ensures r == GreedyWalk(root, tokens)
  {
    var node, current: Address, i := root, [], 0;
    ghost var target := GreedyWalk(root, tokens);
    OnwardFromRoot(root, tokens);
    assert tokens[0..] == tokens;
    while i < |tokens|
      invariant 0 <= i <= |tokens|
      invariant Onward(current, GreedyWalk(node, tokens[i..])) == target
    {
      var rest := tokens[i..];
      assert rest[1..] == tokens[i + 1..];
      match Resolve(node, rest[0]) {
        case Raise =>
          return None;
        case Skip =>
          GreedyMoves(node, current, rest);
        case Into(st) =>
          GreedyMoves(node, current, rest);
          node, current := Child(node, st), current + [st];
      }
      i := i + 1;
    }
    assert current + [] == current;
    r := Some(current);
  }

  /** The token loop of `$unset`: a token that does not resolve ends it. */
  method WalkStrictly(root: Json, tokens: seq<Str>) returns (r: Walk)
    ensures r == StrictWalk(root, tokens)
  {
    var node, current: Address, i := root, [], 0;
    ghost var target := StrictWalk(root, tokens);
    OnwardFromRoot(root, tokens);
    assert tokens[0..] == tokens;
    while i < |tokens|
      invariant 0 <= i <= |tokens|
      invariant OnwardStrict(current, StrictWalk(node, tokens[i..])) == target
    {
      var rest := tokens[i..];
      assert rest[1..] == tokens[i + 1..];
      match Resolve(node, rest[0]) {
        case Raise =>
          return Raised;
        case Skip =>
          return Broken;
        case Into(st) =>
          StrictMoves(node, current, rest);
          node, current := Child(node, st), current + [st];
      }
      i := i + 1;
    }
    assert current + [] == current;
    r := Reached(current);
  }

  class Document {
    var id: Str
    var data: Fields

    constructor (id: Str, data: Fields)
      ensures this.id == id && this.data == data
    {
      this.id, this.data := id, data;
    }

    method SetValue(field: Str, value: Json)
      modifies this`data
      ensures data == old(data)[field := value]
    {
      data := data[field := value];
    }

    /** Applies the operators one after another; `false` is an exception, before which the earlier
        operators have taken effect. */
    method ApplyUpdate(eq: Equality, update: seq<UpdateOp>) returns (ok: bool)
      modifies this`data
      ensures ok <==> UpdateLanguage.ApplyUpdate(eq, old(data), update).Some?
      ensures ok ==> UpdateLanguage.ApplyUpdate(eq, old(data), update) == Some(data)
      ensures data == AppliedUntil(eq, old(data), update)
    {
      for i := 0 to |update|
        invariant UpdateLanguage.ApplyUpdate(eq, old(data), update) == UpdateLanguage.ApplyUpdate(eq, data, update[i..])
        invariant AppliedUntil(eq, old(data), update) == AppliedUntil(eq, data, update[i..])
      {
        assert update[i..][1..] == update[i + 1..];
        match update[i] {
          case Set(key, value) =>
            ok := SetField(key, value);
          case Unset(key) =>
            ok := UnsetField(key);
          case Push(key, value) =>
            PushField(key, value);
            ok := true;
          case Pull(key, value) =>
            PullField(eq, key, value);
            ok := true;
        }
        if !ok {
          return;
        }
      }
      ok := true;
    }

    method SetField(key: Str, value: Json) returns (ok: bool)
      modifies this`data
      ensures ok <==> SetKey(old(data), key, value).Some?
      ensures if ok then SetKey(old(data), key, value) == Some(data) else data == old(data)
    {
      if DOT !in key {
        data := data[key := value];
        return true;
      }
      var tokens := Tokenize(key);
      var root, last := Object(data), tokens[|tokens| - 1];
      var current := WalkGreedily(root, tokens[..|tokens| - 1]);
      if current.None? {
        return false;
      }
      if UpdateLanguage.HasField(At(root, current.value).value, last) {
        FieldAddress(root, current.value, last);
        data := Replace(root, current.value + [Key(last)], value).fields;
      }
      ok := true;
    }

    method UnsetField(key: Str) returns (ok: bool)
      modifies this`data
      ensures ok <==> UnsetKey(old(data), key).Some?
      ensures if ok then UnsetKey(old(data), key) == Some(data) else data == old(data)
    {
      if DOT !in key {
        data := data - {key};
        return true;
      }
      var tokens := Tokenize(key);
      var root, last := Object(data), tokens[|tokens| - 1];
      var walk := WalkStrictly(root, tokens[..|tokens| - 1]);
      if walk.Raised? {
        return false;
      }
      if walk.Reached? && UpdateLanguage.HasField(At(root, walk.address).value, last) {
        var node := At(root, walk.address).value;
        data := Replace(root, walk.address, Object(node.fields - {last})).fields;
      }
      ok := true;
    }

    method PushField(key: Str, value: Json)
      modifies this`data
      ensures data == PushValue(old(data), key, value)
    {
      if key !in data {
        data := data[key := value];
      } else if data[key].Array? {
        data := data[key := Array(data[key].items + [value])];
      } else {
        var original := data[key];
        data := data[key := Array([original, value])];
      }
    }

    method PullField(eq: Equality, key: Str, value: Json)
      modifies this`data
      ensures data == PullValue(eq, old(data), key, value)
    {
      if key in data && data[key].Array? {
        var items, newArray := data[key].items, [];
        for i := 0 to |items|
          invariant data == old(data) && newArray == Without(eq, items[..i], value)
        {
          assert items[..i + 1] == items[..i] + [items[i]];
          WithoutSnoc(eq, items[..i], items[i], value);
          if !eq(items[i], value) {
            newArray := newArray + [items[i]];
          }
        }
        assert items[..|items|] == items;
        data := data[key := Array(newArray)];
      } else if key in data {
        if eq(data[key], value) {
          data := data - {key};
        } else {
          data := data[key := value];
        }
      }
    }
  }
}
