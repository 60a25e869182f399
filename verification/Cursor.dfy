/** The cursor over a snapshot of one collection, in ascending id order. */
module Cursor {
  import opened Bytes
  import opened Json
  import opened StorageEngine

  class Cursor {
    const walk: Iterator?
    var valid: bool

    ghost predicate Inv()
      reads this, walk
    {
      if walk == null then !valid else walk.Inv() && valid == walk.Valid()
    }

    /** The keys from the cursor's position on; those still to be visited. */
    ghost function Remaining(): seq<Str>
      requires Inv()
      reads this, walk
    {
      if valid then walk.keys[walk.pos..] else []
    }

    /** A collection without a family has nothing to visit. */
    constructor (collectionName: Str, engine: StorageEngine)
      ensures Inv() && (walk != null ==> fresh(walk))
      ensures collectionName !in engine.families ==> Remaining() == []
      ensures collectionName in engine.families ==>
                && walk != null && walk.family == engine.families[collectionName]
                && Remaining() == Sorted(engine.families[collectionName].Keys)
    {
      walk := null;
      valid := false;
      if collectionName in engine.families {
        var start := new Iterator(engine.families[collectionName]);
        start.SeekToFirst();
        walk := start;
        valid := start.Valid();
        assert start.keys[0..] == start.keys;
      }
    }

    method IsValid() returns (r: bool)
      requires Inv()
      ensures r == valid && (r <==> Remaining() != [])
    {
      r := valid;
    }

    method Next()
      requires Inv()
      modifies this, walk
      ensures Inv()
      ensures Remaining() == if old(valid) then old(Remaining())[1..] else []
    {
      if !valid {
        return;
      }
      walk.Next();
      valid := walk.Valid();
    }

    /** The document under the cursor; a value that is not a packed document throws. */
    method Current() returns (status: Status, doc: Option<Doc>)
      requires Inv()
      ensures !valid ==> status == InvalidArgument && doc == None
      ensures valid ==>
                match walk.family[Remaining()[0]]
                case Packed(d) => status == OK && doc == Some(d)
                case Raw(_) => status == Exception && doc == None
    {
      if !valid {
        return InvalidArgument, None;
      }
      match walk.Value() {
        case Packed(d) =>
          return OK, Some(d);
        case Raw(_) =>
          return Exception, None;
      }
    }

    method CurrentId() returns (id: Str)
      requires Inv()
      ensures id == if valid then Remaining()[0] else []
    {
      if !valid {
        return [];
      }
      return walk.Key();
    }

    /** To the first id at or after the one given, and onwards from there. */
    method Seek(id: Str)
      requires Inv()
      modifies this, walk
      ensures Inv()
      ensures walk == null ==> Remaining() == []
      ensures walk != null ==>
                var n := |walk.keys| - |Remaining()|;
                && 0 <= n && Remaining() == walk.keys[n..]
                && (forall i :: 0 <= i < n ==> Less(walk.keys[i], id))
                && (Remaining() != [] ==> !Less(Remaining()[0], id))
    {
      if walk == null {
        return;
      }
      walk.Seek(id);
      valid := walk.Valid();
    }

    method Reset()
      requires Inv()
      modifies this, walk
      ensures Inv()
      ensures Remaining() == if walk == null then [] else walk.keys
    {
      if walk == null {
        return;
      }
      walk.SeekToFirst();
      valid := walk.Valid();
    }
  }
}
