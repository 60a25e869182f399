/** The database object: its registry of collection objects and the destructor that drops their
    indexes, proved to do what the session steps say. */
module Database {
  import opened Bytes
  import opened Json
  import opened Naming
  import opened StorageEngine
  import opened Sessions

  class Database {
    const engine: StorageEngine
    var alive: set<Str>
    var isDbOpen: bool

    ghost function State(): Db
      reads this, engine
    {
      Db(engine.families, alive)
    }

    constructor (engine: StorageEngine)
      ensures this.engine == engine && alive == {} && !isDbOpen
    {
      this.engine, alive, isDbOpen := engine, {}, false;
    }

    method Open()
      modifies this
      ensures isDbOpen && State() == old(State())
    {
      isDbOpen := true;
    }

    /** `collections_.clear()` runs the destructor of every object, in no particular order. */
    method Close()
      modifies this, engine
      ensures !isDbOpen && State() == Sessions.Close(old(State()))
    {
      isDbOpen := false;
      ghost var before := engine.families;
      assert Destroyed(before, {}) == before;
      ghost var done: set<Str> := {};
      while alive != {}
        invariant !isDbOpen && done + alive == old(alive)
        invariant engine.families == Destroyed(before, done)
        decreases |alive|
      {
        var c :| c in alive;
        alive := alive - {c};
        DestroyCollection(c);
        done := done + {c};
      }
      assert done == old(alive);
    }

    /** `~Collection`: deletes every index listed for the collection. */
    method DestroyCollection(c: Str)
      modifies engine
      ensures engine.families == Destroyed(old(engine.families), {c})
    {
      ghost var before, done := engine.families, {};
      var todo := engine.GetIndexNames(c);
      assert Without(before, c, {}) == before;
      while todo != {}
        invariant done + todo == IndexNames(before.Keys, c)
        invariant engine.families == Without(before, c, done)
        decreases |todo|
      {
        var f :| f in todo;
        DropListed(c, f, before, done);
        todo, done := todo - {f}, done + {f};
      }
      assert done == IndexNames(before.Keys, c);
      WithoutListed(before, c);
    }

    /** One round of the destructor's loop. */
    method DropListed(c: Str, f: Str, ghost before: Families, ghost done: set<Str>)
      requires f in IndexNames(before.Keys, c) && engine.families == Without(before, c, done)
      modifies engine
      ensures engine.families == Without(before, c, done + {f})
    {
      DropOne(before, c, done, f);
      var _ := engine.DropCollection(IndexCfName(c, f));
    }

    method CreateCollection(c: Str) returns (status: Status)
      modifies this, engine
      ensures (State(), status) == Sessions.CreateCollection(old(State()), c)
      ensures isDbOpen == old(isDbOpen)
    {
      status := engine.CreateCollection(c);
      if status != OK {
        return;
      }
      if c in alive {
        DestroyCollection(c);
      }
      alive := alive + {c};
    }

    /** Whether there is an object for the name; one is made for a family that has none. */
    method GetCollection(c: Str) returns (found: bool)
      modifies this
      ensures State() == Sessions.GetCollection(old(State()), c) && found == (c in alive)
      ensures isDbOpen == old(isDbOpen)
    {
      if c in alive {
        return true;
      }
      if c !in engine.families {
        return false;
      }
      alive := alive + {c};
      return true;
    }

    method DropCollection(c: Str) returns (status: Status)
      requires c in engine.families
      modifies this, engine
      ensures (State(), status) == Sessions.DropCollection(old(State()), c)
      ensures isDbOpen == old(isDbOpen)
    {
      ghost var before := engine.families;
      if c in alive {
        alive := alive - {c};
        DestroyCollection(c);
      }
      assert c in engine.families by {
        assert IsIndexCf(c) ==> |ParseCf(c).0| < |c|;
      }
      var _ := GetCollection(c);
      DestroyCollection(c);
      assert engine.families == Destroyed(before, {c}) && c in engine.families;
      status := engine.DropCollection(c);
      assert engine.families == WithoutFamily(Destroyed(before, {c}), c);
      assert status == DropStatus(before, c);
      assert alive == old(alive) + {c};
    }
  }

  /** The families without the index families of some fields. */
  ghost function Without(s: Families, c: Str, fs: set<Str>): Families {
    map x | x in s && !(IsIndexCf(x) && ParseCf(x).0 == c && ParseCf(x).1 in fs) :: s[x]
  }

  /** Without all that are listed, the collection's indexes are gone. */
  lemma WithoutListed(s: Families, c: Str)
    ensures Without(s, c, IndexNames(s.Keys, c)) == Destroyed(s, {c})
  {
  }

  lemma DropOne(s: Families, c: Str, fs: set<Str>, f: Str)
    requires f in IndexNames(s.Keys, c)
    ensures Without(s, c, fs) - {IndexCfName(c, f)} == Without(s, c, fs + {f})
  {
    var x :| x in s && IsIndexCf(x) && ParseCf(x) == (c, f);
    ParsedNameRebuilds(x);
    var t, u := Without(s, c, fs) - {x}, Without(s, c, fs + {f});
    forall y
      ensures y in t <==> y in u
    {
      if y in s && IsIndexCf(y) && ParseCf(y) == (c, f) {
        ParsedNameRebuilds(y);
      }
    }
  }
}
