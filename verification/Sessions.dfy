/** The life of collections and indexes over database sessions: what creating, dropping, closing
    and reopening do to the stored families, and what every session keeps. */
module Sessions {
  import opened Bytes
  import opened Json
  import opened Naming
  import opened StorageEngine
  import opened CollectionOps
  import opened History
  import opened Consistency

  /** The stored families, and the names whose collection object is alive. */
  datatype Db = Db(families: Families, alive: set<Str>)

  /** A family listed as an index of one of the names. */
  predicate IndexOfAny(x: Str, names: set<Str>) {
    IsIndexCf(x) && ParseCf(x).0 in names
  }

  /** Destroying collection objects drops every index listed for them. */
  function Destroyed(s: Families, names: set<Str>): Families {
    map x | x in s && !IndexOfAny(x, names) :: s[x]
  }

  /** `createCollection`: replacing an object left over from a drop destroys that object. */
  function CreateCollection(db: Db, c: Str): (Db, Status) {
    if c in db.families then (db, InvalidArgument)
    else
      var s := db.families[c := map[]];
      (Db(if c in db.alive then Destroyed(s, {c}) else s, db.alive + {c}), OK)
  }

  function GetCollection(db: Db, c: Str): Db {
    if c in db.alive || c !in db.families then db else db.(alive := db.alive + {c})
  }

  /** `dropCollection` of an existing collection; the object that looks up its indexes stays alive. */
  function DropCollection(db: Db, c: Str): (Db, Status)
    requires c in db.families
  {
    (Db(WithoutFamily(Destroyed(db.families, {c}), c), db.alive + {c}), DropStatus(db.families, c))
  }

  /** `close` destroys every collection object of the session. */
  function Close(db: Db): Db {
    Db(Destroyed(db.families, db.alive), {})
  }

  datatype DbOp =
    | OpenDb
    | CloseDb
    | NewCollection(name: Str)
    | RemoveCollection(name: Str)
    | Work(name: Str, op: Op)

  /** Work on a collection first looks its object up; without one there is nothing to call. */
  function DbStep(db: Db, op: DbOp): Db {
    match op
    case OpenDb => db
    case CloseDb => Close(db)
    case NewCollection(c) => CreateCollection(db, c).0
    case RemoveCollection(c) => if c in db.families then DropCollection(db, c).0 else db
    case Work(c, work) =>
      var found := GetCollection(db, c);
      if c in found.alive then found.(families := Step(db.families, c, work).0) else db
  }

  function DbRun(db: Db, ops: seq<DbOp>): Db
    decreases |ops|
  {
    if ops == [] then db else DbRun(DbStep(db, ops[0]), ops[1..])
  }

  // ---------- dropping and closing ----------

  /** Whether a family is named as an index of the collection. */
  ghost predicate NamedIndexOf(x: Str, c: Str) {
    exists f :: x == IndexCfName(c, f)
  }

  /** For a well-formed name those are the families that are listed; for any other, none is. */
  lemma ListedAsIndex(x: Str, c: Str)
    ensures IndexOfAny(x, {c}) <==> NamedIndexOf(x, c) && WellFormedName(c)
  {
    if IndexOfAny(x, {c}) {
      ParsedNameRebuilds(x);
      assert x == IndexCfName(c, ParseCf(x).1);
      NameParsesBackExactly(c, ParseCf(x).1);
    }
    if f :| x == IndexCfName(c, f) {
      NameParsesBackExactly(c, f);
    }
  }

  /** Dropping removes the collection's family unless it is the default one, and all its index families
      if its name is well formed; nothing else goes, and nothing changes. */
  lemma DropRemoves(db: Db, c: Str, x: Str)
    requires c in db.families
    ensures var s, t := db.families, DropCollection(db, c).0.families;
            && (x in t <==> x in s && (x != c || c == DEFAULT) && !(NamedIndexOf(x, c) && WellFormedName(c)))
            && (x in t ==> t[x] == s[x])
    ensures NamedIndexOf(x, c) ==> x != c
  {
    ListedAsIndex(x, c);
  }

  /** Nothing but the collection and its indexes has gone. */
  ghost predicate OnlyCollectionGone(s: Families, t: Families, c: Str) {
    forall x :: x in t <==> x in s && x != c && !NamedIndexOf(x, c)
  }

  ghost predicate HasIndexFamilies(s: Families, c: Str) {
    exists x :: x in s && NamedIndexOf(x, c)
  }

  /** So dropping removes exactly the collection and its indexes, unless it is the default family, which
      stays with an error, or its name is not well formed and there are families named as its indexes,
      which then stay. */
  lemma DropRemovesExactly(db: Db, c: Str)
    requires c in db.families
    ensures var s, t := db.families, DropCollection(db, c).0.families;
            && (OnlyCollectionGone(s, t, c) <==> c != DEFAULT && (WellFormedName(c) || !HasIndexFamilies(s, c)))
            && (DropCollection(db, c).1 == OK <==> c != DEFAULT)
            && (forall x :: x in t ==> x in s && t[x] == s[x])
  {
    var s, t := db.families, DropCollection(db, c).0.families;
    if c == DEFAULT {
      DropRemoves(db, c, c);
    } else if WellFormedName(c) || !HasIndexFamilies(s, c) {
      forall x
        ensures x in t <==> x in s && x != c && !NamedIndexOf(x, c)
      {
        DropRemoves(db, c, x);
      }
    } else {
      var x :| x in s && NamedIndexOf(x, c);
      DropRemoves(db, c, x);
    }
  }

  /** Closing keeps the documents of a collection exactly when its name is not that of an index of a
      collection object of the session, drops every index of each such object, and keeps all other
      indexes as they are. */
  lemma CloseKeepsDocuments(db: Db, c: Str)
    ensures var s, t := db.families, Close(db).families;
            && (c in t <==> c in s && !IndexOfAny(c, db.alive))
            && DocsOf(t, c) == (if IndexOfAny(c, db.alive) then map[] else DocsOf(s, c))
            && ViewOf(t, c).index == if c in db.alive then map[] else ViewOf(s, c).index
    ensures WellFormedName(c) ==> !IndexOfAny(c, db.alive)
  {
    var s, t := db.families, Close(db).families;
    if WellFormedName(c) {
      CloseKeepsIndexes(db, c);
    } else {
      IndexNamesMissIllFormed(s.Keys, c);
      IndexNamesMissIllFormed(t.Keys, c);
      assert ViewOf(s, c).index == map[] && ViewOf(t, c).index == map[];
    }
  }

  lemma CloseKeepsIndexes(db: Db, c: Str)
    requires WellFormedName(c)
    ensures ViewOf(Close(db).families, c).index == if c in db.alive then map[] else ViewOf(db.families, c).index
  {
    var s, t := db.families, Close(db).families;
    ViewIndexes(s, c);
    ViewIndexes(t, c);
    forall f
      ensures IndexCfName(c, f) in t <==> IndexCfName(c, f) in s && c !in db.alive
      ensures IndexCfName(c, f) in t ==> t[IndexCfName(c, f)] == s[IndexCfName(c, f)]
    {
      NameParsesBackExactly(c, f);
    }
    assert ViewOf(t, c).index == if c in db.alive then map[] else ViewOf(s, c).index;
  }

  /** The failing case: a collection whose name is that of an index of another one loses all its
      documents when the other is dropped, or the database is closed while the other has an object. */
  lemma NamesLikeIndexesLoseDocuments(db: Db, a: Str, b: Str)
    requires WellFormedName(a) && IndexCfName(a, b) in db.families
    ensures a in db.families ==> IndexCfName(a, b) !in DropCollection(db, a).0.families
    ensures a in db.alive ==> IndexCfName(a, b) !in Close(db).families
  {
    NameParsesBackExactly(a, b);
  }

  // ---------- what every session keeps ----------

  /** Every well-formed collection is sound and has no missing index entry. */
  ghost predicate Healthy(s: Families) {
    forall c :: WellFormedName(c) ==> Sound(s, c) && NoMissing(ViewOf(s, c))
  }

  /** Steps use well-formed names, `#`-free ids, and index builds that report success. */
  ghost predicate Proper(db: Db, op: DbOp) {
    match op
    case OpenDb => true
    case CloseDb => true
    case NewCollection(c) => WellFormedName(c)
    case RemoveCollection(c) => WellFormedName(c)
    case Work(c, work) =>
      WellFormedName(c) && HashFreeIds(work) && (work.BuildIndex? ==> Step(db.families, c, work).1 == OK)
  }

  ghost predicate ProperRun(db: Db, ops: seq<DbOp>)
    decreases |ops|
  {
    ops == [] || (Proper(db, ops[0]) && ProperRun(DbStep(db, ops[0]), ops[1..]))
  }

  /** A collection whose families are the same is the same. */
  lemma SameFamiliesSameView(s: Families, t: Families, d: Str)
    requires WellFormedName(d)
    requires forall x :: Owns(d, x) ==> (x in s <==> x in t) && (x in s ==> s[x] == t[x])
    ensures ViewOf(t, d) == ViewOf(s, d) && (Sound(s, d) ==> Sound(t, d))
  {
    forall f
      ensures Owns(d, IndexCfName(d, f))
    {
      OwnedOnly(d, f);
    }
    ViewIndexes(s, d);
    ViewIndexes(t, d);
    assert Owns(d, d);
    assert DocsOf(t, d) == DocsOf(s, d);
    assert ViewOf(t, d).index == ViewOf(s, d).index;
  }

  /** Work on one collection leaves every other collection as it was. */
  lemma OthersUntouched(s: Families, t: Families, c: Str, d: Str)
    requires WellFormedName(c) && WellFormedName(d) && c != d && SameElsewhere(s, t, c)
    ensures ViewOf(t, d) == ViewOf(s, d) && (Sound(s, d) ==> Sound(t, d))
  {
    assert forall x :: Owns(d, x) ==> !Owns(c, x);
    SameFamiliesSameView(s, t, d);
  }

  lemma WorkHealthy(s: Families, c: Str, op: Op)
    requires Healthy(s) && WellFormedName(c) && HashFreeIds(op)
    requires op.BuildIndex? ==> Step(s, c, op).1 == OK
    ensures Healthy(Step(s, c, op).0)
  {
    var t := Step(s, c, op).0;
    StepRefines(s, c, op);
    SoundKeyed(s, c);
    if op.BuildIndex? {
      BuildSucceedsExactly(s, c, op.field);
    }
    StepNoMissing(ViewOf(s, c), op);
    forall d | WellFormedName(d) && d != c
      ensures Sound(t, d) && NoMissing(ViewOf(t, d))
    {
      OthersUntouched(s, t, c, d);
    }
  }

  lemma DestroyHealthy(s: Families, names: set<Str>)
    requires Healthy(s)
    ensures Healthy(Destroyed(s, names))
  {
    var t := Destroyed(s, names);
    forall d | WellFormedName(d)
      ensures Sound(t, d) && NoMissing(ViewOf(t, d))
    {
      DestroyOne(s, names, d);
    }
  }

  /** Dropping indexes cannot make an entry missing: what is left has all it had. */
  lemma DestroyOne(s: Families, names: set<Str>, d: Str)
    requires Sound(s, d) && NoMissing(ViewOf(s, d))
    ensures Sound(Destroyed(s, names), d) && NoMissing(ViewOf(Destroyed(s, names), d))
  {
    var t := Destroyed(s, names);
    ViewIndexes(s, d);
    ViewIndexes(t, d);
    assert d in s ==> t[d] == s[d];
    assert DocsOf(t, d) == DocsOf(s, d);
  }

  lemma RemoveFamilyHealthy(s: Families, c: Str)
    requires Healthy(s) && WellFormedName(c)
    ensures Healthy(s - {c})
  {
    var t := s - {c};
    forall d | WellFormedName(d)
      ensures Sound(t, d) && NoMissing(ViewOf(t, d))
    {
      if d == c {
        assert forall f :: IndexCfName(c, f) in t ==> IndexCfName(c, f) in s;
        assert DocsOf(t, c) == map[];
      } else {
        OthersUntouched(s, t, c, d);
      }
    }
  }

  lemma NewFamilyHealthy(s: Families, c: Str)
    requires Healthy(s) && WellFormedName(c) && c !in s
    ensures Healthy(s[c := map[]])
  {
    var t := s[c := map[]];
    forall d | WellFormedName(d)
      ensures Sound(t, d) && NoMissing(ViewOf(t, d))
    {
      if d == c {
        forall f | IndexCfName(c, f) in t
          ensures SoundIndex(t[IndexCfName(c, f)])
        {
          OwnedOnly(c, f);
        }
        assert DocsOf(t, c) == map[];
      } else {
        OthersUntouched(s, t, c, d);
      }
    }
  }

  lemma CreateHealthy(db: Db, c: Str)
    requires Healthy(db.families) && WellFormedName(c)
    ensures Healthy(CreateCollection(db, c).0.families)
  {
    if c !in db.families {
      NewFamilyHealthy(db.families, c);
      DestroyHealthy(db.families[c := map[]], {c});
    }
  }

  lemma DropHealthy(db: Db, c: Str)
    requires Healthy(db.families) && WellFormedName(c) && c in db.families
    ensures Healthy(DropCollection(db, c).0.families)
  {
    DestroyHealthy(db.families, {c});
    if c != DEFAULT {
      RemoveFamilyHealthy(Destroyed(db.families, {c}), c);
    }
  }

  lemma StepHealthy(db: Db, op: DbOp)
    requires Healthy(db.families) && Proper(db, op)
    ensures Healthy(DbStep(db, op).families)
  {
    match op {
      case OpenDb =>
      case CloseDb =>
        DestroyHealthy(db.families, db.alive);
      case NewCollection(c) =>
        CreateHealthy(db, c);
      case RemoveCollection(c) =>
        if c in db.families {
          DropHealthy(db, c);
        }
      case Work(c, work) =>
        WorkHealthy(db.families, c, work);
    }
  }

  /** Over any number of sessions, with any interplay of collections being created, filled, indexed,
      dropped and recreated, closed and reopened, every collection stays sound and no index that
      survives ever misses a stored document. */
  lemma {:induction false} SessionsHealthy(db: Db, ops: seq<DbOp>)
    requires Healthy(db.families) && ProperRun(db, ops)
    ensures Healthy(DbRun(db, ops).families)
    decreases |ops|
  {
    if ops != [] {
      StepHealthy(db, ops[0]);
      SessionsHealthy(DbStep(db, ops[0]), ops[1..]);
    }
  }

  /** A new database holds only its empty default family, and is healthy. */
  lemma NewDatabaseHealthy()
    ensures Healthy(map[DEFAULT := map[]]) && NoOrphans(Db(map[DEFAULT := map[]], {}))
  {
    var s: Families := map[DEFAULT := map[]];
    forall c | WellFormedName(c)
      ensures Sound(s, c) && NoMissing(ViewOf(s, c))
    {
      forall f
        ensures IndexCfName(c, f) !in s
      {
        NameParsesBackExactly(c, f);
      }
      assert DocsOf(s, c) == map[];
    }
  }

  // ---------- work on a collection ----------

  /** Looking a collection up finds an object exactly when there is one or the family exists, and
      touches no family and no other object. */
  lemma LookupFindsExactly(db: Db, c: Str)
    ensures var found := GetCollection(db, c);
            && found.families == db.families && found.alive - {c} == db.alive - {c}
            && (c in found.alive <==> c in db.alive || c in db.families)
  {
  }

  /** Work on a collection that has an object or a family is the step of its operation on the families,
      also after the database was closed and opened again; on any other name there is nothing to call. */
  lemma WorkIsDone(db: Db, c: Str, op: Op)
    ensures DbStep(db, Work(c, op)).families ==
            if c in db.alive || c in db.families then Step(db.families, c, op).0 else db.families
    ensures var reopened := DbStep(DbStep(db, CloseDb), OpenDb);
            && reopened.alive == {}
            && (c in db.families && WellFormedName(c) ==>
                  && c in reopened.families && DocsOf(reopened.families, c) == DocsOf(db.families, c)
                  && DbStep(reopened, Work(c, op)).families == Step(reopened.families, c, op).0
                  && c in DbStep(reopened, Work(c, op)).alive)
  {
    CloseKeepsDocuments(db, c);
  }

  // ---------- recreated collections ----------

  /** Every index family belongs to a collection that exists or whose object is still alive. */
  ghost predicate NoOrphans(db: Db) {
    forall x :: x in db.families && IsIndexCf(x) ==> ParseCf(x).0 in db.families || ParseCf(x).0 in db.alive
  }

  /** The collection part of an index family's name holds no delimiter itself. */
  lemma {:induction false} OwnerIsNoIndex(x: Str)
    requires IsIndexCf(x)
    ensures Find(ParseCf(x).0).None?
  {
    var c := ParseCf(x).0;
    FindsFirst(x, 0);
    FindsFirst(c, 0);
    if Find(c).Some? {
      var i := Find(c).value;
      assert x[i..i + 9] == c[i..i + 9];
      assert DelimiterAt(x, i);
    }
  }

  lemma WorkNoOrphans(db: Db, c: Str, op: Op)
    requires NoOrphans(db) && Sound(db.families, c) && HashFreeIds(op) && c in db.alive
    ensures NoOrphans(db.(families := Step(db.families, c, op).0))
  {
    var s, t := db.families, Step(db.families, c, op).0;
    StepRefines(s, c, op);
    forall x | x in t && IsIndexCf(x)
      ensures ParseCf(x).0 in t || ParseCf(x).0 in db.alive
    {
      var d := ParseCf(x).0;
      OwnerIsNoIndex(x);
      if d != c {
        assert !Owns(c, x) && !Owns(c, d);
      }
    }
  }

  lemma DestroyNoOrphans(db: Db, names: set<Str>, alive: set<Str>)
    requires NoOrphans(db) && db.alive <= names + alive
    ensures NoOrphans(Db(Destroyed(db.families, names), alive))
  {
    forall x | x in Destroyed(db.families, names) && IsIndexCf(x)
      ensures ParseCf(x).0 in Destroyed(db.families, names) || ParseCf(x).0 in alive
    {
      OwnerIsNoIndex(x);
    }
  }

  lemma CreateNoOrphans(db: Db, c: Str)
    requires NoOrphans(db) && WellFormedName(c)
    ensures NoOrphans(CreateCollection(db, c).0)
  {
    if c !in db.families {
      var grown := Db(db.families[c := map[]], db.alive + {c});
      assert NoOrphans(grown);
      DestroyNoOrphans(grown, {c}, db.alive + {c});
    }
  }

  lemma StepNoOrphans(db: Db, op: DbOp)
    requires Healthy(db.families) && NoOrphans(db) && Proper(db, op)
    ensures NoOrphans(DbStep(db, op))
  {
    match op {
      case OpenDb =>
      case CloseDb =>
        DestroyNoOrphans(db, db.alive, {});
      case NewCollection(c) =>
        CreateNoOrphans(db, c);
      case RemoveCollection(c) =>
        if c in db.families {
          DestroyNoOrphans(db, {c}, db.alive + {c});
        }
      case Work(c, work) =>
        var found := GetCollection(db, c);
        if c in found.alive {
          WorkNoOrphans(found, c, work);
        }
    }
  }

  lemma {:induction false} RunNoOrphans(db: Db, ops: seq<DbOp>)
    requires Healthy(db.families) && NoOrphans(db) && ProperRun(db, ops)
    ensures NoOrphans(DbRun(db, ops))
    decreases |ops|
  {
    if ops != [] {
      StepHealthy(db, ops[0]);
      StepNoOrphans(db, ops[0]);
      RunNoOrphans(DbStep(db, ops[0]), ops[1..]);
    }
  }

  lemma NewIsEmpty(db: Db, c: Str)
    requires NoOrphans(db) && WellFormedName(c) && c !in db.families
    ensures ViewOf(CreateCollection(db, c).0.families, c) == View(true, map[], map[])
  {
    var t := CreateCollection(db, c).0.families;
    forall f
      ensures IndexCfName(c, f) !in t
    {
      NameParsesBackExactly(c, f);
      OwnedOnly(c, f);
    }
    assert DocsOf(t, c) == map[];
    ViewFromParts(t, c, View(true, map[], map[]));
  }

  /** Whatever happened before, also to a collection of the same name that was dropped, a collection
      that `createCollection` makes has no documents and no indexes. */
  lemma CreatedCollectionsAreEmpty(db: Db, ops: seq<DbOp>, c: Str)
    requires Healthy(db.families) && NoOrphans(db) && ProperRun(db, ops) && WellFormedName(c)
    ensures var (after, status) := CreateCollection(DbRun(db, ops), c);
            && status == (if c in DbRun(db, ops).families then InvalidArgument else OK)
            && (status == OK ==> ViewOf(after.families, c) == View(true, map[], map[]) && c in after.alive)
            && (status != OK ==> after == DbRun(db, ops))
  {
    RunNoOrphans(db, ops);
    if c !in DbRun(db, ops).families {
      NewIsEmpty(DbRun(db, ops), c);
    }
  }
}
