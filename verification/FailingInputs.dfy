/** Calls on which the code does not do what one would expect of it: from a collection with one
    index, a few documents are stored and deleted. */
module FailingInputs {
  import opened Bytes
  import opened Json
  import opened IndexKeys
  import opened Naming
  import opened CollectionOps
  import opened History
  import opened Consistency
  import opened Query

  /** A collection that is empty but for one index, also empty. */
  function OneIndex(c: Str, f: Str): Families {
    map[c := map[], IndexCfName(c, f) := map[]]
  }

  lemma OneIndexView(c: Str, f: Str)
    requires WellFormedName(c)
    ensures Sound(OneIndex(c, f), c) && ViewOf(OneIndex(c, f), c) == View(true, map[], map[f := {}])
  {
    var s := OneIndex(c, f);
    OwnedOnly(c, f);
    forall g
      ensures IndexCfName(c, g) in s <==> g == f
    {
      IndexCfNamesDistinct(c, g, c, f);
      OwnedOnly(c, g);
    }
    assert EntriesOf(s[IndexCfName(c, f)]) == {};
    ViewFromParts(s, c, View(true, map[], map[f := {}]));
  }

  /** The create of a document that has a value of the field. */
  function CreateOne(id: Str, f: Str, v: Json): Op {
    Create(Doc(id, map[f := v]), id)
  }

  function OneDoc(id: Str, f: Str, v: Json): (d: Doc)
    ensures id != [] ==> d.id == id && f in d.data && d.data[f] == v
  {
    Prepare(Doc(id, map[f := v]), id)
  }

  /** Storing one document adds one entry; what was there stays. */
  lemma StoreOne(v: View, f: Str, id: Str, x: Json)
    requires v.present && v.index.Keys == {f} && id != [] && Scalar(x)
    ensures var d := OneDoc(id, f, x);
            AStep(v, CreateOne(id, f, x)) == View(true, v.docs[id := d], map[f := v.index[f] + {(Encoded(x), id)}])
  {
    var d := OneDoc(id, f, x);
    assert Clean(d, {f}) && Reached(d, {f}, f) by {
      LessIrreflexive(f);
    }
    assert AStep(v, CreateOne(id, f, x)).index == map[f := v.index[f] + {(Encoded(x), id)}];
  }

  // ---------- `$and` finds a document it should not ----------

  function OneDocument(c: Str, f: Str, id: Str, y: Json): Families {
    Run(OneIndex(c, f), c, [CreateOne(id, f, y)])
  }

  lemma OneDocumentView(c: Str, f: Str, id: Str, y: Json)
    requires WellFormedName(c) && HASH !in id && id != [] && Scalar(y)
    ensures var s := OneDocument(c, f, id, y);
            && Sound(s, c)
            && ViewOf(s, c) == View(true, map[id := OneDoc(id, f, y)], map[f := {(Encoded(y), id)}])
  {
    var v := View(true, map[], map[f := {}]);
    OneIndexView(c, f);
    RunRefines(OneIndex(c, f), c, [CreateOne(id, f, y)]);
    ARunOne(v, CreateOne(id, f, y));
    StoreOne(v, f, id, y);
    assert {} + {(Encoded(y), id)} == {(Encoded(y), id)};
  }

  lemma OneEntryExact(v: View, f: Str, id: Str, y: Json)
    requires id != [] && Scalar(y) && v == View(true, map[id := OneDoc(id, f, y)], map[f := {(Encoded(y), id)}])
    ensures Exact(v)
  {
  }

  lemma OneClauseAnswers(s: Families, c: Str, f: Str, id: Str, y: Json, x: Json)
    requires Sound(s, c) && Exact(ViewOf(s, c)) && IndexCfName(c, f) in s
    requires id != [] && Comparable(y, x) && DocsOf(s, c) == map[id := OneDoc(id, f, y)]
    ensures EvalClause(s, c, Clause(Eq, f, x)).Found?
    ensures AnswerSet(s, c, Clause(Eq, f, x)) == if x == y then {id} else {}
  {
    var clause := Clause(Eq, f, x);
    assert Answerable(s, c, clause) by {
      EncodingOrder(y, x);
    }
    assert Homogeneous(ViewOf(s, c), clause);
    ClauseExact(s, c, clause);
    assert forall i :: i in DocsOf(s, c) <==> i == id;
  }

  lemma OneClause(c: Str, f: Str, id: Str, y: Json, x: Json)
    requires WellFormedName(c) && HASH !in id && id != [] && Comparable(y, x)
    ensures var s, clause := OneDocument(c, f, id, y), Clause(Eq, f, x);
            && DocsOf(s, c) == map[id := OneDoc(id, f, y)]
            && EvalClause(s, c, clause).Found? && AnswerSet(s, c, clause) == if x == y then {id} else {}
  {
    var s := OneDocument(c, f, id, y);
    EncodingOrder(y, x);
    OneDocumentView(c, f, id, y);
    OneEntryExact(ViewOf(s, c), f, id, y);
    assert IndexCfName(c, f) in s by {
      ViewIndexes(s, c);
    }
    OneClauseAnswers(s, c, f, id, y, x);
  }

  /** For any two comparable values: with one document that holds `y`, the filter that asks for `x` and
      for `y` finds it, although its value is not `x`. */
  lemma AndFindsWrongDocument(c: Str, f: Str, id: Str, x: Json, y: Json)
    requires WellFormedName(c) && HASH !in id && id != [] && x != y && Comparable(y, x) && Comparable(y, y)
    ensures var s, a, b := OneDocument(c, f, id, y), Clause(Eq, f, x), Clause(Eq, f, y);
            && AndFrom(s, c, {}, [a, b]) == Found({id})
            && id in DocsOf(s, c) && !SatisfiesEntry(DocsOf(s, c)[id], And([a, b]))
  {
    var s, a, b := OneDocument(c, f, id, y), Clause(Eq, f, x), Clause(Eq, f, y);
    OneClause(c, f, id, y, x);
    OneClause(c, f, id, y, y);
    NoIds(EvalClause(s, c, a).ids);
    AndForgetsEmptyClause(s, c, a, b);
    assert !Satisfies(DocsOf(s, c)[id], [a, b][0]);
  }

  lemma NoIds(ids: seq<Str>)
    ensures SetOf(ids) == {} ==> ids == []
  {
    if ids != [] {
      assert ids[0] in SetOf(ids);
    }
  }

  // ---------- a delete leaves an entry behind ----------

  /** For any two values with different encodings: a document is created, overwritten and deleted; it
      is gone, but the entry of its first value is still there. */
  lemma StaleEntryDangles(c: Str, f: Str, id: Str, x: Json, y: Json)
    requires WellFormedName(c) && HASH !in id && id != []
    requires Scalar(x) && Scalar(y) && ParseValue(x) != ParseValue(y)
    ensures var end := ViewOf(Run(OneIndex(c, f), c, [CreateOne(id, f, x), CreateOne(id, f, y), Delete(id)]), c);
            && id !in end.docs && f in end.index && (Encoded(x), id) in end.index[f] && !NoDangling(end)
  {
    var ops := [CreateOne(id, f, x), CreateOne(id, f, y), Delete(id)];
    OneIndexView(c, f);
    RunRefines(OneIndex(c, f), c, ops);
    StaleEntryStays(f, id, x, y);
  }

  lemma ARunThree(v: View, a: Op, b: Op, d: Op)
    ensures ARun(v, [a, b, d]) == AStep(AStep(AStep(v, a), b), d)
  {
    assert [a, b, d][1..] == [b, d] && [b, d][1..] == [d];
    ARunOne(AStep(AStep(v, a), b), d);
  }

  lemma StaleEntryStays(f: Str, id: Str, x: Json, y: Json)
    requires id != [] && Scalar(x) && Scalar(y) && ParseValue(x) != ParseValue(y)
    ensures var end := ARun(View(true, map[], map[f := {}]), [CreateOne(id, f, x), CreateOne(id, f, y), Delete(id)]);
            id !in end.docs && f in end.index && (Encoded(x), id) in end.index[f]
  {
    var a, b, v := CreateOne(id, f, x), CreateOne(id, f, y), View(true, map[], map[f := {}]);
    ARunThree(v, a, b, Delete(id));
    StoreOne(v, f, id, x);
    StoreOne(AStep(v, a), f, id, y);
    DeleteOne(AStep(AStep(v, a), b), f, id, x, y);
  }

  lemma DeleteOne(v: View, f: Str, id: Str, x: Json, y: Json)
    requires id != [] && Scalar(x) && Scalar(y) && Encoded(x) != Encoded(y)
    requires v.index.Keys == {f} && (Encoded(x), id) in v.index[f] && id in v.docs && v.docs[id] == OneDoc(id, f, y)
    ensures var w := ADelete(v, id);
            id !in w.docs && f in w.index && (Encoded(x), id) in w.index[f]
  {
    assert Clean(v.docs[id], {f});
  }
}
