/** What the indexes say about the documents: no entry is ever missing, when exactly an index is
    exact, and that building an index equals maintaining it. */
module Consistency {
  import opened Bytes
  import opened Json
  import opened StorageEngine
  import opened IndexKeys
  import opened Naming
  import opened CollectionOps
  import opened History

  /** Documents are stored under their own id. */
  ghost predicate Keyed(v: View) {
    && (forall i :: i in v.docs ==> v.docs[i].id == i)
    && (!v.present ==> v.docs == map[])
  }

  /** Every document that has an indexed field has its current entry in that index. */
  ghost predicate NoMissing(v: View) {
    forall f, i :: f in v.index && i in v.docs && f in v.docs[i].data ==>
                     Scalar(v.docs[i].data[f]) && EntryOf(v.docs[i], f) in v.index[f]
  }

  ghost predicate IsCurrent(docs: map<Str, Doc>, f: Str, e: Entry) {
    && e.1 in docs && f in docs[e.1].data && Scalar(docs[e.1].data[f])
    && e.0 == Encoded(docs[e.1].data[f])
  }

  /** The indexes hold the current entries and nothing else. */
  ghost predicate Exact(v: View) {
    NoMissing(v) && forall f, e :: f in v.index && e in v.index[f] ==> IsCurrent(v.docs, f, e)
  }

  /** No entry names a document that does not exist. */
  ghost predicate NoDangling(v: View) {
    forall f, e :: f in v.index && e in v.index[f] ==> e.1 in v.docs
  }

  ghost predicate FieldScalar(v: View, f: Str) {
    forall i :: i in v.docs && f in v.docs[i].data ==> Scalar(v.docs[i].data[f])
  }

  lemma SoundKeyed(s: Families, c: Str)
    requires Sound(s, c)
    ensures Keyed(ViewOf(s, c))
  {
  }

  /** Building an index succeeds exactly when every document's value of the field is a scalar. */
  lemma BuildSucceedsExactly(s: Families, c: Str, f: Str)
    requires Sound(s, c)
    ensures CreateIndex(s, c, f).1 == OK <==> FieldScalar(ViewOf(s, c), f)
  {
    if c in s {
      assert DocsOf(s, c).Keys == s[c].Keys;
      forall k | k in s[c]
        ensures Indexable(s[c][k], f) <==> (f in DocsOf(s, c)[k].data ==> Scalar(DocsOf(s, c)[k].data[f]))
      {
      }
    }
  }

  // ---------- no missing entries ----------

  lemma StoreNoMissing(v: View, doc: Doc)
    requires Keyed(v) && NoMissing(v)
    ensures NoMissing(AStore(v, doc)) && Keyed(AStore(v, doc))
  {
  }

  /** Deleting one document takes no entry of another, because ids differ. */
  lemma DeleteNoMissing(v: View, id: Str)
    requires Keyed(v) && NoMissing(v)
    ensures NoMissing(ADelete(v, id)) && Keyed(ADelete(v, id))
  {
  }

  lemma BuildNoMissing(v: View, f: Str)
    requires Keyed(v) && NoMissing(v)
    ensures NoMissing(ABuild(v, f)) <==> FieldScalar(v, f)
    ensures Keyed(ABuild(v, f))
  {
    var w := ABuild(v, f);
    if FieldScalar(v, f) {
      forall g, i | g in w.index && i in w.docs && g in w.docs[i].data
        ensures Scalar(w.docs[i].data[g]) && EntryOf(w.docs[i], g) in w.index[g]
      {
        assert g == f ==> BuildReaches(v.docs, f, i);
      }
    } else {
      var i :| i in v.docs && f in v.docs[i].data && !Scalar(v.docs[i].data[f]);
      assert f in w.index;
    }
  }

  lemma StepNoMissing(v: View, op: Op)
    requires Keyed(v) && NoMissing(v) && (op.BuildIndex? ==> FieldScalar(v, op.field))
    ensures NoMissing(AStep(v, op)) && Keyed(AStep(v, op))
  {
    match op {
      case Create(doc, freshId) =>
        StoreNoMissing(v, Prepare(doc, freshId));
      case Delete(id) =>
        DeleteNoMissing(v, id);
      case Update(id, change, upsert, freshId) =>
        var doc := if id in v.docs then v.docs[id] else Doc(id, map[ID_FIELD := Text(id)]);
        if (id in v.docs || upsert) && change(doc.data).Some? {
          StoreNoMissing(v, Prepare(Doc(doc.id, change(doc.data).value), freshId));
        }
      case BuildIndex(f) =>
        BuildNoMissing(v, f);
      case DropIndex(f) =>
    }
  }

  /** Every index build of the run reports success. */
  ghost predicate BuildsSucceed(s: Families, c: Str, ops: seq<Op>)
    decreases |ops|
  {
    ops == [] ||
    ((ops[0].BuildIndex? ==> Step(s, c, ops[0]).1 == OK) && BuildsSucceed(Step(s, c, ops[0]).0, c, ops[1..]))
  }

  /** In every run, with any mixture of creates, overwrites, updates, deletes and index builds and
      drops, and whether the operations succeed or throw, no stored document ever lacks an entry of
      an index; the one thing a caller must check is that index builds report success. */
  lemma {:induction false} RunNoMissing(s: Families, c: Str, ops: seq<Op>)
    requires Sound(s, c) && NoMissing(ViewOf(s, c)) && BuildsSucceed(s, c, ops)
    requires forall i :: 0 <= i < |ops| ==> HashFreeIds(ops[i])
    ensures Sound(Run(s, c, ops), c) && NoMissing(ViewOf(Run(s, c, ops), c))
    decreases |ops|
  {
    if ops != [] {
      var op := ops[0];
      StepRefines(s, c, op);
      SoundKeyed(s, c);
      if op.BuildIndex? {
        BuildSucceedsExactly(s, c, op.field);
      }
      StepNoMissing(ViewOf(s, c), op);
      RunNoMissing(Step(s, c, op).0, c, ops[1..]);
    }
  }

  /** That check is necessary: from a state with no missing entries, a build leaves none missing
      exactly when it reports success. */
  lemma BuildCompleteExactly(s: Families, c: Str, f: Str)
    requires Sound(s, c) && NoMissing(ViewOf(s, c))
    ensures NoMissing(ViewOf(CreateIndex(s, c, f).0, c)) <==> CreateIndex(s, c, f).1 == OK
  {
    SoundKeyed(s, c);
    BuildRefines(s, c, f);
    BuildNoMissing(ViewOf(s, c), f);
    BuildSucceedsExactly(s, c, f);
  }

  // ---------- exactness ----------

  /** The condition on a write: an overwritten document keeps the encoded value of each indexed
      field it had; if the document is not stored, because the write throws or the family has been
      dropped, the entries put must be current ones already. */
  ghost predicate KeepsIndexedValues(v: View, doc: Doc) {
    if v.present && Clean(doc, v.index.Keys) then
      doc.id in v.docs ==>
        forall f :: f in v.index && f in v.docs[doc.id].data ==>
                      f in doc.data && ParseValue(doc.data[f]) == ParseValue(v.docs[doc.id].data[f])
    else
      forall f :: Reached(doc, v.index.Keys, f) ==> IsCurrent(v.docs, f, EntryOf(doc, f))
  }

  lemma CleanReaches(doc: Doc, fs: set<Str>, f: Str)
    requires Clean(doc, fs) && f in fs && f in doc.data
    ensures Reached(doc, fs, f)
  {
  }

  lemma StoreKeepsExact(v: View, doc: Doc)
    requires Keyed(v) && Exact(v) && KeepsIndexedValues(v, doc)
    ensures Exact(AStore(v, doc))
  {
    var w := AStore(v, doc);
    StoreNoMissing(v, doc);
    forall f, e | f in w.index && e in w.index[f]
      ensures IsCurrent(w.docs, f, e)
    {
      if e in v.index[f] {
        assert IsCurrent(v.docs, f, e);
      } else {
        assert Reached(doc, v.index.Keys, f) && e == EntryOf(doc, f);
      }
    }
  }

  lemma ExactImpliesKept(v: View, doc: Doc)
    requires Keyed(v) && Exact(v) && Exact(AStore(v, doc))
    ensures KeepsIndexedValues(v, doc)
  {
    var w := AStore(v, doc);
    if v.present && Clean(doc, v.index.Keys) {
      if doc.id in v.docs {
        forall f | f in v.index && f in v.docs[doc.id].data
          ensures f in doc.data && ParseValue(doc.data[f]) == ParseValue(v.docs[doc.id].data[f])
        {
          var e := EntryOf(v.docs[doc.id], f);
          assert e in v.index[f] && e in w.index[f];
          assert IsCurrent(w.docs, f, e);
        }
      }
    } else {
      forall f | Reached(doc, v.index.Keys, f)
        ensures IsCurrent(v.docs, f, EntryOf(doc, f))
      {
        assert EntryOf(doc, f) in w.index[f];
      }
    }
  }

  /** A write to an exact collection leaves it exact if and only if it keeps the indexed values of
      the document that it replaces. */
  lemma StoreExactExactly(s: Families, c: Str, doc: Doc)
    requires Sound(s, c) && HASH !in doc.id && Exact(ViewOf(s, c))
    ensures Exact(ViewOf(ApplyAll(s, StoreWrites(s, c, doc)), c)) <==> KeepsIndexedValues(ViewOf(s, c), doc)
  {
    SoundKeyed(s, c);
    StoreRefines(s, c, doc);
    if KeepsIndexedValues(ViewOf(s, c), doc) {
      StoreKeepsExact(ViewOf(s, c), doc);
    }
    if Exact(AStore(ViewOf(s, c), doc)) {
      ExactImpliesKept(ViewOf(s, c), doc);
    }
  }

  /** A value-changing overwrite is the failing case: the entry of the old value stays behind. */
  lemma OverwriteLeavesStaleEntry(v: View, doc: Doc, f: Str)
    requires Keyed(v) && Exact(v) && Clean(doc, v.index.Keys)
    requires doc.id in v.docs && f in v.index && f in v.docs[doc.id].data
    requires f !in doc.data || ParseValue(doc.data[f]) != ParseValue(v.docs[doc.id].data[f])
    ensures EntryOf(v.docs[doc.id], f) in AStore(v, doc).index[f]
    ensures !IsCurrent(AStore(v, doc).docs, f, EntryOf(v.docs[doc.id], f))
  {
  }

  /** The other failing case: on an object whose family was dropped, a store that reports not found
      has put its entries all the same. */
  lemma StoreWithoutFamily(s: Families, c: Str, doc: Doc, f: Str)
    requires Sound(s, c) && c !in s && HASH !in doc.id && Clean(doc, Indexed(s, c))
    requires f in Indexed(s, c) && f in doc.data
    ensures StoreStatus(s, c, doc) == NotFound
    ensures var v := ViewOf(ApplyAll(s, StoreWrites(s, c, doc)), c);
            f in v.index && EntryOf(doc, f) in v.index[f] && doc.id !in v.docs
  {
    StoreRefines(s, c, doc);
    ListedIndexes(s, c);
    ViewIndexes(s, c);
    CleanReaches(doc, Indexed(s, c), f);
  }

  lemma DeleteKeepsExact(v: View, id: Str)
    requires Keyed(v) && Exact(v)
    ensures Exact(ADelete(v, id))
  {
    DeleteNoMissing(v, id);
    if id in v.docs {
      var w := ADelete(v, id);
      forall f, e | f in w.index && e in w.index[f]
        ensures IsCurrent(w.docs, f, e)
      {
        assert IsCurrent(v.docs, f, e);
        if e.1 == id {
          CleanReaches(v.docs[id], v.index.Keys, f);
        }
      }
    }
  }

  lemma BuildKeepsExact(v: View, f: Str)
    requires Keyed(v) && Exact(v) && FieldScalar(v, f)
    ensures Exact(ABuild(v, f))
  {
    BuildNoMissing(v, f);
  }

  /** The run never overwrites an indexed value with another, and its index builds succeed. */
  ghost predicate KeepsValues(s: Families, c: Str, ops: seq<Op>)
    decreases |ops|
  {
    ops == [] ||
    (&& (Stored(s, c, ops[0]).Some? ==> KeepsIndexedValues(ViewOf(s, c), Stored(s, c, ops[0]).value))
     && (ops[0].BuildIndex? ==> Step(s, c, ops[0]).1 == OK)
     && KeepsValues(Step(s, c, ops[0]).0, c, ops[1..]))
  }

  lemma StoreExact(s: Families, c: Str, doc: Doc)
    requires Sound(s, c) && Exact(ViewOf(s, c)) && HASH !in doc.id
    requires KeepsIndexedValues(ViewOf(s, c), doc)
    ensures var t := ApplyAll(s, StoreWrites(s, c, doc)); Exact(ViewOf(t, c))
  {
    SoundKeyed(s, c);
    StoreRefines(s, c, doc);
    StoreKeepsExact(ViewOf(s, c), doc);
  }

  lemma DeleteExact(s: Families, c: Str, id: Str)
    requires Sound(s, c) && Exact(ViewOf(s, c))
    ensures var t := DeleteDocument(s, c, id).0; Exact(ViewOf(t, c))
  {
    SoundKeyed(s, c);
    DeleteRefines(s, c, id);
    DeleteKeepsExact(ViewOf(s, c), id);
  }

  lemma BuildExact(s: Families, c: Str, f: Str)
    requires Sound(s, c) && Exact(ViewOf(s, c)) && CreateIndex(s, c, f).1 == OK
    ensures var t := CreateIndex(s, c, f).0; Exact(ViewOf(t, c))
  {
    SoundKeyed(s, c);
    BuildRefines(s, c, f);
    BuildSucceedsExactly(s, c, f);
    BuildKeepsExact(ViewOf(s, c), f);
  }

  lemma DropExact(s: Families, c: Str, f: Str)
    requires Sound(s, c) && Exact(ViewOf(s, c))
    ensures var t := DeleteIndex(s, c, f).0; Exact(ViewOf(t, c))
  {
    DropRefines(s, c, f);
  }

  lemma StepExact(s: Families, c: Str, op: Op)
    requires Sound(s, c) && Exact(ViewOf(s, c)) && HashFreeIds(op)
    requires Stored(s, c, op).Some? ==> KeepsIndexedValues(ViewOf(s, c), Stored(s, c, op).value)
    requires op.BuildIndex? ==> Step(s, c, op).1 == OK
    ensures Exact(ViewOf(Step(s, c, op).0, c))
  {
    match op {
      case Create(_, _) =>
        StoreExact(s, c, Stored(s, c, op).value);
      case Delete(id) =>
        DeleteExact(s, c, id);
      case Update(_, _, _, _) =>
        StoredStep(s, c, op);
        if Stored(s, c, op).Some? {
          StoreExact(s, c, Stored(s, c, op).value);
        }
      case BuildIndex(f) =>
        BuildExact(s, c, f);
      case DropIndex(f) =>
        DropExact(s, c, f);
    }
  }

  /** In every such run the indexes equal the current documents. */
  lemma {:induction false} RunExact(s: Families, c: Str, ops: seq<Op>)
    requires Sound(s, c) && Exact(ViewOf(s, c)) && KeepsValues(s, c, ops)
    requires forall i :: 0 <= i < |ops| ==> HashFreeIds(ops[i])
    ensures Sound(Run(s, c, ops), c) && Exact(ViewOf(Run(s, c, ops), c))
    decreases |ops|
  {
    if ops != [] {
      StepRefines(s, c, ops[0]);
      StepExact(s, c, ops[0]);
      RunExact(Step(s, c, ops[0]).0, c, ops[1..]);
    }
  }

  // ---------- building equals maintaining ----------

  lemma RebuildView(v: View, f: Str)
    requires NoMissing(v) && f in v.index
    ensures ABuild(v, f) == v
  {
    forall e | e in CurrentEntries(v.docs, f)
      ensures e in v.index[f]
    {
      var i :| i in v.docs && BuildReaches(v.docs, f, i) && e == EntryOf(v.docs[i], f);
    }
    assert v.index[f] + CurrentEntries(v.docs, f) == v.index[f];
    assert ABuild(v, f).index == v.index;
  }

  /** Building an index that already exists changes nothing, in every state with no missing entry. */
  lemma RebuildIsNoOp(s: Families, c: Str, f: Str)
    requires Sound(s, c) && NoMissing(ViewOf(s, c)) && IndexCfName(c, f) in s
    ensures CreateIndex(s, c, f).0 == s
  {
    BuildRefines(s, c, f);
    RebuildView(ViewOf(s, c), f) by {
      ViewIndexes(s, c);
    }
    ViewDetermines(CreateIndex(s, c, f).0, s, c);
  }

  lemma RebuildViewExactly(v: View, f: Str)
    requires f in v.index
    ensures ABuild(v, f) == v <==> CurrentEntries(v.docs, f) <= v.index[f]
  {
    var current := CurrentEntries(v.docs, f);
    if current <= v.index[f] {
      assert v.index[f] + current == v.index[f];
      assert ABuild(v, f).index == v.index;
    }
    if ABuild(v, f) == v {
      assert v.index[f] + current == v.index[f];
    }
  }

  /** In any state, building an index that exists changes nothing exactly when it holds the entries that
      the build writes. */
  lemma RebuildIsNoOpExactly(s: Families, c: Str, f: Str)
    requires Sound(s, c) && IndexCfName(c, f) in s
    ensures f in ViewOf(s, c).index
    ensures CreateIndex(s, c, f).0 == s <==> CurrentEntries(ViewOf(s, c).docs, f) <= ViewOf(s, c).index[f]
  {
    BuildRefines(s, c, f);
    ViewIndexes(s, c);
    RebuildViewExactly(ViewOf(s, c), f);
    if CurrentEntries(ViewOf(s, c).docs, f) <= ViewOf(s, c).index[f] {
      ViewDetermines(CreateIndex(s, c, f).0, s, c);
    }
  }

  lemma BuildAnewView(v: View, f: Str)
    requires Keyed(v) && FieldScalar(v, f)
    ensures var w := ABuild(ADrop(v, f), f);
            && w.docs == v.docs && f in w.index && w.index == v.index[f := w.index[f]]
            && forall e :: e in w.index[f] <==> IsCurrent(v.docs, f, e)
  {
    var w := ABuild(ADrop(v, f), f);
    assert w.index[f] == CurrentEntries(v.docs, f);
    forall e
      ensures e in CurrentEntries(v.docs, f) <==> IsCurrent(v.docs, f, e)
    {
      assert IsCurrent(v.docs, f, e) ==> BuildReaches(v.docs, f, e.1);
    }
  }

  /** Dropping and rebuilding an index makes it exact, from any state, and leaves the others alone. */
  lemma DropThenBuildRestores(s: Families, c: Str, f: Str)
    requires Sound(s, c) && FieldScalar(ViewOf(s, c), f)
    ensures var v, w := ViewOf(s, c), ViewOf(CreateIndex(DeleteIndex(s, c, f).0, c, f).0, c);
            && w.docs == v.docs && f in w.index && w.index == v.index[f := w.index[f]]
            && forall e :: e in w.index[f] <==> IsCurrent(v.docs, f, e)
  {
    DropRefines(s, c, f);
    BuildRefines(DeleteIndex(s, c, f).0, c, f);
    SoundKeyed(s, c);
    BuildAnewView(ViewOf(s, c), f);
  }

  /** The document that a create stores, with its given or generated id. */
  function Prepared(op: Op): Doc
    requires op.Create?
  {
    Prepare(op.doc, op.freshId)
  }

  /** The creates of documents with distinct ids that are not taken yet. */
  ghost predicate FreshCreates(docs: map<Str, Doc>, ops: seq<Op>, fs: set<Str>) {
    && (forall i :: 0 <= i < |ops| ==>
          && ops[i].Create? && HashFreeIds(ops[i])
          && Prepared(ops[i]).id !in docs && Clean(Prepared(ops[i]), fs))
    && (forall i, j :: 0 <= i < j < |ops| ==> Prepared(ops[i]).id != Prepared(ops[j]).id)
  }

  ghost function Inserted(docs: map<Str, Doc>, ops: seq<Op>): map<Str, Doc>
    requires forall i :: 0 <= i < |ops| ==> ops[i].Create?
    decreases |ops|
  {
    if ops == [] then docs
    else
      var d := Prepare(ops[0].doc, ops[0].freshId);
      Inserted(docs[d.id := d], ops[1..])
  }

  ghost function FieldEntries(doc: Doc, f: Str): set<Entry> {
    if f in doc.data && Scalar(doc.data[f]) then {EntryOf(doc, f)} else {}
  }

  /** The entries that creates put into the index of a field. */
  ghost function Added(ops: seq<Op>, f: Str): set<Entry>
    requires forall i :: 0 <= i < |ops| ==> ops[i].Create?
    decreases |ops|
  {
    if ops == [] then {} else FieldEntries(Prepare(ops[0].doc, ops[0].freshId), f) + Added(ops[1..], f)
  }

  /** Fresh creates add the same entries to the indexes of any state, and their documents. */
  lemma {:induction false} FreshCreatesAdd(v: View, ops: seq<Op>, f: Str)
    requires v.present && FreshCreates(v.docs, ops, v.index.Keys)
    ensures var w := ARun(v, ops);
            && w.present && w.docs == Inserted(v.docs, ops) && w.index.Keys == v.index.Keys
            && (f in v.index ==> w.index[f] == v.index[f] + Added(ops, f))
    decreases |ops|
  {
    if ops != [] {
      var d := Prepare(ops[0].doc, ops[0].freshId);
      FreshCreatesAdd(AStep(v, ops[0]), ops[1..], f);
    }
  }

  ghost predicate ScalarIn(docs: map<Str, Doc>, f: Str) {
    forall i :: i in docs && f in docs[i].data ==> Scalar(docs[i].data[f])
  }

  /** With scalar values only, the current entries are those of all documents. */
  lemma CurrentWithOneMore(docs: map<Str, Doc>, d: Doc, f: Str)
    requires ScalarIn(docs, f) && d.id !in docs && (f in d.data ==> Scalar(d.data[f]))
    ensures CurrentEntries(docs[d.id := d], f) == CurrentEntries(docs, f) + FieldEntries(d, f)
  {
    var more := docs[d.id := d];
    forall i | i in more && f in more[i].data
      ensures BuildReaches(more, f, i) && (i in docs ==> BuildReaches(docs, f, i))
    {
    }
    forall e
      ensures e in CurrentEntries(more, f) <==> e in CurrentEntries(docs, f) + FieldEntries(d, f)
    {
      if e in CurrentEntries(more, f) {
        var i :| i in more && BuildReaches(more, f, i) && e == EntryOf(more[i], f);
        assert i != d.id ==> BuildReaches(docs, f, i);
      }
      if e in CurrentEntries(docs, f) {
        var i :| i in docs && BuildReaches(docs, f, i) && e == EntryOf(docs[i], f);
        assert BuildReaches(more, f, i) && more[i] == docs[i];
      }
      if e in FieldEntries(d, f) {
        assert BuildReaches(more, f, d.id);
      }
    }
  }

  lemma {:induction false} InsertedEntries(docs: map<Str, Doc>, ops: seq<Op>, fs: set<Str>, f: Str)
    requires f in fs && FreshCreates(docs, ops, fs) && ScalarIn(docs, f)
    ensures CurrentEntries(Inserted(docs, ops), f) == CurrentEntries(docs, f) + Added(ops, f)
    decreases |ops|
  {
    if ops != [] {
      var d := Prepare(ops[0].doc, ops[0].freshId);
      CurrentWithOneMore(docs, d, f);
      InsertedEntries(docs[d.id := d], ops[1..], fs, f);
    }
  }

  lemma {:induction false} ARunConcat(v: View, a: seq<Op>, b: seq<Op>)
    ensures ARun(v, a + b) == ARun(ARun(v, a), b)
    decreases |a|
  {
    if a == [] {
      assert a + b == b;
    } else {
      assert (a + b)[1..] == a[1..] + b;
      ARunConcat(AStep(v, a[0]), a[1..], b);
    }
  }

  lemma ARunOne(v: View, op: Op)
    ensures ARun(v, [op]) == AStep(v, op)
  {
    assert [op][1..] == [];
  }

  /** What the index of a field holds once one is built and the creates are done, in either order. */
  ghost function BuiltAndAdded(v: View, f: Str, ops: seq<Op>, g: Str): set<Entry>
    requires forall i :: 0 <= i < |ops| ==> ops[i].Create?
  {
    (if g in v.index then v.index[g] else {}) + (if g == f then CurrentEntries(v.docs, f) else {}) + Added(ops, g)
  }

  ghost predicate IsBuiltAndAdded(v: View, f: Str, ops: seq<Op>, g: Str, w: View)
    requires forall i :: 0 <= i < |ops| ==> ops[i].Create?
  {
    && w.present && w.docs == Inserted(v.docs, ops) && w.index.Keys == v.index.Keys + {f}
    && (g in w.index ==> w.index[g] == BuiltAndAdded(v, f, ops, g))
  }

  lemma BuildThenCreate(v: View, f: Str, ops: seq<Op>, g: Str)
    requires v.present && FreshCreates(v.docs, ops, v.index.Keys + {f})
    ensures IsBuiltAndAdded(v, f, ops, g, ARun(ABuild(v, f), ops))
  {
    assert ABuild(v, f).index.Keys == v.index.Keys + {f};
    FreshCreatesAdd(ABuild(v, f), ops, g);
  }

  lemma CreateThenBuild(v: View, f: Str, ops: seq<Op>, g: Str)
    requires v.present && ScalarIn(v.docs, f) && FreshCreates(v.docs, ops, v.index.Keys + {f})
    ensures IsBuiltAndAdded(v, f, ops, g, ABuild(ARun(v, ops), f))
  {
    assert FreshCreates(v.docs, ops, v.index.Keys);
    FreshCreatesAdd(v, ops, g);
    InsertedEntries(v.docs, ops, v.index.Keys + {f}, f);
    assert ABuild(ARun(v, ops), f).index.Keys == v.index.Keys + {f};
  }

  lemma BuildEqualsMaintainView(v: View, f: Str, ops: seq<Op>)
    requires v.present && ScalarIn(v.docs, f) && FreshCreates(v.docs, ops, v.index.Keys + {f})
    ensures ARun(ABuild(v, f), ops) == ABuild(ARun(v, ops), f)
  {
    var a, b := ARun(ABuild(v, f), ops), ABuild(ARun(v, ops), f);
    BuildThenCreate(v, f, ops, f);
    CreateThenBuild(v, f, ops, f);
    forall g | g in a.index
      ensures a.index[g] == b.index[g]
    {
      BuildThenCreate(v, f, ops, g);
      CreateThenBuild(v, f, ops, g);
    }
  }

  /** Runs that end in the same view from the same state end in the same state. */
  lemma SameViewSameState(s: Families, c: Str, a: seq<Op>, b: seq<Op>)
    requires Sound(s, c) && ARun(ViewOf(s, c), a) == ARun(ViewOf(s, c), b)
    requires forall i :: 0 <= i < |a| ==> HashFreeIds(a[i])
    requires forall i :: 0 <= i < |b| ==> HashFreeIds(b[i])
    ensures Run(s, c, a) == Run(s, c, b)
  {
    RunRefines(s, c, a);
    RunRefines(s, c, b);
    ViewDetermines(Run(s, c, a), Run(s, c, b), c);
  }

  /** Creating an index before or after inserting documents gives the same stored state, whatever the
      indexes held before. */
  lemma BuildEqualsMaintain(s: Families, c: Str, f: Str, ops: seq<Op>)
    requires Sound(s, c) && c in s && FieldScalar(ViewOf(s, c), f)
    requires FreshCreates(DocsOf(s, c), ops, Indexed(s, c) + {f})
    ensures Run(s, c, [BuildIndex(f)] + ops) == Run(s, c, ops + [BuildIndex(f)])
  {
    var v, build := ViewOf(s, c), [BuildIndex(f)];
    ARunConcat(v, build, ops);
    ARunOne(v, BuildIndex(f));
    ARunConcat(v, ops, build);
    ARunOne(ARun(v, ops), BuildIndex(f));
    BuildEqualsMaintainView(v, f, ops) by {
      ViewIndexes(s, c);
    }
    SameViewSameState(s, c, build + ops, ops + build);
  }
}
