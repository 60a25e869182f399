/** What the operations do to the records of a collection, and how each of them ends, in terms of the
    stored documents and the indexed fields. */
module Records {
  import opened Bytes
  import opened Json
  import opened ValueKeys
  import opened StorageEngine
  import opened Naming
  import opened CollectionOps
  import opened History
  import opened Consistency

  /** The key of a record: the given id, or a generated one if that is empty. */
  function RecordKey(given: Str, generated: Str): Str {
    if |given| == 0 then generated else given
  }

  /** The data of a record: the given data, with the key as `_id` if it has none. */
  ghost predicate RecordData(given: Fields, key: Str, data: Fields) {
    && (forall f :: f in given ==> f in data && data[f] == given[f])
    && (forall f :: f in data && f !in given ==> f == ID_FIELD && data[f] == Text(key))
    && ID_FIELD in data
  }

  /** One record is stored, under its key and with that key as its id; no other changes. */
  ghost predicate OneRecordStored(before: map<Str, Doc>, after: map<Str, Doc>, key: Str, given: Fields) {
    && key in after && after[key].id == key && RecordData(given, key, after[key].data)
    && forall k :: k != key ==> (k in after <==> k in before) && (k in before && k in after ==> after[k] == before[k])
  }

  /** Every indexed field that the data has can be put into an index. */
  ghost predicate Keyable(data: Fields, fields: set<Str>) {
    forall f :: f in fields && f in data ==> HasKey(data[f])
  }

  lemma CleanExactly(doc: Doc, fields: set<Str>)
    ensures Clean(doc, fields) <==> Keyable(doc.data, fields)
  {
    forall f | f in fields && f in doc.data
      ensures Scalar(doc.data[f]) <==> HasKey(doc.data[f])
    {
      ParsesToKey(doc.data[f], []);
    }
  }

  /** The data of the record is unique, and an added `_id` can always be indexed. */
  lemma PreparedRecord(doc: Doc, freshId: Str, fields: set<Str>)
    ensures var d, key := Prepare(doc, freshId), RecordKey(doc.id, freshId);
            && d.id == key && RecordData(doc.data, key, d.data)
            && (Keyable(d.data, fields) <==> Keyable(doc.data, fields))
  {
  }

  lemma StoreOutcome(s: Families, c: Str, doc: Doc)
    requires Sound(s, c) && HASH !in doc.id
    ensures StoreStatus(s, c, doc) ==
            if !Keyable(doc.data, Indexed(s, c)) then Exception else if c in s then OK else NotFound
    ensures var after := DocsOf(ApplyAll(s, StoreWrites(s, c, doc)), c);
            after == if StoreStatus(s, c, doc) == OK then DocsOf(s, c)[doc.id := doc] else DocsOf(s, c)
  {
    StoreRefines(s, c, doc);
    ListedIndexes(s, c);
    ViewIndexes(s, c);
    CleanExactly(doc, Indexed(s, c));
  }

  /** A create ends with an exception exactly if an indexed field of the data is an object or an array,
      and is otherwise refused exactly if the collection has no family. If it reports success one
      record is stored, under the given id or a generated one, and otherwise none. */
  lemma CreateOutcome(s: Families, c: Str, doc: Doc, freshId: Str)
    requires Sound(s, c) && HASH !in doc.id && HASH !in freshId
    ensures var (t, status) := CreateDocument(s, c, doc, freshId);
            && status == (if !Keyable(doc.data, Indexed(s, c)) then Exception else if c in s then OK else NotFound)
            && (status == OK ==> OneRecordStored(DocsOf(s, c), DocsOf(t, c), RecordKey(doc.id, freshId), doc.data))
            && (status != OK ==> DocsOf(t, c) == DocsOf(s, c))
  {
    PreparedRecord(doc, freshId, Indexed(s, c));
    StoreOutcome(s, c, Prepare(doc, freshId));
  }

  /** The data an update starts from. */
  function StartData(docs: map<Str, Doc>, id: Str): Fields {
    if id in docs then docs[id].data else map[ID_FIELD := Text(id)]
  }

  lemma UpdateStarts(s: Families, c: Str, id: Str)
    requires Sound(s, c)
    ensures ReadStatus(s, c, id) == if id in DocsOf(s, c) then OK else NotFound
    ensures UpdateBase(s, c, id) == Doc(id, StartData(DocsOf(s, c), id))
  {
  }

  /** An update of a document that is not there is refused unless it may insert. Otherwise it ends with
      an exception if its change throws, and like a create of the changed data if not. If it reports
      success one record is stored, and otherwise none. */
  lemma UpdateOutcome(s: Families, c: Str, id: Str, change: Change, upsert: bool, freshId: Str)
    requires Sound(s, c) && HASH !in id && HASH !in freshId
    ensures var (t, status) := UpdateDocument(s, c, id, change, upsert, freshId);
            var changed := change(StartData(DocsOf(s, c), id));
            && status == (if id !in DocsOf(s, c) && !upsert then NotFound
                          else if changed.None? then Exception
                          else if !Keyable(changed.value, Indexed(s, c)) then Exception
                          else if c in s then OK else NotFound)
            && (status == OK ==> OneRecordStored(DocsOf(s, c), DocsOf(t, c), RecordKey(id, freshId), changed.value))
            && (status != OK ==> DocsOf(t, c) == DocsOf(s, c))
  {
    UpdateStarts(s, c, id);
    var changed := change(StartData(DocsOf(s, c), id));
    if UpdateProceeds(s, c, id, upsert) && changed.Some? {
      CreateOutcome(s, c, Doc(id, changed.value), freshId);
    }
  }

  /** A delete of a document that is there takes away exactly its record, unless an indexed field of it
      is an object or an array. */
  lemma DeleteOutcome(s: Families, c: Str, id: Str)
    requires Sound(s, c)
    ensures var (t, status) := DeleteDocument(s, c, id);
            && status == (if id !in DocsOf(s, c) then NotFound
                          else if Keyable(DocsOf(s, c)[id].data, Indexed(s, c)) then OK else Exception)
            && DocsOf(t, c) == if status == OK then DocsOf(s, c) - {id} else DocsOf(s, c)
  {
    UpdateStarts(s, c, id);
    DeleteRefines(s, c, id);
    ListedIndexes(s, c);
    ViewIndexes(s, c);
    if id in DocsOf(s, c) {
      CleanExactly(DocsOf(s, c)[id], Indexed(s, c));
    }
  }

  /** Building lists the field as indexed, also when it fails, which it does exactly if some document's
      value of the field is an object or an array. It touches no record. */
  lemma BuildOutcome(s: Families, c: Str, f: Str)
    requires Sound(s, c)
    ensures var (t, status) := CreateIndex(s, c, f);
            && DocsOf(t, c) == DocsOf(s, c) && Indexed(t, c) == Indexed(s, c) + {f}
            && (status == OK || status == Corruption)
            && (status == OK <==> forall i :: i in DocsOf(s, c) ==> Keyable(DocsOf(s, c)[i].data, {f}))
  {
    BuildRecords(s, c, f);
    BuildStatus(s, c, f);
  }

  lemma BuildRecords(s: Families, c: Str, f: Str)
    requires Sound(s, c)
    ensures var t := CreateIndex(s, c, f).0; DocsOf(t, c) == DocsOf(s, c) && Indexed(t, c) == Indexed(s, c) + {f}
  {
    var t := CreateIndex(s, c, f).0;
    BuildRefines(s, c, f);
    SameListing(s, t, c, ViewOf(s, c).index.Keys + {f});
  }

  lemma BuildStatus(s: Families, c: Str, f: Str)
    requires Sound(s, c)
    ensures var status := CreateIndex(s, c, f).1;
            && (status == OK || status == Corruption)
            && (status == OK <==> forall i :: i in DocsOf(s, c) ==> Keyable(DocsOf(s, c)[i].data, {f}))
  {
    BuildSucceedsExactly(s, c, f);
    ScalarExactly(ViewOf(s, c), f);
  }

  /** Dropping takes the field off the list, and is refused exactly if it was not there. */
  lemma DropOutcome(s: Families, c: Str, f: Str)
    requires Sound(s, c)
    ensures var (t, status) := DeleteIndex(s, c, f);
            && DocsOf(t, c) == DocsOf(s, c) && Indexed(t, c) == Indexed(s, c) - {f}
            && status == if f in Indexed(s, c) then OK else NotFound
  {
    var t := DeleteIndex(s, c, f).0;
    DropRefines(s, c, f);
    ListedIndexes(s, c);
    SameListing(s, t, c, ViewOf(s, c).index.Keys - {f});
  }

  lemma SameListing(s: Families, t: Families, c: Str, fields: set<Str>)
    requires WellFormedName(c) && ViewOf(t, c).index.Keys == fields
    ensures Indexed(t, c) == fields && ViewOf(s, c).index.Keys == Indexed(s, c)
  {
    ViewIndexes(s, c);
    ViewIndexes(t, c);
  }

  lemma ScalarExactly(v: View, f: Str)
    ensures FieldScalar(v, f) <==> forall i :: i in v.docs ==> Keyable(v.docs[i].data, {f})
  {
    forall i | i in v.docs
      ensures (f in v.docs[i].data ==> Scalar(v.docs[i].data[f])) <==> Keyable(v.docs[i].data, {f})
    {
      if f in v.docs[i].data {
        ParsesToKey(v.docs[i].data[f], []);
      }
    }
  }

  // ---------- which entries are written ----------

  /** The field has a value that is keyed by the bytes, and the index loop comes to it: in the order of
      the fields, every indexed one before it can be keyed. */
  ghost predicate ComesTo(data: Fields, fields: set<Str>, f: Str, bytes: Str) {
    && f in fields && f in data && KeyedBy(data[f], bytes)
    && forall g :: g in fields && g in data && !HasKey(data[g]) ==> Less(f, g)
  }

  lemma ComesToExactly(doc: Doc, fields: set<Str>, f: Str, bytes: Str)
    ensures ComesTo(doc.data, fields, f, bytes) <==>
              Reached(doc, fields, f) && EntryOf(doc, f) == (bytes, doc.id)
  {
    if f in fields && f in doc.data {
      ParsesToKey(doc.data[f], bytes);
      forall g | g in fields && g in doc.data
        ensures Scalar(doc.data[g]) <==> HasKey(doc.data[g])
      {
        ParsesToKey(doc.data[g], []);
      }
      if HasKey(doc.data[f]) {
        NoLaterFailure(doc.data, fields, f);
      }
    }
  }

  /** No failing field comes before `f` exactly if all failing fields come after it. */
  lemma NoLaterFailure(data: Fields, fields: set<Str>, f: Str)
    requires f in fields && f in data && HasKey(data[f])
    ensures (forall g :: g in fields && g in data && Less(g, f) ==> HasKey(data[g])) <==>
              forall g :: g in fields && g in data && !HasKey(data[g]) ==> Less(f, g)
  {
    forall g | g in fields && g in data && !HasKey(data[g])
      ensures Less(g, f) <==> !Less(f, g)
    {
      LessTotal(f, g);
      if Less(f, g) {
        LessAsymmetric(f, g);
      }
    }
  }

  lemma StoreEntriesView(v: View, d: Doc, f: Str, bytes: Str, id: Str)
    requires f in v.index
    ensures f in AStore(v, d).index
    ensures (bytes, id) in AStore(v, d).index[f] <==>
              (bytes, id) in v.index[f] || (id == d.id && ComesTo(d.data, v.index.Keys, f, bytes))
  {
    ComesToExactly(d, v.index.Keys, f, bytes);
  }

  lemma DeleteEntriesView(v: View, id: Str, f: Str, bytes: Str, other: Str)
    requires f in v.index && id in v.docs && v.docs[id].id == id
    ensures f in ADelete(v, id).index
    ensures (bytes, other) in ADelete(v, id).index[f] <==>
              (bytes, other) in v.index[f] && !(other == id && ComesTo(v.docs[id].data, v.index.Keys, f, bytes))
  {
    ComesToExactly(v.docs[id], v.index.Keys, f, bytes);
  }

  /** A create, finished or thrown, adds to each index the entry of the stored value if its loop comes
      to the field, and no other; it takes none away. */
  lemma EntriesCreated(s: Families, c: Str, doc: Doc, freshId: Str, f: Str, bytes: Str, id: Str)
    requires Sound(s, c) && HASH !in doc.id && HASH !in freshId && f in Indexed(s, c)
    ensures var v, w := ViewOf(s, c), ViewOf(CreateDocument(s, c, doc, freshId).0, c);
            var d := Prepare(doc, freshId);
            && f in v.index && f in w.index
            && ((bytes, id) in w.index[f] <==>
                  (bytes, id) in v.index[f] || (id == RecordKey(doc.id, freshId) && ComesTo(d.data, Indexed(s, c), f, bytes)))
  {
    var d := Prepare(doc, freshId);
    PreparedRecord(doc, freshId, {});
    StoreRefines(s, c, d);
    ViewIndexes(s, c);
    StoreEntriesView(ViewOf(s, c), d, f, bytes, id);
  }

  /** A delete, finished or thrown, takes away from each index the entry of the current value if its
      loop comes to the field, and no other. */
  lemma EntriesDeleted(s: Families, c: Str, id: Str, f: Str, bytes: Str, other: Str)
    requires Sound(s, c) && f in Indexed(s, c) && id in DocsOf(s, c)
    ensures var v, w := ViewOf(s, c), ViewOf(DeleteDocument(s, c, id).0, c);
            && f in v.index && f in w.index
            && ((bytes, other) in w.index[f] <==>
                  (bytes, other) in v.index[f] &&
                  !(other == id && ComesTo(DocsOf(s, c)[id].data, Indexed(s, c), f, bytes)))
  {
    UpdateStarts(s, c, id);
    DeleteRefines(s, c, id);
    ViewIndexes(s, c);
    DeleteEntriesView(ViewOf(s, c), id, f, bytes, other);
  }

  /** The document has a value keyed by the bytes, and the cursor loop comes to it: by id, every document
      before it can be indexed. */
  ghost predicate CursorComesTo(docs: map<Str, Doc>, f: Str, bytes: Str, id: Str) {
    && id in docs && f in docs[id].data && KeyedBy(docs[id].data[f], bytes)
    && forall j :: j in docs && !Keyable(docs[j].data, {f}) ==> Less(id, j)
  }

  /** Building, finished or failed, adds the entries of the documents that its loop comes to, and no
      others. */
  lemma EntriesBuilt(s: Families, c: Str, f: Str, bytes: Str, id: Str)
    requires Sound(s, c)
    ensures var v, w := ViewOf(s, c), ViewOf(CreateIndex(s, c, f).0, c);
            && f in w.index
            && ((bytes, id) in w.index[f] <==>
                  (f in v.index && (bytes, id) in v.index[f]) || CursorComesTo(v.docs, f, bytes, id))
  {
    BuildRefines(s, c, f);
    CursorComesToExactly(ViewOf(s, c), f, bytes, id) by {
      SoundKeyed(s, c);
    }
  }

  lemma CursorComesToExactly(v: View, f: Str, bytes: Str, id: Str)
    requires Keyed(v)
    ensures CursorComesTo(v.docs, f, bytes, id) <==> (bytes, id) in CurrentEntries(v.docs, f)
  {
    if id in v.docs && f in v.docs[id].data {
      ParsesToKey(v.docs[id].data[f], bytes);
      forall j | j in v.docs && f in v.docs[j].data
        ensures Scalar(v.docs[j].data[f]) <==> Keyable(v.docs[j].data, {f})
      {
        ParsesToKey(v.docs[j].data[f], []);
      }
      NoLaterDocument(v.docs, f, id);
    }
    if (bytes, id) in CurrentEntries(v.docs, f) {
      var i :| i in v.docs && BuildReaches(v.docs, f, i) && EntryOf(v.docs[i], f) == (bytes, id);
      assert i == id;
    }
  }

  lemma NoLaterDocument(docs: map<Str, Doc>, f: Str, id: Str)
    requires id in docs && f in docs[id].data
    ensures HasKey(docs[id].data[f]) ==>
              ((forall j :: j in docs && f in docs[j].data && Less(j, id) ==> Keyable(docs[j].data, {f})) <==>
                 forall j :: j in docs && !Keyable(docs[j].data, {f}) ==> Less(id, j))
  {
    if HasKey(docs[id].data[f]) {
      forall j | j in docs && !Keyable(docs[j].data, {f})
        ensures Less(j, id) <==> !Less(id, j)
      {
        LessTotal(id, j);
        if Less(id, j) {
          LessAsymmetric(id, j);
        }
      }
    }
  }

  /** Generated ids are not empty. */
  ghost predicate GeneratesIds(op: Op) {
    match op
    case Create(_, freshId) => freshId != []
    case Update(_, _, _, freshId) => freshId != []
    case _ => true
  }

  lemma StepNoEmptyId(s: Families, c: Str, op: Op)
    requires Sound(s, c) && HashFreeIds(op) && GeneratesIds(op) && [] !in DocsOf(s, c)
    ensures [] !in DocsOf(Step(s, c, op).0, c)
  {
    match op {
      case Create(doc, freshId) =>
        CreateOutcome(s, c, doc, freshId);
      case Delete(id) =>
        DeleteOutcome(s, c, id);
      case Update(id, change, upsert, freshId) =>
        UpdateOutcome(s, c, id, change, upsert, freshId);
      case BuildIndex(f) =>
        BuildOutcome(s, c, f);
      case DropIndex(f) =>
        DropOutcome(s, c, f);
    }
  }

  /** In no run is a record ever stored under the empty id, creates and updates with an empty id
      included. */
  lemma {:induction false} RunNoEmptyId(s: Families, c: Str, ops: seq<Op>)
    requires Sound(s, c) && [] !in DocsOf(s, c)
    requires forall i :: 0 <= i < |ops| ==> HashFreeIds(ops[i]) && GeneratesIds(ops[i])
    ensures [] !in DocsOf(Run(s, c, ops), c)
    decreases |ops|
  {
    if ops != [] {
      StepRefines(s, c, ops[0]);
      StepNoEmptyId(s, c, ops[0]);
      RunNoEmptyId(Step(s, c, ops[0]).0, c, ops[1..]);
    }
  }
}
