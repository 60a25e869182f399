/** Exporting a collection to a JSON array and importing such an array. */
module ExportImport {
  import opened Bytes
  import opened Json
  import opened StorageEngine
  import opened CollectionOps
  import opened History
  import Collections = Collection
  import Documents = Document

  /** `doc_`, the start of the id given to an item that has none. */
  const DOC_PREFIX: Str := [100, 111, 99, 95]

  function Decimal(n: nat): Str {
    if n < 10 then [(48 + n) as byte] else Decimal(n / 10) + [(48 + n % 10) as byte]
  }

  // ---------- export ----------

  function ExportOf(fam: Family, ks: seq<Str>): seq<Json> {
    if ks == [] then []
    else if ks[0] in fam && fam[ks[0]].Packed? then [Object(fam[ks[0]].doc.data)] + ExportOf(fam, ks[1..])
    else []
  }

  /** The export loop writes the data of every record, in id order. */
  method ExportRecords(engine: StorageEngine, collection: Str) returns (status: Status, items: seq<Json>)
    requires collection in engine.families ==>
               forall k :: k in engine.families[collection] ==> engine.families[collection][k].Packed?
    ensures collection !in engine.families ==> status == NotFound && items == []
    ensures collection in engine.families ==>
              && status == OK
              && items == ExportOf(engine.families[collection], Sorted(engine.families[collection].Keys))
  {
    items := [];
    if collection !in engine.families {
      return NotFound, [];
    }
    var fam := engine.families[collection];
    var it := new Iterator(fam);
    it.SeekToFirst();
    ghost var rest := it.keys;
    ghost var target := ExportOf(fam, rest);
    assert it.keys[0..] == it.keys;
    while it.Valid()
      invariant it.Inv() && 0 <= it.pos && rest == it.keys[it.pos..]
      invariant items + ExportOf(fam, rest) == target
      decreases |it.keys| - it.pos
    {
      assert rest[0] == it.Key() && rest[1..] == it.keys[it.pos + 1..];
      items := items + [Object(it.Value().doc.data)];
      it.Next();
      rest := rest[1..];
    }
    assert items + [] == items;
    status := OK;
  }

  // ---------- import ----------

  /** The id an imported object gets; `None` where a non-string `_id` throws. */
  function ImportId(data: Fields, seen: nat): Option<Str> {
    if ID_FIELD !in data then Some(DOC_PREFIX + Decimal(seen))
    else if data[ID_FIELD].Text? then Some(data[ID_FIELD].chars)
    else None
  }

  /** Items that are not objects are skipped, documents that cannot be stored are counted as failed,
      and an exception is caught and ends the import with what was stored so far. `idAt` gives the
      id that is generated for an item whose `_id` is empty. */
  function ImportFrom(s: Families, c: Str, items: seq<Json>, seen: nat, idAt: nat -> Str): (Families, Status)
    decreases |items|
  {
    if items == [] then (s, OK)
    else if !items[0].Object? then ImportFrom(s, c, items[1..], seen + 1, idAt)
    else match ImportId(items[0].fields, seen)
      case None => (s, InternalError)
      case Some(id) =>
        var (t, status) := CreateDocument(s, c, Doc(id, items[0].fields), idAt(seen));
        if status == Exception then (t, InternalError)
        else ImportFrom(t, c, items[1..], seen + 1, idAt)
  }

  method ImportItems(collection: Collections.Collection, items: seq<Json>, idAt: nat -> Str) returns (status: Status)
    modifies collection.engine
    ensures (collection.engine.families, status) ==
            ImportFrom(old(collection.engine.families), collection.name, items, 0, idAt)
  {
    var engine := collection.engine;
    ghost var target := ImportFrom(engine.families, collection.name, items, 0, idAt);
    var successes, failures, rest := 0, 0, items;
    while rest != []
      invariant 0 <= successes && 0 <= failures
      invariant ImportFrom(engine.families, collection.name, rest, successes + failures, idAt) == target
      decreases |rest|
    {
      if !rest[0].Object? {
        failures := failures + 1;
      } else {
        var id := ImportId(rest[0].fields, successes + failures);
        if id.None? {
          return InternalError;
        }
        var doc := new Documents.Document(id.value, rest[0].fields);
        var created := collection.CreateDocument(doc, idAt(successes + failures));
        if created == Exception {
          return InternalError;
        }
        if created == OK {
          successes := successes + 1;
        } else {
          failures := failures + 1;
        }
      }
      rest := rest[1..];
    }
    status := OK;
  }

  // ---------- ids agree in every run ----------

  /** Every record's key is its id and the `_id` of its data. */
  ghost predicate IdsAgree(docs: map<Str, Doc>) {
    forall i :: i in docs ==>
      i != [] && docs[i].id == i && ID_FIELD in docs[i].data && docs[i].data[ID_FIELD] == Text(i)
  }

  /** The document a step stores names itself as it is stored. */
  ghost predicate NamesItself(doc: Doc) {
    doc.id != [] && ID_FIELD in doc.data && doc.data[ID_FIELD] == Text(doc.id)
  }

  /** Data that says what its id is. */
  predicate SaysId(data: Fields, id: Str) {
    ID_FIELD in data && data[ID_FIELD] == Text(id)
  }

  /** The caller neither supplies a differing `_id` nor updates it to one; dropping it is harmless,
      because storing fills it in again. */
  ghost predicate KeepsId(op: Op) {
    match op
    case Create(doc, freshId) => NamesItself(Prepare(doc, freshId))
    case Update(id, change, _, _) =>
      id != [] &&
      forall data :: SaysId(data, id) && change(data).Some? && ID_FIELD in change(data).value ==>
                       SaysId(change(data).value, id)
    case _ => true
  }

  lemma StoreIdsAgree(v: View, doc: Doc)
    requires IdsAgree(v.docs) && NamesItself(doc)
    ensures IdsAgree(AStore(v, doc).docs)
  {
  }

  lemma StepIdsAgree(v: View, op: Op)
    requires IdsAgree(v.docs) && KeepsId(op)
    ensures IdsAgree(AStep(v, op).docs)
  {
    match op {
      case Create(doc, freshId) =>
        StoreIdsAgree(v, Prepare(doc, freshId));
      case Update(id, change, upsert, freshId) =>
        var doc := if id in v.docs then v.docs[id] else Doc(id, map[ID_FIELD := Text(id)]);
        assert SaysId(doc.data, id);
        if (id in v.docs || upsert) && change(doc.data).Some? {
          StoreIdsAgree(v, Prepare(Doc(doc.id, change(doc.data).value), freshId));
        }
      case _ =>
    }
  }

  ghost predicate KeepsIds(ops: seq<Op>) {
    forall k :: 0 <= k < |ops| ==> HashFreeIds(ops[k]) && KeepsId(ops[k])
  }

  /** In every such run the records name themselves. */
  lemma {:induction false} RunIdsAgree(s: Families, c: Str, ops: seq<Op>)
    requires Sound(s, c) && IdsAgree(DocsOf(s, c)) && KeepsIds(ops)
    ensures Sound(Run(s, c, ops), c) && IdsAgree(DocsOf(Run(s, c, ops), c))
    decreases |ops|
  {
    if ops != [] {
      StepRefines(s, c, ops[0]);
      StepIdsAgree(ViewOf(s, c), ops[0]);
      assert IdsAgree(ViewOf(Step(s, c, ops[0]).0, c).docs);
      RunIdsAgree(Step(s, c, ops[0]).0, c, ops[1..]);
    }
  }

  // ---------- the round trip ----------

  /** The target collection takes in the records under the keys, as they are. */
  lemma {:induction false} ImportAdds(t: Families, d: Str, fam: Family, ks: seq<Str>, seen: nat, idAt: nat -> Str)
    requires Sound(t, d) && d in t && SoundDocs(fam)
    requires forall k :: k in ks ==> k in fam && NamesItself(fam[k].doc) && Clean(fam[k].doc, Indexed(t, d))
    ensures var (u, status) := ImportFrom(t, d, ExportOf(fam, ks), seen, idAt);
            && status == OK && Sound(u, d)
            && (forall i :: i in DocsOf(u, d) <==> i in DocsOf(t, d) || i in ks)
            && (forall i :: i in DocsOf(u, d) ==> DocsOf(u, d)[i] == if i in ks then fam[i].doc else DocsOf(t, d)[i])
    decreases |ks|
  {
    if ks != [] {
      var k, items := ks[0], ExportOf(fam, ks);
      assert k in ks;
      var doc := fam[k].doc;
      assert items == [Object(doc.data)] + ExportOf(fam, ks[1..]);
      assert items[1..] == ExportOf(fam, ks[1..]);
      assert ImportId(doc.data, seen) == Some(k) && Prepare(doc, idAt(seen)) == doc;
      var t1 := ApplyAll(t, StoreWrites(t, d, doc));
      StoreKeepsListing(t, d, doc);
      ImportAdds(t1, d, fam, ks[1..], seen + 1, idAt);
      assert ImportFrom(t, d, items, seen, idAt) == ImportFrom(t1, d, items[1..], seen + 1, idAt);
      assert forall i :: i in ks <==> i == k || i in ks[1..];
    }
  }

  lemma StoreKeepsListing(t: Families, d: Str, doc: Doc)
    requires Sound(t, d) && d in t && HASH !in doc.id && Clean(doc, Indexed(t, d))
    ensures var u := ApplyAll(t, StoreWrites(t, d, doc));
            && Sound(u, d) && d in u && Indexed(u, d) == Indexed(t, d)
            && DocsOf(u, d) == DocsOf(t, d)[doc.id := doc]
            && StoreStatus(t, d, doc) == OK
  {
    var u := ApplyAll(t, StoreWrites(t, d, doc));
    StoreRefines(t, d, doc);
    ViewIndexes(t, d);
    ViewIndexes(u, d);
    ListedIndexes(t, d);
    assert ViewOf(u, d).present;
  }

  lemma RecordsImportable(s: Families, c: Str, fs: set<Str>, k: Str)
    requires Sound(s, c) && c in s && IdsAgree(DocsOf(s, c)) && k in s[c]
    requires forall i :: i in DocsOf(s, c) ==> Clean(DocsOf(s, c)[i], fs)
    ensures NamesItself(s[c][k].doc) && Clean(s[c][k].doc, fs)
  {
    assert k in DocsOf(s, c) && DocsOf(s, c)[k] == s[c][k].doc;
  }

  lemma SameRecords(a: map<Str, Doc>, s: Families, c: Str, ks: seq<Str>)
    requires Sound(s, c) && c in s && forall k :: k in ks <==> k in s[c]
    requires forall i :: i in a <==> i in ks
    requires forall i :: i in a && i in s[c] ==> a[i] == s[c][i].doc
    ensures a == DocsOf(s, c)
  {
  }

  /** Importing an export into an empty collection reproduces the same documents under the same
      ids, whenever ids agree and the target can index what it is given. */
  lemma ExportThenImport(s: Families, c: Str, t: Families, d: Str, idAt: nat -> Str)
    requires Sound(s, c) && c in s && IdsAgree(DocsOf(s, c))
    requires Sound(t, d) && d in t && t[d] == map[]
    requires forall i :: i in DocsOf(s, c) ==> Clean(DocsOf(s, c)[i], Indexed(t, d))
    ensures var (u, status) := ImportFrom(t, d, ExportOf(s[c], Sorted(s[c].Keys)), 0, idAt);
            status == OK && DocsOf(u, d) == DocsOf(s, c)
  {
    var ks := Sorted(s[c].Keys);
    SortedEnumerates(s[c].Keys);
    forall k | k in ks
      ensures k in s[c] && NamesItself(s[c][k].doc) && Clean(s[c][k].doc, Indexed(t, d))
    {
      RecordsImportable(s, c, Indexed(t, d), k);
    }
    ImportAdds(t, d, s[c], ks, 0, idAt);
    SameRecords(DocsOf(ImportFrom(t, d, ExportOf(s[c], ks), 0, idAt).0, d), s, c, ks);
  }

  // ---------- items without an id ----------

  lemma {:induction false} DecimalHasNoHash(n: nat)
    ensures HASH !in Decimal(n) && Decimal(n) != []
    decreases n
  {
    if n >= 10 {
      DecimalHasNoHash(n / 10);
    }
  }

  lemma {:induction false} DecimalInjective(m: nat, n: nat)
    requires Decimal(m) == Decimal(n)
    ensures m == n
    decreases m
  {
    DecimalLast(m);
    DecimalLast(n);
    if m >= 10 && n >= 10 {
      DecimalInjective(m / 10, n / 10);
    } else if m >= 10 {
      DecimalHasNoHash(m / 10);
    } else if n >= 10 {
      DecimalHasNoHash(n / 10);
    }
  }

  lemma DecimalLast(n: nat)
    ensures var s := Decimal(n);
            && s != [] && s[|s| - 1] as int == 48 + n % 10 && (n >= 10 ==> s[..|s| - 1] == Decimal(n / 10))
  {
  }

  /** The id and the record that an item without an `_id` gets at a position of the array. */
  function PositionId(n: nat): Str {
    DOC_PREFIX + Decimal(n)
  }

  function Numbered(fields: Fields, n: nat): Doc {
    Doc(PositionId(n), fields[ID_FIELD := Text(PositionId(n))])
  }

  lemma PositionIds(m: nat, n: nat)
    ensures HASH !in PositionId(n) && PositionId(n) != []
    ensures PositionId(m) == PositionId(n) <==> m == n
  {
    DecimalHasNoHash(n);
    if PositionId(m) == PositionId(n) {
      assert PositionId(m)[4..] == Decimal(m) && PositionId(n)[4..] == Decimal(n);
      DecimalInjective(m, n);
    }
  }

  ghost predicate Unnamed(item: Json, fs: set<Str>) {
    item.Object? && ID_FIELD !in item.fields && forall f :: f in fs && f in item.fields ==> Scalar(item.fields[f])
  }

  lemma UnnamedStored(t: Families, d: Str, item: Json, seen: nat, idAt: nat -> Str)
    requires Sound(t, d) && d in t && Unnamed(item, Indexed(t, d))
    ensures var (u, status) := CreateDocument(t, d, Doc(PositionId(seen), item.fields), idAt(seen));
            && status == OK && Sound(u, d) && d in u && Indexed(u, d) == Indexed(t, d)
            && DocsOf(u, d) == DocsOf(t, d)[PositionId(seen) := Numbered(item.fields, seen)]
  {
    PositionIds(seen, seen);
    assert Prepare(Doc(PositionId(seen), item.fields), idAt(seen)) == Numbered(item.fields, seen);
    assert Clean(Numbered(item.fields, seen), Indexed(t, d));
    StoreKeepsListing(t, d, Numbered(item.fields, seen));
  }

  /** The documents after records for the items have been added one after another. */
  ghost function WithNumbered(docs: map<Str, Doc>, items: seq<Json>, seen: nat): map<Str, Doc>
    requires forall i :: 0 <= i < |items| ==> items[i].Object?
    decreases |items|
  {
    if items == [] then docs
    else WithNumbered(docs[PositionId(seen) := Numbered(items[0].fields, seen)], items[1..], seen + 1)
  }

  lemma {:induction false} ImportNumbers(t: Families, d: Str, items: seq<Json>, seen: nat, idAt: nat -> Str)
    requires Sound(t, d) && d in t && forall i :: 0 <= i < |items| ==> items[i].Object? && Unnamed(items[i], Indexed(t, d))
    ensures var (u, status) := ImportFrom(t, d, items, seen, idAt);
            status == OK && DocsOf(u, d) == WithNumbered(DocsOf(t, d), items, seen)
    decreases |items|
  {
    if items != [] {
      var t1 := CreateDocument(t, d, Doc(PositionId(seen), items[0].fields), idAt(seen)).0;
      assert Unnamed(items[0], Indexed(t, d));
      UnnamedStored(t, d, items[0], seen, idAt);
      assert ImportFrom(t, d, items, seen, idAt) == ImportFrom(t1, d, items[1..], seen + 1, idAt);
      ImportNumbers(t1, d, items[1..], seen + 1, idAt);
    }
  }

  /** Records at other positions, and under other ids, are not touched. */
  lemma {:induction false} NumberedElsewhere(docs: map<Str, Doc>, items: seq<Json>, seen: nat, k: Str)
    requires forall i :: 0 <= i < |items| ==> items[i].Object?
    requires forall n :: seen <= n < seen + |items| ==> k != PositionId(n)
    ensures var after := WithNumbered(docs, items, seen);
            (k in after <==> k in docs) && (k in docs ==> after[k] == docs[k])
    decreases |items|
  {
    if items != [] {
      NumberedElsewhere(docs[PositionId(seen) := Numbered(items[0].fields, seen)], items[1..], seen + 1, k);
    }
  }

  lemma {:induction false} NumberedAt(docs: map<Str, Doc>, items: seq<Json>, seen: nat, n: nat)
    requires seen <= n < seen + |items| && forall i :: 0 <= i < |items| ==> items[i].Object?
    ensures var after := WithNumbered(docs, items, seen);
            PositionId(n) in after && after[PositionId(n)] == Numbered(items[n - seen].fields, n)
    decreases |items|
  {
    var next := docs[PositionId(seen) := Numbered(items[0].fields, seen)];
    if n == seen {
      forall m | seen + 1 <= m < seen + |items|
        ensures PositionId(n) != PositionId(m)
      {
        PositionIds(n, m);
      }
      NumberedElsewhere(next, items[1..], seen + 1, PositionId(n));
    } else {
      NumberedAt(next, items[1..], seen + 1, n);
    }
  }

  /** Objects without an `_id` are all stored, each under `doc_` and its position in the array, so that
      none of them overwrites another, and documents under other ids stay as they are. */
  lemma UnnamedItemsKeptApart(t: Families, d: Str, items: seq<Json>, idAt: nat -> Str)
    requires Sound(t, d) && d in t && forall i :: 0 <= i < |items| ==> items[i].Object? && Unnamed(items[i], Indexed(t, d))
    ensures var (u, status) := ImportFrom(t, d, items, 0, idAt);
            && status == OK
            && (forall n :: 0 <= n < |items| && items[n].Object? ==>
                  PositionId(n) in DocsOf(u, d) && DocsOf(u, d)[PositionId(n)] == Numbered(items[n].fields, n))
            && (forall k :: (forall n :: 0 <= n < |items| ==> k != PositionId(n)) ==>
                  (k in DocsOf(u, d) <==> k in DocsOf(t, d)) &&
                  (k in DocsOf(u, d) && k in DocsOf(t, d) ==> DocsOf(u, d)[k] == DocsOf(t, d)[k]))
  {
    ImportNumbers(t, d, items, 0, idAt);
    var docs := DocsOf(t, d);
    var after := WithNumbered(docs, items, 0);
    forall n | 0 <= n < |items| && items[n].Object?
      ensures PositionId(n) in after && after[PositionId(n)] == Numbered(items[n].fields, n)
    {
      NumberedAt(docs, items, 0, n);
    }
    forall k | forall n :: 0 <= n < |items| ==> k != PositionId(n)
      ensures (k in after <==> k in docs) && (k in docs ==> after[k] == docs[k])
    {
      NumberedElsewhere(docs, items, 0, k);
    }
  }
}
