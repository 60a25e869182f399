/** What importing an array does, whatever the array holds. */
module Imports {
  import opened Bytes
  import opened Json
  import opened CollectionOps
  import opened History
  import opened Records
  import opened ExportImport

  /** The key that the object at a position of the array is stored under: its `_id`, a generated id if
      that is empty, or `doc_` and the position if it has none. */
  function ItemKey(item: Json, n: nat, idAt: nat -> Str): Str {
    if !item.Object? then []
    else if ID_FIELD !in item.fields then PositionId(n)
    else if item.fields[ID_FIELD].Text? then RecordKey(item.fields[ID_FIELD].chars, idAt(n))
    else []
  }

  /** An object that ends the import: its `_id` is no text, or an indexed field is an object or array. */
  ghost predicate Fails(item: Json, fields: set<Str>) {
    item.Object? &&
    ((ID_FIELD in item.fields && !item.fields[ID_FIELD].Text?) || !Keyable(item.fields, fields))
  }

  ghost predicate HashFreeItem(item: Json) {
    item.Object? && ID_FIELD in item.fields && item.fields[ID_FIELD].Text? ==> HASH !in item.fields[ID_FIELD].chars
  }

  ghost predicate HashFreeItems(items: seq<Json>, idAt: nat -> Str) {
    (forall i :: 0 <= i < |items| ==> HashFreeItem(items[i])) && forall n :: HASH !in idAt(n)
  }

  /** Whether an object among the first `k` items has the key. */
  ghost predicate KeyOfSome(items: seq<Json>, seen: nat, idAt: nat -> Str, k: int, key: Str) {
    exists n :: 0 <= n < k <= |items| && items[n].Object? && ItemKey(items[n], seen + n, idAt) == key
  }

  /** The last of the first `k` items with its key. */
  ghost predicate LastWithKey(items: seq<Json>, seen: nat, idAt: nat -> Str, k: int, n: int) {
    && 0 <= n < k <= |items| && items[n].Object?
    && forall m :: n < m < k && items[m].Object? ==> ItemKey(items[m], seen + m, idAt) != ItemKey(items[n], seen + n, idAt)
  }

  ghost predicate SameAt(before: map<Str, Doc>, after: map<Str, Doc>, key: Str) {
    (key in after <==> key in before) && (key in before && key in after ==> after[key] == before[key])
  }

  ghost predicate StoredAt(after: map<Str, Doc>, key: Str, given: Fields) {
    key in after && after[key].id == key && RecordData(given, key, after[key].data)
  }

  /** The first `k` items have been imported: each object is stored under its key, a later one with the
      same key in place of an earlier one, and nothing else has changed. */
  ghost predicate Imported(before: map<Str, Doc>, after: map<Str, Doc>, items: seq<Json>, seen: nat, idAt: nat -> Str, k: int) {
    && (forall n :: LastWithKey(items, seen, idAt, k, n) ==>
          StoredAt(after, ItemKey(items[n], seen + n, idAt), items[n].fields))
    && (forall key :: !KeyOfSome(items, seen, idAt, k, key) ==> SameAt(before, after, key))
  }

  /** One more item in front: an object, stored first, or something that is passed over. */
  lemma ImportedCons(before: map<Str, Doc>, mid: map<Str, Doc>, after: map<Str, Doc>, items: seq<Json>, seen: nat,
                     idAt: nat -> Str, k: nat)
    requires items != [] && k <= |items| - 1 && Imported(mid, after, items[1..], seen + 1, idAt, k)
    requires if items[0].Object? then OneRecordStored(before, mid, ItemKey(items[0], seen, idAt), items[0].fields)
             else mid == before
    ensures Imported(before, after, items, seen, idAt, k + 1)
  {
    var rest := items[1..];
    forall n | LastWithKey(items, seen, idAt, k + 1, n)
      ensures StoredAt(after, ItemKey(items[n], seen + n, idAt), items[n].fields)
    {
      if n == 0 {
        FirstIsLast(items, seen, idAt, k);
        assert SameAt(mid, after, ItemKey(items[0], seen, idAt));
      } else {
        LastShifts(items, seen, idAt, k, n);
        assert rest[n - 1] == items[n] && seen + 1 + (n - 1) == seen + n;
      }
    }
    forall key | !KeyOfSome(items, seen, idAt, k + 1, key)
      ensures SameAt(before, after, key)
    {
      KeyShifts(items, seen, idAt, k, key);
    }
  }

  lemma FirstIsLast(items: seq<Json>, seen: nat, idAt: nat -> Str, k: nat)
    requires items != [] && k <= |items| - 1 && LastWithKey(items, seen, idAt, k + 1, 0)
    ensures !KeyOfSome(items[1..], seen + 1, idAt, k, ItemKey(items[0], seen, idAt))
  {
    forall n | 0 <= n < k && items[1..][n].Object?
      ensures ItemKey(items[1..][n], seen + 1 + n, idAt) != ItemKey(items[0], seen, idAt)
    {
      assert items[1..][n] == items[n + 1] && seen + 1 + n == seen + (n + 1);
    }
  }

  lemma LastShifts(items: seq<Json>, seen: nat, idAt: nat -> Str, k: nat, n: nat)
    requires 0 < n && items != [] && k <= |items| - 1 && LastWithKey(items, seen, idAt, k + 1, n)
    ensures LastWithKey(items[1..], seen + 1, idAt, k, n - 1)
  {
    var rest := items[1..];
    assert rest[n - 1] == items[n] && seen + 1 + (n - 1) == seen + n;
    forall m | n - 1 < m < k && rest[m].Object?
      ensures ItemKey(rest[m], seen + 1 + m, idAt) != ItemKey(items[n], seen + n, idAt)
    {
      assert rest[m] == items[m + 1] && seen + 1 + m == seen + (m + 1);
    }
  }

  lemma KeyShifts(items: seq<Json>, seen: nat, idAt: nat -> Str, k: nat, key: Str)
    requires items != [] && k <= |items| - 1 && !KeyOfSome(items, seen, idAt, k + 1, key)
    ensures !KeyOfSome(items[1..], seen + 1, idAt, k, key)
    ensures items[0].Object? ==> ItemKey(items[0], seen, idAt) != key
  {
    forall n | 0 <= n < k && items[1..][n].Object?
      ensures ItemKey(items[1..][n], seen + 1 + n, idAt) != key
    {
      assert items[1..][n] == items[n + 1] && seen + 1 + n == seen + (n + 1);
    }
    assert items[0].Object? ==> ItemKey(items[0], seen + 0, idAt) != key;
  }

  /** One object of the array. */
  lemma ImportOne(t: Families, d: Str, item: Json, n: nat, idAt: nat -> Str)
    requires Sound(t, d) && d in t && item.Object? && HashFreeItem(item) && HASH !in idAt(n)
    requires ImportId(item.fields, n).Some?
    ensures ID_FIELD !in item.fields || item.fields[ID_FIELD].Text?
    ensures var (u, status) := CreateDocument(t, d, Doc(ImportId(item.fields, n).value, item.fields), idAt(n));
            && Sound(u, d) && d in u && Indexed(u, d) == Indexed(t, d)
            && status == (if Fails(item, Indexed(t, d)) then Exception else OK)
            && if status == OK then OneRecordStored(DocsOf(t, d), DocsOf(u, d), ItemKey(item, n, idAt), item.fields)
               else DocsOf(u, d) == DocsOf(t, d)
  {
    var id := ImportId(item.fields, n).value;
    PositionIds(n, n);
    var doc := Doc(id, item.fields);
    CreateOutcome(t, d, doc, idAt(n));
    StoreRefines(t, d, Prepare(doc, idAt(n)));
    var u := CreateDocument(t, d, doc, idAt(n)).0;
    SameListing(t, u, d, ViewOf(t, d).index.Keys);
    assert ViewOf(u, d).present;
  }

  /** How the import of an array into a collection with these indexed fields ends, `k` being the first
      item that fails, or the number of items. */
  ghost predicate Ends(before: map<Str, Doc>, d: Str, fields: set<Str>, items: seq<Json>, seen: nat, idAt: nat -> Str, k: int,
                       u: Families, status: Status) {
    && 0 <= k <= |items| && (forall i :: 0 <= i < k ==> !Fails(items[i], fields))
    && (k < |items| ==> Fails(items[k], fields))
    && status == (if k == |items| then OK else InternalError)
    && Imported(before, DocsOf(u, d), items, seen, idAt, k)
  }

  lemma EndsCons(before: map<Str, Doc>, mid: map<Str, Doc>, d: Str, fields: set<Str>, items: seq<Json>, seen: nat,
                 idAt: nat -> Str, k: nat, u: Families, status: Status)
    requires items != [] && !Fails(items[0], fields) && Ends(mid, d, fields, items[1..], seen + 1, idAt, k, u, status)
    requires if items[0].Object? then OneRecordStored(before, mid, ItemKey(items[0], seen, idAt), items[0].fields)
             else mid == before
    ensures Ends(before, d, fields, items, seen, idAt, k + 1, u, status)
  {
    ImportedCons(before, mid, DocsOf(u, d), items, seen, idAt, k);
    forall i | 0 <= i < k + 1
      ensures !Fails(items[i], fields)
    {
      if i > 0 {
        assert items[i] == items[1..][i - 1];
      }
    }
  }

  lemma EndsAtOnce(docs: map<Str, Doc>, d: Str, fields: set<Str>, items: seq<Json>, seen: nat, idAt: nat -> Str, u: Families)
    requires DocsOf(u, d) == docs
    ensures items != [] && Fails(items[0], fields) ==> Ends(docs, d, fields, items, seen, idAt, 0, u, InternalError)
    ensures items == [] ==> Ends(docs, d, fields, items, seen, idAt, 0, u, OK)
  {
  }

  lemma ImportStep(t: Families, d: Str, items: seq<Json>, seen: nat, idAt: nat -> Str)
    requires items != [] && items[0].Object? && ImportId(items[0].fields, seen).Some?
    ensures var (t1, created) := CreateDocument(t, d, Doc(ImportId(items[0].fields, seen).value, items[0].fields), idAt(seen));
            ImportFrom(t, d, items, seen, idAt) ==
            if created == Exception then (t1, InternalError) else ImportFrom(t1, d, items[1..], seen + 1, idAt)
  {
  }

  /** The families after the first item, an object with an id, has been imported or has failed. */
  function AfterFirst(t: Families, d: Str, items: seq<Json>, seen: nat, idAt: nat -> Str): Families
    requires items != [] && items[0].Object? && ImportId(items[0].fields, seen).Some?
  {
    CreateDocument(t, d, Doc(ImportId(items[0].fields, seen).value, items[0].fields), idAt(seen)).0
  }

  lemma FirstFails(t: Families, d: Str, items: seq<Json>, seen: nat, idAt: nat -> Str)
    requires Sound(t, d) && d in t && HashFreeItems(items, idAt)
    requires items != [] && items[0].Object? && Fails(items[0], Indexed(t, d))
    ensures var (u, status) := ImportFrom(t, d, items, seen, idAt);
            Ends(DocsOf(t, d), d, Indexed(t, d), items, seen, idAt, 0, u, status)
  {
    if ImportId(items[0].fields, seen).Some? {
      ImportStep(t, d, items, seen, idAt);
      ImportOne(t, d, items[0], seen, idAt);
    }
    EndsAtOnce(DocsOf(t, d), d, Indexed(t, d), items, seen, idAt, ImportFrom(t, d, items, seen, idAt).0);
  }

  lemma FirstStored(t: Families, d: Str, items: seq<Json>, seen: nat, idAt: nat -> Str)
    requires Sound(t, d) && d in t && HashFreeItems(items, idAt)
    requires items != [] && items[0].Object? && !Fails(items[0], Indexed(t, d))
    ensures ImportId(items[0].fields, seen).Some?
    ensures var t1 := AfterFirst(t, d, items, seen, idAt);
            && Sound(t1, d) && d in t1 && Indexed(t1, d) == Indexed(t, d) && HashFreeItems(items[1..], idAt)
            && OneRecordStored(DocsOf(t, d), DocsOf(t1, d), ItemKey(items[0], seen, idAt), items[0].fields)
            && ImportFrom(t, d, items, seen, idAt) == ImportFrom(t1, d, items[1..], seen + 1, idAt)
  {
    ImportStep(t, d, items, seen, idAt);
    ImportOne(t, d, items[0], seen, idAt);
  }

  lemma FirstSkipped(t: Families, d: Str, items: seq<Json>, seen: nat, idAt: nat -> Str)
    requires items != [] && !items[0].Object? && HashFreeItems(items, idAt)
    ensures HashFreeItems(items[1..], idAt)
    ensures ImportFrom(t, d, items, seen, idAt) == ImportFrom(t, d, items[1..], seen + 1, idAt)
  {
  }

  /** Importing any array into a collection: the objects before the first that fails are stored, each
      under its key, what is no object is passed over but counted, and the import reports success
      exactly if no object fails, storing no document from there on if one does. */
  lemma {:induction false} ImportExactly(t: Families, d: Str, items: seq<Json>, seen: nat, idAt: nat -> Str, u: Families,
                                         status: Status)
    requires Sound(t, d) && d in t && HashFreeItems(items, idAt)
    requires (u, status) == ImportFrom(t, d, items, seen, idAt)
    ensures exists k :: Ends(DocsOf(t, d), d, Indexed(t, d), items, seen, idAt, k, u, status)
    decreases |items|
  {
    var docs, fields := DocsOf(t, d), Indexed(t, d);
    if items == [] {
      EndsAtOnce(docs, d, fields, items, seen, idAt, u);
    } else if Fails(items[0], fields) {
      FirstFails(t, d, items, seen, idAt);
    } else if items[0].Object? {
      FirstStored(t, d, items, seen, idAt);
      var t1 := AfterFirst(t, d, items, seen, idAt);
      ImportExactly(t1, d, items[1..], seen + 1, idAt, u, status);
      var k :| Ends(DocsOf(t1, d), d, fields, items[1..], seen + 1, idAt, k, u, status);
      EndsCons(docs, DocsOf(t1, d), d, fields, items, seen, idAt, k, u, status);
    } else {
      FirstSkipped(t, d, items, seen, idAt);
      ImportExactly(t, d, items[1..], seen + 1, idAt, u, status);
      var k :| Ends(docs, d, fields, items[1..], seen + 1, idAt, k, u, status);
      EndsCons(docs, docs, d, fields, items, seen, idAt, k, u, status);
    }
  }

  // ---------- export ----------

  /** An export holds the data of every record, by ascending id. */
  lemma {:induction false} ExportInOrder(fam: Family, ks: seq<Str>, i: nat)
    requires (forall k :: k in ks ==> k in fam && fam[k].Packed?) && i < |ks|
    ensures |ExportOf(fam, ks)| == |ks| && ExportOf(fam, ks)[i] == Object(fam[ks[i]].doc.data)
    decreases |ks|
  {
    if |ks| > 1 {
      ExportInOrder(fam, ks[1..], if i == 0 then 0 else i - 1);
    }
  }
}
