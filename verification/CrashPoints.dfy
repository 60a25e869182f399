/** What is stored if the process stops between two engine writes of one operation. */
module CrashPoints {
  import opened Bytes
  import opened Json
  import opened StorageEngine
  import opened Naming
  import opened CollectionOps
  import opened History
  import opened Consistency

  // ---------- replaying a log of writes ----------

  function Lookup(s: Families, cf: Str, key: Str): Option<Value> {
    if cf in s && key in s[cf] then Some(s[cf][key]) else None
  }

  /** What the last write of a log to a location leaves there, if the log writes it at all. */
  function LastWrite(ws: seq<Write>, cf: Str, key: Str): Option<Option<Value>> {
    if ws == [] then None
    else if LastWrite(ws[1..], cf, key).Some? then LastWrite(ws[1..], cf, key)
    else if ws[0].cf == cf && ws[0].key == key then
      Some(if ws[0].Put? then Some(ws[0].value) else None)
    else None
  }

  lemma {:induction false} LogEffect(s: Families, ws: seq<Write>, cf: Str, key: Str)
    ensures ApplyAll(s, ws).Keys == s.Keys
    ensures cf in s ==>
              Lookup(ApplyAll(s, ws), cf, key) ==
              if LastWrite(ws, cf, key).Some? then LastWrite(ws, cf, key).value else Lookup(s, cf, key)
    decreases |ws|
  {
    if ws != [] {
      LogEffect(Apply(s, ws[0]), ws[1..], cf, key);
    }
  }

  lemma {:induction false} PrefixWritesLess(ws: seq<Write>, k: nat, cf: Str, key: Str)
    requires k <= |ws| && LastWrite(ws, cf, key).None?
    ensures LastWrite(ws[..k], cf, key).None?
    decreases k
  {
    if k > 0 {
      assert ws[..k][1..] == ws[1..][..k - 1];
      PrefixWritesLess(ws[1..], k - 1, cf, key);
    }
  }

  /** Running a log after a crash inside it ends where the uninterrupted log ends. */
  lemma ReplayAfterCrash(s: Families, ws: seq<Write>, k: nat)
    requires k <= |ws|
    ensures ApplyAll(ApplyAll(s, ws[..k]), ws) == ApplyAll(s, ws)
  {
    var mid := ApplyAll(s, ws[..k]);
    var a, b := ApplyAll(mid, ws), ApplyAll(s, ws);
    LogEffect(s, ws[..k], [], []);
    LogEffect(mid, ws, [], []);
    LogEffect(s, ws, [], []);
    forall cf | cf in s
      ensures a[cf] == b[cf]
    {
      forall key
        ensures Lookup(a, cf, key) == Lookup(b, cf, key)
      {
        LogEffect(s, ws[..k], cf, key);
        LogEffect(mid, ws, cf, key);
        LogEffect(s, ws, cf, key);
        if LastWrite(ws, cf, key).None? {
          PrefixWritesLess(ws, k, cf, key);
        }
      }
      FamilyByLookup(a, b, cf);
    }
  }

  lemma FamilyByLookup(a: Families, b: Families, cf: Str)
    requires cf in a && cf in b && forall key :: Lookup(a, cf, key) == Lookup(b, cf, key)
    ensures a[cf] == b[cf]
  {
    forall key
      ensures key in a[cf] <==> key in b[cf]
      ensures key in a[cf] ==> a[cf][key] == b[cf][key]
    {
      assert Lookup(a, cf, key) == Lookup(b, cf, key);
    }
  }

  // ---------- createDocument ----------

  lemma {:induction false} EntryPutsPrefix(c: Str, doc: Doc, gs: seq<Str>, k: nat)
    requires k <= |gs| && forall g :: g in gs ==> g in doc.data && Scalar(doc.data[g])
    ensures EntryPuts(c, doc, gs)[..k] == EntryPuts(c, doc, gs[..k])
    decreases k
  {
    if k > 0 {
      assert gs[..k][1..] == gs[1..][..k - 1];
      EntryPutsPrefix(c, doc, gs[1..], k - 1);
    }
  }

  lemma {:induction false} EntryRemovesPrefix(c: Str, doc: Doc, gs: seq<Str>, k: nat)
    requires k <= |gs| && forall g :: g in gs ==> g in doc.data && Scalar(doc.data[g])
    ensures EntryRemoves(c, doc, gs)[..k] == EntryRemoves(c, doc, gs[..k])
    decreases k
  {
    if k > 0 {
      assert gs[..k][1..] == gs[1..][..k - 1];
      EntryRemovesPrefix(c, doc, gs[1..], k - 1);
    }
  }

  /** The index puts alone leave the documents alone and only add entries. */
  lemma PutsOnlyAdd(s: Families, c: Str, doc: Doc, gs: seq<Str>)
    requires Sound(s, c) && HASH !in doc.id
    requires forall g :: g in gs ==> g in doc.data && Scalar(doc.data[g]) && IndexCfName(c, g) in s
    ensures var t := ApplyAll(s, EntryPuts(c, doc, gs)); var v, w := ViewOf(s, c), ViewOf(t, c);
            && Sound(t, c) && t.Keys == s.Keys && (c in s ==> t[c] == s[c])
            && w.docs == v.docs && w.index.Keys == v.index.Keys
            && forall f :: f in v.index ==> v.index[f] <= w.index[f]
  {
    var t := ApplyAll(s, EntryPuts(c, doc, gs));
    EntryPutsEffect(s, c, doc, gs);
    NotOwnedNotIndexed(c, c, gs);
    ViewIndexes(s, c);
    ViewIndexes(t, c);
    forall f | IndexCfName(c, f) in s
      ensures EntriesOf(s[IndexCfName(c, f)]) <= EntriesOf(t[IndexCfName(c, f)])
      ensures SoundIndex(t[IndexCfName(c, f)])
    {
      if f in gs {
        EntryPutEffect(s[IndexCfName(c, f)], doc, f);
      } else {
        NotIndexedBy(c, f, gs);
      }
    }
  }

  /** The index removes alone leave the documents alone and only take entries away. */
  lemma RemovesOnlyTake(s: Families, c: Str, doc: Doc, gs: seq<Str>)
    requires Sound(s, c) && HASH !in doc.id
    requires forall g :: g in gs ==> g in doc.data && Scalar(doc.data[g]) && IndexCfName(c, g) in s
    ensures var t := ApplyAll(s, EntryRemoves(c, doc, gs)); var v, w := ViewOf(s, c), ViewOf(t, c);
            && t.Keys == s.Keys && (c in s ==> t[c] == s[c])
            && w.docs == v.docs && w.index.Keys == v.index.Keys
            && forall f :: f in v.index ==> w.index[f] <= v.index[f]
  {
    var t := ApplyAll(s, EntryRemoves(c, doc, gs));
    EntryRemovesEffect(s, c, doc, gs);
    NotOwnedNotIndexed(c, c, gs);
    ViewIndexes(s, c);
    ViewIndexes(t, c);
    forall f | IndexCfName(c, f) in s
      ensures EntriesOf(t[IndexCfName(c, f)]) <= EntriesOf(s[IndexCfName(c, f)])
    {
      if f in gs {
        EntryRemoveEffect(s[IndexCfName(c, f)], doc, f);
      } else {
        NotIndexedBy(c, f, gs);
      }
    }
  }

  /** Storing a document, stopped after any number of its writes: no stored document lacks an index
      entry, and running the store again reaches the state of an uninterrupted run. */
  lemma CrashInStore(s: Families, c: Str, doc: Doc, k: nat)
    requires Sound(s, c) && HASH !in doc.id && NoMissing(ViewOf(s, c)) && k <= |StoreWrites(s, c, doc)|
    ensures var mid := ApplyAll(s, StoreWrites(s, c, doc)[..k]);
            && Sound(mid, c) && NoMissing(ViewOf(mid, c))
            && ApplyAll(mid, StoreWrites(mid, c, doc)) == ApplyAll(s, StoreWrites(s, c, doc))
  {
    var ws, gs := StoreWrites(s, c, doc), HandledOf(s, c, doc);
    var mid := ApplyAll(s, ws[..k]);
    LogEffect(s, ws[..k], [], []);
    ReplayAfterCrash(s, ws, k);
    assert StoreWrites(mid, c, doc) == ws;
    if k <= |gs| {
      assert ws[..k] == EntryPuts(c, doc, gs)[..k];
      EntryPutsPrefix(c, doc, gs, k);
      PutsOnlyAdd(s, c, doc, gs[..k]);
    } else {
      assert ws[..k] == ws;
      SoundKeyed(s, c);
      StoreRefines(s, c, doc);
      StoreNoMissing(ViewOf(s, c), doc);
    }
  }

  // ---------- updateDocument ----------

  /** The document that an update stores. */
  function Updated(s: Families, c: Str, id: Str, change: Change, freshId: Str): Doc
    requires change(UpdateBase(s, c, id).data).Some?
  {
    Prepare(Doc(UpdateBase(s, c, id).id, change(UpdateBase(s, c, id).data).value), freshId)
  }

  /** A store that stopped before its last write has not touched the documents. */
  lemma StoppedStore(s: Families, c: Str, doc: Doc, k: nat)
    requires Sound(s, c) && HASH !in doc.id && k <= |StoreWrites(s, c, doc)|
    requires Convertible(doc, Indexes(s, c)) && c in s ==> k < |StoreWrites(s, c, doc)|
    ensures var mid := ApplyAll(s, StoreWrites(s, c, doc)[..k]); mid.Keys == s.Keys && (c in s ==> mid[c] == s[c])
  {
    var ws := StoreWrites(s, c, doc);
    LogEffect(s, ws[..k], [], []);
    if c in s {
      var gs := HandledOf(s, c, doc);
      assert ws[..k] == EntryPuts(c, doc, gs)[..k];
      EntryPutsPrefix(c, doc, gs, k);
      PutsOnlyAdd(s, c, doc, gs[..k]);
    }
  }

  /** An update stopped before it has stored its document, and run again, ends like an uninterrupted
      one: it still reads the old document. */
  lemma CrashInUpdate(s: Families, c: Str, id: Str, change: Change, upsert: bool, freshId: Str, k: nat)
    requires Sound(s, c) && HASH !in id && HASH !in freshId && UpdateProceeds(s, c, id, upsert)
    requires change(UpdateBase(s, c, id).data).Some?
    requires var d := Updated(s, c, id, change, freshId);
             && k <= |StoreWrites(s, c, d)|
             && (Convertible(d, Indexes(s, c)) && c in s ==> k < |StoreWrites(s, c, d)|)
    ensures var mid := ApplyAll(s, StoreWrites(s, c, Updated(s, c, id, change, freshId))[..k]);
            UpdateDocument(mid, c, id, change, upsert, freshId) == UpdateDocument(s, c, id, change, upsert, freshId)
  {
    var d := Updated(s, c, id, change, freshId);
    var ws := StoreWrites(s, c, d);
    var mid := ApplyAll(s, ws[..k]);
    StoppedStore(s, c, d, k);
    ReplayAfterCrash(s, ws, k);
    assert UpdateBase(mid, c, id) == UpdateBase(s, c, id);
    assert StoreWrites(mid, c, d) == ws;
  }

  /** Storing a document leaves the state as it is exactly when it is stored already, or cannot be and
      the entries put before the value that throws are there. */
  ghost predicate AlreadyThere(v: View, doc: Doc) {
    && (Clean(doc, v.index.Keys) && v.present ==> doc.id in v.docs && v.docs[doc.id] == doc)
    && forall f :: Reached(doc, v.index.Keys, f) ==> EntryOf(doc, f) in v.index[f]
  }

  lemma StoreIsNoOpView(v: View, doc: Doc)
    ensures AStore(v, doc) == v <==> AlreadyThere(v, doc)
  {
    var w := AStore(v, doc);
    if AlreadyThere(v, doc) {
      assert w.docs == v.docs;
      forall f | f in v.index
        ensures w.index[f] == v.index[f]
      {
      }
      assert w.index == v.index;
    }
    if w == v {
      forall f | Reached(doc, v.index.Keys, f)
        ensures EntryOf(doc, f) in v.index[f]
      {
        assert EntryOf(doc, f) in w.index[f];
      }
      if Clean(doc, v.index.Keys) && v.present {
        assert doc.id in w.docs && w.docs[doc.id] == doc;
      }
    }
  }

  lemma StoreIsNoOpExactly(s: Families, c: Str, doc: Doc)
    requires Sound(s, c) && HASH !in doc.id
    ensures ApplyAll(s, StoreWrites(s, c, doc)) == s <==> AlreadyThere(ViewOf(s, c), doc)
  {
    StoreRefines(s, c, doc);
    StoreIsNoOpView(ViewOf(s, c), doc);
    if AlreadyThere(ViewOf(s, c), doc) {
      ViewDetermines(ApplyAll(s, StoreWrites(s, c, doc)), s, c);
    }
  }

  /** Run again after its last write an update is applied twice: it leaves the state `t` that it made as
      it is exactly when the change throws on the stored document, or what it makes of it is there
      already. */
  lemma UpdateTwiceExactly(s: Families, c: Str, id: Str, change: Change, upsert: bool, freshId: Str)
    requires Sound(s, c) && HASH !in id && HASH !in freshId && id != []
    requires UpdateDocument(s, c, id, change, upsert, freshId).1 == OK
    ensures var t := UpdateDocument(s, c, id, change, upsert, freshId).0;
            && ReadStatus(t, c, id) == OK
            && (UpdateDocument(t, c, id, change, upsert, freshId).0 == t <==>
                  change(ReadDocument(t, c, id).data).Some? ==>
                    AlreadyThere(ViewOf(t, c), Updated(t, c, id, change, freshId)))
  {
    var d := Updated(s, c, id, change, freshId);
    var t := UpdateDocument(s, c, id, change, upsert, freshId).0;
    StoreRefines(s, c, d);
    StoredIsRead(s, c, d);
    assert d.id == id;
    if change(ReadDocument(t, c, id).data).Some? {
      StoreIsNoOpExactly(t, c, Updated(t, c, id, change, freshId));
    }
  }

  /** A store that reports success is read back. */
  lemma StoredIsRead(s: Families, c: Str, doc: Doc)
    requires Sound(s, c) && HASH !in doc.id && StoreStatus(s, c, doc) == OK
    ensures var t := ApplyAll(s, StoreWrites(s, c, doc)); ReadStatus(t, c, doc.id) == OK && ReadDocument(t, c, doc.id) == doc
  {
    StoreShape(s, c, doc);
    LoopsElsewhere(s, c, doc);
    ListedIndexes(s, c);
  }

  // ---------- deleteDocument ----------

  /** Every entry that names the document is the entry of its current value. */
  ghost predicate NoStaleEntries(v: View, id: Str) {
    forall f, e :: f in v.index && e in v.index[f] && e.1 == id ==> IsCurrent(v.docs, f, e)
  }

  /** Stopped before it removes the document, a delete leaves no entry without a document if there
      was none, and running it again ends like an uninterrupted run. */
  lemma CrashInDelete(s: Families, c: Str, id: Str, k: nat)
    requires Sound(s, c) && ReadStatus(s, c, id) == OK && k <= |EraseWrites(s, c, id)|
    requires Convertible(ReadDocument(s, c, id), Indexes(s, c)) ==> k < |EraseWrites(s, c, id)|
    ensures var mid := ApplyAll(s, EraseWrites(s, c, id)[..k]);
            && (NoDangling(ViewOf(s, c)) ==> NoDangling(ViewOf(mid, c)))
            && DeleteDocument(mid, c, id) == DeleteDocument(s, c, id)
  {
    var ws, doc := EraseWrites(s, c, id), ReadDocument(s, c, id);
    var gs := HandledOf(s, c, doc);
    var mid := ApplyAll(s, ws[..k]);
    assert k <= |gs|;
    assert ws[..k] == EntryRemoves(c, doc, gs)[..k];
    EntryRemovesPrefix(c, doc, gs, k);
    RemovesOnlyTake(s, c, doc, gs[..k]);
    assert EraseWrites(mid, c, id) == ws;
    ReplayAfterCrash(s, ws, k);
  }

  /** Running a completed delete again finds no document and changes nothing. */
  lemma DeleteTwice(s: Families, c: Str, id: Str)
    requires Sound(s, c) && DeleteDocument(s, c, id).1 == OK
    ensures var t := DeleteDocument(s, c, id).0; DeleteDocument(t, c, id) == (t, NotFound)
  {
    var t := DeleteDocument(s, c, id).0;
    DeleteRefines(s, c, id);
    assert ADelete(ViewOf(s, c), id).docs == ViewOf(s, c).docs - {id} by {
      ListedIndexes(s, c);
      ViewIndexes(s, c);
    }
    assert id !in DocsOf(t, c);
    assert c in t ==> id !in t[c];
  }

  lemma DeleteDangling(v: View, id: Str)
    requires Keyed(v) && id in v.docs && Clean(v.docs[id], v.index.Keys) && NoDangling(v)
    ensures NoDangling(ADelete(v, id)) <==> NoStaleEntries(v, id)
  {
    var w := ADelete(v, id);
    if NoStaleEntries(v, id) {
      forall f, e | f in w.index && e in w.index[f]
        ensures e.1 in w.docs
      {
        if e.1 == id {
          assert IsCurrent(v.docs, f, e);
          CleanReaches(v.docs[id], v.index.Keys, f);
        }
      }
    }
    if NoDangling(w) {
      forall f, e | f in v.index && e in v.index[f] && e.1 == id
        ensures IsCurrent(v.docs, f, e)
      {
        assert e !in w.index[f];
      }
    }
  }

  /** A completed delete leaves no entry without a document exactly when no entry of an earlier
      value of that document was left behind before. */
  lemma DeleteDanglingExactly(s: Families, c: Str, id: Str)
    requires Sound(s, c) && ReadStatus(s, c, id) == OK && NoDangling(ViewOf(s, c))
    requires Clean(ReadDocument(s, c, id), Indexed(s, c))
    ensures NoDangling(ViewOf(DeleteDocument(s, c, id).0, c)) <==> NoStaleEntries(ViewOf(s, c), id)
  {
    SoundKeyed(s, c);
    ViewIndexes(s, c);
    DeleteRefines(s, c, id);
    DeleteDangling(ViewOf(s, c), id);
  }

  // ---------- createIndex ----------

  lemma {:induction false} HandledKeysListed(f: Str, fam: Family, ks: seq<Str>)
    ensures forall j :: j in HandledKeys(f, fam, ks) ==> j in ks && HasEntry(fam, f, j)
    decreases |ks|
  {
    if ks != [] {
      HandledKeysListed(f, fam, ks[1..]);
    }
  }

  lemma {:induction false} HandledKeysAscending(f: Str, fam: Family, ks: seq<Str>)
    requires Ascending(ks)
    ensures Ascending(HandledKeys(f, fam, ks))
    decreases |ks|
  {
    if ks != [] {
      var js, rest := HandledKeys(f, fam, ks), HandledKeys(f, fam, ks[1..]);
      HandledKeysAscending(f, fam, ks[1..]);
      HandledKeysListed(f, fam, ks[1..]);
      if js != [] && js[0] == ks[0] && js == [ks[0]] + rest {
        forall i | 0 < i < |js|
          ensures Less(js[0], js[i])
        {
          assert js[i] in rest && js[i] in ks[1..];
        }
      }
    }
  }

  lemma {:induction false} BuildWritesPrefix(c: Str, f: Str, fam: Family, js: seq<Str>, k: nat)
    requires k <= |js| && forall j :: j in js ==> HasEntry(fam, f, j)
    ensures |BuildWrites(c, f, fam, js)| == |js| && BuildWrites(c, f, fam, js)[..k] == BuildWrites(c, f, fam, js[..k])
    decreases |js|
  {
    if js != [] {
      assert HasEntry(fam, f, js[0]);
      BuildWritesPrefix(c, f, fam, js[1..], if k == 0 then 0 else k - 1);
      if k > 0 {
        assert js[..k][1..] == js[1..][..k - 1];
      }
    }
  }

  /** The entry writes of an index build, in the order of the cursor. */
  function IndexWrites(s: Families, c: Str, f: Str): seq<Write> {
    if c !in s then [] else BuildWrites(c, f, s[c], HandledKeys(f, s[c], Sorted(s[c].Keys)))
  }

  /** What is stored when a build has made the family and `k` of its entry writes. */
  function PartlyBuilt(s: Families, c: Str, f: Str, k: nat): Families
    requires k <= |IndexWrites(s, c, f)|
  {
    ApplyAll(WithFamily(s, IndexCfName(c, f)), IndexWrites(s, c, f)[..k])
  }

  /** The documents that a build handles, in the order of the cursor. */
  function Handles(s: Families, c: Str, f: Str): seq<Str>
    requires c in s
  {
    HandledKeys(f, s[c], Sorted(s[c].Keys))
  }

  lemma HandlesInOrder(s: Families, c: Str, f: Str, k: nat)
    requires c in s && k <= |IndexWrites(s, c, f)|
    ensures var js := Handles(s, c, f);
            && |js| == |IndexWrites(s, c, f)| && Ascending(js)
            && (forall j :: j in js ==> HasEntry(s[c], f, j))
            && (forall j :: j in js[..k] ==> HasEntry(s[c], f, j))
            && IndexWrites(s, c, f)[..k] == BuildWrites(c, f, s[c], js[..k])
  {
    var js := Handles(s, c, f);
    SortedEnumerates(s[c].Keys);
    HandledKeysListed(f, s[c], Sorted(s[c].Keys));
    HandledKeysAscending(f, s[c], Sorted(s[c].Keys));
    BuildWritesPrefix(c, f, s[c], js, 0);
    BuildWritesPrefix(c, f, s[c], js, k);
    assert forall j :: j in js[..k] ==> j in js;
  }

  /** The entries written are those of the first `k` documents that the build handles. */
  lemma PartlyBuiltEntries(s: Families, c: Str, f: Str, k: nat)
    requires Sound(s, c) && c in s && k <= |IndexWrites(s, c, f)| && k <= |Handles(s, c, f)|
    requires forall j :: j in Handles(s, c, f)[..k] ==> HasEntry(s[c], f, j)
    ensures var x, mid := IndexCfName(c, f), PartlyBuilt(s, c, f, k);
            && OnlyFamilyDiffers(s, mid, x) && SoundIndex(mid[x])
            && EntriesOf(mid[x]) == EntriesIn(s, x) + EntriesFor(s[c], f, Handles(s, c, f)[..k])
  {
    var x := IndexCfName(c, f);
    var s1 := WithFamily(s, x);
    HandlesInOrder(s, c, f, k);
    assert EntriesOf(s1[x]) == EntriesIn(s, x);
    BuildWritesEffect(s1, c, f, s[c], Handles(s, c, f)[..k]);
  }

  /** An entry of a later document is none of those written before it. */
  lemma LaterEntryMissing(fam: Family, f: Str, js: seq<Str>, k: nat)
    requires SoundDocs(fam) && Ascending(js) && k < |js| && forall j :: j in js ==> HasEntry(fam, f, j)
    requires forall j :: j in js[..k] ==> HasEntry(fam, f, j)
    ensures HasEntry(fam, f, js[k]) && EntryOf(fam[js[k]].doc, f) !in EntriesFor(fam, f, js[..k])
  {
    AscendingDistinct(js);
    assert js[k] in js;
  }

  /** Stopped after any number of its writes, a build that is run again ends like an uninterrupted
      one. */
  lemma BuildAgainAfterCrash(s: Families, c: Str, f: Str, k: nat)
    requires Sound(s, c) && k <= |IndexWrites(s, c, f)|
    ensures CreateIndex(PartlyBuilt(s, c, f, k), c, f) == CreateIndex(s, c, f)
  {
    var x, mid := IndexCfName(c, f), PartlyBuilt(s, c, f, k);
    OwnedOnly(c, f);
    if c in s {
      HandlesInOrder(s, c, f, k);
      PartlyBuiltEntries(s, c, f, k);
      ReplayAfterCrash(WithFamily(s, x), IndexWrites(s, c, f), k);
      assert mid[c] == s[c];
    }
  }

  /** Until it is, a new index that is listed already misses entries, unless all writes were made and
      the build would report success. */
  lemma CrashInBuild(s: Families, c: Str, f: Str, k: nat)
    requires Sound(s, c) && NoMissing(ViewOf(s, c)) && IndexCfName(c, f) !in s && k <= |IndexWrites(s, c, f)|
    ensures f in Indexed(PartlyBuilt(s, c, f, k), c)
    ensures NoMissing(ViewOf(PartlyBuilt(s, c, f, k), c)) <==>
              k == |IndexWrites(s, c, f)| && CreateIndex(s, c, f).1 == OK
  {
    var ws, mid := IndexWrites(s, c, f), PartlyBuilt(s, c, f, k);
    LogEffect(WithFamily(s, IndexCfName(c, f)), ws[..k], [], []);
    ListedIndexes(mid, c);
    if k == |ws| {
      assert ws[..k] == ws;
      assert mid == CreateIndex(s, c, f).0;
      BuildCompleteExactly(s, c, f);
    } else {
      CrashLeavesMissing(s, c, f, k);
    }
  }

  lemma CrashLeavesMissing(s: Families, c: Str, f: Str, k: nat)
    requires Sound(s, c) && IndexCfName(c, f) !in s && k < |IndexWrites(s, c, f)|
    ensures !NoMissing(ViewOf(PartlyBuilt(s, c, f, k), c))
  {
    var x, mid := IndexCfName(c, f), PartlyBuilt(s, c, f, k);
    var js := Handles(s, c, f);
    HandlesInOrder(s, c, f, k);
    PartlyBuiltEntries(s, c, f, k);
    LaterEntryMissing(s[c], f, js, k);
    OwnedOnly(c, f);
    ViewIndexes(mid, c);
    assert mid[c] == s[c];
    assert js[k] in ViewOf(mid, c).docs && f in ViewOf(mid, c).index;
  }

  /** A build of an index that exists and misses nothing can be stopped anywhere: it writes nothing
      new. */
  lemma CrashInRebuild(s: Families, c: Str, f: Str, k: nat)
    requires Sound(s, c) && NoMissing(ViewOf(s, c)) && IndexCfName(c, f) in s && k <= |IndexWrites(s, c, f)|
    ensures PartlyBuilt(s, c, f, k) == s
  {
    var x, mid := IndexCfName(c, f), PartlyBuilt(s, c, f, k);
    if c in s {
      HandlesInOrder(s, c, f, k);
      PartlyBuiltEntries(s, c, f, k);
      EntriesThere(s, c, f, Handles(s, c, f)[..k]);
      EntriesDetermine(mid[x], s[x]);
      assert mid.Keys == s.Keys;
    }
  }

  lemma EntriesThere(s: Families, c: Str, f: Str, js: seq<Str>)
    requires Sound(s, c) && c in s && NoMissing(ViewOf(s, c)) && IndexCfName(c, f) in s
    requires forall j :: j in js ==> HasEntry(s[c], f, j)
    ensures EntriesOf(s[IndexCfName(c, f)]) + EntriesFor(s[c], f, js) == EntriesOf(s[IndexCfName(c, f)])
  {
    ViewIndexes(s, c);
    forall j | j in js
      ensures EntryOf(s[c][j].doc, f) in EntriesOf(s[IndexCfName(c, f)])
    {
      assert DocsOf(s, c)[j] == s[c][j].doc;
    }
  }
}
