/** The abstract reading of a collection: its documents, and for every index the set of
    (encoded value, id) pairs that the run has put there and not taken away. The byte-level
    families refine it step by step. */
module History {
  import opened Bytes
  import opened Json
  import opened StorageEngine
  import opened IndexKeys
  import opened Naming
  import opened CollectionOps

  type Entry = (Str, Str)

  datatype View = View(present: bool, docs: map<Str, Doc>, index: map<Str, set<Entry>>)

  // ---------- from families to the view ----------

  /** Every index key has its `#`, and its value is the id after the last one. */
  ghost predicate SoundIndex(fam: Family) {
    forall k :: k in fam ==> HASH in k && fam[k] == Raw(SplitKey(k).1)
  }

  ghost predicate SoundDocs(fam: Family) {
    forall k :: k in fam ==> HASH !in k && fam[k].Packed? && fam[k].doc.id == k
  }

  /** What every operation keeps about the families of collection `c`. */
  ghost predicate Sound(s: Families, c: Str) {
    && WellFormedName(c)
    && (c in s ==> SoundDocs(s[c]))
    && (forall f :: IndexCfName(c, f) in s ==> SoundIndex(s[IndexCfName(c, f)]))
  }

  ghost function DocsOf(s: Families, c: Str): map<Str, Doc> {
    if c in s then map k | k in s[c] && s[c][k].Packed? :: s[c][k].doc else map[]
  }

  ghost function EntriesOf(fam: Family): set<Entry> {
    set k | k in fam :: SplitKey(k)
  }

  ghost function ViewOf(s: Families, c: Str): View {
    View(c in s, DocsOf(s, c),
         map f | f in IndexNames(s.Keys, c) && IndexCfName(c, f) in s :: EntriesOf(s[IndexCfName(c, f)]))
  }

  /** The families of a collection: its documents and its indexes. */
  predicate Owns(c: Str, x: Str) {
    x == c || (IsIndexCf(x) && ParseCf(x).0 == c)
  }

  /** Nothing outside the collection's families differs. */
  ghost predicate SameElsewhere(s: Families, t: Families, c: Str) {
    forall x :: !Owns(c, x) ==> (x in s <==> x in t) && (x in s ==> s[x] == t[x])
  }

  // ---------- the abstract steps ----------

  ghost function EntryOf(doc: Doc, f: Str): Entry
    requires f in doc.data && Scalar(doc.data[f])
  {
    (Encoded(doc.data[f]), doc.id)
  }

  /** The index loop reaches field `f` when it can convert every earlier field it meets. */
  ghost predicate Reached(doc: Doc, fs: set<Str>, f: Str) {
    && f in fs && f in doc.data && Scalar(doc.data[f])
    && forall g :: g in fs && g in doc.data && Less(g, f) ==> Scalar(doc.data[g])
  }

  ghost predicate Clean(doc: Doc, fs: set<Str>) {
    forall g :: g in fs && g in doc.data ==> Scalar(doc.data[g])
  }

  ghost function NewEntries(doc: Doc, fs: set<Str>, f: Str): set<Entry> {
    if Reached(doc, fs, f) then {EntryOf(doc, f)} else {}
  }

  /** A write adds the entries of the new document; it never takes one away. */
  ghost function AStore(v: View, doc: Doc): View {
    View(v.present,
         if Clean(doc, v.index.Keys) && v.present then v.docs[doc.id := doc] else v.docs,
         map f | f in v.index :: v.index[f] + NewEntries(doc, v.index.Keys, f))
  }

  /** A delete takes away only the entries of the document as it is now. */
  ghost function ADelete(v: View, id: Str): View {
    if id !in v.docs then v
    else
      View(v.present,
           if Clean(v.docs[id], v.index.Keys) then v.docs - {id} else v.docs,
           map f | f in v.index :: v.index[f] - NewEntries(v.docs[id], v.index.Keys, f))
  }

  ghost predicate BuildReaches(docs: map<Str, Doc>, f: Str, i: Str) {
    && i in docs && f in docs[i].data && Scalar(docs[i].data[f])
    && forall j :: j in docs && f in docs[j].data && Less(j, i) ==> Scalar(docs[j].data[f])
  }

  ghost function CurrentEntries(docs: map<Str, Doc>, f: Str): set<Entry> {
    set i | i in docs && BuildReaches(docs, f, i) :: EntryOf(docs[i], f)
  }

  /** Building adds the current values of the documents, in id order up to a failing one. */
  ghost function ABuild(v: View, f: Str): View {
    View(v.present, v.docs,
         v.index[f := (if f in v.index then v.index[f] else {}) + CurrentEntries(v.docs, f)])
  }

  ghost function ADrop(v: View, f: Str): View {
    View(v.present, v.docs, v.index - {f})
  }

  ghost function AUpdate(v: View, id: Str, change: Change, upsert: bool, freshId: Str): View {
    if id !in v.docs && !upsert then v
    else
      var doc := if id in v.docs then v.docs[id] else Doc(id, map[ID_FIELD := Text(id)]);
      match change(doc.data)
      case None => v
      case Some(data) => AStore(v, Prepare(Doc(doc.id, data), freshId))
  }

  ghost function AStep(v: View, op: Op): View {
    match op
    case Create(doc, freshId) => AStore(v, Prepare(doc, freshId))
    case Delete(id) => ADelete(v, id)
    case Update(id, change, upsert, freshId) => AUpdate(v, id, change, upsert, freshId)
    case BuildIndex(f) => ABuild(v, f)
    case DropIndex(f) => ADrop(v, f)
  }

  ghost function ARun(v: View, ops: seq<Op>): View
    decreases |ops|
  {
    if ops == [] then v else ARun(AStep(v, ops[0]), ops[1..])
  }

  // ---------- the loops, in terms of what they reach ----------

  lemma {:induction false} HandledMembers(doc: Doc, fs: seq<Str>, g: Str)
    requires Ascending(fs)
    ensures g in Handled(doc, fs) <==> Reached(doc, (set f | f in fs), g)
    decreases |fs|
  {
    if fs != [] {
      var f, rest := fs[0], fs[1..];
      assert forall h :: h in fs <==> h == f || h in rest;
      HandledMembers(doc, rest, g);
      LessIrreflexive(f);
      forall h | h in rest
        ensures Less(f, h) && !Less(h, f) && h != f
      {
        LessAsymmetric(f, h);
      }
    }
  }

  lemma {:induction false} HandledKeysMembers(f: Str, fam: Family, ks: seq<Str>, i: Str)
    requires Ascending(ks) && forall k :: k in ks ==> k in fam
    ensures i in HandledKeys(f, fam, ks) <==>
              && i in ks && HasEntry(fam, f, i)
              && forall j :: j in ks && Less(j, i) ==> Indexable(fam[j], f)
    decreases |ks|
  {
    if ks != [] {
      var k, rest := ks[0], ks[1..];
      assert forall h :: h in ks <==> h == k || h in rest;
      HandledKeysMembers(f, fam, rest, i);
      LessIrreflexive(k);
      forall h | h in rest
        ensures Less(k, h) && !Less(h, k) && h != k
      {
        LessAsymmetric(k, h);
      }
    }
  }

  // ---------- what a list of writes does to the families ----------

  ghost predicate IndexedBy(x: Str, c: Str, gs: seq<Str>) {
    exists g :: g in gs && x == IndexCfName(c, g)
  }

  lemma {:induction false} EntryPutsEffect(s: Families, c: Str, doc: Doc, gs: seq<Str>)
    requires WellFormedName(c)
    requires forall g :: g in gs ==> g in doc.data && Scalar(doc.data[g]) && IndexCfName(c, g) in s
    ensures var t := ApplyAll(s, EntryPuts(c, doc, gs));
            && t.Keys == s.Keys
            && (forall x :: x in s && !IndexedBy(x, c, gs) ==> t[x] == s[x])
            && (forall g :: g in gs ==>
                  t[IndexCfName(c, g)] == s[IndexCfName(c, g)][EntryKey(doc, g) := Raw(doc.id)])
    decreases |gs|
  {
    if gs != [] {
      var g0, rest := gs[0], gs[1..];
      var s1 := Apply(s, EntryPuts(c, doc, gs)[0]);
      assert EntryPuts(c, doc, gs)[1..] == EntryPuts(c, doc, rest);
      EntryPutsEffect(s1, c, doc, rest);
      var t := ApplyAll(s, EntryPuts(c, doc, gs));
      forall x | x in s && !IndexedBy(x, c, gs)
        ensures t[x] == s[x]
      {
        assert x != IndexCfName(c, g0);
        assert !IndexedBy(x, c, rest);
      }
      forall g | g in gs
        ensures t[IndexCfName(c, g)] == s[IndexCfName(c, g)][EntryKey(doc, g) := Raw(doc.id)]
      {
        IndexCfNamesDistinct(c, g, c, g0);
        if g !in rest {
          NotIndexedBy(c, g, rest);
        }
      }
    }
  }

  lemma {:induction false} EntryRemovesEffect(s: Families, c: Str, doc: Doc, gs: seq<Str>)
    requires WellFormedName(c)
    requires forall g :: g in gs ==> g in doc.data && Scalar(doc.data[g]) && IndexCfName(c, g) in s
    ensures var t := ApplyAll(s, EntryRemoves(c, doc, gs));
            && t.Keys == s.Keys
            && (forall x :: x in s && !IndexedBy(x, c, gs) ==> t[x] == s[x])
            && (forall g :: g in gs ==> t[IndexCfName(c, g)] == s[IndexCfName(c, g)] - {EntryKey(doc, g)})
    decreases |gs|
  {
    if gs != [] {
      var g0, rest := gs[0], gs[1..];
      var s1 := Apply(s, EntryRemoves(c, doc, gs)[0]);
      assert EntryRemoves(c, doc, gs)[1..] == EntryRemoves(c, doc, rest);
      EntryRemovesEffect(s1, c, doc, rest);
      var t := ApplyAll(s, EntryRemoves(c, doc, gs));
      forall x | x in s && !IndexedBy(x, c, gs)
        ensures t[x] == s[x]
      {
        assert x != IndexCfName(c, g0);
        assert !IndexedBy(x, c, rest);
      }
      forall g | g in gs
        ensures t[IndexCfName(c, g)] == s[IndexCfName(c, g)] - {EntryKey(doc, g)}
      {
        IndexCfNamesDistinct(c, g, c, g0);
        if g !in rest {
          NotIndexedBy(c, g, rest);
        }
      }
    }
  }

  /** Putting an entry adds its pair to the index, removing it takes that pair away. */
  lemma EntryPutEffect(fam: Family, doc: Doc, f: Str)
    requires SoundIndex(fam) && HASH !in doc.id && f in doc.data && Scalar(doc.data[f])
    ensures var fam' := fam[EntryKey(doc, f) := Raw(doc.id)];
            SoundIndex(fam') && EntriesOf(fam') == EntriesOf(fam) + {EntryOf(doc, f)}
  {
    var key := EntryKey(doc, f);
    SplitIndexKey(Encoded(doc.data[f]), doc.id);
    assert key[|Encoded(doc.data[f])|] == HASH;
    var fam' := fam[key := Raw(doc.id)];
    forall e
      ensures e in EntriesOf(fam') <==> e in EntriesOf(fam) + {EntryOf(doc, f)}
    {
      if e in EntriesOf(fam') {
        var k :| k in fam' && SplitKey(k) == e;
        assert k == key || k in fam;
      }
      if e in EntriesOf(fam) {
        var k :| k in fam && SplitKey(k) == e;
        assert k in fam';
      }
      assert key in fam';
    }
  }

  lemma EntryRemoveEffect(fam: Family, doc: Doc, f: Str)
    requires SoundIndex(fam) && HASH !in doc.id && f in doc.data && Scalar(doc.data[f])
    ensures var fam' := fam - {EntryKey(doc, f)};
            SoundIndex(fam') && EntriesOf(fam') == EntriesOf(fam) - {EntryOf(doc, f)}
  {
    var key := EntryKey(doc, f);
    SplitIndexKey(Encoded(doc.data[f]), doc.id);
    var fam' := fam - {key};
    forall e
      ensures e in EntriesOf(fam') <==> e in EntriesOf(fam) - {EntryOf(doc, f)}
    {
      if e in EntriesOf(fam') {
        var k :| k in fam' && SplitKey(k) == e;
        assert k in fam && k != key;
        JoinSplitKey(k);
      }
      if e in EntriesOf(fam) && e != EntryOf(doc, f) {
        var k :| k in fam && SplitKey(k) == e;
        assert k in fam';
      }
    }
  }

  ghost function EntriesFor(fam: Family, f: Str, js: seq<Str>): set<Entry>
    requires forall j :: j in js ==> HasEntry(fam, f, j)
  {
    set j | j in js && HasEntry(fam, f, j) :: EntryOf(fam[j].doc, f)
  }

  lemma EntriesForCons(fam: Family, f: Str, js: seq<Str>)
    requires js != [] && HasEntry(fam, f, js[0]) && forall j :: j in js ==> HasEntry(fam, f, j)
    ensures EntriesFor(fam, f, js) == {EntryOf(fam[js[0]].doc, f)} + EntriesFor(fam, f, js[1..])
  {
    assert forall j :: j in js <==> j == js[0] || j in js[1..];
  }

  /** The build loop fills one family with the entries of the documents it handles. */
  lemma {:induction false} BuildWritesEffect(s: Families, c: Str, f: Str, fam: Family, js: seq<Str>)
    requires SoundDocs(fam) && IndexCfName(c, f) in s && SoundIndex(s[IndexCfName(c, f)])
    requires forall j :: j in js ==> HasEntry(fam, f, j)
    ensures var x := IndexCfName(c, f); var t := ApplyAll(s, BuildWrites(c, f, fam, js));
            && t.Keys == s.Keys && (forall y :: y in s && y != x ==> t[y] == s[y]) && SoundIndex(t[x])
            && EntriesOf(t[x]) == EntriesOf(s[x]) + EntriesFor(fam, f, js)
    decreases |js|
  {
    if js != [] {
      var x := IndexCfName(c, f);
      assert HasEntry(fam, f, js[0]);
      EntriesForCons(fam, f, js);
      var doc := fam[js[0]].doc;
      EntryPutEffect(s[x], doc, f);
      var s1 := s[x := s[x][EntryKey(doc, f) := Raw(doc.id)]];
      assert BuildWrites(c, f, fam, js)[1..] == BuildWrites(c, f, fam, js[1..]);
      BuildWritesEffect(s1, c, f, fam, js[1..]);
    }
  }

  // ---------- every step refines ----------

  /** The fields the engine lists as indexed. */
  ghost function Indexed(s: Families, c: Str): set<Str> {
    IndexNames(s.Keys, c)
  }

  lemma ListedIndexes(s: Families, c: Str)
    requires WellFormedName(c)
    ensures forall f :: f in Indexed(s, c) <==> IndexCfName(c, f) in s
    ensures forall f :: f in Indexes(s, c) <==> f in Indexed(s, c)
    ensures (set f | f in Indexes(s, c)) == Indexed(s, c)
    ensures Ascending(Indexes(s, c))
  {
    IndexNamesExact(s.Keys, c);
    SortedEnumerates(IndexNames(s.Keys, c));
  }

  lemma ViewIndexes(s: Families, c: Str)
    requires WellFormedName(c)
    ensures ViewOf(s, c).index.Keys == Indexed(s, c)
    ensures forall f :: f in ViewOf(s, c).index <==> IndexCfName(c, f) in s
    ensures forall f :: f in ViewOf(s, c).index ==> ViewOf(s, c).index[f] == EntriesOf(s[IndexCfName(c, f)])
  {
    IndexNamesExact(s.Keys, c);
  }

  /** Families outside the collection are untouched when only its index families change. */
  lemma OwnedOnly(c: Str, f: Str)
    requires WellFormedName(c)
    ensures Owns(c, c) && Owns(c, IndexCfName(c, f)) && IndexCfName(c, f) != c
  {
    NameParsesBackExactly(c, f);
    IndexCfNamesDistinct(c, f, c, f);
  }

  /** The effect of a step on one index, or on the documents, is all that the view sees. */
  lemma ViewFromParts(t: Families, c: Str, v: View)
    requires WellFormedName(c)
    requires v.present == (c in t) && v.docs == DocsOf(t, c)
    requires forall f :: f in v.index <==> IndexCfName(c, f) in t
    requires forall f :: f in v.index ==> v.index[f] == EntriesOf(t[IndexCfName(c, f)])
    ensures ViewOf(t, c) == v
  {
    IndexNamesExact(t.Keys, c);
    assert ViewOf(t, c).index == v.index;
  }

  lemma NotIndexedBy(c: Str, f: Str, gs: seq<Str>)
    requires WellFormedName(c) && f !in gs
    ensures !IndexedBy(IndexCfName(c, f), c, gs)
  {
    forall g | g in gs
      ensures IndexCfName(c, f) != IndexCfName(c, g)
    {
      IndexCfNamesDistinct(c, f, c, g);
    }
  }

  lemma NotOwnedNotIndexed(c: Str, x: Str, gs: seq<Str>)
    requires WellFormedName(c) && (x == c || !Owns(c, x))
    ensures !IndexedBy(x, c, gs)
  {
    forall g | g in gs
      ensures x != IndexCfName(c, g)
    {
      OwnedOnly(c, g);
    }
  }

  ghost function HandledOf(s: Families, c: Str, doc: Doc): (gs: seq<Str>)
    requires WellFormedName(c)
    ensures forall g :: g in gs ==> g in doc.data && Scalar(doc.data[g]) && IndexCfName(c, g) in s
  {
    ListedIndexes(s, c);
    Handled(doc, Indexes(s, c))
  }

  /** One index family after the put loop, and after the remove loop. */
  lemma PutLoopAt(s: Families, c: Str, doc: Doc, f: Str)
    requires Sound(s, c) && HASH !in doc.id && IndexCfName(c, f) in s
    ensures var x := IndexCfName(c, f); var t := ApplyAll(s, EntryPuts(c, doc, HandledOf(s, c, doc)));
            && x in t && SoundIndex(t[x])
            && EntriesOf(t[x]) == EntriesOf(s[x]) + NewEntries(doc, Indexed(s, c), f)
  {
    var gs := HandledOf(s, c, doc);
    EntryPutsEffect(s, c, doc, gs);
    assert f in gs <==> Reached(doc, Indexed(s, c), f) by {
      ListedIndexes(s, c);
      HandledMembers(doc, Indexes(s, c), f);
    }
    if f in gs {
      EntryPutEffect(s[IndexCfName(c, f)], doc, f);
    } else {
      NotIndexedBy(c, f, gs);
    }
  }

  lemma RemoveLoopAt(s: Families, c: Str, doc: Doc, f: Str)
    requires Sound(s, c) && HASH !in doc.id && IndexCfName(c, f) in s
    ensures var x := IndexCfName(c, f); var t := ApplyAll(s, EntryRemoves(c, doc, HandledOf(s, c, doc)));
            && x in t && SoundIndex(t[x])
            && EntriesOf(t[x]) == EntriesOf(s[x]) - NewEntries(doc, Indexed(s, c), f)
  {
    var gs := HandledOf(s, c, doc);
    EntryRemovesEffect(s, c, doc, gs);
    assert f in gs <==> Reached(doc, Indexed(s, c), f) by {
      ListedIndexes(s, c);
      HandledMembers(doc, Indexes(s, c), f);
    }
    if f in gs {
      EntryRemoveEffect(s[IndexCfName(c, f)], doc, f);
    } else {
      NotIndexedBy(c, f, gs);
    }
  }

  /** Neither loop touches anything but the collection's index families. */
  lemma LoopsElsewhere(s: Families, c: Str, doc: Doc)
    requires WellFormedName(c)
    ensures var gs := HandledOf(s, c, doc);
            var t, u := ApplyAll(s, EntryPuts(c, doc, gs)), ApplyAll(s, EntryRemoves(c, doc, gs));
            && t.Keys == s.Keys && SameElsewhere(s, t, c) && (c in s ==> t[c] == s[c])
            && u.Keys == s.Keys && SameElsewhere(s, u, c) && (c in s ==> u[c] == s[c])
  {
    var gs := HandledOf(s, c, doc);
    EntryPutsEffect(s, c, doc, gs);
    EntryRemovesEffect(s, c, doc, gs);
    forall x | x in s && (x == c || !Owns(c, x))
      ensures !IndexedBy(x, c, gs)
    {
      NotOwnedNotIndexed(c, x, gs);
    }
  }

  /** A store is the put loop, then the document unless the loop threw; a delete likewise. */
  lemma StoreShape(s: Families, c: Str, doc: Doc)
    requires WellFormedName(c)
    ensures var s1 := ApplyAll(s, EntryPuts(c, doc, HandledOf(s, c, doc)));
            ApplyAll(s, StoreWrites(s, c, doc)) ==
            if Clean(doc, Indexed(s, c)) then Apply(s1, Write.Put(c, doc.id, Packed(doc))) else s1
  {
    var puts := EntryPuts(c, doc, HandledOf(s, c, doc));
    var clean := Convertible(doc, Indexes(s, c));
    assert clean <==> Clean(doc, Indexed(s, c)) by {
      ListedIndexes(s, c);
    }
    ApplyAllConcat(s, puts, if clean then [Write.Put(c, doc.id, Packed(doc))] else []);
  }

  lemma EraseShape(s: Families, c: Str, id: Str)
    requires WellFormedName(c) && ReadStatus(s, c, id) == OK
    ensures var doc := ReadDocument(s, c, id); var s1 := ApplyAll(s, EntryRemoves(c, doc, HandledOf(s, c, doc)));
            ApplyAll(s, EraseWrites(s, c, id)) ==
            if Clean(doc, Indexed(s, c)) then Apply(s1, Write.Remove(c, id)) else s1
  {
    var doc := ReadDocument(s, c, id);
    var removes := EntryRemoves(c, doc, HandledOf(s, c, doc));
    var clean := Convertible(doc, Indexes(s, c));
    assert clean <==> Clean(doc, Indexed(s, c)) by {
      ListedIndexes(s, c);
    }
    ApplyAllConcat(s, removes, if clean then [Write.Remove(c, id)] else []);
  }

  lemma StoreRefines(s: Families, c: Str, doc: Doc)
    requires Sound(s, c) && HASH !in doc.id
    ensures var t := ApplyAll(s, StoreWrites(s, c, doc));
            Sound(t, c) && SameElsewhere(s, t, c) && ViewOf(t, c) == AStore(ViewOf(s, c), doc)
  {
    var t := ApplyAll(s, StoreWrites(s, c, doc));
    StoreShape(s, c, doc);
    LoopsElsewhere(s, c, doc);
    forall f | IndexCfName(c, f) in s
      ensures SoundIndex(t[IndexCfName(c, f)])
      ensures EntriesOf(t[IndexCfName(c, f)]) ==
              EntriesOf(s[IndexCfName(c, f)]) + NewEntries(doc, Indexed(s, c), f)
    {
      OwnedOnly(c, f);
      PutLoopAt(s, c, doc, f);
    }
    StoreView(s, c, doc, t);
  }

  lemma StoreView(s: Families, c: Str, doc: Doc, t: Families)
    requires WellFormedName(c) && t.Keys == s.Keys && (c in s ==> SoundDocs(s[c]))
    requires c in s ==> t[c] == if Clean(doc, Indexed(s, c)) then s[c][doc.id := Packed(doc)] else s[c]
    requires forall f :: IndexCfName(c, f) in s ==>
               EntriesOf(t[IndexCfName(c, f)]) ==
               EntriesOf(s[IndexCfName(c, f)]) + NewEntries(doc, Indexed(s, c), f)
    ensures ViewOf(t, c) == AStore(ViewOf(s, c), doc)
  {
    ViewIndexes(s, c);
    assert DocsOf(t, c) == AStore(ViewOf(s, c), doc).docs;
    ViewFromParts(t, c, AStore(ViewOf(s, c), doc));
  }

  lemma DeleteRefines(s: Families, c: Str, id: Str)
    requires Sound(s, c)
    ensures var t := DeleteDocument(s, c, id).0;
            Sound(t, c) && SameElsewhere(s, t, c) && ViewOf(t, c) == ADelete(ViewOf(s, c), id)
  {
    if ReadStatus(s, c, id) == OK {
      var doc, t := ReadDocument(s, c, id), ApplyAll(s, EraseWrites(s, c, id));
      EraseShape(s, c, id);
      LoopsElsewhere(s, c, doc);
      forall f | IndexCfName(c, f) in s
        ensures SoundIndex(t[IndexCfName(c, f)])
        ensures EntriesOf(t[IndexCfName(c, f)]) ==
                EntriesOf(s[IndexCfName(c, f)]) - NewEntries(doc, Indexed(s, c), f)
      {
        OwnedOnly(c, f);
        RemoveLoopAt(s, c, doc, f);
      }
      DeleteView(s, c, id, t);
    }
  }

  lemma DeleteView(s: Families, c: Str, id: Str, t: Families)
    requires WellFormedName(c) && t.Keys == s.Keys && c in s && id in s[c] && SoundDocs(s[c])
    requires t[c] == if Clean(s[c][id].doc, Indexed(s, c)) then s[c] - {id} else s[c]
    requires forall f :: IndexCfName(c, f) in s ==>
               EntriesOf(t[IndexCfName(c, f)]) ==
               EntriesOf(s[IndexCfName(c, f)]) - NewEntries(s[c][id].doc, Indexed(s, c), f)
    ensures ViewOf(t, c) == ADelete(ViewOf(s, c), id)
  {
    ViewIndexes(s, c);
    assert DocsOf(t, c) == ADelete(ViewOf(s, c), id).docs;
    ViewFromParts(t, c, ADelete(ViewOf(s, c), id));
  }

  ghost function EntriesIn(s: Families, x: Str): set<Entry> {
    if x in s then EntriesOf(s[x]) else {}
  }

  ghost predicate OnlyFamilyDiffers(s: Families, t: Families, x: Str) {
    t.Keys == s.Keys + {x} && forall y :: y in s && y != x ==> t[y] == s[y]
  }

  lemma BuildAt(s: Families, c: Str, f: Str)
    requires Sound(s, c)
    ensures var x := IndexCfName(c, f); var t := CreateIndex(s, c, f).0;
            && OnlyFamilyDiffers(s, t, x) && SoundIndex(t[x])
            && EntriesOf(t[x]) == EntriesIn(s, x) + CurrentEntries(DocsOf(s, c), f)
  {
    var x := IndexCfName(c, f);
    var s1 := WithFamily(s, x);
    assert EntriesOf(s1[x]) == EntriesIn(s, x);
    if c in s {
      var ks := Sorted(s[c].Keys);
      SortedEnumerates(s[c].Keys);
      var js := HandledKeys(f, s[c], ks);
      forall j | j in js
        ensures HasEntry(s[c], f, j)
      {
        HandledKeysMembers(f, s[c], ks, j);
      }
      BuildWritesEffect(s1, c, f, s[c], js);
      assert EntriesFor(s[c], f, js) == CurrentEntries(DocsOf(s, c), f) by {
        BuiltEntries(s, c, f, ks, js);
      }
    }
  }

  lemma BuiltEntries(s: Families, c: Str, f: Str, ks: seq<Str>, js: seq<Str>)
    requires Sound(s, c) && c in s && ks == Sorted(s[c].Keys)
    requires js == HandledKeys(f, s[c], ks) && forall j :: j in js ==> HasEntry(s[c], f, j)
    ensures EntriesFor(s[c], f, js) == CurrentEntries(DocsOf(s, c), f)
  {
    var docs := DocsOf(s, c);
    forall i
      ensures i in js <==> i in docs && BuildReaches(docs, f, i)
    {
      BuiltEntry(s, c, f, ks, i);
    }
  }

  lemma BuiltEntry(s: Families, c: Str, f: Str, ks: seq<Str>, i: Str)
    requires Sound(s, c) && c in s && ks == Sorted(s[c].Keys)
    ensures i in HandledKeys(f, s[c], ks) <==> i in DocsOf(s, c) && BuildReaches(DocsOf(s, c), f, i)
  {
    SortedEnumerates(s[c].Keys);
    HandledKeysMembers(f, s[c], ks, i);
  }

  lemma BuildRefines(s: Families, c: Str, f: Str)
    requires Sound(s, c)
    ensures var t := CreateIndex(s, c, f).0;
            Sound(t, c) && SameElsewhere(s, t, c) && ViewOf(t, c) == ABuild(ViewOf(s, c), f)
  {
    OwnedOnly(c, f);
    BuildAt(s, c, f);
    forall g
      ensures g != f ==> IndexCfName(c, g) != IndexCfName(c, f)
    {
      IndexCfNamesDistinct(c, g, c, f);
    }
    OthersSame(s, CreateIndex(s, c, f).0, IndexCfName(c, f), c);
    BuildView(s, c, f, CreateIndex(s, c, f).0);
  }

  lemma OthersSame(s: Families, t: Families, x: Str, y: Str)
    requires OnlyFamilyDiffers(s, t, x) && x != y
    ensures (y in t <==> y in s) && (y in s ==> t[y] == s[y])
    ensures DocsOf(t, y) == DocsOf(s, y)
  {
  }

  lemma BuildView(s: Families, c: Str, f: Str, t: Families)
    requires WellFormedName(c) && OnlyFamilyDiffers(s, t, IndexCfName(c, f))
    requires EntriesOf(t[IndexCfName(c, f)]) == EntriesIn(s, IndexCfName(c, f)) + CurrentEntries(DocsOf(s, c), f)
    ensures ViewOf(t, c) == ABuild(ViewOf(s, c), f)
  {
    var v, x := ViewOf(s, c), IndexCfName(c, f);
    var index := v.index[f := EntriesOf(t[x])];
    assert EntriesIn(s, x) == if f in v.index then v.index[f] else {} by {
      ViewIndexes(s, c);
    }
    OwnedOnly(c, f);
    OthersSame(s, t, x, c);
    forall g
      ensures g in index <==> IndexCfName(c, g) in t
      ensures g in index ==> index[g] == EntriesOf(t[IndexCfName(c, g)])
    {
      ViewIndexes(s, c);
      if g != f {
        IndexCfNamesDistinct(c, g, c, f);
        OthersSame(s, t, x, IndexCfName(c, g));
      }
    }
    ViewFromParts(t, c, View(v.present, v.docs, index));
  }

  lemma DropView(s: Families, c: Str, f: Str, t: Families)
    requires WellFormedName(c) && t == s - {IndexCfName(c, f)}
    ensures ViewOf(t, c) == ADrop(ViewOf(s, c), f)
  {
    ViewIndexes(s, c);
    OwnedOnly(c, f);
    forall g
      ensures IndexCfName(c, g) in t <==> IndexCfName(c, g) in s && g != f
    {
      IndexCfNamesDistinct(c, g, c, f);
    }
    assert DocsOf(t, c) == DocsOf(s, c);
    ViewFromParts(t, c, ADrop(ViewOf(s, c), f));
  }

  lemma DropRefines(s: Families, c: Str, f: Str)
    requires Sound(s, c)
    ensures var t := DeleteIndex(s, c, f).0;
            Sound(t, c) && SameElsewhere(s, t, c) && ViewOf(t, c) == ADrop(ViewOf(s, c), f)
  {
    OwnedOnly(c, f);
    DropView(s, c, f, DeleteIndex(s, c, f).0);
  }

  /** Refinement: every operation, also one that fails or throws half-way, changes the stored
      families exactly as the abstract step changes the view, keeps them well formed, and touches
      no family of another collection. */
  lemma StepRefines(s: Families, c: Str, op: Op)
    requires Sound(s, c) && HashFreeIds(op)
    ensures Sound(Step(s, c, op).0, c)
    ensures SameElsewhere(s, Step(s, c, op).0, c)
    ensures ViewOf(Step(s, c, op).0, c) == AStep(ViewOf(s, c), op)
  {
    match op {
      case Create(doc, freshId) =>
        StoreRefines(s, c, Prepare(doc, freshId));
      case Delete(id) =>
        DeleteRefines(s, c, id);
      case Update(id, change, upsert, freshId) =>
        var doc := UpdateBase(s, c, id);
        if UpdateProceeds(s, c, id, upsert) && change(doc.data).Some? {
          StoreRefines(s, c, Prepare(Doc(doc.id, change(doc.data).value), freshId));
        }
      case BuildIndex(f) =>
        BuildRefines(s, c, f);
      case DropIndex(f) =>
        DropRefines(s, c, f);
    }
  }

  /** The index of every reachable state is the image of its history. */
  lemma {:induction false} RunRefines(s: Families, c: Str, ops: seq<Op>)
    requires Sound(s, c) && forall i :: 0 <= i < |ops| ==> HashFreeIds(ops[i])
    ensures Sound(Run(s, c, ops), c)
    ensures SameElsewhere(s, Run(s, c, ops), c)
    ensures ViewOf(Run(s, c, ops), c) == ARun(ViewOf(s, c), ops)
    decreases |ops|
  {
    if ops != [] {
      StepRefines(s, c, ops[0]);
      RunRefines(Step(s, c, ops[0]).0, c, ops[1..]);
    }
  }

  /** The view is the whole state: well-formed families with the same view agree byte for byte. */
  lemma ViewDetermines(s: Families, t: Families, c: Str)
    requires Sound(s, c) && Sound(t, c) && ViewOf(s, c) == ViewOf(t, c) && SameElsewhere(s, t, c)
    ensures s == t
  {
    forall x
      ensures (x in s <==> x in t) && (x in s && x in t ==> s[x] == t[x])
    {
      if x == c {
        if c in s {
          DocsDetermine(s, t, c);
        }
      } else if Owns(c, x) {
        OwnedIndexDetermined(s, t, c, x);
      }
    }
  }

  lemma OwnedIndexDetermined(s: Families, t: Families, c: Str, x: Str)
    requires Sound(s, c) && Sound(t, c) && ViewOf(s, c).index == ViewOf(t, c).index && x != c && Owns(c, x)
    ensures (x in s <==> x in t) && (x in s && x in t ==> s[x] == t[x])
  {
    var f := ParseCf(x).1;
    ParsedNameRebuilds(x);
    ViewIndexes(s, c);
    ViewIndexes(t, c);
    assert x == IndexCfName(c, f);
    if x in s && x in t {
      EntriesDetermine(s[x], t[x]);
    }
  }

  lemma EntriesDetermine(a: Family, b: Family)
    requires SoundIndex(a) && SoundIndex(b) && EntriesOf(a) == EntriesOf(b)
    ensures a == b
  {
    forall k
      ensures k in a <==> k in b
    {
      SameEntriesSameKey(a, b, k);
      SameEntriesSameKey(b, a, k);
    }
  }

  lemma SameEntriesSameKey(a: Family, b: Family, k: Str)
    requires SoundIndex(a) && SoundIndex(b) && EntriesOf(a) == EntriesOf(b)
    ensures k in a ==> k in b
  {
    if k in a {
      assert SplitKey(k) in EntriesOf(b);
      var m :| m in b && SplitKey(m) == SplitKey(k);
      JoinSplitKey(k);
      JoinSplitKey(m);
    }
  }

  lemma DocsDetermine(s: Families, t: Families, c: Str)
    requires c in s && c in t && SoundDocs(s[c]) && SoundDocs(t[c]) && DocsOf(s, c) == DocsOf(t, c)
    ensures s[c] == t[c]
  {
    assert DocsOf(s, c).Keys == s[c].Keys && DocsOf(t, c).Keys == t[c].Keys;
    forall k | k in s[c]
      ensures s[c][k] == t[c][k]
    {
      assert DocsOf(s, c)[k] == DocsOf(t, c)[k];
    }
  }
}
