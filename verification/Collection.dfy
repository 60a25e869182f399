/** The collection object: its methods run the loops of the source against the engine and are
    proved to do what the operations on families say. */
module Collection {
  import opened Bytes
  import opened Json
  import opened StorageEngine
  import opened IndexKeys
  import opened Naming
  import opened CollectionOps
  import opened History
  import opened Query
  import Cursors = Cursor
  import Documents = Document
  import UpdateLanguage

  // ---------- generateId ----------

  /** The characters ids are drawn from: digits, capitals, small letters, and after them the NUL
      that ends the array and that a time stamp digit can select. */
  function Alphanum(i: nat): (ch: byte)
    requires i < 63
    ensures ch != HASH
  {
    if i < 10 then (48 + i) as byte
    else if i < 36 then (65 + i - 10) as byte
    else if i < 62 then (97 + i - 36) as byte
    else 0
  }

  /** Twelve characters, none of them `#`, whatever the clock and the random numbers are. */
  method GenerateId(time: nat, randoms: seq<nat>) returns (id: Str)
    requires |randoms| == 4
    ensures |id| == 12 && HASH !in id
  {
    id := [];
    var timestamp := time;
    for i := 0 to 8
      invariant |id| == i && HASH !in id
    {
      id := id + [Alphanum(timestamp % 63)];
      timestamp := timestamp / 63;
    }
    for i := 8 to 12
      invariant |id| == i && HASH !in id
    {
      id := id + [Alphanum(randoms[i - 8] % 62)];
    }
  }

  // ---------- the loops, one iteration at a time ----------

  lemma LoopStep(doc: Doc, fs: seq<Str>)
    requires fs != []
    ensures Convertible(doc, fs) <==> (fs[0] in doc.data ==> Scalar(doc.data[fs[0]])) && Convertible(doc, fs[1..])
    ensures Handled(doc, fs) ==
            if fs[0] !in doc.data then Handled(doc, fs[1..])
            else if Scalar(doc.data[fs[0]]) then [fs[0]] + Handled(doc, fs[1..])
            else []
  {
    assert forall f :: f in fs <==> f == fs[0] || f in fs[1..];
  }

  lemma PutsCons(s: Families, c: Str, doc: Doc, g: Str, gs: seq<Str>)
    requires forall h :: h in [g] + gs ==> h in doc.data && Scalar(doc.data[h])
    ensures g in doc.data && Scalar(doc.data[g]) && forall h :: h in gs ==> h in doc.data && Scalar(doc.data[h])
    ensures ApplyAll(s, EntryPuts(c, doc, [g] + gs)) == ApplyAll(Apply(s, EntryPut(c, doc, g)), EntryPuts(c, doc, gs))
    ensures ApplyAll(s, EntryRemoves(c, doc, [g] + gs)) == ApplyAll(Apply(s, EntryRemove(c, doc, g)), EntryRemoves(c, doc, gs))
  {
    assert g in [g] + gs && forall h :: h in gs ==> h in [g] + gs;
    assert ([g] + gs)[1..] == gs;
    assert EntryPuts(c, doc, [g] + gs)[1..] == EntryPuts(c, doc, gs);
    assert EntryRemoves(c, doc, [g] + gs)[1..] == EntryRemoves(c, doc, gs);
  }

  /** The cursor loop of `createIndex`, round by round: the families it leaves, and whether it came to
      its end. */
  ghost function BuildLoop(s: Families, c: Str, f: Str, fam: Family, ks: seq<Str>): (Families, bool)
    requires forall k :: k in ks ==> k in fam
    decreases |ks|
  {
    if ks == [] then (s, true)
    else if !Indexable(fam[ks[0]], f) then (s, false)
    else BuildLoop(if f in fam[ks[0]].doc.data then Apply(s, EntryPut(c, fam[ks[0]].doc, f)) else s, c, f, fam, ks[1..])
  }

  lemma {:induction false} BuildLoopIs(s: Families, c: Str, f: Str, fam: Family, ks: seq<Str>)
    requires forall k :: k in ks ==> k in fam
    ensures BuildLoop(s, c, f, fam, ks).0 == ApplyAll(s, BuildWrites(c, f, fam, HandledKeys(f, fam, ks)))
    ensures BuildLoop(s, c, f, fam, ks).1 <==> forall k :: k in ks ==> Indexable(fam[k], f)
    decreases |ks|
  {
    if ks != [] && Indexable(fam[ks[0]], f) {
      var js, next := HandledKeys(f, fam, ks), if f in fam[ks[0]].doc.data then Apply(s, EntryPut(c, fam[ks[0]].doc, f)) else s;
      assert forall k :: k in ks <==> k == ks[0] || k in ks[1..];
      BuildLoopIs(next, c, f, fam, ks[1..]);
      if f in fam[ks[0]].doc.data {
        assert js[1..] == HandledKeys(f, fam, ks[1..]);
        assert BuildWrites(c, f, fam, js)[1..] == BuildWrites(c, f, fam, js[1..]);
      }
    }
  }

  lemma CreateIndexShape(s: Families, c: Str, f: Str)
    requires c in s
    ensures var ks := Sorted(s[c].Keys);
            && (forall k :: k in ks ==> k in s[c])
            && var (t, all) := BuildLoop(WithFamily(s, IndexCfName(c, f)), c, f, s[c], ks);
               CollectionOps.CreateIndex(s, c, f) == (t, if all then OK else Corruption)
  {
    SortedEnumerates(s[c].Keys);
    BuildLoopIs(WithFamily(s, IndexCfName(c, f)), c, f, s[c], Sorted(s[c].Keys));
  }

  lemma ListedExist(s: Families, c: Str)
    ensures forall f :: f in Indexes(s, c) ==> IndexCfName(c, f) in s
  {
    SortedEnumerates(IndexNames(s.Keys, c));
    forall f | f in IndexNames(s.Keys, c)
      ensures IndexCfName(c, f) in s
    {
      var x :| x in s && IsIndexCf(x) && ParseCf(x) == (c, f);
      ParsedNameRebuilds(x);
    }
  }

  class Collection {
    const name: Str
    const engine: StorageEngine

    constructor (name: Str, engine: StorageEngine)
      ensures this.name == name && this.engine == engine
    {
      this.name, this.engine := name, engine;
    }

    method ReadDocument(id: Str) returns (status: Status, doc: Option<Doc>)
      ensures status == ReadStatus(engine.families, name, id)
      ensures status == OK ==> doc == Some(CollectionOps.ReadDocument(engine.families, name, id))
      ensures status != OK ==> doc == None
    {
      var got, value := engine.Get(name, id);
      if got != OK {
        return got, None;
      }
      match value.value {
        case Packed(d) =>
          return OK, Some(d);
        case Raw(_) =>
          return Corruption, None;
      }
    }

    /** The id of the document object is filled in as the source does, and its stored form follows
        its index entries. */
    method CreateDocument(doc: Documents.Document, freshId: Str) returns (status: Status)
      modifies engine, doc
      ensures var given := Doc(old(doc.id), old(doc.data));
              && Doc(doc.id, doc.data) == Prepare(given, freshId)
              && (engine.families, status) == CollectionOps.CreateDocument(old(engine.families), name, given, freshId)
    {
      if doc.id == [] {
        doc.id := freshId;
      }
      if ID_FIELD !in doc.data {
        doc.SetValue(ID_FIELD, Text(doc.id));
      }
      var d := Doc(doc.id, doc.data);
      status := Store(d);
    }

    /** The write loop and the final put of `createDocument`. */
    method Store(d: Doc) returns (status: Status)
      modifies engine
      ensures engine.families == ApplyAll(old(engine.families), StoreWrites(old(engine.families), name, d))
      ensures status == StoreStatus(old(engine.families), name, d)
    {
      ghost var before := engine.families;
      var listed := engine.GetIndexNames(name);
      var fs := Sorted(listed);
      ListedExist(before, name);
      ghost var last := if Convertible(d, fs) then [Write.Put(name, d.id, Packed(d))] else [];
      ApplyAllConcat(before, EntryPuts(name, d, Handled(d, fs)), last);
      status := PutEntries(d, fs);
      if status == OK {
        status := engine.Put(name, d.id, Packed(d));
      }
    }

    method InsertIfIndexFieldExists(d: Doc, f: Str) returns (status: Status)
      requires f in d.data
      modifies engine
      ensures Scalar(d.data[f]) ==>
                && engine.families == Apply(old(engine.families), EntryPut(name, d, f))
                && status == if IndexCfName(name, f) in old(engine.families) then OK else NotFound
      ensures !Scalar(d.data[f]) ==> engine.families == old(engine.families) && status == Exception
    {
      var e := EncodeValue(d.data[f]);
      if e.None? {
        return Exception;
      }
      status := engine.Put(IndexCfName(name, f), IndexKey(e.value, d.id), Raw(d.id));
    }

    method DeleteIfIndexFieldExists(d: Doc, f: Str) returns (status: Status)
      requires f in d.data
      modifies engine
      ensures Scalar(d.data[f]) ==>
                && engine.families == Apply(old(engine.families), EntryRemove(name, d, f))
                && status == if IndexCfName(name, f) in old(engine.families) then OK else NotFound
      ensures !Scalar(d.data[f]) ==> engine.families == old(engine.families) && status == Exception
    {
      var e := EncodeValue(d.data[f]);
      if e.None? {
        return Exception;
      }
      status := engine.Remove(IndexCfName(name, f), IndexKey(e.value, d.id));
    }

    /** One round of the index loop of `createDocument`, for the first of the fields still to come. */
    method PutEntry(d: Doc, fs: seq<Str>) returns (status: Status)
      requires fs != [] && IndexCfName(name, fs[0]) in engine.families
      modifies engine
      ensures engine.families.Keys == old(engine.families.Keys)
      ensures Convertible(d, fs) <==> status == OK && Convertible(d, fs[1..])
      ensures status == OK || status == Exception
      ensures ApplyAll(old(engine.families), EntryPuts(name, d, Handled(d, fs))) ==
              if status == OK then ApplyAll(engine.families, EntryPuts(name, d, Handled(d, fs[1..]))) else engine.families
    {
      LoopStep(d, fs);
      status := OK;
      if fs[0] in d.data {
        if Scalar(d.data[fs[0]]) {
          PutsCons(engine.families, name, d, fs[0], Handled(d, fs[1..]));
        }
        status := InsertIfIndexFieldExists(d, fs[0]);
      }
    }

    method PutEntries(d: Doc, fs: seq<Str>) returns (status: Status)
      requires forall f :: f in fs ==> IndexCfName(name, f) in engine.families
      modifies engine
      ensures engine.families == ApplyAll(old(engine.families), EntryPuts(name, d, Handled(d, fs)))
      ensures engine.families.Keys == old(engine.families.Keys)
      ensures status == if Convertible(d, fs) then OK else Exception
    {
      ghost var target := ApplyAll(engine.families, EntryPuts(name, d, Handled(d, fs)));
      var rest := fs;
      while rest != []
        invariant engine.families.Keys == old(engine.families.Keys)
        invariant forall f :: f in rest ==> IndexCfName(name, f) in engine.families
        invariant ApplyAll(engine.families, EntryPuts(name, d, Handled(d, rest))) == target
        invariant Convertible(d, fs) <==> Convertible(d, rest)
        decreases |rest|
      {
        status := PutEntry(d, rest);
        if status != OK {
          return;
        }
        rest := rest[1..];
      }
      status := OK;
    }

    /** One round of the index loop of `deleteDocument`. */
    method RemoveEntry(d: Doc, fs: seq<Str>) returns (status: Status)
      requires fs != [] && IndexCfName(name, fs[0]) in engine.families
      modifies engine
      ensures engine.families.Keys == old(engine.families.Keys)
      ensures Convertible(d, fs) <==> status == OK && Convertible(d, fs[1..])
      ensures status == OK || status == Exception
      ensures ApplyAll(old(engine.families), EntryRemoves(name, d, Handled(d, fs))) ==
              if status == OK then ApplyAll(engine.families, EntryRemoves(name, d, Handled(d, fs[1..]))) else engine.families
    {
      LoopStep(d, fs);
      status := OK;
      if fs[0] in d.data {
        if Scalar(d.data[fs[0]]) {
          PutsCons(engine.families, name, d, fs[0], Handled(d, fs[1..]));
        }
        status := DeleteIfIndexFieldExists(d, fs[0]);
      }
    }

    method RemoveEntries(d: Doc, fs: seq<Str>) returns (status: Status)
      requires forall f :: f in fs ==> IndexCfName(name, f) in engine.families
      modifies engine
      ensures engine.families == ApplyAll(old(engine.families), EntryRemoves(name, d, Handled(d, fs)))
      ensures engine.families.Keys == old(engine.families.Keys)
      ensures status == if Convertible(d, fs) then OK else Exception
    {
      ghost var target := ApplyAll(engine.families, EntryRemoves(name, d, Handled(d, fs)));
      var rest := fs;
      while rest != []
        invariant engine.families.Keys == old(engine.families.Keys)
        invariant forall f :: f in rest ==> IndexCfName(name, f) in engine.families
        invariant ApplyAll(engine.families, EntryRemoves(name, d, Handled(d, rest))) == target
        invariant Convertible(d, fs) <==> Convertible(d, rest)
        decreases |rest|
      {
        status := RemoveEntry(d, rest);
        if status != OK {
          return;
        }
        rest := rest[1..];
      }
      status := OK;
    }

    method DeleteDocument(id: Str) returns (status: Status)
      modifies engine
      ensures (engine.families, status) == CollectionOps.DeleteDocument(old(engine.families), name, id)
    {
      var read, found := ReadDocument(id);
      if read != OK {
        return read;
      }
      var d := found.value;
      ghost var before := engine.families;
      var listed := engine.GetIndexNames(name);
      var fs := Sorted(listed);
      ListedExist(before, name);
      ghost var last := if Convertible(d, fs) then [Write.Remove(name, id)] else [];
      ApplyAllConcat(before, EntryRemoves(name, d, Handled(d, fs)), last);
      status := RemoveEntries(d, fs);
      if status == OK {
        status := engine.Remove(name, id);
      }
    }

    method CreateIndex(index: Str) returns (status: Status)
      modifies engine
      ensures (engine.families, status) == CollectionOps.CreateIndex(old(engine.families), name, index)
    {
      var x := IndexCfName(name, index);
      assert x != name by {
        assert |x| > |name|;
      }
      ghost var before := engine.families;
      var _ := engine.CreateCollection(x);
      assert engine.families == WithFamily(before, x);
      var cursor := new Cursors.Cursor(name, engine);
      if name !in engine.families {
        return OK;
      }
      CreateIndexShape(before, name, index);
      status := FillIndex(cursor, index, before[name], Sorted(before[name].Keys));
    }

    /** One round of the cursor loop: the document under the cursor gets its entry. */
    method IndexCurrent(cursor: Cursors.Cursor, index: Str) returns (ok: bool)
      requires cursor.Inv() && cursor.valid && IndexCfName(name, index) in engine.families
      modifies engine
      ensures IndexCfName(name, index) in engine.families
      ensures var v := cursor.walk.family[cursor.Remaining()[0]];
              && (ok <==> Indexable(v, index))
              && engine.families ==
                 if ok && index in v.doc.data then Apply(old(engine.families), EntryPut(name, v.doc, index))
                 else old(engine.families)
    {
      var read, current := cursor.Current();
      if read != OK {
        return false;
      }
      ok := true;
      if index in current.value.data {
        var put := InsertIfIndexFieldExists(current.value, index);
        ok := put == OK;
      }
    }

    /** The cursor loop: it visits the documents in id order, each exactly once, and a value that
        cannot be indexed ends it with a caught exception. */
    method FillIndex(cursor: Cursors.Cursor, index: Str, ghost fam: Family, ghost ks: seq<Str>) returns (status: Status)
      requires cursor.Inv() && cursor.walk != null && cursor.walk.family == fam
      requires cursor.Remaining() == ks && forall k :: k in ks ==> k in fam
      requires IndexCfName(name, index) in engine.families
      modifies engine, cursor, cursor.walk
      ensures (engine.families, status == OK) == BuildLoop(old(engine.families), name, index, fam, ks)
      ensures status == OK || status == Corruption
    {
      ghost var target := BuildLoop(engine.families, name, index, fam, ks);
      ghost var rest := ks;
      var more := cursor.IsValid();
      while more
        invariant cursor.Inv() && cursor.Remaining() == rest && more == (rest != [])
        invariant forall k :: k in rest ==> k in fam
        invariant IndexCfName(name, index) in engine.families
        invariant BuildLoop(engine.families, name, index, fam, rest) == target
        decreases |rest|
      {
        assert rest[0] in fam;
        var ok := IndexCurrent(cursor, index);
        if !ok {
          return Corruption;
        }
        cursor.Next();
        rest := rest[1..];
        more := cursor.IsValid();
      }
      status := OK;
    }

    method DeleteIndex(index: Str) returns (status: Status)
      modifies engine
      ensures (engine.families, status) == CollectionOps.DeleteIndex(old(engine.families), name, index)
    {
      status := engine.DropCollection(IndexCfName(name, index));
    }

    /** The body of `updateDocument`, which the source runs under the collection's lock. */
    method UpdateDocument(eq: UpdateLanguage.Equality, id: Str, update: seq<UpdateLanguage.UpdateOp>, upsert: bool,
                          freshId: Str) returns (status: Status)
      modifies engine
      ensures (engine.families, status) ==
              CollectionOps.UpdateDocument(old(engine.families), name, id,
                                           data => UpdateLanguage.ApplyUpdate(eq, data, update), upsert, freshId)
    {
      var read, found := ReadDocument(id);
      var doc := new Documents.Document(id, map[]);
      if read == NotFound {
        if !upsert {
          return read;
        }
        doc.SetValue(ID_FIELD, Text(id));
        assert doc.data == map[ID_FIELD := Text(id)];
      } else if read != OK {
        return read;
      } else {
        doc.id, doc.data := found.value.id, found.value.data;
      }
      assert Doc(doc.id, doc.data) == UpdateBase(engine.families, name, id);
      var ok := doc.ApplyUpdate(eq, update);
      if !ok {
        return Exception;
      }
      status := CreateDocument(doc, freshId);
    }

    // ---------- findDocument ----------

    method FindDocumentsUsingEq(field: Str, operand: Json, listed: set<Str>, docIds: seq<Str>)
      returns (status: Status, result: seq<Str>)
      requires Sound(engine.families, name) && listed == IndexNames(engine.families.Keys, name)
      ensures Answers(EvalClause(engine.families, name, Clause(Eq, field, operand)), docIds, status, result)
    {
      var value := EncodeValue(operand);
      if value.None? {
        return Exception, docIds;
      }
      if field !in listed {
        return InvalidArgument, docIds;
      }
      status, result := engine.FetchDocIdsForEqual(IndexCfName(name, field), Term(value.value), docIds);
    }

    method FindDocumentsUsingLt(field: Str, operand: Json, docIds: seq<Str>)
      returns (status: Status, result: seq<Str>)
      requires Sound(engine.families, name)
      ensures Answers(EvalClause(engine.families, name, Clause(Lt, field, operand)), docIds, status, result)
    {
      var value := EncodeValue(operand);
      if value.None? {
        return Exception, docIds;
      }
      if value.value == [] {
        return InvalidArgument, docIds;
      }
      status, result := engine.FetchDocIdsForLesser(IndexCfName(name, field), Term(value.value), docIds);
    }

    method FindDocumentsUsingGt(field: Str, operand: Json, docIds: seq<Str>)
      returns (status: Status, result: seq<Str>)
      requires Sound(engine.families, name)
      ensures Answers(EvalClause(engine.families, name, Clause(Gt, field, operand)), docIds, status, result)
    {
      var value := EncodeValue(operand);
      if value.None? {
        return Exception, docIds;
      }
      if value.value == [] {
        return InvalidArgument, docIds;
      }
      status, result := engine.FetchDocIdsForGreater(IndexCfName(name, field), Term(value.value), docIds);
    }

    /** The operator dispatch that top-level comparisons and the clauses of `$and` and `$or` share. */
    method FindUsing(clause: Clause, listed: set<Str>, docIds: seq<Str>) returns (status: Status, result: seq<Str>)
      requires Sound(engine.families, name) && listed == IndexNames(engine.families.Keys, name)
      ensures Answers(EvalClause(engine.families, name, clause), docIds, status, result)
    {
      match clause.op {
        case Eq =>
          status, result := FindDocumentsUsingEq(clause.field, clause.operand, listed, docIds);
        case Gt =>
          status, result := FindDocumentsUsingGt(clause.field, clause.operand, docIds);
        case Lt =>
          status, result := FindDocumentsUsingLt(clause.field, clause.operand, docIds);
        case Unsupported =>
          return InvalidArgument, docIds;
      }
    }

    /** The answer of one clause, as a value. */
    method AnswerClause(clause: Clause, listed: set<Str>) returns (answer: Answer<seq<Str>>)
      requires Sound(engine.families, name) && listed == IndexNames(engine.families.Keys, name)
      ensures answer == EvalClause(engine.families, name, clause)
    {
      var status, docIds := FindUsing(clause, listed, []);
      if status == OK {
        answer := Found(docIds);
        ghost var ids := EvalClause(engine.families, name, clause).ids;
        assert [] + ids == ids;
      } else {
        answer := if status == Exception then Thrown else Failed;
      }
    }

    method FindUsingAnd(clauses: seq<Clause>, listed: set<Str>) returns (answer: Answer<set<Str>>)
      requires Sound(engine.families, name) && listed == IndexNames(engine.families.Keys, name)
      ensures answer == AndFrom(engine.families, name, {}, clauses)
    {
      ghost var s := engine.families;
      ghost var target := AndFrom(s, name, {}, clauses);
      var andDocIds: set<Str>, rest := {}, clauses;
      while rest != []
        invariant engine.families == s && AndFrom(s, name, andDocIds, rest) == target
        decreases |rest|
      {
        var clauseAnswer := AnswerClause(rest[0], listed);
        match clauseAnswer {
          case Failed =>
            return Failed;
          case Thrown =>
            return Thrown;
          case Found(docIds) =>
            andDocIds := MeetWith(andDocIds, docIds);
        }
        rest := rest[1..];
      }
      answer := Found(andDocIds);
    }

    method FindUsingOr(clauses: seq<Clause>, listed: set<Str>) returns (answer: Answer<set<Str>>)
      requires Sound(engine.families, name) && listed == IndexNames(engine.families.Keys, name)
      ensures answer == OrFrom(engine.families, name, {}, clauses)
    {
      ghost var s := engine.families;
      ghost var target := OrFrom(s, name, {}, clauses);
      var orDocIds: set<Str>, rest := {}, clauses;
      while rest != []
        invariant engine.families == s && OrFrom(s, name, orDocIds, rest) == target
        decreases |rest|
      {
        var clauseAnswer := AnswerClause(rest[0], listed);
        match clauseAnswer {
          case Failed =>
            return Failed;
          case Thrown =>
            return Thrown;
          case Found(docIds) =>
            orDocIds := orDocIds + SetOf(docIds);
        }
        rest := rest[1..];
      }
      answer := Found(orDocIds);
    }

    /** The ids found; none at all after an early `return {}`, and no answer after an exception. */
    method FindDocument(filter: seq<FilterEntry>) returns (answer: Option<seq<Str>>)
      requires Sound(engine.families, name)
      ensures exists after :: Evaluates(engine.families, name, filter, after) && answer == Returned(after)
    {
      var listed := engine.GetIndexNames(name);
      var docIds: seq<Str> := [];
      for i := 0 to |filter|
        invariant Evaluates(engine.families, name, filter[..i], Running(docIds))
      {
        var progress := EvaluateEntry(filter[i], listed, docIds);
        EvaluatesNext(engine.families, name, filter, i, Running(docIds), progress);
        if !progress.Running? {
          StopsThere(engine.families, name, filter, i + 1, progress);
          return if progress.Threw? then None else Some([]);
        }
        docIds := progress.ids;
      }
      assert filter[..|filter|] == filter;
      answer := Some(docIds);
    }

    method EvaluateEntry(entry: FilterEntry, listed: set<Str>, docIds: seq<Str>) returns (after: Progress)
      requires Sound(engine.families, name) && listed == IndexNames(engine.families.Keys, name)
      ensures EntryStep(engine.families, name, entry, Running(docIds), after)
    {
      match entry {
        case Compare(clause) =>
          var status, ids := FindUsing(clause, listed, docIds);
          after := if status == Exception then Threw else Running(ids);
        case And(clauses) =>
          var answer := FindUsingAnd(clauses, listed);
          after := AppendMembers(docIds, answer);
        case Or(clauses) =>
          var answer := FindUsingOr(clauses, listed);
          after := AppendMembers(docIds, answer);
        case OrderBy(field, direction) =>
          var _, ids := engine.FetchDocIdsByOrder(IndexCfName(name, field), direction, docIds);
          after := Running(ids);
      }
    }
  }

  /** How a helper reports its answer: through the status, and by pushing to the vector. */
  ghost predicate Answers(answer: Answer<seq<Str>>, docIds: seq<Str>, status: Status, result: seq<Str>) {
    match answer
    case Found(ids) => status == OK && result == docIds + ids
    case Failed => status != OK && status != Exception && result == docIds
    case Thrown => status == Exception && result == docIds
  }

  /** One more entry of the filter. */
  lemma EvaluatesNext(s: Families, c: Str, filter: seq<FilterEntry>, i: nat, before: Progress, after: Progress)
    requires i < |filter| && Evaluates(s, c, filter[..i], before) && EntryStep(s, c, filter[i], before, after)
    ensures Evaluates(s, c, filter[..i + 1], after)
  {
    var more := filter[..i + 1];
    assert more[..i] == filter[..i] && more[i] == filter[i] && |more| == i + 1;
  }

  lemma {:induction false} StopsThere(s: Families, c: Str, filter: seq<FilterEntry>, i: nat, p: Progress)
    requires i <= |filter| && Evaluates(s, c, filter[..i], p) && !p.Running?
    ensures Evaluates(s, c, filter, p)
    decreases |filter| - i
  {
    if i == |filter| {
      assert filter[..i] == filter;
    } else {
      EvaluatesNext(s, c, filter, i, p, p);
      StopsThere(s, c, filter, i + 1, p);
    }
  }

  method MeetWith(acc: set<Str>, docIds: seq<Str>) returns (met: set<Str>)
    ensures met == Meet(acc, docIds)
  {
    if acc == {} {
      met := set id | id in docIds;
    } else {
      met := Narrowed(acc, docIds);
    }
  }

  /** The two erase loops of `$and`: the first erases only what is not there. */
  method Narrowed(acc: set<Str>, docIds: seq<Str>) returns (narrowed: set<Str>)
    ensures narrowed == acc * SetOf(docIds)
  {
    narrowed := acc;
    for i := 0 to |docIds|
      invariant narrowed == acc
    {
      if docIds[i] !in narrowed {
        narrowed := narrowed - {docIds[i]};
      }
    }
    var members := set id | id in docIds;
    var todo := narrowed;
    while todo != {}
      invariant forall id :: id in narrowed <==> id in acc && (id in todo || id in members)
      decreases |todo|
    {
      var id :| id in todo;
      todo := todo - {id};
      if id !in members {
        narrowed := narrowed - {id};
      }
    }
  }

  /** Pushes the members of an unordered set, each once, in some order. */
  method AppendMembers(docIds: seq<Str>, answer: Answer<set<Str>>) returns (after: Progress)
    ensures AppendsSet(docIds, answer, after)
  {
    match answer {
      case Failed =>
        after := ReturnedEarly;
      case Thrown =>
        after := Threw;
      case Found(members) =>
        var pushed: seq<Str>, todo := [], members;
        while todo != {}
          invariant todo <= members && NoDuplicates(pushed) && SetOf(pushed) == members - todo
          decreases |todo|
        {
          var id :| id in todo;
          assert id !in SetOf(pushed);
          assert SetOf(pushed + [id]) == SetOf(pushed) + {id};
          pushed, todo := pushed + [id], todo - {id};
        }
        after := Running(docIds + pushed);
        assert after.ids[|docIds|..] == pushed;
    }
  }
}
