/** What each collection operation does to the stored families: the engine writes it issues, in
    order, and the status it ends with. */
module CollectionOps {
  import opened Bytes
  import opened Json
  import opened StorageEngine
  import opened IndexKeys
  import opened Naming

  /** The field name `_id`. */
  const ID_FIELD: Str := [95, 105, 100]

  /** Whether a value can be put into an index key. */
  predicate Scalar(v: Json) {
    ParseValue(v).Some?
  }

  function Encoded(v: Json): Str
    requires Scalar(v)
  {
    ParseValue(v).value
  }

  /** The fields the index loop handles before it ends or meets a value that it cannot convert. */
  function Handled(doc: Doc, fs: seq<Str>): (gs: seq<Str>)
    ensures forall g :: g in gs ==> g in fs && g in doc.data && Scalar(doc.data[g])
  {
    if fs == [] then []
    else if fs[0] !in doc.data then Handled(doc, fs[1..])
    else if Scalar(doc.data[fs[0]]) then [fs[0]] + Handled(doc, fs[1..])
    else []
  }

  predicate Convertible(doc: Doc, fs: seq<Str>) {
    forall f :: f in fs && f in doc.data ==> Scalar(doc.data[f])
  }

  function EntryKey(doc: Doc, f: Str): Str
    requires f in doc.data && Scalar(doc.data[f])
  {
    IndexKey(Encoded(doc.data[f]), doc.id)
  }

  /** The write of `insertIfIndexFieldExists`, and of `deleteIfIndexFieldExists`. */
  function EntryPut(c: Str, doc: Doc, f: Str): Write
    requires f in doc.data && Scalar(doc.data[f])
  {
    Write.Put(IndexCfName(c, f), EntryKey(doc, f), Raw(doc.id))
  }

  function EntryRemove(c: Str, doc: Doc, f: Str): Write
    requires f in doc.data && Scalar(doc.data[f])
  {
    Write.Remove(IndexCfName(c, f), EntryKey(doc, f))
  }

  function EntryPuts(c: Str, doc: Doc, gs: seq<Str>): (ws: seq<Write>)
    requires forall g :: g in gs ==> g in doc.data && Scalar(doc.data[g])
    ensures |ws| == |gs|
  {
    if gs == [] then [] else [EntryPut(c, doc, gs[0])] + EntryPuts(c, doc, gs[1..])
  }

  function EntryRemoves(c: Str, doc: Doc, gs: seq<Str>): (ws: seq<Write>)
    requires forall g :: g in gs ==> g in doc.data && Scalar(doc.data[g])
    ensures |ws| == |gs|
  {
    if gs == [] then [] else [EntryRemove(c, doc, gs[0])] + EntryRemoves(c, doc, gs[1..])
  }

  /** The indexes of a collection in the order of the listing set. */
  function Indexes(s: Families, c: Str): seq<Str> {
    Sorted(IndexNames(s.Keys, c))
  }

  // ---------- createDocument ----------

  /** An empty id is replaced by a generated one, and a missing `_id` field is filled in. */
  function Prepare(doc: Doc, freshId: Str): Doc {
    var id := if doc.id == [] then freshId else doc.id;
    Doc(id, if ID_FIELD in doc.data then doc.data else doc.data[ID_FIELD := Text(id)])
  }

  /** The writes of storing a document: its index entries first, then the document itself. */
  function StoreWrites(s: Families, c: Str, doc: Doc): seq<Write> {
    var fs := Indexes(s, c);
    EntryPuts(c, doc, Handled(doc, fs)) +
    if Convertible(doc, fs) then [Write.Put(c, doc.id, Packed(doc))] else []
  }

  function StoreStatus(s: Families, c: Str, doc: Doc): Status {
    if !Convertible(doc, Indexes(s, c)) then Exception else if c in s then OK else NotFound
  }

  function CreateDocument(s: Families, c: Str, doc: Doc, freshId: Str): (Families, Status) {
    var d := Prepare(doc, freshId);
    (ApplyAll(s, StoreWrites(s, c, d)), StoreStatus(s, c, d))
  }

  // ---------- deleteDocument ----------

  /** A value that is not a packed document does not deserialize. */
  function ReadStatus(s: Families, c: Str, id: Str): Status {
    if c !in s || id !in s[c] then NotFound
    else if s[c][id].Packed? then OK else Corruption
  }

  function ReadDocument(s: Families, c: Str, id: Str): Doc
    requires ReadStatus(s, c, id) == OK
  {
    s[c][id].doc
  }

  function EraseWrites(s: Families, c: Str, id: Str): seq<Write>
    requires ReadStatus(s, c, id) == OK
  {
    var fs, doc := Indexes(s, c), ReadDocument(s, c, id);
    EntryRemoves(c, doc, Handled(doc, fs)) +
    if Convertible(doc, fs) then [Write.Remove(c, id)] else []
  }

  function DeleteDocument(s: Families, c: Str, id: Str): (Families, Status) {
    if ReadStatus(s, c, id) != OK then (s, ReadStatus(s, c, id))
    else
      (ApplyAll(s, EraseWrites(s, c, id)),
       if Convertible(ReadDocument(s, c, id), Indexes(s, c)) then OK else Exception)
  }

  // ---------- createIndex and deleteIndex ----------

  /** Whether the cursor loop of `createIndex` gets past a stored value. */
  predicate Indexable(v: Value, f: Str) {
    v.Packed? && (f in v.doc.data ==> Scalar(v.doc.data[f]))
  }

  /** The document keys whose entry the cursor loop writes before it ends or fails. */
  function HandledKeys(f: Str, fam: Family, ks: seq<Str>): seq<Str> {
    if ks == [] || ks[0] !in fam || !Indexable(fam[ks[0]], f) then []
    else if f in fam[ks[0]].doc.data then [ks[0]] + HandledKeys(f, fam, ks[1..])
    else HandledKeys(f, fam, ks[1..])
  }

  predicate HasEntry(fam: Family, f: Str, k: Str) {
    k in fam && Indexable(fam[k], f) && f in fam[k].doc.data
  }

  function BuildWrites(c: Str, f: Str, fam: Family, js: seq<Str>): seq<Write> {
    if js == [] then []
    else
      (if HasEntry(fam, f, js[0]) then [EntryPut(c, fam[js[0]].doc, f)] else []) + BuildWrites(c, f, fam, js[1..])
  }

  function WithFamily(s: Families, x: Str): Families {
    if x in s then s else s[x := map[]]
  }

  /** An existing index family is kept and filled again. */
  function CreateIndex(s: Families, c: Str, f: Str): (Families, Status) {
    var s1 := WithFamily(s, IndexCfName(c, f));
    if c !in s then (s1, OK)
    else
      (ApplyAll(s1, BuildWrites(c, f, s[c], HandledKeys(f, s[c], Sorted(s[c].Keys)))),
       if forall k :: k in s[c] ==> Indexable(s[c][k], f) then OK else Corruption)
  }

  function DeleteIndex(s: Families, c: Str, f: Str): (Families, Status) {
    (s - {IndexCfName(c, f)}, if IndexCfName(c, f) in s then OK else NotFound)
  }

  // ---------- updateDocument ----------

  /** A change of a document's data; `None` where applying it throws. */
  type Change = Fields -> Option<Fields>

  /** The document an update starts from: the stored one, or a new one holding only its id. */
  function UpdateBase(s: Families, c: Str, id: Str): Doc {
    if ReadStatus(s, c, id) == OK then ReadDocument(s, c, id) else Doc(id, map[ID_FIELD := Text(id)])
  }

  predicate UpdateProceeds(s: Families, c: Str, id: Str, upsert: bool) {
    ReadStatus(s, c, id) == OK || (ReadStatus(s, c, id) == NotFound && upsert)
  }

  function UpdateDocument(s: Families, c: Str, id: Str, change: Change, upsert: bool, freshId: Str)
    : (Families, Status)
  {
    if !UpdateProceeds(s, c, id, upsert) then (s, ReadStatus(s, c, id))
    else
      var doc := UpdateBase(s, c, id);
      match change(doc.data)
      case None => (s, Exception)
      case Some(data) => CreateDocument(s, c, Doc(doc.id, data), freshId)
  }

  // ---------- runs ----------

  datatype Op =
    | Create(doc: Doc, freshId: Str)
    | Delete(id: Str)
    | Update(id: Str, change: Change, upsert: bool, freshId: Str)
    | BuildIndex(field: Str)
    | DropIndex(field: Str)

  function Step(s: Families, c: Str, op: Op): (Families, Status) {
    match op
    case Create(doc, freshId) => CreateDocument(s, c, doc, freshId)
    case Delete(id) => DeleteDocument(s, c, id)
    case Update(id, change, upsert, freshId) => UpdateDocument(s, c, id, change, upsert, freshId)
    case BuildIndex(f) => CreateIndex(s, c, f)
    case DropIndex(f) => DeleteIndex(s, c, f)
  }

  function Run(s: Families, c: Str, ops: seq<Op>): Families
    decreases |ops|
  {
    if ops == [] then s else Run(Step(s, c, ops[0]).0, c, ops[1..])
  }

  /** The document a step stores, if it is a create or an update that gets that far. */
  function Stored(s: Families, c: Str, op: Op): Option<Doc> {
    match op
    case Create(doc, freshId) => Some(Prepare(doc, freshId))
    case Update(id, change, upsert, freshId) =>
      if !UpdateProceeds(s, c, id, upsert) then None
      else (
        match change(UpdateBase(s, c, id).data)
        case None => None
        case Some(data) => Some(Prepare(Doc(UpdateBase(s, c, id).id, data), freshId)))
    case _ => None
  }

  /** Document ids, given or generated, contain no `#`. */
  ghost predicate HashFreeIds(op: Op) {
    match op
    case Create(doc, freshId) => HASH !in doc.id && HASH !in freshId
    case Update(id, _, _, freshId) => HASH !in id && HASH !in freshId
    case _ => true
  }

  /** A create or an update does what storing its document does, or nothing if it gets no
      document to store. */
  lemma StoredStep(s: Families, c: Str, op: Op)
    requires op.Create? || op.Update?
    ensures Step(s, c, op).0 ==
            match Stored(s, c, op)
            case Some(d) => ApplyAll(s, StoreWrites(s, c, d))
            case None => s
    ensures HashFreeIds(op) && Stored(s, c, op).Some? && (op.Update? ==> UpdateBase(s, c, op.id).id == op.id) ==>
              HASH !in Stored(s, c, op).value.id
  {
  }
}
