/** The query evaluator: what `findDocument` answers for a filter, and how that relates to the
    documents that satisfy it. */
module Query {
  import opened Bytes
  import opened Json
  import opened Scans
  import opened IndexKeys
  import opened ValueKeys
  import opened Naming
  import opened CollectionOps
  import opened History
  import opened Consistency

  datatype CompareOp = Eq | Gt | Lt | Unsupported

  datatype Clause = Clause(op: CompareOp, field: Str, operand: Json)

  /** One entry of the filter object; a key that is no operator is ignored. */
  datatype FilterEntry =
    | Compare(clause: Clause)
    | And(clauses: seq<Clause>)
    | Or(clauses: seq<Clause>)
    | OrderBy(field: Str, direction: Str)

  datatype Answer<+T> = Found(ids: T) | Failed | Thrown

  // ---------- what the evaluator computes ----------

  /** `findDocumentsUsingEq`, `...Gt` and `...Lt`: only `$eq` consults the listing, and only `$gt`
      and `$lt` refuse an operand with an empty encoding. */
  function EvalClause(s: Families, c: Str, clause: Clause): Answer<seq<Str>> {
    var x := IndexCfName(c, clause.field);
    if clause.op.Unsupported? then Failed
    else match ParseValue(clause.operand)
      case None => Thrown
      case Some(e) =>
        if clause.op.Eq? && clause.field !in IndexNames(s.Keys, c) then Failed
        else if !clause.op.Eq? && e == [] then Failed
        else if x !in s then Failed
        else match clause.op
          case Eq => Found(EqualScan(s[x], Term(e)))
          case Gt => Found(GreaterScan(s[x], Term(e)))
          case Lt => Found(LesserScan(s[x], Term(e)))
  }

  function SetOf(ids: seq<Str>): set<Str> {
    set i | i in ids
  }

  /** The accumulator of `$and` restarts whenever it is empty. */
  function Meet(acc: set<Str>, ids: seq<Str>): set<Str> {
    if acc == {} then SetOf(ids) else acc * SetOf(ids)
  }

  function AndFrom(s: Families, c: Str, acc: set<Str>, clauses: seq<Clause>): Answer<set<Str>>
    decreases |clauses|
  {
    if clauses == [] then Found(acc)
    else match EvalClause(s, c, clauses[0])
      case Found(ids) => AndFrom(s, c, Meet(acc, ids), clauses[1..])
      case Failed => Failed
      case Thrown => Thrown
  }

  function OrFrom(s: Families, c: Str, acc: set<Str>, clauses: seq<Clause>): Answer<set<Str>>
    decreases |clauses|
  {
    if clauses == [] then Found(acc)
    else match EvalClause(s, c, clauses[0])
      case Found(ids) => OrFrom(s, c, acc + SetOf(ids), clauses[1..])
      case Failed => Failed
      case Thrown => Thrown
  }

  /** The state of the evaluation: still running, returned early, or left by an exception. */
  datatype Progress = Running(ids: seq<Str>) | ReturnedEarly | Threw

  /** What the caller gets: the ids found so far, no ids after an early return, or an exception. */
  function Returned(after: Progress): Option<seq<Str>> {
    match after
    case Running(ids) => Some(ids)
    case ReturnedEarly => Some([])
    case Threw => None
  }

  ghost predicate NoDuplicates(ids: seq<Str>) {
    forall i, j :: 0 <= i < j < |ids| ==> ids[i] != ids[j]
  }

  /** The iteration of an unordered set: each member once, in no particular order. */
  ghost predicate Enumerates(ids: seq<Str>, members: set<Str>) {
    NoDuplicates(ids) && SetOf(ids) == members
  }

  ghost predicate AppendsSet(before: seq<Str>, answer: Answer<set<Str>>, after: Progress) {
    match answer
    case Found(members) => after.Running? && before <= after.ids && Enumerates(after.ids[|before|..], members)
    case Failed => after == ReturnedEarly
    case Thrown => after == Threw
  }

  /** One entry of the filter, from one progress to the next. */
  ghost predicate EntryStep(s: Families, c: Str, entry: FilterEntry, before: Progress, after: Progress) {
    if !before.Running? then after == before
    else match entry
      case Compare(clause) => (
        match EvalClause(s, c, clause)
        case Found(ids) => after == Running(before.ids + ids)
        case Failed => after == before
        case Thrown => after == Threw)
      case And(clauses) => AppendsSet(before.ids, AndFrom(s, c, {}, clauses), after)
      case Or(clauses) => AppendsSet(before.ids, OrFrom(s, c, {}, clauses), after)
      case OrderBy(field, direction) =>
        var x := IndexCfName(c, field);
        after == if x in s then Running(before.ids + OrderScan(s[x], direction == ASC)) else before
  }

  /** `after` is a possible outcome of evaluating the whole filter. */
  ghost predicate Evaluates(s: Families, c: Str, filter: seq<FilterEntry>, after: Progress)
    decreases |filter|
  {
    if filter == [] then after == Running([])
    else
      var n := |filter| - 1;
      exists before :: Evaluates(s, c, filter[..n], before) && EntryStep(s, c, filter[n], before, after)
  }

  // ---------- what a filter means ----------

  /** A document satisfies a comparison on its own value of the field. Any value can be equal to the
      operand; greater and less are for values that can be compared. */
  ghost predicate Satisfies(doc: Doc, clause: Clause) {
    && clause.field in doc.data
    && var value := doc.data[clause.field];
       match clause.op
       case Eq => value == clause.operand
       case Gt => Comparable(value, clause.operand) && ValueLess(clause.operand, value)
       case Lt => Comparable(value, clause.operand) && ValueLess(value, clause.operand)
       case Unsupported => false
  }

  ghost predicate SatisfiesEntry(doc: Doc, entry: FilterEntry) {
    match entry
    case Compare(clause) => Satisfies(doc, clause)
    case And(clauses) => clauses != [] && forall i :: 0 <= i < |clauses| ==> Satisfies(doc, clauses[i])
    case Or(clauses) => exists i :: 0 <= i < |clauses| && Satisfies(doc, clauses[i])
    case OrderBy(field, _) => field in doc.data
  }

  /** A comparison the evaluator can answer: its field is indexed and its operand is a scalar, for
      `$gt` and `$lt` neither null nor the empty text. */
  ghost predicate Answerable(s: Families, c: Str, clause: Clause) {
    && !clause.op.Unsupported? && IndexCfName(c, clause.field) in s && Scalar(clause.operand)
    && (!clause.op.Eq? ==> clause.operand != Null && clause.operand != Text([]))
  }

  /** A comparison whose operand is an object or an array; an unsupported operator is not looked at. */
  predicate ClauseThrows(clause: Clause) {
    !clause.op.Unsupported? && !HasKey(clause.operand)
  }

  ghost predicate AnswerableEntry(s: Families, c: Str, entry: FilterEntry) {
    match entry
    case Compare(clause) => Answerable(s, c, clause)
    case And(clauses) => forall i :: 0 <= i < |clauses| ==> Answerable(s, c, clauses[i])
    case Or(clauses) => forall i :: 0 <= i < |clauses| ==> Answerable(s, c, clauses[i])
    case OrderBy(field, _) => IndexCfName(c, field) in s
  }

  /** A comparison is answered exactly when it is answerable, throws exactly on an object or an array,
      and is refused in all other cases. */
  lemma ClauseOutcome(s: Families, c: Str, clause: Clause)
    requires WellFormedName(c)
    ensures EvalClause(s, c, clause).Found? <==> Answerable(s, c, clause)
    ensures EvalClause(s, c, clause).Thrown? <==> ClauseThrows(clause)
  {
    IndexNamesExact(s.Keys, c);
    EmptyKeyExactly(clause.operand);
    ParsesToKey(clause.operand, []);
  }

  lemma AnswerableIsFound(s: Families, c: Str, clause: Clause)
    requires WellFormedName(c)
    ensures EvalClause(s, c, clause).Found? <==> Answerable(s, c, clause)
  {
    ClauseOutcome(s, c, clause);
  }

  /** `$gt` and `$lt` on an indexed field refuse exactly null and the empty text among the scalars. */
  lemma RangeRefusedExactly(s: Families, c: Str, clause: Clause)
    requires WellFormedName(c) && IndexCfName(c, clause.field) in s && HasKey(clause.operand)
    requires clause.op.Gt? || clause.op.Lt?
    ensures EvalClause(s, c, clause).Failed? <==> clause.operand == Null || clause.operand == Text([])
    ensures !EvalClause(s, c, clause).Thrown?
  {
    ClauseOutcome(s, c, clause);
    ParsesToKey(clause.operand, []);
  }

  /** For a name that is not well formed no `$eq` is ever answered, because nothing is listed, while
      `$gt` and `$lt` read the family all the same. */
  lemma IllFormedNameOutcome(s: Families, c: Str, clause: Clause)
    requires !WellFormedName(c)
    ensures clause.op.Eq? ==> !EvalClause(s, c, clause).Found?
    ensures clause.op.Gt? || clause.op.Lt? ==> (EvalClause(s, c, clause).Found? <==> Answerable(s, c, clause))
  {
    IndexNamesMissIllFormed(s.Keys, c);
    EmptyKeyExactly(clause.operand);
  }

  // ---------- the scans of an index, as sets ----------

  function RegionFor(op: CompareOp): Region {
    match op
    case Eq => Within
    case Gt => Above
    case Lt => Below
    case Unsupported => Within
  }

  lemma ScanMembers(fam: Family, p: Str, r: Region, id: Str)
    requires SoundIndex(fam)
    ensures id in Ids(fam, Select(Sorted(fam.Keys), p, r)) <==>
              exists k :: k in fam && RegionOf(k, p) == r && SplitKey(k).1 == id
  {
    var ks := Select(Sorted(fam.Keys), p, r);
    assert forall k :: k in ks <==> k in fam && RegionOf(k, p) == r by {
      SelectMembers(Sorted(fam.Keys), p, r);
      SortedEnumerates(fam.Keys);
    }
    if id in Ids(fam, ks) {
      var i :| 0 <= i < |ks| && Ids(fam, ks)[i] == id;
      assert ks[i] in ks;
    }
    if k :| k in fam && RegionOf(k, p) == r && SplitKey(k).1 == id {
      assert k in ks;
      var i :| 0 <= i < |ks| && ks[i] == k;
      assert Ids(fam, ks)[i] == id;
    }
  }

  lemma ReverseMember(ids: seq<Str>, id: Str)
    ensures id in Reverse(ids) <==> id in ids
  {
    ReverseMembers(ids);
    assert multiset(Reverse(ids))[id] == multiset(ids)[id];
  }

  /** A clause answers the ids of exactly the index keys in its region. */
  lemma ClauseIds(s: Families, c: Str, clause: Clause, id: Str)
    requires Sound(s, c) && Answerable(s, c, clause)
    ensures var fam, w := s[IndexCfName(c, clause.field)], Term(Encoded(clause.operand));
            && EvalClause(s, c, clause).Found?
            && (id in EvalClause(s, c, clause).ids <==>
                  exists k :: k in fam && RegionOf(k, w) == RegionFor(clause.op) && SplitKey(k).1 == id)
  {
    var fam, w, r := s[IndexCfName(c, clause.field)], Term(Encoded(clause.operand)), RegionFor(clause.op);
    AnswerableIsFound(s, c, clause);
    ScanMembers(fam, w, r, id);
    ReverseMember(Ids(fam, Select(Sorted(fam.Keys), w, r)), id);
  }

  /** No false negatives of one clause: with no missing entries, every document that satisfies it
      is answered. */
  lemma ClauseComplete(s: Families, c: Str, clause: Clause, id: Str)
    requires Sound(s, c) && NoMissing(ViewOf(s, c)) && Answerable(s, c, clause)
    requires id in DocsOf(s, c) && Satisfies(DocsOf(s, c)[id], clause)
    ensures EvalClause(s, c, clause).Found? && id in EvalClause(s, c, clause).ids
  {
    var doc, f, x := DocsOf(s, c)[id], clause.field, IndexCfName(c, clause.field);
    ViewIndexes(s, c);
    assert EntryOf(doc, f) in EntriesOf(s[x]);
    var k :| k in s[x] && SplitKey(k) == EntryOf(doc, f);
    JoinSplitKey(k);
    if clause.op.Eq? {
      RegionOfIndexKey(Encoded(clause.operand), id, Encoded(clause.operand));
    } else {
      RegionIsValueOrder(doc.data[f], id, clause.operand);
    }
    ClauseIds(s, c, clause, id);
  }

  /** All documents hold values of the field that the operand can be compared with. */
  ghost predicate Homogeneous(v: View, clause: Clause) {
    forall i :: i in v.docs && clause.field in v.docs[i].data ==>
                  Comparable(v.docs[i].data[clause.field], clause.operand)
  }

  /** On an exact index a clause answers precisely the documents that satisfy it, each once. */
  lemma ClauseExact(s: Families, c: Str, clause: Clause)
    requires Sound(s, c) && Exact(ViewOf(s, c)) && Answerable(s, c, clause) && Homogeneous(ViewOf(s, c), clause)
    ensures EvalClause(s, c, clause).Found?
    ensures NoDuplicates(EvalClause(s, c, clause).ids)
    ensures forall id :: id in EvalClause(s, c, clause).ids <==>
                           id in DocsOf(s, c) && Satisfies(DocsOf(s, c)[id], clause)
  {
    AnswerableIsFound(s, c, clause);
    forall id
      ensures id in EvalClause(s, c, clause).ids <==> id in DocsOf(s, c) && Satisfies(DocsOf(s, c)[id], clause)
    {
      if id in DocsOf(s, c) && Satisfies(DocsOf(s, c)[id], clause) {
        ClauseComplete(s, c, clause, id);
      }
      if id in EvalClause(s, c, clause).ids {
        ClauseSound(s, c, clause, id);
      }
    }
    ClauseDistinct(s, c, clause);
  }

  lemma ClauseSound(s: Families, c: Str, clause: Clause, id: Str)
    requires Sound(s, c) && Exact(ViewOf(s, c)) && Answerable(s, c, clause) && Homogeneous(ViewOf(s, c), clause)
    requires EvalClause(s, c, clause).Found? && id in EvalClause(s, c, clause).ids
    ensures id in DocsOf(s, c) && Satisfies(DocsOf(s, c)[id], clause)
  {
    var f, x := clause.field, IndexCfName(c, clause.field);
    ClauseIds(s, c, clause, id);
    var k :| k in s[x] && RegionOf(k, Term(Encoded(clause.operand))) == RegionFor(clause.op) && SplitKey(k).1 == id;
    ViewIndexes(s, c);
    assert IsCurrent(DocsOf(s, c), f, SplitKey(k));
    JoinSplitKey(k);
    RegionIsValueOrder(DocsOf(s, c)[id].data[f], id, clause.operand);
  }

  /** In an exact index a document has one key, so no scan meets it twice. */
  lemma ClauseDistinct(s: Families, c: Str, clause: Clause)
    requires Sound(s, c) && Exact(ViewOf(s, c)) && Answerable(s, c, clause)
    ensures EvalClause(s, c, clause).Found? && NoDuplicates(EvalClause(s, c, clause).ids)
  {
    var f, fam := clause.field, s[IndexCfName(c, clause.field)];
    var w, r := Term(Encoded(clause.operand)), RegionFor(clause.op);
    AnswerableIsFound(s, c, clause);
    ViewIndexes(s, c);
    forall k, m | k in fam && m in fam && SplitKey(k).1 == SplitKey(m).1
      ensures k == m
    {
      assert IsCurrent(DocsOf(s, c), f, SplitKey(k)) && IsCurrent(DocsOf(s, c), f, SplitKey(m));
      JoinSplitKey(k);
      JoinSplitKey(m);
    }
    var ks := Select(Sorted(fam.Keys), w, r);
    SortedEnumerates(fam.Keys);
    SelectDistinct(Sorted(fam.Keys), w, r);
    SelectMembers(Sorted(fam.Keys), w, r);
    DistinctIds(fam, ks);
    ReverseDistinct(Ids(fam, ks));
  }

  lemma {:induction false} SelectDistinct(ks: seq<Str>, p: Str, r: Region)
    requires Ascending(ks)
    ensures NoDuplicates(Select(ks, p, r))
    decreases |ks|
  {
    if ks != [] {
      AscendingDistinct(ks);
      SelectDistinct(ks[1..], p, r);
      SelectMembers(ks[1..], p, r);
    }
  }

  lemma DistinctIds(fam: Family, ks: seq<Str>)
    requires SoundIndex(fam) && NoDuplicates(ks) && forall k :: k in ks ==> k in fam
    requires forall k, m :: k in fam && m in fam && SplitKey(k).1 == SplitKey(m).1 ==> k == m
    ensures NoDuplicates(Ids(fam, ks))
  {
    forall i, j | 0 <= i < j < |ks|
      ensures Ids(fam, ks)[i] != Ids(fam, ks)[j]
    {
      assert ks[i] in ks && ks[j] in ks;
      assert ks[i] != ks[j];
    }
  }

  lemma {:induction false} ReverseDistinct(ids: seq<Str>)
    requires NoDuplicates(ids)
    ensures NoDuplicates(Reverse(ids))
    decreases |ids|
  {
    if ids != [] {
      ReverseDistinct(ids[1..]);
      ReverseMembers(ids[1..]);
      assert ids[0] !in Reverse(ids[1..]) by {
        assert multiset(Reverse(ids[1..]))[ids[0]] == multiset(ids[1..])[ids[0]];
      }
    }
  }

  /** The document has a value of the field that a search for the operand finds. */
  ghost predicate FoundBy(docs: map<Str, Doc>, f: Str, operand: Json, id: Str) {
    && id in docs && f in docs[id].data && HasKey(docs[id].data[f])
    && (SameKey(docs[id].data[f], operand) || RunsOn(docs[id].data[f], operand))
  }

  /** On an exact index `$eq` answers, for values and operands of any types, exactly the documents whose
      value shares its bytes with the operand, or runs on from them with a `#`; each of them once. */
  lemma EqualAnswersExactly(s: Families, c: Str, f: Str, operand: Json, id: Str)
    requires Sound(s, c) && Exact(ViewOf(s, c)) && IndexCfName(c, f) in s && HasKey(operand)
    ensures EvalClause(s, c, Clause(Eq, f, operand)).Found?
    ensures NoDuplicates(EvalClause(s, c, Clause(Eq, f, operand)).ids)
    ensures id in EvalClause(s, c, Clause(Eq, f, operand)).ids <==> FoundBy(DocsOf(s, c), f, operand, id)
  {
    var clause, fam, docs := Clause(Eq, f, operand), s[IndexCfName(c, f)], DocsOf(s, c);
    ParsesToKey(operand, []);
    ClauseIds(s, c, clause, id);
    ClauseDistinct(s, c, clause);
    if id in EvalClause(s, c, clause).ids {
      var k :| k in fam && RegionOf(k, Term(Encoded(operand))).Within? && SplitKey(k).1 == id;
      EntryIsCurrent(s, c, f, k);
      FindsExactly(docs[id].data[f], operand, id);
    }
    if FoundBy(docs, f, operand, id) {
      FindsExactly(docs[id].data[f], operand, id);
      var k := EntryKey(docs[id], f);
      CurrentEntryThere(s, c, f, id);
      SplitIndexKey(Encoded(docs[id].data[f]), id);
    }
  }

  lemma EntryIsCurrent(s: Families, c: Str, f: Str, k: Str)
    requires Sound(s, c) && Exact(ViewOf(s, c)) && IndexCfName(c, f) in s && k in s[IndexCfName(c, f)]
    ensures var id, docs := SplitKey(k).1, DocsOf(s, c);
            && HASH !in id && id in docs && f in docs[id].data && HasKey(docs[id].data[f])
            && Scalar(docs[id].data[f]) && k == IndexKey(Encoded(docs[id].data[f]), id)
  {
    ViewIndexes(s, c);
    assert SplitKey(k) in EntriesOf(s[IndexCfName(c, f)]);
    assert IsCurrent(DocsOf(s, c), f, SplitKey(k));
    JoinSplitKey(k);
    ParsesToKey(DocsOf(s, c)[SplitKey(k).1].data[f], []);
  }

  lemma CurrentEntryThere(s: Families, c: Str, f: Str, id: Str)
    requires Sound(s, c) && NoMissing(ViewOf(s, c)) && IndexCfName(c, f) in s
    requires id in DocsOf(s, c) && f in DocsOf(s, c)[id].data
    ensures Scalar(DocsOf(s, c)[id].data[f]) && HASH !in id && DocsOf(s, c)[id].id == id
    ensures EntryKey(DocsOf(s, c)[id], f) in s[IndexCfName(c, f)]
  {
    var doc, fam := DocsOf(s, c)[id], s[IndexCfName(c, f)];
    ViewIndexes(s, c);
    assert EntryOf(doc, f) in EntriesOf(fam);
    var k :| k in fam && SplitKey(k) == EntryOf(doc, f);
    JoinSplitKey(k);
  }

  // ---------- boolean composition ----------

  /** The answer set of a clause; a clause that fails contributes nothing. */
  function AnswerSet(s: Families, c: Str, clause: Clause): set<Str> {
    match EvalClause(s, c, clause)
    case Found(ids) => SetOf(ids)
    case _ => {}
  }

  ghost predicate AllFound(s: Families, c: Str, clauses: seq<Clause>) {
    forall i :: 0 <= i < |clauses| ==> EvalClause(s, c, clauses[i]).Found?
  }

  /** A member of every clause's answer. */
  ghost predicate InAll(s: Families, c: Str, clauses: seq<Clause>, id: Str) {
    forall i :: 0 <= i < |clauses| ==> id in AnswerSet(s, c, clauses[i])
  }

  /** Any clause that fails or throws makes the whole `$and` or `$or` do so. */
  lemma {:induction false} AllFoundExactly(s: Families, c: Str, acc: set<Str>, clauses: seq<Clause>)
    ensures AndFrom(s, c, acc, clauses).Found? <==> AllFound(s, c, clauses)
    ensures OrFrom(s, c, acc, clauses).Found? <==> AllFound(s, c, clauses)
    decreases |clauses|
  {
    if clauses != [] && EvalClause(s, c, clauses[0]).Found? {
      var ids := EvalClause(s, c, clauses[0]).ids;
      AllFoundExactly(s, c, Meet(acc, ids), clauses[1..]);
      AllFoundExactly(s, c, acc + SetOf(ids), clauses[1..]);
    }
  }

  /** `$or` answers the union of its clauses. */
  lemma {:induction false} OrIsUnion(s: Families, c: Str, acc: set<Str>, clauses: seq<Clause>, id: Str)
    requires AllFound(s, c, clauses)
    ensures var r := OrFrom(s, c, acc, clauses);
            r.Found? && (id in r.ids <==> id in acc || exists i :: 0 <= i < |clauses| && id in AnswerSet(s, c, clauses[i]))
    decreases |clauses|
  {
    if clauses != [] {
      OrIsUnion(s, c, acc + SetOf(EvalClause(s, c, clauses[0]).ids), clauses[1..], id);
    }
  }

  /** One round of the fold keeps an id that was found before, or nothing was, and the clause
      answers; and keeps only ids that the clause answers. */
  lemma MeetBounds(s: Families, c: Str, acc: set<Str>, clause: Clause, id: Str)
    requires EvalClause(s, c, clause).Found?
    ensures id in Meet(acc, EvalClause(s, c, clause).ids) <==>
              id in AnswerSet(s, c, clause) && (acc == {} || id in acc)
  {
  }

  lemma InAllCons(s: Families, c: Str, clauses: seq<Clause>, id: Str)
    requires clauses != []
    ensures InAll(s, c, clauses, id) <==> id in AnswerSet(s, c, clauses[0]) && InAll(s, c, clauses[1..], id)
  {
    assert clauses == [clauses[0]] + clauses[1..];
  }

  lemma AndStep(s: Families, c: Str, acc: set<Str>, clauses: seq<Clause>)
    requires AllFound(s, c, clauses) && clauses != []
    ensures AllFound(s, c, clauses[1..])
    ensures AndFrom(s, c, acc, clauses) == AndFrom(s, c, Meet(acc, EvalClause(s, c, clauses[0]).ids), clauses[1..])
  {
  }

  /** `$and` keeps every id that all clauses answer, and returns only ids of its last clause. */
  lemma {:induction false} AndBounds(s: Families, c: Str, acc: set<Str>, clauses: seq<Clause>, id: Str)
    requires AllFound(s, c, clauses) && clauses != []
    ensures AndFrom(s, c, acc, clauses).Found?
    ensures InAll(s, c, clauses, id) && (acc == {} || id in acc) ==> id in AndFrom(s, c, acc, clauses).ids
    ensures id in AndFrom(s, c, acc, clauses).ids ==> id in AnswerSet(s, c, clauses[|clauses| - 1])
    decreases |clauses|
  {
    var next, rest := Meet(acc, EvalClause(s, c, clauses[0]).ids), clauses[1..];
    AndStep(s, c, acc, clauses);
    MeetBounds(s, c, acc, clauses[0], id);
    InAllCons(s, c, clauses, id);
    if rest == [] {
      assert AndFrom(s, c, next, rest) == Found(next);
    } else {
      assert rest[|rest| - 1] == clauses[|clauses| - 1];
      AndBounds(s, c, next, rest, id);
    }
  }

  /** No proper prefix of the clauses, taken together with what was found before, is empty. */
  ghost predicate NeverEmpty(s: Families, c: Str, acc: set<Str>, clauses: seq<Clause>)
    requires AllFound(s, c, clauses)
    decreases |clauses|
  {
    |clauses| <= 1 ||
    (Meet(acc, EvalClause(s, c, clauses[0]).ids) != {} &&
     NeverEmpty(s, c, Meet(acc, EvalClause(s, c, clauses[0]).ids), clauses[1..]))
  }

  lemma {:induction false} AndWithoutRestart(s: Families, c: Str, acc: set<Str>, clauses: seq<Clause>, id: Str)
    requires AllFound(s, c, clauses) && clauses != [] && NeverEmpty(s, c, acc, clauses)
    ensures var r := AndFrom(s, c, acc, clauses);
            r.Found? && (id in r.ids <==> InAll(s, c, clauses, id) && (acc == {} || id in acc))
    decreases |clauses|
  {
    var next := Meet(acc, EvalClause(s, c, clauses[0]).ids);
    assert id in next <==> id in AnswerSet(s, c, clauses[0]) && (acc == {} || id in acc);
    assert InAll(s, c, clauses, id) <==> id in AnswerSet(s, c, clauses[0]) && InAll(s, c, clauses[1..], id);
    if |clauses| > 1 {
      AndWithoutRestart(s, c, next, clauses[1..], id);
    } else {
      assert AndFrom(s, c, next, clauses[1..]) == Found(next);
    }
  }

  /** Some id, of those found before if any were, is answered by all of the first `k` clauses. */
  ghost predicate PrefixMeets(s: Families, c: Str, acc: set<Str>, clauses: seq<Clause>, k: nat)
    requires k <= |clauses|
  {
    exists id :: (acc == {} || id in acc) && InAll(s, c, clauses[..k], id)
  }

  /** No proper, non-empty prefix of the clauses has an empty intersection. */
  ghost predicate PrefixesMeet(s: Families, c: Str, acc: set<Str>, clauses: seq<Clause>) {
    forall k :: 1 <= k < |clauses| ==> PrefixMeets(s, c, acc, clauses, k)
  }

  lemma FirstMeets(s: Families, c: Str, acc: set<Str>, clauses: seq<Clause>)
    requires clauses != [] && EvalClause(s, c, clauses[0]).Found?
    ensures PrefixMeets(s, c, acc, clauses, 1) <==> Meet(acc, EvalClause(s, c, clauses[0]).ids) != {}
  {
    var next := Meet(acc, EvalClause(s, c, clauses[0]).ids);
    assert clauses[..1] == [clauses[0]];
    forall id
      ensures InAll(s, c, clauses[..1], id) <==> id in AnswerSet(s, c, clauses[0])
    {
      assert clauses[..1][0] == clauses[0];
    }
    if id :| id in next {
      assert (acc == {} || id in acc) && InAll(s, c, clauses[..1], id);
    }
    if PrefixMeets(s, c, acc, clauses, 1) {
      var id :| (acc == {} || id in acc) && InAll(s, c, clauses[..1], id);
      assert id in next;
    }
  }

  lemma LaterMeets(s: Families, c: Str, acc: set<Str>, clauses: seq<Clause>, k: nat)
    requires k < |clauses| && EvalClause(s, c, clauses[0]).Found?
    requires Meet(acc, EvalClause(s, c, clauses[0]).ids) != {}
    ensures PrefixMeets(s, c, acc, clauses, k + 1) <==>
              PrefixMeets(s, c, Meet(acc, EvalClause(s, c, clauses[0]).ids), clauses[1..], k)
  {
    var next := Meet(acc, EvalClause(s, c, clauses[0]).ids);
    var front, rest := clauses[..k + 1], clauses[1..][..k];
    assert front == [clauses[0]] + rest;
    forall id
      ensures (acc == {} || id in acc) && InAll(s, c, front, id) <==> id in next && InAll(s, c, rest, id)
    {
      assert InAll(s, c, front, id) <==> id in AnswerSet(s, c, clauses[0]) && InAll(s, c, rest, id) by {
        if InAll(s, c, front, id) {
          assert id in AnswerSet(s, c, front[0]);
          forall i | 0 <= i < |rest| ensures id in AnswerSet(s, c, rest[i]) {
            assert rest[i] == front[i + 1];
          }
        }
      }
    }
  }

  /** The accumulator is empty before the last clause exactly when a prefix intersection is. */
  lemma {:induction false} NeverEmptyMeans(s: Families, c: Str, acc: set<Str>, clauses: seq<Clause>)
    requires AllFound(s, c, clauses)
    ensures NeverEmpty(s, c, acc, clauses) <==> PrefixesMeet(s, c, acc, clauses)
    decreases |clauses|
  {
    if |clauses| > 1 {
      var next := Meet(acc, EvalClause(s, c, clauses[0]).ids);
      FirstMeets(s, c, acc, clauses);
      if next != {} {
        NeverEmptyMeans(s, c, next, clauses[1..]);
        forall k | 1 <= k < |clauses| - 1
          ensures PrefixMeets(s, c, acc, clauses, k + 1) <==> PrefixMeets(s, c, next, clauses[1..], k)
        {
          LaterMeets(s, c, acc, clauses, k);
        }
        if PrefixesMeet(s, c, next, clauses[1..]) {
          forall k | 1 <= k < |clauses|
            ensures PrefixMeets(s, c, acc, clauses, k)
          {
            if k > 1 {
              assert PrefixMeets(s, c, next, clauses[1..], k - 1);
            }
          }
        }
      } else {
        assert !PrefixMeets(s, c, acc, clauses, 1);
      }
    }
  }

  /** An answer that consists of the ids which all the clauses answer. */
  ghost predicate IsIntersection(s: Families, c: Str, clauses: seq<Clause>, answer: Answer<set<Str>>) {
    answer.Found? && forall id :: id in answer.ids <==> InAll(s, c, clauses, id)
  }

  /** The length of the first prefix from `k` on that has an empty intersection, or of all clauses. */
  ghost function FirstEmpty(s: Families, c: Str, clauses: seq<Clause>, k: nat): (n: nat)
    requires k <= |clauses|
    ensures k <= n <= |clauses|
    decreases |clauses| - k
  {
    if k == |clauses| || !PrefixMeets(s, c, {}, clauses, k) then k else FirstEmpty(s, c, clauses, k + 1)
  }

  /** Where `$and` starts over for the last time, read off the clauses: each time behind the shortest
      prefix with an empty intersection, if more clauses follow. */
  ghost function LastRestart(s: Families, c: Str, clauses: seq<Clause>): (n: nat)
    requires clauses != []
    ensures n < |clauses|
    decreases |clauses|
  {
    var k := FirstEmpty(s, c, clauses, 1);
    if k == |clauses| then 0 else k + LastRestart(s, c, clauses[k..])
  }

  lemma {:induction false} FirstEmptyIsFirst(s: Families, c: Str, clauses: seq<Clause>, k: nat)
    requires k <= |clauses|
    ensures var n := FirstEmpty(s, c, clauses, k);
            && (forall i :: k <= i < n ==> PrefixMeets(s, c, {}, clauses, i))
            && (n < |clauses| ==> !PrefixMeets(s, c, {}, clauses, n))
    decreases |clauses| - k
  {
    if k < |clauses| && PrefixMeets(s, c, {}, clauses, k) {
      FirstEmptyIsFirst(s, c, clauses, k + 1);
    }
  }

  lemma RestartsExactly(s: Families, c: Str, clauses: seq<Clause>)
    requires clauses != []
    ensures LastRestart(s, c, clauses) == 0 <==> PrefixesMeet(s, c, {}, clauses)
  {
    FirstEmptyIsFirst(s, c, clauses, 1);
  }

  /** The first `k` clauses are the shortest prefix with an empty intersection. */
  ghost predicate ShortestEmpty(s: Families, c: Str, acc: set<Str>, clauses: seq<Clause>, k: nat) {
    && 0 < k < |clauses| && !PrefixMeets(s, c, acc, clauses, k)
    && forall i :: 0 < i < k ==> PrefixMeets(s, c, acc, clauses, i)
  }

  lemma ShortestEmptyLater(s: Families, c: Str, acc: set<Str>, clauses: seq<Clause>, k: nat)
    requires clauses != [] && EvalClause(s, c, clauses[0]).Found?
    requires var next := Meet(acc, EvalClause(s, c, clauses[0]).ids);
             next != {} && ShortestEmpty(s, c, next, clauses[1..], k)
    ensures ShortestEmpty(s, c, acc, clauses, k + 1)
  {
    FirstMeets(s, c, acc, clauses);
    LaterMeets(s, c, acc, clauses, k);
    forall i | 0 < i < k + 1
      ensures PrefixMeets(s, c, acc, clauses, i)
    {
      if i > 1 {
        LaterMeets(s, c, acc, clauses, i - 1);
      }
    }
  }

  /** The accumulator empties before the last clause: the evaluation starts over behind the shortest
      prefix with an empty intersection. */
  lemma {:induction false} Restart(s: Families, c: Str, acc: set<Str>, clauses: seq<Clause>) returns (k: nat)
    requires AllFound(s, c, clauses) && !NeverEmpty(s, c, acc, clauses)
    ensures ShortestEmpty(s, c, acc, clauses, k) && AndFrom(s, c, acc, clauses) == AndFrom(s, c, {}, clauses[k..])
    decreases |clauses|
  {
    var next := Meet(acc, EvalClause(s, c, clauses[0]).ids);
    AndStep(s, c, acc, clauses);
    if next == {} {
      k := 1;
      FirstMeets(s, c, acc, clauses);
    } else {
      var later := Restart(s, c, next, clauses[1..]);
      k := later + 1;
      ShortestEmptyLater(s, c, acc, clauses, later);
      assert clauses[1..][later..] == clauses[k..];
    }
  }

  lemma FirstEmptyUnique(s: Families, c: Str, clauses: seq<Clause>, k: nat)
    requires ShortestEmpty(s, c, {}, clauses, k)
    ensures FirstEmpty(s, c, clauses, 1) == k
  {
    FirstEmptyIsFirst(s, c, clauses, 1);
  }

  lemma AndWithoutRestartIsAll(s: Families, c: Str, clauses: seq<Clause>)
    requires AllFound(s, c, clauses) && clauses != [] && NeverEmpty(s, c, {}, clauses)
    ensures IsIntersection(s, c, clauses, AndFrom(s, c, {}, clauses))
  {
    AllFoundExactly(s, c, {}, clauses);
    forall id
      ensures id in AndFrom(s, c, {}, clauses).ids <==> InAll(s, c, clauses, id)
    {
      AndWithoutRestart(s, c, {}, clauses, id);
    }
  }

  lemma RestartsLater(s: Families, c: Str, clauses: seq<Clause>, k: nat)
    requires AllFound(s, c, clauses) && ShortestEmpty(s, c, {}, clauses, k)
    ensures AllFound(s, c, clauses[k..])
    ensures clauses[LastRestart(s, c, clauses)..] == clauses[k..][LastRestart(s, c, clauses[k..])..]
  {
    FirstEmptyUnique(s, c, clauses, k);
  }

  /** What `$and` computes in every case: the intersection of the clauses from its last restart on. */
  lemma {:induction false} AndIsSuffixIntersection(s: Families, c: Str, clauses: seq<Clause>)
    requires AllFound(s, c, clauses) && clauses != []
    ensures IsIntersection(s, c, clauses[LastRestart(s, c, clauses)..], AndFrom(s, c, {}, clauses))
    decreases |clauses|
  {
    NeverEmptyMeans(s, c, {}, clauses);
    RestartsExactly(s, c, clauses);
    if NeverEmpty(s, c, {}, clauses) {
      assert clauses[0..] == clauses;
      AndWithoutRestartIsAll(s, c, clauses);
    } else {
      var k := Restart(s, c, {}, clauses);
      RestartsLater(s, c, clauses, k);
      AndIsSuffixIntersection(s, c, clauses[k..]);
    }
  }

  /** `$and` is the intersection of its clauses exactly when no proper prefix of them has an empty
      intersection, or no id is answered by all clauses from the last restart on. */
  lemma AndIsIntersectionExactly(s: Families, c: Str, clauses: seq<Clause>)
    requires AllFound(s, c, clauses) && clauses != []
    ensures IsIntersection(s, c, clauses, AndFrom(s, c, {}, clauses)) <==>
              || PrefixesMeet(s, c, {}, clauses)
              || !exists id :: InAll(s, c, clauses[LastRestart(s, c, clauses)..], id)
  {
    AndIsSuffixIntersection(s, c, clauses);
    RestartsExactly(s, c, clauses);
    NeverEmptyMeans(s, c, {}, clauses);
    if PrefixesMeet(s, c, {}, clauses) {
      assert clauses[0..] == clauses;
    } else {
      forall id
        ensures !InAll(s, c, clauses, id)
      {
        EmptyPrefix(s, c, {}, clauses, id);
      }
    }
  }

  /** The failing case: a first clause that matches nothing is forgotten if the second matches. */
  lemma AndForgetsEmptyClause(s: Families, c: Str, a: Clause, b: Clause)
    requires EvalClause(s, c, a) == Found([]) && EvalClause(s, c, b).Found? && AnswerSet(s, c, b) != {}
    ensures AndFrom(s, c, {}, [a, b]) == Found(AnswerSet(s, c, b))
    ensures !IsIntersection(s, c, [a, b], AndFrom(s, c, {}, [a, b]))
  {
    assert [a, b][1..] == [b] && [b][1..] == [];
    assert AndFrom(s, c, {}, [a, b]) == AndFrom(s, c, Meet({}, []), [b]);
    assert AndFrom(s, c, {}, [b]) == AndFrom(s, c, AnswerSet(s, c, b), []);
    var id :| id in AnswerSet(s, c, b);
    assert !InAll(s, c, [a, b], id) by {
      assert id !in AnswerSet(s, c, [a, b][0]);
    }
  }

  lemma {:induction false} EmptyPrefix(s: Families, c: Str, acc: set<Str>, clauses: seq<Clause>, id: Str)
    requires AllFound(s, c, clauses) && !NeverEmpty(s, c, acc, clauses) && (acc == {} || id in acc)
    ensures !InAll(s, c, clauses, id)
    decreases |clauses|
  {
    var next := Meet(acc, EvalClause(s, c, clauses[0]).ids);
    if InAll(s, c, clauses, id) {
      assert id in AnswerSet(s, c, clauses[0]);
      assert id in next;
      assert InAll(s, c, clauses[1..], id);
      EmptyPrefix(s, c, next, clauses[1..], id);
    }
  }

  // ---------- whole filters ----------

  /** What one entry contributes to the answer. */
  ghost predicate Contributes(s: Families, c: Str, entry: FilterEntry, id: Str) {
    match entry
    case Compare(clause) => id in AnswerSet(s, c, clause)
    case And(clauses) => AndFrom(s, c, {}, clauses).Found? && id in AndFrom(s, c, {}, clauses).ids
    case Or(clauses) => OrFrom(s, c, {}, clauses).Found? && id in OrFrom(s, c, {}, clauses).ids
    case OrderBy(field, direction) =>
      IndexCfName(c, field) in s && id in OrderScan(s[IndexCfName(c, field)], direction == ASC)
  }

  /** The first clause that cannot be answered. */
  ghost predicate StopsAt(s: Families, c: Str, clauses: seq<Clause>, k: int) {
    0 <= k < |clauses| && !Answerable(s, c, clauses[k]) && forall i :: 0 <= i < k ==> Answerable(s, c, clauses[i])
  }

  /** The entry leaves the evaluation by an exception: a comparison with an object or an array, or an
      `$and` or `$or` whose first clause without an answer is one. */
  ghost predicate EntryThrows(s: Families, c: Str, entry: FilterEntry) {
    match entry
    case Compare(clause) => ClauseThrows(clause)
    case And(clauses) => exists k :: StopsAt(s, c, clauses, k) && ClauseThrows(clauses[k])
    case Or(clauses) => exists k :: StopsAt(s, c, clauses, k) && ClauseThrows(clauses[k])
    case OrderBy(_, _) => false
  }

  /** The entry ends the evaluation with an empty result: an `$and` or `$or` whose first clause without
      an answer is refused. */
  ghost predicate EntryEnds(s: Families, c: Str, entry: FilterEntry) {
    match entry
    case And(clauses) => exists k :: StopsAt(s, c, clauses, k) && !ClauseThrows(clauses[k])
    case Or(clauses) => exists k :: StopsAt(s, c, clauses, k) && !ClauseThrows(clauses[k])
    case _ => false
  }

  ghost predicate GoesOn(s: Families, c: Str, entry: FilterEntry) {
    !EntryThrows(s, c, entry) && !EntryEnds(s, c, entry)
  }

  lemma {:induction false} FirstStop(s: Families, c: Str, clauses: seq<Clause>, from: nat) returns (k: nat)
    requires from <= |clauses| && forall i :: 0 <= i < from ==> Answerable(s, c, clauses[i])
    ensures k <= |clauses| && (k < |clauses| ==> StopsAt(s, c, clauses, k))
    ensures k == |clauses| ==> forall i :: 0 <= i < |clauses| ==> Answerable(s, c, clauses[i])
    decreases |clauses| - from
  {
    if from < |clauses| && Answerable(s, c, clauses[from]) {
      k := FirstStop(s, c, clauses, from + 1);
    } else {
      k := from;
    }
  }

  /** The first clause without an answer decides how an `$and` or `$or` ends. */
  lemma {:induction false} StopDecides(s: Families, c: Str, acc: set<Str>, clauses: seq<Clause>, k: nat)
    requires WellFormedName(c) && StopsAt(s, c, clauses, k)
    ensures AndFrom(s, c, acc, clauses) == if ClauseThrows(clauses[k]) then Thrown else Failed
    ensures OrFrom(s, c, acc, clauses) == if ClauseThrows(clauses[k]) then Thrown else Failed
    decreases |clauses|
  {
    ClauseOutcome(s, c, clauses[0]);
    if k > 0 {
      assert Answerable(s, c, clauses[0]);
      var ids := EvalClause(s, c, clauses[0]).ids;
      assert StopsAt(s, c, clauses[1..], k - 1);
      StopDecides(s, c, Meet(acc, ids), clauses[1..], k - 1);
      StopDecides(s, c, acc + SetOf(ids), clauses[1..], k - 1);
    }
  }

  /** Clauses that do not stop the evaluation are all answered. */
  lemma GoesOnAnswers(s: Families, c: Str, clauses: seq<Clause>)
    requires WellFormedName(c) && !exists k :: StopsAt(s, c, clauses, k)
    ensures forall i :: 0 <= i < |clauses| ==> Answerable(s, c, clauses[i])
    ensures AndFrom(s, c, {}, clauses).Found? && OrFrom(s, c, {}, clauses).Found?
  {
    var k := FirstStop(s, c, clauses, 0);
    assert k == |clauses|;
    AnswerableClauses(s, c, clauses);
    AllFoundExactly(s, c, {}, clauses);
  }

  /** How one entry ends: by an exception, by an early return, or by adding what it contributes, which
      is nothing if it cannot be answered. */
  lemma EntryContributes(s: Families, c: Str, entry: FilterEntry, before: Progress, after: Progress)
    requires before.Running? && WellFormedName(c) && EntryStep(s, c, entry, before, after)
    ensures EntryThrows(s, c, entry) ==> after == Threw
    ensures EntryEnds(s, c, entry) ==> after == ReturnedEarly
    ensures GoesOn(s, c, entry) ==>
              && after.Running? && before.ids <= after.ids
              && (forall id :: id in after.ids <==> id in before.ids || Contributes(s, c, entry, id))
  {
    match entry {
      case Compare(clause) =>
        ClauseOutcome(s, c, clause);
      case And(clauses) =>
        ClausesContribute(s, c, clauses);
        if AndFrom(s, c, {}, clauses).Found? {
          AppendedMembers(before.ids, after.ids, AndFrom(s, c, {}, clauses).ids);
        }
      case Or(clauses) =>
        ClausesContribute(s, c, clauses);
        if OrFrom(s, c, {}, clauses).Found? {
          AppendedMembers(before.ids, after.ids, OrFrom(s, c, {}, clauses).ids);
        }
      case OrderBy(_, _) =>
    }
  }

  lemma AppendedMembers(before: seq<Str>, after: seq<Str>, members: set<Str>)
    requires before <= after && SetOf(after[|before|..]) == members
    ensures forall id :: id in after <==> id in before || id in members
  {
    assert after == before + after[|before|..];
  }

  lemma ClausesContribute(s: Families, c: Str, clauses: seq<Clause>)
    requires WellFormedName(c)
    ensures EntryThrows(s, c, And(clauses)) ==> AndFrom(s, c, {}, clauses) == OrFrom(s, c, {}, clauses) == Thrown
    ensures EntryEnds(s, c, And(clauses)) ==> AndFrom(s, c, {}, clauses) == OrFrom(s, c, {}, clauses) == Failed
    ensures GoesOn(s, c, And(clauses)) ==> AndFrom(s, c, {}, clauses).Found? && OrFrom(s, c, {}, clauses).Found?
  {
    if k :| StopsAt(s, c, clauses, k) {
      StopDecides(s, c, {}, clauses, k);
      assert forall j :: StopsAt(s, c, clauses, j) ==> j == k;
    } else {
      GoesOnAnswers(s, c, clauses);
    }
  }

  /** An entry that cannot be answered but lets the evaluation go on adds nothing. */
  lemma UnanswerableAddsNothing(s: Families, c: Str, entry: FilterEntry, id: Str)
    requires WellFormedName(c) && GoesOn(s, c, entry) && !AnswerableEntry(s, c, entry)
    ensures !Contributes(s, c, entry, id)
  {
    match entry {
      case Compare(clause) =>
        ClauseOutcome(s, c, clause);
      case And(clauses) =>
        GoesOnAnswers(s, c, clauses);
      case Or(clauses) =>
        GoesOnAnswers(s, c, clauses);
      case OrderBy(_, _) =>
    }
  }

  lemma AnswerableClauses(s: Families, c: Str, clauses: seq<Clause>)
    requires WellFormedName(c) && forall i :: 0 <= i < |clauses| ==> Answerable(s, c, clauses[i])
    ensures AllFound(s, c, clauses)
  {
    forall i | 0 <= i < |clauses|
      ensures EvalClause(s, c, clauses[i]).Found?
    {
      AnswerableIsFound(s, c, clauses[i]);
    }
  }

  ghost predicate SomeContributes(s: Families, c: Str, filter: seq<FilterEntry>, id: Str)
    decreases |filter|
  {
    filter != [] &&
    (SomeContributes(s, c, filter[..|filter| - 1], id) || Contributes(s, c, filter[|filter| - 1], id))
  }

  lemma {:induction false} ContributesSomewhere(s: Families, c: Str, filter: seq<FilterEntry>, id: Str, i: nat)
    requires i < |filter| && Contributes(s, c, filter[i], id)
    ensures SomeContributes(s, c, filter, id)
    decreases |filter|
  {
    if i < |filter| - 1 {
      ContributesSomewhere(s, c, filter[..|filter| - 1], id, i);
    }
  }

  /** No entry throws or ends the evaluation early. */
  ghost predicate AllGoOn(s: Families, c: Str, filter: seq<FilterEntry>) {
    forall i :: 0 <= i < |filter| ==> GoesOn(s, c, filter[i])
  }

  /** The answer to a filter that is evaluated to its end consists of exactly what its entries
      contribute. */
  lemma {:induction false} FilterContributes(s: Families, c: Str, filter: seq<FilterEntry>, after: Progress)
    requires WellFormedName(c) && Evaluates(s, c, filter, after) && AllGoOn(s, c, filter)
    ensures after.Running?
    ensures forall id :: id in after.ids <==> SomeContributes(s, c, filter, id)
    decreases |filter|
  {
    if filter != [] {
      var n := |filter| - 1;
      var before :| Evaluates(s, c, filter[..n], before) && EntryStep(s, c, filter[n], before, after);
      FilterContributes(s, c, filter[..n], before);
      EntryContributes(s, c, filter[n], before, after);
    }
  }

  /** The first entry that does not let the evaluation go on. */
  ghost predicate LeavesAt(s: Families, c: Str, filter: seq<FilterEntry>, i: int) {
    0 <= i < |filter| && !GoesOn(s, c, filter[i]) && forall j :: 0 <= j < i ==> GoesOn(s, c, filter[j])
  }

  /** The first entry that does not let the evaluation go on decides: its exception leaves, or the
      result is empty, whatever the entries before it found and whatever comes after it. */
  lemma {:induction false} FirstLeaveDecides(s: Families, c: Str, filter: seq<FilterEntry>, after: Progress, i: nat)
    requires WellFormedName(c) && Evaluates(s, c, filter, after) && LeavesAt(s, c, filter, i)
    ensures after == if EntryThrows(s, c, filter[i]) then Threw else ReturnedEarly
    decreases |filter|
  {
    var n := |filter| - 1;
    var before :| Evaluates(s, c, filter[..n], before) && EntryStep(s, c, filter[n], before, after);
    if i < n {
      assert LeavesAt(s, c, filter[..n], i);
      FirstLeaveDecides(s, c, filter[..n], before, i);
    } else {
      FilterContributes(s, c, filter[..n], before);
      EntryContributes(s, c, filter[n], before, after);
    }
  }

  lemma {:induction false} FirstLeave(s: Families, c: Str, filter: seq<FilterEntry>, from: nat) returns (i: nat)
    requires from <= |filter| && forall j :: 0 <= j < from ==> GoesOn(s, c, filter[j])
    ensures i <= |filter| && (i < |filter| ==> LeavesAt(s, c, filter, i))
    ensures i == |filter| ==> AllGoOn(s, c, filter)
    decreases |filter| - from
  {
    if from < |filter| && GoesOn(s, c, filter[from]) {
      i := FirstLeave(s, c, filter, from + 1);
    } else {
      i := from;
    }
  }

  /** The exception of some entry leaves. */
  ghost predicate Throws(s: Families, c: Str, filter: seq<FilterEntry>) {
    exists i :: LeavesAt(s, c, filter, i) && EntryThrows(s, c, filter[i])
  }

  ghost predicate EndsEarly(s: Families, c: Str, filter: seq<FilterEntry>) {
    exists i :: LeavesAt(s, c, filter, i) && EntryEnds(s, c, filter[i])
  }

  /** Some entry that can be answered adds the id. */
  ghost predicate Adds(s: Families, c: Str, filter: seq<FilterEntry>, id: Str) {
    exists i :: 0 <= i < |filter| && AnswerableEntry(s, c, filter[i]) && Contributes(s, c, filter[i], id)
  }

  /** What the caller of `findDocument` gets, for every filter: an exception exactly if the first entry
      that does not let the evaluation go on throws; no ids at all if it ends the evaluation; and
      otherwise exactly the ids that the answerable entries contribute, the others adding nothing. */
  lemma FindOutcome(s: Families, c: Str, filter: seq<FilterEntry>, after: Progress)
    requires WellFormedName(c) && Evaluates(s, c, filter, after)
    ensures Returned(after) == None <==> Throws(s, c, filter)
    ensures EndsEarly(s, c, filter) ==> Returned(after) == Some([])
    ensures AllGoOn(s, c, filter) ==>
              after.Running? && forall id :: id in Returned(after).value <==> Adds(s, c, filter, id)
    ensures Throws(s, c, filter) || EndsEarly(s, c, filter) || AllGoOn(s, c, filter)
  {
    var i := FirstLeave(s, c, filter, 0);
    if i < |filter| {
      FirstLeaveDecides(s, c, filter, after, i);
      assert forall j :: LeavesAt(s, c, filter, j) ==> j == i;
    } else {
      FilterContributes(s, c, filter, after);
      forall id
        ensures SomeContributes(s, c, filter, id) <==> Adds(s, c, filter, id)
      {
        SomeContributesIsAdds(s, c, filter, id);
      }
    }
  }

  lemma SomeContributesIsAdds(s: Families, c: Str, filter: seq<FilterEntry>, id: Str)
    requires WellFormedName(c) && AllGoOn(s, c, filter)
    ensures SomeContributes(s, c, filter, id) <==> Adds(s, c, filter, id)
  {
    if SomeContributes(s, c, filter, id) {
      SomewhereContributes(s, c, filter, id);
      var i :| 0 <= i < |filter| && Contributes(s, c, filter[i], id);
      if !AnswerableEntry(s, c, filter[i]) {
        UnanswerableAddsNothing(s, c, filter[i], id);
      }
    }
    if Adds(s, c, filter, id) {
      var i :| 0 <= i < |filter| && AnswerableEntry(s, c, filter[i]) && Contributes(s, c, filter[i], id);
      ContributesSomewhere(s, c, filter, id, i);
    }
  }

  lemma EntryComplete(s: Families, c: Str, entry: FilterEntry, id: Str)
    requires Sound(s, c) && NoMissing(ViewOf(s, c)) && AnswerableEntry(s, c, entry)
    requires id in DocsOf(s, c) && SatisfiesEntry(DocsOf(s, c)[id], entry)
    ensures Contributes(s, c, entry, id)
  {
    match entry {
      case Compare(clause) =>
        ClauseComplete(s, c, clause, id);
      case And(clauses) =>
        AnswerableClauses(s, c, clauses);
        forall i | 0 <= i < |clauses|
          ensures id in AnswerSet(s, c, clauses[i])
        {
          ClauseComplete(s, c, clauses[i], id);
        }
        AndBounds(s, c, {}, clauses, id);
      case Or(clauses) =>
        AnswerableClauses(s, c, clauses);
        var i :| 0 <= i < |clauses| && Satisfies(DocsOf(s, c)[id], clauses[i]);
        ClauseComplete(s, c, clauses[i], id);
        OrIsUnion(s, c, {}, clauses, id);
      case OrderBy(field, direction) =>
        OrderComplete(s, c, field, direction == ASC, id);
    }
  }

  lemma OrderComplete(s: Families, c: Str, f: Str, ascending: bool, id: Str)
    requires Sound(s, c) && NoMissing(ViewOf(s, c)) && IndexCfName(c, f) in s
    requires id in DocsOf(s, c) && f in DocsOf(s, c)[id].data
    ensures id in OrderScan(s[IndexCfName(c, f)], ascending)
  {
    var doc, fam := DocsOf(s, c)[id], s[IndexCfName(c, f)];
    ViewIndexes(s, c);
    assert EntryOf(doc, f) in EntriesOf(fam);
    var k :| k in fam && SplitKey(k) == EntryOf(doc, f);
    var ks := Sorted(fam.Keys);
    SortedEnumerates(fam.Keys);
    assert k in ks;
    var i :| 0 <= i < |ks| && ks[i] == k;
    assert Ids(fam, ks)[i] == id;
    ReverseMember(Ids(fam, ks), id);
  }

  /** With no missing entries, every stored document that satisfies an answerable entry of the filter is
      in the answer, unless an entry throws or ends the evaluation. */
  lemma FilterComplete(s: Families, c: Str, filter: seq<FilterEntry>, after: Progress, i: nat, id: Str)
    requires Sound(s, c) && NoMissing(ViewOf(s, c)) && Evaluates(s, c, filter, after)
    requires AllGoOn(s, c, filter) && i < |filter| && AnswerableEntry(s, c, filter[i])
    requires id in DocsOf(s, c) && SatisfiesEntry(DocsOf(s, c)[id], filter[i])
    ensures after.Running? && id in after.ids
  {
    FilterContributes(s, c, filter, after);
    EntryComplete(s, c, filter[i], id);
    ContributesSomewhere(s, c, filter, id, i);
  }

  /** No false negatives in any run: after any sequence of creates, overwrites, updates, deletes and
      index builds and drops, every stored document that satisfies an entry of the filter is in
      the answer, whatever else the filter holds and whatever the indexes kept of the past. */
  lemma NoFalseNegatives(s: Families, c: Str, ops: seq<Op>, filter: seq<FilterEntry>, after: Progress, i: nat, id: Str)
    requires Sound(s, c) && NoMissing(ViewOf(s, c)) && BuildsSucceed(s, c, ops)
    requires forall j :: 0 <= j < |ops| ==> HashFreeIds(ops[j])
    requires var t := Run(s, c, ops);
             && Evaluates(t, c, filter, after)
             && AllGoOn(t, c, filter) && i < |filter| && AnswerableEntry(t, c, filter[i])
             && id in DocsOf(t, c) && SatisfiesEntry(DocsOf(t, c)[id], filter[i])
    ensures after.Running? && id in after.ids
  {
    RunNoMissing(s, c, ops);
    FilterComplete(Run(s, c, ops), c, filter, after, i, id);
  }

  // ---------- exact answers ----------

  /** In every run that keeps indexed values, `$eq`, `$gt` and `$lt` answer precisely the documents
      that satisfy them, each once. */
  lemma ExactAnswers(s: Families, c: Str, ops: seq<Op>, clause: Clause)
    requires Sound(s, c) && Exact(ViewOf(s, c)) && KeepsValues(s, c, ops)
    requires forall i :: 0 <= i < |ops| ==> HashFreeIds(ops[i])
    requires Answerable(Run(s, c, ops), c, clause) && Homogeneous(ViewOf(Run(s, c, ops), c), clause)
    ensures var t := Run(s, c, ops); var r := EvalClause(t, c, clause);
            && r.Found? && NoDuplicates(r.ids)
            && forall id :: id in r.ids <==> id in DocsOf(t, c) && Satisfies(DocsOf(t, c)[id], clause)
  {
    RunExact(s, c, ops);
    ClauseExact(Run(s, c, ops), c, clause);
  }

  // ---------- whole filters on exact indexes ----------

  /** The documents hold values that an entry's operands, or the values of one another, can be compared
      with, and an `$and` does not restart. */
  ghost predicate ExactEntry(s: Families, c: Str, entry: FilterEntry) {
    && AnswerableEntry(s, c, entry)
    && match entry
       case Compare(clause) => Homogeneous(ViewOf(s, c), clause)
       case And(clauses) => HomogeneousClauses(s, c, clauses) && PrefixesMeet(s, c, {}, clauses)
       case Or(clauses) => HomogeneousClauses(s, c, clauses)
       case OrderBy(_, _) => true
  }

  ghost predicate HomogeneousClauses(s: Families, c: Str, clauses: seq<Clause>) {
    forall i :: 0 <= i < |clauses| ==> Homogeneous(ViewOf(s, c), clauses[i])
  }

  ghost predicate Matches(s: Families, c: Str, clause: Clause, id: Str) {
    id in DocsOf(s, c) && Satisfies(DocsOf(s, c)[id], clause)
  }

  /** The answer of a clause is the brute-force filter of the documents. */
  lemma ClauseIsFilter(s: Families, c: Str, clause: Clause, id: Str)
    requires Sound(s, c) && Exact(ViewOf(s, c)) && Answerable(s, c, clause) && Homogeneous(ViewOf(s, c), clause)
    ensures id in AnswerSet(s, c, clause) <==> Matches(s, c, clause, id)
  {
    ClauseExact(s, c, clause);
  }

  lemma ClausesAreFilters(s: Families, c: Str, clauses: seq<Clause>, id: Str)
    requires Sound(s, c) && Exact(ViewOf(s, c)) && HomogeneousClauses(s, c, clauses)
    requires forall i :: 0 <= i < |clauses| ==> Answerable(s, c, clauses[i])
    ensures forall i :: 0 <= i < |clauses| ==> (id in AnswerSet(s, c, clauses[i]) <==> Matches(s, c, clauses[i], id))
  {
    forall i | 0 <= i < |clauses|
      ensures id in AnswerSet(s, c, clauses[i]) <==> Matches(s, c, clauses[i], id)
    {
      ClauseIsFilter(s, c, clauses[i], id);
    }
  }

  lemma AndIsFilter(s: Families, c: Str, clauses: seq<Clause>, id: Str)
    requires Sound(s, c) && Exact(ViewOf(s, c)) && ExactEntry(s, c, And(clauses))
    ensures Contributes(s, c, And(clauses), id) <==>
              id in DocsOf(s, c) && SatisfiesEntry(DocsOf(s, c)[id], And(clauses))
  {
    if clauses != [] {
      AnswerableClauses(s, c, clauses);
      NeverEmptyMeans(s, c, {}, clauses);
      AndWithoutRestartIsAll(s, c, clauses);
      ClausesAreFilters(s, c, clauses, id);
      assert Matches(s, c, clauses[0], id) ==> id in DocsOf(s, c);
    }
  }

  lemma OrIsFilter(s: Families, c: Str, clauses: seq<Clause>, id: Str)
    requires Sound(s, c) && Exact(ViewOf(s, c)) && ExactEntry(s, c, Or(clauses))
    ensures Contributes(s, c, Or(clauses), id) <==>
              id in DocsOf(s, c) && SatisfiesEntry(DocsOf(s, c)[id], Or(clauses))
  {
    AnswerableClauses(s, c, clauses);
    OrIsUnion(s, c, {}, clauses, id);
    ClausesAreFilters(s, c, clauses, id);
  }

  lemma OrderByIsFilter(s: Families, c: Str, f: Str, ascending: bool, id: Str)
    requires Sound(s, c) && Exact(ViewOf(s, c)) && IndexCfName(c, f) in s
    ensures id in OrderScan(s[IndexCfName(c, f)], ascending) <==> id in DocsOf(s, c) && f in DocsOf(s, c)[id].data
  {
    OrderMember(s, c, f, id);
    ReverseMember(OrderScan(s[IndexCfName(c, f)], true), id);
  }

  /** What an entry contributes is the brute-force filter of the documents by it. */
  lemma EntryIsFilter(s: Families, c: Str, entry: FilterEntry, id: Str)
    requires Sound(s, c) && Exact(ViewOf(s, c)) && ExactEntry(s, c, entry)
    ensures Contributes(s, c, entry, id) <==> id in DocsOf(s, c) && SatisfiesEntry(DocsOf(s, c)[id], entry)
  {
    match entry {
      case Compare(clause) =>
        ClauseIsFilter(s, c, clause, id);
      case And(clauses) =>
        AndIsFilter(s, c, clauses, id);
      case Or(clauses) =>
        OrIsFilter(s, c, clauses, id);
      case OrderBy(f, direction) =>
        OrderByIsFilter(s, c, f, direction == ASC, id);
    }
  }

  lemma {:induction false} SomewhereContributes(s: Families, c: Str, filter: seq<FilterEntry>, id: Str)
    requires SomeContributes(s, c, filter, id)
    ensures exists i :: 0 <= i < |filter| && Contributes(s, c, filter[i], id)
    decreases |filter|
  {
    var n := |filter| - 1;
    if SomeContributes(s, c, filter[..n], id) {
      SomewhereContributes(s, c, filter[..n], id);
      var i :| 0 <= i < n && Contributes(s, c, filter[..n][i], id);
      assert Contributes(s, c, filter[i], id);
    }
  }

  /** The brute-force filter: the stored documents that satisfy some answerable entry. */
  ghost predicate FilterMatches(s: Families, c: Str, filter: seq<FilterEntry>, id: Str) {
    && id in DocsOf(s, c)
    && exists i :: 0 <= i < |filter| && AnswerableEntry(s, c, filter[i]) && SatisfiesEntry(DocsOf(s, c)[id], filter[i])
  }

  /** The evaluation goes on, and what can be answered can be answered exactly. */
  ghost predicate ExactFilter(s: Families, c: Str, filter: seq<FilterEntry>) {
    AllGoOn(s, c, filter) &&
    forall i :: 0 <= i < |filter| && AnswerableEntry(s, c, filter[i]) ==> ExactEntry(s, c, filter[i])
  }

  lemma AddsIsMatches(s: Families, c: Str, filter: seq<FilterEntry>, id: Str)
    requires Sound(s, c) && Exact(ViewOf(s, c)) && ExactFilter(s, c, filter)
    ensures Adds(s, c, filter, id) <==> FilterMatches(s, c, filter, id)
  {
    forall i | 0 <= i < |filter| && AnswerableEntry(s, c, filter[i])
      ensures Contributes(s, c, filter[i], id) <==>
                id in DocsOf(s, c) && SatisfiesEntry(DocsOf(s, c)[id], filter[i])
    {
      EntryIsFilter(s, c, filter[i], id);
    }
  }

  lemma FilterIsExact(s: Families, c: Str, filter: seq<FilterEntry>, after: Progress, id: Str)
    requires Sound(s, c) && Exact(ViewOf(s, c)) && Evaluates(s, c, filter, after) && ExactFilter(s, c, filter)
    ensures after.Running? && (id in after.ids <==> FilterMatches(s, c, filter, id))
  {
    FindOutcome(s, c, filter, after);
    AddsIsMatches(s, c, filter, id);
  }

  lemma FilterIsExactForAll(s: Families, c: Str, filter: seq<FilterEntry>, after: Progress)
    requires Sound(s, c) && Exact(ViewOf(s, c)) && Evaluates(s, c, filter, after) && ExactFilter(s, c, filter)
    ensures after.Running?
    ensures forall id :: id in after.ids <==> FilterMatches(s, c, filter, id)
  {
    FilterIsExact(s, c, filter, after, []);
    forall id
      ensures id in after.ids <==> FilterMatches(s, c, filter, id)
    {
      FilterIsExact(s, c, filter, after, id);
    }
  }

  /** In every run that keeps indexed values, a whole filter answers exactly the stored documents that
      satisfy one of its answerable entries. */
  lemma ExactFilterAnswers(s: Families, c: Str, ops: seq<Op>, t: Families, filter: seq<FilterEntry>, after: Progress)
    requires Sound(s, c) && Exact(ViewOf(s, c)) && KeepsValues(s, c, ops)
    requires forall i :: 0 <= i < |ops| ==> HashFreeIds(ops[i])
    requires t == Run(s, c, ops) && Evaluates(t, c, filter, after)
    requires ExactFilter(t, c, filter)
    ensures after.Running?
    ensures forall id :: id in after.ids <==> FilterMatches(t, c, filter, id)
  {
    RunExact(s, c, ops);
    FilterIsExactForAll(t, c, filter, after);
  }

  /** Every two values of the field can be compared. */
  ghost predicate OneType(v: View, f: Str) {
    forall i, j :: i in v.docs && j in v.docs && f in v.docs[i].data && f in v.docs[j].data ==>
                     Comparable(v.docs[i].data[f], v.docs[j].data[f])
  }

  /** Both have the field, and the second value is not less than the first. */
  ghost predicate InOrder(docs: map<Str, Doc>, f: Str, a: Str, b: Str) {
    && a in docs && b in docs && f in docs[a].data && f in docs[b].data
    && !ValueLess(docs[b].data[f], docs[a].data[f])
  }

  lemma OrderPair(s: Families, c: Str, f: Str, i: nat, j: nat)
    requires Sound(s, c) && Exact(ViewOf(s, c)) && IndexCfName(c, f) in s && OneType(ViewOf(s, c), f)
    requires i < j < |OrderScan(s[IndexCfName(c, f)], true)|
    ensures var ids := OrderScan(s[IndexCfName(c, f)], true);
            ids[i] != ids[j] && InOrder(DocsOf(s, c), f, ids[i], ids[j])
  {
    var ks, docs := Sorted(s[IndexCfName(c, f)].Keys), DocsOf(s, c);
    OrderedEntry(s, c, f, i);
    OrderedEntry(s, c, f, j);
    assert Less(ks[i], ks[j]) by {
      SortedEnumerates(s[IndexCfName(c, f)].Keys);
    }
    LessIrreflexive(ks[i]);
    var a, b := IdAt(s[IndexCfName(c, f)], ks[i]), IdAt(s[IndexCfName(c, f)], ks[j]);
    KeyOrderIsValueOrder(docs[a].data[f], a, docs[b].data[f], b);
  }

  lemma OrderMember(s: Families, c: Str, f: Str, id: Str)
    requires Sound(s, c) && Exact(ViewOf(s, c)) && IndexCfName(c, f) in s
    ensures id in OrderScan(s[IndexCfName(c, f)], true) <==> id in DocsOf(s, c) && f in DocsOf(s, c)[id].data
  {
    var ids := OrderScan(s[IndexCfName(c, f)], true);
    if id in DocsOf(s, c) && f in DocsOf(s, c)[id].data {
      OrderComplete(s, c, f, true, id);
    }
    if id in ids {
      var i :| 0 <= i < |ids| && ids[i] == id;
      OrderedEntry(s, c, f, i);
    }
  }

  /** `$orderBy` on an exact index lists every document that has the field exactly once, and never a
      greater value before a smaller one; descending is the reverse. */
  lemma OrderIsSorted(s: Families, c: Str, f: Str)
    requires Sound(s, c) && Exact(ViewOf(s, c)) && IndexCfName(c, f) in s && OneType(ViewOf(s, c), f)
    ensures var ids, docs := OrderScan(s[IndexCfName(c, f)], true), DocsOf(s, c);
            && NoDuplicates(ids)
            && (forall id :: id in ids <==> id in docs && f in docs[id].data)
            && (forall i, j :: 0 <= i < j < |ids| ==> InOrder(docs, f, ids[i], ids[j]))
    ensures OrderScan(s[IndexCfName(c, f)], false) == Reverse(OrderScan(s[IndexCfName(c, f)], true))
  {
    var ids, docs := OrderScan(s[IndexCfName(c, f)], true), DocsOf(s, c);
    forall i, j | 0 <= i < j < |ids|
      ensures ids[i] != ids[j] && InOrder(docs, f, ids[i], ids[j])
    {
      OrderPair(s, c, f, i, j);
    }
    forall id
      ensures id in ids <==> id in docs && f in docs[id].data
    {
      OrderMember(s, c, f, id);
    }
  }

  /** The i-th key of an exact index is the current key of the document it names. */
  ghost predicate EntryAt(s: Families, c: Str, f: Str, ks: seq<Str>, i: nat)
    requires i < |ks|
  {
    && IndexCfName(c, f) in s
    && var id, docs := IdAt(s[IndexCfName(c, f)], ks[i]), DocsOf(s, c);
       && id in docs && f in docs[id].data && Scalar(docs[id].data[f])
       && ks[i] == IndexKey(Encoded(docs[id].data[f]), id)
  }

  lemma OrderedEntry(s: Families, c: Str, f: Str, i: nat)
    requires Sound(s, c) && Exact(ViewOf(s, c)) && IndexCfName(c, f) in s
    requires i < |Sorted(s[IndexCfName(c, f)].Keys)|
    ensures EntryAt(s, c, f, Sorted(s[IndexCfName(c, f)].Keys), i)
  {
    var fam := s[IndexCfName(c, f)];
    var k := Sorted(fam.Keys)[i];
    assert k in fam by {
      SortedEnumerates(fam.Keys);
    }
    ViewIndexes(s, c);
    assert SplitKey(k) in EntriesOf(fam);
    assert IsCurrent(DocsOf(s, c), f, SplitKey(k));
    JoinSplitKey(k);
  }
}
