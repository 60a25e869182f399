/** In which order `findDocument` returns what it finds. */
module AnswerOrder {
  import opened Bytes
  import opened Json
  import opened Scans
  import opened IndexKeys
  import opened Naming
  import opened CollectionOps
  import opened History
  import opened Consistency
  import opened Query

  /** Both have the field, and `$gt` answers by ascending value on an exact index. */
  lemma GreaterIsSorted(s: Families, c: Str, f: Str, w: Str, i: nat, j: nat)
    requires Sound(s, c) && Exact(ViewOf(s, c)) && IndexCfName(c, f) in s && OneType(ViewOf(s, c), f)
    requires i < j < |GreaterScan(s[IndexCfName(c, f)], w)|
    ensures var ids := GreaterScan(s[IndexCfName(c, f)], w); InOrder(DocsOf(s, c), f, ids[i], ids[j])
  {
    var hi := GreaterIsSuffix(s[IndexCfName(c, f)], w);
    OrderPair(s, c, f, hi + i, hi + j);
  }

  /** `$lt` answers by descending value. */
  lemma LesserIsSorted(s: Families, c: Str, f: Str, w: Str, i: nat, j: nat)
    requires Sound(s, c) && Exact(ViewOf(s, c)) && IndexCfName(c, f) in s && OneType(ViewOf(s, c), f)
    requires i < j < |LesserScan(s[IndexCfName(c, f)], w)|
    ensures var ids := LesserScan(s[IndexCfName(c, f)], w); InOrder(DocsOf(s, c), f, ids[j], ids[i])
  {
    var lo := LesserIsReversedPrefix(s[IndexCfName(c, f)], w);
    OrderPair(s, c, f, lo - 1 - j, lo - 1 - i);
  }

  /** On an exact index `$gt` answers by ascending and `$lt` by descending value. */
  lemma RangesAreSorted(s: Families, c: Str, clause: Clause, i: nat, j: nat)
    requires Sound(s, c) && Exact(ViewOf(s, c)) && Answerable(s, c, clause) && OneType(ViewOf(s, c), clause.field)
    requires EvalClause(s, c, clause).Found? && i < j < |EvalClause(s, c, clause).ids|
    ensures var ids, docs := EvalClause(s, c, clause).ids, DocsOf(s, c);
            && (clause.op.Gt? ==> InOrder(docs, clause.field, ids[i], ids[j]))
            && (clause.op.Lt? ==> InOrder(docs, clause.field, ids[j], ids[i]))
  {
    if clause.op.Gt? {
      GreaterIsSorted(s, c, clause.field, Term(Encoded(clause.operand)), i, j);
    } else if clause.op.Lt? {
      LesserIsSorted(s, c, clause.field, Term(Encoded(clause.operand)), i, j);
    }
  }

  /** The ids that one entry appends: what a clause answers, the members of an `$and` or `$or` each
      once, the whole index, or none. */
  ghost predicate IsPart(s: Families, c: Str, entry: FilterEntry, part: seq<Str>) {
    && (forall id :: id in part <==> AnswerableEntry(s, c, entry) && Contributes(s, c, entry, id))
    && match entry
       case Compare(clause) => EvalClause(s, c, clause).Found? ==> part == EvalClause(s, c, clause).ids
       case And(_) => NoDuplicates(part)
       case Or(_) => NoDuplicates(part)
       case OrderBy(field, direction) =>
         IndexCfName(c, field) in s ==> part == OrderScan(s[IndexCfName(c, field)], direction == ASC)
  }

  function Flat(parts: seq<seq<Str>>): seq<Str> {
    if parts == [] then [] else Flat(parts[..|parts| - 1]) + parts[|parts| - 1]
  }

  lemma EntryAppends(s: Families, c: Str, entry: FilterEntry, before: Progress, after: Progress) returns (part: seq<Str>)
    requires before.Running? && WellFormedName(c) && EntryStep(s, c, entry, before, after) && GoesOn(s, c, entry)
    ensures after.Running? && after.ids == before.ids + part && IsPart(s, c, entry, part)
  {
    EntryContributes(s, c, entry, before, after);
    part := after.ids[|before.ids|..];
    match entry {
      case Compare(clause) =>
        ClauseOutcome(s, c, clause);
      case And(clauses) =>
        GoesOnAnswers(s, c, clauses);
      case Or(clauses) =>
        GoesOnAnswers(s, c, clauses);
      case OrderBy(_, _) =>
    }
  }

  lemma FlatSnoc(parts: seq<seq<Str>>, part: seq<Str>)
    ensures Flat(parts + [part]) == Flat(parts) + part
  {
    assert (parts + [part])[..|parts|] == parts;
  }

  lemma PartsSnoc(s: Families, c: Str, filter: seq<FilterEntry>, front: seq<seq<Str>>, last: seq<Str>)
    requires |filter| == |front| + 1 && IsPart(s, c, filter[|front|], last)
    requires forall i :: 0 <= i < |front| ==> IsPart(s, c, filter[..|front|][i], front[i])
    ensures forall i :: 0 <= i < |filter| ==> IsPart(s, c, filter[i], (front + [last])[i])
  {
    forall i | 0 <= i < |filter|
      ensures IsPart(s, c, filter[i], (front + [last])[i])
    {
      if i < |front| {
        assert filter[..|front|][i] == filter[i];
      }
    }
  }

  /** The answer is what the entries append, one after another in the order of the filter. */
  lemma {:induction false} AnswerIsConcatenation(s: Families, c: Str, filter: seq<FilterEntry>, after: Progress)
    returns (parts: seq<seq<Str>>)
    requires WellFormedName(c) && Evaluates(s, c, filter, after) && AllGoOn(s, c, filter)
    ensures after.Running? && after.ids == Flat(parts) && |parts| == |filter|
    ensures forall i :: 0 <= i < |filter| ==> IsPart(s, c, filter[i], parts[i])
    decreases |filter|
  {
    if filter == [] {
      parts := [];
    } else {
      var n := |filter| - 1;
      var before :| Evaluates(s, c, filter[..n], before) && EntryStep(s, c, filter[n], before, after);
      var front := AnswerIsConcatenation(s, c, filter[..n], before);
      var last := EntryAppends(s, c, filter[n], before, after);
      parts := front + [last];
      FlatSnoc(front, last);
      PartsSnoc(s, c, filter, front, last);
    }
  }
}
