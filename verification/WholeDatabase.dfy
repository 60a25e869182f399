/** Queries on a database with a life of its own: the sessions and the evaluator put together. */
module WholeDatabase {
  import opened Bytes
  import opened Naming
  import opened History
  import opened Query
  import opened Sessions

  /** A database as `open` first creates it. */
  const NEW := Db(map[DEFAULT := map[]], {})

  /** The whole database: from an empty one, after any number of sessions and any work on any
      collections, a query over indexed fields misses no stored document that satisfies it. */
  lemma NoFalseNegativesEver(ops: seq<DbOp>, c: Str, filter: seq<FilterEntry>, after: Progress, i: nat, id: Str)
    requires ProperRun(NEW, ops) && WellFormedName(c)
    requires var s := DbRun(NEW, ops).families;
             && Evaluates(s, c, filter, after)
             && AllGoOn(s, c, filter) && i < |filter| && AnswerableEntry(s, c, filter[i])
             && id in DocsOf(s, c) && SatisfiesEntry(DocsOf(s, c)[id], filter[i])
    ensures after.Running? && id in after.ids
  {
    NewDatabaseHealthy();
    SessionsHealthy(NEW, ops);
    FilterComplete(DbRun(NEW, ops).families, c, filter, after, i, id);
  }
}
