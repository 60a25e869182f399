/** Readers beside concurrent updates: they take no lock, so they see the families between any two
    engine writes. */
module ConcurrentReaders {
  import opened Bytes
  import opened Json
  import opened StorageEngine
  import opened CollectionOps
  import opened History
  import opened Consistency
  import opened CrashPoints
  import opened Query
  import opened ConcurrentUpdates

  function AsOp(call: Call): Op {
    Update(call.id, call.change, call.upsert, call.freshId)
  }

  ghost predicate HashFreeCalls(calls: seq<Call>) {
    forall i :: 0 <= i < |calls| ==> HashFreeIds(AsOp(calls[i]))
  }

  /** A collection on which queries miss nothing. */
  ghost predicate Complete(s: Families, c: Str) {
    Sound(s, c) && NoMissing(ViewOf(s, c))
  }

  lemma EffectComplete(c: Str, s: Families, call: Call)
    requires Complete(s, c) && HashFreeIds(AsOp(call))
    ensures Complete(Effect(c, s, call), c)
  {
    StepRefines(s, c, AsOp(call));
    SoundKeyed(s, c);
    StepNoMissing(ViewOf(s, c), AsOp(call));
  }

  lemma {:induction false} SerialComplete(c: Str, calls: seq<Call>, s: Families, order: seq<nat>)
    requires Complete(s, c) && HashFreeCalls(calls) && forall i :: 0 <= i < |order| ==> order[i] < |calls|
    ensures Complete(Serial(c, calls, s, order), c)
    decreases |order|
  {
    if order != [] {
      var n := |order| - 1;
      SerialComplete(c, calls, s, order[..n]);
      EffectComplete(c, Serial(c, calls, s, order[..n]), calls[order[n]]);
    }
  }

  /** In the middle of its writes an update is like a store that stopped there. */
  lemma WritingComplete(c: Str, base: Families, call: Call, ws: seq<Write>, k: nat)
    requires Complete(base, c) && HashFreeIds(AsOp(call)) && IsUpdate(c, base, call, ws) && k <= |ws|
    ensures Complete(ApplyAll(base, ws[..k]), c)
  {
    var doc := UpdateBase(base, c, call.id);
    CrashInStore(base, c, Prepare(Doc(doc.id, call.change(doc.data).value), call.freshId), k);
  }

  lemma ProgressComplete(c: Str, base: Families, call: Call, phase: Phase, now: Families)
    requires Complete(base, c) && HashFreeIds(AsOp(call)) && Progressing(c, base, call, phase, now)
    ensures Complete(now, c)
  {
    match phase {
      case Writing(ws, k) =>
        WritingComplete(c, base, call, ws, k);
      case Leaving =>
        EffectComplete(c, base, call);
      case _ =>
    }
  }

  lemma PointComplete(c: Str, calls: seq<Call>, s: Families, sys: System)
    requires Complete(s, c) && HashFreeCalls(calls) && Inv(c, calls, s, sys)
    ensures Complete(sys.families, c)
  {
    match sys.lock {
      case None =>
        SerialComplete(c, calls, s, sys.order);
      case Some(h) =>
        var n := |sys.order| - 1;
        SerialComplete(c, calls, s, sys.order[..n]);
        ProgressComplete(c, Serial(c, calls, s, sys.order[..n]), calls[h], sys.threads[h], sys.families);
    }
  }

  lemma ScheduleComplete(c: Str, calls: seq<Call>, s: Families, schedule: seq<nat>)
    requires Complete(s, c) && HashFreeCalls(calls)
    requires forall i :: 0 <= i < |schedule| ==> schedule[i] < |calls|
    ensures Complete(Execute(c, calls, Start(s, |calls|), schedule).families, c)
  {
    ScheduleKeepsInv(c, calls, s, schedule);
    PointComplete(c, calls, s, Execute(c, calls, Start(s, |calls|), schedule));
  }

  /** At every point of every schedule of concurrent updates, also between the writes of one, no stored
      document lacks an index entry; so a scan taken there answers every stored document that
      satisfies its clause. */
  lemma ReadersMissNothing(c: Str, calls: seq<Call>, s: Families, schedule: seq<nat>, now: Families, clause: Clause, id: Str)
    requires Complete(s, c) && HashFreeCalls(calls)
    requires forall i :: 0 <= i < |schedule| ==> schedule[i] < |calls|
    requires now == Execute(c, calls, Start(s, |calls|), schedule).families
    ensures Complete(now, c)
    ensures Answerable(now, c, clause) && Matches(now, c, clause, id) ==>
              EvalClause(now, c, clause).Found? && id in EvalClause(now, c, clause).ids
  {
    ScheduleComplete(c, calls, s, schedule);
    if Answerable(now, c, clause) && Matches(now, c, clause, id) {
      ClauseComplete(now, c, clause, id);
    }
  }
}
