/** Concurrent `updateDocument` calls on one collection, step by step under its mutex. */
module ConcurrentUpdates {
  import opened Bytes
  import opened Json
  import opened StorageEngine
  import opened CollectionOps

  /** Where a thread stands in its call. Between lock and unlock it reads, applies its change and
      issues the engine writes one by one. */
  datatype Phase =
    | Waiting
    | Locked
    | HasRead(doc: Doc)
    | Writing(writes: seq<Write>, issued: nat)
    | Leaving
    | Finished

  /** `order` records which thread took the lock when; the steps do not depend on it. */
  datatype System = System(families: Families, lock: Option<nat>, threads: seq<Phase>, order: seq<nat>)

  datatype Call = Call(id: Str, change: Change, upsert: bool, freshId: Str)

  function At(sys: System, t: nat, phase: Phase): System
    requires t < |sys.threads|
  {
    sys.(threads := sys.threads[t := phase])
  }

  /** The next step of thread `t`; a thread that waits for a taken lock, or is done, does nothing.
      Leaving the scope of the guard, normally or by an exception, unlocks. */
  function Advance(c: Str, calls: seq<Call>, sys: System, t: nat): System
    requires t < |sys.threads| == |calls|
  {
    var call := calls[t];
    match sys.threads[t]
    case Waiting =>
      if sys.lock.Some? then sys
      else At(sys, t, Locked).(lock := Some(t), order := sys.order + [t])
    case Locked =>
      if UpdateProceeds(sys.families, c, call.id, call.upsert)
      then At(sys, t, HasRead(UpdateBase(sys.families, c, call.id)))
      else At(sys, t, Leaving)
    case HasRead(doc) => (
      match call.change(doc.data)
      case None => At(sys, t, Leaving)
      case Some(data) =>
        At(sys, t, Writing(StoreWrites(sys.families, c, Prepare(Doc(doc.id, data), call.freshId)), 0)))
    case Writing(ws, k) =>
      if k < |ws| then At(sys, t, Writing(ws, k + 1)).(families := Apply(sys.families, ws[k]))
      else At(sys, t, Leaving)
    case Leaving => At(sys, t, Finished).(lock := None)
    case Finished => sys
  }

  /** Any interleaving: the scheduler names the thread that moves next. */
  function Execute(c: Str, calls: seq<Call>, sys: System, schedule: seq<nat>): System
    requires |sys.threads| == |calls| && forall i :: 0 <= i < |schedule| ==> schedule[i] < |calls|
    decreases |schedule|
  {
    if schedule == [] then sys else Execute(c, calls, Advance(c, calls, sys, schedule[0]), schedule[1..])
  }

  function Start(s: Families, n: nat): System {
    System(s, None, seq(n, i => Waiting), [])
  }

  /** The effect of one whole call, and of calls one after another. */
  function Effect(c: Str, s: Families, call: Call): Families {
    UpdateDocument(s, c, call.id, call.change, call.upsert, call.freshId).0
  }

  function Serial(c: Str, calls: seq<Call>, s: Families, order: seq<nat>): Families
    requires forall i :: 0 <= i < |order| ==> order[i] < |calls|
    decreases |order|
  {
    if order == [] then s
    else
      var n := |order| - 1;
      Effect(c, Serial(c, calls, s, order[..n]), calls[order[n]])
  }

  // ---------- the invariant ----------

  ghost predicate Distinct(order: seq<nat>) {
    forall i, j :: 0 <= i < j < |order| ==> order[i] != order[j]
  }

  ghost predicate Outside(phase: Phase) {
    phase.Waiting? || phase.Finished?
  }

  /** The writes that a call issues when it found the state `base`. */
  ghost predicate IsUpdate(c: Str, base: Families, call: Call, ws: seq<Write>) {
    && UpdateProceeds(base, c, call.id, call.upsert)
    && var doc := UpdateBase(base, c, call.id);
       && call.change(doc.data).Some?
       && ws == StoreWrites(base, c, Prepare(Doc(doc.id, call.change(doc.data).value), call.freshId))
  }

  /** What the families are while thread `t` holds the lock, from the state `base` it found. */
  ghost predicate Progressing(c: Str, base: Families, call: Call, phase: Phase, now: Families) {
    match phase
    case Locked => now == base
    case HasRead(doc) =>
      now == base && UpdateProceeds(base, c, call.id, call.upsert) && doc == UpdateBase(base, c, call.id)
    case Writing(ws, k) =>
      && k <= |ws| && now == ApplyAll(base, ws[..k]) && IsUpdate(c, base, call, ws)
    case Leaving => now == Effect(c, base, call)
    case _ => false
  }

  ghost predicate OrderIsRecord(sys: System, n: nat) {
    && |sys.threads| == n && Distinct(sys.order)
    && (forall i :: 0 <= i < |sys.order| ==> sys.order[i] < n && !sys.threads[sys.order[i]].Waiting?)
    && (forall t :: 0 <= t < n && !sys.threads[t].Waiting? ==> t in sys.order)
  }

  ghost predicate Inv(c: Str, calls: seq<Call>, s: Families, sys: System) {
    && OrderIsRecord(sys, |calls|)
    && match sys.lock
       case None =>
         && (forall t :: 0 <= t < |calls| ==> Outside(sys.threads[t]))
         && sys.families == Serial(c, calls, s, sys.order)
       case Some(h) =>
         var n := |sys.order| - 1;
         && n >= 0 && sys.order[n] == h && h < |calls|
         && (forall t :: 0 <= t < |calls| && t != h ==> Outside(sys.threads[t]))
         && Progressing(c, Serial(c, calls, s, sys.order[..n]), calls[h], sys.threads[h], sys.families)
  }

  lemma {:induction false} ApplyNext(s: Families, ws: seq<Write>, k: nat)
    requires k < |ws|
    ensures ApplyAll(s, ws[..k + 1]) == Apply(ApplyAll(s, ws[..k]), ws[k])
  {
    assert ws[..k + 1] == ws[..k] + [ws[k]];
    ApplyAllConcat(s, ws[..k], [ws[k]]);
    assert [ws[k]][1..] == [];
  }

  /** Applying the change leads to the writes of the update, or to leaving without any. */
  lemma HolderApplies(c: Str, calls: seq<Call>, base: Families, sys: System, t: nat)
    requires t < |sys.threads| == |calls| && sys.threads[t].HasRead?
    requires Progressing(c, base, calls[t], sys.threads[t], sys.families)
    ensures var next := Advance(c, calls, sys, t);
            Progressing(c, base, calls[t], next.threads[t], next.families)
  {
    var writes := Advance(c, calls, sys, t).threads[t];
    assert writes.Writing? ==> writes.writes[..0] == [];
  }

  lemma HolderWrites(c: Str, calls: seq<Call>, base: Families, sys: System, t: nat)
    requires t < |sys.threads| == |calls| && sys.threads[t].Writing?
    requires Progressing(c, base, calls[t], sys.threads[t], sys.families)
    ensures var next := Advance(c, calls, sys, t);
            Progressing(c, base, calls[t], next.threads[t], next.families)
  {
    var ws, k := sys.threads[t].writes, sys.threads[t].issued;
    if k < |ws| {
      ApplyNext(base, ws, k);
    } else {
      assert ws[..k] == ws;
    }
  }

  /** The phases inside the critical section, taken by the holder. */
  lemma HolderAdvances(c: Str, calls: seq<Call>, base: Families, sys: System, t: nat)
    requires t < |sys.threads| == |calls| && !Outside(sys.threads[t])
    requires Progressing(c, base, calls[t], sys.threads[t], sys.families)
    ensures var next := Advance(c, calls, sys, t);
            if sys.threads[t].Leaving? then next.families == Effect(c, base, calls[t])
            else Progressing(c, base, calls[t], next.threads[t], next.families)
  {
    match sys.threads[t] {
      case Locked =>
      case HasRead(_) =>
        HolderApplies(c, calls, base, sys, t);
      case Writing(_, _) =>
        HolderWrites(c, calls, base, sys, t);
      case Leaving =>
    }
  }

  /** Only thread `t`, the lock and the families can differ after its step, and it is outside the
      critical section exactly when it has just left it. */
  ghost predicate HolderStep(sys: System, t: nat, next: System)
    requires t < |sys.threads|
  {
    && |next.threads| == |sys.threads| && next.threads == sys.threads[t := next.threads[t]]
    && next.order == sys.order
    && (if sys.threads[t].Leaving? then next.lock == None && next.threads[t].Finished?
        else next.lock == sys.lock && !next.threads[t].Waiting?)
  }

  lemma RecordStays(sys: System, n: nat, t: nat, next: System)
    requires OrderIsRecord(sys, n) && t < n && HolderStep(sys, t, next) && !sys.threads[t].Waiting?
    ensures OrderIsRecord(next, n)
  {
    assert forall u :: 0 <= u < n && u != t ==> next.threads[u] == sys.threads[u];
  }

  lemma HolderKeepsInv(c: Str, calls: seq<Call>, s: Families, sys: System, t: nat, next: System)
    requires Inv(c, calls, s, sys) && sys.lock == Some(t) && HolderStep(sys, t, next)
    requires var base := Serial(c, calls, s, sys.order[..|sys.order| - 1]);
             if sys.threads[t].Leaving? then next.families == Effect(c, base, calls[t])
             else Progressing(c, base, calls[t], next.threads[t], next.families)
    ensures Inv(c, calls, s, next)
  {
    RecordStays(sys, |calls|, t, next);
  }

  /** Taking the lock extends the record. */
  lemma RecordExtends(sys: System, n: nat, t: nat, next: System)
    requires OrderIsRecord(sys, n) && t < n && sys.threads[t].Waiting?
    requires next.threads == sys.threads[t := Locked] && next.order == sys.order + [t]
    ensures OrderIsRecord(next, n)
  {
    assert t !in sys.order;
    forall u | 0 <= u < n && !next.threads[u].Waiting? ensures u in next.order {
      if u == t {
        assert next.order[|sys.order|] == t;
      } else {
        assert u in sys.order;
      }
    }
  }

  lemma AcquireKeepsInv(c: Str, calls: seq<Call>, s: Families, sys: System, t: nat, next: System)
    requires Inv(c, calls, s, sys) && sys.lock == None && t < |calls| && sys.threads[t].Waiting?
    requires next == System(sys.families, Some(t), sys.threads[t := Locked], sys.order + [t])
    ensures Inv(c, calls, s, next)
  {
    RecordExtends(sys, |calls|, t, next);
    assert next.order[..|sys.order|] == sys.order;
  }

  lemma AdvanceKeepsInv(c: Str, calls: seq<Call>, s: Families, sys: System, t: nat)
    requires Inv(c, calls, s, sys) && t < |calls|
    ensures Inv(c, calls, s, Advance(c, calls, sys, t))
  {
    var next := Advance(c, calls, sys, t);
    if sys.lock == Some(t) {
      HolderAdvances(c, calls, Serial(c, calls, s, sys.order[..|sys.order| - 1]), sys, t);
      HolderKeepsInv(c, calls, s, sys, t, next);
    } else if sys.lock == None && sys.threads[t].Waiting? {
      AcquireKeepsInv(c, calls, s, sys, t, next);
    } else {
      assert Outside(sys.threads[t]);
      assert next == sys;
    }
  }

  lemma {:induction false} ExecuteKeepsInv(c: Str, calls: seq<Call>, s: Families, sys: System, schedule: seq<nat>)
    requires Inv(c, calls, s, sys) && forall i :: 0 <= i < |schedule| ==> schedule[i] < |calls|
    ensures Inv(c, calls, s, Execute(c, calls, sys, schedule))
    decreases |schedule|
  {
    if schedule != [] {
      AdvanceKeepsInv(c, calls, s, sys, schedule[0]);
      ExecuteKeepsInv(c, calls, s, Advance(c, calls, sys, schedule[0]), schedule[1..]);
    }
  }

  lemma StartInv(c: Str, calls: seq<Call>, s: Families)
    ensures Inv(c, calls, s, Start(s, |calls|))
  {
  }

  lemma ScheduleKeepsInv(c: Str, calls: seq<Call>, s: Families, schedule: seq<nat>)
    requires forall i :: 0 <= i < |schedule| ==> schedule[i] < |calls|
    ensures Inv(c, calls, s, Execute(c, calls, Start(s, |calls|), schedule))
  {
    StartInv(c, calls, s);
    ExecuteKeepsInv(c, calls, s, Start(s, |calls|), schedule);
  }

  ghost predicate AllFinished(sys: System) {
    forall t :: 0 <= t < |sys.threads| ==> sys.threads[t].Finished?
  }

  /** No lost updates: under every schedule, once all calls have returned the stored state is that
      of the calls run one after another, each exactly once, in the order they took the lock. */
  lemma NoLostUpdates(c: Str, calls: seq<Call>, s: Families, schedule: seq<nat>)
    requires forall i :: 0 <= i < |schedule| ==> schedule[i] < |calls|
    requires AllFinished(Execute(c, calls, Start(s, |calls|), schedule))
    ensures var end := Execute(c, calls, Start(s, |calls|), schedule);
            && Distinct(end.order)
            && (forall i :: 0 <= i < |end.order| ==> end.order[i] < |calls|)
            && (forall t :: 0 <= t < |calls| ==> t in end.order)
            && end.families == Serial(c, calls, s, end.order)
  {
    ScheduleKeepsInv(c, calls, s, schedule);
  }

  /** At any time at most one thread is between lock and unlock. */
  lemma MutualExclusion(c: Str, calls: seq<Call>, s: Families, schedule: seq<nat>, t: nat, u: nat)
    requires forall i :: 0 <= i < |schedule| ==> schedule[i] < |calls|
    requires t < |calls| && u < |calls|
    ensures var end := Execute(c, calls, Start(s, |calls|), schedule);
            && |end.threads| == |calls|
            && (!Outside(end.threads[t]) && !Outside(end.threads[u]) ==> t == u)
  {
    ScheduleKeepsInv(c, calls, s, schedule);
  }

  // ---------- no deadlock ----------

  lemma ExecuteCons(c: Str, calls: seq<Call>, sys: System, t: nat, rest: seq<nat>)
    requires t < |sys.threads| == |calls| && forall i :: 0 <= i < |rest| ==> rest[i] < |calls|
    ensures forall i :: 0 <= i < |[t] + rest| ==> ([t] + rest)[i] < |calls|
    ensures Execute(c, calls, sys, [t] + rest) == Execute(c, calls, Advance(c, calls, sys, t), rest)
  {
    assert ([t] + rest)[1..] == rest;
  }

  /** Thread `t` has finished, the lock is free, and no other thread has moved. */
  ghost predicate FinishedOne(sys: System, t: nat, end: System)
    requires t < |sys.threads|
  {
    end.threads == sys.threads[t := Finished] && end.lock == None
  }

  function Rank(phase: Phase): nat {
    match phase
    case Waiting => 5
    case Locked => 4
    case HasRead(_) => 3
    case Writing(_, _) => 2
    case Leaving => 1
    case Finished => 0
  }

  function Unissued(phase: Phase): nat {
    if phase.Writing? && phase.issued <= |phase.writes| then |phase.writes| - phase.issued else 0
  }

  /** A thread inside the critical section, left to itself, comes out of it. */
  lemma {:induction false} HolderFinishes(c: Str, calls: seq<Call>, sys: System, t: nat) returns (schedule: seq<nat>)
    requires t < |sys.threads| == |calls| && !Outside(sys.threads[t])
    ensures forall i :: 0 <= i < |schedule| ==> schedule[i] < |calls|
    ensures FinishedOne(sys, t, Execute(c, calls, sys, schedule))
    decreases Rank(sys.threads[t]), Unissued(sys.threads[t])
  {
    var next := Advance(c, calls, sys, t);
    var rest: seq<nat> := [];
    if sys.threads[t].Leaving? {
      assert FinishedOne(sys, t, next);
    } else {
      rest := HolderFinishes(c, calls, next, t);
      assert next.threads[t := Finished] == sys.threads[t := Finished];
    }
    schedule := [t] + rest;
    ExecuteCons(c, calls, sys, t, rest);
  }

  /** A waiting thread, left to itself while the lock is free, takes it and comes out again. */
  lemma WaiterFinishes(c: Str, calls: seq<Call>, sys: System, t: nat) returns (schedule: seq<nat>)
    requires t < |sys.threads| == |calls| && sys.threads[t].Waiting? && sys.lock == None
    ensures forall i :: 0 <= i < |schedule| ==> schedule[i] < |calls|
    ensures FinishedOne(sys, t, Execute(c, calls, sys, schedule))
  {
    var next := Advance(c, calls, sys, t);
    var rest := HolderFinishes(c, calls, next, t);
    assert next.threads[t := Finished] == sys.threads[t := Finished];
    schedule := [t] + rest;
    ExecuteCons(c, calls, sys, t, rest);
  }

  lemma {:induction false} ExecuteConcat(c: Str, calls: seq<Call>, sys: System, a: seq<nat>, b: seq<nat>)
    requires |sys.threads| == |calls| && (forall i :: 0 <= i < |a| ==> a[i] < |calls|)
    requires forall i :: 0 <= i < |b| ==> b[i] < |calls|
    ensures |Execute(c, calls, sys, a).threads| == |calls| && forall i :: 0 <= i < |a + b| ==> (a + b)[i] < |calls|
    ensures Execute(c, calls, sys, a + b) == Execute(c, calls, Execute(c, calls, sys, a), b)
    decreases |a|
  {
    if a == [] {
      assert a + b == b;
    } else {
      assert (a + b)[1..] == a[1..] + b;
      ExecuteConcat(c, calls, Advance(c, calls, sys, a[0]), a[1..], b);
    }
  }

  lemma {:induction false} RestFinish(c: Str, calls: seq<Call>, sys: System, n: nat) returns (schedule: seq<nat>)
    requires n <= |sys.threads| == |calls| && sys.lock == None
    requires (forall t :: 0 <= t < |calls| ==> Outside(sys.threads[t])) && forall t :: 0 <= t < n ==> sys.threads[t].Finished?
    ensures forall i :: 0 <= i < |schedule| ==> schedule[i] < |calls|
    ensures AllFinished(Execute(c, calls, sys, schedule))
    decreases |calls| - n
  {
    if n == |calls| {
      schedule := [];
    } else if sys.threads[n].Finished? {
      schedule := RestFinish(c, calls, sys, n + 1);
    } else {
      var first := WaiterFinishes(c, calls, sys, n);
      var rest := RestFinish(c, calls, Execute(c, calls, sys, first), n + 1);
      ExecuteConcat(c, calls, sys, first, rest);
      schedule := first + rest;
    }
  }

  /** No deadlock: whatever has happened so far, all calls can still return. */
  lemma NoDeadlock(c: Str, calls: seq<Call>, s: Families, soFar: seq<nat>) returns (schedule: seq<nat>)
    requires forall i :: 0 <= i < |soFar| ==> soFar[i] < |calls|
    ensures forall i :: 0 <= i < |schedule| ==> schedule[i] < |calls|
    ensures soFar <= schedule && AllFinished(Execute(c, calls, Start(s, |calls|), schedule))
  {
    var sys := Execute(c, calls, Start(s, |calls|), soFar);
    ScheduleKeepsInv(c, calls, s, soFar);
    var rest := InvFinish(c, calls, s, sys);
    ExecuteConcat(c, calls, Start(s, |calls|), soFar, rest);
    schedule := soFar + rest;
  }

  lemma InvFinish(c: Str, calls: seq<Call>, s: Families, sys: System) returns (schedule: seq<nat>)
    requires Inv(c, calls, s, sys)
    ensures forall i :: 0 <= i < |schedule| ==> schedule[i] < |calls|
    ensures AllFinished(Execute(c, calls, sys, schedule))
  {
    match sys.lock {
      case None =>
        schedule := RestFinish(c, calls, sys, 0);
      case Some(h) =>
        var first := HolderFinishes(c, calls, sys, h);
        var rest := RestFinish(c, calls, Execute(c, calls, sys, first), 0);
        ExecuteConcat(c, calls, sys, first, rest);
        schedule := first + rest;
    }
  }
}
