/** That requests are answered: what becomes of every reply in any interleaving, and that a request on
    its own is received, handled and answered. */
module Replies {
  import opened Bytes
  import opened Json
  import opened WorkerProtocol

  /** The failed attempts to send the final reply to a request. */
  function UnsentCount(log: seq<Event>, number: nat): nat {
    if log == [] then 0
    else
      var n := |log| - 1;
      UnsentCount(log[..n], number) + if log[n].Unsent? && log[n].number == number then 1 else 0
  }

  lemma UnsentSnoc(log: seq<Event>, e: Event, number: nat)
    ensures UnsentCount(log + [e], number) ==
            UnsentCount(log, number) + if e.Unsent? && e.number == number then 1 else 0
  {
    assert (log + [e])[..|log|] == log;
  }

  /** A worker stands ready to send this reply to its last request, on this topic. */
  ghost predicate AboutToSend<D, L>(sys: System<D, L>, w: int, number: nat, topic: Str, reply: Str) {
    && 0 <= w < |sys.works|
    && var work := sys.works[w];
       work.phase.Send? && work.last == Some(number) && work.reply == Some(reply) && work.requestid == Some(topic)
  }

  /** The reply to the request of turn `i`, if the request is done, has one and its message was freed,
      has been sent exactly once, or could not be sent, or a worker is about to send it. */
  ghost predicate Answered<D, L>(p: Program<D, L>, db: D, sys: System<D, L>, i: int)
    requires 0 <= i < |sys.served|
  {
    var q, m := PointOf(p, db, sys.served, i), sys.served[i].message;
    forall reply :: p.step(q.db, q.local) == Finish(reply) && reply != [] && FreedCount(sys.log, m.number) == 1 ==>
      || FinalCount(sys.log, m.number) == 1
      || UnsentCount(sys.log, m.number) >= 1
      || exists w :: AboutToSend(sys, w, m.number, p.topic(m.payload), reply)
  }

  ghost predicate AllAnswered<D, L>(p: Program<D, L>, db: D, sys: System<D, L>) {
    forall i :: 0 <= i < |sys.served| ==> Answered(p, db, sys, i)
  }

  /** The counts of one request. */
  ghost predicate SameCounts(log: seq<Event>, log': seq<Event>, number: nat) {
    && FreedCount(log', number) == FreedCount(log, number)
    && FinalCount(log', number) == FinalCount(log, number)
    && UnsentCount(log', number) == UnsentCount(log, number)
  }

  lemma OtherEvent(log: seq<Event>, e: Event, number: nat)
    requires e.Received? || e.number != number
    ensures SameCounts(log, log + [e], number)
  {
    LogSnoc(log, e);
    UnsentSnoc(log, e, number);
  }

  lemma NoEvent(log: seq<Event>, number: nat)
    ensures log + [] == log && SameCounts(log, log, number)
  {
  }

  /** A turn stays answered as long as it stands where it stood, nothing is logged about its request,
      and a worker about to send its reply still is. */
  lemma AnsweredStays<D, L>(p: Program<D, L>, db: D, sys: System<D, L>, next: System<D, L>, i: int)
    requires 0 <= i < |sys.served| && i < |next.served| && Answered(p, db, sys, i)
    requires next.served[i].message == sys.served[i].message
    requires PointOf(p, db, next.served, i) == PointOf(p, db, sys.served, i)
    requires SameCounts(sys.log, next.log, sys.served[i].message.number)
    requires forall w, topic, reply :: AboutToSend(sys, w, sys.served[i].message.number, topic, reply) ==>
               AboutToSend(next, w, sys.served[i].message.number, topic, reply)
    ensures Answered(p, db, next, i)
  {
  }

  lemma UnfreedIsAnswered<D, L>(p: Program<D, L>, db: D, sys: System<D, L>, i: int)
    requires 0 <= i < |sys.served| && FreedCount(sys.log, sys.served[i].message.number) == 0
    ensures Answered(p, db, sys, i)
  {
  }

  /** Only the worker that received a request last can be about to send its reply. */
  lemma OnlySender<D, L>(sys: System<D, L>, w: nat, number: nat)
    requires LastsDistinct(sys) && w < |sys.works| && sys.works[w].last == Some(number)
    ensures forall v, topic, reply :: AboutToSend(sys, v, number, topic, reply) ==> v == w
  {
    assert forall v :: 0 <= v < |sys.works| && sys.works[v].last == Some(number) ==> !(v < w) && !(w < v);
  }

  /** What a step of worker `w` leaves alone about a request that it did not receive last. */
  lemma OthersAnswered<D, L>(p: Program<D, L>, db: D, sys: System<D, L>, next: System<D, L>, w: nat, i: int, events: seq<Event>)
    requires w < |sys.works| == |next.works| && next.works == sys.works[w := next.works[w]]
    requires |events| <= 1 && next.log == sys.log + events
    requires 0 <= i < |sys.served| && i < |next.served| && Answered(p, db, sys, i)
    requires sys.works[w].last != Some(sys.served[i].message.number)
    requires events != [] ==> events[0].Received? || events[0].number != sys.served[i].message.number
    requires next.served[i].message == sys.served[i].message
    requires PointOf(p, db, next.served, i) == PointOf(p, db, sys.served, i)
    ensures Answered(p, db, next, i)
  {
    var n := sys.served[i].message.number;
    if events == [] {
      NoEvent(sys.log, n);
    } else {
      OtherEvent(sys.log, events[0], n);
      assert sys.log + events == sys.log + [events[0]];
    }
    forall v, topic, reply | AboutToSend(sys, v, n, topic, reply)
      ensures AboutToSend(next, v, n, topic, reply)
    {
      assert v != w;
    }
    AnsweredStays(p, db, sys, next, i);
  }

  // ---------- one callback ----------

  lemma RecvAnswers<D, L>(p: Program<D, L>, db: D, sys: System<D, L>, w: nat, input: Input, i: int)
    requires w < |sys.works| && sys.works[w].phase.Recv?
    requires 0 <= i < |sys.served| && Answered(p, db, sys, i)
    ensures Answered(p, db, OnRecv(sys, w, input), i)
  {
    if input.Receives? {
      var next, n := OnRecv(sys, w, input), sys.served[i].message.number;
      OtherEvent(sys.log, Received(w, sys.count), n);
      forall v, topic, reply | AboutToSend(sys, v, n, topic, reply)
        ensures AboutToSend(next, v, n, topic, reply)
      {
        assert v != w;
      }
      AnsweredStays(p, db, sys, next, i);
    }
  }

  /** Taking the mutex and moving: the request of the worker has not been freed. */
  lemma MovesAnswer<D, L>(p: Program<D, L>, db: D, sys: System<D, L>, w: nat, next: System<D, L>, events: seq<Event>, i: int)
    requires Inv(p, db, sys) && w < |sys.works| && sys.works[w].phase.Wait? && Moves(sys, next, w, events)
    requires events != [] ==> events[0].Streamed? && sys.works[w].last == Some(events[0].number)
    requires 0 <= i < |next.served| && (i < |sys.served| ==> Answered(p, db, sys, i))
    requires i < |sys.served| ==> next.served[i].message == sys.served[i].message
    requires sys.works[w].last != Some(next.served[i].message.number) ==>
               i < |sys.served| && PointOf(p, db, next.served, i) == PointOf(p, db, sys.served, i)
    ensures Answered(p, db, next, i)
  {
    var n := next.served[i].message.number;
    assert WorkOk(p, db, sys, w);
    if sys.works[w].last == Some(n) {
      LogMoves(sys.log, events);
      if events != [] {
        LogSnoc(sys.log, events[0]);
      }
      UnfreedIsAnswered(p, db, next, i);
    } else {
      OthersAnswered(p, db, sys, next, w, i, events);
    }
  }

  lemma BeginAnswers<D, L>(p: Program<D, L>, db: D, sys: System<D, L>, w: nat, input: Input, i: int)
    requires Inv(p, db, sys) && w < |sys.works| && sys.works[w].msg.Some? && sys.works[w].task.Idle?
    requires sys.works[w].msg.value.payload != [] && sys.mutex.None?
    requires 0 <= i <= |sys.served| && (i < |sys.served| ==> Answered(p, db, sys, i))
    ensures i < |OnWait(p, sys, w, input).served| && Answered(p, db, OnWait(p, sys, w, input), i)
  {
    var next := OnWait(p, sys, w, input);
    assert WorkOk(p, db, sys, w);
    BeginMoves(p, sys, w, input);
    assert next.served[..|sys.served|] == sys.served == sys.served[..|sys.served|];
    LaterTurns(p, db, sys.served, next.served, |sys.served|);
    MovesAnswer(p, db, sys, w, next, [], i);
  }

  /** Counting a move of the last turn leaves all turns their messages, and the others their places. */
  lemma CountingKeeps<D, L>(p: Program<D, L>, db: D, served: seq<Turn>, i: nat)
    requires i < |served|
    ensures var served' := Counted(served, |served| - 1);
            && |served'| == |served| && served'[i].message == served[i].message
            && (i < |served| - 1 ==> PointOf(p, db, served', i) == PointOf(p, db, served, i))
  {
    var n := |served| - 1;
    var served' := Counted(served, n);
    assert served'[..n] == served[..n];
    LaterTurns(p, db, served, served', n);
  }

  lemma MoveAnswers<D, L>(p: Program<D, L>, db: D, sys: System<D, L>, w: nat, input: Input, i: int)
    requires Inv(p, db, sys) && w < |sys.works| && sys.works[w].msg.Some? && sys.works[w].task.Running?
    requires !p.step(sys.db, sys.works[w].task.local).Finish?
    requires 0 <= i < |sys.served| && Answered(p, db, sys, i)
    ensures i < |OnWait(p, sys, w, input).served| && Answered(p, db, OnWait(p, sys, w, input), i)
  {
    var next := OnWait(p, sys, w, input);
    var move := p.step(sys.db, sys.works[w].task.local);
    assert WorkOk(p, db, sys, w);
    HolderStands(p, db, sys, w);
    HolderMoves(p, sys, w, input);
    CountingKeeps(p, db, sys.served, i);
    MovesAnswer(p, db, sys, w, next, MoveEvents(p, w, sys.works[w].msg.value, move, input), i);
  }

  /** Leaving keeps the reply for sending: the turn of the message is the last, and it is done. */
  lemma LeaveAnswers<D, L>(p: Program<D, L>, db: D, sys: System<D, L>, w: nat, reply: Str, next: System<D, L>, i: int)
    requires Inv(p, db, sys) && w < |sys.works| && sys.works[w].msg.Some?
    requires if sys.works[w].task.Idle? then reply == [] else p.step(sys.db, sys.works[w].task.local) == Finish(reply)
    requires next == Leave(sys, w, sys.works[w].msg.value, reply).(mutex := if sys.works[w].task.Idle? then sys.mutex else None)
    requires 0 <= i < |sys.served| && Answered(p, db, sys, i)
    ensures Answered(p, db, next, i)
  {
    var m, n := sys.works[w].msg.value, sys.served[i].message.number;
    assert WorkOk(p, db, sys, w);
    if n != m.number {
      OthersAnswered(p, db, sys, next, w, i, [Freed(m.number)]);
    } else {
      assert sys.works[w].task.Running?;
      HolderStands(p, db, sys, w);
      assert i == |sys.served| - 1;
      assert sys.served[i].message == m;
      if reply != [] {
        assert AboutToSend(next, w, n, p.topic(m.payload), reply);
      }
    }
  }

  lemma WaitAnswers<D, L>(p: Program<D, L>, db: D, sys: System<D, L>, w: nat, input: Input, i: int)
    requires Inv(p, db, sys) && w < |sys.works| && sys.works[w].msg.Some?
    requires 0 <= i < |OnWait(p, sys, w, input).served| && (i < |sys.served| ==> Answered(p, db, sys, i))
    ensures Answered(p, db, OnWait(p, sys, w, input), i)
  {
    var work := sys.works[w];
    match work.task {
      case Idle =>
        if work.msg.value.payload == [] {
          LeaveAnswers(p, db, sys, w, [], OnWait(p, sys, w, input), i);
        } else if sys.mutex.None? {
          BeginAnswers(p, db, sys, w, input, i);
        }
      case Running(local, turn) =>
        HolderStands(p, db, sys, w);
        match p.step(sys.db, local) {
          case Finish(reply) =>
            LeaveAnswers(p, db, sys, w, reply, OnWait(p, sys, w, input), i);
          case _ =>
            assert |OnWait(p, sys, w, input).served| == |sys.served|;
            MoveAnswers(p, db, sys, w, input, i);
        }
    }
  }

  lemma SendAnswers<D, L>(p: Program<D, L>, db: D, sys: System<D, L>, w: nat, input: Input, i: int)
    requires Ready(sys, w) && sys.works[w].phase.Send? && LastsDistinct(sys) && WorkOk(p, db, sys, w)
    requires 0 <= i < |sys.served| && Answered(p, db, sys, i)
    ensures Answered(p, db, OnSend(sys, w, input), i)
  {
    var next, work, n := OnSend(sys, w, input), sys.works[w], sys.served[i].message.number;
    var events := if work.reply.None? then []
                  else if input.Fails? then [Unsent(w, work.last.value)]
                  else [Final(w, work.last.value, work.requestid.value, work.reply.value)];
    assert sys.log + [] == sys.log;
    if work.last != Some(n) {
      OthersAnswered(p, db, sys, next, w, i, events);
    } else {
      OnlySender(sys, w, n);
      if events == [] {
        AnsweredStays(p, db, sys, next, i);
      } else {
        LogSnoc(sys.log, events[0]);
        UnsentSnoc(sys.log, events[0], n);
      }
    }
  }

  lemma CallbackAnswers<D, L>(p: Program<D, L>, db: D, sys: System<D, L>, w: nat, input: Input)
    requires Inv(p, db, sys) && Ready(sys, w) && AllAnswered(p, db, sys)
    ensures AllAnswered(p, db, Callback(p, sys, w, input))
  {
    var next := Callback(p, sys, w, input);
    assert WorkOk(p, db, sys, w);
    forall i | 0 <= i < |next.served|
      ensures Answered(p, db, next, i)
    {
      match sys.works[w].phase {
        case Init =>
          InitAnswers(p, db, sys, w, next, i);
        case Recv =>
          RecvAnswers(p, db, sys, w, input, i);
        case Wait =>
          WaitAnswers(p, db, sys, w, input, i);
        case Send =>
          SendAnswers(p, db, sys, w, input, i);
      }
    }
  }

  lemma InitAnswers<D, L>(p: Program<D, L>, db: D, sys: System<D, L>, w: nat, next: System<D, L>, i: int)
    requires w < |sys.works| && sys.works[w].phase.Init? && next == Put(sys, w, sys.works[w].(phase := WorkerProtocol.Recv), None)
    requires 0 <= i < |sys.served| && Answered(p, db, sys, i)
    ensures Answered(p, db, next, i)
  {
    NoEvent(sys.log, sys.served[i].message.number);
    AnsweredStays(p, db, sys, next, i);
  }

  // ---------- whole runs ----------

  lemma {:induction false} RunAnswers<D, L>(p: Program<D, L>, db: D, sys: System<D, L>, steps: seq<(nat, Input)>)
    requires Inv(p, db, sys) && AllAnswered(p, db, sys)
    ensures Inv(p, db, Run(p, sys, steps)) && AllAnswered(p, db, Run(p, sys, steps))
    decreases |steps|
  {
    if steps != [] && Ready(sys, steps[0].0) {
      CallbackKeeps(p, db, sys, steps[0].0, steps[0].1);
      CallbackAnswers(p, db, sys, steps[0].0, steps[0].1);
      RunAnswers(p, db, Callback(p, sys, steps[0].0, steps[0].1), steps[1..]);
    }
  }

  /** No reply is lost, over every interleaving and any failures: the reply to a request that is done,
      has one and whose message was freed has been sent exactly once, or a failed attempt to send it
      is on record, or its worker stands in SEND with exactly that reply and topic. */
  lemma NoReplyLost<D, L>(p: Program<D, L>, db: D, n: nat, steps: seq<(nat, Input)>)
    ensures AllAnswered(p, db, Run(p, Start(db, n), steps))
  {
    StartInv(p, db, n);
    RunAnswers(p, db, Start(db, n), steps);
  }

  ghost predicate NothingFails(steps: seq<(nat, Input)>) {
    forall j :: 0 <= j < |steps| ==> !steps[j].1.Fails?
  }

  /** A callback logs at most one event, and a failed attempt to send only on a failing input. */
  lemma CallbackLogs<D, L>(p: Program<D, L>, sys: System<D, L>, w: nat, input: Input) returns (events: seq<Event>)
    requires Ready(sys, w)
    ensures |events| <= 1 && Callback(p, sys, w, input).log == sys.log + events
    ensures events != [] && events[0].Unsent? ==> input.Fails?
  {
    var next := Callback(p, sys, w, input);
    events := next.log[|sys.log|..];
    assert next.log == sys.log + events;
  }

  lemma {:induction false} NothingUnsent<D, L>(p: Program<D, L>, sys: System<D, L>, steps: seq<(nat, Input)>, number: nat)
    requires NothingFails(steps) && UnsentCount(sys.log, number) == 0
    ensures UnsentCount(Run(p, sys, steps).log, number) == 0
    decreases |steps|
  {
    if steps != [] && Ready(sys, steps[0].0) {
      var next := Callback(p, sys, steps[0].0, steps[0].1);
      var events := CallbackLogs(p, sys, steps[0].0, steps[0].1);
      if events == [] {
        assert next.log == sys.log;
      } else {
        assert next.log == sys.log + [events[0]];
        UnsentSnoc(sys.log, events[0], number);
      }
      NothingUnsent(p, next, steps[1..], number);
    }
  }

  /** So if nothing fails, every request that is done, has a reply and whose message was freed is
      answered exactly once as soon as no worker stands in SEND with it. */
  lemma AnsweredExactlyOnce<D, L>(p: Program<D, L>, db: D, n: nat, steps: seq<(nat, Input)>, i: nat, reply: Str)
    requires NothingFails(steps)
    requires var end := Run(p, Start(db, n), steps);
             && i < |end.served| && FreedCount(end.log, end.served[i].message.number) == 1 && reply != []
             && p.step(PointOf(p, db, end.served, i).db, PointOf(p, db, end.served, i).local) == Finish(reply)
             && forall w, topic :: !AboutToSend(end, w, end.served[i].message.number, topic, reply)
    ensures var end := Run(p, Start(db, n), steps); FinalCount(end.log, end.served[i].message.number) == 1
  {
    var end := Run(p, Start(db, n), steps);
    NoReplyLost(p, db, n, steps);
    assert Answered(p, db, end, i);
    NothingUnsent(p, Start(db, n), steps, end.served[i].message.number);
  }

  // ---------- a request on its own ----------

  function Ticks(n: nat): seq<(nat, Input)> {
    if n == 0 then [] else [(0, Succeeds)] + Ticks(n - 1)
  }

  function Delivered(topic: Str, payloads: seq<Str>): seq<Event> {
    seq(|payloads|, i requires 0 <= i < |payloads| => Streamed(0, 0, topic, payloads[i], true))
  }

  /** The only worker after `j` moves of its request. */
  function Midway<D, L>(p: Program<D, L>, db: D, payload: Str, j: nat): System<D, L> {
    var q, m := Alone(p, db, payload, j), Message(0, payload);
    System(q.db, Some(0), [Work(WorkerProtocol.Wait, Some(m), None, Some(p.topic(payload)), Running(q.local, 0), Some(0))], 1,
           [Turn(m, j)], [Received(0, 0)] + Delivered(p.topic(payload), q.emitted))
  }

  /** The worker is back at receiving; everything was streamed, freed and answered, in this order. */
  function Served<D, L>(p: Program<D, L>, db: D, payload: Str, k: nat, reply: Str): System<D, L> {
    var q, topic := Alone(p, db, payload, k), p.topic(payload);
    System(q.db, None, [Work(WorkerProtocol.Recv, None, None, None, Idle, Some(0))], 1, [Turn(Message(0, payload), k)],
           [Received(0, 0)] + Delivered(topic, q.emitted) + [Freed(0), Final(0, 0, topic, reply)])
  }

  lemma MidwayMoves<D, L>(p: Program<D, L>, db: D, payload: Str, j: nat)
    requires !Done(p, Alone(p, db, payload, j))
    ensures Ready(Midway(p, db, payload, j), 0)
    ensures Callback(p, Midway(p, db, payload, j), 0, Succeeds) == Midway(p, db, payload, j + 1)
  {
    var sys, q, topic := Midway(p, db, payload, j), Alone(p, db, payload, j), p.topic(payload);
    var next := Callback(p, sys, 0, Succeeds);
    match p.step(q.db, q.local) {
      case Emit(x, _) =>
        assert Delivered(topic, q.emitted + [x]) == Delivered(topic, q.emitted) + [Streamed(0, 0, topic, x, true)];
        assert next.log == Midway(p, db, payload, j + 1).log;
      case _ =>
    }
  }

  lemma MidwayEnds<D, L>(p: Program<D, L>, db: D, payload: Str, k: nat, reply: Str)
    requires p.step(Alone(p, db, payload, k).db, Alone(p, db, payload, k).local) == Finish(reply) && reply != []
    ensures Run(p, Midway(p, db, payload, k), Ticks(3)) == Served(p, db, payload, k, reply)
  {
    var sys, topic := Midway(p, db, payload, k), p.topic(payload);
    var a := Callback(p, sys, 0, Succeeds);
    var b := Callback(p, a, 0, Succeeds);
    var c := Callback(p, b, 0, Succeeds);
    assert Ticks(3)[1..] == Ticks(2) && Ticks(2)[1..] == Ticks(1) && Ticks(1)[1..] == Ticks(0);
    assert Run(p, sys, Ticks(3)) == Run(p, a, Ticks(2)) == Run(p, b, Ticks(1)) == Run(p, c, Ticks(0)) == c;
    assert c.log == Served(p, db, payload, k, reply).log;
  }

  lemma {:induction false} MidwayRuns<D, L>(p: Program<D, L>, db: D, payload: Str, j: nat, k: nat, reply: Str)
    requires j <= k && forall i :: j <= i < k ==> !Done(p, Alone(p, db, payload, i))
    requires p.step(Alone(p, db, payload, k).db, Alone(p, db, payload, k).local) == Finish(reply) && reply != []
    ensures Run(p, Midway(p, db, payload, j), Ticks(k - j + 3)) == Served(p, db, payload, k, reply)
    decreases k - j
  {
    if j == k {
      MidwayEnds(p, db, payload, k, reply);
    } else {
      MidwayMoves(p, db, payload, j);
      MidwayRuns(p, db, payload, j + 1, k, reply);
      assert Ticks(k - j + 3)[1..] == Ticks(k - (j + 1) + 3);
    }
  }

  /** The worker starts, receives the request and takes the mutex. */
  lemma LoneRequestBegins<D, L>(p: Program<D, L>, db: D, payload: Str, rest: seq<(nat, Input)>)
    requires payload != []
    ensures Run(p, Start(db, 1), [(0, Succeeds), (0, Receives(payload)), (0, Succeeds)] + rest) ==
            Run(p, Midway(p, db, payload, 0), rest)
  {
    var a := Callback(p, Start(db, 1), 0, Succeeds);
    var b := Callback(p, a, 0, Receives(payload));
    var c := Callback(p, b, 0, Succeeds);
    RunCons(p, b, (0, Succeeds), rest);
    RunCons(p, a, (0, Receives(payload)), [(0, Succeeds)] + rest);
    RunCons(p, Start(db, 1), (0, Succeeds), [(0, Receives(payload))] + ([(0, Succeeds)] + rest));
    assert [(0, Succeeds), (0, Receives(payload)), (0, Succeeds)] + rest ==
           [(0, Succeeds)] + ([(0, Receives(payload))] + ([(0, Succeeds)] + rest));
    assert Delivered(p.topic(payload), []) == [];
    assert c == Midway(p, db, payload, 0);
  }

  lemma RunCons<D, L>(p: Program<D, L>, sys: System<D, L>, step: (nat, Input), rest: seq<(nat, Input)>)
    requires Ready(sys, step.0)
    ensures Run(p, sys, [step] + rest) == Run(p, Callback(p, sys, step.0, step.1), rest)
  {
    assert ([step] + rest)[1..] == rest;
  }

  /** A request that arrives at a lone worker, and whose handling comes to a reply after `k` moves, is
      handled to that point, its results are streamed and its reply is sent on its topic, and the
      worker goes back to receiving. */
  lemma LoneRequestServed<D, L>(p: Program<D, L>, db: D, payload: Str, k: nat, reply: Str)
    requires payload != [] && reply != [] && forall i :: 0 <= i < k ==> !Done(p, Alone(p, db, payload, i))
    requires p.step(Alone(p, db, payload, k).db, Alone(p, db, payload, k).local) == Finish(reply)
    ensures Run(p, Start(db, 1), [(0, Succeeds), (0, Receives(payload)), (0, Succeeds)] + Ticks(k + 3)) ==
            Served(p, db, payload, k, reply)
  {
    LoneRequestBegins(p, db, payload, Ticks(k + 3));
    MidwayRuns(p, db, payload, 0, k, reply);
  }
}
