/** The MQTT workers: every callback of every worker, in any interleaving and with any receive,
    send and allocation failures, over a request handler that the proofs leave open. Handling a
    request takes many database accesses; the mutex is what keeps them together. */
module WorkerProtocol {
  import opened Bytes
  import opened Json

  /** One move of a handler: a database access that may read and write, sending one result, or the
      final reply. */
  datatype Move<+D, +L> = Access(db: D, local: L) | Emit(payload: Str, local: L) | Finish(reply: Str)

  /** A request handler: the response topic and the first local state, both from the payload, and the
      next move from the database as it is now and the local state. */
  datatype Program<!D, !L> = Program(topic: Str -> Str, begin: Str -> L, step: (D, L) -> Move<D, L>)

  /** A received message: its number in the order of receipt, and its payload. */
  datatype Message = Message(number: nat, payload: Str)

  /** The turn of a request in the order of taking the mutex, and how many moves it has made. */
  datatype Turn = Turn(message: Message, steps: nat)

  /** Inside `handle_request` a worker has its local state; `turn` is its place in the order. */
  datatype Task<+L> = Idle | Running(local: L, turn: nat)

  datatype Phase = Init | Recv | Wait | Send

  /** The fields of a worker; `last` remembers the number of the message it received last. */
  datatype Work<+L> =
    Work(phase: Phase, msg: Option<Message>, reply: Option<Str>, requestid: Option<Str>, task: Task<L>, last: Option<nat>)

  datatype Event =
    | Received(worker: nat, number: nat)
    | Streamed(worker: nat, number: nat, topic: Str, payload: Str, delivered: bool)
    | Final(worker: nat, number: nat, topic: Str, payload: Str)
    | Unsent(worker: nat, number: nat)
    | Freed(number: nat)

  /** `served` lists the turns in the order in which the requests took the mutex. */
  datatype System<+D, +L> =
    System(db: D, mutex: Option<nat>, works: seq<Work<L>>, count: nat, served: seq<Turn>, log: seq<Event>)

  /** What the environment decides in a step: the result code, and what was received. */
  datatype Input = Fails | Receives(payload: Str) | Succeeds

  // ---------- the callback ----------

  function Put<D, L>(sys: System<D, L>, w: nat, work: Work<L>, event: Option<Event>): System<D, L>
    requires w < |sys.works|
  {
    sys.(works := sys.works[w := work], log := if event.None? then sys.log else sys.log + [event.value])
  }

  function OnRecv<D, L>(sys: System<D, L>, w: nat, input: Input): System<D, L>
    requires w < |sys.works|
  {
    var work := sys.works[w];
    match input
    case Receives(payload) =>
      Put(sys, w, work.(phase := Wait, msg := Some(Message(sys.count, payload)), last := Some(sys.count)),
          Some(Received(w, sys.count))).(count := sys.count + 1)
    case _ => sys
  }

  /** Frees the message and goes on to send a reply, or back to receiving if there is none. */
  function Leave<D, L>(sys: System<D, L>, w: nat, message: Message, reply: Str): System<D, L>
    requires w < |sys.works|
  {
    var work := sys.works[w].(msg := None, task := Idle);
    var next := if reply == [] then work.(phase := Recv) else work.(phase := Send, reply := Some(reply));
    Put(sys, w, next, Some(Freed(message.number)))
  }

  /** One more move of a turn. */
  function Counted(served: seq<Turn>, turn: nat): seq<Turn> {
    if turn < |served| then served[turn := served[turn].(steps := served[turn].steps + 1)] else served
  }

  /** Waits for the mutex, then makes the handler's moves one by one; between any two of them other
      workers may move. The mutex is held until the reply is there. */
  function OnWait<D, L>(p: Program<D, L>, sys: System<D, L>, w: nat, input: Input): System<D, L>
    requires w < |sys.works| && sys.works[w].msg.Some?
  {
    var work := sys.works[w];
    var message := work.msg.value;
    var topic := p.topic(message.payload);
    match work.task
    case Idle =>
      if message.payload == [] then Leave(sys, w, message, [])
      else if sys.mutex.Some? then sys
      else
        Put(sys, w, work.(task := Running(p.begin(message.payload), |sys.served|), requestid := Some(topic)), None)
        .(mutex := Some(w), served := sys.served + [Turn(message, 0)])
    case Running(local, turn) => (
      match p.step(sys.db, local)
      case Access(db, next) =>
        Put(sys, w, work.(task := Running(next, turn)), None).(db := db, served := Counted(sys.served, turn))
      case Emit(payload, next) =>
        Put(sys, w, work.(task := Running(next, turn)),
            Some(Streamed(w, message.number, topic, payload, !input.Fails?)))
        .(served := Counted(sys.served, turn))
      case Finish(reply) => Leave(sys, w, message, reply).(mutex := None))
  }

  function OnSend<D, L>(sys: System<D, L>, w: nat, input: Input): System<D, L>
    requires w < |sys.works|
    requires sys.works[w].reply.Some? ==> sys.works[w].requestid.Some? && sys.works[w].last.Some?
  {
    var work := sys.works[w];
    if work.reply.None? then Put(sys, w, work.(phase := Recv), None)
    else if input.Fails? then Put(sys, w, work.(phase := Recv), Some(Unsent(w, work.last.value)))
    else
      Put(sys, w, work.(reply := None, requestid := None),
          Some(Final(w, work.last.value, work.requestid.value, work.reply.value)))
  }

  /** The fields a callback dereferences are there. */
  ghost predicate Ready<D, L>(sys: System<D, L>, w: nat) {
    && w < |sys.works|
    && var work := sys.works[w];
       && (work.phase.Wait? ==> work.msg.Some?)
       && (work.phase.Send? && work.reply.Some? ==> work.requestid.Some? && work.last.Some?)
  }

  /** `client_cb`, with `handle_request` cut where other workers may move. */
  function Callback<D, L>(p: Program<D, L>, sys: System<D, L>, w: nat, input: Input): System<D, L>
    requires Ready(sys, w)
  {
    var work := sys.works[w];
    match work.phase
    case Init => Put(sys, w, work.(phase := Recv), None)
    case Recv => OnRecv(sys, w, input)
    case Wait => OnWait(p, sys, w, input)
    case Send => OnSend(sys, w, input)
  }

  // ---------- reading the log ----------

  function LastReceived(log: seq<Event>, w: nat): Option<nat> {
    if log == [] then None
    else
      var n := |log| - 1;
      if log[n].Received? && log[n].worker == w then Some(log[n].number) else LastReceived(log[..n], w)
  }

  function FinalCount(log: seq<Event>, number: nat): nat {
    if log == [] then 0
    else
      var n := |log| - 1;
      FinalCount(log[..n], number) + if log[n].Final? && log[n].number == number then 1 else 0
  }

  function FreedCount(log: seq<Event>, number: nat): nat {
    if log == [] then 0
    else
      var n := |log| - 1;
      FreedCount(log[..n], number) + if log[n].Freed? && log[n].number == number then 1 else 0
  }

  /** The results streamed for a request so far, delivered or given up on. */
  function StreamedOf(log: seq<Event>, number: nat): seq<Str> {
    if log == [] then []
    else
      var n := |log| - 1;
      StreamedOf(log[..n], number) + if log[n].Streamed? && log[n].number == number then [log[n].payload] else []
  }

  lemma LogSnoc(log: seq<Event>, e: Event)
    ensures forall n :: StreamedOf(log + [e], n) ==
                        if e.Streamed? && e.number == n then StreamedOf(log, n) + [e.payload] else StreamedOf(log, n)
    ensures forall w :: LastReceived(log + [e], w) ==
                        if e.Received? && e.worker == w then Some(e.number) else LastReceived(log, w)
    ensures forall n :: FinalCount(log + [e], n) == FinalCount(log, n) + if e.Final? && e.number == n then 1 else 0
    ensures forall n :: FreedCount(log + [e], n) == FreedCount(log, n) + if e.Freed? && e.number == n then 1 else 0
  {
    assert (log + [e])[..|log|] == log;
  }

  // ---------- the serial reference ----------

  /** Where a handler stands after some moves: the database, its local state and what it has sent. */
  datatype Point<+D, +L> = Point(db: D, local: L, emitted: seq<Str>)

  function Moved<D, L>(p: Program<D, L>, q: Point<D, L>): Point<D, L> {
    match p.step(q.db, q.local)
    case Access(db, local) => Point(db, local, q.emitted)
    case Emit(payload, local) => Point(q.db, local, q.emitted + [payload])
    case Finish(_) => q
  }

  /** A request handled alone, with nobody else at the database, for `k` moves. */
  function Alone<D, L>(p: Program<D, L>, db: D, payload: Str, k: nat): Point<D, L> {
    if k == 0 then Point(db, p.begin(payload), []) else Moved(p, Alone(p, db, payload, k - 1))
  }

  /** The database after requests handled one after another, each alone. */
  function After<D, L>(p: Program<D, L>, db: D, served: seq<Turn>): D {
    if served == [] then db
    else
      var n := |served| - 1;
      Alone(p, After(p, db, served[..n]), served[n].message.payload, served[n].steps).db
  }

  /** Where the request of turn `i` stands when the turns before it have been handled alone. */
  function PointOf<D, L>(p: Program<D, L>, db: D, served: seq<Turn>, i: nat): Point<D, L>
    requires i < |served|
  {
    Alone(p, After(p, db, served[..i]), served[i].message.payload, served[i].steps)
  }

  /** The request has nothing left to do but reply. */
  predicate Done<D, L>(p: Program<D, L>, q: Point<D, L>) {
    p.step(q.db, q.local).Finish?
  }

  /** Turn `i` is that of request `number`; it streamed `emitted` to its topic and then replied. */
  ghost predicate Answers<D, L>(p: Program<D, L>, db: D, served: seq<Turn>, i: int, number: nat, topic: Str,
                                emitted: seq<Str>, reply: Str) {
    && 0 <= i < |served| && served[i].message.number == number && topic == p.topic(served[i].message.payload)
    && var q := PointOf(p, db, served, i); emitted == q.emitted && p.step(q.db, q.local) == Finish(reply)
  }

  ghost predicate AnswerOf<D, L>(p: Program<D, L>, db: D, served: seq<Turn>, number: nat, topic: Str,
                                 emitted: seq<Str>, reply: Str) {
    exists i :: Answers(p, db, served, i, number, topic, emitted, reply)
  }

  /** Turn `i` is that of request `number`, and `emitted` is the beginning of what it streams. */
  ghost predicate Streams<D, L>(p: Program<D, L>, db: D, served: seq<Turn>, i: int, number: nat, topic: Str,
                                emitted: seq<Str>) {
    && 0 <= i < |served| && served[i].message.number == number && topic == p.topic(served[i].message.payload)
    && emitted <= PointOf(p, db, served, i).emitted
  }

  ghost predicate StreamOf<D, L>(p: Program<D, L>, db: D, served: seq<Turn>, number: nat, topic: Str,
                                 emitted: seq<Str>) {
    exists i :: Streams(p, db, served, i, number, topic, emitted)
  }

  /** The turns went on: those that were done are as they were, and no other lost anything. */
  ghost predicate Grown<D, L>(p: Program<D, L>, db: D, served: seq<Turn>, served': seq<Turn>) {
    && |served| <= |served'|
    && forall i :: 0 <= i < |served| ==>
         && served'[i].message == served[i].message
         && PointOf(p, db, served, i).emitted <= PointOf(p, db, served', i).emitted
         && (Done(p, PointOf(p, db, served, i)) ==> PointOf(p, db, served', i) == PointOf(p, db, served, i))
  }

  lemma GrownNot<D, L>(p: Program<D, L>, db: D, served: seq<Turn>)
    ensures Grown(p, db, served, served)
  {
  }

  /** A turn stands where the turns before it and its own moves bring it, whatever comes later. */
  lemma LaterTurns<D, L>(p: Program<D, L>, db: D, served: seq<Turn>, served': seq<Turn>, n: nat)
    requires n <= |served| && n <= |served'| && served'[..n] == served[..n]
    ensures forall i :: 0 <= i < n ==>
              served'[i] == served[i] && PointOf(p, db, served', i) == PointOf(p, db, served, i)
  {
    forall i | 0 <= i < n
      ensures served'[i] == served[i] && PointOf(p, db, served', i) == PointOf(p, db, served, i)
    {
      assert served'[..n][i] == served[..n][i];
      assert served'[..n][..i] == served'[..i] && served[..n][..i] == served[..i];
    }
  }

  /** A new turn finds the database where the turns before left it. */
  lemma TurnBegins<D, L>(p: Program<D, L>, db: D, served: seq<Turn>, m: Message)
    ensures var served' := served + [Turn(m, 0)];
            && Grown(p, db, served, served')
            && PointOf(p, db, served', |served|) == Point(After(p, db, served), p.begin(m.payload), [])
            && After(p, db, served') == After(p, db, served)
  {
    var served' := served + [Turn(m, 0)];
    assert served'[..|served|] == served == served[..|served|];
    LaterTurns(p, db, served, served', |served|);
  }

  /** A move of the last turn, if it is not done, is a move of that request alone. */
  lemma TurnMoves<D, L>(p: Program<D, L>, db: D, served: seq<Turn>)
    requires served != [] && !Done(p, PointOf(p, db, served, |served| - 1))
    ensures var n := |served| - 1; var served' := Counted(served, n);
            && Grown(p, db, served, served')
            && PointOf(p, db, served', n) == Moved(p, PointOf(p, db, served, n))
            && After(p, db, served') == PointOf(p, db, served', n).db
  {
    var n := |served| - 1;
    var served' := Counted(served, n);
    assert served'[..n] == served[..n];
    LaterTurns(p, db, served, served', n);
  }

  lemma AnswersStay<D, L>(p: Program<D, L>, db: D, served: seq<Turn>, served': seq<Turn>)
    requires Grown(p, db, served, served')
    ensures forall n, topic, emitted, reply ::
              AnswerOf(p, db, served, n, topic, emitted, reply) ==> AnswerOf(p, db, served', n, topic, emitted, reply)
    ensures forall n, topic, emitted ::
              StreamOf(p, db, served, n, topic, emitted) ==> StreamOf(p, db, served', n, topic, emitted)
  {
    forall n, topic, emitted, reply | AnswerOf(p, db, served, n, topic, emitted, reply)
      ensures AnswerOf(p, db, served', n, topic, emitted, reply)
    {
      var i :| Answers(p, db, served, i, n, topic, emitted, reply);
      assert Answers(p, db, served', i, n, topic, emitted, reply);
    }
    forall n, topic, emitted | StreamOf(p, db, served, n, topic, emitted)
      ensures StreamOf(p, db, served', n, topic, emitted)
    {
      var i :| Streams(p, db, served, i, n, topic, emitted);
      assert Streams(p, db, served', i, n, topic, emitted);
    }
  }

  // ---------- what every interleaving keeps ----------

  /** A final reply answers the request its worker received last, at that request's topic, is the
      first final reply to it and comes when all its results have been streamed; a streamed result
      belongs to that request too and is the next one in order; and a message is not freed twice.
      What a request streams and replies is what it does when handled alone in its turn. */
  ghost predicate EventOk<D, L>(p: Program<D, L>, db: D, served: seq<Turn>, before: seq<Event>, e: Event) {
    match e
    case Received(_, _) => true
    case Streamed(w, n, topic, payload, _) =>
      && LastReceived(before, w) == Some(n) && FinalCount(before, n) == 0
      && StreamOf(p, db, served, n, topic, StreamedOf(before, n) + [payload])
    case Final(w, n, topic, payload) =>
      && LastReceived(before, w) == Some(n) && FinalCount(before, n) == 0
      && AnswerOf(p, db, served, n, topic, StreamedOf(before, n), payload)
    case Unsent(w, n) => LastReceived(before, w) == Some(n) && FinalCount(before, n) == 0
    case Freed(n) => FreedCount(before, n) == 0
  }

  ghost predicate LogOk<D, L>(p: Program<D, L>, db: D, served: seq<Turn>, log: seq<Event>) {
    forall j :: 0 <= j < |log| ==> EventOk(p, db, served, log[..j], log[j])
  }

  ghost predicate Unserved(served: seq<Turn>, number: nat) {
    forall i :: 0 <= i < |served| ==> served[i].message.number != number
  }

  /** Each request gets at most one turn. */
  ghost predicate ServedOnce(served: seq<Turn>, count: nat) {
    && (forall i, j :: 0 <= i < j < |served| ==> served[i].message.number != served[j].message.number)
    && (forall i :: 0 <= i < |served| ==> served[i].message.number < count)
  }

  /** The holder of the mutex has the last turn, and the database and its local state are where its
      request alone would have brought them. */
  ghost predicate HolderOk<D, L>(p: Program<D, L>, db: D, sys: System<D, L>, work: Work<L>) {
    work.task.Running? && work.msg.Some? ==>
      var n := |sys.served| - 1;
      && n >= 0 && work.task.turn == n && sys.served[n].message == work.msg.value
      && var q := PointOf(p, db, sys.served, n);
         && work.task.local == q.local
         && StreamedOf(sys.log, work.msg.value.number) == q.emitted
         && work.requestid == Some(p.topic(work.msg.value.payload))
  }

  ghost predicate WorkOk<D, L>(p: Program<D, L>, db: D, sys: System<D, L>, w: nat)
    requires w < |sys.works|
  {
    var work := sys.works[w];
    && (work.phase.Wait? <==> work.msg.Some?)
    && (work.msg.Some? ==> work.last == Some(work.msg.value.number))
    && (work.last.Some? ==> work.last.value < sys.count)
    && work.last == LastReceived(sys.log, w)
    && (sys.mutex == Some(w) <==> work.task.Running?)
    && (work.task.Running? ==> work.phase.Wait?)
    && (work.phase.Wait? ==> FinalCount(sys.log, work.last.value) == 0 && FreedCount(sys.log, work.last.value) == 0)
    && (work.phase.Wait? && work.task.Idle? ==>
          Unserved(sys.served, work.last.value) && StreamedOf(sys.log, work.last.value) == [])
    && HolderOk(p, db, sys, work)
    && (work.phase.Send? && work.reply.Some? ==>
          && work.last.Some? && work.requestid.Some? && FinalCount(sys.log, work.last.value) == 0
          && AnswerOf(p, db, sys.served, work.last.value, work.requestid.value,
                      StreamedOf(sys.log, work.last.value), work.reply.value))
  }

  ghost predicate Holds<D, L>(sys: System<D, L>, w: nat, number: nat)
    requires w < |sys.works|
  {
    sys.works[w].msg.Some? && sys.works[w].msg.value.number == number
  }

  ghost predicate Held<D, L>(sys: System<D, L>, number: nat) {
    exists w :: 0 <= w < |sys.works| && Holds(sys, w, number)
  }

  /** Every received message is either held by a worker or has been freed exactly once. */
  ghost predicate FreedOk<D, L>(sys: System<D, L>) {
    && (forall n: nat :: n < sys.count ==> FreedCount(sys.log, n) == if Held(sys, n) then 0 else 1)
    && (forall n: nat :: sys.count <= n ==>
          FreedCount(sys.log, n) == 0 && FinalCount(sys.log, n) == 0 && StreamedOf(sys.log, n) == [])
  }

  ghost predicate LastsDistinct<D, L>(sys: System<D, L>) {
    forall v, w :: 0 <= v < w < |sys.works| && sys.works[v].last.Some? ==> sys.works[v].last != sys.works[w].last
  }

  /** The database is that of serving the turns one after another, each alone; every turn is done but
      the one of the worker that holds the mutex. */
  ghost predicate Serial<D, L>(p: Program<D, L>, db: D, sys: System<D, L>) {
    && sys.db == After(p, db, sys.served)
    && ServedOnce(sys.served, sys.count)
    && (sys.mutex.Some? ==> sys.served != [])
    && forall i :: 0 <= i < |sys.served| && (sys.mutex.None? || i < |sys.served| - 1) ==>
         Done(p, PointOf(p, db, sys.served, i))
  }

  ghost predicate AllWorksOk<D, L>(p: Program<D, L>, db: D, sys: System<D, L>) {
    forall w :: 0 <= w < |sys.works| ==> WorkOk(p, db, sys, w)
  }

  ghost predicate Inv<D, L>(p: Program<D, L>, db: D, sys: System<D, L>) {
    && AllWorksOk(p, db, sys)
    && LastsDistinct(sys)
    && Serial(p, db, sys)
    && LogOk(p, db, sys.served, sys.log)
    && FreedOk(sys)
  }

  // ---------- one step at a time ----------

  /** How a step of worker `w` changes the system: its own fields, at most one event, and the turns
      only for its own request. */
  ghost predicate Moves<D, L>(sys: System<D, L>, next: System<D, L>, w: nat, events: seq<Event>) {
    && w < |sys.works| == |next.works| && next.works == sys.works[w := next.works[w]]
    && |events| <= 1 && next.log == sys.log + events
    && sys.count <= next.count
    && forall n: nat :: Unserved(sys.served, n) && sys.works[w].last != Some(n) ==> Unserved(next.served, n)
  }

  /** An event that does not concern worker `v`. */
  ghost predicate Foreign<D, L>(sys: System<D, L>, v: nat, e: Event)
    requires v < |sys.works|
  {
    match e
    case Received(u, _) => u != v
    case Streamed(_, n, _, _, _) => sys.works[v].last != Some(n)
    case Final(_, n, _, _) => sys.works[v].last != Some(n)
    case Unsent(_, n) => sys.works[v].last != Some(n)
    case Freed(n) => sys.works[v].last != Some(n)
  }

  lemma LogMoves(log: seq<Event>, events: seq<Event>)
    requires |events| <= 1
    ensures events == [] ==> log + events == log
    ensures events != [] ==> log + events == log + [events[0]]
  {
  }

  /** Another worker does not notice; if it holds the mutex, the turns do not change. */
  lemma OtherKeeps<D, L>(p: Program<D, L>, db: D, sys: System<D, L>, next: System<D, L>, w: nat, v: nat,
                         events: seq<Event>)
    requires Moves(sys, next, w, events) && v < |sys.works| && v != w && WorkOk(p, db, sys, v)
    requires sys.works[v].last.Some? ==> sys.works[v].last != sys.works[w].last
    requires (next.mutex == Some(v) <==> sys.mutex == Some(v)) && (sys.mutex == Some(v) ==> next.served == sys.served)
    requires Grown(p, db, sys.served, next.served)
    requires events != [] ==> Foreign(sys, v, events[0])
    ensures WorkOk(p, db, next, v)
  {
    assert next.works[v] == sys.works[v];
    LogMoves(sys.log, events);
    if events != [] {
      LogSnoc(sys.log, events[0]);
    }
    AnswersStay(p, db, sys.served, next.served);
  }

  lemma LogKeeps<D, L>(p: Program<D, L>, db: D, served: seq<Turn>, served': seq<Turn>, log: seq<Event>, events: seq<Event>)
    requires LogOk(p, db, served, log) && |events| <= 1 && Grown(p, db, served, served')
    requires events != [] ==> EventOk(p, db, served', log, events[0])
    ensures LogOk(p, db, served', log + events)
  {
    AnswersStay(p, db, served, served');
    var log' := log + events;
    forall j | 0 <= j < |log'|
      ensures EventOk(p, db, served', log'[..j], log'[j])
    {
      if j < |log| {
        assert log'[..j] == log[..j] && log'[j] == log[j];
        assert EventOk(p, db, served, log[..j], log[j]);
      } else {
        assert log'[..j] == log;
      }
    }
  }

  /** A worker that keeps its message and frees none leaves the accounting alone. */
  lemma FreedUnchanged<D, L>(sys: System<D, L>, next: System<D, L>, w: nat, events: seq<Event>)
    requires FreedOk(sys) && Moves(sys, next, w, events) && next.count == sys.count
    requires next.works[w].msg == sys.works[w].msg
    requires events != [] ==> !events[0].Freed? && !events[0].Received? && events[0].number < sys.count
    ensures FreedOk(next)
  {
    LogMoves(sys.log, events);
    if events != [] {
      LogSnoc(sys.log, events[0]);
    }
    forall n: nat
      ensures Held(next, n) <==> Held(sys, n)
    {
      if v :| 0 <= v < |sys.works| && Holds(sys, v, n) {
        assert Holds(next, v, n);
      }
      if v :| 0 <= v < |sys.works| && Holds(next, v, n) {
        assert Holds(sys, v, n);
      }
    }
  }

  lemma FreedOnReceive<D, L>(sys: System<D, L>, next: System<D, L>, w: nat, payload: Str)
    requires FreedOk(sys) && Moves(sys, next, w, [Received(w, sys.count)]) && next.count == sys.count + 1
    requires sys.works[w].msg.None? && next.works[w].msg == Some(Message(sys.count, payload))
    requires forall v :: 0 <= v < |sys.works| && sys.works[v].msg.Some? ==> sys.works[v].msg.value.number < sys.count
    ensures FreedOk(next)
  {
    LogSnoc(sys.log, Received(w, sys.count));
    forall n: nat
      ensures Held(next, n) <==> Held(sys, n) || n == sys.count
    {
      assert Holds(next, w, sys.count);
      if v :| 0 <= v < |sys.works| && Holds(sys, v, n) {
        assert Holds(next, v, n);
      }
      if v :| 0 <= v < |sys.works| && Holds(next, v, n) {
        assert v != w ==> Holds(sys, v, n);
      }
    }
    assert !Held(sys, sys.count);
  }

  lemma FreedOnLeave<D, L>(sys: System<D, L>, next: System<D, L>, w: nat, number: nat)
    requires FreedOk(sys) && Moves(sys, next, w, [Freed(number)]) && next.count == sys.count && number < sys.count
    requires Holds(sys, w, number) && next.works[w].msg.None?
    requires forall v :: 0 <= v < |sys.works| && v != w ==> !Holds(sys, v, number)
    ensures FreedOk(next)
  {
    LogSnoc(sys.log, Freed(number));
    forall n: nat
      ensures Held(next, n) <==> Held(sys, n) && n != number
    {
      if v :| 0 <= v < |sys.works| && Holds(sys, v, n) {
        assert v != w ==> Holds(next, v, n);
      }
      if v :| 0 <= v < |sys.works| && Holds(next, v, n) {
        assert v != w && Holds(sys, v, n);
      }
    }
    assert Held(sys, number);
  }

  /** No other worker holds the message that a worker received last. */
  lemma OnlyHolder<D, L>(p: Program<D, L>, db: D, sys: System<D, L>, w: nat, number: nat)
    requires AllWorksOk(p, db, sys) && LastsDistinct(sys) && w < |sys.works| && sys.works[w].last == Some(number)
    ensures forall v :: 0 <= v < |sys.works| && v != w ==> !Holds(sys, v, number)
  {
    forall v | 0 <= v < |sys.works| && v != w
      ensures !Holds(sys, v, number)
    {
      assert WorkOk(p, db, sys, v);
    }
  }

  /** The events of a step concern the request that its worker received last, or are its receipt. */
  ghost predicate OwnEvents<D, L>(sys: System<D, L>, w: nat, events: seq<Event>)
    requires w < |sys.works|
  {
    events != [] ==>
      if events[0].Received? then events[0].worker == w else sys.works[w].last == Some(events[0].number)
  }

  /** Only the holder of the mutex, or a worker that finds it free, changes the mutex or the turns. */
  ghost predicate RespectsMutex<D, L>(sys: System<D, L>, next: System<D, L>, w: nat) {
    || (next.mutex == sys.mutex && next.served == sys.served)
    || ((sys.mutex == None || sys.mutex == Some(w)) && (next.mutex == None || next.mutex == Some(w)))
  }

  lemma OthersKeep<D, L>(p: Program<D, L>, db: D, sys: System<D, L>, next: System<D, L>, w: nat, events: seq<Event>)
    requires AllWorksOk(p, db, sys) && LastsDistinct(sys) && Moves(sys, next, w, events)
    requires OwnEvents(sys, w, events) && RespectsMutex(sys, next, w) && Grown(p, db, sys.served, next.served)
    ensures forall v :: 0 <= v < |sys.works| && v != w ==> WorkOk(p, db, next, v)
  {
    forall v | 0 <= v < |sys.works| && v != w
      ensures WorkOk(p, db, next, v)
    {
      assert WorkOk(p, db, sys, v);
      OtherKeeps(p, db, sys, next, w, v, events);
    }
  }

  lemma LastsStay<D, L>(sys: System<D, L>, next: System<D, L>, w: nat, events: seq<Event>)
    requires LastsDistinct(sys) && Moves(sys, next, w, events) && next.works[w].last == sys.works[w].last
    ensures LastsDistinct(next)
  {
    forall v, u | 0 <= v < u < |next.works| && next.works[v].last.Some?
      ensures next.works[v].last != next.works[u].last
    {
      assert next.works[v].last == sys.works[v].last && next.works[u].last == sys.works[u].last;
    }
  }

  /** Puts the parts together for a step that receives nothing: a worker whose own part is in order
      keeps all workers and the log in order. */
  lemma StepKeeps<D, L>(p: Program<D, L>, db: D, sys: System<D, L>, next: System<D, L>, w: nat, events: seq<Event>)
    requires AllWorksOk(p, db, sys) && LastsDistinct(sys) && LogOk(p, db, sys.served, sys.log)
    requires Moves(sys, next, w, events) && next.works[w].last == sys.works[w].last
    requires OwnEvents(sys, w, events) && RespectsMutex(sys, next, w) && Grown(p, db, sys.served, next.served)
    requires events != [] ==> EventOk(p, db, next.served, sys.log, events[0])
    requires WorkOk(p, db, next, w)
    ensures AllWorksOk(p, db, next) && LastsDistinct(next) && LogOk(p, db, next.served, next.log)
  {
    OthersKeep(p, db, sys, next, w, events);
    LastsStay(sys, next, w, events);
    LogKeeps(p, db, sys.served, next.served, sys.log, events);
    assert AllWorksOk(p, db, next);
  }

  // ---------- receiving ----------

  lemma NumbersBelowCount<D, L>(p: Program<D, L>, db: D, sys: System<D, L>)
    requires AllWorksOk(p, db, sys)
    ensures forall v :: 0 <= v < |sys.works| ==>
              && (sys.works[v].last.Some? ==> sys.works[v].last.value < sys.count)
              && (sys.works[v].msg.Some? ==> sys.works[v].msg.value.number < sys.count)
  {
    forall v | 0 <= v < |sys.works|
      ensures sys.works[v].last.Some? ==> sys.works[v].last.value < sys.count
      ensures sys.works[v].msg.Some? ==> sys.works[v].msg.value.number < sys.count
    {
      assert WorkOk(p, db, sys, v);
    }
  }

  lemma ReceiverOk<D, L>(p: Program<D, L>, db: D, sys: System<D, L>, w: nat, payload: Str)
    requires w < |sys.works| && WorkOk(p, db, sys, w) && sys.works[w].phase.Recv?
    requires FinalCount(sys.log, sys.count) == 0 && FreedCount(sys.log, sys.count) == 0
    requires StreamedOf(sys.log, sys.count) == [] && Unserved(sys.served, sys.count)
    ensures WorkOk(p, db, OnRecv(sys, w, Receives(payload)), w)
  {
    var next := OnRecv(sys, w, Receives(payload));
    ReceivedSnoc(sys.log, w, sys.count);
    assert next.log == sys.log + [Received(w, sys.count)] && next.served == sys.served;
  }

  lemma ReceivedSnoc(log: seq<Event>, w: nat, n: nat)
    ensures var log' := log + [Received(w, n)];
            && LastReceived(log', w) == Some(n) && FinalCount(log', n) == FinalCount(log, n)
            && FreedCount(log', n) == FreedCount(log, n) && StreamedOf(log', n) == StreamedOf(log, n)
  {
    LogSnoc(log, Received(w, n));
  }

  lemma ReceiveDistinct<D, L>(p: Program<D, L>, db: D, sys: System<D, L>, w: nat, payload: Str)
    requires AllWorksOk(p, db, sys) && LastsDistinct(sys) && w < |sys.works|
    ensures LastsDistinct(OnRecv(sys, w, Receives(payload)))
  {
    NumbersBelowCount(p, db, sys);
  }

  lemma ReceiveWorksOk<D, L>(p: Program<D, L>, db: D, sys: System<D, L>, w: nat, payload: Str)
    requires AllWorksOk(p, db, sys) && LastsDistinct(sys) && w < |sys.works| && sys.works[w].phase.Recv?
    requires FinalCount(sys.log, sys.count) == 0 && FreedCount(sys.log, sys.count) == 0
    requires StreamedOf(sys.log, sys.count) == [] && Unserved(sys.served, sys.count)
    ensures AllWorksOk(p, db, OnRecv(sys, w, Receives(payload)))
  {
    var next, e := OnRecv(sys, w, Receives(payload)), Received(w, sys.count);
    assert Moves(sys, next, w, [e]);
    GrownNot(p, db, sys.served);
    OthersKeep(p, db, sys, next, w, [e]);
    assert WorkOk(p, db, sys, w);
    ReceiverOk(p, db, sys, w, payload);
  }

  lemma RecvKeeps<D, L>(p: Program<D, L>, db: D, sys: System<D, L>, w: nat, input: Input)
    requires Inv(p, db, sys) && w < |sys.works| && sys.works[w].phase.Recv?
    ensures Inv(p, db, OnRecv(sys, w, input))
  {
    if input.Receives? {
      var next, e := OnRecv(sys, w, input), Received(w, sys.count);
      ReceiveWorksOk(p, db, sys, w, input.payload);
      GrownNot(p, db, sys.served);
      LogKeeps(p, db, sys.served, sys.served, sys.log, [e]);
      ReceiveDistinct(p, db, sys, w, input.payload);
      FreedOnReceive(sys, next, w, input.payload) by {
        assert Moves(sys, next, w, [e]);
        NumbersBelowCount(p, db, sys);
        assert WorkOk(p, db, sys, w);
      }
    }
  }

  // ---------- waiting, handling and leaving ----------

  /** The worker after it left: it waits for the next message, or has the answer to this one. */
  lemma LeaverOk<D, L>(p: Program<D, L>, db: D, sys: System<D, L>, w: nat, reply: Str, next: System<D, L>)
    requires w < |sys.works| && WorkOk(p, db, sys, w) && sys.works[w].msg.Some?
    requires reply != [] ==>
               sys.works[w].task.Running? && sys.served != [] &&
               var q := PointOf(p, db, sys.served, |sys.served| - 1); p.step(q.db, q.local) == Finish(reply)
    requires next == Leave(sys, w, sys.works[w].msg.value, reply).(mutex := if sys.works[w].task.Idle? then sys.mutex else None)
    ensures WorkOk(p, db, next, w)
  {
    var message := sys.works[w].msg.value;
    LogSnoc(sys.log, Freed(message.number));
    if reply != [] {
      var n := |sys.served| - 1;
      assert Answers(p, db, sys.served, n, message.number, p.topic(message.payload),
                     StreamedOf(sys.log, message.number), reply);
    }
  }

  /** Leaving `WAIT`: the message is freed; a holder of the mutex is done, and releases it. */
  lemma LeaveKeeps<D, L>(p: Program<D, L>, db: D, sys: System<D, L>, w: nat, reply: Str, next: System<D, L>)
    requires Inv(p, db, sys) && w < |sys.works| && sys.works[w].msg.Some?
    requires if sys.works[w].task.Idle? then reply == [] else p.step(sys.db, sys.works[w].task.local) == Finish(reply)
    requires next == Leave(sys, w, sys.works[w].msg.value, reply).(mutex := if sys.works[w].task.Idle? then sys.mutex else None)
    ensures Inv(p, db, next)
  {
    var number := sys.works[w].msg.value.number;
    var e := Freed(number);
    assert WorkOk(p, db, sys, w);
    OnlyHolder(p, db, sys, w, number);
    assert Moves(sys, next, w, [e]);
    GrownNot(p, db, sys.served);
    FreedOnLeave(sys, next, w, number);
    LeaverOk(p, db, sys, w, reply, next);
    assert Serial(p, db, next);
    StepKeeps(p, db, sys, next, w, [e]);
  }

  /** Taking the mutex opens a turn: all turns before are done, for nobody held the mutex. */
  lemma SerialBegins<D, L>(p: Program<D, L>, db: D, sys: System<D, L>, m: Message, next: System<D, L>)
    requires Serial(p, db, sys) && sys.mutex.None? && next.mutex.Some? && next.db == sys.db && next.count == sys.count
    requires m.number < sys.count && Unserved(sys.served, m.number) && next.served == sys.served + [Turn(m, 0)]
    ensures Serial(p, db, next) && Grown(p, db, sys.served, next.served)
    ensures PointOf(p, db, next.served, |sys.served|) == Point(sys.db, p.begin(m.payload), [])
  {
    TurnBegins(p, db, sys.served, m);
  }

  lemma BeginnerOk<D, L>(p: Program<D, L>, db: D, sys: System<D, L>, w: nat, next: System<D, L>)
    requires w < |sys.works| == |next.works| && WorkOk(p, db, sys, w) && sys.works[w].msg.Some? && sys.works[w].task.Idle?
    requires next.mutex == Some(w) && next.count == sys.count && next.log == sys.log
    requires var m, n := sys.works[w].msg.value, |sys.served|;
             && next.served == sys.served + [Turn(m, 0)]
             && PointOf(p, db, next.served, n) == Point(sys.db, p.begin(m.payload), [])
             && next.works[w] == sys.works[w].(task := Running(p.begin(m.payload), n), requestid := Some(p.topic(m.payload)))
    ensures WorkOk(p, db, next, w)
  {
  }

  /** What `OnWait` does when it takes the mutex. */
  lemma BeginMoves<D, L>(p: Program<D, L>, sys: System<D, L>, w: nat, input: Input)
    requires w < |sys.works| && sys.works[w].msg.Some? && sys.works[w].task.Idle?
    requires sys.works[w].msg.value.payload != [] && sys.mutex.None?
    requires sys.works[w].last == Some(sys.works[w].msg.value.number)
    ensures var next, m, n := OnWait(p, sys, w, input), sys.works[w].msg.value, |sys.served|;
            && Moves(sys, next, w, [])
            && next.mutex == Some(w) && next.db == sys.db && next.count == sys.count && next.log == sys.log
            && next.served == sys.served + [Turn(m, 0)]
            && next.works[w] == sys.works[w].(task := Running(p.begin(m.payload), n), requestid := Some(p.topic(m.payload)))
  {
    assert sys.log + [] == sys.log;
  }

  lemma BeginKeeps<D, L>(p: Program<D, L>, db: D, sys: System<D, L>, w: nat, input: Input)
    requires Inv(p, db, sys) && w < |sys.works| && sys.works[w].msg.Some? && sys.works[w].task.Idle?
    requires sys.works[w].msg.value.payload != [] && sys.mutex.None?
    ensures Inv(p, db, OnWait(p, sys, w, input))
  {
    var next, m := OnWait(p, sys, w, input), sys.works[w].msg.value;
    assert WorkOk(p, db, sys, w);
    BeginMoves(p, sys, w, input);
    SerialBegins(p, db, sys, m, next);
    FreedUnchanged(sys, next, w, []);
    BeginnerOk(p, db, sys, w, next);
    StepKeeps(p, db, sys, next, w, []);
  }

  /** A move of the holder moves the database as its request alone would, because every turn before
      it is done and none comes after it. */
  lemma SerialMoves<D, L>(p: Program<D, L>, db: D, sys: System<D, L>, next: System<D, L>)
    requires Serial(p, db, sys) && sys.mutex.Some? && next.mutex == sys.mutex && next.count == sys.count
    requires var q := PointOf(p, db, sys.served, |sys.served| - 1); !Done(p, q) && next.db == Moved(p, q).db
    requires next.served == Counted(sys.served, |sys.served| - 1)
    ensures Serial(p, db, next) && Grown(p, db, sys.served, next.served)
    ensures PointOf(p, db, next.served, |sys.served| - 1) == Moved(p, PointOf(p, db, sys.served, |sys.served| - 1))
  {
    TurnMoves(p, db, sys.served);
  }

  /** The holder stands where its request alone would, and so does the database. */
  lemma HolderStands<D, L>(p: Program<D, L>, db: D, sys: System<D, L>, w: nat)
    requires Inv(p, db, sys) && w < |sys.works| && sys.works[w].task.Running?
    ensures sys.mutex == Some(w) && sys.works[w].msg.Some? && sys.served != []
    ensures sys.works[w].task.turn == |sys.served| - 1
    ensures var q := PointOf(p, db, sys.served, |sys.served| - 1);
            sys.works[w].task.local == q.local && sys.db == q.db
  {
    assert WorkOk(p, db, sys, w);
  }

  lemma CountedNumbers(served: seq<Turn>, turn: nat, n: nat)
    ensures Unserved(Counted(served, turn), n) <==> Unserved(served, n)
  {
    var served' := Counted(served, turn);
    assert |served'| == |served| && forall i :: 0 <= i < |served| ==> served'[i].message == served[i].message;
  }

  lemma MoverOk<D, L>(p: Program<D, L>, db: D, sys: System<D, L>, w: nat, next: System<D, L>, events: seq<Event>)
    requires w < |sys.works| && WorkOk(p, db, sys, w) && sys.works[w].task.Running? && Moves(sys, next, w, events)
    requires next.mutex == sys.mutex && next.count == sys.count
    requires sys.served != [] && next.served == Counted(sys.served, |sys.served| - 1)
    requires var n := |sys.served| - 1; var q := PointOf(p, db, next.served, n);
             && next.works[w] == sys.works[w].(task := Running(q.local, n))
             && (events == [] ==> q.emitted == PointOf(p, db, sys.served, n).emitted)
             && (events != [] ==>
                   && events[0].Streamed? && sys.works[w].last == Some(events[0].number)
                   && q.emitted == PointOf(p, db, sys.served, n).emitted + [events[0].payload])
    ensures WorkOk(p, db, next, w)
  {
    LogMoves(sys.log, events);
    if events != [] {
      LogSnoc(sys.log, events[0]);
    }
  }

  /** The event of a move of the holder, if it has one. */
  function MoveEvents<D, L>(p: Program<D, L>, w: nat, m: Message, move: Move<D, L>, input: Input): seq<Event> {
    if move.Emit? then [Streamed(w, m.number, p.topic(m.payload), move.payload, !input.Fails?)] else []
  }

  lemma HolderMoves<D, L>(p: Program<D, L>, sys: System<D, L>, w: nat, input: Input)
    requires w < |sys.works| && sys.works[w].msg.Some? && sys.works[w].task.Running?
    requires !p.step(sys.db, sys.works[w].task.local).Finish?
    ensures var next, work := OnWait(p, sys, w, input), sys.works[w];
            var move := p.step(sys.db, work.task.local);
            && Moves(sys, next, w, MoveEvents(p, w, work.msg.value, move, input))
            && next.mutex == sys.mutex && next.count == sys.count
            && next.served == Counted(sys.served, work.task.turn)
            && next.works[w] == work.(task := Running(move.local, work.task.turn))
            && next.db == if move.Access? then move.db else sys.db
  {
    forall k: nat | Unserved(sys.served, k)
      ensures Unserved(Counted(sys.served, sys.works[w].task.turn), k)
    {
      CountedNumbers(sys.served, sys.works[w].task.turn, k);
    }
    assert sys.log + [] == sys.log;
  }

  /** What is streamed is what the request streams next when handled alone. */
  lemma StreamedInTurn<D, L>(p: Program<D, L>, db: D, sys: System<D, L>, w: nat, next: System<D, L>, input: Input)
    requires w < |sys.works| && WorkOk(p, db, sys, w) && sys.works[w].msg.Some? && sys.works[w].task.Running?
    requires sys.served != [] && |next.served| == |sys.served|
    requires var n := |sys.served| - 1;
             && sys.db == PointOf(p, db, sys.served, n).db && next.served[n].message == sys.served[n].message
             && PointOf(p, db, next.served, n) == Moved(p, PointOf(p, db, sys.served, n))
    ensures var move := p.step(sys.db, sys.works[w].task.local);
            forall e :: e in MoveEvents(p, w, sys.works[w].msg.value, move, input) ==>
                          EventOk(p, db, next.served, sys.log, e)
  {
    var move, m := p.step(sys.db, sys.works[w].task.local), sys.works[w].msg.value;
    if move.Emit? {
      assert Streams(p, db, next.served, |sys.served| - 1, m.number, p.topic(m.payload),
                     StreamedOf(sys.log, m.number) + [move.payload]);
    }
  }

  /** One database access or one streamed result of the holder. */
  lemma MoveKeeps<D, L>(p: Program<D, L>, db: D, sys: System<D, L>, w: nat, input: Input)
    requires Inv(p, db, sys) && w < |sys.works| && sys.works[w].msg.Some? && sys.works[w].task.Running?
    requires !p.step(sys.db, sys.works[w].task.local).Finish?
    ensures Inv(p, db, OnWait(p, sys, w, input))
  {
    var next := OnWait(p, sys, w, input);
    var events := MoveEvents(p, w, sys.works[w].msg.value, p.step(sys.db, sys.works[w].task.local), input);
    assert WorkOk(p, db, sys, w);
    HolderStands(p, db, sys, w);
    HolderMoves(p, sys, w, input);
    SerialMoves(p, db, sys, next);
    FreedUnchanged(sys, next, w, events);
    MoverOk(p, db, sys, w, next, events);
    StreamedInTurn(p, db, sys, w, next, input);
    StepKeeps(p, db, sys, next, w, events);
  }

  lemma WaitKeeps<D, L>(p: Program<D, L>, db: D, sys: System<D, L>, w: nat, input: Input)
    requires Inv(p, db, sys) && w < |sys.works| && sys.works[w].msg.Some?
    ensures Inv(p, db, OnWait(p, sys, w, input))
  {
    var work := sys.works[w];
    match work.task {
      case Idle =>
        if work.msg.value.payload == [] {
          LeaveKeeps(p, db, sys, w, [], OnWait(p, sys, w, input));
        } else if sys.mutex.None? {
          BeginKeeps(p, db, sys, w, input);
        }
      case Running(local, _) =>
        match p.step(sys.db, local) {
          case Finish(reply) =>
            LeaveKeeps(p, db, sys, w, reply, OnWait(p, sys, w, input));
          case _ =>
            MoveKeeps(p, db, sys, w, input);
        }
    }
  }

  // ---------- sending, and all callbacks ----------

  lemma SendKeeps<D, L>(p: Program<D, L>, db: D, sys: System<D, L>, w: nat, input: Input)
    requires Inv(p, db, sys) && Ready(sys, w) && sys.works[w].phase.Send?
    ensures Inv(p, db, OnSend(sys, w, input))
  {
    var next, work := OnSend(sys, w, input), sys.works[w];
    assert WorkOk(p, db, sys, w);
    assert sys.log + [] == sys.log;
    var events := if work.reply.None? then []
                  else if input.Fails? then [Unsent(w, work.last.value)]
                  else [Final(w, work.last.value, work.requestid.value, work.reply.value)];
    if events != [] {
      LogSnoc(sys.log, events[0]);
    }
    assert Moves(sys, next, w, events);
    GrownNot(p, db, sys.served);
    FreedUnchanged(sys, next, w, events);
    assert WorkOk(p, db, next, w);
    assert Serial(p, db, next);
    StepKeeps(p, db, sys, next, w, events);
  }

  lemma InitKeeps<D, L>(p: Program<D, L>, db: D, sys: System<D, L>, w: nat, next: System<D, L>)
    requires Inv(p, db, sys) && w < |sys.works| && sys.works[w].phase.Init?
    requires next == Put(sys, w, sys.works[w].(phase := Recv), None)
    ensures Inv(p, db, next)
  {
    assert WorkOk(p, db, sys, w);
    assert sys.log + [] == sys.log;
    assert Moves(sys, next, w, []);
    GrownNot(p, db, sys.served);
    FreedUnchanged(sys, next, w, []);
    assert Serial(p, db, next);
    StepKeeps(p, db, sys, next, w, []);
  }

  lemma CallbackKeeps<D, L>(p: Program<D, L>, db: D, sys: System<D, L>, w: nat, input: Input)
    requires Inv(p, db, sys) && w < |sys.works|
    ensures Ready(sys, w) && Inv(p, db, Callback(p, sys, w, input))
  {
    assert WorkOk(p, db, sys, w);
    match sys.works[w].phase {
      case Init =>
        InitKeeps(p, db, sys, w, Callback(p, sys, w, input));
      case Recv =>
        RecvKeeps(p, db, sys, w, input);
      case Wait =>
        WaitKeeps(p, db, sys, w, input);
      case Send =>
        SendKeeps(p, db, sys, w, input);
    }
  }

  // ---------- whole runs ----------

  function Fresh<L>(): Work<L> {
    Work(Init, None, None, None, Idle, None)
  }

  function Start<D, L>(db: D, n: nat): System<D, L> {
    System(db, None, seq(n, i => Fresh()), 0, [], [])
  }

  /** A run: which worker's callback comes next, and what the environment does to it. A callback
      that would dereference a missing field ends the run; there is none. */
  ghost function Run<D, L>(p: Program<D, L>, sys: System<D, L>, steps: seq<(nat, Input)>): System<D, L>
    decreases |steps|
  {
    if steps == [] || !Ready(sys, steps[0].0) then sys
    else Run(p, Callback(p, sys, steps[0].0, steps[0].1), steps[1..])
  }

  lemma StartInv<D, L>(p: Program<D, L>, db: D, n: nat)
    ensures Inv(p, db, Start(db, n))
  {
  }

  lemma {:induction false} RunKeeps<D, L>(p: Program<D, L>, db: D, sys: System<D, L>, steps: seq<(nat, Input)>)
    requires Inv(p, db, sys)
    ensures Inv(p, db, Run(p, sys, steps)) && |Run(p, sys, steps).works| == |sys.works|
    decreases |steps|
  {
    if steps != [] && Ready(sys, steps[0].0) {
      CallbackKeeps(p, db, sys, steps[0].0, steps[0].1);
      RunKeeps(p, db, Callback(p, sys, steps[0].0, steps[0].1), steps[1..]);
    }
  }

  /** At most one worker is inside `handle_request`. */
  ghost predicate MutualExclusion<D, L>(sys: System<D, L>) {
    forall v, w :: 0 <= v < w < |sys.works| ==> !sys.works[v].task.Running? || !sys.works[w].task.Running?
  }

  /** The worker protocol, over every interleaving of any number of workers and any failures: handlers
      exclude each other, so that the database is that of handling the requests one after another,
      each alone and to its end but for the one in progress, in the order of taking the mutex; every
      final reply answers the request its worker received last as that request does when handled
      alone, on its topic, is its only final reply and follows its streamed results, all of them,
      each once and in order; every message is freed exactly once by the time its worker lets go of
      it; and no callback meets a missing field. */
  lemma ProtocolHolds<D, L>(p: Program<D, L>, db: D, n: nat, steps: seq<(nat, Input)>)
    ensures var end := Run(p, Start(db, n), steps);
            && MutualExclusion(end) && Serial(p, db, end)
            && LogOk(p, db, end.served, end.log)
            && (forall m: nat :: FinalCount(end.log, m) <= 1)
            && (forall m: nat :: m < end.count ==> FreedCount(end.log, m) == if Held(end, m) then 0 else 1)
            && (forall w :: 0 <= w < n ==> Ready(end, w))
  {
    StartInv(p, db, n);
    RunKeeps(p, db, Start(db, n), steps);
    var end := Run(p, Start(db, n), steps);
    forall m: nat
      ensures FinalCount(end.log, m) <= 1
    {
      OneFinal(p, db, end.served, end.log, m);
    }
    forall w | 0 <= w < n
      ensures Ready(end, w) && (end.mutex == Some(w) <==> end.works[w].task.Running?)
    {
      assert WorkOk(p, db, end, w);
    }
  }

  lemma {:induction false} OneFinal<D, L>(p: Program<D, L>, db: D, served: seq<Turn>, log: seq<Event>, m: nat)
    requires LogOk(p, db, served, log)
    ensures FinalCount(log, m) <= 1
    decreases |log|
  {
    if log != [] {
      var n := |log| - 1;
      assert EventOk(p, db, served, log[..n], log[n]);
      forall j | 0 <= j < n
        ensures EventOk(p, db, served, log[..n][..j], log[..n][j])
      {
        assert log[..n][..j] == log[..j];
        assert EventOk(p, db, served, log[..j], log[j]);
      }
      OneFinal(p, db, served, log[..n], m);
    }
  }

  /** A handler that reads a counter and then writes it back increased. */
  datatype Counting = Reading | Writing(seen: int) | Written

  function Increment(): Program<int, Counting> {
    Program(payload => payload, payload => Reading,
            (db: int, local: Counting) =>
              match local
              case Reading => Access(db, Writing(db))
              case Writing(seen) => Access(seen + 1, Written)
              case Written => Finish([]))
  }

  /** Why exclusion matters: with the moves of two such requests interleaved both are done but the
      counter is 1, while handled one after another, in either order, they leave 2. */
  lemma InterleavedMovesLoseUpdate(m: Message, n: Message)
    ensures var p := Increment();
            var a, b := Alone(p, 0, m.payload, 1), Alone(p, 0, n.payload, 1);
            var a' := Moved(p, a.(db := b.db)); var b' := Moved(p, b.(db := a'.db));
            && Done(p, a') && Done(p, b') && b'.db == 1
            && After(p, 0, [Turn(m, 2), Turn(n, 2)]) == 2 == After(p, 0, [Turn(n, 2), Turn(m, 2)])
  {
    var p := Increment();
    forall db, payload
      ensures Alone(p, db, payload, 1) == Point(db, Writing(db), [])
      ensures Alone(p, db, payload, 2) == Point(db + 1, Written, [])
    {
      assert Alone(p, db, payload, 0) == Point(db, Reading, []);
    }
    forall a, b
      ensures After(p, 0, [Turn(a, 2), Turn(b, 2)]) == 2
    {
      var one, two := [Turn(a, 2)], [Turn(a, 2), Turn(b, 2)];
      assert two[..1] == one && one[..0] == [];
      assert After(p, 0, one) == 1;
    }
  }

  // ---------- the client object ----------

  /** The client with its database, its mutex and its workers. The turns and the log are the history
      that the theorem speaks about; messages and turns are counted only to be told apart. */
  class Client<D(!new), L(!new)> {
    const program: Program<D, L>
    const works: array<Work<L>>
    var db: D
    var mutex: Option<nat>
    var count: nat
    var turns: nat
    ghost var served: seq<Turn>
    ghost var log: seq<Event>

    ghost predicate Valid()
      reads this
    {
      turns == |served|
    }

    ghost function State(): System<D, L>
      reads this, works
    {
      System(db, mutex, works[..], count, served, log)
    }

    constructor (program: Program<D, L>, db: D, workers: nat)
      ensures Valid() && this.program == program && fresh(works) && State() == Start(db, workers)
    {
      this.program, this.db, mutex, count, turns := program, db, None, 0, 0;
      served, log := [], [];
      works := new Work<L>[workers](_ => Fresh());
    }

    /** `client_cb`: the switch over the state of one worker. */
    method ClientCb(w: nat, input: Input)
      requires Valid() && w < works.Length && Ready(State(), w)
      modifies this, works
      ensures Valid() && State() == Callback(program, old(State()), w, input)
    {
      match works[w].phase {
        case Init =>
          works[w] := works[w].(phase := Recv);
        case Recv =>
          if input.Receives? {
            var message := Message(count, input.payload);
            works[w] := works[w].(phase := Wait, msg := Some(message), last := Some(count));
            log := log + [Received(w, count)];
            count := count + 1;
          }
        case Wait =>
          if works[w].task.Idle? {
            EnterRequest(w);
          } else {
            HandleRequest(w, input);
          }
        case Send =>
          if works[w].reply.None? {
            works[w] := works[w].(phase := Recv);
          } else if input.Fails? {
            log := log + [Unsent(w, works[w].last.value)];
            works[w] := works[w].(phase := Recv);
          } else {
            log := log + [Final(w, works[w].last.value, works[w].requestid.value, works[w].reply.value)];
            works[w] := works[w].(reply := None, requestid := None);
          }
      }
    }

    /** The `WAIT` state up to the mutex: empty payloads are dropped, and `handle_request` begins when
        nobody else is inside. */
    method EnterRequest(w: nat)
      requires Valid() && w < works.Length && works[w].msg.Some? && works[w].task.Idle?
      modifies this, works
      ensures Valid() && forall input :: State() == OnWait(program, old(State()), w, input)
    {
      var message := works[w].msg.value;
      if message.payload == [] {
        FreeMessage(w, []);
      } else if mutex.None? {
        mutex := Some(w);
        works[w] := works[w].(task := Running(program.begin(message.payload), turns),
                              requestid := Some(program.topic(message.payload)));
        turns, served := turns + 1, served + [Turn(message, 0)];
      }
    }

    /** `handle_request` under the mutex, one move at a time. */
    method HandleRequest(w: nat, input: Input)
      requires Valid() && w < works.Length && works[w].msg.Some? && works[w].task.Running?
      modifies this, works
      ensures Valid() && State() == OnWait(program, old(State()), w, input)
    {
      var message, turn := works[w].msg.value, works[w].task.turn;
      match program.step(db, works[w].task.local) {
        case Access(next, local) =>
          db := next;
          works[w] := works[w].(task := Running(local, turn));
          served := Counted(served, turn);
        case Emit(payload, local) =>
          log := log + [Streamed(w, message.number, program.topic(message.payload), payload, !input.Fails?)];
          works[w] := works[w].(task := Running(local, turn));
          served := Counted(served, turn);
        case Finish(reply) =>
          mutex := None;
          FreeMessage(w, reply);
      }
    }

    method FreeMessage(w: nat, reply: Str)
      requires w < works.Length && works[w].msg.Some?
      modifies this`log, works
      ensures State() == Leave(old(State()), w, old(works[w]).msg.value, reply)
    {
      log := log + [Freed(works[w].msg.value.number)];
      works[w] := works[w].(msg := None, task := Idle);
      if reply == [] {
        works[w] := works[w].(phase := Recv);
      } else {
        works[w] := works[w].(phase := Send, reply := Some(reply));
      }
    }
  }

  // ---------- the retry loop of send_response ----------

  datatype SendResult = Accepted | Retriable | Fatal

  const MAX_RETRIES := 3

  /** Sends a streamed result, trying again at most three times. `results` is what the library
      would return to each attempt. The message ends up owned by the library or freed, exactly one
      of the two, and is sent exactly if an attempt is accepted before any fatal one. */
  method SendResponse(results: seq<SendResult>) returns (sent: bool, frees: nat, tries: nat)
    requires |results| > MAX_RETRIES
    ensures 1 <= tries <= MAX_RETRIES + 1
    ensures forall i :: 0 <= i < tries - 1 ==> results[i].Retriable?
    ensures sent <==> results[tries - 1].Accepted?
    ensures !sent ==> results[tries - 1].Fatal? || tries == MAX_RETRIES + 1
    ensures frees == if sent then 0 else 1
  {
    var attempt := 0;
    sent, frees, tries := false, 0, 0;
    while attempt <= MAX_RETRIES && !sent
      invariant 0 <= attempt <= MAX_RETRIES + 1 && !sent && frees == 0 && tries == attempt
      invariant attempt <= MAX_RETRIES
      invariant forall i :: 0 <= i < attempt ==> results[i].Retriable?
      decreases MAX_RETRIES + 1 - attempt
    {
      tries := tries + 1;
      match results[tries - 1] {
        case Accepted =>
          sent := true;
          return;
        case Retriable =>
          attempt := attempt + 1;
          if attempt > MAX_RETRIES {
            frees := frees + 1;
            return;
          }
        case Fatal =>
          frees := frees + 1;
          return;
      }
    }
  }
}
