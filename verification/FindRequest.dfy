/** A find request among other requests: it looks up ids, then reads and sends the documents one by
    one, going back to the database for each. */
module FindRequest {
  import opened Bytes
  import opened Json
  import opened CollectionOps
  import opened History
  import opened Consistency
  import opened Query
  import opened WorkerProtocol

  /** Where the handler stands: before the search, before an id of its answer, or with the document
      of that id in hand. */
  datatype FindState = Asked | Before(ids: seq<Str>, at: nat) | Read(ids: seq<Str>, at: nat, doc: Doc)

  /** A search in a collection: what the evaluator answers on each state, how documents are printed, and
      the replies to a search that comes to its end and to one that throws. */
  datatype Search =
    Search(collection: Str, answer: Families -> Progress, dump: Fields -> Str, reply: Str, caught: Str)

  /** `handle_find_documents`: an id that cannot be read is passed over, an exception is caught. */
  function FindStep(f: Search, s: Families, l: FindState): Move<Families, FindState> {
    match l
    case Asked => (
      match f.answer(s)
      case Running(ids) => Access(s, Before(ids, 0))
      case ReturnedEarly => Access(s, Before([], 0))
      case Threw => Finish(f.caught))
    case Before(ids, k) =>
      if k >= |ids| then Finish(f.reply)
      else if ReadStatus(s, f.collection, ids[k]) == OK then
        Access(s, Read(ids, k, ReadDocument(s, f.collection, ids[k])))
      else Access(s, Before(ids, k + 1))
    case Read(ids, k, doc) => Emit(f.dump(doc.data), Before(ids, k + 1))
  }

  /** The documents under the ids, as one state of the database holds them. */
  function Dumps(f: Search, s: Families, ids: seq<Str>): seq<Str> {
    if ids == [] then []
    else
      (if ReadStatus(s, f.collection, ids[0]) == OK then [f.dump(ReadDocument(s, f.collection, ids[0]).data)] else []) +
      Dumps(f, s, ids[1..])
  }

  /** What the search should send on a state. */
  function Results(f: Search, s: Families): seq<Str> {
    match f.answer(s)
    case Running(ids) => Dumps(f, s, ids)
    case _ => []
  }

  lemma {:induction false} DumpsMember(f: Search, s: Families, ids: seq<Str>, id: Str)
    requires id in ids && ReadStatus(s, f.collection, id) == OK
    ensures f.dump(ReadDocument(s, f.collection, id).data) in Dumps(f, s, ids)
    decreases |ids|
  {
    if id != ids[0] {
      DumpsMember(f, s, ids[1..], id);
    }
  }

  /** If the answer is the evaluator's, every stored document that satisfies an entry of an answerable
      filter is among the results. */
  lemma ResultsComplete(f: Search, s: Families, filter: seq<FilterEntry>, i: nat, id: Str)
    requires Sound(s, f.collection) && NoMissing(ViewOf(s, f.collection))
    requires Evaluates(s, f.collection, filter, f.answer(s))
    requires AllGoOn(s, f.collection, filter) && i < |filter| && AnswerableEntry(s, f.collection, filter[i])
    requires id in DocsOf(s, f.collection) && SatisfiesEntry(DocsOf(s, f.collection)[id], filter[i])
    ensures f.dump(DocsOf(s, f.collection)[id].data) in Results(f, s)
  {
    FilterComplete(s, f.collection, filter, f.answer(s), i, id);
    DumpsMember(f, s, f.answer(s).ids, id);
  }

  /** The reply to the search on a state. */
  function ReplyOn(f: Search, s: Families): Str {
    if f.answer(s).Threw? then f.caught else f.reply
  }

  function Embedded<L>(embed: FindState -> L, move: Move<Families, FindState>): Move<Families, L> {
    match move
    case Access(db, l) => Access(db, embed(l))
    case Emit(payload, l) => Emit(payload, embed(l))
    case Finish(reply) => Finish(reply)
  }

  /** The program handles the payload as this search; other payloads it may handle in any way. */
  ghost predicate Searches<L(!new)>(p: Program<Families, L>, payload: Str, f: Search, embed: FindState -> L) {
    && p.begin(payload) == embed(Asked)
    && forall s, l :: p.step(s, embed(l)) == Embedded(embed, FindStep(f, s, l))
  }

  lemma MovesOn<L(!new)>(p: Program<Families, L>, payload: Str, f: Search, embed: FindState -> L, s: Families, j: nat,
                         l: FindState, out: seq<Str>)
    requires Searches(p, payload, f, embed) && Alone(p, s, payload, j) == Point(s, embed(l), out)
    ensures match FindStep(f, s, l)
            case Access(db, next) => Alone(p, s, payload, j + 1) == Point(db, embed(next), out)
            case Emit(x, next) => Alone(p, s, payload, j + 1) == Point(s, embed(next), out + [x])
            case Finish(_) => Done(p, Alone(p, s, payload, j))
  {
    assert p.step(s, embed(l)) == Embedded(embed, FindStep(f, s, l));
  }

  /** From any id of the answer on, the loop sends the documents under the remaining ids. */
  lemma {:induction false} LoopSends<L(!new)>(p: Program<Families, L>, payload: Str, f: Search, embed: FindState -> L,
                                              s: Families, j: nat, ids: seq<Str>, k: nat, out: seq<Str>) returns (m: nat)
    requires Searches(p, payload, f, embed) && k <= |ids|
    requires Alone(p, s, payload, j) == Point(s, embed(Before(ids, k)), out)
    ensures Alone(p, s, payload, m) == Point(s, embed(Before(ids, |ids|)), out + Dumps(f, s, ids[k..]))
    decreases |ids| - k
  {
    if k == |ids| {
      m := j;
      assert out + [] == out;
    } else {
      MovesOn(p, payload, f, embed, s, j, Before(ids, k), out);
      assert ids[k..][1..] == ids[k + 1..];
      if ReadStatus(s, f.collection, ids[k]) == OK {
        var doc := ReadDocument(s, f.collection, ids[k]);
        MovesOn(p, payload, f, embed, s, j + 1, Read(ids, k, doc), out);
        m := LoopSends(p, payload, f, embed, s, j + 2, ids, k + 1, out + [f.dump(doc.data)]);
        assert out + [f.dump(doc.data)] + Dumps(f, s, ids[k + 1..]) == out + Dumps(f, s, ids[k..]);
      } else {
        m := LoopSends(p, payload, f, embed, s, j + 1, ids, k + 1, out);
        assert Dumps(f, s, ids[k..]) == Dumps(f, s, ids[k + 1..]);
      }
    }
  }

  /** Alone, the search comes to its reply, leaves the database as it is and sends its results. */
  lemma SearchAlone<L(!new)>(p: Program<Families, L>, payload: Str, f: Search, embed: FindState -> L, s: Families)
    returns (m: nat)
    requires Searches(p, payload, f, embed)
    ensures var q := Alone(p, s, payload, m);
            q.db == s && q.emitted == Results(f, s) && p.step(q.db, q.local) == Finish(ReplyOn(f, s))
  {
    MovesOn(p, payload, f, embed, s, 0, Asked, []);
    match f.answer(s) {
      case Threw =>
        m := 0;
        assert p.step(s, embed(Asked)) == Finish(f.caught);
      case ReturnedEarly =>
        m := LoopSends(p, payload, f, embed, s, 1, [], 0, []);
        assert p.step(s, embed(Before([], 0))) == Finish(f.reply);
      case Running(ids) =>
        m := LoopSends(p, payload, f, embed, s, 1, ids, 0, []);
        assert ids[0..] == ids && [] + Dumps(f, s, ids) == Dumps(f, s, ids);
        assert p.step(s, embed(Before(ids, |ids|))) == Finish(f.reply);
    }
  }

  /** A request that is done stays where it is. */
  lemma {:induction false} DoneStays<D, L>(p: Program<D, L>, db: D, payload: Str, j: nat, k: nat)
    requires j <= k && Done(p, Alone(p, db, payload, j))
    ensures Alone(p, db, payload, k) == Alone(p, db, payload, j)
    decreases k
  {
    if j < k {
      DoneStays(p, db, payload, j, k - 1);
    }
  }

  /** The turn of a search that is done has sent its results on the state it found, and left it. */
  lemma TurnOfSearch<L(!new)>(p: Program<Families, L>, db: Families, served: seq<Turn>, i: nat, number: nat, topic: Str,
                              emitted: seq<Str>, reply: Str, f: Search, embed: FindState -> L)
    requires Answers(p, db, served, i, number, topic, emitted, reply)
    requires Searches(p, served[i].message.payload, f, embed)
    ensures var s := After(p, db, served[..i]);
            emitted == Results(f, s) && reply == ReplyOn(f, s) && After(p, db, served[..i + 1]) == s
  {
    var s, payload := After(p, db, served[..i]), served[i].message.payload;
    var m := SearchAlone(p, payload, f, embed, s);
    var k := served[i].steps;
    DoneStays(p, s, payload, if m <= k then m else k, if m <= k then k else m);
    assert served[..i + 1][..i] == served[..i];
  }

  /** The turn that a final reply answers. */
  lemma TurnOfReply<L>(p: Program<Families, L>, db: Families, n: nat, steps: seq<(nat, Input)>, j: nat, end: System<Families, L>)
    returns (i: nat)
    requires end == WorkerProtocol.Run(p, Start(db, n), steps) && j < |end.log| && end.log[j].Final?
    ensures var e := end.log[j];
            Answers(p, db, end.served, i, e.number, e.topic, StreamedOf(end.log[..j], e.number), e.payload)
  {
    ProtocolHolds(p, db, n, steps);
    var e, before := end.log[j], end.log[..j];
    assert EventOk(p, db, end.served, before, e);
    i :| Answers(p, db, end.served, i, e.number, e.topic, StreamedOf(before, e.number), e.payload);
  }

  /** Whatever other requests write, and however the workers interleave: when the final reply to a
      search goes out, the documents sent before it are the results of the search on one state of the
      database, that of its turn, each document as it is in that state; and the search changed
      nothing. */
  lemma SearchSeesOneState<L(!new)>(p: Program<Families, L>, db: Families, n: nat, steps: seq<(nat, Input)>, j: nat,
                                    payload: Str, f: Search, embed: FindState -> L) returns (i: nat)
    requires Searches(p, payload, f, embed)
    requires var end := WorkerProtocol.Run(p, Start(db, n), steps);
             && j < |end.log| && end.log[j].Final?
             && forall k :: 0 <= k < |end.served| && end.served[k].message.number == end.log[j].number ==>
                  end.served[k].message.payload == payload
    ensures var end := WorkerProtocol.Run(p, Start(db, n), steps);
            && i < |end.served| && end.served[i].message.number == end.log[j].number
            && StreamedOf(end.log[..j], end.log[j].number) == Results(f, After(p, db, end.served[..i]))
            && After(p, db, end.served[..i + 1]) == After(p, db, end.served[..i])
            && end.log[j].payload == ReplyOn(f, After(p, db, end.served[..i]))
  {
    var end := WorkerProtocol.Run(p, Start(db, n), steps);
    var e := end.log[j];
    i := TurnOfReply(p, db, n, steps, j, end);
    TurnOfSearch(p, db, end.served, i, e.number, e.topic, StreamedOf(end.log[..j], e.number), e.payload, f, embed);
  }
}
