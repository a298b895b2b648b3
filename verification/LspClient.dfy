/** The threaded JSON-RPC client: concurrent requests matched to replies by id. */
module LspClient {
  import opened Options

  /** A JSON-RPC id as the server may send it. */
  datatype Id = Num(n: int) | Text(s: string)

  /** A decoded message: a reply, a request of the server's own, or a notification. */
  datatype Message = Response(id: Id) | ServerRequest(id: Id) | Notification

  /** A reply as routed: its id, and its position in the order of arrival. */
  datatype Arrived = Arrived(id: Id, order: nat)

  /** Where a requesting thread is between taking an id and leaving `request`. */
  datatype Phase = HasId(id: int) | Waiting(id: int)

  /** A request that left with a reply. */
  datatype Answered = Answered(id: int, reply: Arrived)

  datatype State = State(
    nextId: int, pending: map<Id, Arrived>, alive: bool,
    arrivals: nat, threads: map<nat, Phase>, issued: seq<int>, answered: seq<Answered>, failed: set<int>)

  datatype Event =
    | TakeId(thread: nat) | Send(thread: nat) | SendFails(thread: nat)
    | Receive(message: Message) | ReaderStops
    | PopReply(thread: nat) | GiveUp(thread: nat)

  const InitialState := State(1, map[], true, 0, map[], [], [], {})

  function Failing(s: State, thread: nat, id: int): (r: State)
  {
    s.(threads := s.threads - {thread}, failed := s.failed + {id})
  }

  /** One atomic section; an event its thread is not ready for does nothing. */
  function Step(s: State, e: Event): (r: State)
  {
    match e
    case TakeId(t) =>
      if t in s.threads then s
      else s.(nextId := s.nextId + 1, threads := s.threads[t := HasId(s.nextId)], issued := s.issued + [s.nextId])
    case Send(t) =>
      if t in s.threads && s.threads[t].HasId? then s.(threads := s.threads[t := Waiting(s.threads[t].id)]) else s
    case SendFails(t) =>
      if t in s.threads && s.threads[t].HasId? then Failing(s, t, s.threads[t].id).(alive := false) else s
    case Receive(m) =>
      var t := s.(arrivals := s.arrivals + 1);
      if m.Response? then t.(pending := s.pending[m.id := Arrived(m.id, s.arrivals)]) else t
    case ReaderStops => s.(alive := false)
    case PopReply(t) =>
      if t in s.threads && s.threads[t].Waiting? && Num(s.threads[t].id) in s.pending then
        var id := s.threads[t].id;
        s.(pending := s.pending - {Num(id)}, threads := s.threads - {t},
           answered := s.answered + [Answered(id, s.pending[Num(id)])])
      else s
    case GiveUp(t) =>
      if t in s.threads && s.threads[t].Waiting? && Num(s.threads[t].id) !in s.pending then
        Failing(s, t, s.threads[t].id)
      else s
  }

  function Run(events: seq<Event>): (s: State)
  {
    if events == [] then InitialState else Step(Run(events[..|events| - 1]), events[|events| - 1])
  }

  /** Ids are handed out as 1, 2, 3, ... */
  ghost predicate IssuedOk(nextId: int, issued: seq<int>)
  {
    nextId == |issued| + 1 && forall i :: 0 <= i < |issued| ==> issued[i] == i + 1
  }

  /** Every id in use was issued, belongs to one thread, and has neither been answered nor failed. */
  ghost predicate ThreadsOk(nextId: int, threads: map<nat, Phase>, answered: seq<Answered>, failed: set<int>)
  {
    && (forall t :: t in threads ==> 1 <= threads[t].id < nextId && threads[t].id !in failed)
    && (forall t, u :: t in threads && u in threads && t != u ==> threads[t].id != threads[u].id)
    && (forall t, i :: t in threads && 0 <= i < |answered| ==> answered[i].id != threads[t].id)
    && (forall id :: id in failed ==> 1 <= id < nextId)
    && (forall i :: 0 <= i < |answered| ==> 1 <= answered[i].id < nextId && answered[i].id !in failed)
    && (forall i, j :: 0 <= i < j < |answered| ==> answered[i].id != answered[j].id)
  }

  /** A reply waits under its own id; no arrival is in two places. */
  ghost predicate RepliesOk(pending: map<Id, Arrived>, arrivals: nat, answered: seq<Answered>)
  {
    && (forall k :: k in pending ==> pending[k].id == k && pending[k].order < arrivals)
    && (forall k, l :: k in pending && l in pending && k != l ==> pending[k].order != pending[l].order)
    && (forall k, i :: k in pending && 0 <= i < |answered| ==> pending[k].order != answered[i].reply.order)
    && (forall i :: 0 <= i < |answered| ==>
          answered[i].reply.id == Num(answered[i].id) && answered[i].reply.order < arrivals)
    && (forall i, j :: 0 <= i < j < |answered| ==> answered[i].reply.order != answered[j].reply.order)
  }

  ghost predicate Inv(s: State)
  {
    && IssuedOk(s.nextId, s.issued)
    && ThreadsOk(s.nextId, s.threads, s.answered, s.failed)
    && RepliesOk(s.pending, s.arrivals, s.answered)
  }

  lemma {:induction false} TakeIdKeeps(s: State, t: nat)
    requires Inv(s)
    ensures Inv(Step(s, TakeId(t)))
  {
    hide RepliesOk;
  }

  lemma {:induction false} ReceiveKeeps(s: State, m: Message)
    requires Inv(s)
    ensures Inv(Step(s, Receive(m)))
  {
    hide ThreadsOk, IssuedOk;
  }

  lemma {:induction false} PopKeepsThreads(s: State, t: nat)
    requires Inv(s) && t in s.threads
    ensures var id := s.threads[t].id;
            forall a: Arrived :: ThreadsOk(s.nextId, s.threads - {t}, s.answered + [Answered(id, a)], s.failed)
  {
    hide RepliesOk, IssuedOk;
  }

  lemma {:induction false} PopKeepsReplies(pending: map<Id, Arrived>, arrivals: nat, answered: seq<Answered>, id: int)
    requires RepliesOk(pending, arrivals, answered) && Num(id) in pending
    ensures RepliesOk(pending - {Num(id)}, arrivals, answered + [Answered(id, pending[Num(id)])])
  {
  }

  lemma {:induction false} FailKeeps(s: State, t: nat)
    requires Inv(s) && t in s.threads
    ensures Inv(Failing(s, t, s.threads[t].id)) && Inv(Failing(s, t, s.threads[t].id).(alive := false))
  {
    hide RepliesOk, IssuedOk;
  }

  lemma {:induction false} SendKeeps(s: State, t: nat)
    requires Inv(s)
    ensures Inv(Step(s, Send(t)))
  {
    hide RepliesOk, IssuedOk;
  }

  lemma {:induction false} SendFailsKeeps(s: State, t: nat)
    requires Inv(s)
    ensures Inv(Step(s, SendFails(t)))
  {
    hide Inv;
    if t in s.threads {
      FailKeeps(s, t);
    }
  }

  lemma {:induction false} GiveUpKeeps(s: State, t: nat)
    requires Inv(s)
    ensures Inv(Step(s, GiveUp(t)))
  {
    hide Inv;
    if t in s.threads {
      FailKeeps(s, t);
    }
  }

  lemma {:induction false} PopReplyKeeps(s: State, t: nat)
    requires Inv(s)
    ensures Inv(Step(s, PopReply(t)))
  {
    if t in s.threads && Num(s.threads[t].id) in s.pending {
      PopKeepsThreads(s, t);
      PopKeepsReplies(s.pending, s.arrivals, s.answered, s.threads[t].id);
    }
    hide ThreadsOk, RepliesOk, IssuedOk;
  }

  lemma {:induction false} ReaderStopsKeeps(s: State)
    requires Inv(s)
    ensures Inv(Step(s, ReaderStops))
  {
    hide ThreadsOk, RepliesOk, IssuedOk;
  }

  lemma {:induction false} StepKeeps(s: State, e: Event)
    requires Inv(s)
    ensures Inv(Step(s, e))
  {
    hide Inv, Step;
    match e
    case TakeId(t) => TakeIdKeeps(s, t);
    case Send(t) => SendKeeps(s, t);
    case SendFails(t) => SendFailsKeeps(s, t);
    case Receive(m) => ReceiveKeeps(s, m);
    case ReaderStops => ReaderStopsKeeps(s);
    case PopReply(t) => PopReplyKeeps(s, t);
    case GiveUp(t) => GiveUpKeeps(s, t);
  }

  lemma {:induction false} RunKeeps(events: seq<Event>)
    ensures Inv(Run(events))
  {
    if events == [] {
    } else {
      RunKeeps(events[..|events| - 1]);
      StepKeeps(Run(events[..|events| - 1]), events[|events| - 1]);
    }
  }

  // What every interleaving guarantees.

  /** Request ids are pairwise distinct. */
  lemma {:induction false} IdsAreDistinct(events: seq<Event>)
    ensures var issued := Run(events).issued;
            forall i, j :: 0 <= i < j < |issued| ==> issued[i] != issued[j]
  {
    RunKeeps(events);
  }

  /** A request that returns has a reply with its own id; no reply is returned twice, no request returns
      twice, and a request that failed never returns. */
  lemma {:induction false} RepliesReachTheirRequest(events: seq<Event>)
    ensures var s := Run(events);
            && (forall i :: 0 <= i < |s.answered| ==>
                  && s.answered[i].reply.id == Num(s.answered[i].id)
                  && s.answered[i].id in s.issued && s.answered[i].id !in s.failed)
            && (forall i, j :: 0 <= i < j < |s.answered| ==>
                  && s.answered[i].reply.order != s.answered[j].reply.order
                  && s.answered[i].id != s.answered[j].id)
  {
    RunKeeps(events);
    var s := Run(events);
    forall i | 0 <= i < |s.answered|
      ensures s.answered[i].id in s.issued
    {
      assert s.issued[s.answered[i].id - 1] == s.answered[i].id;
    }
  }

  /** A reply to a request that has failed is never handed to anyone, however the run goes on. */
  lemma {:induction false} LateReplyStaysUnclaimed(events: seq<Event>, later: seq<Event>, id: int)
    requires id in Run(events).failed
    ensures id in Run(events + later).failed
    ensures forall i :: 0 <= i < |Run(events + later).answered| ==> Run(events + later).answered[i].reply.id != Num(id)
    decreases |later|
  {
    hide Inv, Step;
    var all := events + later;
    RunKeeps(all);
    if later == [] {
      assert all == events;
    } else {
      var init := later[..|later| - 1];
      LateReplyStaysUnclaimed(events, init, id);
      assert all[..|all| - 1] == events + init;
      FailedStays(Run(events + init), all[|all| - 1], id);
    }
    FailedIsUnanswered(Run(all), id);
  }

  lemma {:induction false} FailedStays(s: State, e: Event, id: int)
    requires id in s.failed
    ensures id in Step(s, e).failed
  {
  }

  lemma {:induction false} FailedIsUnanswered(s: State, id: int)
    requires Inv(s) && id in s.failed
    ensures forall i :: 0 <= i < |s.answered| ==> s.answered[i].reply.id != Num(id)
  {
  }

  /** Which message the reply is: the one that arrived at that position of the run, and it is a response. */
  ghost function Received(events: seq<Event>): (ms: seq<Message>)
  {
    if events == [] then []
    else
      var init, last := Received(events[..|events| - 1]), events[|events| - 1];
      if last.Receive? then init + [last.message] else init
  }

  ghost predicate Genuine(ms: seq<Message>, a: Arrived)
  {
    a.order < |ms| && ms[a.order] == Response(a.id)
  }

  ghost predicate AllGenuine(ms: seq<Message>, s: State)
  {
    && s.arrivals == |ms|
    && (forall k :: k in s.pending ==> Genuine(ms, s.pending[k]))
    && (forall i :: 0 <= i < |s.answered| ==> Genuine(ms, s.answered[i].reply))
  }

  lemma {:induction false} StaysGenuine(ms: seq<Message>, s: State, e: Event)
    requires AllGenuine(ms, s)
    ensures AllGenuine(if e.Receive? then ms + [e.message] else ms, Step(s, e))
  {
    if e.PopReply? {
      hide Genuine;
    }
  }

  /** Every reply that waits or was handed out is a response, the one that arrived at its place of the stream. */
  lemma {:induction false} RepliesAreGenuine(events: seq<Event>)
    ensures var s := Run(events);
            && s.arrivals == |Received(events)|
            && (forall k :: k in s.pending ==> Genuine(Received(events), s.pending[k]))
            && (forall i :: 0 <= i < |s.answered| ==> Genuine(Received(events), s.answered[i].reply))
  {
    AlwaysGenuine(events);
  }

  lemma {:induction false} AlwaysGenuine(events: seq<Event>)
    ensures AllGenuine(Received(events), Run(events))
  {
    if events == [] {
    } else {
      var before := events[..|events| - 1];
      AlwaysGenuine(before);
      StaysGenuine(Received(before), Run(before), events[|events| - 1]);
    }
  }

  // What a client does not fail to do.

  ghost predicate Awaits(s: State, t: nat, id: int)
  {
    t in s.threads && s.threads[t] == Waiting(id)
  }

  ghost predicate NotOf(t: nat, e: Event)
  {
    match e
    case TakeId(u) => u != t
    case Send(u) => u != t
    case SendFails(u) => u != t
    case PopReply(u) => u != t
    case GiveUp(u) => u != t
    case _ => true
  }

  /** A reply stays for the request that waits for it, whatever other threads and the reader do. */
  lemma {:induction false} ReplyStays(s: State, e: Event, t: nat, id: int)
    requires Inv(s) && Awaits(s, t, id) && Num(id) in s.pending && NotOf(t, e)
    ensures Awaits(Step(s, e), t, id) && Num(id) in Step(s, e).pending
  {
    hide RepliesOk, IssuedOk;
  }

  lemma {:induction false} ReplyWaits(events: seq<Event>, later: seq<Event>, t: nat, id: int)
    requires Awaits(Run(events), t, id) && Num(id) in Run(events).pending
    requires forall i :: 0 <= i < |later| ==> NotOf(t, later[i])
    ensures Awaits(Run(events + later), t, id) && Num(id) in Run(events + later).pending
    decreases |later|
  {
    var all := events + later;
    if later == [] {
      assert all == events;
    } else {
      var init, last := later[..|later| - 1], later[|later| - 1];
      ReplyWaits(events, init, t, id);
      RunKeeps(events + init);
      assert all[..|all| - 1] == events + init && NotOf(t, last);
      hide Inv, Awaits, NotOf, Step;
      ReplyStays(Run(events + init), last, t, id);
    }
  }

  /** A request that waits gets the reply that arrives for it: over every run, once a response with its id has come
      in, the request cannot give up, and as soon as it looks it returns with a reply of its own id. */
  lemma {:induction false} ReplyIsDelivered(events: seq<Event>, later: seq<Event>, t: nat, id: int)
    requires Awaits(Run(events), t, id) && forall i :: 0 <= i < |later| ==> NotOf(t, later[i])
    ensures var s := Run(events + [Receive(Response(Num(id)))] + later);
      && Step(s, GiveUp(t)) == s
      && var r := Step(s, PopReply(t));
         |r.answered| == |s.answered| + 1 && r.answered[|s.answered|].id == id && t !in r.threads
  {
    var got := events + [Receive(Response(Num(id)))];
    assert got[..|got| - 1] == events;
    assert Awaits(Run(got), t, id) && Num(id) in Run(got).pending;
    ReplyWaits(got, later, t, id);
    hide Run;
  }

  /** A failed write fails its request and marks the client dead. */
  lemma {:induction false} FailedWriteFails(events: seq<Event>, t: nat)
    requires t in Run(events).threads && Run(events).threads[t].HasId?
    ensures var s := Run(events);
      var r := Step(s, SendFails(t));
      !r.alive && s.threads[t].id in r.failed && t !in r.threads
  {
  }

  /** The end of the stream is the end of the client: nothing brings it back. */
  lemma {:induction false} DeadStaysDead(events: seq<Event>, later: seq<Event>)
    ensures !Run(events + [ReaderStops] + later).alive
    decreases |later|
  {
    var dead := events + [ReaderStops];
    var all := dead + later;
    if later == [] {
      assert all[..|all| - 1] == events && all[|all| - 1] == ReaderStops;
    } else {
      DeadStaysDead(events, later[..|later| - 1]);
      assert all[..|all| - 1] == dead + later[..|later| - 1];
    }
  }

  // The critical sections.

  class Client {
    var nextId: int
    var pending: map<Id, Arrived>
    var alive: bool
    var arrivals: nat

    constructor ()
      ensures nextId == InitialState.nextId && pending == map[] && alive && arrivals == 0
    {
      nextId, pending, alive, arrivals := 1, map[], true, 0;
    }

    /** This object holds the shared part of the state. */
    ghost predicate Holds(s: State)
      reads this
    {
      nextId == s.nextId && pending == s.pending && alive == s.alive && arrivals == s.arrivals
    }

    /** Under `_id_lock`. */
    method AllocateId(thread: nat, ghost s: State) returns (id: int)
      requires Holds(s) && thread !in s.threads
      modifies this
      ensures Holds(Step(s, TakeId(thread)))
      ensures Step(s, TakeId(thread)).threads[thread] == HasId(id)
    {
      id := nextId;
      nextId := nextId + 1;
    }

    /** `_route`, under `_pending_cv`. */
    method Route(m: Message, ghost s: State)
      requires Holds(s)
      modifies this
      ensures Holds(Step(s, Receive(m)))
    {
      if m.Response? {
        pending := pending[m.id := Arrived(m.id, arrivals)];
      }
      arrivals := arrivals + 1;
    }

    /** The wait loop's body, under `_pending_cv`: pop the reply, give up, or keep waiting. */
    method Poll(thread: nat, id: int, expired: bool, ghost s: State) returns (reply: Option<Arrived>, gaveUp: bool)
      requires Holds(s) && thread in s.threads && s.threads[thread] == Waiting(id)
      modifies this
      ensures reply.Some? ==>
                && Holds(Step(s, PopReply(thread)))
                && Step(s, PopReply(thread)).answered == s.answered + [Answered(id, reply.value)]
      ensures reply.None? && gaveUp ==>
                Holds(Step(s, GiveUp(thread))) && Step(s, GiveUp(thread)).failed == s.failed + {id}
      ensures reply.None? && !gaveUp ==> Holds(s)
      ensures reply.Some? <==> Num(id) in s.pending
      ensures gaveUp <==> Num(id) !in s.pending && (expired || !s.alive)
    {
      if Num(id) in pending {
        reply, gaveUp := Some(pending[Num(id)]), false;
        pending := pending - {Num(id)};
      } else {
        reply, gaveUp := None, expired || !alive;
      }
    }

    /** The end of the stream or a failed write. */
    method MarkDead(ghost s: State)
      requires Holds(s)
      modifies this
      ensures Holds(Step(s, ReaderStops))
    {
      alive := false;
    }
  }
}
