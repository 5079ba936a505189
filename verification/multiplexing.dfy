/** Many requests in flight on one asyncio connection: replies find their futures by request identifier. */
module Multiplexing {
  import opened Bytes
  import opened Hashing

  datatype Outcome = Waiting | Reply(data: bytes) | Failed(error: int)

  /** A request's future; `times` counts how often it has been resolved. */
  datatype Future = Future(id: int, outcome: Outcome, times: nat)

  /** `_pending_reqs` maps a request identifier to one of the futures created so far. */
  datatype Conn = Conn(pending: map<int, nat>, futures: seq<Future>, failed: bool, closed: bool)

  function Resolve(f: Future, o: Outcome): Future {
    f.(outcome := o, times := f.times + 1)
  }

  predicate Alive(c: Conn) {
    !c.failed && !c.closed
  }

  /** `data[4:12]`, as a signed integer. */
  function RequestId(data: bytes): int {
    FromSignedLE(Slice(data, 4, 8))
  }

  /** `request`: refused on a connection that is not alive. */
  function Send(c: Conn, id: int): Conn {
    if !Alive(c) then c
    else c.(pending := c.pending[id := |c.futures|], futures := c.futures + [Future(id, Waiting, 0)])
  }

  ghost predicate Tracked(c: Conn) {
    forall id :: id in c.pending ==> c.pending[id] < |c.futures|
  }

  /** `process_message`. */
  function Deliver(c: Conn, data: bytes): Conn
    requires Tracked(c)
  {
    var id := RequestId(data);
    if id in c.pending then
      var k := c.pending[id];
      c.(pending := c.pending - {id}, futures := c.futures[k := Resolve(c.futures[k], Reply(data))])
    else c
  }

  /** Every future in `pending` resolved with the error, the others untouched. */
  function FailPending(futures: seq<Future>, pending: map<int, nat>, error: int): (r: seq<Future>)
    ensures |r| == |futures|
  {
    seq(|futures|, k requires 0 <= k < |futures| =>
      if futures[k].id in pending && pending[futures[k].id] == k then Resolve(futures[k], Failed(error)) else futures[k])
  }

  /** `process_connection_lost`. */
  function Lose(c: Conn, error: int): Conn {
    c.(pending := map[], futures := FailPending(c.futures, c.pending, error), failed := true)
  }

  datatype Event = Sent(id: int) | Message(data: bytes) | Lost(error: int) | Connected | Closed

  function Step(c: Conn, e: Event): (r: Conn)
    requires Tracked(c)
    ensures Tracked(r)
  {
    match e
    case Sent(id) => Send(c, id)
    case Message(data) => Deliver(c, data)
    case Lost(error) => Lose(c, error)
    case Connected => c.(failed := false, closed := false)
    case Closed => c.(closed := true)
  }

  function Run(c: Conn, events: seq<Event>): (r: Conn)
    requires Tracked(c)
    ensures Tracked(r)
  {
    if events == [] then c else Step(Run(c, events[..|events| - 1]), events[|events| - 1])
  }

  const IDLE: Conn := Conn(map[], [], false, false)

  /** What holds in every run, whatever identifiers are used. */
  ghost predicate Consistent(c: Conn) {
    && (forall id :: id in c.pending ==> c.pending[id] < |c.futures| && c.futures[c.pending[id]] == Future(id, Waiting, 0))
    && (forall k :: 0 <= k < |c.futures| ==>
          c.futures[k].times == (if c.futures[k].outcome.Waiting? then 0 else 1)
          && (c.futures[k].outcome.Reply? ==> RequestId(c.futures[k].outcome.data) == c.futures[k].id))
  }

  /** The pending map holds every unresolved future. */
  ghost predicate Complete(c: Conn) {
    forall k :: 0 <= k < |c.futures| && c.futures[k].outcome.Waiting? ==>
      c.futures[k].id in c.pending && c.pending[c.futures[k].id] == k
  }

  lemma StepIsConsistent(c: Conn, e: Event)
    requires Consistent(c)
    ensures Consistent(Step(c, e))
    ensures e.Lost? ==> Step(c, e).pending == map[]
  {
    hide RequestId;
    match e
    case Sent(_) =>
    case Message(_) =>
    case Lost(_) =>
    case Connected =>
    case Closed =>
  }

  /** In every interleaving each future is resolved at most once, by a reply carrying its own
      identifier or by the loss, and the pending map names unresolved futures only. */
  lemma {:induction false} EveryRunIsConsistent(events: seq<Event>)
    ensures Consistent(Run(IDLE, events))
    ensures events != [] && events[|events| - 1].Lost? ==> Run(IDLE, events).pending == map[]
  {
    if events != [] {
      EveryRunIsConsistent(events[..|events| - 1]);
      StepIsConsistent(Run(IDLE, events[..|events| - 1]), events[|events| - 1]);
      hide Consistent, Step;
    }
  }

  // ---- what becomes of each request

  /** Future k still waits, and no later request was sent under its identifier. */
  ghost predicate Awaits(c: Conn, k: nat) {
    k < |c.futures| && c.futures[k].outcome.Waiting?
    && forall j :: k < j < |c.futures| ==> c.futures[j].id != c.futures[k].id
  }

  /** The pending map holds exactly the futures that something can still resolve. */
  ghost predicate PendingAwaits(c: Conn) {
    && (forall id :: id in c.pending ==> Awaits(c, c.pending[id]) && c.futures[c.pending[id]].id == id)
    && (forall k: nat :: Awaits(c, k) ==> c.futures[k].id in c.pending && c.pending[c.futures[k].id] == k)
  }

  lemma LatestIsOne(c: Conn, j: nat, k: nat)
    requires Awaits(c, j) && Awaits(c, k) && c.futures[j].id == c.futures[k].id
    ensures j == k
  {}

  lemma SendAwaits(c: Conn, id: int)
    requires PendingAwaits(c)
    ensures PendingAwaits(Send(c, id))
  {
    var d := Send(c, id);
    if Alive(c) {
      forall k: nat ensures Awaits(d, k) <==> k == |c.futures| || (Awaits(c, k) && c.futures[k].id != id) {
        assert d.futures[|c.futures|] == Future(id, Waiting, 0);
        assert forall j :: 0 <= j < |c.futures| ==> d.futures[j] == c.futures[j];
        if Awaits(d, k) && k < |c.futures| { assert d.futures[|c.futures|].id != d.futures[k].id; }
      }
    }
  }

  /** A connection on which a set of awaited futures has been resolved and taken out of the map. */
  lemma ResolvedAwaits(c: Conn, d: Conn, gone: set<int>)
    requires PendingAwaits(c) && d.pending == c.pending - gone && |d.futures| == |c.futures|
    requires forall k :: 0 <= k < |c.futures| ==> d.futures[k].id == c.futures[k].id
    requires forall k :: 0 <= k < |c.futures| ==>
      if Awaits(c, k) && c.futures[k].id in gone then !d.futures[k].outcome.Waiting? else d.futures[k] == c.futures[k]
    ensures PendingAwaits(d)
  {
    forall k: nat ensures Awaits(d, k) <==> Awaits(c, k) && c.futures[k].id !in gone {}
  }

  lemma DeliverAwaits(c: Conn, data: bytes)
    requires Tracked(c) && PendingAwaits(c)
    ensures PendingAwaits(Deliver(c, data))
  {
    hide RequestId;
    var id := RequestId(data);
    if id in c.pending {
      forall k: nat | Awaits(c, k) && c.futures[k].id == id ensures k == c.pending[id] { LatestIsOne(c, k, c.pending[id]); }
      ResolvedAwaits(c, Deliver(c, data), {id});
    }
  }

  lemma LoseAwaits(c: Conn, error: int)
    requires PendingAwaits(c)
    ensures PendingAwaits(Lose(c, error))
  {
    assert c.pending - c.pending.Keys == map[];
    ResolvedAwaits(c, Lose(c, error), c.pending.Keys);
  }

  lemma {:induction false} EveryRunAwaits(events: seq<Event>)
    ensures PendingAwaits(Run(IDLE, events))
  {
    if events != [] {
      var c, e := Run(IDLE, events[..|events| - 1]), events[|events| - 1];
      EveryRunAwaits(events[..|events| - 1]);
      hide PendingAwaits, Send, Deliver, Lose;
      match e
      case Sent(id) => SendAwaits(c, id);
      case Message(data) => DeliverAwaits(c, data);
      case Lost(error) => LoseAwaits(c, error);
      case Connected => SameAwaits(c, Step(c, e));
      case Closed => SameAwaits(c, Step(c, e));
    }
  }

  lemma SameAwaits(c: Conn, d: Conn)
    requires PendingAwaits(c) && d.pending == c.pending && d.futures == c.futures
    ensures PendingAwaits(d)
  {
    forall k: nat ensures Awaits(d, k) <==> Awaits(c, k) {}
  }

  /** In every run, reuse included, a message resolves the last request sent under the identifier in its bytes 4 to 12,
      if that request still waits, and touches no other future and no other pending entry. */
  lemma MessageResolvesExactly(events: seq<Event>, data: bytes)
    requires |data| >= 12
    ensures var c, d := Run(IDLE, events), Run(IDLE, events + [Message(data)]);
      var id := FromSignedLE(data[4..12]);
      && |d.futures| == |c.futures| && d.failed == c.failed && d.closed == c.closed && d.pending == c.pending - {id}
      && forall k :: 0 <= k < |c.futures| ==>
           d.futures[k] == if Awaits(c, k) && c.futures[k].id == id then Future(id, Reply(data), 1) else c.futures[k]
  {
    var c, d := Run(IDLE, events), Run(IDLE, events + [Message(data)]);
    assert (events + [Message(data)])[..|events|] == events;
    EveryRunAwaits(events);
    EveryRunIsConsistent(events);
    assert d == Deliver(c, data);
    var id := FromSignedLE(data[4..12]);
    assert RequestId(data) == id;
    hide Run, RequestId;
    assert c.pending - {id} == if id in c.pending then c.pending - {id} else c.pending;
    forall k | 0 <= k < |c.futures|
      ensures d.futures[k] == if Awaits(c, k) && c.futures[k].id == id then Future(id, Reply(data), 1) else c.futures[k]
    {
      if Awaits(c, k) && c.futures[k].id == id { LatestIsOne(c, k, c.pending[id]); }
    }
  }

  /** A loss resolves every awaited request with its error and leaves all other futures as they are. */
  lemma LossResolvesExactly(events: seq<Event>, error: int)
    ensures var c, d := Run(IDLE, events), Run(IDLE, events + [Lost(error)]);
      && |d.futures| == |c.futures| && d.failed && d.pending == map[]
      && forall k :: 0 <= k < |c.futures| ==>
           d.futures[k] == if Awaits(c, k) then Future(c.futures[k].id, Failed(error), 1) else c.futures[k]
  {
    var c, d := Run(IDLE, events), Run(IDLE, events + [Lost(error)]);
    assert (events + [Lost(error)])[..|events|] == events;
    EveryRunAwaits(events);
    EveryRunIsConsistent(events);
    assert d == Lose(c, error);
    hide Run;
  }

  /** On a live connection a request adds one future that waits under its identifier; else nothing happens. */
  lemma RequestAddsExactly(events: seq<Event>, id: int)
    ensures var c, d := Run(IDLE, events), Run(IDLE, events + [Sent(id)]);
      if c.failed || c.closed then d == c
      else d.futures == c.futures + [Future(id, Waiting, 0)] && Awaits(d, |c.futures|)
           && d.pending == c.pending[id := |c.futures|] && !d.failed && !d.closed
  {
    assert (events + [Sent(id)])[..|events|] == events;
  }

  // ---- reuse of identifiers

  /** No request was sent under an identifier that was still in flight. */
  predicate NoReuse(events: seq<Event>) {
    forall n :: 0 <= n < |events| && events[n].Sent? ==>
      var c := Run(IDLE, events[..n]);
      !Alive(c) || events[n].id !in c.pending
  }

  lemma StepIsComplete(c: Conn, e: Event)
    requires Consistent(c) && Complete(c) && (e.Sent? ==> !Alive(c) || e.id !in c.pending)
    ensures Complete(Step(c, e))
    ensures e.Lost? ==> forall f :: f in Step(c, e).futures ==> !f.outcome.Waiting?
  {
    hide RequestId;
  }

  /** Without reuse nothing is forgotten: the pending map holds exactly the unresolved futures. */
  lemma {:induction false} NothingForgotten(events: seq<Event>)
    requires NoReuse(events)
    ensures Complete(Run(IDLE, events))
    ensures events != [] && events[|events| - 1].Lost? ==>
      forall f :: f in Run(IDLE, events).futures ==> !f.outcome.Waiting?
  {
    if events != [] {
      var before := events[..|events| - 1];
      assert forall n :: 0 <= n < |before| ==> events[..n] == before[..n];
      NothingForgotten(before);
      EveryRunIsConsistent(before);
      var c, e := Run(IDLE, before), events[|events| - 1];
      assert e.Sent? ==> !Alive(c) || e.id !in c.pending;
      hide NoReuse, Run;
      StepIsComplete(c, e);
    }
  }

  /** Future `k` is unresolved and nothing refers to it any more. */
  ghost predicate Orphan(c: Conn, k: nat) {
    k < |c.futures| && c.futures[k].outcome.Waiting?
    && !(c.futures[k].id in c.pending && c.pending[c.futures[k].id] == k)
  }

  lemma StepKeepsOrphan(c: Conn, e: Event, k: nat)
    requires Consistent(c) && Orphan(c, k)
    ensures Consistent(Step(c, e)) && Orphan(Step(c, e), k)
  {
    hide RequestId;
  }

  /** A request sent under an identifier in flight leaves the earlier future unresolved in every continuation,
      even after a connection loss. */
  lemma {:induction false} ReuseOrphans(c: Conn, id: int, events: seq<Event>)
    requires Consistent(c) && Alive(c) && id in c.pending
    ensures Consistent(Run(Send(c, id), events)) && Orphan(Run(Send(c, id), events), c.pending[id])
  {
    if events != [] {
      hide Step, Consistent, Orphan;
      var before := events[..|events| - 1];
      ReuseOrphans(c, id, before);
      StepKeepsOrphan(Run(Send(c, id), before), events[|events| - 1], c.pending[id]);
    }
  }

  lemma {:induction false} RunAppend(c: Conn, a: seq<Event>, b: seq<Event>)
    requires Tracked(c)
    ensures Run(c, a + b) == Run(Run(c, a), b)
    decreases |b|
  {
    if b == [] {
      assert a + b == a;
    } else {
      var n := |b| - 1;
      RunAppend(c, a, b[..n]);
      assert (a + b)[..|a + b| - 1] == a + b[..n];
    }
  }

  lemma ReuseForgets(events: seq<Event>, n: nat)
    requires n < |events| && events[n].Sent?
    requires Alive(Run(IDLE, events[..n])) && events[n].id in Run(IDLE, events[..n]).pending
    ensures !Complete(Run(IDLE, events))
  {
    hide RequestId, Step, Deliver, Lose;
    var c := Run(IDLE, events[..n]);
    EveryRunIsConsistent(events[..n]);
    ReuseOrphans(c, events[n].id, events[n + 1..]);
    SentLast(events[..n], events[n]);
    assert events[..n + 1] == events[..n] + [events[n]];
    RunAppend(IDLE, events[..n + 1], events[n + 1..]);
    assert events[..n + 1] + events[n + 1..] == events;
  }

  lemma SentLast(events: seq<Event>, e: Event)
    requires e.Sent?
    ensures Run(IDLE, events + [e]) == Send(Run(IDLE, events), e.id)
  {
    assert (events + [e])[..|events|] == events;
  }

  /** Every unresolved request is still in the pending map exactly if no identifier was reused in flight. */
  lemma ForgottenExactly(events: seq<Event>)
    ensures Complete(Run(IDLE, events)) <==> NoReuse(events)
  {
    hide Complete, Run, Alive;
    if NoReuse(events) {
      NothingForgotten(events);
    } else {
      var n :| 0 <= n < |events| && events[n].Sent?
               && !(var c := Run(IDLE, events[..n]); !Alive(c) || events[n].id !in c.pending);
      ReuseForgets(events, n);
    }
  }

  lemma Member<T>(s: set<T>) returns (x: T)
    requires s != {}
    ensures x in s
  {
    x :| x in s;
  }

  // ---- request identifiers

  /** The counter after `n` queries, and the identifier the next one gets. */
  function CounterAfter(n: nat): int {
    if n < MAX_LONG then n else MAX_LONG
  }

  function QueryId(n: nat): int {
    if n < MAX_LONG then n + 1 else 0
  }

  class QueryCounter {
    var counter: int
    ghost var issued: nat

    ghost predicate Valid()
      reads this
    {
      counter == CounterAfter(issued)
    }

    constructor ()
      ensures Valid() && issued == 0
    {
      counter := 0;
      issued := 0;
    }

    /** `_get_query_id`. */
    method Next() returns (id: int)
      requires Valid()
      modifies this
      ensures Valid() && issued == old(issued) + 1 && id == QueryId(old(issued))
      ensures id == if old(issued) < 0x7fff_ffff_ffff_ffff then old(issued) + 1 else 0
    {
      issued := issued + 1;
      if counter >= MAX_LONG { return 0; }
      counter := counter + 1;
      id := counter;
    }
  }

  /** The first `n` identifiers differ pairwise exactly until a second query meets the saturated counter. */
  lemma IdentifiersDistinct(n: nat)
    ensures (forall i, j :: 0 <= i < j < n ==> QueryId(i) != QueryId(j)) <==> n <= MAX_LONG + 1
  {
    if n > MAX_LONG + 1 {
      assert QueryId(MAX_LONG) == QueryId(MAX_LONG + 1);
    }
  }

  // ---- the connection object

  /** The pending future under the identifier, if there is one, has been resolved with the data; nothing else has changed. */
  ghost predicate Resolved(c: Conn, d: Conn, id: int, data: bytes) {
    && d.pending == c.pending - {id} && |d.futures| == |c.futures| && d.failed == c.failed && d.closed == c.closed
    && forall k :: 0 <= k < |c.futures| ==>
         d.futures[k] == if id in c.pending && c.pending[id] == k then Future(id, Reply(data), 1) else c.futures[k]
  }

  class AioConnection {
    var pendingReqs: map<int, nat>
    var futures: seq<Future>
    var failed: bool
    var closed: bool

    function View(): Conn
      reads this
    {
      Conn(pendingReqs, futures, failed, closed)
    }

    ghost predicate Valid()
      reads this
    {
      Consistent(View())
    }

    constructor ()
      ensures View() == IDLE && Valid()
    {
      pendingReqs := map[];
      futures := [];
      failed := false;
      closed := false;
    }

    method Request(id: int) returns (accepted: bool)
      requires Valid()
      modifies this
      ensures Valid() && View() == Send(old(View()), id) && accepted == (!old(failed) && !old(closed))
      ensures accepted ==>
        futures == old(futures) + [Future(id, Waiting, 0)] && pendingReqs == old(pendingReqs)[id := |old(futures)|]
    {
      hide RequestId;
      accepted := !failed && !closed;
      if accepted {
        pendingReqs := pendingReqs[id := |futures|];
        futures := futures + [Future(id, Waiting, 0)];
      }
    }

    method ProcessMessage(data: bytes)
      requires Valid()
      modifies this
      ensures Valid() && View() == Deliver(old(View()), data)
      ensures |data| >= 12 ==> Resolved(old(View()), View(), FromSignedLE(data[4..12]), data)
    {
      hide FromSignedLE;
      var id := RequestId(data);
      if id in pendingReqs {
        var k := pendingReqs[id];
        futures := futures[k := Resolve(futures[k], Reply(data))];
        pendingReqs := pendingReqs - {id};
      } else {
        assert pendingReqs - {id} == pendingReqs;
      }
    }

    /** The loop over the pending futures, in whatever order, then the map is cleared. */
    method ProcessConnectionLost(error: int)
      requires Valid()
      modifies this
      ensures Valid() && View() == Lose(old(View()), error)
    {
      hide RequestId;
      ghost var before := View();
      failed := true;
      var left := pendingReqs.Keys;
      while left != {}
        invariant left <= pendingReqs.Keys && pendingReqs == before.pending && failed && closed == before.closed
        invariant |futures| == |before.futures|
        invariant forall k :: 0 <= k < |futures| ==>
          futures[k] == if before.futures[k].id in pendingReqs && pendingReqs[before.futures[k].id] == k
                           && before.futures[k].id !in left
                        then Resolve(before.futures[k], Failed(error)) else before.futures[k]
        decreases left
      {
        ghost var some := Member(left);
        var id :| id in left;
        var k := pendingReqs[id];
        futures := futures[k := Resolve(futures[k], Failed(error))];
        left := left - {id};
      }
      assert futures == FailPending(before.futures, before.pending, error);
      pendingReqs := map[];
    }
  }
}
