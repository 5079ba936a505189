/** Client transactions in one execution context: who may end them, and what travels in between. */
module Transactions {
  import opened Bytes
  import opened Requests

  // ---- the current transaction

  /** The value of the context variable: a transaction's identifier and its connection. */
  datatype Current = Current(txId: int, conn: nat)

  /** What has gone out, oldest first. `tx` numbers the transaction objects in the order of their start. */
  datatype Message =
    | Started(tx: nat, current: Current)
    | Ended(tx: nat, current: Current, committed: bool)
    | KeyValue(info: CacheInfo, best: nat, conn: nat, header: bytes)

  /** How a server, or the connection to it, takes an end request. */
  datatype Outcome = Done | Refused | Unreachable

  datatype Reaction = Quiet | ForeignContext | Failed(outcome: Outcome)

  /** `tx_end`: only the transaction the context holds may end; the context is cleared in any case. */
  function End(current: Option<Current>, tx: nat, txId: int, committed: bool, outcome: Outcome)
    : (Option<Current>, seq<Message>, Reaction)
  {
    if current.None? || current.value.txId != txId then (current, [], ForeignContext)
    else
      (None, [Ended(tx, Current(txId, current.value.conn), committed)],
       if outcome.Done? then Quiet else Failed(outcome))
  }

  function CurrentId(current: Option<Current>): Option<int> {
    if current.Some? then Some(current.value.txId) else None
  }

  /** A key-value request: over the transaction's connection if there is one, else the best node's. */
  function Request(current: Option<Current>, info: CacheInfo, best: nat): seq<Message> {
    if !InfoAccepted(info, CurrentId(current)) then []
    else
      [KeyValue(info, best, if current.Some? then current.value.conn else best, InfoBytes(info, CurrentId(current)))]
  }

  // ---- the objects

  /** The module's context variable, and the history of what was sent. */
  class Api {
    var current: Option<Current>
    var started: nat
    ghost var log: seq<Message>

    constructor ()
      ensures current == None && started == 0 && log == []
    {
      current, started, log := None, 0, [];
    }

    /** `tx_start` when the server has answered with an identifier. */
    method TxStart(conn: nat, txId: int) returns (tx: nat)
      modifies this
      ensures tx == old(started) && started == tx + 1
      ensures current == Some(Current(txId, conn)) && log == old(log) + [Started(tx, Current(txId, conn))]
    {
      tx := started;
      started := started + 1;
      current := Some(Current(txId, conn));
      log := log + [Started(tx, Current(txId, conn))];
    }

    method TxEnd(tx: nat, txId: int, committed: bool, outcome: Outcome) returns (r: Reaction)
      modifies this`current, this`log
      ensures (current, log, r) == var (c, m, r) := End(old(current), tx, txId, committed, outcome); (c, old(log) + m, r)
      ensures
        if old(current).Some? && old(current).value.txId == txId then
          current == None && log == old(log) + [Ended(tx, Current(txId, old(current).value.conn), committed)]
          && r == if outcome.Done? then Quiet else Failed(outcome)
        else current == old(current) && log == old(log) && r == ForeignContext
    {
      if current.None? || current.value.txId != txId {
        assert log + [] == log;
        return ForeignContext;
      }
      log := log + [Ended(tx, Current(txId, current.value.conn), committed)];
      r := if outcome.Done? then Quiet else Failed(outcome);
      current := None;
    }

    method KeyValueRequest(info: CacheInfo, best: nat)
      modifies this`log
      ensures log == old(log) + Request(current, info, best)
      ensures var id := if current.Some? then Some(current.value.txId) else None;
        log == if !InfoAccepted(info, id) then old(log)
               else old(log) + [KeyValue(info, best, if current.Some? then current.value.conn else best, InfoBytes(info, id))]
    {
      var conn := if current.Some? then current.value.conn else best;
      var txId := CurrentId(current);
      if InfoAccepted(info, txId) {
        log := log + [KeyValue(info, best, conn, InfoBytes(info, txId))];
      } else {
        assert log + [] == log;
      }
    }
  }

  class Transaction {
    const api: Api
    const tx: nat
    const txId: int
    var closed: bool

    constructor (api: Api, conn: nat, txId: int)
      modifies api
      ensures this.api == api && this.txId == txId && !closed && tx == old(api.started) && api.started == tx + 1
      ensures api.current == Some(Current(txId, conn)) && api.log == old(api.log) + [Started(tx, Current(txId, conn))]
    {
      this.api := api;
      this.txId := txId;
      closed := false;
      tx := api.started;
      new;
      var n := api.TxStart(conn, txId);
    }

    /** `commit` with `committed`, `rollback` and `close` without: only the first of them does anything. */
    method Finish(committed: bool, outcome: Outcome) returns (r: Reaction)
      modifies this, api`current, api`log
      ensures closed
      ensures old(closed) ==> r == Quiet && api.current == old(api.current) && api.log == old(api.log)
      ensures !old(closed) ==>
        (api.current, api.log, r)
          == var (c, m, r) := End(old(api.current), tx, txId, committed, outcome); (c, old(api.log) + m, r)
      ensures !old(closed) ==>
        if old(api.current).Some? && old(api.current).value.txId == txId then
          api.current == None && api.log == old(api.log) + [Ended(tx, Current(txId, old(api.current).value.conn), committed)]
          && r == if outcome.Done? then Quiet else Failed(outcome)
        else api.current == old(api.current) && api.log == old(api.log) && r == ForeignContext
    {
      r := Quiet;
      if !closed {
        closed := true;
        r := api.TxEnd(tx, txId, committed, outcome);
      }
    }
  }

  // ---- runs

  datatype Tx = Tx(current: Current, closed: bool)

  datatype State = State(current: Option<Current>, txs: seq<Tx>, log: seq<Message>)

  datatype Event =
    | Start(conn: nat, txId: int)
    | StartFails
    | Finish(tx: nat, committed: bool, outcome: Outcome)
    | KeyOperation(info: CacheInfo, best: nat)

  function Step(s: State, e: Event): State {
    match e
    case Start(conn, txId) =>
      var c := Current(txId, conn);
      State(Some(c), s.txs + [Tx(c, false)], s.log + [Started(|s.txs|, c)])
    case StartFails => s
    case Finish(i, committed, outcome) =>
      if i >= |s.txs| || s.txs[i].closed then s
      else
        var (current, messages, _) := End(s.current, i, s.txs[i].current.txId, committed, outcome);
        State(current, s.txs[i := s.txs[i].(closed := true)], s.log + messages)
    case KeyOperation(info, best) => s.(log := s.log + Request(s.current, info, best))
  }

  const IDLE := State(None, [], [])

  function Run(events: seq<Event>): State {
    if events == [] then IDLE else Step(Run(events[..|events| - 1]), events[|events| - 1])
  }

  /** What each event of a run sends, and what it leaves behind. */
  lemma StepsExactly(s: State, e: Event)
    ensures var t := Step(s, e);
      match e
      case Start(conn, txId) =>
        t.current == Some(Current(txId, conn)) && t.txs == s.txs + [Tx(Current(txId, conn), false)]
        && t.log == s.log + [Started(|s.txs|, Current(txId, conn))]
      case StartFails => t == s
      case Finish(i, committed, outcome) =>
        if i < |s.txs| && !s.txs[i].closed then
          var own := s.txs[i].current;
          && t.txs == s.txs[i := Tx(own, true)]
          && if s.current.Some? && s.current.value.txId == own.txId then
               t.current == None && t.log == s.log + [Ended(i, Current(own.txId, s.current.value.conn), committed)]
             else t.current == s.current && t.log == s.log
        else t == s
      case KeyOperation(info, best) =>
        var id := if s.current.Some? then Some(s.current.value.txId) else None;
        && t.current == s.current && t.txs == s.txs
        && t.log == if !InfoAccepted(info, id) then s.log
                    else s.log + [KeyValue(info, best, if s.current.Some? then s.current.value.conn else best, InfoBytes(info, id))]
  {
    hide InfoAccepted, InfoBytes;
    assert s.log + [] == s.log;
  }

  // ---- at most one end, and the current transaction is the last one started

  function Ends(log: seq<Message>, i: nat): nat {
    if log == [] then 0
    else Ends(log[..|log| - 1], i) + if log[|log| - 1].Ended? && log[|log| - 1].tx == i then 1 else 0
  }

  /** The transaction whose start was sent last, if no end was sent after it. */
  function InForce(log: seq<Message>): Option<Current> {
    if log == [] then None
    else if log[|log| - 1].Started? then Some(log[|log| - 1].current)
    else if log[|log| - 1].Ended? then None
    else InForce(log[..|log| - 1])
  }

  /** The server that receives message k sees the transaction in force then, on its connection, and nothing else. */
  ghost predicate TravelsWithItsTransaction(log: seq<Message>, k: nat)
    requires k < |log| && log[k].KeyValue?
  {
    var current, m := InForce(log[..k]), log[k];
    && m.conn == (if current.Some? then current.value.conn else m.best)
    && forall body :: ReadInfo(m.header + body) ==
         Some(Seen(m.info.cacheId, m.info.policy, Marked(m.info.version, CurrentId(current)), |m.header|))
  }

  ghost predicate Good(s: State) {
    && s.current == InForce(s.log)
    && (s.current.Some? ==> s.txs != [] && s.txs[|s.txs| - 1].current == s.current.value)
    && (forall i :: 0 <= i < |s.txs| ==> Ends(s.log, i) <= if s.txs[i].closed then 1 else 0)
    && (forall i :: i >= |s.txs| ==> Ends(s.log, i) == 0)
    && (forall k :: 0 <= k < |s.log| && s.log[k].KeyValue? ==> TravelsWithItsTransaction(s.log, k))
  }

  lemma OneMore(log: seq<Message>, m: Message)
    ensures forall i: nat :: Ends(log + [m], i) == Ends(log, i) + if m.Ended? && m.tx == i then 1 else 0
    ensures InForce(log + [m]) == if m.Started? then Some(m.current) else if m.Ended? then None else InForce(log)
  {
    assert (log + [m])[..|log|] == log;
  }

  lemma TravelsStays(log: seq<Message>, m: Message)
    requires forall k :: 0 <= k < |log| && log[k].KeyValue? ==> TravelsWithItsTransaction(log, k)
    requires m.KeyValue? ==> TravelsWithItsTransaction(log + [m], |log|)
    ensures forall k :: 0 <= k < |log + [m]| && (log + [m])[k].KeyValue? ==> TravelsWithItsTransaction(log + [m], k)
  {
    hide InForce, ReadInfo;
    forall k | 0 <= k < |log| && log[k].KeyValue? ensures TravelsWithItsTransaction(log + [m], k) {
      assert TravelsWithItsTransaction(log, k);
      assert (log + [m])[..k] == log[..k];
    }
  }

  lemma RequestTravels(s: State, info: CacheInfo, best: nat)
    requires Good(s) && InfoAccepted(info, CurrentId(s.current))
    ensures TravelsWithItsTransaction(s.log + Request(s.current, info, best), |s.log|)
  {
    var header := InfoBytes(info, CurrentId(s.current));
    hide ReadInfo, InfoBytes, Marked;
    var log := s.log + Request(s.current, info, best);
    assert log[..|s.log|] == s.log;
    forall body ensures ReadInfo(header + body)
        == Some(Seen(info.cacheId, info.policy, Marked(info.version, CurrentId(s.current)), |header|)) {
      InfoRoundTrip(info, CurrentId(s.current), body);
    }
  }

  lemma StepIsGood(s: State, e: Event)
    requires Good(s)
    ensures Good(Step(s, e))
  {
    hide TravelsWithItsTransaction, Ends, InForce, InfoAccepted, InfoBytes;
    match e
    case Start(conn, txId) =>
      var m := Started(|s.txs|, Current(txId, conn));
      OneMore(s.log, m);
      TravelsStays(s.log, m);
    case StartFails =>
    case Finish(i, committed, outcome) =>
      if i < |s.txs| && !s.txs[i].closed {
        var (_, messages, _) := End(s.current, i, s.txs[i].current.txId, committed, outcome);
        if messages == [] { assert s.log + messages == s.log; }
        else {
          OneMore(s.log, messages[0]);
          TravelsStays(s.log, messages[0]);
        }
      }
    case KeyOperation(info, best) =>
      var messages := Request(s.current, info, best);
      if messages == [] { assert s.log + messages == s.log; }
      else {
        OneMore(s.log, messages[0]);
        RequestTravels(s, info, best);
        TravelsStays(s.log, messages[0]);
      }
  }

  /** Over every run, nested starts and failed ends included: each transaction sends at most one end, and only once
      closed; the context holds the transaction in force; every key-value request travels with it. */
  lemma {:induction false} EveryRunIsGood(events: seq<Event>)
    ensures Good(Run(events))
  {
    if events != [] {
      EveryRunIsGood(events[..|events| - 1]);
      StepIsGood(Run(events[..|events| - 1]), events[|events| - 1]);
    }
  }

  // ---- without nesting

  /** No transaction is started while the context holds one. */
  predicate Unnested(events: seq<Event>) {
    forall n :: 0 <= n < |events| && events[n].Start? ==> Run(events[..n]).current.None?
  }

  /** Every open transaction is the current one, and every closed one has sent exactly its own end. */
  ghost predicate Paired(s: State) {
    && (forall i :: 0 <= i < |s.txs| && !s.txs[i].closed ==> i == |s.txs| - 1 && s.current == Some(s.txs[i].current))
    && (forall i :: 0 <= i < |s.txs| ==> Ends(s.log, i) == if s.txs[i].closed then 1 else 0)
    && (forall k :: 0 <= k < |s.log| && s.log[k].Ended? ==>
          s.log[k].tx < |s.txs| && s.log[k].current == s.txs[s.log[k].tx].current)
    && (s.current.Some? ==> s.txs != [] && !s.txs[|s.txs| - 1].closed)
  }

  lemma StepIsPaired(s: State, e: Event)
    requires Good(s) && Paired(s) && (e.Start? ==> s.current.None?)
    ensures Paired(Step(s, e))
  {
    hide TravelsWithItsTransaction, Ends, InForce, InfoAccepted, InfoBytes;
    var t := Step(s, e);
    if t.log != s.log {
      assert t.log == s.log + [t.log[|s.log|]];
      OneMore(s.log, t.log[|s.log|]);
    }
  }

  /** In every run without nested starts, a transaction has sent exactly one end, over its own connection and with its
      own identifier, if it is closed, and none if it is open; and at most the last one is open. */
  lemma {:induction false} EndsPairWithStarts(events: seq<Event>)
    requires Unnested(events)
    ensures Paired(Run(events))
  {
    if events != [] {
      var before := events[..|events| - 1];
      assert Unnested(before) by {
        forall n | 0 <= n < |before| && before[n].Start? ensures Run(before[..n]).current.None? {
          assert before[..n] == events[..n];
        }
      }
      EndsPairWithStarts(before);
      EveryRunIsGood(before);
      StepIsPaired(Run(before), events[|events| - 1]);
    }
  }

  /** A start while the context holds a transaction leaves two open. */
  lemma NestedStartBreaksPairs(s: State, e: Event)
    requires Paired(s) && e.Start? && s.current.Some?
    ensures !Paired(Step(s, e))
  {
    hide Ends;
    var t, i := Step(s, e), |s.txs| - 1;
    assert !t.txs[i].closed && i != |t.txs| - 1;
  }

  /** Starts and ends pair throughout a run exactly if no start is nested. */
  lemma PairedExactly(events: seq<Event>)
    ensures (forall n :: 0 <= n <= |events| ==> Paired(Run(events[..n]))) <==> Unnested(events)
  {
    hide Paired, Run, Step;
    if Unnested(events) {
      forall n | 0 <= n <= |events| ensures Paired(Run(events[..n])) {
        assert Unnested(events[..n]) by {
          forall j | 0 <= j < n && events[..n][j].Start? ensures Run(events[..n][..j]).current.None? {
            assert events[..n][..j] == events[..j];
          }
        }
        EndsPairWithStarts(events[..n]);
      }
    } else {
      var n :| 0 <= n < |events| && events[n].Start? && !Run(events[..n]).current.None?;
      if Paired(Run(events[..n])) {
        NestedStartBreaksPairs(Run(events[..n]), events[n]);
        RunOne(events[..n], events[n]);
        assert events[..n] + [events[n]] == events[..n + 1];
      }
    }
  }

  lemma RunOne(events: seq<Event>, e: Event)
    ensures Run(events + [e]) == Step(Run(events), e)
  {
    assert (events + [e])[..|events|] == events;
  }

  /** With nesting neither holds. Identifiers are given out per connection; when two agree, finishing the outer
      transaction ends the inner one over the inner one's connection, and the outer one is never ended. */
  lemma NestedEndHitsTheOther(outer: nat, inner: nat, id: int, committed: bool, later: bool)
    requires outer != inner
    ensures var s := Run([Start(outer, id), Start(inner, id), Finish(0, committed, Done), Finish(1, later, Done)]);
      s.log == [Started(0, Current(id, outer)), Started(1, Current(id, inner)), Ended(0, Current(id, inner), committed)]
      && |s.txs| == 2 && s.txs[0].closed && s.txs[1].closed
  {
    RunOne([], Start(outer, id));
    RunOne([Start(outer, id)], Start(inner, id));
    RunOne([Start(outer, id), Start(inner, id)], Finish(0, committed, Done));
    RunOne([Start(outer, id), Start(inner, id), Finish(0, committed, Done)], Finish(1, later, Done));
    assert [] + [Start(outer, id)] == [Start(outer, id)];
    assert [Start(outer, id)] + [Start(inner, id)] == [Start(outer, id), Start(inner, id)];
    assert [Start(outer, id), Start(inner, id)] + [Finish(0, committed, Done)]
        == [Start(outer, id), Start(inner, id), Finish(0, committed, Done)];
    assert [Start(outer, id), Start(inner, id), Finish(0, committed, Done)] + [Finish(1, later, Done)]
        == [Start(outer, id), Start(inner, id), Finish(0, committed, Done), Finish(1, later, Done)];
    hide Run;
  }
}
