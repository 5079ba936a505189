/** Keyed lookups of the asynchronous client: any interleaving of tasks around the affinity lock. */
module AsyncAffinity {
  import opened Bytes
  import opened Affinity
  import opened AffinityRefresh

  // ---- tasks, cut at their awaits

  datatype Verdict = NoNode | OneOfAll | Cancelled | Routed(parts: nat, mapping: Mapping)

  const AFFINITY_RETRIES: nat := 32

  /** Where a task is suspended; `Fetching` and `Reconnecting` are inside the lock. A fetch counts the error answers it
      has had. */
  datatype Task =
    | Waiting(cache: int)
    | Fetching(cache: int, requested: set<int>, refused: nat)
    | Reconnecting(cache: int)
    | Hashing(cache: int, parts: nat)
    | Finished(verdict: Verdict)

  datatype Machine = Machine(table: State, lock: Option<nat>, tasks: map<nat, Task>)

  const START := Machine(FRESH_CLIENT, None, map[])

  datatype Event =
    | Announcement(version: Version)
    | Registration(cacheId: int)
    | Call(task: nat, cache: int)
    | Acquire(task: nat)
    | Arrive(task: nat, reply: AffinityReply)
    | Refuse(task: nat)
    | Drop(task: nat)
    | Reconnected(task: nat)
    | OutOfReach(task: nat)
    | Hashed(task: nat)
    | Cancel(task: nat)

  type AffinityReply = Affinity.Reply

  predicate InLock(t: Task) {
    t.Fetching? || t.Reconnecting?
  }

  function Put(m: Machine, i: nat, t: Task): Machine {
    m.(tasks := m.tasks[i := t])
  }

  function Release(m: Machine, i: nat): Machine {
    if m.lock == Some(i) then m.(lock := None) else m
  }

  /** The table read that follows the refresh: the partition count is kept while the key is hashed. */
  function Consultation(m: Machine, i: nat, c: int): Machine {
    var (table, choice) := Consult(m.table, c);
    var mapping := choice.mapping;
    Put(m.(table := table), i,
        if mapping.Known? && mapping.parts > 0 then Hashing(c, mapping.parts) else Finished(OneOfAll))
  }

  /** An error answer: the same request is sent again after a pause, until the tries run out. */
  function Refused(m: Machine, i: nat, t: Task): Machine
    requires t.Fetching?
  {
    if t.refused + 1 < AFFINITY_RETRIES then
      Put(m.(table := Appended(m.table, Resent(t.requested))), i, t.(refused := t.refused + 1))
    else Put(Release(m, i), i, Finished(OneOfAll))
  }

  /** The head of the loop inside the lock: look again at what must be refreshed. */
  function LoopHead(m: Machine, i: nat, c: int): Machine {
    var caches := ToUpdate(m.table);
    if caches == {} then Consultation(Release(m, i), i, c)
    else
      Put(m.(lock := Some(i), table := m.table.(log := m.table.log + [Requested(caches)])), i, Fetching(c, caches, 0))
  }

  function Step(m: Machine, e: Event): Machine {
    match e
    case Announcement(v) => m.(table := Note(m.table, v))
    case Registration(c) => m.(table := Register(m.table, c))
    case Call(i, c) =>
      if i in m.tasks then m
      else if ToUpdate(m.table) == {} then Consultation(m, i, c)
      else Put(m, i, Waiting(c))
    case Acquire(i) =>
      if i in m.tasks && m.tasks[i].Waiting? && m.lock.None? then LoopHead(m, i, m.tasks[i].cache) else m
    case Arrive(i, reply) =>
      if i in m.tasks && m.tasks[i].Fetching? then
        Consultation(Release(m.(table := Install(m.table, m.tasks[i].requested, reply)), i), i, m.tasks[i].cache)
      else m
    case Refuse(i) =>
      if i in m.tasks && m.tasks[i].Fetching? then Refused(m, i, m.tasks[i]) else m
    case Drop(i) =>
      if i in m.tasks && m.tasks[i].Fetching? then Put(m, i, Reconnecting(m.tasks[i].cache)) else m
    case Reconnected(i) =>
      if i in m.tasks && m.tasks[i].Reconnecting? then LoopHead(m, i, m.tasks[i].cache) else m
    case OutOfReach(i) =>
      if i in m.tasks && m.tasks[i].Reconnecting? then Put(Release(m, i), i, Finished(NoNode)) else m
    case Hashed(i) =>
      if i in m.tasks && m.tasks[i].Hashing? then
        Put(m, i, Finished(Routed(m.tasks[i].parts, Read(m.table, m.tasks[i].cache))))
      else m
    case Cancel(i) =>
      if i in m.tasks && !m.tasks[i].Finished? then Put(Release(m, i), i, Finished(Cancelled)) else m
  }

  function Run(m: Machine, events: seq<Event>): Machine {
    if events == [] then m else Step(Run(m, events[..|events| - 1]), events[|events| - 1])
  }

  // ---- one fetch at a time, and only what is needed

  ghost predicate LockIsHeld(m: Machine) {
    && (forall i :: i in m.tasks && InLock(m.tasks[i]) ==> m.lock == Some(i))
    && (m.lock.Some? ==> m.lock.value in m.tasks && InLock(m.tasks[m.lock.value]))
  }

  ghost predicate AskedAt(log: seq<Entry>, j: nat, requested: set<int>) {
    j < |log| && log[j] == Requested(requested) && requested != {} && Named(log[..j], requested)
  }

  /** The last request of the log asked for exactly what was out of date when it was made, and that is `requested`. */
  ghost predicate LastAsked(log: seq<Entry>, requested: set<int>) {
    exists j :: 0 <= j < |log| && AskedAt(log, j, requested) && forall k :: j < k < |log| ==> !log[k].Requested?
  }

  /** Entry i is a request for exactly what was out of date when it was made, a repetition of the last request, the
      answer to it, or a consultation made when nothing was out of date or directly after such an answer. */
  ghost predicate Guarded(log: seq<Entry>, i: nat)
    requires i < |log|
  {
    match log[i]
    case Requested(caches) => AskedAt(log, i, caches)
    case Resent(caches) => LastAsked(log[..i], caches)
    case Installed(caches, _) => LastAsked(log[..i], caches)
    case Consulted(_, _) => Named(log[..i], {}) || (i > 0 && log[i - 1].Installed?)
    case _ => true
  }

  ghost predicate AllGuarded(log: seq<Entry>) {
    forall i :: 0 <= i < |log| ==> Guarded(log, i)
  }

  ghost predicate Good(m: Machine) {
    && LockIsHeld(m) && TableIsTrue(m.table) && AllGuarded(m.table.log)
    && (forall i :: i in m.tasks && m.tasks[i].Fetching? ==>
          LastAsked(m.table.log, m.tasks[i].requested) && m.tasks[i].refused < AFFINITY_RETRIES)
  }

  lemma LastAskedStays(log: seq<Entry>, e: Entry, requested: set<int>)
    requires LastAsked(log, requested) && !e.Requested?
    ensures LastAsked(log + [e], requested)
  {
    hide Named;
    var j :| 0 <= j < |log| && AskedAt(log, j, requested) && forall k :: j < k < |log| ==> !log[k].Requested?;
    assert (log + [e])[..j] == log[..j];
    assert AskedAt(log + [e], j, requested);
  }

  lemma GuardedStays(log: seq<Entry>, e: Entry)
    requires AllGuarded(log) && Guarded(log + [e], |log|)
    ensures AllGuarded(log + [e])
  {
    hide Named, LastAsked;
    forall i | 0 <= i < |log| ensures Guarded(log + [e], i) {
      assert Guarded(log, i) && (log + [e])[..i] == log[..i];
    }
  }

  /** The table of m, one entry later. */
  lemma TableStep(m: Machine, e: Entry)
    requires Good(m) && (e.Consulted? ==> e.mapping == Read(m.table, e.key))
    requires e.Requested? ==> forall i :: i in m.tasks ==> !m.tasks[i].Fetching?
    requires Guarded(m.table.log + [e], |m.table.log|)
    ensures Good(m.(table := Appended(m.table, e))) && Appended(m.table, e).log == m.table.log + [e]
  {
    hide TableIsTrue, AllGuarded, Guarded, LastAsked;
    AppendTrue(m.table, e);
    GuardedStays(m.table.log, e);
    forall i | i in m.tasks && m.tasks[i].Fetching? ensures LastAsked(m.table.log + [e], m.tasks[i].requested) {
      LastAskedStays(m.table.log, e, m.tasks[i].requested);
    }
  }

  lemma ConsultationIsGood(m: Machine, i: nat, c: int)
    requires Good(m) && m.lock != Some(i)
    requires Named(m.table.log, {}) || (m.table.log != [] && m.table.log[|m.table.log| - 1].Installed?)
    ensures Good(Consultation(m, i, c))
  {
    hide TableIsTrue, AllGuarded, LastAsked, Named;
    var log, e := m.table.log, Consulted(c, Read(m.table, c));
    assert (log + [e])[..|log|] == log;
    TableStep(m, e);
  }

  lemma LoopHeadIsGood(m: Machine, i: nat, c: int)
    requires Good(m) && i in m.tasks
    requires (m.lock.None? && m.tasks[i].Waiting?) || m.tasks[i].Reconnecting?
    ensures Good(LoopHead(m, i, c))
  {
    hide TableIsTrue, AllGuarded, Named, ToUpdate;
    var caches, log := ToUpdate(m.table), m.table.log;
    ToUpdateIsNamed(m.table);
    if caches == {} {
      // the lock is given back before the table is read
      var waiting := Put(m, i, Waiting(c));
      var freed := Release(waiting, i);
      assert Good(freed);
      ConsultationIsGood(freed, i, c);
      assert Consultation(freed, i, c) == Consultation(Release(m, i), i, c);
    } else {
      var e := Requested(caches);
      assert (log + [e])[..|log|] == log;
      assert AskedAt(log + [e], |log|, caches);
      TableStep(m, e);
      assert LastAsked(log + [e], caches);
    }
  }

  lemma ReplyIsGood(m: Machine, i: nat, reply: AffinityReply)
    requires Good(m) && i in m.tasks && m.tasks[i].Fetching?
    ensures Good(Step(m, Arrive(i, reply)))
  {
    hide TableIsTrue, AllGuarded, Named, ToUpdate, ReplyTable, LastAsked;
    var requested, c, log := m.tasks[i].requested, m.tasks[i].cache, m.table.log;
    var e := Installed(requested, reply);
    assert (log + [e])[..|log|] == log;
    TableStep(m, e);
    var after := Put(m.(table := Install(m.table, requested, reply)), i, Waiting(c));
    var freed := Release(after, i);
    assert Good(freed);
    ConsultationIsGood(freed, i, c);
    assert Consultation(freed, i, c) == Step(m, Arrive(i, reply));
  }

  lemma RefusalIsGood(m: Machine, i: nat)
    requires Good(m) && i in m.tasks && m.tasks[i].Fetching?
    ensures Good(Refused(m, i, m.tasks[i]))
  {
    hide TableIsTrue, AllGuarded, LastAsked;
    var t, log := m.tasks[i], m.table.log;
    if t.refused + 1 < AFFINITY_RETRIES {
      var e := Resent(t.requested);
      assert (log + [e])[..|log|] == log;
      TableStep(m, e);
    }
  }

  lemma StepIsGood(m: Machine, e: Event)
    requires Good(m)
    ensures Good(Step(m, e))
  {
    hide TableIsTrue, AllGuarded, Named, ToUpdate, ReplyTable, LoopHead, Consultation, LastAsked, Refused;
    match e
    case Announcement(v) => TableStep(m, Announced(v));
    case Registration(c) => TableStep(m, Registered(c));
    case Call(i, c) =>
      if i !in m.tasks && ToUpdate(m.table) == {} {
        ToUpdateIsNamed(m.table);
        ConsultationIsGood(m, i, c);
      }
    case Acquire(i) => if Step(m, e) != m { LoopHeadIsGood(m, i, m.tasks[i].cache); }
    case Arrive(i, reply) => if i in m.tasks && m.tasks[i].Fetching? { ReplyIsGood(m, i, reply); }
    case Reconnected(i) =>
      if i in m.tasks && m.tasks[i].Reconnecting? { LoopHeadIsGood(m, i, m.tasks[i].cache); }
    case Refuse(i) => if i in m.tasks && m.tasks[i].Fetching? { RefusalIsGood(m, i); }
    case Drop(i) =>
    case OutOfReach(i) =>
    case Hashed(i) =>
    case Cancel(i) =>
  }

  /** In every interleaving. */
  lemma {:induction false} EveryInterleavingIsGood(events: seq<Event>)
    ensures Good(Run(START, events))
  {
    if events != [] {
      EveryInterleavingIsGood(events[..|events| - 1]);
      StepIsGood(Run(START, events[..|events| - 1]), events[|events| - 1]);
    }
  }

  /** At most one affinity fetch is in flight. */
  lemma SingleAffinityFetch(events: seq<Event>, i: nat, j: nat)
    requires var m := Run(START, events);
      i in m.tasks && j in m.tasks && m.tasks[i].Fetching? && InLock(m.tasks[j])
    ensures i == j
  {
    EveryInterleavingIsGood(events);
  }

  // ---- where each event leaves its task

  /** After the table has been read: the partition count is taken and the key is hashed, or any node will do. */
  function Onward(mapping: map<int, Mapping>, c: int): Task {
    if c in mapping && mapping[c].Known? && mapping[c].parts > 0 then Hashing(c, mapping[c].parts) else Finished(OneOfAll)
  }

  /** What holds for the task of an event after it; all other tasks stay as they are. */
  lemma TaskStepsExactly(m: Machine, e: Event)
    ensures var t := Step(m, e);
      && (forall j :: j in m.tasks && (!e.Announcement? && !e.Registration? ==> j != e.task) ==> j in t.tasks && t.tasks[j] == m.tasks[j])
      && match e
         case Announcement(_) => t.tasks == m.tasks && t.lock == m.lock
         case Registration(_) => t.tasks == m.tasks && t.lock == m.lock
         case Call(i, c) =>
           i !in m.tasks ==>
             i in t.tasks && t.lock == m.lock
             && t.tasks[i] == if ToUpdate(m.table) == {} then Onward(m.table.mapping, c) else Waiting(c)
         case Acquire(i) =>
           i in m.tasks && m.tasks[i].Waiting? && m.lock.None? ==>
             var c, due := m.tasks[i].cache, ToUpdate(m.table);
             && i in t.tasks && (t.lock == if due == {} then None else Some(i))
             && t.tasks[i] == if due == {} then Onward(m.table.mapping, c) else Fetching(c, due, 0)
         case Arrive(i, reply) =>
           i in m.tasks && m.tasks[i].Fetching? ==>
             && i in t.tasks && t.lock != Some(i) && t.table.stamp == reply.version
             && t.tasks[i] == Onward(m.table.mapping + ReplyTable(reply.groups, reply.version), m.tasks[i].cache)
         case Refuse(i) =>
           i in m.tasks && m.tasks[i].Fetching? ==>
             i in t.tasks
             && if m.tasks[i].refused < 31 then
                  t.lock == m.lock && t.tasks[i] == Fetching(m.tasks[i].cache, m.tasks[i].requested, m.tasks[i].refused + 1)
                else t.lock != Some(i) && t.tasks[i] == Finished(OneOfAll)
         case Drop(i) =>
           i in m.tasks && m.tasks[i].Fetching? ==>
             i in t.tasks && t.lock == m.lock && t.tasks[i] == Reconnecting(m.tasks[i].cache)
         case Reconnected(i) =>
           i in m.tasks && m.tasks[i].Reconnecting? ==>
             var c, due := m.tasks[i].cache, ToUpdate(m.table);
             && i in t.tasks && (if due == {} then t.lock != Some(i) else t.lock == Some(i))
             && t.tasks[i] == if due == {} then Onward(m.table.mapping, c) else Fetching(c, due, 0)
         case OutOfReach(i) =>
           i in m.tasks && m.tasks[i].Reconnecting? ==> i in t.tasks && t.lock != Some(i) && t.tasks[i] == Finished(NoNode)
         case Hashed(i) =>
           i in m.tasks && m.tasks[i].Hashing? ==>
             var c := m.tasks[i].cache;
             i in t.tasks && t.lock == m.lock
             && t.tasks[i] == Finished(Routed(m.tasks[i].parts, if c in m.table.mapping then m.table.mapping[c] else Unknown))
         case Cancel(i) =>
           i in m.tasks && !m.tasks[i].Finished? ==> i in t.tasks && t.lock != Some(i) && t.tasks[i] == Finished(Cancelled)
  {
    hide ToUpdate, ReplyTable;
    match e
    case Announcement(_) =>
    case Registration(_) =>
    case Call(i, c) =>
    case Acquire(i) =>
    case Arrive(i, reply) =>
    case Refuse(i) =>
    case Drop(i) =>
    case Reconnected(i) =>
    case OutOfReach(i) =>
    case Hashed(i) =>
    case Cancel(i) =>
  }

  // ---- what a task routes with

  /** The entry for c that an event puts into the table, if it puts one. */
  function Given(m: Machine, e: Event, c: int): Option<Mapping> {
    match e
    case Registration(d) => if c == d then Some(Unknown) else None
    case Arrive(i, reply) =>
      var table := ReplyTable(reply.groups, reply.version);
      if i in m.tasks && m.tasks[i].Fetching? && c in table then Some(table[c]) else None
    case _ => None
  }

  function LastGiven(m: Machine, events: seq<Event>, c: int): Option<Mapping> {
    if events == [] then None
    else
      var before, last := events[..|events| - 1], events[|events| - 1];
      var given := Given(Run(m, before), last, c);
      if given.Some? then given else LastGiven(m, before, c)
  }

  lemma ReadAfterConsultation(m: Machine, i: nat, c: int, d: int)
    ensures Read(Consultation(m, i, c).table, d) == Read(m.table, d)
  {}

  lemma ReadAfterLoopHead(m: Machine, i: nat, c: int, d: int)
    ensures Read(LoopHead(m, i, c).table, d) == Read(m.table, d)
  {
    hide Consultation, ToUpdate;
    ReadAfterConsultation(Release(m, i), i, c, d);
  }

  lemma ReadAfterStep(m: Machine, e: Event, c: int)
    ensures Read(Step(m, e).table, c) == var given := Given(m, e, c); if given.Some? then given.value else Read(m.table, c)
  {
    hide ReplyTable, ToUpdate, Consultation, LoopHead;
    match e
    case Call(i, d) => ReadAfterConsultation(m, i, d, c);
    case Acquire(i) => if i in m.tasks && m.tasks[i].Waiting? { ReadAfterLoopHead(m, i, m.tasks[i].cache, c); }
    case Reconnected(i) => if i in m.tasks && m.tasks[i].Reconnecting? { ReadAfterLoopHead(m, i, m.tasks[i].cache, c); }
    case Arrive(i, reply) =>
      if i in m.tasks && m.tasks[i].Fetching? {
        var after := Release(m.(table := Install(m.table, m.tasks[i].requested, reply)), i);
        ReadAfterConsultation(after, i, m.tasks[i].cache, c);
      }
    case Announcement(_) =>
    case Registration(_) =>
    case Refuse(_) =>
    case Drop(_) =>
    case OutOfReach(_) =>
    case Hashed(_) =>
    case Cancel(_) =>
  }

  /** After any run the table holds for c what was last given, or what it held before. */
  lemma {:induction false} ReadAfterRun(m: Machine, events: seq<Event>, c: int)
    ensures Read(Run(m, events).table, c)
      == var given := LastGiven(m, events, c); if given.Some? then given.value else Read(m.table, c)
  {
    if events != [] {
      hide Step, Given, Read;
      ReadAfterRun(m, events[..|events| - 1], c);
      ReadAfterStep(Run(m, events[..|events| - 1]), events[|events| - 1], c);
    }
  }

  ghost predicate IsHashing(m: Machine, i: nat) {
    i in m.tasks && m.tasks[i].Hashing?
  }

  lemma ConsultationHashes(m: Machine, i: nat, c: int)
    ensures var after := Consultation(m, i, c);
      && after.tasks.Keys == m.tasks.Keys + {i} && (forall j :: j in m.tasks && j != i ==> after.tasks[j] == m.tasks[j])
      && (IsHashing(after, i) ==>
            (after.tasks[i].cache == c && Read(after.table, c).Known?
             && Read(after.table, c).parts == after.tasks[i].parts))
  {}

  /** A task that starts hashing keeps the partition count of its cache's entry. */
  lemma StartsHashing(m: Machine, e: Event, i: nat)
    requires !IsHashing(m, i) && IsHashing(Step(m, e), i)
    ensures var t := Step(m, e);
      Read(t.table, t.tasks[i].cache).Known? && Read(t.table, t.tasks[i].cache).parts == t.tasks[i].parts
  {
    hide ReplyTable, ToUpdate, Consultation, Read, Install;
    match e
    case Call(j, c) => ConsultationHashes(m, j, c);
    case Acquire(j) => if j in m.tasks { ConsultationHashes(Release(m, j), j, m.tasks[j].cache); }
    case Reconnected(j) => if j in m.tasks { ConsultationHashes(Release(m, j), j, m.tasks[j].cache); }
    case Arrive(j, reply) =>
      if j in m.tasks && m.tasks[j].Fetching? {
        ConsultationHashes(Release(m.(table := Install(m.table, m.tasks[j].requested, reply)), j), j, m.tasks[j].cache);
      }
    case Announcement(_) =>
    case Registration(_) =>
    case Refuse(_) =>
    case Drop(_) =>
    case OutOfReach(_) =>
    case Hashed(_) =>
    case Cancel(_) =>
  }

  lemma HashingStep(m: Machine, e: Event, i: nat)
    requires i in m.tasks && (m.tasks[i].Hashing? || m.tasks[i].Finished?)
    ensures i in Step(m, e).tasks && (Step(m, e).tasks[i] == m.tasks[i] || Step(m, e).tasks[i].Finished?)
  {
    hide ReplyTable, ToUpdate, Read, Install, Consult;
  }

  /** A hashing task stays as it is until it is finished, and then it stays finished. */
  lemma {:induction false} HashingStays(m: Machine, events: seq<Event>, i: nat)
    requires IsHashing(m, i)
    ensures i in Run(m, events).tasks && (Run(m, events).tasks[i] == m.tasks[i] || Run(m, events).tasks[i].Finished?)
  {
    if events != [] {
      hide Step;
      HashingStays(m, events[..|events| - 1], i);
      HashingStep(Run(m, events[..|events| - 1]), events[|events| - 1], i);
    }
  }

  lemma {:induction false} RunAppend(m: Machine, a: seq<Event>, b: seq<Event>)
    ensures Run(m, a + b) == Run(Run(m, a), b)
    decreases |b|
  {
    if b == [] {
      assert a + b == a;
    } else {
      hide Step;
      assert (a + b)[..|a + b| - 1] == a + b[..|b| - 1];
      RunAppend(m, a, b[..|b| - 1]);
    }
  }

  /** Whether a verdict's owners are those its partition count was taken from, as far as counts can tell. */
  predicate Consistent(v: Verdict) {
    v.Routed? && v.mapping.Known? && v.mapping.parts == v.parts
  }

  /** The node a finished task returns; `Anywhere` is the node it picked first. */
  function RouteOf(v: Verdict, nodes: seq<Node>, hash: int): Route {
    if v.Routed? && v.parts > 0 then RouteWith(v.parts, v.mapping, nodes, hash) else Anywhere
  }

  /** A consistent verdict sends the key to its owner by the reply that the entry came from. */
  lemma ConsistentGoesToItsOwner(v: Verdict, cacheId: int, nodes: seq<Node>, hash: int)
    requires Consistent(v) && v.parts > 0
    ensures GoesToItsOwner(v.mapping, cacheId, nodes, hash, RouteOf(v, nodes, hash))
  {
    hide RouteWith, GoesToItsOwner;
    RouteGoesToOwner(v.mapping, cacheId, nodes, hash);
  }

  /** A task consults the table with event n of a run and is still hashing its key when the run ends. When the hash is
      there it routes with the count it took and an entry of the same count exactly if nothing was put into the table
      for its cache meanwhile, or what was put there last has that count too. */
  lemma RoutesConsistentlyExactly(events: seq<Event>, n: nat, i: nat)
    requires n < |events| && !IsHashing(Run(START, events[..n]), i) && IsHashing(Run(START, events[..n + 1]), i)
    requires IsHashing(Run(START, events), i)
    ensures var t := Run(START, events[..n + 1]).tasks[i];
      var given := LastGiven(Run(START, events[..n + 1]), events[n + 1..], t.cache);
      var after := Step(Run(START, events), Hashed(i));
      && i in after.tasks && after.tasks[i].Finished? && after.tasks[i].verdict.Routed?
      && after.tasks[i].verdict.parts == t.parts
      && (given.None? ==> after.tasks[i].verdict.mapping == Read(Run(START, events[..n + 1]).table, t.cache))
      && (Consistent(after.tasks[i].verdict) <==> given.None? || (given.value.Known? && given.value.parts == t.parts))
  {
    hide Step, Run, Read, LastGiven;
    var consulted := Run(START, events[..n + 1]);
    var t := consulted.tasks[i];
    assert events[..n + 1] == events[..n] + [events[n]];
    RunOne(START, events[..n], events[n]);
    StartsHashing(Run(START, events[..n]), events[n], i);
    assert events == events[..n + 1] + events[n + 1..];
    RunAppend(START, events[..n + 1], events[n + 1..]);
    HashingStays(consulted, events[n + 1..], i);
    ReadAfterRun(consulted, events[n + 1..], t.cache);
    FinishHashing(Run(START, events), i);
  }

  function Whole(c: int, v: Version, parts: seq<int>): AffinityReply {
    Affinity.Reply(v, [MappingGroup(true, [CacheConfig(c, [])], [NodePartitions(7, parts)])])
  }

  lemma RunOne(m: Machine, events: seq<Event>, e: Event)
    ensures Run(m, events + [e]) == Step(Run(m, events), e)
  {
    assert (events + [e])[..|events|] == events;
  }

  lemma RunThree(m: Machine, events: seq<Event>, a: Event, b: Event, c: Event)
    ensures Run(m, events + [a, b, c]) == Step(Step(Step(Run(m, events), a), b), c)
  {
    hide Run, Step;
    RunOne(m, events, a);
    RunOne(m, events + [a], b);
    RunOne(m, events + [a] + [b], c);
    assert events + [a] + [b] + [c] == events + [a, b, c];
  }

  lemma CallAndRefresh(m: Machine, i: nat, c: int, v: Version, parts: seq<int>)
    requires m.lock.None? && i !in m.tasks && ToUpdate(m.table) == {c} && AsSet(parts) != {}
    ensures var after := Step(Step(Step(m, Call(i, c)), Acquire(i)), Arrive(i, Whole(c, v, parts)));
      after.lock.None? && after.tasks == m.tasks[i := Hashing(c, |AsSet(parts)|)]
      && after.table.stamp == v && after.table.announced == m.table.announced
      && after.table.mapping == m.table.mapping[c := Known(true, map[], [Owner(7, AsSet(parts))], |AsSet(parts)|, v)]
  {
    var m1 := Step(m, Call(i, c));
    assert m1 == Put(m, i, Waiting(c));
    var m2 := Step(m1, Acquire(i));
    hide ToUpdate, ReplyTable, AsSet;
    assert m2.lock == Some(i) && m2.tasks == m.tasks[i := Fetching(c, {c}, 0)];
    WholeTable(c, v, parts);
  }

  lemma OutOfDate(s: State, c: int)
    requires s.mapping.Keys == {c} && (Stale(s) || s.mapping[c].Unknown?)
    ensures ToUpdate(s) == {c}
  {}

  lemma RegisterFirst()
    ensures var m := Run(START, [Registration(1)]);
      m.lock.None? && m.tasks == map[] && m.table.announced == (0, 0) && ToUpdate(m.table) == {1}
      && m.table.mapping == map[1 := Unknown]
  {
    RunOne(START, [], Registration(1));
    assert [] + [Registration(1)] == [Registration(1)];
    OutOfDate(Register(FRESH_CLIENT, 1), 1);
  }

  lemma AnnounceNewer(m: Machine, v: Version, c: int)
    requires Older(m.table.announced, v) && Older(m.table.stamp, v) && m.table.mapping.Keys == {c}
    ensures var after := Step(m, Announcement(v));
      after.lock == m.lock && after.tasks == m.tasks && ToUpdate(after.table) == {c}
      && after.table.mapping == m.table.mapping
  {
    OutOfDate(Step(m, Announcement(v)).table, c);
  }

  lemma FinishHashing(m: Machine, i: nat)
    requires i in m.tasks && m.tasks[i].Hashing?
    ensures i in Step(m, Hashed(i)).tasks
    ensures Step(m, Hashed(i)).tasks[i] == Finished(Routed(m.tasks[i].parts, Read(m.table, m.tasks[i].cache)))
  {}

  /** Otherwise it need not be: a key can be routed with the partition count of one reply and the owners of another. */
  lemma TornRouting(v: Version, newer: Version) returns (events: seq<Event>)
    requires Older((0, 0), v) && Older(v, newer)
    ensures var m := Run(START, events);
      0 in m.tasks && m.tasks[0].Finished? && m.tasks[0].verdict.Routed?
      && m.tasks[0].verdict.mapping.Known? && m.tasks[0].verdict.parts == 2 && m.tasks[0].verdict.mapping.parts == 1
  {
    hide Run, Step, ToUpdate, Whole;
    assert AsSet([0, 1]) == {0, 1} && AsSet([0]) == {0};
    events := [Registration(1)];
    RegisterFirst();
    CallAndRefresh(Run(START, events), 0, 1, v, [0, 1]);
    RunThree(START, events, Call(0, 1), Acquire(0), Arrive(0, Whole(1, v, [0, 1])));
    events := events + [Call(0, 1), Acquire(0), Arrive(0, Whole(1, v, [0, 1]))];
    AnnounceNewer(Run(START, events), newer, 1);
    RunOne(START, events, Announcement(newer));
    events := events + [Announcement(newer)];
    CallAndRefresh(Run(START, events), 1, 1, newer, [0]);
    RunThree(START, events, Call(1, 1), Acquire(1), Arrive(1, Whole(1, newer, [0])));
    events := events + [Call(1, 1), Acquire(1), Arrive(1, Whole(1, newer, [0]))];
    FinishHashing(Run(START, events), 0);
    RunOne(START, events, Hashed(0));
    events := events + [Hashed(0)];
  }

  lemma WholeTable(c: int, v: Version, parts: seq<int>)
    ensures ReplyTable(Whole(c, v, parts).groups, v)
      == map[c := Known(true, map[], [Owner(7, AsSet(parts))], |AsSet(parts)|, v)]
  {
    var groups := Whole(c, v, parts).groups;
    var g := groups[0];
    assert groups[..0] == [] && g.caches[..0] == [] && g.nodes[..0] == [];
    assert ReplyTable(groups, v) == GroupTable(map[], g, g.caches, v);
    assert GroupTable(map[], g, g.caches, v) == map[c := MappingOf(g, g.caches[0], v)];
    assert OwnersOf(g.nodes) == PutOwner(OwnersOf([]), Owner(7, AsSet(parts)));
    var owner := Owner(7, AsSet(parts));
    assert CountParts([owner]) == |owner.partitions| + CountParts([owner][1..]);
  }
}
