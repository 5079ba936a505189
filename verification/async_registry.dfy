/** The registry of Complex object classes: its synchronisation, and any interleaving of tasks that query it. */
module AsyncRegistry {
  import opened Bytes

  // ---- the registry

  /** A class made from a server's schema, or one the program registered. */
  datatype Class = Generated(serial: nat) | Custom(name: nat)

  /** Keyed by type and schema identifiers; `made` counts the generated classes. */
  datatype Registry = Registry(classes: map<(int, int), Class>, made: nat)

  datatype TypeInfo = Absent | Exists(schemas: seq<int>)

  /** Schema 0 stands for no schema at all: the answer is then everything registered for the type. */
  datatype Answer = One(cls: Class) | Nothing | Everything(classes: map<int, Class>)

  predicate Truthy(a: Answer) {
    a.One? || (a.Everything? && a.classes != map[])
  }

  /** `_get_from_registry`. */
  function Get(r: Registry, typeId: int, schema: int): Answer {
    if schema != 0 then
      if (typeId, schema) in r.classes then One(r.classes[(typeId, schema)]) else Nothing
    else Everything(map k | k in r.classes && k.0 == typeId :: k.1 := r.classes[k])
  }

  function Store(r: Registry, typeId: int, schema: int, cls: Class): Registry {
    r.(classes := r.classes[(typeId, schema) := cls])
  }

  function Sync(r: Registry, typeId: int, schemas: seq<int>): Registry
    decreases |schemas|
  {
    if schemas == [] then r
    else
      var key := (typeId, schemas[0]);
      var next := if key in r.classes then r
                  else Registry(r.classes[key := Generated(r.made)], r.made + 1);
      Sync(next, typeId, schemas[1..])
  }

  function SyncInfo(r: Registry, typeId: int, info: TypeInfo): Registry {
    if info.Exists? then Sync(r, typeId, info.schemas) else r
  }

  /** Synchronising adds exactly the reply's schemas and never replaces a class. */
  lemma {:induction false} SyncOnlyAdds(r: Registry, typeId: int, schemas: seq<int>)
    ensures var t := Sync(r, typeId, schemas);
      && (forall k :: k in t.classes <==> k in r.classes || (k.0 == typeId && k.1 in schemas))
      && (forall k :: k in r.classes ==> t.classes[k] == r.classes[k])
    decreases |schemas|
  {
    if schemas != [] {
      var key := (typeId, schemas[0]);
      var next := if key in r.classes then r else Registry(r.classes[key := Generated(r.made)], r.made + 1);
      SyncOnlyAdds(next, typeId, schemas[1..]);
      assert forall s :: s in schemas <==> s == schemas[0] || s in schemas[1..];
    }
  }

  /** The synchronous client's registry. */
  class Client {
    var classes: map<(int, int), Class>
    var made: nat

    function Abs(): Registry
      reads this
    {
      Registry(classes, made)
    }

    constructor ()
      ensures Abs() == Registry(map[], 0)
    {
      classes, made := map[], 0;
    }

    method SyncBinaryRegistry(typeId: int, info: TypeInfo)
      modifies this
      ensures Abs() == SyncInfo(old(Abs()), typeId, info)
    {
      if info.Exists? {
        assert info.schemas[0..] == info.schemas;
        for i := 0 to |info.schemas|
          invariant Sync(Abs(), typeId, info.schemas[i..]) == Sync(old(Abs()), typeId, info.schemas)
        {
          assert info.schemas[i..][1..] == info.schemas[i + 1..];
          var key := (typeId, info.schemas[i]);
          if key !in classes {
            classes := classes[key := Generated(made)];
            made := made + 1;
          }
        }
      }
    }

    /** `query_binary_type`, with the reply the server would give; the second answer is read after the sync. */
    method QueryBinaryType(typeId: int, schema: int, info: TypeInfo) returns (answer: Answer, fetched: bool)
      modifies this
      ensures fetched <==> !Truthy(Get(old(Abs()), typeId, schema))
      ensures Abs() == if fetched then SyncInfo(old(Abs()), typeId, info) else old(Abs())
      ensures answer == Get(Abs(), typeId, schema)
    {
      answer := Get(Abs(), typeId, schema);
      fetched := !Truthy(answer);
      if fetched {
        SyncBinaryRegistry(typeId, info);
        answer := Get(Abs(), typeId, schema);
      }
    }

    /** `register_binary_type`: the given class replaces whatever was there. */
    method RegisterBinaryType(typeId: int, schema: int, cls: Class, info: TypeInfo) returns (put: bool)
      modifies this
      ensures var queried := if Truthy(Get(old(Abs()), typeId, schema)) then old(Abs())
                             else SyncInfo(old(Abs()), typeId, info);
        Abs() == Store(queried, typeId, schema, cls) && put == !Truthy(Get(queried, typeId, schema))
    {
      var answer, _ := QueryBinaryType(typeId, schema, info);
      put := !Truthy(answer);
      classes := classes[(typeId, schema) := cls];
    }
  }

  // ---- tasks, cut at their awaits

  datatype Want = Query(typeId: int, schema: int) | Register(typeId: int, schema: int, cls: Class)

  /** Where a task is suspended; `Fetching` is inside the lock. */
  datatype Task =
    | Waiting(want: Want)
    | Fetching(want: Want)
    | Putting(want: Want)
    | Answered(want: Want, answer: Answer)
    | Failed(want: Want)

  datatype Fetch = Asked(typeId: int, schema: int) | Got(typeId: int, schemas: seq<int>)

  datatype Machine = Machine(registry: Registry, lock: Option<nat>, tasks: map<nat, Task>, log: seq<Fetch>)

  const START := Machine(Registry(map[], 0), None, map[], [])

  datatype Event =
    | Call(task: nat, want: Want)
    | Acquire(task: nat)
    | Reply(task: nat, info: TypeInfo)
    | PutDone(task: nat)
    | Fail(task: nat)

  function Put(m: Machine, i: nat, t: Task): Machine {
    m.(tasks := m.tasks[i := t])
  }

  function Release(m: Machine, i: nat): Machine {
    if m.lock == Some(i) then m.(lock := None) else m
  }

  function StoreFor(m: Machine, i: nat, w: Want): Machine
    requires w.Register?
  {
    Put(m.(registry := Store(m.registry, w.typeId, w.schema, w.cls)), i, Answered(w, One(w.cls)))
  }

  /** The query has its answer: a query ends with it, a registration stores its class, after a put if there was none. */
  function Continue(m: Machine, i: nat, w: Want): Machine {
    var answer := Get(m.registry, w.typeId, w.schema);
    if w.Query? then Put(m, i, Answered(w, answer))
    else if Truthy(answer) then StoreFor(m, i, w)
    else Put(m, i, Putting(w))
  }

  function Has(m: Machine, w: Want): bool {
    Truthy(Get(m.registry, w.typeId, w.schema))
  }

  function Step(m: Machine, e: Event): Machine {
    match e
    case Call(i, w) =>
      if i in m.tasks then m else if Has(m, w) then Continue(m, i, w) else Put(m, i, Waiting(w))
    case Acquire(i) =>
      if i in m.tasks && m.tasks[i].Waiting? && m.lock.None? then
        var w := m.tasks[i].want;
        if Has(m, w) then Continue(m, i, w)
        else Put(m.(lock := Some(i), log := m.log + [Asked(w.typeId, w.schema)]), i, Fetching(w))
      else m
    case Reply(i, info) =>
      if i in m.tasks && m.tasks[i].Fetching? then
        var w := m.tasks[i].want;
        Continue(Release(m.(registry := SyncInfo(m.registry, w.typeId, info),
                            log := m.log + [Got(w.typeId, if info.Exists? then info.schemas else [])]), i), i, w)
      else m
    case PutDone(i) =>
      if i in m.tasks && m.tasks[i].Putting? && m.tasks[i].want.Register? then StoreFor(m, i, m.tasks[i].want) else m
    case Fail(i) =>
      if i in m.tasks && !m.tasks[i].Answered? then Put(Release(m, i), i, Failed(m.tasks[i].want)) else m
  }

  function Run(m: Machine, events: seq<Event>): Machine {
    if events == [] then m else Step(Run(m, events[..|events| - 1]), events[|events| - 1])
  }

  // ---- one fetch at a time, and none for what a reply already supplied

  ghost predicate LockIsHeld(m: Machine) {
    && (forall i :: i in m.tasks && m.tasks[i].Fetching? ==> m.lock == Some(i))
    && (m.lock.Some? ==> m.lock.value in m.tasks && m.tasks[m.lock.value].Fetching?)
  }

  predicate Supplies(f: Fetch, typeId: int, schema: int) {
    f.Got? && f.typeId == typeId && f.schemas != [] && (schema == 0 || schema in f.schemas)
  }

  /** No fetch is sent for what an earlier reply supplied. */
  ghost predicate NoSecondFetch(log: seq<Fetch>) {
    forall i, j :: 0 <= i < j < |log| && log[j].Asked? ==> !Supplies(log[i], log[j].typeId, log[j].schema)
  }

  ghost predicate SuppliedIsStored(r: Registry, log: seq<Fetch>) {
    forall i, s :: 0 <= i < |log| && log[i].Got? && s in log[i].schemas ==> (log[i].typeId, s) in r.classes
  }

  ghost predicate Good(m: Machine) {
    LockIsHeld(m) && NoSecondFetch(m.log) && SuppliedIsStored(m.registry, m.log)
  }

  lemma SuppliedIsThere(r: Registry, log: seq<Fetch>, i: nat, typeId: int, schema: int)
    requires SuppliedIsStored(r, log) && i < |log| && Supplies(log[i], typeId, schema)
    ensures Truthy(Get(r, typeId, schema))
  {
    if schema == 0 {
      var s := log[i].schemas[0];
      assert (typeId, s) in r.classes;
      assert s in Get(r, typeId, 0).classes;
    }
  }

  lemma AskIsFirst(m: Machine, typeId: int, schema: int)
    requires Good(m) && !Truthy(Get(m.registry, typeId, schema))
    ensures NoSecondFetch(m.log + [Asked(typeId, schema)])
    ensures SuppliedIsStored(m.registry, m.log + [Asked(typeId, schema)])
  {
    hide Get, Truthy;
    forall i | 0 <= i < |m.log| ensures !Supplies(m.log[i], typeId, schema) {
      if Supplies(m.log[i], typeId, schema) { SuppliedIsThere(m.registry, m.log, i, typeId, schema); }
    }
  }

  lemma ContinueIsGood(m: Machine, i: nat, w: Want)
    requires NoSecondFetch(m.log) && SuppliedIsStored(m.registry, m.log)
    requires LockIsHeld(Put(m, i, Putting(w)))
    ensures Good(Continue(m, i, w))
  {
    hide Get, Truthy;
  }

  lemma ReplyIsGood(m: Machine, i: nat, info: TypeInfo)
    requires Good(m) && i in m.tasks && m.tasks[i].Fetching?
    ensures Good(Step(m, Reply(i, info)))
  {
    hide Get, Truthy, Continue, Supplies;
    var w := m.tasks[i].want;
    var schemas := if info.Exists? then info.schemas else [];
    SyncOnlyAdds(m.registry, w.typeId, schemas);
    hide Sync;
    var t := Release(m.(registry := SyncInfo(m.registry, w.typeId, info), log := m.log + [Got(w.typeId, schemas)]), i);
    forall k, s | 0 <= k < |t.log| && t.log[k].Got? && s in t.log[k].schemas
      ensures (t.log[k].typeId, s) in t.registry.classes
    {
      if k < |m.log| { assert t.log[k] == m.log[k]; }
    }
    ContinueIsGood(t, i, w);
  }

  lemma StepIsGood(m: Machine, e: Event)
    requires Good(m)
    ensures Good(Step(m, e))
  {
    hide Get, Truthy, Supplies, Continue, SyncInfo;
    match e
    case Call(i, w) => if Step(m, e) != m && Has(m, w) { ContinueIsGood(m, i, w); }
    case Acquire(i) =>
      if Step(m, e) != m {
        var w := m.tasks[i].want;
        if Has(m, w) { ContinueIsGood(m, i, w); } else { AskIsFirst(m, w.typeId, w.schema); }
      }
    case Reply(i, info) => if i in m.tasks && m.tasks[i].Fetching? { ReplyIsGood(m, i, info); }
    case PutDone(i) =>
    case Fail(i) =>
  }

  /** In every interleaving the lock is held exactly by the task that fetches, every schema that a reply named is
      stored, and no fetch is sent for what a reply already supplied. */
  lemma {:induction false} EveryFetchIsFirst(events: seq<Event>)
    ensures var m := Run(START, events);
      LockIsHeld(m) && NoSecondFetch(m.log) && SuppliedIsStored(m.registry, m.log)
  {
    if events != [] {
      hide LockIsHeld, NoSecondFetch, SuppliedIsStored;
      var before := Run(START, events[..|events| - 1]);
      EveryFetchIsFirst(events[..|events| - 1]);
      StepIsGood(before, events[|events| - 1]);
    }
  }

  lemma SingleTypeFetch(events: seq<Event>, i: nat, j: nat)
    requires var m := Run(START, events); i in m.tasks && j in m.tasks && m.tasks[i].Fetching? && m.tasks[j].Fetching?
    ensures i == j
  {
    EveryFetchIsFirst(events);
  }

  // ---- when a task ends, and with what

  predicate HasEnded(m: Machine, i: nat) {
    i in m.tasks && (m.tasks[i].Answered? || m.tasks[i].Failed?)
  }

  /** What a query gets when it looks at the registry r. */
  ghost predicate IsAnswer(r: Registry, typeId: int, schema: int, a: Answer) {
    if schema == 0 then
      a.Everything?
      && forall s :: (s in a.classes <==> (typeId, s) in r.classes) && (s in a.classes ==> a.classes[s] == r.classes[(typeId, s)])
    else if (typeId, schema) in r.classes then a == One(r.classes[(typeId, schema)])
    else a == Nothing
  }

  /** The registry has something to say for the query: the class, or for schema 0 any class of the type. */
  ghost predicate Known(r: Registry, w: Want) {
    if w.schema == 0 then exists s :: (w.typeId, s) in r.classes else (w.typeId, w.schema) in r.classes
  }

  lemma GetIsAnswer(r: Registry, typeId: int, schema: int)
    ensures IsAnswer(r, typeId, schema, Get(r, typeId, schema))
    ensures forall w: Want :: w.typeId == typeId && w.schema == schema ==> (Truthy(Get(r, typeId, schema)) <==> Known(r, w))
  {
    if schema == 0 {
      var a := Get(r, typeId, 0);
      if s :| (typeId, s) in r.classes { assert s in a.classes; }
      if a.classes != map[] { var s :| s in a.classes; assert (typeId, s) in r.classes; }
    }
  }

  /** The registry after a task's own reply: every schema named is stored, and nothing else has changed. */
  ghost predicate Supplied(before: Registry, after: Registry, typeId: int, info: TypeInfo) {
    && (forall k :: k in after.classes <==> k in before.classes || (info.Exists? && k.0 == typeId && k.1 in info.schemas))
    && (forall k :: k in before.classes ==> after.classes[k] == before.classes[k])
  }

  lemma SyncSupplies(r: Registry, typeId: int, info: TypeInfo)
    ensures Supplied(r, SyncInfo(r, typeId, info), typeId, info)
  {
    if info.Exists? {
      SyncOnlyAdds(r, typeId, info.schemas);
      hide Sync;
    }
  }

  /** A query ends when it is made or gets the lock and the registry knows its key, or with the reply to its own fetch;
      and it ends with what the registry then holds. So it ends with nothing only after its own reply did not help. */
  lemma QueryEndsExactly(m: Machine, e: Event, i: nat)
    requires !HasEnded(m, i) && i in Step(m, e).tasks && Step(m, e).tasks[i].want.Query?
    ensures var t := Step(m, e);
      var w := t.tasks[i].want;
      && (t.tasks[i].Answered? <==>
            || (e == Call(i, w) && i !in m.tasks && Known(m.registry, w))
            || (e == Acquire(i) && i in m.tasks && m.tasks[i] == Waiting(w) && m.lock.None? && Known(m.registry, w))
            || (e.Reply? && e.task == i && i in m.tasks && m.tasks[i] == Fetching(w)))
      && (t.tasks[i].Answered? ==> IsAnswer(t.registry, w.typeId, w.schema, t.tasks[i].answer))
      && (t.tasks[i].Answered? ==>
            if e.Reply? then Supplied(m.registry, t.registry, w.typeId, e.info) else t.registry == m.registry)
  {
    hide Get, Truthy, SyncInfo, IsAnswer, Supplied, Known, Continue;
    var t := Step(m, e);
    var w := t.tasks[i].want;
    GetIsAnswer(m.registry, w.typeId, w.schema);
    GetIsAnswer(t.registry, w.typeId, w.schema);
    match e
    case Call(j, v) => if Has(m, v) { ContinueEnds(m, j, v, i); }
    case Acquire(j) => if j in m.tasks && Has(m, m.tasks[j].want) { ContinueEnds(m, j, m.tasks[j].want, i); }
    case Reply(j, info) =>
      if j in m.tasks && m.tasks[j].Fetching? {
        var v := m.tasks[j].want;
        var got := Got(v.typeId, if info.Exists? then info.schemas else []);
        ContinueEnds(Release(m.(registry := SyncInfo(m.registry, v.typeId, info), log := m.log + [got]), j), j, v, i);
        SyncSupplies(m.registry, v.typeId, info);
      }
    case PutDone(_) =>
    case Fail(_) =>
  }

  lemma ContinueEnds(m: Machine, j: nat, v: Want, i: nat)
    ensures var t := Continue(m, j, v);
      && (i != j ==> (i in t.tasks <==> i in m.tasks) && (i in m.tasks ==> t.tasks[i] == m.tasks[i]))
      && (i == j ==> i in t.tasks && t.tasks[i].want == v)
      && (i == j && v.Query? ==> t.tasks[i] == Answered(v, Get(m.registry, v.typeId, v.schema)))
      && (v.Query? ==> t.registry == m.registry)
  {
    hide Get, Truthy;
  }

  /** A registration ends with its own class stored under its key, and replaces nothing else in that step. */
  lemma RegistrationStores(m: Machine, e: Event, i: nat)
    requires !HasEnded(m, i) && i in Step(m, e).tasks && Step(m, e).tasks[i].want.Register? && Step(m, e).tasks[i].Answered?
    ensures var t := Step(m, e);
      var w := t.tasks[i].want;
      && (w.typeId, w.schema) in t.registry.classes && t.registry.classes[(w.typeId, w.schema)] == w.cls
      && t.tasks[i].answer == One(w.cls)
      && forall k :: k in m.registry.classes && k != (w.typeId, w.schema) ==>
           k in t.registry.classes && t.registry.classes[k] == m.registry.classes[k]
  {
    if e.Reply? && e.task in m.tasks { SyncSupplies(m.registry, m.tasks[e.task].want.typeId, e.info); }
    hide Get, Truthy, SyncInfo;
  }

  lemma EndedStays(m: Machine, e: Event, i: nat)
    requires HasEnded(m, i)
    ensures HasEnded(Step(m, e), i) && Step(m, e).tasks[i] == m.tasks[i]
  {
    hide Get, Truthy, SyncInfo;
  }

  lemma {:induction false} EndedStaysInRun(m: Machine, events: seq<Event>, i: nat)
    requires HasEnded(m, i)
    ensures HasEnded(Run(m, events), i) && Run(m, events).tasks[i] == m.tasks[i]
  {
    if events != [] {
      hide Step;
      EndedStaysInRun(m, events[..|events| - 1], i);
      EndedStays(Run(m, events[..|events| - 1]), events[|events| - 1], i);
    }
  }

  // ---- a stored class stays

  predicate Registers(w: Want, key: (int, int)) {
    w.Register? && (w.typeId, w.schema) == key
  }

  /** No task registers the key. */
  ghost predicate Quiet(m: Machine, key: (int, int)) {
    forall i :: i in m.tasks ==> !Registers(m.tasks[i].want, key)
  }

  ghost predicate QuietEvents(events: seq<Event>, key: (int, int)) {
    forall e :: e in events && e.Call? ==> !Registers(e.want, key)
  }

  /** One step keeps a stored class, and answers a query for the key with the class then stored. */
  lemma ClassStaysOneStep(m: Machine, e: Event, key: (int, int))
    requires Quiet(m, key) && (e.Call? ==> !Registers(e.want, key))
    ensures Quiet(Step(m, e), key)
    ensures key in m.registry.classes ==>
      key in Step(m, e).registry.classes && Step(m, e).registry.classes[key] == m.registry.classes[key]
  {
    if e.Reply? && e.task in m.tasks && m.tasks[e.task].Fetching? && e.info.Exists? {
      SyncOnlyAdds(m.registry, m.tasks[e.task].want.typeId, e.info.schemas);
    }
    hide Sync, Get, Truthy;
  }

  /** A class stored for a key is the class of that key for the rest of every run in which nobody registers the key. */
  lemma {:induction false} StoredClassStays(m: Machine, events: seq<Event>, key: (int, int))
    requires Quiet(m, key) && QuietEvents(events, key)
    ensures Quiet(Run(m, events), key)
    ensures key in m.registry.classes ==>
      key in Run(m, events).registry.classes && Run(m, events).registry.classes[key] == m.registry.classes[key]
  {
    if events != [] {
      assert QuietEvents(events[..|events| - 1], key);
      StoredClassStays(m, events[..|events| - 1], key);
      ClassStaysOneStep(Run(m, events[..|events| - 1]), events[|events| - 1], key);
      hide Step;
    }
  }

  lemma {:induction false} RunAppend(m: Machine, a: seq<Event>, b: seq<Event>)
    ensures Run(m, a + b) == Run(Run(m, a), b)
    decreases |b|
  {
    if b == [] {
      assert a + b == a;
    } else {
      hide Step;
      assert (a + b)[..|a + b| - 1] == a + b[..|b| - 1];
      RunAppend(m, a, b[..|b| - 1]);
    }
  }

  /** In every run in which nobody registers the key, a query for it that ends with event n ends with the class that is
      stored for the key at the end of the run, if the class was stored when it ended; else it ends with nothing, and
      only on a reply of its own that did not name the schema. */
  lemma QueriesGetTheStoredClass(events: seq<Event>, n: nat, i: nat, key: (int, int))
    requires key.1 != 0 && QuietEvents(events, key) && n < |events|
    requires var t := Run(START, events[..n + 1]); i in t.tasks && t.tasks[i].want == Query(key.0, key.1) && t.tasks[i].Answered?
    requires !HasEnded(Run(START, events[..n]), i)
    ensures var t, last := Run(START, events[..n + 1]), Run(START, events);
      if key in t.registry.classes then
        key in last.registry.classes && i in last.tasks && last.tasks[i] == Answered(Query(key.0, key.1), One(last.registry.classes[key]))
      else
        i in last.tasks && last.tasks[i] == Answered(Query(key.0, key.1), Nothing)
        && events[n].Reply? && events[n].task == i && !(events[n].info.Exists? && key.1 in events[n].info.schemas)
  {
    hide Step, Run;
    assert events[..n + 1] == events[..n] + [events[n]];
    RunOne(events[..n], events[n]);
    QueryEndsExactly(Run(START, events[..n]), events[n], i);
    assert events == events[..n + 1] + events[n + 1..];
    RunAppend(START, events[..n + 1], events[n + 1..]);
    EndedStaysInRun(Run(START, events[..n + 1]), events[n + 1..], i);
    assert QuietEvents(events[..n + 1], key) && QuietEvents(events[n + 1..], key);
    NobodyYet(key);
    StoredClassStays(START, events[..n + 1], key);
    StoredClassStays(Run(START, events[..n + 1]), events[n + 1..], key);
  }

  lemma NobodyYet(key: (int, int))
    ensures Quiet(START, key)
  {}

  lemma RunOne(events: seq<Event>, e: Event)
    ensures Run(START, events + [e]) == Step(Run(START, events), e)
  {
    assert (events + [e])[..|events|] == events;
  }

  /** Every query that was answered with a class got the one that is stored. */
  ghost predicate AnswersAgree(m: Machine, key: (int, int)) {
    forall i :: i in m.tasks && m.tasks[i].Answered? && m.tasks[i].want == Query(key.0, key.1) && m.tasks[i].answer.One?
      ==> key in m.registry.classes && m.tasks[i].answer.cls == m.registry.classes[key]
  }

  lemma AgreeOneStep(m: Machine, e: Event, key: (int, int))
    requires key.1 != 0 && Quiet(m, key) && AnswersAgree(m, key) && (e.Call? ==> !Registers(e.want, key))
    ensures AnswersAgree(Step(m, e), key)
  {
    ClassStaysOneStep(m, e, key);
    hide SyncInfo;
  }

  /** Racing queries: as long as nobody registers the key, all tasks that got a class for it got the same one. */
  lemma {:induction false} RacingQueriesAgree(events: seq<Event>, key: (int, int))
    requires key.1 != 0 && QuietEvents(events, key)
    ensures AnswersAgree(Run(START, events), key) && Quiet(Run(START, events), key)
  {
    if events != [] {
      assert QuietEvents(events[..|events| - 1], key);
      RacingQueriesAgree(events[..|events| - 1], key);
      AgreeOneStep(Run(START, events[..|events| - 1]), events[|events| - 1], key);
      ClassStaysOneStep(Run(START, events[..|events| - 1]), events[|events| - 1], key);
      hide Step;
    }
  }
}
