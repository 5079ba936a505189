/** When the affinity table is refreshed: announcements, refreshes and keyed lookups over whole runs. */
module AffinityRefresh {
  import opened Bits
  import opened Partitions
  import opened Affinity

  // ---- state and history

  /** What a client has done so far, oldest first. */
  datatype Entry =
    | Registered(cacheId: int)
    | Announced(version: Version)
    | Entered(cache: int)
    | Requested(caches: set<int>)
    | Resent(caches: set<int>)  // of interest where tasks interleave
    | Installed(requested: set<int>, reply: Reply)
    | Consulted(key: int, mapping: Mapping)

  datatype State = State(announced: Version, stamp: Version, mapping: map<int, Mapping>, log: seq<Entry>)

  const FRESH_CLIENT := State((0, 0), (0, 0), map[], [])

  /** One try of the partition request: what its responses announce, and how it ends. */
  datatype Attempt = Attempt(announcements: seq<Version>, outcome: Outcome)
  datatype Outcome = Lost | Rejected | Answered(reply: Reply)

  /** A lookup ends with the reader's choice: no node left, any node, or the table entry that was consulted. */
  datatype Choice = OutOfNodes | AnyNode | Entry(mapping: Mapping)

  function Note(s: State, v: Version): State {
    s.(announced := Newest(s.announced, v), log := s.log + [Announced(v)])
  }

  function NoteAll(s: State, vs: seq<Version>): State
    decreases |vs|
  {
    if vs == [] then s else NoteAll(Note(s, vs[0]), vs[1..])
  }

  /** `register_cache`: the membership test is made on the two-entry outer dictionary, so it always passes. */
  function Register(s: State, cacheId: int): State {
    s.(mapping := s.mapping[cacheId := Unknown], log := s.log + [Registered(cacheId)])
  }

  predicate Stale(s: State) {
    Older(s.stamp, s.announced)
  }

  /** `_caches_to_update_affinity`. */
  function ToUpdate(s: State): set<int> {
    if Stale(s) then s.mapping.Keys else set c | c in s.mapping && s.mapping[c].Unknown?
  }

  /** `_update_affinity`: the whole table takes the reply's version, and only the caches it answers change. */
  function Install(s: State, requested: set<int>, reply: Reply): State {
    s.(stamp := reply.version, mapping := s.mapping + ReplyTable(reply.groups, reply.version),
       log := s.log + [Installed(requested, reply)])
  }

  /** The refresh loop over the tries; when they run out there is no node left to ask. */
  function Refresh(s: State, caches: set<int>, attempts: seq<Attempt>): (State, Outcome)
    decreases |attempts|
  {
    if attempts == [] then (s, Lost)
    else
      var s1 := NoteAll(s.(log := s.log + [Requested(caches)]), attempts[0].announcements);
      match attempts[0].outcome
      case Lost => Refresh(s1, caches, attempts[1..])
      case Rejected => (s1, Rejected)
      case Answered(reply) => (Install(s1, caches, reply), Answered(reply))
  }

  /** What a consultation of c reads. */
  function Read(s: State, c: int): Mapping {
    if c in s.mapping then s.mapping[c] else Unknown
  }

  /** Reading a cache the table lacks inserts an empty mapping. */
  function Consult(s: State, cacheId: int): (State, Choice) {
    var m := Read(s, cacheId);
    (s.(mapping := s.mapping[cacheId := m], log := s.log + [Consulted(cacheId, m)]), Entry(m))
  }

  /** A keyed lookup on a partition-aware client. */
  function Lookup(s: State, cacheId: int, attempts: seq<Attempt>): (State, Choice) {
    var s1 := s.(log := s.log + [Entered(cacheId)]);
    var caches := ToUpdate(s);
    if caches == {} then Consult(s1, cacheId)
    else
      var (s2, outcome) := Refresh(s1, caches, attempts);
      match outcome
      case Lost => (s2, OutOfNodes)
      case Rejected => (s2, AnyNode)
      case Answered(_) => Consult(s2, cacheId)
  }

  /** Where the choice leads; `Anywhere` is the node picked before the lookup. */
  function NodeFor(choice: Choice, nodes: seq<Node>, hash: int): Route {
    if choice.Entry? && choice.mapping.Known? && choice.mapping.parts > 0
    then RouteTo(choice.mapping, nodes, hash) else Anywhere
  }

  /** What the key's mapping says about the node, told from the reply that the mapping came from: if the group that
      speaks for the cache splits 2^k partitions among its nodes, the key goes where the node leads that lists its
      partition. */
  ghost predicate GoesToItsOwner(m: Mapping, cacheId: int, nodes: seq<Node>, hash: int, best: Route) {
    forall reply: Reply, g: nat, k: nat, node: int ::
      && SpeaksFor(reply, g, cacheId) && reply.groups[g].applicable && SplitWhole(reply.groups[g].nodes, k)
      && cacheId in ReplyTable(reply.groups, reply.version) && ReplyTable(reply.groups, reply.version)[cacheId] == m
      && Lists(reply.groups[g].nodes, node, Partition(hash, Pow2(k)))
      ==> LeadsTo(nodes, node, best)
  }

  lemma RouteGoesToOwner(m: Mapping, cacheId: int, nodes: seq<Node>, hash: int)
    ensures GoesToItsOwner(m, cacheId, nodes, hash, NodeFor(Entry(m), nodes, hash))
  {
    hide ReplyTable, SplitWhole, Lists, LeadsTo, RouteTo, Partition, Names, Pow2;
    forall reply: Reply, g: nat, k: nat, node: int
      | && SpeaksFor(reply, g, cacheId) && g < |reply.groups| && reply.groups[g].applicable
        && SplitWhole(reply.groups[g].nodes, k)
        && cacheId in ReplyTable(reply.groups, reply.version) && ReplyTable(reply.groups, reply.version)[cacheId] == m
        && Lists(reply.groups[g].nodes, node, Partition(hash, Pow2(k)))
      ensures LeadsTo(nodes, node, NodeFor(Entry(m), nodes, hash))
    {
      RoutesByReply(reply, g, cacheId, nodes, hash, k);
    }
  }

  // ---- the client's fields and loop

  class Client {
    var affinityVersion: Version
    var stamp: Version
    var mapping: map<int, Mapping>
    ghost var log: seq<Entry>

    ghost function Abs(): State
      reads this
    {
      State(affinityVersion, stamp, mapping, log)
    }

    constructor ()
      ensures Abs() == FRESH_CLIENT
    {
      affinityVersion, stamp, mapping, log := (0, 0), (0, 0), map[], [];
    }

    /** `__post_process_response`: a topology-changed response raises the announced version, never lowers it. */
    method PostProcessResponse(v: Version)
      modifies this
      ensures Abs() == Note(old(Abs()), v)
    {
      if Older(affinityVersion, v) { affinityVersion := v; }
      log := log + [Announced(v)];
    }

    method RegisterCache(cacheId: int)
      modifies this
      ensures Abs() == Register(old(Abs()), cacheId)
    {
      mapping := mapping[cacheId := Unknown];
      log := log + [Registered(cacheId)];
    }

    method CachesToUpdateAffinity() returns (caches: set<int>)
      ensures caches == ToUpdate(Abs())
    {
      if Older(stamp, affinityVersion) {
        caches := mapping.Keys;
      } else {
        caches := set c | c in mapping && mapping[c].Unknown?;
      }
    }

    method UpdateAffinity(ghost requested: set<int>, reply: Reply)
      modifies this
      ensures Abs() == Install(old(Abs()), requested, reply)
    {
      stamp := reply.version;
      var table := PostProcess(reply);
      mapping := mapping + table;
      log := log + [Installed(requested, reply)];
    }

    method Attempted(caches: set<int>, attempt: Attempt)
      modifies this
      ensures Abs() == NoteAll(old(Abs()).(log := old(log) + [Requested(caches)]), attempt.announcements)
    {
      log := log + [Requested(caches)];
      ghost var start := Abs();
      assert attempt.announcements[..] == attempt.announcements;
      for i := 0 to |attempt.announcements|
        invariant NoteAll(Abs(), attempt.announcements[i..]) == NoteAll(start, attempt.announcements)
      {
        assert attempt.announcements[i..][1..] == attempt.announcements[i + 1..];
        PostProcessResponse(attempt.announcements[i]);
      }
    }

    /** The `while True` loop of `get_best_node`. */
    method RefreshAffinity(caches: set<int>, attempts: seq<Attempt>) returns (outcome: Outcome)
      modifies this
      ensures (Abs(), outcome) == Refresh(old(Abs()), caches, attempts)
    {
      hide NoteAll;
      var i := 0;
      assert attempts[0..] == attempts;
      while i < |attempts|
        invariant i <= |attempts|
        invariant Refresh(Abs(), caches, attempts[i..]) == Refresh(old(Abs()), caches, attempts)
      {
        assert attempts[i..][1..] == attempts[i + 1..];
        Attempted(caches, attempts[i]);
        outcome := attempts[i].outcome;
        if outcome.Answered? { UpdateAffinity(caches, outcome.reply); }
        if !outcome.Lost? { return; }
        i := i + 1;
      }
      outcome := Lost;
    }

    /** `get_best_node` for a key: the node to use instead of the one picked at random. */
    method GetBestNode(cacheId: int, hash: int, nodes: seq<Node>, attempts: seq<Attempt>)
      returns (choice: Choice, best: Route)
      modifies this
      ensures (Abs(), choice) == Lookup(old(Abs()), cacheId, attempts)
      ensures choice.Entry? ==> GoesToItsOwner(choice.mapping, cacheId, nodes, hash, best)
      ensures !choice.Entry? || choice.mapping.Unknown? || choice.mapping.parts == 0 ==> best == Anywhere
      ensures best.PartitionFails? <==>
        && choice.Entry? && choice.mapping.Known? && choice.mapping.parts > 0
        && (forall k: nat :: choice.mapping.parts != Pow2(k))
        && !(-(choice.mapping.parts * (choice.mapping.parts - 1)) <= hash < choice.mapping.parts * choice.mapping.parts)
    {
      hide Refresh, RouteTo, GoesToItsOwner, Pow2;
      best := Anywhere;
      log := log + [Entered(cacheId)];
      var caches := CachesToUpdateAffinity();
      if caches != {} {
        var outcome := RefreshAffinity(caches, attempts);
        if outcome.Lost? { choice := OutOfNodes; return; }
        if outcome.Rejected? { choice := AnyNode; return; }
      }
      if cacheId !in mapping { mapping := mapping[cacheId := Unknown]; }
      var m := mapping[cacheId];
      assert mapping == mapping[cacheId := m];
      log := log + [Consulted(cacheId, m)];
      choice := Entry(m);
      RouteGoesToOwner(m, cacheId, nodes, hash);
      if m.Known? && m.parts != 0 {
        best := RouteTo(m, nodes, hash);
        PartitionFailsExactly(m, nodes, hash);
      }
    }
  }

  // ---- how a lookup ends

  predicate LostBefore(attempts: seq<Attempt>, n: nat) {
    n <= |attempts| && forall j :: 0 <= j < n ==> attempts[j].outcome.Lost?
  }

  /** The first try that is not lost decides; the announcements of all tries up to it are noted, and an answer is
      installed. */
  lemma {:induction false} RefreshEndsExactly(s: State, caches: set<int>, attempts: seq<Attempt>)
    ensures var (t, outcome) := Refresh(s, caches, attempts);
      && (LostBefore(attempts, |attempts|) ==> outcome == Lost)
      && (forall i: nat :: LostBefore(attempts, i) && i < |attempts| && !attempts[i].outcome.Lost? ==>
            outcome == attempts[i].outcome)
      && (forall i: nat :: LostBefore(attempts, i) && i < |attempts| ==>
            forall v :: v in attempts[i].announcements ==> !Older(t.announced, v))
      && (outcome.Answered? ==>
            t.stamp == outcome.reply.version
            && forall c :: c in ReplyTable(outcome.reply.groups, outcome.reply.version) ==>
                 c in t.mapping && t.mapping[c] == ReplyTable(outcome.reply.groups, outcome.reply.version)[c])
      && !Older(t.announced, s.announced)
    decreases |attempts|
  {
    hide NoteAll, ReplyTable, Older;
    NeverOlder(s.announced);
    if attempts != [] {
      var s0 := s.(log := s.log + [Requested(caches)]);
      var s1 := NoteAll(s0, attempts[0].announcements);
      NotesAll(s0, attempts[0].announcements);
      NeverOlder(s1.announced);
      var (t, outcome) := Refresh(s, caches, attempts);
      if attempts[0].outcome.Lost? { RefreshEndsExactly(s1, caches, attempts[1..]); }
      NewestStays(s.announced, s1.announced, t.announced);
      forall i: nat | LostBefore(attempts, i) && i < |attempts|
        ensures forall v :: v in attempts[i].announcements ==> !Older(t.announced, v)
        ensures !attempts[i].outcome.Lost? ==> outcome == attempts[i].outcome
      {
        if i == 0 {
          forall v | v in attempts[0].announcements ensures !Older(t.announced, v) {
            NewestStays(v, s1.announced, t.announced);
          }
        } else {
          assert LostBefore(attempts[1..], i - 1) && attempts[i] == attempts[1..][i - 1];
        }
      }
    }
  }

  lemma NeverOlder(v: Version)
    ensures !Older(v, v)
  {}

  lemma NewestStays(a: Version, b: Version, c: Version)
    requires !Older(b, a) && !Older(c, b)
    ensures !Older(c, a)
  {}

  lemma {:induction false} NotesAll(s: State, vs: seq<Version>)
    ensures var t := NoteAll(s, vs);
      !Older(t.announced, s.announced) && forall v :: v in vs ==> !Older(t.announced, v)
    ensures NoteAll(s, vs).stamp == s.stamp && NoteAll(s, vs).mapping == s.mapping
    decreases |vs|
  {
    if vs != [] {
      var s1, t := Note(s, vs[0]), NoteAll(s, vs);
      NotesAll(s1, vs[1..]);
      hide NoteAll;
      NewestStays(s.announced, s1.announced, t.announced);
      NewestStays(vs[0], s1.announced, t.announced);
      assert forall v :: v in vs <==> v == vs[0] || v in vs[1..];
    }
  }

  /** A lookup consults the table if nothing was due when it started, or if the first try that was not lost was answered;
      what it consults is what the table holds then, and it is noted last. */
  lemma LookupEndsExactly(s: State, cacheId: int, attempts: seq<Attempt>)
    ensures var (t, choice) := Lookup(s, cacheId, attempts);
      && (ToUpdate(s) == {} ==> choice.Entry?)
      && (ToUpdate(s) != {} && LostBefore(attempts, |attempts|) ==> choice == OutOfNodes)
      && (forall i: nat :: ToUpdate(s) != {} && LostBefore(attempts, i) && i < |attempts| && !attempts[i].outcome.Lost? ==>
            if attempts[i].outcome.Rejected? then choice == AnyNode else choice.Entry?)
      && (choice.Entry? ==>
            && t.log != [] && t.log[|t.log| - 1] == Consulted(cacheId, choice.mapping)
            && cacheId in t.mapping && t.mapping[cacheId] == choice.mapping)
  {
    hide ReplyTable, Refresh, ToUpdate, LostBefore, Older;
    RefreshEndsExactly(s.(log := s.log + [Entered(cacheId)]), ToUpdate(s), attempts);
  }

  // ---- what the history says, independently of the table

  function MaxAnnounced(log: seq<Entry>): Version {
    if log == [] then (0, 0)
    else
      var last, before := log[|log| - 1], MaxAnnounced(log[..|log| - 1]);
      if last.Announced? then Newest(before, last.version) else before
  }

  function LastStamp(log: seq<Entry>): Version {
    if log == [] then (0, 0)
    else if log[|log| - 1].Installed? then log[|log| - 1].reply.version
    else LastStamp(log[..|log| - 1])
  }

  predicate Answers(e: Entry, c: int) {
    e.Installed? && c in ReplyTable(e.reply.groups, e.reply.version)
  }

  predicate Mentions(e: Entry, c: int) {
    e == Registered(c) || Answers(e, c) || (e.Consulted? && e.key == c)
  }

  /** The entry c has after the log: what the last reply naming c said, unless c was registered since. */
  ghost predicate Current(log: seq<Entry>, c: int, m: Mapping) {
    if m.Known? then
      exists k :: 0 <= k < |log| && Answers(log[k], c)
        && m == ReplyTable(log[k].reply.groups, log[k].reply.version)[c]
        && forall j :: k < j < |log| ==> log[j] != Registered(c) && !Answers(log[j], c)
    else
      forall k :: 0 <= k < |log| && Answers(log[k], c) ==> exists j :: k < j < |log| && log[j] == Registered(c)
  }

  ghost predicate Touched(log: seq<Entry>, c: int) {
    exists k :: 0 <= k < |log| && Mentions(log[k], c)
  }

  /** `named` is what a lookup that starts after `log` must ask for. */
  ghost predicate Named(log: seq<Entry>, named: set<int>) {
    forall c :: c in named <==>
      Touched(log, c) && (Older(LastStamp(log), MaxAnnounced(log)) || Current(log, c, Unknown))
  }

  /** The consultation at i belongs to a lookup that had nothing to refresh when it started, or installed an answer
      to a request for everything it had to refresh in between. */
  ghost predicate Justified(log: seq<Entry>, i: nat)
    requires i < |log|
  {
    exists j :: 0 <= j < i && log[j].Entered? && (forall k :: j < k < i ==> !log[k].Entered?)
      && (Named(log[..j], {})
          || exists k :: j < k < i && log[k].Installed? && Named(log[..j], log[k].requested))
  }

  ghost predicate AllJustified(log: seq<Entry>) {
    forall i :: 0 <= i < |log| && log[i].Consulted? ==> Justified(log, i)
  }

  /** The fields are what the history makes them, and every consultation read the current mapping. */
  ghost predicate TableIsTrue(s: State) {
    && s.announced == MaxAnnounced(s.log)
    && s.stamp == LastStamp(s.log)
    && (forall c :: c in s.mapping <==> Touched(s.log, c))
    && (forall c :: c in s.mapping ==> Current(s.log, c, s.mapping[c]))
    && (forall i :: 0 <= i < |s.log| && s.log[i].Consulted? ==> Current(s.log[..i], s.log[i].key, s.log[i].mapping))
  }

  // ---- every run

  datatype Event =
    | Announce(version: Version)
    | RegisterCache(cacheId: int)
    | LookUp(cache: int, attempts: seq<Attempt>)

  function Step(s: State, e: Event): State {
    match e
    case Announce(v) => Note(s, v)
    case RegisterCache(c) => Register(s, c)
    case LookUp(c, attempts) => Lookup(s, c, attempts).0
  }

  function Run(s: State, events: seq<Event>): State {
    if events == [] then s else Step(Run(s, events[..|events| - 1]), events[|events| - 1])
  }

  /** One more entry in the log leaves what was justified justified. */
  lemma JustifiedGrows(log: seq<Entry>, e: Entry, i: nat)
    requires i < |log| && Justified(log, i)
    ensures Justified(log + [e], i)
  {
    var j :| 0 <= j < i && log[j].Entered? && (forall k :: j < k < i ==> !log[k].Entered?)
      && (Named(log[..j], {}) || exists k :: j < k < i && log[k].Installed? && Named(log[..j], log[k].requested));
    assert (log + [e])[..j] == log[..j];
    if !Named(log[..j], {}) {
      var k :| j < k < i && log[k].Installed? && Named(log[..j], log[k].requested);
      assert (log + [e])[k] == log[k];
    }
  }

  lemma CurrentGrows(log: seq<Entry>, e: Entry, c: int, m: Mapping)
    requires Current(log, c, m) && e != Registered(c) && !Answers(e, c)
    ensures Current(log + [e], c, m)
  {
    hide ReplyTable;
    if m.Known? {
      var k :| 0 <= k < |log| && Answers(log[k], c) && m == ReplyTable(log[k].reply.groups, log[k].reply.version)[c]
        && forall j :: k < j < |log| ==> log[j] != Registered(c) && !Answers(log[j], c);
      assert (log + [e])[k] == log[k];
    } else {
      forall k | 0 <= k < |log + [e]| && Answers((log + [e])[k], c)
        ensures exists j :: k < j < |log + [e]| && (log + [e])[j] == Registered(c)
      {
        var j :| k < j < |log| && log[j] == Registered(c);
        assert (log + [e])[j] == Registered(c);
      }
    }
  }

  lemma TouchedGrows(log: seq<Entry>, e: Entry, c: int)
    ensures Touched(log + [e], c) <==> Touched(log, c) || Mentions(e, c)
  {
    hide Mentions;
    assert (log + [e])[|log|] == e;
    if Touched(log, c) {
      var k :| 0 <= k < |log| && Mentions(log[k], c);
      assert (log + [e])[k] == log[k];
    }
  }

  /** The history of s, one entry longer, with what that entry changes. */
  function Appended(s: State, e: Entry): State {
    match e
    case Registered(c) => Register(s, c)
    case Announced(v) => Note(s, v)
    case Entered(_) => s.(log := s.log + [e])
    case Requested(_) => s.(log := s.log + [e])
    case Resent(_) => s.(log := s.log + [e])
    case Installed(requested, reply) => Install(s, requested, reply)
    case Consulted(c, _) => Consult(s, c).0
  }

  lemma NewEntryIsCurrent(s: State, e: Entry, c: int)
    requires TableIsTrue(s) && c in Appended(s, e).mapping
    ensures Current(s.log + [e], c, Appended(s, e).mapping[c])
  {
    hide ReplyTable;
    assert (s.log + [e])[|s.log|] == e;
    if e != Registered(c) && !Answers(e, c) {
      if c !in s.mapping {
        assert forall k :: 0 <= k < |s.log| ==> !Mentions(s.log[k], c);
        assert Current(s.log, c, Unknown);
      }
      CurrentGrows(s.log, e, c, Appended(s, e).mapping[c]);
    } else if e.Installed? {
      AnswersAreKnown(e.reply.groups, e.reply.version);
    }
  }

  ghost predicate AllFrom(table: map<int, Mapping>, version: Version) {
    forall c :: c in table ==> table[c].Known? && table[c].origin == version
  }

  lemma {:induction false} AnswersAreKnown(groups: seq<MappingGroup>, version: Version)
    ensures AllFrom(ReplyTable(groups, version), version)
  {
    if groups != [] {
      var g, before := groups[|groups| - 1], ReplyTable(groups[..|groups| - 1], version);
      AnswersAreKnown(groups[..|groups| - 1], version);
      GroupAnswersAreKnown(before, g, g.caches, version);
    }
  }

  lemma {:induction false} GroupAnswersAreKnown(table: map<int, Mapping>, g: MappingGroup, caches: seq<CacheConfig>,
                                                version: Version)
    requires AllFrom(table, version)
    ensures AllFrom(GroupTable(table, g, caches, version), version)
  {
    hide KeyConfigOf, OwnersOf, CountParts;
    if caches != [] { GroupAnswersAreKnown(table, g, caches[..|caches| - 1], version); }
  }

  lemma ReadIsCurrent(s: State, c: int)
    requires TableIsTrue(s)
    ensures Current(s.log, c, Read(s, c))
  {
    hide ReplyTable;
    if c !in s.mapping {
      assert forall k :: 0 <= k < |s.log| ==> !Mentions(s.log[k], c);
    }
  }

  lemma AppendTrue(s: State, e: Entry)
    requires TableIsTrue(s) && (e.Consulted? ==> e.mapping == Read(s, e.key))
    ensures TableIsTrue(Appended(s, e)) && Appended(s, e).log == s.log + [e]
  {
    hide Current, ReplyTable, Touched;
    var t := Appended(s, e);
    assert t.log == s.log + [e] && t.log[..|s.log|] == s.log;
    forall i | 0 <= i < |t.log| && t.log[i].Consulted? ensures Current(t.log[..i], t.log[i].key, t.log[i].mapping) {
      if i < |s.log| { assert t.log[..i] == s.log[..i]; } else { ReadIsCurrent(s, e.key); }
    }
    forall c | c in t.mapping ensures Current(t.log, c, t.mapping[c]) { NewEntryIsCurrent(s, e, c); }
    forall c ensures c in t.mapping <==> Touched(t.log, c) { TouchedGrows(s.log, e, c); }
  }

  lemma JustifiedStays(log: seq<Entry>, e: Entry)
    requires AllJustified(log) && (e.Consulted? ==> Justified(log + [e], |log|))
    ensures AllJustified(log + [e])
  {
    hide Justified;
    forall i | 0 <= i < |log| && log[i].Consulted? ensures Justified(log + [e], i) { JustifiedGrows(log, e, i); }
  }

  /** Between a lookup's start and its consultation. */
  ghost predicate Within(s: State, j: nat, named: set<int>) {
    && TableIsTrue(s) && AllJustified(s.log) && j < |s.log| && s.log[j].Entered? && Named(s.log[..j], named)
    && forall k :: j < k < |s.log| ==> !s.log[k].Entered?
  }

  lemma WithinGrows(s: State, j: nat, named: set<int>, e: Entry)
    requires Within(s, j, named) && !e.Consulted? && !e.Entered?
    ensures Within(Appended(s, e), j, named) && Appended(s, e).log == s.log + [e]
  {
    AppendTrue(s, e);
    JustifiedStays(s.log, e);
    hide TableIsTrue, AllJustified, Named;
    assert Appended(s, e).log[..j] == s.log[..j];
  }

  lemma {:induction false} WithinNoteAll(s: State, j: nat, named: set<int>, vs: seq<Version>)
    requires Within(s, j, named)
    ensures Within(NoteAll(s, vs), j, named)
    decreases |vs|
  {
    hide Within;
    if vs != [] {
      WithinGrows(s, j, named, Announced(vs[0]));
      WithinNoteAll(Note(s, vs[0]), j, named, vs[1..]);
    }
  }

  ghost predicate AnsweredSince(log: seq<Entry>, j: nat, named: set<int>) {
    exists k :: j < k < |log| && log[k].Installed? && log[k].requested == named
  }

  lemma {:induction false} WithinRefresh(s: State, j: nat, named: set<int>, attempts: seq<Attempt>)
    requires Within(s, j, named)
    ensures var (t, outcome) := Refresh(s, named, attempts);
      Within(t, j, named) && (outcome.Answered? ==> AnsweredSince(t.log, j, named))
    decreases |attempts|
  {
    hide TableIsTrue, AllJustified, Named, NoteAll, ReplyTable, Stale;
    if attempts != [] {
      WithinGrows(s, j, named, Requested(named));
      var s1 := NoteAll(s.(log := s.log + [Requested(named)]), attempts[0].announcements);
      WithinNoteAll(s.(log := s.log + [Requested(named)]), j, named, attempts[0].announcements);
      match attempts[0].outcome
      case Lost => WithinRefresh(s1, j, named, attempts[1..]);
      case Rejected =>
      case Answered(reply) =>
        assert j < |s1.log|;
        WithinGrows(s1, j, named, Installed(named, reply));
        assert Install(s1, named, reply).log[|s1.log|] == Installed(named, reply);
    }
  }

  lemma ConsultJustified(s: State, j: nat, named: set<int>, c: int)
    requires Within(s, j, named) && (named == {} || AnsweredSince(s.log, j, named))
    ensures var t := Consult(s, c).0; TableIsTrue(t) && AllJustified(t.log)
  {
    hide TableIsTrue, AllJustified, Named;
    var e := Consulted(c, Read(s, c));
    var log := s.log + [e];
    assert log[..j] == s.log[..j] && log[j].Entered?;
    if named != {} {
      var k :| j < k < |s.log| && s.log[k].Installed? && s.log[k].requested == named;
      assert log[k] == s.log[k];
    }
    JustifiedStays(s.log, e);
    AppendTrue(s, e);
  }

  lemma ToUpdateIsNamed(s: State)
    requires TableIsTrue(s)
    ensures Named(s.log, ToUpdate(s))
  {
    forall c ensures c in ToUpdate(s) <==>
        Touched(s.log, c) && (Older(LastStamp(s.log), MaxAnnounced(s.log)) || Current(s.log, c, Unknown))
    {
      if c in s.mapping && s.mapping[c].Known? { KnownIsNotUnknown(s.log, c, s.mapping[c]); }
    }
  }

  lemma KnownIsNotUnknown(log: seq<Entry>, c: int, m: Mapping)
    requires m.Known? && Current(log, c, m)
    ensures !Current(log, c, Unknown)
  {}

  lemma LookupJustified(s: State, c: int, attempts: seq<Attempt>)
    requires TableIsTrue(s) && AllJustified(s.log)
    ensures var t := Lookup(s, c, attempts).0; TableIsTrue(t) && AllJustified(t.log)
  {
    hide TableIsTrue, AllJustified, Named, ToUpdate, Refresh, Current, ReplyTable, Consult;
    var caches := ToUpdate(s);
    var s1 := s.(log := s.log + [Entered(c)]);
    AppendTrue(s, Entered(c));
    JustifiedStays(s.log, Entered(c));
    ToUpdateIsNamed(s);
    assert s1.log[..|s.log|] == s.log;
    assert Within(s1, |s.log|, caches);
    if caches == {} {
      ConsultJustified(s1, |s.log|, caches, c);
    } else {
      WithinRefresh(s1, |s.log|, caches, attempts);
      var (s2, outcome) := Refresh(s1, caches, attempts);
      if outcome.Answered? { ConsultJustified(s2, |s.log|, caches, c); }
    }
  }

  /** Over every run the announced version is the maximum of the announcements, the stamp is the version of the last
      reply, the table holds for each cache what the last reply that names it said, and no lookup that starts behind
      consults the table before an answer to a request for every cache it knew is installed. */
  lemma {:induction false} EveryRunIsJustified(events: seq<Event>)
    ensures var s := Run(FRESH_CLIENT, events); TableIsTrue(s) && AllJustified(s.log)
  {
    if events != [] {
      EveryRunIsJustified(events[..|events| - 1]);
      var s, e := Run(FRESH_CLIENT, events[..|events| - 1]), events[|events| - 1];
      hide TableIsTrue, AllJustified;
      match e {
        case Announce(v) => AppendTrue(s, Announced(v)); JustifiedStays(s.log, Announced(v));
        case RegisterCache(c) => AppendTrue(s, Registered(c)); JustifiedStays(s.log, Registered(c));
        case LookUp(c, attempts) => LookupJustified(s, c, attempts);
      }
    }
  }

  lemma {:induction false} AnnouncedIsTheMaximum(log: seq<Entry>)
    ensures forall i :: 0 <= i < |log| && log[i].Announced? ==> !Older(MaxAnnounced(log), log[i].version)
    ensures MaxAnnounced(log) == (0, 0) || Announced(MaxAnnounced(log)) in log
  {
    if log != [] { AnnouncedIsTheMaximum(log[..|log| - 1]); }
  }

  // ---- how fresh the table is

  /** Every known mapping is as new as the stamp says. */
  ghost predicate StampIsTrue(s: State) {
    forall c :: c in s.mapping && s.mapping[c].Known? ==> s.mapping[c].origin == s.stamp
  }

  /** A reply keeps the stamp true exactly when it has the version the table already had, or names every known cache. */
  lemma StampStaysTrueExactly(s: State, requested: set<int>, reply: Reply)
    requires StampIsTrue(s)
    ensures StampIsTrue(Install(s, requested, reply)) <==>
      reply.version == s.stamp
      || forall c :: c in s.mapping && s.mapping[c].Known? ==> c in ReplyTable(reply.groups, reply.version)
  {
    AnswersAreKnown(reply.groups, reply.version);
    hide ReplyTable;
    var t, table := Install(s, requested, reply), ReplyTable(reply.groups, reply.version);
    forall c | c in s.mapping && c !in table ensures c in t.mapping && t.mapping[c] == s.mapping[c] {}
    forall c | c in t.mapping ensures t.mapping[c] == if c in table then table[c] else s.mapping[c] {}
  }

  /** A refresh of a table that was behind makes the stamp true again, whatever it was before. */
  lemma FullRefreshMakesStampTrue(s: State, reply: Reply)
    requires Stale(s) && ToUpdate(s) <= ReplyTable(reply.groups, reply.version).Keys
    ensures StampIsTrue(Install(s, ToUpdate(s), reply))
  {
    AnswersAreKnown(reply.groups, reply.version);
  }

  function AboutOne(c: int, v: Version): Reply {
    Reply(v, [MappingGroup(false, [CacheConfig(c, [])], [])])
  }

  function AskedOnce(c: int, v: Version): Event {
    LookUp(c, [Attempt([], Answered(AboutOne(c, v)))])
  }

  lemma AskedAboutOne(s: State, c: int, v: Version)
    requires ToUpdate(s) == {c}
    ensures var t := Step(s, AskedOnce(c, v));
      t.stamp == v && t.announced == s.announced && t.mapping == s.mapping[c := Known(false, map[], [], 0, v)]
  {
    var reply := AboutOne(c, v);
    var g := reply.groups[0];
    assert reply.groups[..0] == [] && g.caches[..0] == [];
    assert ReplyTable(reply.groups, v) == GroupTable(map[], g, g.caches, v);
    assert GroupTable(map[], g, g.caches, v) == map[c := MappingOf(g, g.caches[0], v)];
    var s1 := s.(log := s.log + [Entered(c)]);
    assert Refresh(s1, {c}, [Attempt([], Answered(reply))])
        == (Install(s1.(log := s1.log + [Requested({c})]), {c}, reply), Answered(reply));
  }

  /** Two caches looked up one after the other across a topology change that nothing announced: the second refresh
      stamps the first cache's old mapping with the new version. */
  lemma PartialRefreshOverstates(v: Version, newer: Version)
    requires Older((0, 0), v) && Older(v, newer)
    ensures var s := Run(FRESH_CLIENT, [RegisterCache(1), AskedOnce(1, v), RegisterCache(2), AskedOnce(2, newer)]);
      !StampIsTrue(s) && 1 in s.mapping && s.mapping[1].Known? && s.mapping[1].origin == v && s.stamp == newer
  {
    var events := [RegisterCache(1), AskedOnce(1, v), RegisterCache(2), AskedOnce(2, newer)];
    assert events[..3][..2] == events[..2] && events[..2][..1] == events[..1] && events[..1][..0] == [];
    var s1 := Run(FRESH_CLIENT, events[..1]);
    assert Run(FRESH_CLIENT, events[..1][..0]) == FRESH_CLIENT;
    assert s1 == Register(FRESH_CLIENT, 1);
    AskedAboutOne(s1, 1, v);
    var s2 := Run(FRESH_CLIENT, events[..2]);
    assert s2 == Step(s1, AskedOnce(1, v));
    hide Lookup, Refresh;
    var s3 := Run(FRESH_CLIENT, events[..3]);
    assert s3 == Register(s2, 2);
    assert ToUpdate(s3) == {2};
    AskedAboutOne(s3, 2, newer);
    var s4 := Step(s3, AskedOnce(2, newer));
    assert s4.mapping[1] == s3.mapping[1] == s2.mapping[1];
    assert s4.mapping[1].origin != s4.stamp;
  }

  /** After every run, a cache that was registered, for the first time or again, and not answered for since is due. */
  lemma RegisteredIsDue(events: seq<Event>, c: int, k: nat)
    requires var log := Run(FRESH_CLIENT, events).log;
      k < |log| && log[k] == Registered(c) && forall j :: k < j < |log| ==> !Answers(log[j], c)
    ensures c in ToUpdate(Run(FRESH_CLIENT, events))
    ensures Run(FRESH_CLIENT, events).mapping[c].Unknown?
  {
    var s := Run(FRESH_CLIENT, events);
    EveryRunIsJustified(events);
    assert Mentions(s.log[k], c) && Touched(s.log, c);
    assert Current(s.log, c, s.mapping[c]);
    assert !Answers(s.log[k], c);
    hide Run, AllJustified, Answers, Touched;
  }
}
