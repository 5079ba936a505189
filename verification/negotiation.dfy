/** Connecting with version fallback: what the protocol context goes through, and when the loop ends. */
module Negotiation {
  import opened Bytes
  import opened Protocols

  /** What a server answers to a handshake; `Broken` is any other failure of the attempt. */
  datatype Response =
    | Accepted(features: Option<bytes>)
    | Rejected(expected: Version)
    | AuthFailed
    | Broken

  datatype Result = Connected | VersionRefused(expected: Version) | AuthRefused | Error

  /** `BitmaskFeature.all_supported()`: bits 2 and 33. */
  const ALL_SUPPORTED: nat := 0x2_0000_0004

  /** Without features the request of a version that has them cannot be built. */
  predicate CanAsk(c: Context) {
    FeatureFlagsSupported(c.version) ==> c.features.Some?
  }

  /** One turn of the loop; no result means another turn. */
  function Round(c: Context, r: Response): (Context, Option<Result>) {
    if !CanAsk(c) then (c, Some(Error))
    else
      match r
      case Accepted(f) =>
        (Restrict(c.(features := if FeatureFlagsSupported(c.version) then FromArray(f) else None)), Some(Connected))
      case Rejected(v) => if v in PROTOCOLS then (Restrict(c.(version := v)), None) else (c, Some(VersionRefused(v)))
      case AuthFailed => (c, Some(AuthRefused))
      case Broken => (c, Some(Error))
  }

  /** What each answer leads to, told by the numbers: with 1.7.0 or newer the features of an accepting server are taken
      over, a rejection that names a known version sets it and drops features below 1.7.0, and any other answer ends
      the loop and leaves the context alone. */
  lemma RoundExactly(c: Context, r: Response)
    requires Before(c.version, (1, 7, 0)) || c.features.Some?
    ensures var (d, result) := Round(c, r);
      match r
      case Accepted(packed) =>
        result == Some(Connected) && d.version == c.version
        && (if Before(c.version, (1, 7, 0)) || packed.None? then d.features == None else d.features == Some(FromLE(packed.value)))
      case Rejected(v) =>
        if v in [(1, 7, 1), (1, 7, 0), (1, 6, 0), (1, 5, 0), (1, 4, 0), (1, 3, 0), (1, 2, 0)] then
          result == None && d == Context(v, if Before(v, (1, 7, 0)) then None else c.features)
        else result == Some(VersionRefused(v)) && d == c
      case AuthFailed => result == Some(AuthRefused) && d == c
      case Broken => result == Some(Error) && d == c
  {
    hide FromLE;
  }

  /** The mask that a server packs into its bytes is the mask the client then has. */
  lemma FeaturesArrive(c: Context, mask: nat)
    requires !Before(c.version, (1, 7, 0)) && c.features.Some?
    ensures Round(c, Accepted(Some(MaskBytes(mask)))) == (Context(c.version, Some(mask)), Some(Connected))
  {
    MaskRoundTrip(mask);
    hide MaskBytes, FromArray;
  }

  /** `n` turns against a server whose answer depends on the version it is asked for. */
  function Rounds(c: Context, server: Version -> Response, n: nat): (Context, Option<Result>)
    decreases n
  {
    if n == 0 then (c, None)
    else
      var (d, result) := Round(c, server(c.version));
      if result.Some? then (d, result) else Rounds(d, server, n - 1)
  }

  // ---- a client's whole life

  /** The client's context before a connection attempt: the newest version, unless one is known. */
  function StartContext(client: Option<Context>): Context {
    if client.Some? then client.value else Restrict(Context(NEWEST, Some(ALL_SUPPORTED)))
  }

  /** The client's context after one: undefined again only if it was and the attempt broke. */
  function After(client: Option<Context>, c: Context, result: Result): Option<Context> {
    if client.None? && result == Error then None else Some(c)
  }

  /** One connection attempt against arbitrary answers; when they run out the attempt has broken. */
  function Turns(c: Context, answers: seq<Response>): (Context, Result)
    decreases |answers|
  {
    if answers == [] then (c, Error)
    else
      var (d, result) := Round(c, answers[0]);
      if result.Some? then (d, result.value) else Turns(d, answers[1..])
  }

  function Attempt(client: Option<Context>, answers: seq<Response>): Option<Context> {
    var (c, result) := Turns(StartContext(client), answers);
    After(client, c, result)
  }

  function Life(attempts: seq<seq<Response>>): Option<Context> {
    if attempts == [] then None else Attempt(Life(attempts[..|attempts| - 1]), attempts[|attempts| - 1])
  }

  predicate Good(c: Context) {
    c.version in PROTOCOLS && Coherent(c)
  }

  lemma {:induction false} TurnsKeepGood(c: Context, answers: seq<Response>)
    requires Good(c)
    ensures Good(Turns(c, answers).0)
    decreases |answers|
  {
    if answers != [] {
      var (d, result) := Round(c, answers[0]);
      assert Good(d);
      if result.None? { TurnsKeepGood(d, answers[1..]); }
    }
  }

  /** Over every series of connection attempts the version stays in the supported set, and below 1.7.0 there are
      no features. */
  lemma {:induction false} EveryLifeIsGood(attempts: seq<seq<Response>>)
    ensures Life(attempts).Some? ==> Good(Life(attempts).value)
  {
    if attempts != [] {
      EveryLifeIsGood(attempts[..|attempts| - 1]);
      TurnsKeepGood(StartContext(Life(attempts[..|attempts| - 1])), attempts[|attempts| - 1]);
    }
  }

  /** A client that has gone below 1.7.0 cannot come back: when a server then asks for 1.7.0 or newer, the next turn
      breaks whatever the server would say. */
  lemma NoWayBackUp(c: Context, v: Version, next: Response)
    requires Good(c) && !FeatureFlagsSupported(c.version) && v in PROTOCOLS && FeatureFlagsSupported(v)
    ensures var (d, result) := Round(c, Rejected(v));
      result.None? && Round(d, next) == (d, Some(Error))
  {}

  // ---- when the loop ends

  function Rank(v: Version): nat {
    if v == (1, 7, 1) then 7 else if v == (1, 7, 0) then 6 else if v == (1, 6, 0) then 5 else if v == (1, 5, 0) then 4
    else if v == (1, 4, 0) then 3 else if v == (1, 3, 0) then 2 else if v == (1, 2, 0) then 1 else 0
  }

  lemma LowerRank(a: Version, b: Version)
    requires a in PROTOCOLS && b in PROTOCOLS && Before(a, b)
    ensures Rank(a) < Rank(b)
  {}

  /** Each rejection names a strictly lower version. */
  ghost predicate Descending(server: Version -> Response) {
    forall v :: v in PROTOCOLS && server(v).Rejected? ==> Before(server(v).expected, v)
  }

  /** The answer that a descending server's client arrives at. */
  ghost function Settled(c: Context, server: Version -> Response): (r: (Context, Result))
    requires c.version in PROTOCOLS && Descending(server)
    ensures r.0.version in PROTOCOLS
    ensures r.1.Connected? ==> server(r.0.version).Accepted?
    decreases Rank(c.version)
  {
    var (d, result) := Round(c, server(c.version));
    if result.Some? then (d, result.value) else Settled(d, server)
  }

  /** The versions a client goes through: each rejection names the next one. */
  predicate Leads(server: Version -> Response, path: seq<Version>) {
    path != []
    && (|path| > 1 ==> server(path[0]) == Rejected(path[1]) && path[1] in PROTOCOLS && Leads(server, path[1..]))
  }

  /** The features left at the end of the path: dropped at the first version below 1.7.0 that it leads to. */
  function KeptAlong(path: seq<Version>, features: Option<nat>): Option<nat> {
    if |path| <= 1 then features else KeptAlong(path[1..], if Before(path[1], (1, 7, 0)) then None else features)
  }

  /** How an attempt that starts in context c ends, told from the server's answers alone: the versions follow its
      rejections, and its answer to the last of them, or the lack of features, decides. */
  ghost predicate EndsWith(c: Context, server: Version -> Response, d: Context, result: Result, path: seq<Version>) {
    && Leads(server, path) && path[0] == c.version && path[|path| - 1] == d.version
    && var kept := KeptAlong(path, c.features);
       if !Before(d.version, (1, 7, 0)) && kept.None? then result == Error && d.features == None
       else
         match server(d.version)
         case Accepted(packed) =>
           result == Connected
           && d.features == if Before(d.version, (1, 7, 0)) || packed.None? then None else Some(FromLE(packed.value))
         case Rejected(v) => result == VersionRefused(v) && v !in PROTOCOLS && d.features == kept
         case AuthFailed => result == AuthRefused && d.features == kept
         case Broken => result == Error && d.features == kept
  }

  lemma {:induction false} SettledEnds(c: Context, server: Version -> Response) returns (path: seq<Version>)
    requires c.version in PROTOCOLS && Descending(server)
    ensures var (d, result) := Settled(c, server); EndsWith(c, server, d, result, path)
    decreases Rank(c.version)
  {
    hide FromLE, Before, Rank;
    var answer := server(c.version);
    if CanAsk(c) && answer.Rejected? && answer.expected in PROTOCOLS {
      var next := Restrict(c.(version := answer.expected));
      LowerRank(answer.expected, c.version);
      var rest := SettledEnds(next, server);
      path := [c.version] + rest;
      assert path[1..] == rest && path[|path| - 1] == rest[|rest| - 1];
    } else {
      path := [c.version];
    }
  }

  class Client {
    var context: ProtocolContext?

    ghost function View(): Option<Context>
      reads this, context
    {
      if context == null then None else Some(context.Abs())
    }

    /** `Connection.connect`: against a descending server the loop terminates. */
    method Connect(server: Version -> Response) returns (result: Result)
      requires Descending(server) && (View().Some? ==> View().value.version in PROTOCOLS)
      modifies this, context
      ensures var (c, r) := Settled(StartContext(old(View())), server);
        View() == After(old(View()), c, r) && result == r
      ensures var start := if old(View()).Some? then old(View()).value else Context((1, 7, 1), Some(0x2_0000_0004));
        exists d, path :: EndsWith(start, server, d, result, path)
          && View() == if old(View()).None? && result == Error then None else Some(d)
    {
      hide Before, Rank, FromArray, FeatureFlagsSupported;
      var detectingProtocol := context == null;
      ghost var before := View();
      if detectingProtocol { context := new ProtocolContext(NEWEST, Some(ALL_SUPPORTED)); }
      var shared := context;
      ghost var start := shared.Abs();
      NewClient();
      assert start == StartContext(before);
      ghost var path := SettledEnds(start, server);
      while true
        invariant context == shared && (detectingProtocol ==> fresh(shared)) && (!detectingProtocol ==> shared == old(context))
        invariant shared.version in PROTOCOLS
        invariant Settled(shared.Abs(), server) == Settled(start, server)
        decreases Rank(shared.version)
      {
        if FeatureFlagsSupported(shared.version) && shared.features.None? { result := Error; break; }
        var response := server(shared.version);
        match response {
          case Accepted(features) =>
            shared.SetFeatures(if FeatureFlagsSupported(shared.version) then FromArray(features) else None);
            return Connected;
          case Rejected(expected) =>
            if expected !in PROTOCOLS { return VersionRefused(expected); }
            LowerRank(expected, shared.version);
            shared.SetVersion(expected);
          case AuthFailed => return AuthRefused;
          case Broken => result := Error; break;
        }
      }
      if detectingProtocol { context := null; }
    }
  }

  lemma NewClient()
    ensures StartContext(None) == Context((1, 7, 1), Some(0x2_0000_0004))
  {}

  // ---- and with a server of any kind

  lemma {:induction false} RoundsAdd(c: Context, server: Version -> Response, a: nat, b: nat)
    ensures Rounds(c, server, a + b) == if Rounds(c, server, a).1.Some? then Rounds(c, server, a)
                                        else Rounds(Rounds(c, server, a).0, server, b)
    decreases a
  {
    if a > 0 {
      var (d, result) := Round(c, server(c.version));
      if result.None? { RoundsAdd(d, server, a - 1, b); }
    }
  }

  /** Features are those the loop started with, or gone. */
  lemma {:induction false} FeaturesOnlyGo(c: Context, server: Version -> Response, n: nat)
    requires Good(c) && Rounds(c, server, n).1.None?
    ensures Good(Rounds(c, server, n).0)
    ensures Rounds(c, server, n).0.features in {c.features, None}
    decreases n
  {
    if n > 0 {
      var (d, result) := Round(c, server(c.version));
      assert Good(d);
      FeaturesOnlyGo(d, server, n - 1);
    }
  }

  lemma Earlier(c: Context, server: Version -> Response, i: nat, n: nat)
    requires i <= n && Rounds(c, server, n).1.None?
    ensures Rounds(c, server, i).1.None?
    ensures i < n ==> CanAsk(Rounds(c, server, i).0)
  {
    RoundsAdd(c, server, i, n - i);
  }

  /** The same version twice, and the loop will come round again for ever. */
  lemma {:induction false} Cycles(c: Context, server: Version -> Response, i: nat, j: nat, n: nat)
    requires i < j && Rounds(c, server, j).1.None? && Rounds(c, server, i) == Rounds(c, server, j)
    ensures Rounds(c, server, n).1.None?
    decreases n
  {
    if n <= j {
      Earlier(c, server, n, j);
    } else {
      RoundsAdd(c, server, j, n - j);
      RoundsAdd(c, server, i, n - j);
      Cycles(c, server, i, j, i + (n - j));
    }
  }

  lemma {:induction false} SetOfSeq(s: seq<Version>)
    ensures |set v | v in s| <= |s|
    ensures (forall i, j :: 0 <= i < j < |s| ==> s[i] != s[j]) ==> |set v | v in s| == |s|
  {
    if s != [] {
      var last, rest := s[|s| - 1], s[..|s| - 1];
      SetOfSeq(rest);
      assert (set v | v in s) == (set v | v in rest) + {last};
    }
  }

  lemma {:induction false} SubsetSize(a: set<Version>, b: set<Version>)
    requires a <= b
    ensures |a| <= |b|
    decreases a
  {
    if v :| v in a {
      SubsetSize(a - {v}, b - {v});
    }
  }

  lemma Pigeonhole(s: seq<Version>) returns (i: nat, j: nat)
    requires |s| > |PROTOCOLS| && forall k :: 0 <= k < |s| ==> s[k] in PROTOCOLS
    ensures i < j < |s| && s[i] == s[j]
  {
    if forall i, j :: 0 <= i < j < |s| ==> s[i] != s[j] {
      SetOfSeq(s);
      SetOfSeq(PROTOCOLS);
      SubsetSize(set v | v in s, set v | v in PROTOCOLS);
      assert false;
    }
    i, j :| i < j < |s| && s[i] == s[j];
  }

  /** Whatever the server answers as long as it answers each version in one way: the loop ends at all exactly
      if it has ended after eight turns. */
  lemma EndsExactly(c: Context, server: Version -> Response)
    requires Good(c)
    ensures (exists n: nat :: Rounds(c, server, n).1.Some?) <==> Rounds(c, server, 8).1.Some?
  {
    if Rounds(c, server, 8).1.None? {
      var versions := seq(8, i requires 0 <= i < 8 => Rounds(c, server, i).0.version);
      forall i | 0 <= i < 8 ensures versions[i] in PROTOCOLS && Rounds(c, server, i).1.None?
                                 && CanAsk(Rounds(c, server, i).0) && Good(Rounds(c, server, i).0)
                                 && Rounds(c, server, i).0.features in {c.features, None}
      {
        Earlier(c, server, i, 8);
        FeaturesOnlyGo(c, server, i);
      }
      var i, j := Pigeonhole(versions);
      hide Rounds;
      assert Rounds(c, server, i) == Rounds(c, server, j) by {
        var x, y := Rounds(c, server, i).0, Rounds(c, server, j).0;
        assert x.version == versions[i] == versions[j] == y.version;
        assert x.features == y.features;
      }
      forall n: nat ensures Rounds(c, server, n).1.None? { Cycles(c, server, i, j, n); }
    }
  }

  /** A server that asks for the version it is offered keeps the loop going for ever. */
  lemma {:induction false} EchoNeverEnds(c: Context, n: nat)
    requires Good(c) && CanAsk(c)
    ensures Rounds(c, v => Rejected(v), n) == (c, None)
  {
    if n > 0 { EchoNeverEnds(c, n - 1); }
  }
}
