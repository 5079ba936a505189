/** A complex object with its two caches: the saved bytes and the hash code. */
module GenericObjects {
  import opened Bytes
  import opened Hashing
  import opened Values
  import opened Layouts
  import opened RoundTrip
  import opened BinaryStreams
  import opened Writer

  /** The fields that caching reads and writes. `origin` notes the version and footer style that the
      saved bytes were made with, `hashStyle` the style the hash was taken under. */
  datatype State = State(version: int, fields: seq<Value>, buffer: Option<bytes>, hash: Option<int>,
                         origin: (int, bool), hashStyle: bool)

  function Fresh(cls: ClassInfo, st: State, compact: bool): bytes {
    ClientBytes(Obj(cls, st.version, st.fields), compact)
  }

  function FieldsHash(fields: seq<Value>, compact: bool): int {
    BytesHash(Flatten(ClientParts(fields, compact)))
  }

  /** `_setattr` of one of the object's own fields drops both caches. */
  function AssignField(st: State, i: nat, v: Value): State
    requires i < |st.fields|
  {
    st.(fields := st.fields[i := v], buffer := None, hash := None)
  }

  /** `version` is not a schema field: `_setattr` keeps the caches. */
  function AssignVersion(st: State, version: int): State {
    st.(version := version)
  }

  /** `_from_python`. */
  function Serialised(cls: ClassInfo, st: State, compact: bool, save: bool): State {
    var hashed := st.(hash := Some(FieldsHash(st.fields, compact)), hashStyle := compact);
    if save then hashed.(buffer := Some(Fresh(cls, st, compact)), origin := (st.version, compact)) else hashed
  }

  /** What a write of the object puts into a stream. */
  function Emitted(cls: ClassInfo, st: State, compact: bool): bytes {
    if st.buffer.Some? then st.buffer.value else Fresh(cls, st, compact)
  }

  function AfterEmit(cls: ClassInfo, st: State, compact: bool): State {
    if st.buffer.Some? then st else Serialised(cls, st, compact, false)
  }

  /** `if not value._hashcode`: an absent hash, or one that happens to be 0, is taken anew. */
  predicate NeedsHash(st: State) {
    st.hash == None || st.hash == Some(0)
  }

  function AfterHash(cls: ClassInfo, st: State, compact: bool): State {
    if NeedsHash(st) then Serialised(cls, st, compact, true) else st
  }

  // ---- runs

  datatype Event = Assign(i: nat, v: Value) | Version(version: int) | Hash(compact: bool) | Emit(compact: bool)

  function Step(cls: ClassInfo, st: State, e: Event): State {
    match e
    case Assign(i, v) => if i < |st.fields| then AssignField(st, i, v) else st
    case Version(version) => AssignVersion(st, version)
    case Hash(compact) => AfterHash(cls, st, compact)
    case Emit(compact) => AfterEmit(cls, st, compact)
  }

  function Run(cls: ClassInfo, st: State, events: seq<Event>): State {
    if events == [] then st
    else Step(cls, Run(cls, st, events[..|events| - 1]), events[|events| - 1])
  }

  function NewObject(version: int, fields: seq<Value>): State {
    State(version, fields, None, None, (0, false), false)
  }

  /** The value last assigned to field i in a run, or the one it started with. */
  function LastAssigned(fields: seq<Value>, events: seq<Event>, i: nat): Value
    requires i < |fields|
  {
    if events == [] then fields[i]
    else
      var last, before := events[|events| - 1], events[..|events| - 1];
      if last.Assign? && last.i == i then last.v else LastAssigned(fields, before, i)
  }

  function LastVersion(version: int, events: seq<Event>): int {
    if events == [] then version
    else if events[|events| - 1].Version? then events[|events| - 1].version
    else LastVersion(version, events[..|events| - 1])
  }

  /** Writing and hashing change neither the fields nor the version; assignments do, and the last one counts. */
  lemma {:induction false} FieldsAreLastAssigned(cls: ClassInfo, version: int, fields: seq<Value>, events: seq<Event>)
    ensures var st := Run(cls, NewObject(version, fields), events);
      && st.version == LastVersion(version, events) && |st.fields| == |fields|
      && forall i :: 0 <= i < |fields| ==> st.fields[i] == LastAssigned(fields, events, i)
  {
    hide ClientBytes, ClientParts, BytesHash, Fresh, FieldsHash;
    if events != [] { FieldsAreLastAssigned(cls, version, fields, events[..|events| - 1]); }
  }

  /** The caches hold what a serialisation of the current fields gave at their origin. */
  ghost predicate Coherent(cls: ClassInfo, st: State) {
    |st.fields| == |cls.schema|
    && (st.buffer.Some? ==> st.buffer.value == Fresh(cls, st.(version := st.origin.0), st.origin.1))
    && (st.hash.Some? ==> st.hash.value == FieldsHash(st.fields, st.hashStyle))
  }

  lemma {:induction false} EveryRunIsCoherent(cls: ClassInfo, version: int, fields: seq<Value>, events: seq<Event>)
    requires |fields| == |cls.schema|
    ensures Coherent(cls, Run(cls, NewObject(version, fields), events))
  {
    hide ClientBytes, ClientParts, BytesHash;
    if events != [] {
      EveryRunIsCoherent(cls, version, fields, events[..|events| - 1]);
    }
  }

  /** The version byte and the style flag are all that two serialisations of the same fields can differ by. */
  lemma SameBytesExactly(cls: ClassInfo, fields: seq<Value>, v1: int, c1: bool, v2: int, c2: bool)
    requires |fields| == |cls.schema|
    ensures ClientBytes(Obj(cls, v1, fields), c1) == ClientBytes(Obj(cls, v2, fields), c2)
      <==> v1 % 256 == v2 % 256 && c1 == c2
  {
    hide ClientBytes, ClientParts, Flatten, Offsets, ObjectFlags, BytesHash, ObjectHeader, FooterEntries, SchemaId, ToLE;
    var o1, o2 := Obj(cls, v1, fields), Obj(cls, v2, fields);
    ClientObject(o1, c1);
    ClientObject(o2, c2);
    var f1, h1, d1, t1 := ObjectParts(cls, v1, c1, ClientParts(fields, c1));
    var f2, h2, d2, t2 := ObjectParts(cls, v2, c2, ClientParts(fields, c2));
    FlagsDecode(c1, Offsets(ClientParts(fields, c1), HEADER_LENGTH));
    FlagsDecode(c2, Offsets(ClientParts(fields, c2), HEADER_LENGTH));
    var e1, e2 := ClientBytes(o1, c1), ClientBytes(o2, c2);
    assert e1[..HEADER_LENGTH] == h1 && e2[..HEADER_LENGTH] == h2;
    HeaderPrefix(cls, v1, f1, BytesHash(d1), HEADER_LENGTH + |d1| + |t1|, HEADER_LENGTH + |d1|);
    HeaderPrefix(cls, v2, f2, BytesHash(d2), HEADER_LENGTH + |d2| + |t2|, HEADER_LENGTH + |d2|);
    if v1 % 256 == v2 % 256 && c1 == c2 {
      SameVersionByte(cls, v1, v2, f1, BytesHash(d1), HEADER_LENGTH + |d1| + |t1|, HEADER_LENGTH + |d1|);
    }
  }

  lemma HeaderPrefix(cls: ClassInfo, version: int, flags: nat, hash: int, length: nat, schemaOffset: nat)
    requires flags < 0x1_0000
    ensures var h := ObjectHeader(cls, version, flags, hash, length, schemaOffset);
      h[1] == version % 256 && FromLE(h[2..4]) == flags
  {
    hide ToLE, FromLE, SchemaId, Pow256;
    var h := ObjectHeader(cls, version, flags, hash, length, schemaOffset);
    Widths();
    assert h[2..4] == ToLE(flags, 2);
    FromToLENat(flags, 2);
    OneByte(version);
    assert h[1] == ToLE(version, 1)[0];
  }

  lemma SameVersionByte(cls: ClassInfo, v1: int, v2: int, flags: nat, hash: int, length: nat, schemaOffset: nat)
    requires v1 % 256 == v2 % 256
    ensures ObjectHeader(cls, v1, flags, hash, length, schemaOffset) == ObjectHeader(cls, v2, flags, hash, length, schemaOffset)
  {
    OneByte(v1);
    OneByte(v2);
    hide ToLE, SchemaId;
  }

  /** In every run, what a write emits is the fresh serialisation exactly when nothing is saved, or the
      saved bytes were made with the same version byte and footer style. */
  lemma EmitsFreshExactly(cls: ClassInfo, version: int, fields: seq<Value>, events: seq<Event>, compact: bool)
    requires |fields| == |cls.schema|
    ensures var st := Run(cls, NewObject(version, fields), events);
      Emitted(cls, st, compact) == Fresh(cls, st, compact)
      <==> (st.buffer.Some? ==> st.origin.0 % 256 == st.version % 256 && st.origin.1 == compact)
  {
    hide ClientBytes;
    EveryRunIsCoherent(cls, version, fields, events);
    var st := Run(cls, NewObject(version, fields), events);
    SameBytesExactly(cls, st.fields, st.origin.0, st.origin.1, st.version, compact);
  }

  predicate Steady(e: Event, compact: bool) {
    !e.Version? && (e.Hash? ==> e.compact == compact) && (e.Emit? ==> e.compact == compact)
  }

  /** With version and style left alone, every write is fresh and every hash is that of the current fields. */
  lemma {:induction false} SteadyRunsAreFresh(cls: ClassInfo, version: int, fields: seq<Value>, events: seq<Event>, compact: bool)
    requires |fields| == |cls.schema| && forall e :: e in events ==> Steady(e, compact)
    ensures var st := Run(cls, NewObject(version, fields), events);
      Emitted(cls, st, compact) == Fresh(cls, st, compact)
      && AfterHash(cls, st, compact).hash == Some(FieldsHash(st.fields, compact))
      && st.version == version && (st.buffer.Some? ==> st.origin == (version, compact))
      && (st.hash.Some? ==> st.hashStyle == compact)
  {
    hide ClientBytes, ClientParts, BytesHash;
    if events != [] {
      var n := |events| - 1;
      SteadyRunsAreFresh(cls, version, fields, events[..n], compact);
      assert events[n] in events;
    }
    EmitsFreshExactly(cls, version, fields, events, compact);
    EveryRunIsCoherent(cls, version, fields, events);
  }

  /** Saving, then changing the version, leaves stale bytes behind. */
  lemma VersionChangeGoesStale(cls: ClassInfo, fields: seq<Value>, compact: bool)
    requires |fields| == |cls.schema|
    ensures var st := Run(cls, NewObject(1, fields), [Hash(compact), Version(2)]);
      Emitted(cls, st, compact) != Fresh(cls, st, compact)
  {
    hide ClientBytes, ClientParts, BytesHash;
    var events := [Hash(compact), Version(2)];
    assert events[..1] == [Hash(compact)] && [Hash(compact)][..0] == [];
    assert Run(cls, NewObject(1, fields), [Hash(compact)]) == AfterHash(cls, NewObject(1, fields), compact);
    EmitsFreshExactly(cls, 1, fields, events, compact);
  }

  // ---- the object

  class GenericObject {
    const cls: ClassInfo
    var version: int
    var fields: seq<Value>
    var buffer: Option<bytes>
    var hash: Option<int>
    ghost var origin: (int, bool)
    ghost var hashStyle: bool

    ghost function View(): State
      reads this
    {
      State(version, fields, buffer, hash, origin, hashStyle)
    }

    function AsValue(): Value
      reads this
    {
      Obj(cls, version, fields)
    }

    ghost predicate Valid()
      reads this
    {
      Writable(AsValue()) && Coherent(cls, View())
    }

    constructor (cls: ClassInfo, version: int, fields: seq<Value>)
      requires Writable(Obj(cls, version, fields))
      ensures Valid() && this.cls == cls && View() == NewObject(version, fields)
    {
      this.cls := cls;
      this.version := version;
      this.fields := fields;
      buffer := None;
      hash := None;
      origin := (0, false);
      hashStyle := false;
      new;
      ObjectIsWritable(AsValue());
    }

    method SetField(i: nat, v: Value)
      requires Valid() && i < |fields| && Writable(AsValue().(fields := fields[i := v]))
      modifies this
      ensures Valid() && View() == AssignField(old(View()), i, v)
      ensures fields == old(fields)[i := v] && version == old(version) && buffer == None && hash == None
    {
      hide Writable, ClientBytes, ClientParts;
      buffer := None;
      hash := None;
      fields := fields[i := v];
    }

    method SetVersion(n: int)
      requires Valid() && Writable(AsValue().(version := n))
      modifies this
      ensures Valid() && View() == AssignVersion(old(View()), n)
      ensures version == n && fields == old(fields) && buffer == old(buffer) && hash == old(hash)
    {
      hide Writable, ClientBytes, ClientParts;
      version := n;
    }

    /** `_from_python`, with or without saving the bytes it wrote. */
    method SelfFromPython(s: BinaryStream, saveToBuf: bool) returns (r: Result<()>)
      requires Valid() && !s.Stuck()
      modifies this, s, s.client
      ensures Valid() && s.client.style == old(s.client.style)
      ensures r.Ok? <==> Sendable(old(AsValue())) && !(old(s.data) == [] && Hollow(old(AsValue())))
      ensures r.Ok? ==> Wrote(s, old(s.data), old(s.pos), Fresh(cls, old(View()), old(s.client.CompactFooter())))
      ensures r.Ok? ==> View() == Serialised(cls, old(View()), old(s.client.CompactFooter()), saveToBuf)
      ensures r.Ok? ==> fields == old(fields) && version == old(version)
      ensures r.Ok? ==> hash == Some(BytesHash(Flatten(ClientParts(fields, old(s.client.CompactFooter())))))
      ensures r.Ok? ==> buffer == if saveToBuf then Some(ClientBytes(old(AsValue()), old(s.client.CompactFooter()))) else old(buffer)
      ensures r.Err? ==> View() == old(View())
    {
      hide Writable, ClientBytes, ClientParts, Sendable, Hollow, Overlay, BytesHash, Flatten, EnrolEach;
      ghost var compact := s.client.CompactFooter();
      ghost var data := s.data;
      var initialPos := s.Tell();
      var headerHash;
      r, headerHash := WriteObject(s, AsValue());
      if r.Err? { return; }
      ClientBytesBegin(AsValue(), compact);
      OverlaySlice(data, initialPos, ClientBytes(AsValue(), compact));
      if saveToBuf {
        var bs := s.GetSlice(initialPos, s.pos - initialPos);
        buffer := Some(bs);
        origin := (version, compact);
      }
      hash := Some(headerHash);
      hashStyle := compact;
    }

    /** `BinaryObject.from_python_not_null`: saved bytes are copied; otherwise the class is registered
        and the object serialised. */
    method FromPythonNotNull(s: BinaryStream) returns (r: Result<()>)
      requires Valid() && !s.Stuck()
      modifies this, s, s.client
      ensures Valid() && s.client.style == old(s.client.style)
      ensures r.Ok? <==> old(buffer).Some? || (Sendable(old(AsValue())) && !(old(s.data) == [] && Hollow(old(AsValue()))))
      ensures r.Ok? ==> Wrote(s, old(s.data), old(s.pos), Emitted(cls, old(View()), old(s.client.CompactFooter())))
      ensures r.Ok? ==> View() == AfterEmit(cls, old(View()), old(s.client.CompactFooter()))
    {
      hide Writable, ClientBytes, ClientParts, Sendable, Hollow, Overlay, BytesHash, Flatten, Coherent;
      if buffer.Some? {
        var ok := s.Write(buffer.value);
        r := Ok(());
      } else {
        s.client.registry := s.client.registry[(cls.typeId, cls.SchemaIdentifier()) := cls];
        r := SelfFromPython(s, false);
      }
    }

    /** `BinaryObject.hashcode`: an absent or zero hash is taken by serialising into an empty stream of its own. */
    method Hashcode(client: Client) returns (r: Result<int>)
      requires Valid()
      modifies this, client
      ensures Valid() && client.style == old(client.style)
      ensures r.Err? <==> NeedsHash(old(View())) && (!Sendable(old(AsValue())) || Hollow(old(AsValue())))
      ensures r.Ok? ==> View() == AfterHash(cls, old(View()), old(client.CompactFooter())) && Some(r.value) == hash
      ensures r.Ok? ==> r.value == if old(hash).Some? && old(hash).value != 0 then old(hash).value
                                   else BytesHash(Flatten(ClientParts(old(fields), old(client.CompactFooter()))))
    {
      hide Writable, ClientBytes, ClientParts, Sendable, Hollow, Overlay, BytesHash, Flatten, Coherent;
      if hash == None || hash == Some(0) {
        var stream := new BinaryStream(client, []);
        var written := SelfFromPython(stream, true);
        if written.Err? { return Err(written.error); }
      }
      r := Ok(hash.value);
    }
  }
}
