/** One client writes and reads: writing registers the classes that reading looks up. */
module SameClient {
  import opened Bytes
  import opened Values
  import opened Layouts
  import opened Interpret
  import opened RoundTrip
  import opened Exactness
  import opened BinaryStreams
  import opened Writer
  import opened Reader

  /** No object in the value has schema identifier 0. */
  predicate Identified(v: Value)
    decreases v
  {
    match v
    case Container(_, _, elems) => forall i :: 0 <= i < |elems| ==> Identified(elems[i])
    case Obj(cls, _, fields) =>
      cls.SchemaIdentifier() != 0 && forall i :: 0 <= i < |fields| ==> Identified(fields[i])
    case _ => true
  }

  predicate AllIdentified(vs: seq<Value>) {
    forall i :: 0 <= i < |vs| ==> Identified(vs[i])
  }

  lemma {:induction false} EnrolGrows(registry: Registry, v: Value)
    ensures registry.Keys <= Enrol(registry, v).Keys
    decreases v, 1
  {
    match v
    case Container(_, _, elems) => EnrolEachGrows(registry, elems);
    case Obj(cls, _, fields) => EnrolEachGrows(registry[(cls.typeId, cls.SchemaIdentifier()) := cls], fields);
    case _ =>
  }

  lemma {:induction false} EnrolEachGrows(registry: Registry, vs: seq<Value>)
    ensures registry.Keys <= EnrolEach(registry, vs).Keys
    decreases vs, 0
  {
    if vs != [] {
      EnrolGrows(registry, vs[0]);
      EnrolEachGrows(Enrol(registry, vs[0]), vs[1..]);
    }
  }

  /** After a value has been enrolled, its objects can be looked up exactly if they are identified. */
  lemma {:induction false} EnrolCovers(registry: Registry, v: Value, all: Registry)
    requires Enrol(registry, v).Keys <= all.Keys
    ensures Registered(all, v) <==> Identified(v)
    decreases v, 1
  {
    match v
    case Container(_, _, elems) =>
      EnrolEachCovers(registry, elems, all);
    case Obj(cls, _, fields) =>
      var key := (cls.typeId, cls.SchemaIdentifier());
      EnrolEachGrows(registry[key := cls], fields);
      assert key in registry[key := cls].Keys;
      EnrolEachCovers(registry[key := cls], fields, all);
    case _ =>
  }

  lemma {:induction false} EnrolEachCovers(registry: Registry, vs: seq<Value>, all: Registry)
    requires EnrolEach(registry, vs).Keys <= all.Keys
    ensures AllRegistered(all, vs) <==> AllIdentified(vs)
    decreases vs, 0
  {
    hide Registered, Identified, Enrol;
    if vs != [] {
      EnrolEachGrows(Enrol(registry, vs[0]), vs[1..]);
      EnrolCovers(registry, vs[0], all);
      EnrolEachCovers(Enrol(registry, vs[0]), vs[1..], all);
      ListStep(all, vs);
      IdentifiedStep(vs);
    }
  }

  lemma IdentifiedStep(vs: seq<Value>)
    requires vs != []
    ensures AllIdentified(vs) <==> Identified(vs[0]) && AllIdentified(vs[1..])
  {
    hide Identified;
    assert forall i :: 1 <= i < |vs| ==> vs[i] == vs[1..][i - 1];
    if !AllIdentified(vs[1..]) {
      var i :| 0 <= i < |vs[1..]| && !Identified(vs[1..][i]);
      assert !Identified(vs[i + 1]);
    }
  }

  /** The client that wrote `v` anywhere in a buffer reads an equal value back, whatever else surrounds it,
      exactly when the value is clean and no object in it has an empty schema. */
  lemma WrittenByReader(before: Registry, v: Value, pre: bytes, post: bytes, style: Option<bool>)
    requires Writable(v) && Agrees(Enrol(before, v), v)
    ensures var compact := style != Some(false);
      var bs := ClientBytes(v, compact);
      var r := Decode(Enrol(before, v), pre + bs + post, Any, Cursor(|pre|, style));
      && (r.Ok? && EqualValues(r.value.0, v) <==> Clean(v, Client) && Identified(v))
      && (Clean(v, Client) && Identified(v) ==>
            r == Ok((Plain(v), Cursor(|pre| + |bs|, StyleAfter(style, HasObject(v), compact)))))
  {
    hide WellFormed, Encode, Agrees, Decode, HasObject, Clean, Enrol, Registered, Identified, Plain, Written;
    var compact := style != Some(false);
    EnrolCovers(before, v, Enrol(before, v));
    RoundTripExactly(Enrol(before, v), pre, v, post, Any, compact, style, Client);
  }

  /** The same law run on one stream: write, seek back, parse and interpret. */
  method WriteThenRead(s: BinaryStream, v: Value) returns (r: Result<Value>)
    requires Writable(v) && !s.Stuck()
    requires Agrees(Enrol(s.client.registry, v), v)
    modifies s, s.client
    ensures r.Ok? && EqualValues(r.value, v)
      <==> Clean(v, Client) && Identified(v) && Sendable(v) && !(old(s.data) == [] && Hollow(v))
    ensures r.Ok? && EqualValues(r.value, v) ==>
      r == Ok(Plain(v)) && s.pos == old(s.pos) + |ClientBytes(v, old(s.client.CompactFooter()))|
  {
    hide WellFormed, ClientBytes, Agrees, Decode, HasObject, Clean, Enrol, Registered, Identified, Overlay, Sendable,
         Hollow, Plain;
    ghost var registry, data, style := s.client.registry, s.data, s.client.style;
    var start := s.Tell();
    var written := FromPython(s, v);
    if written.Err? { return Err(written.error); }
    s.Seek(start);
    ghost var compact := style != Some(false);
    ghost var bs := ClientBytes(v, compact);
    ClientBytesBegin(v, compact);
    OverlayAt(data, start, bs);
    ghost var pre, post := s.data[..start], s.data[start + |bs|..];
    assert At(s.data, start, bs) && s.data[start..start + |bs|] == bs;
    assert s.data == pre + bs + post;
    WrittenByReader(registry, v, pre, post, style);
    r := DecodeValue(s, Any);
  }
}
