/** Response structures as a server sends them and as the client reads them back: numbers, tagged values, counted
    elements, nested structures, and fields that an earlier Bool field chooses. */
module Structures {
  import opened Bytes
  import opened Values
  import opened Layouts
  import opened Interpret
  import opened RoundTrip
  import opened Responses

  /** What a field of a structure holds. */
  datatype PartValue =
    | Number(n: int)
    | Tagged(value: Value)
    | Elements(values: seq<Value>)
    | Records(records: seq<seq<PartValue>>)
    | Record(fields: seq<PartValue>)

  // ---- what a server can send

  predicate IsChoice(done: seq<PartValue>, on: nat) {
    on < |done| && done[on].Number? && FitsSigned(done[on].n, 1)
  }

  /** The value fits the field, the fields before it being `done`. */
  ghost predicate Fitting(registry: Registry, part: Part, v: PartValue, done: seq<PartValue>)
    decreases part, 0, 0
  {
    match part
    case Fixed(width) => v.Number? && width > 0 && FitsSigned(v.n, width)
    case OfClass(cls) =>
      v.Tagged? && AllWellFormed([v.value], [cls]) && Agrees(registry, v.value) && Registered(registry, v.value)
    case Counted(element, perEntry) =>
      && v.Elements? && 1 <= perEntry <= 2 && |v.values| % perEntry == 0 && |v.values| < MAX_LENGTH
      && AllWellFormed(v.values, Repeat(element, |v.values|)) && AllAgree(registry, v.values) && AllRegistered(registry, v.values)
    case Structs(fields) => v.Records? && |v.records| < MAX_LENGTH && AllFitting(registry, fields, v.records)
    case Inline(fields) => v.Record? && FittingEach(registry, fields, v.fields, [])
    case Conditional(on, ifTrue, otherwise) =>
      IsChoice(done, on) && if done[on].n != 0 then Fitting(registry, ifTrue, v, done) else Fitting(registry, otherwise, v, done)
  }

  ghost predicate AllFitting(registry: Registry, fields: seq<Part>, records: seq<seq<PartValue>>)
    decreases fields, 1, |records|
  {
    records == [] || (FittingEach(registry, fields, records[0], []) && AllFitting(registry, fields, records[1..]))
  }

  ghost predicate FittingEach(registry: Registry, fields: seq<Part>, vs: seq<PartValue>, done: seq<PartValue>)
    decreases fields, 0, 0
  {
    |vs| == |fields|
    && (fields == [] || (Fitting(registry, fields[0], vs[0], done)
                         && FittingEach(registry, fields[1..], vs[1..], done + [vs[0]])))
  }

  // ---- its bytes

  function PartBytes(part: Part, v: PartValue, done: seq<PartValue>, compact: bool): bytes
    decreases part, 0, 0
  {
    match part
    case Fixed(width) => if v.Number? then ToLE(v.n, width) else []
    case OfClass(_) => if v.Tagged? then Encode(v.value, compact) else []
    case Counted(_, perEntry) =>
      if v.Elements? && perEntry > 0 then ToLE(|v.values| / perEntry, 4) + Flatten(EncodeEach(v.values, compact)) else []
    case Structs(fields) => if v.Records? then ToLE(|v.records|, 4) + RecordsBytes(fields, v.records, compact) else []
    case Inline(fields) => if v.Record? then FieldsBytes(fields, v.fields, [], compact) else []
    case Conditional(on, ifTrue, otherwise) =>
      if !IsChoice(done, on) then []
      else if done[on].n != 0 then PartBytes(ifTrue, v, done, compact) else PartBytes(otherwise, v, done, compact)
  }

  function RecordsBytes(fields: seq<Part>, records: seq<seq<PartValue>>, compact: bool): bytes
    decreases fields, 1, |records|
  {
    if records == [] then [] else FieldsBytes(fields, records[0], [], compact) + RecordsBytes(fields, records[1..], compact)
  }

  function FieldsBytes(fields: seq<Part>, vs: seq<PartValue>, done: seq<PartValue>, compact: bool): bytes
    decreases fields, 0, 0
  {
    if fields == [] || vs == [] then []
    else PartBytes(fields[0], vs[0], done, compact) + FieldsBytes(fields[1..], vs[1..], done + [vs[0]], compact)
  }

  // ---- its layout

  function PartLayout(part: Part, v: PartValue, done: seq<PartValue>, compact: bool): Layout
    decreases part, 0, 0
  {
    match part
    case Fixed(width) => FlatL(width)
    case OfClass(_) => if v.Tagged? then LayoutOf(v.value, compact) else NullL
    case Counted(_, _) => SeqL(4, if v.Elements? then LayoutsOf(v.values, compact) else [])
    case Structs(fields) => SeqL(4, if v.Records? then RecordLayouts(fields, v.records, compact) else [])
    case Inline(fields) => SeqL(0, if v.Record? then FieldLayouts(fields, v.fields, [], compact) else [])
    case Conditional(on, ifTrue, otherwise) =>
      if !IsChoice(done, on) then NullL
      else if done[on].n != 0 then PartLayout(ifTrue, v, done, compact) else PartLayout(otherwise, v, done, compact)
  }

  function RecordLayouts(fields: seq<Part>, records: seq<seq<PartValue>>, compact: bool): (ls: seq<Layout>)
    ensures |ls| == |records|
    decreases fields, 1, |records|
  {
    if records == [] then []
    else [SeqL(0, FieldLayouts(fields, records[0], [], compact))] + RecordLayouts(fields, records[1..], compact)
  }

  function FieldLayouts(fields: seq<Part>, vs: seq<PartValue>, done: seq<PartValue>, compact: bool): seq<Layout>
    decreases fields, 0, 0
  {
    if fields == [] || vs == [] then []
    else [PartLayout(fields[0], vs[0], done, compact)] + FieldLayouts(fields[1..], vs[1..], done + [vs[0]], compact)
  }

  // ---- parsing it

  /** The parser has passed the fields `done`, starting each where `starts` says. */
  ghost predicate Remembers(buf: bytes, starts: Context, done: seq<PartValue>) {
    |starts| == |done|
    && forall i :: 0 <= i < |done| && done[i].Number? ==> starts[i] < |buf| && buf[starts[i]] == done[i].n % 256
  }

  ghost predicate Passed(r: Result<(Layout, Cursor)>, layout: Layout, cur: Cursor, size: nat, compact: bool) {
    r.Ok? && r.value.0 == layout && r.value.1.pos == cur.pos + size && r.value.1.style != Some(!compact)
  }

  ghost predicate PassedAll(r: Result<(seq<Layout>, Cursor)>, layouts: seq<Layout>, cur: Cursor, size: nat, compact: bool) {
    r.Ok? && r.value.0 == layouts && r.value.1.pos == cur.pos + size && r.value.1.style != Some(!compact)
  }

  /** A field that a server sent is parsed into its layout, and the cursor ends right behind it. */
  lemma {:induction false} PartParses(registry: Registry, buf: bytes, part: Part, v: PartValue, done: seq<PartValue>,
                                      starts: Context, compact: bool, cur: Cursor)
    requires Fitting(registry, part, v, done) && Remembers(buf, starts, done)
    requires At(buf, cur.pos, PartBytes(part, v, done, compact)) && cur.style != Some(!compact)
    ensures Passed(ParsePart(registry, buf, part, starts, cur), PartLayout(part, v, done, compact), cur,
                   |PartBytes(part, v, done, compact)|, compact)
    decreases part, 0, 0
  {
    hide ToLE, FromLE, At, Slice, Encode, EncodeEach, LayoutOf, LayoutsOf, Parse, ParseEach, AllWellFormed, AllAgree,
         AllRegistered, Agrees, Registered, HasObject, AnyObject, Flatten, KindOf, FittingEach, AllFitting, FieldsBytes,
         RecordsBytes, FieldLayouts, RecordLayouts, ParseStruct, ParseStructs, FitsSigned;
    match part
    case Fixed(_) =>
    case OfClass(cls) => OneWellFormed(v.value, cls); ParseBack(registry, buf, v.value, cls, compact, cur);
    case Counted(element, perEntry) => CountedParses(registry, buf, element, perEntry, v.values, compact, cur);
    case Structs(fields) =>
      var count := ToLE(|v.records|, 4);
      CountAhead(buf, cur.pos, |v.records|, RecordsBytes(fields, v.records, compact));
      RecordsParse(registry, buf, fields, v.records, compact, Advance(cur, 4));
    case Inline(fields) =>
      NothingPassed(buf);
      FieldsParse(registry, buf, fields, v.fields, [], [], compact, cur);
    case Conditional(on, ifTrue, otherwise) =>
      OneByteChoice(done[on].n);
      PartParses(registry, buf, if done[on].n != 0 then ifTrue else otherwise, v, done, starts, compact, cur);
  }

  lemma OneWellFormed(v: Value, cls: Class)
    requires AllWellFormed([v], [cls])
    ensures WellFormed(v) && Accepts(cls, v) && (cls.Typed? ==> KindOf(cls.code) != UnknownKind)
  {
    hide WellFormed, KindOf;
    assert [v][0] == v && [cls][0] == cls;
  }

  lemma OneByteChoice(n: int)
    requires FitsSigned(n, 1)
    ensures n % 256 != 0 <==> n != 0
  {
    Widths();
  }

  lemma NothingPassed(buf: bytes)
    ensures Remembers(buf, [], [])
  {}

  lemma CountAhead(buf: bytes, pos: nat, n: nat, rest: bytes)
    requires At(buf, pos, ToLE(n, 4) + rest) && n < MAX_LENGTH
    ensures FromLE(Slice(buf, pos, 4)) == n && At(buf, pos + 4, rest)
  {
    hide ToLE, FromLE;
    AtSplit(buf, pos, ToLE(n, 4), rest);
    AtSlice(buf, pos, ToLE(n, 4), 0, 4);
    assert ToLE(n, 4)[0..4] == ToLE(n, 4);
    CountField(n);
  }

  lemma CountedParses(registry: Registry, buf: bytes, element: Class, perEntry: nat, vs: seq<Value>, compact: bool, cur: Cursor)
    requires Fitting(registry, Counted(element, perEntry), Elements(vs), []) && cur.style != Some(!compact)
    requires At(buf, cur.pos, ToLE(|vs| / perEntry, 4) + Flatten(EncodeEach(vs, compact)))
    ensures Passed(ParsePart(registry, buf, Counted(element, perEntry), [], cur), SeqL(4, LayoutsOf(vs, compact)), cur,
                   4 + |Flatten(EncodeEach(vs, compact))|, compact)
    ensures forall starts ::
      ParsePart(registry, buf, Counted(element, perEntry), starts, cur) == ParsePart(registry, buf, Counted(element, perEntry), [], cur)
  {
    hide ToLE, FromLE, At, Slice, EncodeEach, LayoutsOf, ParseEach, AllWellFormed, AllAgree, AllRegistered, AnyObject, Flatten;
    var n := |vs| / perEntry;
    CountAhead(buf, cur.pos, n, Flatten(EncodeEach(vs, compact)));
    assert n * perEntry == |vs|;
    ParseEachBack(registry, buf, vs, Repeat(element, |vs|), compact, Advance(cur, 4));
  }

  lemma {:induction false} RecordsParse(registry: Registry, buf: bytes, fields: seq<Part>, records: seq<seq<PartValue>>,
                                        compact: bool, cur: Cursor)
    requires AllFitting(registry, fields, records) && cur.style != Some(!compact)
    requires At(buf, cur.pos, RecordsBytes(fields, records, compact))
    ensures PassedAll(ParseStructs(registry, buf, fields, |records|, cur), RecordLayouts(fields, records, compact), cur,
                      |RecordsBytes(fields, records, compact)|, compact)
    decreases fields, 1, |records|
  {
    hide At, FittingEach, FieldsBytes, FieldLayouts, ParseStruct;
    if records != [] {
      var first, rest := FieldsBytes(fields, records[0], [], compact), RecordsBytes(fields, records[1..], compact);
      AtSplit(buf, cur.pos, first, rest);
      NothingPassed(buf);
      FieldsParse(registry, buf, fields, records[0], [], [], compact, cur);
      RecordsParse(registry, buf, fields, records[1..], compact, ParseStruct(registry, buf, fields, [], cur).value.1);
    }
  }

  /** The fields of a structure, one after another. */
  lemma {:induction false} FieldsParse(registry: Registry, buf: bytes, fields: seq<Part>, vs: seq<PartValue>,
                                       done: seq<PartValue>, starts: Context, compact: bool, cur: Cursor)
    requires FittingEach(registry, fields, vs, done) && Remembers(buf, starts, done) && cur.style != Some(!compact)
    requires At(buf, cur.pos, FieldsBytes(fields, vs, done, compact))
    ensures PassedAll(ParseStruct(registry, buf, fields, starts, cur), FieldLayouts(fields, vs, done, compact), cur,
                      |FieldsBytes(fields, vs, done, compact)|, compact)
    decreases fields, 0, 0
  {
    hide At, Fitting, PartBytes, PartLayout, ParsePart, Remembers;
    if fields != [] {
      var first, rest := PartBytes(fields[0], vs[0], done, compact), FieldsBytes(fields[1..], vs[1..], done + [vs[0]], compact);
      AtSplit(buf, cur.pos, first, rest);
      PartParses(registry, buf, fields[0], vs[0], done, starts, compact, cur);
      OneMorePassed(registry, buf, fields[0], vs[0], done, starts, compact, cur.pos);
      FieldsParse(registry, buf, fields[1..], vs[1..], done + [vs[0]], starts + [cur.pos], compact,
                  ParsePart(registry, buf, fields[0], starts, cur).value.1);
    }
  }

  lemma {:induction false} NumbersAreFixed(registry: Registry, part: Part, v: PartValue, done: seq<PartValue>, compact: bool)
    requires Fitting(registry, part, v, done) && v.Number?
    ensures PartBytes(part, v, done, compact) != [] && PartBytes(part, v, done, compact)[0] == v.n % 256
    decreases part
  {
    match part
    case Fixed(_) =>
    case Conditional(on, ifTrue, otherwise) =>
      NumbersAreFixed(registry, if done[on].n != 0 then ifTrue else otherwise, v, done, compact);
  }

  lemma OneMorePassed(registry: Registry, buf: bytes, part: Part, v: PartValue, done: seq<PartValue>, starts: Context,
                      compact: bool, pos: nat)
    requires Fitting(registry, part, v, done) && Remembers(buf, starts, done) && At(buf, pos, PartBytes(part, v, done, compact))
    ensures Remembers(buf, starts + [pos], done + [v])
  {
    if v.Number? {
      NumbersAreFixed(registry, part, v, done, compact);
      HeadAt(buf, pos, PartBytes(part, v, done, compact));
    }
    hide Fitting, PartBytes, At;
  }

  // ---- reading it

  /** `to_python` of a field; `seen` holds what the fields before it were read as. */
  function ReadPart(registry: Registry, part: Part, layout: Layout, bs: bytes, seen: seq<PartValue>): Result<PartValue>
    requires |bs| == Size(layout)
    decreases part, 0, 0
  {
    match part
    case Fixed(_) => Ok(Number(FromSignedLE(bs)))
    case OfClass(cls) =>
      var v := Read(registry, cls, layout, bs);
      if v.Err? then Err(v.error) else Ok(Tagged(v.value))
    case Counted(element, perEntry) =>
      if !layout.SeqL? || layout.header != 4 then Err(WrongLayout)
      else
        var vs := ReadEach(registry, Repeat(element, |layout.elems|), layout.elems, bs[4..]);
        if vs.Err? then Err(vs.error) else Kept(perEntry, vs.value)
    case Structs(fields) =>
      if !layout.SeqL? || layout.header != 4 then Err(WrongLayout)
      else
        var rs := ReadRecords(registry, fields, layout.elems, bs[4..]);
        if rs.Err? then Err(rs.error) else Ok(Records(rs.value))
    case Inline(fields) =>
      if !layout.SeqL? || layout.header != 0 then Err(WrongLayout)
      else
        var fs := ReadFields(registry, fields, layout.elems, bs, []);
        if fs.Err? then Err(fs.error) else Ok(Record(fs.value))
    case Conditional(on, ifTrue, otherwise) =>
      if on >= |seen| || !seen[on].Number? then Err(WrongLayout)
      else if seen[on].n != 0 then ReadPart(registry, ifTrue, layout, bs, seen)
      else ReadPart(registry, otherwise, layout, bs, seen)
  }

  function Kept(perEntry: nat, vs: seq<Value>): Result<PartValue> {
    var r := Collect(perEntry, vs);
    if r.Err? then Err(r.error) else Ok(Elements(r.value))
  }

  function ReadRecords(registry: Registry, fields: seq<Part>, layouts: seq<Layout>, bs: bytes): Result<seq<seq<PartValue>>>
    requires |bs| == SizeAll(layouts)
    decreases fields, 1, |layouts|
  {
    if layouts == [] then Ok([])
    else if !layouts[0].SeqL? || layouts[0].header != 0 then Err(WrongLayout)
    else
      var n := Size(layouts[0]);
      var first := ReadFields(registry, fields, layouts[0].elems, bs[..n], []);
      if first.Err? then Err(first.error)
      else
        var rest := ReadRecords(registry, fields, layouts[1..], bs[n..]);
        if rest.Err? then Err(rest.error) else Ok([first.value] + rest.value)
  }

  function ReadFields(registry: Registry, fields: seq<Part>, layouts: seq<Layout>, bs: bytes, seen: seq<PartValue>):
    Result<seq<PartValue>>
    requires |bs| == SizeAll(layouts)
    decreases fields, 0, 0
  {
    if fields == [] || layouts == [] then Ok([])
    else
      var n := Size(layouts[0]);
      var first := ReadPart(registry, fields[0], layouts[0], bs[..n], seen);
      if first.Err? then Err(first.error)
      else
        var rest := ReadFields(registry, fields[1..], layouts[1..], bs[n..], seen + [first.value]);
        if rest.Err? then Err(rest.error) else Ok([first.value] + rest.value)
  }

  // ---- what comes back

  /** What a client gets for a value in a field: numbers as they are, tagged values as a reader observes them. */
  function ObservedPart(part: Part, v: PartValue, done: seq<PartValue>): Result<PartValue>
    decreases part, 0, 0
  {
    match part
    case Fixed(_) => Ok(v)
    case OfClass(_) =>
      if !v.Tagged? then Err(WrongLayout)
      else var o := Observed(v.value); if o.Err? then Err(o.error) else Ok(Tagged(o.value))
    case Counted(_, perEntry) =>
      if !v.Elements? then Err(WrongLayout)
      else var os := ObservedEach(v.values); if os.Err? then Err(os.error) else Kept(perEntry, os.value)
    case Structs(fields) =>
      if !v.Records? then Err(WrongLayout)
      else var rs := ObservedRecords(fields, v.records); if rs.Err? then Err(rs.error) else Ok(Records(rs.value))
    case Inline(fields) =>
      if !v.Record? then Err(WrongLayout)
      else var fs := ObservedFields(fields, v.fields, []); if fs.Err? then Err(fs.error) else Ok(Record(fs.value))
    case Conditional(on, ifTrue, otherwise) =>
      if !IsChoice(done, on) then Err(WrongLayout)
      else if done[on].n != 0 then ObservedPart(ifTrue, v, done) else ObservedPart(otherwise, v, done)
  }

  function ObservedRecords(fields: seq<Part>, records: seq<seq<PartValue>>): Result<seq<seq<PartValue>>>
    decreases fields, 1, |records|
  {
    if records == [] then Ok([])
    else
      var first := ObservedFields(fields, records[0], []);
      if first.Err? then Err(first.error)
      else
        var rest := ObservedRecords(fields, records[1..]);
        if rest.Err? then Err(rest.error) else Ok([first.value] + rest.value)
  }

  function ObservedFields(fields: seq<Part>, vs: seq<PartValue>, done: seq<PartValue>): Result<seq<PartValue>>
    decreases fields, 0, 0
  {
    if fields == [] || vs == [] then Ok([])
    else
      var first := ObservedPart(fields[0], vs[0], done);
      if first.Err? then Err(first.error)
      else
        var rest := ObservedFields(fields[1..], vs[1..], done + [vs[0]]);
        if rest.Err? then Err(rest.error) else Ok([first.value] + rest.value)
  }

  /** The numbers were read as they were sent. */
  ghost predicate SameNumbers(done: seq<PartValue>, seen: seq<PartValue>) {
    |done| == |seen| && forall i :: 0 <= i < |done| && done[i].Number? ==> seen[i] == done[i]
  }

  lemma {:induction false} NumbersAreObserved(registry: Registry, part: Part, v: PartValue, done: seq<PartValue>)
    requires Fitting(registry, part, v, done) && v.Number?
    ensures ObservedPart(part, v, done) == Ok(v)
    decreases part
  {
    match part
    case Fixed(_) =>
    case Conditional(on, ifTrue, otherwise) =>
      NumbersAreObserved(registry, if done[on].n != 0 then ifTrue else otherwise, v, done);
  }

  /** Interpreting a field's own bytes under its layout gives what a client observes of it. */
  lemma {:induction false} PartReads(registry: Registry, part: Part, v: PartValue, done: seq<PartValue>, seen: seq<PartValue>,
                                     compact: bool)
    requires Fitting(registry, part, v, done) && SameNumbers(done, seen)
    ensures |PartBytes(part, v, done, compact)| == Size(PartLayout(part, v, done, compact))
    ensures ReadPart(registry, part, PartLayout(part, v, done, compact), PartBytes(part, v, done, compact), seen)
         == ObservedPart(part, v, done)
    decreases part, 0, 0
  {
    hide ToLE, FromSignedLE, Encode, EncodeEach, LayoutOf, LayoutsOf, Read, ReadEach, AllWellFormed, AllAgree, AllRegistered,
         Agrees, Registered, Flatten, KindOf, FittingEach, AllFitting, FieldsBytes, RecordsBytes, FieldLayouts, RecordLayouts,
         ReadFields, ReadRecords, FitsSigned, Observed, ObservedEach, ObservedFields, ObservedRecords, Collect;
    match part
    case Fixed(width) => SignedBack(v.n, width);
    case OfClass(cls) => OneWellFormed(v.value, cls); ReadBack(registry, v.value, cls, compact);
    case Counted(element, perEntry) =>
      ReadEachBack(registry, v.values, Repeat(element, |v.values|), compact);
      Behind(ToLE(|v.values| / perEntry, 4), Flatten(EncodeEach(v.values, compact)));
    case Structs(fields) =>
      RecordsRead(registry, fields, v.records, compact);
      Behind(ToLE(|v.records|, 4), RecordsBytes(fields, v.records, compact));
    case Inline(fields) => FieldsRead(registry, fields, v.fields, [], [], compact);
    case Conditional(on, ifTrue, otherwise) =>
      PartReads(registry, if done[on].n != 0 then ifTrue else otherwise, v, done, seen, compact);
  }

  lemma Behind(front: bytes, rest: bytes)
    ensures (front + rest)[|front|..] == rest
  {}

  lemma {:induction false} RecordsRead(registry: Registry, fields: seq<Part>, records: seq<seq<PartValue>>, compact: bool)
    requires AllFitting(registry, fields, records)
    ensures |RecordsBytes(fields, records, compact)| == SizeAll(RecordLayouts(fields, records, compact))
    ensures ReadRecords(registry, fields, RecordLayouts(fields, records, compact), RecordsBytes(fields, records, compact))
         == ObservedRecords(fields, records)
    decreases fields, 1, |records|
  {
    hide FittingEach, FieldsBytes, FieldLayouts, ReadFields, ObservedFields;
    if records != [] {
      var first, rest := FieldsBytes(fields, records[0], [], compact), RecordsBytes(fields, records[1..], compact);
      FieldsRead(registry, fields, records[0], [], [], compact);
      RecordsRead(registry, fields, records[1..], compact);
      assert (first + rest)[..|first|] == first && (first + rest)[|first|..] == rest;
    }
  }

  lemma {:induction false} FieldsRead(registry: Registry, fields: seq<Part>, vs: seq<PartValue>, done: seq<PartValue>,
                                      seen: seq<PartValue>, compact: bool)
    requires FittingEach(registry, fields, vs, done) && SameNumbers(done, seen)
    ensures |FieldsBytes(fields, vs, done, compact)| == SizeAll(FieldLayouts(fields, vs, done, compact))
    ensures ReadFields(registry, fields, FieldLayouts(fields, vs, done, compact), FieldsBytes(fields, vs, done, compact), seen)
         == ObservedFields(fields, vs, done)
    decreases fields, 0, 0
  {
    hide Fitting, PartBytes, PartLayout, ReadPart, ObservedPart;
    if fields != [] {
      var first, rest := PartBytes(fields[0], vs[0], done, compact), FieldsBytes(fields[1..], vs[1..], done + [vs[0]], compact);
      PartReads(registry, fields[0], vs[0], done, seen, compact);
      var o := ObservedPart(fields[0], vs[0], done);
      if vs[0].Number? { NumbersAreObserved(registry, fields[0], vs[0], done); }
      FieldsRead(registry, fields[1..], vs[1..], done + [vs[0]], seen + [if o.Ok? then o.value else vs[0]], compact);
      assert (first + rest)[..|first|] == first && (first + rest)[|first|..] == rest;
    }
  }

  // ---- whole responses

  /** A response that is not a SQL result: the request it answers, a new affinity version if the topology changed, and
      the fields of the operation or an error. */
  datatype Answer = Success(values: seq<PartValue>) | Failure(status: int, message: Value)

  datatype Response = Response(queryId: int, topology: Option<(int, int)>, answer: Answer)

  /** What a server can send; protocols without flags announce no topology. */
  ghost predicate Servable(registry: Registry, r: Response, following: seq<Part>, statusFlags: bool) {
    && FitsSigned(r.queryId, 8) && (r.topology.Some? ==> statusFlags)
    && (r.topology.Some? ==> FitsSigned(r.topology.value.0, 8) && FitsSigned(r.topology.value.1, 4))
    && match r.answer
       case Success(values) => FittingEach(registry, following, values, [])
       case Failure(status, message) => status != 0 && FitsSigned(status, 4) && message.Str? && |message.utf8| < MAX_LENGTH
  }

  function TopologyBytes(r: Response): bytes {
    if r.topology.Some? then ToLE(r.topology.value.0, 8) + ToLE(r.topology.value.1, 4) else []
  }

  /** Length, request, then flags with what they announce, or a status code in older protocols. */
  function HeaderBytes(length: int, r: Response, statusFlags: bool): bytes {
    var status := if r.answer.Failure? then r.answer.status else 0;
    ToLE(length, 4) + ToLE(r.queryId, 8)
    + if statusFlags then
        ToLE((if r.answer.Failure? then 1 else 0) + (if r.topology.Some? then 2 else 0), 2)
        + TopologyBytes(r) + if r.answer.Failure? then ToLE(status, 4) else []
      else ToLE(status, 4)
  }

  function AnswerBytes(r: Response, following: seq<Part>, compact: bool): bytes {
    match r.answer
    case Success(values) => FieldsBytes(following, values, [], compact)
    case Failure(_, message) => Encode(message, compact)
  }

  function ResponseBytes(length: int, r: Response, following: seq<Part>, statusFlags: bool, compact: bool): bytes {
    HeaderBytes(length, r, statusFlags) + AnswerBytes(r, following, compact)
  }

  /** `APIResult` and `to_python` of a parsed response over its bytes. */
  function ReadResponse(registry: Registry, p: Parsed, following: seq<Part>, statusFlags: bool, bs: bytes): Result<Response>
    requires |bs| == SizeOfResponse(p) && |bs| >= HeaderLength(statusFlags)
  {
    var n := HeaderLength(statusFlags);
    var (extra, failed) := Announced(bs, 0, statusFlags);
    if |p.fields| == 0 || Size(p.fields[0]) != extra || p.header != n then Err(WrongLayout)
    else
      var at := n + extra;
      var changed := statusFlags && HasFlag(FromLE(bs[12..14]), RHF_TOPOLOGY_CHANGED);
      var topology := if changed then Some((FromSignedLE(bs[14..22]), FromSignedLE(bs[22..26]))) else None;
      var queryId := FromSignedLE(bs[4..12]);
      if failed then
        var status := FromSignedLE(bs[at - 4..at]);
        if |p.fields| != 2 then Err(WrongLayout)
        else
          assert SizeAll(p.fields[1..]) == Size(p.fields[1]) by { SizeAllOne(p.fields[1]); assert p.fields[1..] == [p.fields[1]]; }
          var message := Read(registry, Typed(TC_STRING), p.fields[1], bs[at..]);
          if message.Err? then Err(message.error) else Ok(Response(queryId, topology, Failure(status, message.value)))
      else
        var values := ReadFields(registry, following, p.fields[1..], bs[at..], []);
        if values.Err? then Err(values.error) else Ok(Response(queryId, topology, Success(values.value)))
  }

  /** Parse, seek behind the response, read it backward, interpret it. */
  function DecodeResponse(registry: Registry, buf: bytes, following: seq<Part>, statusFlags: bool, cur: Cursor):
    Result<(Response, nat)>
  {
    var p := ParseResponse(registry, buf, statusFlags, Plain(following), cur);
    if p.Err? then Err(p.error)
    else
      var end := cur.pos + SizeOfResponse(p.value);
      var bs := ReadBackward(buf, end, SizeOfResponse(p.value));
      if bs.Err? then Err(bs.error)
      else if |bs.value| < HeaderLength(statusFlags) then Err(WrongLayout)
      else
        var r := ReadResponse(registry, p.value, following, statusFlags, bs.value);
        if r.Err? then Err(r.error) else Ok((r.value, end))
  }

  /** What a client makes of the answer. */
  function ObservedAnswer(r: Response, following: seq<Part>): Result<Response> {
    match r.answer
    case Success(values) =>
      var o := ObservedFields(following, values, []);
      if o.Err? then Err(o.error) else Ok(r.(answer := Success(o.value)))
    case Failure(status, message) =>
      var o := Observed(message);
      if o.Err? then Err(o.error) else Ok(r.(answer := Failure(status, o.value)))
  }

  function ExtraOf(r: Response): nat {
    (if r.topology.Some? then 12 else 0) + if r.answer.Failure? then 4 else 0
  }

  lemma FlagField(error: bool, changed: bool)
    ensures var flags := (if error then 1 else 0) + if changed then 2 else 0;
      FromLE(ToLE(flags, 2)) == flags && (HasFlag(flags, RHF_ERROR) <==> error) && (HasFlag(flags, RHF_TOPOLOGY_CHANGED) <==> changed)
  {
    Widths();
    FromToLENat((if error then 1 else 0) + if changed then 2 else 0, 2);
  }

  /** Where the header's fields stand. */
  lemma HeaderFields(length: int, r: Response, statusFlags: bool)
    requires r.topology.Some? ==> statusFlags
    ensures var h := HeaderBytes(length, r, statusFlags);
      var status := if r.answer.Failure? then r.answer.status else 0;
      && h[4..12] == ToLE(r.queryId, 8)
      && (if statusFlags then
            && |h| == 14 + ExtraOf(r)
            && h[12..14] == ToLE((if r.answer.Failure? then 1 else 0) + (if r.topology.Some? then 2 else 0), 2)
            && (r.topology.Some? ==> h[14..22] == ToLE(r.topology.value.0, 8) && h[22..26] == ToLE(r.topology.value.1, 4))
            && (r.answer.Failure? ==> h[|h| - 4..] == ToLE(status, 4))
          else |h| == 16 && h[12..16] == ToLE(status, 4))
  {
    hide ToLE;
  }

  lemma HeaderAnnounces(buf: bytes, pos: nat, length: int, r: Response, statusFlags: bool)
    requires At(buf, pos, HeaderBytes(length, r, statusFlags)) && (r.topology.Some? ==> statusFlags)
    requires r.answer.Failure? ==> r.answer.status != 0 && FitsSigned(r.answer.status, 4)
    ensures |HeaderBytes(length, r, statusFlags)| == HeaderLength(statusFlags) + if statusFlags then ExtraOf(r) else 0
    ensures pos + HeaderLength(statusFlags) <= |buf|
    ensures Announced(buf, pos, statusFlags) == (if statusFlags then ExtraOf(r) else 0, r.answer.Failure?)
  {
    var h := HeaderBytes(length, r, statusFlags);
    HeaderFields(length, r, statusFlags);
    FlagField(r.answer.Failure?, r.topology.Some?);
    CountField(0);
    hide ToLE, FromLE, FromSignedLE, HasFlag, HeaderBytes, FitsSigned;
    if statusFlags {
      SliceOfSlice(buf, pos, pos + |h|, 12, 2);
    } else {
      SliceOfSlice(buf, pos, pos + |h|, 12, 4);
      if r.answer.Failure? { SignedBack(r.answer.status, 4); }
    }
  }

  function AnswerLayouts(r: Response, following: seq<Part>, compact: bool): seq<Layout> {
    match r.answer
    case Success(values) => FieldLayouts(following, values, [], compact)
    case Failure(_, message) => [LayoutOf(message, compact)]
  }

  lemma MessageFits(registry: Registry, message: Value)
    requires message.Str? && |message.utf8| < MAX_LENGTH
    ensures WellFormed(message) && Accepts(Typed(TC_STRING), message) && KindOf(TC_STRING) != UnknownKind
    ensures Agrees(registry, message) && Registered(registry, message) && !HasObject(message)
  {
    KindsOfCodes();
    hide KindOf;
  }

  /** The whole response is parsed to its last byte. */
  lemma ResponseParses(registry: Registry, buf: bytes, cur: Cursor, length: int, r: Response, following: seq<Part>,
                       statusFlags: bool, compact: bool)
    requires Servable(registry, r, following, statusFlags) && cur.style != Some(!compact)
    requires At(buf, cur.pos, ResponseBytes(length, r, following, statusFlags, compact))
    ensures var p := ParseResponse(registry, buf, statusFlags, Plain(following), cur);
      && p.Ok? && p.value.header == HeaderLength(statusFlags)
      && p.value.fields == [FlatL(if statusFlags then ExtraOf(r) else 0)] + AnswerLayouts(r, following, compact)
      && SizeOfResponse(p.value) == |ResponseBytes(length, r, following, statusFlags, compact)|
  {
    hide At, HeaderBytes, FieldsBytes, FieldLayouts, FittingEach, ParseStruct, Parse, Encode, LayoutOf, WellFormed, Agrees,
         Registered, HasObject, KindOf, Announced, SizeAll, ExtraOf, FitsSigned;
    var h := HeaderBytes(length, r, statusFlags);
    AtSplit(buf, cur.pos, h, AnswerBytes(r, following, compact));
    HeaderAnnounces(buf, cur.pos, length, r, statusFlags);
    var start := Advance(cur, |h|);
    match r.answer
    case Success(values) =>
      NothingPassed(buf);
      FieldsParse(registry, buf, following, values, [], [], compact, start);
    case Failure(_, message) =>
      MessageFits(registry, message);
      ParseBack(registry, buf, message, Typed(TC_STRING), compact, start);
  }

  lemma ResponseIsRead(registry: Registry, p: Parsed, length: int, r: Response, following: seq<Part>, statusFlags: bool,
                       compact: bool)
    requires Servable(registry, r, following, statusFlags) && p.header == HeaderLength(statusFlags)
    requires p.fields == [FlatL(if statusFlags then ExtraOf(r) else 0)] + AnswerLayouts(r, following, compact)
    requires SizeOfResponse(p) == |ResponseBytes(length, r, following, statusFlags, compact)| >= HeaderLength(statusFlags)
    ensures ReadResponse(registry, p, following, statusFlags, ResponseBytes(length, r, following, statusFlags, compact))
         == ObservedAnswer(r, following)
  {
    hide ToLE, FromLE, FromSignedLE, HeaderBytes, FieldsBytes, FieldLayouts, FittingEach, ReadFields, Read, Encode, LayoutOf,
         WellFormed, Agrees, Registered, KindOf, SizeAll, FitsSigned, HasFlag, ObservedFields, Observed, Announced,
         SizeOfResponse;
    var h, b := HeaderBytes(length, r, statusFlags), AnswerBytes(r, following, compact);
    var bs := h + b;
    assert bs == ResponseBytes(length, r, following, statusFlags, compact);
    assert At(bs, 0, h) by { assert bs[0..|h|] == h; }
    HeaderAnnounces(bs, 0, length, r, statusFlags);
    HeaderFields(length, r, statusFlags);
    FlagField(r.answer.Failure?, r.topology.Some?);
    FrontSlices(h, b);
    SignedBack(r.queryId, 8);
    if r.topology.Some? { SignedBack(r.topology.value.0, 8); SignedBack(r.topology.value.1, 4); }
    Behind(h, b);
    assert p.fields[1..] == AnswerLayouts(r, following, compact);
    match r.answer
    case Success(values) => FieldsRead(registry, following, values, [], [], compact);
    case Failure(status, message) =>
      SignedBack(status, 4);
      MessageFits(registry, message);
      ReadBack(registry, message, Typed(TC_STRING), compact);
  }

  lemma FrontSlices(h: bytes, b: bytes)
    ensures forall i, j :: 0 <= i <= j <= |h| ==> (h + b)[i..j] == h[i..j]
  {}

  /** Anywhere in a buffer, whatever surrounds it: a response of a server, success or failure, with or without a change of
      topology, is read as what a client observes of its answer, with the position exactly behind it. */
  lemma ResponseReadsBack(registry: Registry, pre: bytes, length: int, r: Response, following: seq<Part>, post: bytes,
                          statusFlags: bool, compact: bool, style: Option<bool>)
    requires Servable(registry, r, following, statusFlags) && style != Some(!compact)
    ensures var bs, o := ResponseBytes(length, r, following, statusFlags, compact), ObservedAnswer(r, following);
      DecodeResponse(registry, pre + bs + post, following, statusFlags, Cursor(|pre|, style))
      == if o.Err? then Err(o.error) else Ok((o.value, |pre| + |bs|))
  {
    hide Servable, ResponseBytes, AnswerLayouts, ParseResponse, ReadResponse, SizeOfResponse, ObservedAnswer, ExtraOf;
    var bs := ResponseBytes(length, r, following, statusFlags, compact);
    var buf := pre + bs + post;
    AtMiddle(pre, bs, post);
    ResponseParses(registry, buf, Cursor(|pre|, style), length, r, following, statusFlags, compact);
    var p := ParseResponse(registry, buf, statusFlags, Plain(following), Cursor(|pre|, style)).value;
    assert buf[|pre|..|pre| + |bs|] == bs;
    LongEnough(length, r, following, statusFlags, compact);
    ResponseIsRead(registry, p, length, r, following, statusFlags, compact);
  }

  lemma LongEnough(length: int, r: Response, following: seq<Part>, statusFlags: bool, compact: bool)
    ensures |ResponseBytes(length, r, following, statusFlags, compact)| >= HeaderLength(statusFlags)
  {
    hide ToLE, AnswerBytes;
  }
}
