/** Whole responses: flag-dependent headers, structures of payload fields, and the rows and columns of SQL results. */
module Responses {
  import opened Bytes
  import opened Values
  import opened Layouts
  import opened Interpret
  import opened RoundTrip
  import opened Exactness
  import opened BinaryStreams
  import opened Reader

  /** A field of a response structure. Unlike tagged values, most carry no type code. */
  datatype Part =
    | Fixed(width: nat)                                   // Byte, Bool, Short, Int, Long
    | OfClass(cls: Class)
    | Counted(element: Class, perEntry: nat)              // payload-only arrays, lists and maps
    | Structs(fields: seq<Part>)                          // StructArray
    | Inline(fields: seq<Part>)                           // Struct
    | Conditional(on: nat, ifTrue: Part, otherwise: Part) // chosen by an earlier Bool field

  /** What `Struct.parse` remembers of the fields it has passed: where each started. */
  type Context = seq<nat>

  /** The condition field, read backward as a `c_bool`. */
  function ConditionHolds(buf: bytes, starts: Context, on: nat): Result<bool> {
    if on >= |starts| || starts[on] >= |buf| then Err(BufferTooSmall) else Ok(buf[starts[on]] != 0)
  }

  function ParsePart(registry: Registry, buf: bytes, part: Part, starts: Context, cur: Cursor): (r: Result<(Layout, Cursor)>)
    ensures r.Ok? ==> r.value.1.pos == cur.pos + Size(r.value.0)
    decreases part, 0, 0
  {
    match part
    case Fixed(width) => Ok((FlatL(width), Advance(cur, width)))
    case OfClass(cls) => Parse(registry, buf, cls, cur)
    case Counted(element, perEntry) =>
      var count := FromLE(Slice(buf, cur.pos, 4));
      var r := ParseEach(registry, buf, Repeat(element, count * perEntry), Advance(cur, 4));
      if r.Err? then Err(r.error) else Ok((SeqL(4, r.value.0), r.value.1))
    case Structs(fields) =>
      var r := ParseStructs(registry, buf, fields, FromLE(Slice(buf, cur.pos, 4)), Advance(cur, 4));
      if r.Err? then Err(r.error) else Ok((SeqL(4, r.value.0), r.value.1))
    case Inline(fields) =>
      var r := ParseStruct(registry, buf, fields, [], cur);
      if r.Err? then Err(r.error) else Ok((SeqL(0, r.value.0), r.value.1))
    case Conditional(on, ifTrue, otherwise) =>
      var c := ConditionHolds(buf, starts, on);
      if c.Err? then Err(c.error)
      else if c.value then ParsePart(registry, buf, ifTrue, starts, cur)
      else ParsePart(registry, buf, otherwise, starts, cur)
  }

  /** `count` structures one after another. */
  function ParseStructs(registry: Registry, buf: bytes, fields: seq<Part>, count: nat, cur: Cursor):
    (r: Result<(seq<Layout>, Cursor)>)
    ensures r.Ok? ==> r.value.1.pos == cur.pos + SizeAll(r.value.0)
    decreases fields, 1, count
  {
    if count == 0 then Ok(([], cur))
    else
      var first := ParseStruct(registry, buf, fields, [], cur);
      if first.Err? then Err(first.error)
      else
        var rest := ParseStructs(registry, buf, fields, count - 1, first.value.1);
        if rest.Err? then Err(rest.error)
        else Ok(([SeqL(0, first.value.0)] + rest.value.0, rest.value.1))
  }

  /** `Struct.parse`, with the start of every field passed so far in `starts`. */
  function ParseStruct(registry: Registry, buf: bytes, fields: seq<Part>, starts: Context, cur: Cursor):
    (r: Result<(seq<Layout>, Cursor)>)
    ensures r.Ok? ==> r.value.1.pos == cur.pos + SizeAll(r.value.0) && |r.value.0| == |fields|
    decreases fields, 0, 0
  {
    if fields == [] then Ok(([], cur))
    else
      var first := ParsePart(registry, buf, fields[0], starts, cur);
      if first.Err? then Err(first.error)
      else
        var rest := ParseStruct(registry, buf, fields[1..], starts + [cur.pos], first.value.1);
        if rest.Err? then Err(rest.error)
        else Ok(([first.value.0] + rest.value.0, rest.value.1))
  }

  // ---- headers

  const RHF_ERROR: nat := 1
  const RHF_TOPOLOGY_CHANGED: nat := 2

  /** What follows a successful header. */
  datatype Body =
    | Plain(following: seq<Part>)
    | Sql(includeFieldNames: bool, hasCursor: bool)

  function HeaderLength(statusFlags: bool): nat {
    if statusFlags then 14 else 16
  }

  /** The fields that the header flags announce, and whether an error message follows. */
  function Announced(buf: bytes, pos: nat, statusFlags: bool): (nat, bool)
    requires pos + HeaderLength(statusFlags) <= |buf|
  {
    if statusFlags then
      var flags := FromLE(buf[pos + 12..pos + 14]);
      ((if HasFlag(flags, RHF_TOPOLOGY_CHANGED) then 12 else 0) + (if HasFlag(flags, RHF_ERROR) then 4 else 0),
       HasFlag(flags, RHF_ERROR))
    else (0, FromSignedLE(buf[pos + 12..pos + 16]) != 0)
  }

  /** The body structure in front of its last field, the row count. */
  function SqlHead(includeFieldNames: bool, hasCursor: bool): seq<Part> {
    (if hasCursor then [Fixed(8)] else [])
    + [if includeFieldNames then Counted(Typed(TC_STRING), 1) else Fixed(4)]
  }

  /** `rowCount` rows of `columns` tagged values. */
  function ParseRows(registry: Registry, buf: bytes, rowCount: nat, columns: nat, cur: Cursor):
    (r: Result<(seq<Layout>, Cursor)>)
    ensures r.Ok? ==> r.value.1.pos == cur.pos + SizeAll(r.value.0) && |r.value.0| == rowCount
    decreases rowCount
  {
    if rowCount == 0 then Ok(([], cur))
    else
      var row := ParseEach(registry, buf, Repeat(Any, columns), cur);
      if row.Err? then Err(row.error)
      else
        var rest := ParseRows(registry, buf, rowCount - 1, columns, row.value.1);
        if rest.Err? then Err(rest.error)
        else Ok(([SeqL(0, row.value.0)] + rest.value.0, rest.value.1))
  }

  function Positive(n: int): nat {
    if n < 0 then 0 else n
  }

  /** The row and column counts, as the body read backward shows them; a negative count is an empty range. */
  function SqlCounts(buf: bytes, hasCursor: bool, start: nat, rowCountAt: nat): (nat, nat)
    requires rowCountAt + 4 <= |buf|
  {
    (Positive(FromSignedLE(buf[rowCountAt..rowCountAt + 4])),
     Positive(FromSignedLE(Slice(buf, start + if hasCursor then 8 else 0, 4))))
  }

  /** A parsed response: the layouts of the fields behind the fixed header, and how far the parsers went. */
  datatype Parsed = Parsed(header: nat, fields: seq<Layout>, reached: nat)

  /** `ctypes.sizeof` of the final response class. */
  function SizeOfResponse(p: Parsed): nat {
    p.header + SizeAll(p.fields)
  }

  lemma {:induction false} SizeAllAppend(a: seq<Layout>, b: seq<Layout>)
    ensures SizeAll(a + b) == SizeAll(a) + SizeAll(b)
    decreases |a|
  {
    if a == [] {
      assert a + b == b;
    } else {
      SizeAllAppend(a[1..], b);
      assert (a + b)[1..] == a[1..] + b;
    }
  }

  function ParseBody(registry: Registry, buf: bytes, body: Body, cur: Cursor): (r: Result<(seq<Layout>, Cursor)>)
    ensures r.Ok? ==> SizeAll(r.value.0) == r.value.1.pos - cur.pos + if body.Sql? then 1 else 0
  {
    match body
    case Plain(following) => ParseStruct(registry, buf, following, [], cur)
    case Sql(includeFieldNames, hasCursor) =>
      var head := ParseStruct(registry, buf, SqlHead(includeFieldNames, hasCursor), [], cur);
      if head.Err? then Err(head.error)
      else if head.value.1.pos + 4 > |buf| then Err(BufferTooSmall)
      else
        var (rowCount, columns) := SqlCounts(buf, hasCursor, cur.pos, head.value.1.pos);
        var rows := ParseRows(registry, buf, rowCount, columns, Advance(head.value.1, 4));
        if rows.Err? then Err(rows.error)
        else
          var data := [FlatL(4), SeqL(0, rows.value.0), FlatL(1)];
          SizeAllAppend(head.value.0, data);
          SizeAllThree(FlatL(4), SeqL(0, rows.value.0), FlatL(1));
          Ok((head.value.0 + data, rows.value.1))
  }

  lemma SizeAllThree(a: Layout, b: Layout, c: Layout)
    ensures SizeAll([a, b, c]) == Size(a) + Size(b) + Size(c)
  {
    SizeAllOne(c);
    assert [a, b, c][1..] == [b, c] && [b, c][1..] == [c];
    assert SizeAll([b, c]) == Size(b) + SizeAll([c]);
  }

  /** `Response.parse` up to the final seek, to `init_pos + sizeof(response_class)`: it passes over nothing that was not
      laid out, and stays where the parsers stopped or steps over the `more` byte of a successful SQL result. */
  function ParseResponse(registry: Registry, buf: bytes, statusFlags: bool, body: Body, cur: Cursor): (r: Result<Parsed>)
    ensures r.Ok? ==> cur.pos + HeaderLength(statusFlags) <= |buf|
    ensures r.Ok? ==>
      cur.pos + SizeOfResponse(r.value) == r.value.reached + Unvisited(body, Announced(buf, cur.pos, statusFlags).1)
  {
    var n := HeaderLength(statusFlags);
    if cur.pos + n > |buf| then Err(BufferTooSmall)
    else
      var (extra, hasError) := Announced(buf, cur.pos, statusFlags);
      var start := Advance(cur, n + extra);
      if hasError then
        var message := Parse(registry, buf, Typed(TC_STRING), start);
        if message.Err? then Err(message.error)
        else
          SizeAllAppend([FlatL(extra)], [message.value.0]);
          SizeAllOne(FlatL(extra));
          SizeAllOne(message.value.0);
          Ok(Parsed(n, [FlatL(extra), message.value.0], message.value.1.pos))
      else
        var r := ParseBody(registry, buf, body, start);
        if r.Err? then Err(r.error)
        else
          SizeAllAppend([FlatL(extra)], r.value.0);
          SizeAllOne(FlatL(extra));
          Ok(Parsed(n, [FlatL(extra)] + r.value.0, r.value.1.pos))
  }

  lemma SizeAllOne(a: Layout)
    ensures SizeAll([a]) == Size(a)
  {
    assert [a][1..] == [];
  }

  /** The bytes laid out behind the last parsed one: the `more` byte of a successful SQL result. */
  function Unvisited(body: Body, hasError: bool): nat {
    if body.Sql? && !hasError then 1 else 0
  }

  // ---- rows

  /** `to_python` of the rows. */
  function ReadRows(registry: Registry, layouts: seq<Layout>, bs: bytes): Result<seq<seq<Value>>>
    requires |bs| == SizeAll(layouts)
    decreases |layouts|
  {
    if layouts == [] then Ok([])
    else
      var n := Size(layouts[0]);
      if !layouts[0].SeqL? || layouts[0].header != 0 then Err(WrongLayout)
      else
        var cells := layouts[0].elems;
        var row := ReadEach(registry, Repeat(Any, |cells|), cells, bs[..n]);
        if row.Err? then Err(row.error)
        else
          var rest := ReadRows(registry, layouts[1..], bs[n..]);
          if rest.Err? then Err(rest.error) else Ok([row.value] + rest.value)
  }

  /** The rows as the server writes them, cell after cell. */
  function EncodeRows(rows: seq<seq<Value>>, compact: bool): bytes {
    if rows == [] then [] else Flatten(EncodeEach(rows[0], compact)) + EncodeRows(rows[1..], compact)
  }

  function RowLayouts(rows: seq<seq<Value>>, compact: bool): (ls: seq<Layout>)
    ensures |ls| == |rows|
  {
    if rows == [] then [] else [SeqL(0, LayoutsOf(rows[0], compact))] + RowLayouts(rows[1..], compact)
  }

  ghost predicate Table(registry: Registry, rows: seq<seq<Value>>, columns: nat) {
    forall r :: r in rows ==>
      AllWellFormed(r, Repeat(Any, columns)) && AllAgree(registry, r) && AllRegistered(registry, r)
  }

  ghost predicate AllRowsClean(rows: seq<seq<Value>>) {
    forall i :: 0 <= i < |rows| ==> AllClean(rows[i], Server)
  }

  /** The representative of all equal tables. */
  function PlainRows(rows: seq<seq<Value>>): (ps: seq<seq<Value>>)
    ensures |ps| == |rows|
  {
    if rows == [] then [] else [PlainEach(rows[0])] + PlainRows(rows[1..])
  }

  /** A table of values written row by row is parsed into rows of that shape, from any position. */
  lemma {:induction false} RowsParseBack(registry: Registry, buf: bytes, rows: seq<seq<Value>>, columns: nat, compact: bool, cur: Cursor)
    requires Table(registry, rows, columns) && cur.style != Some(!compact)
    requires At(buf, cur.pos, EncodeRows(rows, compact))
    ensures var r := ParseRows(registry, buf, |rows|, columns, cur);
      r.Ok? && r.value.0 == RowLayouts(rows, compact) && r.value.1.pos == cur.pos + |EncodeRows(rows, compact)|
      && r.value.1.style != Some(!compact)
    decreases |rows|
  {
    hide ParseEach, AllWellFormed, AllAgree, AllRegistered, EncodeEach, At, LayoutsOf, Flatten, AnyObject;
    if rows != [] {
      var row := rows[0];
      assert row in rows;
      AtSplit(buf, cur.pos, Flatten(EncodeEach(row, compact)), EncodeRows(rows[1..], compact));
      ParseEachBack(registry, buf, row, Repeat(Any, columns), compact, cur);
      var next := ParseEach(registry, buf, Repeat(Any, columns), cur).value.1;
      assert forall r :: r in rows[1..] ==> r in rows;
      RowsParseBack(registry, buf, rows[1..], columns, compact, next);
    }
  }

  /** Reading the parsed rows returns an equal table exactly when every cell is clean as a server sent it. */
  lemma {:induction false} RowsReadBack(registry: Registry, rows: seq<seq<Value>>, columns: nat, compact: bool)
    requires Table(registry, rows, columns)
    ensures SizeAll(RowLayouts(rows, compact)) == |EncodeRows(rows, compact)|
    ensures var r := ReadRows(registry, RowLayouts(rows, compact), EncodeRows(rows, compact));
      (r == Ok(PlainRows(rows)) <==> AllRowsClean(rows)) && (r.Ok? ==> PlainRows(r.value) == r.value)
    decreases |rows|
  {
    if rows != [] {
      hide ReadRows, SizeAll, Size, ReadEach, RowLayouts, EncodeRows, AllWellFormed, AllAgree, AllRegistered, EncodeEach,
           LayoutsOf, Flatten, ObservedEach, AllClean, AllRowsClean, PlainEach, AllPlain;
      var row, rest := rows[0], rows[1..];
      assert row in rows;
      assert forall r :: r in rest ==> r in rows;
      RowsReadBack(registry, rest, columns, compact);
      RowsCleanStep(rows);
      FirstRowRead(registry, rows, columns, compact);
      WellFormedLength(row, columns);
      ListObserved(row, Repeat(Any, columns), Server);
      var first, others := ObservedEach(row), ReadRows(registry, RowLayouts(rest, compact), EncodeRows(rest, compact));
      if first.Ok? && others.Ok? {
        SameHeadAndTail(first.value, others.value, PlainEach(row), PlainRows(rest));
        ObservedEachIsPlain(row);
        AllPlainIsPlainEach(first.value);
        assert ([first.value] + others.value)[1..] == others.value;
      }
    }
  }

  lemma FirstRowRead(registry: Registry, rows: seq<seq<Value>>, columns: nat, compact: bool)
    requires rows != [] && AllWellFormed(rows[0], Repeat(Any, columns)) && AllAgree(registry, rows[0])
    requires AllRegistered(registry, rows[0])
    requires SizeAll(RowLayouts(rows[1..], compact)) == |EncodeRows(rows[1..], compact)|
    ensures SizeAll(RowLayouts(rows, compact)) == |EncodeRows(rows, compact)|
    ensures var first := ObservedEach(rows[0]);
      var others := ReadRows(registry, RowLayouts(rows[1..], compact), EncodeRows(rows[1..], compact));
      ReadRows(registry, RowLayouts(rows, compact), EncodeRows(rows, compact))
      == if first.Err? then Err(first.error) else if others.Err? then others else Ok([first.value] + others.value)
  {
    hide ReadEach, AllWellFormed, AllAgree, AllRegistered, EncodeEach, LayoutsOf, Flatten, ObservedEach;
    var row, bs, rest := rows[0], Flatten(EncodeEach(rows[0], compact)), EncodeRows(rows[1..], compact);
    ReadEachBack(registry, row, Repeat(Any, columns), compact);
    WellFormedLength(row, columns);
    assert (bs + rest)[..|bs|] == bs && (bs + rest)[|bs|..] == rest;
  }

  lemma WellFormedLength(row: seq<Value>, columns: nat)
    requires AllWellFormed(row, Repeat(Any, columns))
    ensures |row| == columns
  {}

  lemma RowsCleanStep(rows: seq<seq<Value>>)
    requires rows != []
    ensures AllRowsClean(rows) <==> AllClean(rows[0], Server) && AllRowsClean(rows[1..])
  {
    hide AllClean;
    assert forall i :: 1 <= i < |rows| ==> rows[i] == rows[1..][i - 1];
    if !AllRowsClean(rows[1..]) {
      var i :| 0 <= i < |rows[1..]| && !AllClean(rows[1..][i], Server);
      assert !AllClean(rows[i + 1], Server);
    }
  }

  // ---- the row loops

  lemma ParseRowsStep(registry: Registry, buf: bytes, n: nat, columns: nat, done: seq<Layout>, cur: Cursor)
    requires n > 0
    ensures var row := ParseEach(registry, buf, Repeat(Any, columns), cur);
      Prepend(done, ParseRows(registry, buf, n, columns, cur))
      == if row.Err? then Err(row.error)
         else Prepend(done + [SeqL(0, row.value.0)], ParseRows(registry, buf, n - 1, columns, row.value.1))
  {
    hide ParseEach;
    var row := ParseEach(registry, buf, Repeat(Any, columns), cur);
    if row.Ok? {
      var rest := ParseRows(registry, buf, n - 1, columns, row.value.1);
      if rest.Ok? {
        var l := SeqL(0, row.value.0);
        assert done + ([l] + rest.value.0) == done + [l] + rest.value.0;
      }
    }
  }

  lemma NoRows(registry: Registry, buf: bytes, columns: nat)
    ensures forall cur :: ParseRows(registry, buf, 0, columns, cur) == Ok(([], cur))
  {}

  /** The nested loops of `SQLResponse._parse_success`. */
  method ParseRowLoops(s: BinaryStream, rowCount: nat, columns: nat) returns (r: Result<seq<Layout>>)
    modifies s`pos, s`viewHeld, s.client`style
    ensures Matches(ParseRows(s.client.registry, s.data, rowCount, columns, old(CursorOf(s))), r, CursorOf(s))
  {
    hide Parse, ParseEach, ParseRows;
    ghost var start := CursorOf(s);
    NoRows(s.client.registry, s.data, columns);
    var dataFields: seq<Layout> := [];
    PrependNothing(ParseRows(s.client.registry, s.data, rowCount, columns, start));
    for i := 0 to rowCount
      invariant ParseRows(s.client.registry, s.data, rowCount, columns, start)
             == Prepend(dataFields, ParseRows(s.client.registry, s.data, rowCount - i, columns, CursorOf(s)))
    {
      ParseRowsStep(s.client.registry, s.data, rowCount - i, columns, dataFields, CursorOf(s));
      var row := ParseColumns(s, columns);
      if row.Err? { return Err(row.error); }
      dataFields := dataFields + [SeqL(0, row.value)];
    }
    r := Ok(dataFields);
    assert dataFields + [] == dataFields;
  }

  method ParseColumns(s: BinaryStream, columns: nat) returns (r: Result<seq<Layout>>)
    modifies s`pos, s`viewHeld, s.client`style
    ensures Matches(ParseEach(s.client.registry, s.data, Repeat(Any, columns), old(CursorOf(s))), r, CursorOf(s))
  {
    hide Parse, ParseEach;
    ghost var start, classes := CursorOf(s), Repeat(Any, columns);
    var rowFields: seq<Layout> := [];
    assert classes[0..] == classes;
    PrependNothing(ParseEach(s.client.registry, s.data, classes, start));
    for j := 0 to columns
      invariant ParseEach(s.client.registry, s.data, classes, start)
             == Prepend(rowFields, ParseEach(s.client.registry, s.data, classes[j..], CursorOf(s)))
    {
      ParseEachStep(s.client.registry, s.data, classes, j, rowFields, CursorOf(s));
      var field := ParseClass(s, Any);
      if field.Err? { return Err(field.error); }
      rowFields := rowFields + [field.value];
    }
    ParseEachEnd(s.client.registry, s.data, classes, columns, rowFields, CursorOf(s));
    r := Ok(rowFields);
  }
}
