/** A whole SQL response as a server sends it, parsed, sought over, and read back as its table. */
module SqlResponses {
  import opened Bytes
  import opened Values
  import opened Layouts
  import opened Interpret
  import opened RoundTrip
  import opened Exactness
  import opened Responses

  // ---- the response

  /** The columns by name, if the names were asked for, or by number. */
  datatype Columns = Names(names: seq<Value>) | Count(count: int)

  datatype SqlResult = SqlResult(cursor: Option<int>, columns: Columns, rows: seq<seq<Value>>, more: bool)

  /** What the server says besides the result: the query, and a new affinity version if the topology changed. */
  datatype Envelope = Envelope(length: int, queryId: int, topology: Option<(int, int)>)

  function Width(columns: Columns): nat {
    if columns.Names? then |columns.names| else Positive(columns.count)
  }

  function EnvelopeBytes(e: Envelope, statusFlags: bool): bytes {
    ToLE(e.length, 4) + ToLE(e.queryId, 8)
    + if !statusFlags then ToLE(0, 4)
      else if e.topology.None? then ToLE(0, 2)
      else ToLE(RHF_TOPOLOGY_CHANGED, 2) + ToLE(e.topology.value.0, 8) + ToLE(e.topology.value.1, 4)
  }

  function CursorBytes(r: SqlResult): bytes {
    if r.cursor.Some? then ToLE(r.cursor.value, 8) else []
  }

  function ColumnBytes(columns: Columns, compact: bool): bytes {
    if columns.Names? then ToLE(|columns.names|, 4) + Flatten(EncodeEach(columns.names, compact))
    else ToLE(columns.count, 4)
  }

  function ResultBytes(r: SqlResult, compact: bool): bytes {
    CursorBytes(r) + ColumnBytes(r.columns, compact) + ToLE(|r.rows|, 4) + EncodeRows(r.rows, compact)
    + [if r.more then 1 else 0]
  }

  function SqlBytes(e: Envelope, r: SqlResult, statusFlags: bool, compact: bool): bytes {
    EnvelopeBytes(e, statusFlags) + ResultBytes(r, compact)
  }

  /** A result that a server can send to a client with this registry. */
  ghost predicate Sent(registry: Registry, r: SqlResult) {
    && (r.cursor.Some? ==> FitsSigned(r.cursor.value, 8))
    && |r.rows| < MAX_LENGTH && Width(r.columns) < MAX_LENGTH
    && (r.columns.Count? ==> r.columns.count >= 0)
    && (r.columns.Names? ==> AllStrings(r.columns.names))
    && Table(registry, r.rows, Width(r.columns))
  }

  ghost predicate AllStrings(names: seq<Value>) {
    forall i :: 0 <= i < |names| ==> WellFormed(names[i]) && (names[i].Str? || names[i].Null?)
  }

  // ---- reading it

  function ReadColumns(registry: Registry, names: bool, layout: Layout, bs: bytes): Result<Columns>
    requires |bs| == Size(layout)
  {
    if !names then if |bs| != 4 then Err(WrongLayout) else Ok(Count(FromSignedLE(bs)))
    else if !layout.SeqL? || layout.header != 4 then Err(WrongLayout)
    else
      var ns := ReadEach(registry, Repeat(Typed(TC_STRING), |layout.elems|), layout.elems, bs[4..]);
      if ns.Err? then Err(ns.error) else Ok(Names(ns.value))
  }

  /** `to_python` of a parsed response over its bytes. */
  function ReadSql(registry: Registry, p: Parsed, names: bool, hasCursor: bool, bs: bytes): Result<SqlResult>
    requires |bs| == SizeOfResponse(p)
  {
    var n := |p.fields|;
    if n < 5 then Err(WrongLayout)
    else
      var columns, rows := p.fields[n - 4], p.fields[n - 2];
      var rowsEnd := |bs| - 1;
      var rowsAt := rowsEnd - Size(rows);
      var columnsEnd := rowsAt - 4;
      var columnsAt := columnsEnd - Size(columns);
      if columnsAt < 8 || !rows.SeqL? || rows.header != 0 then Err(WrongLayout)
      else
        var cursor := if hasCursor then Some(FromSignedLE(bs[columnsAt - 8..columnsAt])) else None;
        var data := ReadRows(registry, rows.elems, bs[rowsAt..rowsEnd]);
        if data.Err? then Err(data.error)
        else
          var cs := ReadColumns(registry, names, columns, bs[columnsAt..columnsEnd]);
          if cs.Err? then Err(cs.error) else Ok(SqlResult(cursor, cs.value, data.value, bs[rowsEnd] != 0))
  }

  /** Parse, seek behind the response, read it backward, interpret it. */
  function DecodeSql(registry: Registry, buf: bytes, statusFlags: bool, names: bool, hasCursor: bool, cur: Cursor):
    Result<(SqlResult, nat)>
  {
    var p := ParseResponse(registry, buf, statusFlags, Sql(names, hasCursor), cur);
    if p.Err? then Err(p.error)
    else
      var end := cur.pos + SizeOfResponse(p.value);
      var bs := ReadBackward(buf, end, SizeOfResponse(p.value));
      if bs.Err? then Err(bs.error)
      else
        var r := ReadSql(registry, p.value, names, hasCursor, bs.value);
        if r.Err? then Err(r.error) else Ok((r.value, end))
  }

  // ---- the envelope

  function Extra(e: Envelope, statusFlags: bool): nat {
    if statusFlags && e.topology.Some? then 12 else 0
  }

  lemma EnvelopeAnnounces(buf: bytes, pos: nat, e: Envelope, statusFlags: bool)
    requires At(buf, pos, EnvelopeBytes(e, statusFlags))
    ensures |EnvelopeBytes(e, statusFlags)| == HeaderLength(statusFlags) + Extra(e, statusFlags)
    ensures pos + HeaderLength(statusFlags) <= |buf|
    ensures Announced(buf, pos, statusFlags) == (Extra(e, statusFlags), false)
  {
    var bs := EnvelopeBytes(e, statusFlags);
    hide ToLE, FromLE, FromSignedLE;
    var flags: nat := if e.topology.Some? then RHF_TOPOLOGY_CHANGED else 0;
    var size := if statusFlags then 2 else 4;
    var value := if statusFlags then flags else 0;
    assert bs[12..12 + size] == ToLE(value, size);
    SliceOfSlice(buf, pos, pos + |bs|, 12, size);
    SmallField(value, size);
  }

  lemma SmallField(v: nat, size: nat)
    requires v <= 2 && size > 0
    ensures FromLE(ToLE(v, size)) == v && FromSignedLE(ToLE(v, size)) == v
  {
    assert Pow256(size) == 256 * Pow256(size - 1);
    FromToLENat(v, size);
    hide ToLE, FromLE;
  }

  // ---- the head of the body

  lemma StringsAreRegistered(registry: Registry, names: seq<Value>)
    requires AllStrings(names)
    ensures AllWellFormed(names, Repeat(Typed(TC_STRING), |names|))
    ensures AllAgree(registry, names) && AllRegistered(registry, names) && !AnyObject(names)
  {
    KindsOfCodes();
    hide KindOf, WellFormed;
  }

  function ColumnLayout(columns: Columns, compact: bool): Layout {
    if columns.Names? then SeqL(4, LayoutsOf(columns.names, compact)) else FlatL(4)
  }

  lemma ColumnsParse(registry: Registry, buf: bytes, columns: Columns, compact: bool, starts: Context, cur: Cursor)
    requires At(buf, cur.pos, ColumnBytes(columns, compact)) && cur.style != Some(!compact)
    requires columns.Names? ==> AllStrings(columns.names) && |columns.names| < MAX_LENGTH
    ensures var part := if columns.Names? then Counted(Typed(TC_STRING), 1) else Fixed(4);
      ParsePart(registry, buf, part, starts, cur)
      == Ok((ColumnLayout(columns, compact), Advance(cur, |ColumnBytes(columns, compact)|)))
  {
    hide ToLE, FromLE, ParseEach, EncodeEach, LayoutsOf, At, AllWellFormed, AllAgree, AllRegistered, AnyObject, WellFormed,
         Slice, KindOf;
    if columns.Names? {
      var names := columns.names;
      StringsAreRegistered(registry, names);
      AtSplit(buf, cur.pos, ToLE(|names|, 4), Flatten(EncodeEach(names, compact)));
      AtSlice(buf, cur.pos, ToLE(|names|, 4), 0, 4);
      assert ToLE(|names|, 4)[0..4] == ToLE(|names|, 4);
      CountField(|names|);
      assert |names| * 1 == |names|;
      ParseEachBack(registry, buf, names, Repeat(Typed(TC_STRING), |names|), compact, Advance(cur, 4));
    }
  }

  function HeadLayouts(r: SqlResult, compact: bool): seq<Layout> {
    (if r.cursor.Some? then [FlatL(8)] else []) + [ColumnLayout(r.columns, compact)]
  }

  lemma HeadParses(registry: Registry, buf: bytes, r: SqlResult, compact: bool, cur: Cursor)
    requires At(buf, cur.pos, CursorBytes(r) + ColumnBytes(r.columns, compact)) && cur.style != Some(!compact)
    requires r.columns.Names? ==> AllStrings(r.columns.names) && |r.columns.names| < MAX_LENGTH
    ensures ParseStruct(registry, buf, SqlHead(r.columns.Names?, r.cursor.Some?), [], cur)
      == Ok((HeadLayouts(r, compact), Advance(cur, |CursorBytes(r) + ColumnBytes(r.columns, compact)|)))
  {
    hide ToLE, ParsePart, ParseStruct, At, AllStrings, ColumnBytes, ColumnLayout;
    var columns := r.columns;
    var part := if columns.Names? then Counted(Typed(TC_STRING), 1) else Fixed(4);
    AtSplit(buf, cur.pos, CursorBytes(r), ColumnBytes(columns, compact));
    if r.cursor.Some? {
      var next := Advance(cur, 8);
      ColumnsParse(registry, buf, columns, compact, [cur.pos], next);
      OneField(registry, buf, part, [cur.pos], next);
      CursorFirst(registry, buf, part, cur);
      assert SqlHead(columns.Names?, true) == [Fixed(8), part];
      assert HeadLayouts(r, compact) == [FlatL(8)] + [ColumnLayout(columns, compact)];
    } else {
      ColumnsParse(registry, buf, columns, compact, [], cur);
      OneField(registry, buf, part, [], cur);
      assert SqlHead(columns.Names?, false) == [part] && HeadLayouts(r, compact) == [ColumnLayout(columns, compact)];
      assert CursorBytes(r) + ColumnBytes(columns, compact) == ColumnBytes(columns, compact);
    }
  }

  lemma CursorFirst(registry: Registry, buf: bytes, part: Part, cur: Cursor)
    requires ParseStruct(registry, buf, [part], [cur.pos], Advance(cur, 8)).Ok?
    ensures var rest := ParseStruct(registry, buf, [part], [cur.pos], Advance(cur, 8)).value;
      ParseStruct(registry, buf, [Fixed(8), part], [], cur) == Ok(([FlatL(8)] + rest.0, rest.1))
  {
    CursorParses(registry, buf, cur);
    hide ParsePart;
    assert [Fixed(8), part][1..] == [part] && [] + [cur.pos] == [cur.pos];
  }

  lemma CursorParses(registry: Registry, buf: bytes, cur: Cursor)
    ensures ParsePart(registry, buf, Fixed(8), [], cur) == Ok((FlatL(8), Advance(cur, 8)))
  {}

  lemma OneField(registry: Registry, buf: bytes, part: Part, starts: Context, cur: Cursor)
    requires ParsePart(registry, buf, part, starts, cur).Ok?
    ensures var r := ParsePart(registry, buf, part, starts, cur).value;
      ParseStruct(registry, buf, [part], starts, cur) == Ok(([r.0], r.1))
  {
    hide ParsePart;
    var r := ParsePart(registry, buf, part, starts, cur).value;
    assert ParseStruct(registry, buf, [], starts + [cur.pos], r.1) == Ok(([], r.1));
    assert [part][1..] == [] && [r.0] + [] == [r.0];
  }

  // ---- the whole

  /** The parts of a response, one behind the other. */
  lemma PartsAt(buf: bytes, pos: nat, e: Envelope, r: SqlResult, statusFlags: bool, compact: bool)
    requires At(buf, pos, SqlBytes(e, r, statusFlags, compact))
    ensures At(buf, pos, EnvelopeBytes(e, statusFlags))
    ensures var start := pos + |EnvelopeBytes(e, statusFlags)|;
      var rowCountAt := start + |CursorBytes(r) + ColumnBytes(r.columns, compact)|;
      && At(buf, start, CursorBytes(r) + ColumnBytes(r.columns, compact))
      && At(buf, start + |CursorBytes(r)|, ColumnBytes(r.columns, compact))
      && At(buf, rowCountAt, ToLE(|r.rows|, 4)) && At(buf, rowCountAt + 4, EncodeRows(r.rows, compact))
  {
    hide At, EnvelopeBytes, CursorBytes, ColumnBytes, EncodeRows, ToLE;
    var h, c, k := EnvelopeBytes(e, statusFlags), CursorBytes(r), ColumnBytes(r.columns, compact);
    var n, rows, m := ToLE(|r.rows|, 4), EncodeRows(r.rows, compact), [if r.more then 1 else 0];
    AtSplit(buf, pos, h, c + k + n + rows + m);
    AtSplit(buf, pos + |h|, c + k + n + rows, m);
    AtSplit(buf, pos + |h|, c + k + n, rows);
    AtSplit(buf, pos + |h|, c + k, n);
    AtSplit(buf, pos + |h|, c, k);
  }

  lemma CountsAreRead(buf: bytes, start: nat, r: SqlResult, compact: bool)
    requires |r.rows| < MAX_LENGTH && Width(r.columns) < MAX_LENGTH && (r.columns.Count? ==> r.columns.count >= 0)
    requires At(buf, start + |CursorBytes(r)|, ColumnBytes(r.columns, compact))
    requires var rowCountAt := start + |CursorBytes(r) + ColumnBytes(r.columns, compact)|;
      At(buf, rowCountAt, ToLE(|r.rows|, 4))
    ensures var rowCountAt := start + |CursorBytes(r) + ColumnBytes(r.columns, compact)|;
      && rowCountAt + 4 <= |buf|
      && SqlCounts(buf, r.cursor.Some?, start, rowCountAt) == (|r.rows|, Width(r.columns))
  {
    hide ToLE, FromSignedLE, EncodeEach, Flatten;
    CountField(|r.rows|);
    CountField(Width(r.columns));
    AtSlice(buf, start + |CursorBytes(r)|, ColumnBytes(r.columns, compact), 0, 4);
    assert ColumnBytes(r.columns, compact)[0..4] == ToLE(Width(r.columns), 4);
  }

  function SqlLayouts(e: Envelope, r: SqlResult, statusFlags: bool, compact: bool): seq<Layout> {
    [FlatL(Extra(e, statusFlags))]
    + (HeadLayouts(r, compact) + [FlatL(4), SeqL(0, RowLayouts(r.rows, compact)), FlatL(1)])
  }

  lemma BodyParses(registry: Registry, buf: bytes, start: Cursor, r: SqlResult, compact: bool)
    requires Sent(registry, r) && start.style != Some(!compact)
    requires At(buf, start.pos, CursorBytes(r) + ColumnBytes(r.columns, compact))
    requires At(buf, start.pos + |CursorBytes(r)|, ColumnBytes(r.columns, compact))
    requires var rowCountAt := start.pos + |CursorBytes(r) + ColumnBytes(r.columns, compact)|;
      At(buf, rowCountAt, ToLE(|r.rows|, 4)) && At(buf, rowCountAt + 4, EncodeRows(r.rows, compact))
    ensures var p := ParseBody(registry, buf, Sql(r.columns.Names?, r.cursor.Some?), start);
      && p.Ok?
      && p.value.0 == HeadLayouts(r, compact) + [FlatL(4), SeqL(0, RowLayouts(r.rows, compact)), FlatL(1)]
      && p.value.1.pos + 1 == start.pos + |ResultBytes(r, compact)|
  {
    hide At, CursorBytes, ColumnBytes, EncodeRows, ToLE, ParseStruct, ParseRows, Table, SqlCounts, RowLayouts, HeadLayouts,
         AllStrings, SqlHead;
    HeadParses(registry, buf, r, compact, start);
    CountsAreRead(buf, start.pos, r, compact);
    var next := Advance(start, |CursorBytes(r) + ColumnBytes(r.columns, compact)|);
    RowsParseBack(registry, buf, r.rows, Width(r.columns), compact, Advance(next, 4));
  }

  lemma ResponseParses(registry: Registry, buf: bytes, cur: Cursor, e: Envelope, r: SqlResult, statusFlags: bool,
                       compact: bool)
    requires Sent(registry, r) && cur.style != Some(!compact)
    requires At(buf, cur.pos, SqlBytes(e, r, statusFlags, compact))
    ensures var p := ParseResponse(registry, buf, statusFlags, Sql(r.columns.Names?, r.cursor.Some?), cur);
      && p.Ok? && p.value.header == HeaderLength(statusFlags)
      && p.value.fields == SqlLayouts(e, r, statusFlags, compact)
      && SizeOfResponse(p.value) == |SqlBytes(e, r, statusFlags, compact)|
  {
    hide At, EnvelopeBytes, ResultBytes, CursorBytes, ColumnBytes, EncodeRows, ToLE, ParseBody, Sent, Announced, HeadLayouts,
         RowLayouts, SizeAll, HeaderLength, Extra;
    PartsAt(buf, cur.pos, e, r, statusFlags, compact);
    EnvelopeAnnounces(buf, cur.pos, e, statusFlags);
    BodyParses(registry, buf, Advance(cur, |EnvelopeBytes(e, statusFlags)|), r, compact);
  }

  // ---- and reads

  lemma TailOfLayouts(e: Envelope, r: SqlResult, statusFlags: bool, compact: bool)
    ensures var ls := SqlLayouts(e, r, statusFlags, compact);
      var n := |ls|;
      n >= 5 && ls[n - 4] == ColumnLayout(r.columns, compact) && ls[n - 2] == SeqL(0, RowLayouts(r.rows, compact))
  {
    hide ColumnLayout, RowLayouts;
  }

  lemma ColumnSize(registry: Registry, columns: Columns, compact: bool)
    requires columns.Names? ==> AllStrings(columns.names)
    ensures Size(ColumnLayout(columns, compact)) == |ColumnBytes(columns, compact)|
    ensures columns.Names? ==> SizeAll(LayoutsOf(columns.names, compact)) == |Flatten(EncodeEach(columns.names, compact))|
  {
    hide EncodeEach, LayoutsOf, ToLE, AllStrings;
    if columns.Names? {
      StringsAreRegistered(registry, columns.names);
      SizeOfLayouts(registry, columns.names, Repeat(Typed(TC_STRING), |columns.names|), compact);
    }
  }

  lemma SliceParts(h: bytes, c: bytes, k: bytes, n: bytes, rows: bytes, m: byte)
    requires |n| == 4
    ensures var bs := h + (c + k + n + rows + [m]);
      var rowsEnd := |bs| - 1;
      var rowsAt := rowsEnd - |rows|;
      var columnsAt := rowsAt - 4 - |k|;
      && columnsAt == |h| + |c| && bs[rowsEnd] == m && bs[rowsAt..rowsEnd] == rows
      && bs[columnsAt..rowsAt - 4] == k && bs[columnsAt - |c|..columnsAt] == c
  {
    var bs := h + (c + k + n + rows + [m]);
    assert bs == h + c + k + n + rows + [m];
  }

  /** The columns are read back exactly if every name is clean. */
  lemma ColumnsRead(registry: Registry, columns: Columns, compact: bool)
    requires columns.Names? ==> AllStrings(columns.names)
    requires columns.Count? ==> 0 <= columns.count < MAX_LENGTH
    ensures Size(ColumnLayout(columns, compact)) == |ColumnBytes(columns, compact)|
    ensures ReadColumns(registry, columns.Names?, ColumnLayout(columns, compact), ColumnBytes(columns, compact)) == Ok(columns)
      <==> ColumnsClean(columns)
  {
    hide EncodeEach, LayoutsOf, Flatten, ReadEach, SizeAll, AllWellFormed, ToLE, FromSignedLE, AllStrings, AllClean;
    ColumnSize(registry, columns, compact);
    if columns.Names? {
      var names := columns.names;
      StringsAreRegistered(registry, names);
      ReadEachBack(registry, names, Repeat(Typed(TC_STRING), |names|), compact);
      ListObserved(names, Repeat(Typed(TC_STRING), |names|), Server);
      StringsArePlain(names);
      assert ColumnBytes(columns, compact)[4..] == Flatten(EncodeEach(names, compact));
    } else {
      CountField(columns.count);
    }
  }

  lemma StringsArePlain(names: seq<Value>)
    requires AllStrings(names)
    ensures PlainEach(names) == names
  {
    hide WellFormed;
  }

  ghost predicate ColumnsClean(columns: Columns) {
    columns.Names? ==> AllClean(columns.names, Server)
  }

  /** The representative of all equal results. */
  function PlainResult(r: SqlResult): SqlResult {
    r.(rows := PlainRows(r.rows))
  }

  /** Interpreting a response's own bytes reads its rows and columns, and takes the rest as it was sent. */
  lemma ResponseParts(registry: Registry, p: Parsed, e: Envelope, r: SqlResult, statusFlags: bool, compact: bool)
    requires Sent(registry, r)
    requires p.fields == SqlLayouts(e, r, statusFlags, compact)
    requires SizeOfResponse(p) == |SqlBytes(e, r, statusFlags, compact)|
    ensures SizeAll(RowLayouts(r.rows, compact)) == |EncodeRows(r.rows, compact)|
    ensures Size(ColumnLayout(r.columns, compact)) == |ColumnBytes(r.columns, compact)|
    ensures var data := ReadRows(registry, RowLayouts(r.rows, compact), EncodeRows(r.rows, compact));
      var columns := ReadColumns(registry, r.columns.Names?, ColumnLayout(r.columns, compact), ColumnBytes(r.columns, compact));
      ReadSql(registry, p, r.columns.Names?, r.cursor.Some?, SqlBytes(e, r, statusFlags, compact))
      == if data.Err? then Err(data.error) else if columns.Err? then Err(columns.error)
         else Ok(r.(rows := data.value, columns := columns.value))
  {
    hide EnvelopeBytes, EncodeRows, ColumnBytes, ColumnLayout, ToLE, FromSignedLE, RowLayouts, ReadRows, ReadColumns, SizeAll,
         SqlLayouts, SizeOfResponse, AllStrings, Table, FitsSigned, Positive, PlainRows, AllRowsClean, ColumnsClean;
    var h, c, k := EnvelopeBytes(e, statusFlags), CursorBytes(r), ColumnBytes(r.columns, compact);
    var n, rows, m: byte := ToLE(|r.rows|, 4), EncodeRows(r.rows, compact), if r.more then 1 else 0;
    SliceParts(h, c, k, n, rows, m);
    TailOfLayouts(e, r, statusFlags, compact);
    WidthOfCount(r.columns);
    ColumnsRead(registry, r.columns, compact);
    RowsReadBack(registry, r.rows, Width(r.columns), compact);
    RowsSize(RowLayouts(r.rows, compact));
    EnvelopeIsLong(e, statusFlags);
    if r.cursor.Some? { SignedBack(r.cursor.value, 8); }
  }

  lemma WidthOfCount(columns: Columns)
    ensures columns.Count? && columns.count >= 0 ==> Width(columns) == columns.count
  {}

  /** Interpreting a response's own bytes gives an equal result exactly if every cell and every column name is clean. */
  lemma ResponseReads(registry: Registry, p: Parsed, e: Envelope, r: SqlResult, statusFlags: bool, compact: bool)
    requires Sent(registry, r)
    requires p.fields == SqlLayouts(e, r, statusFlags, compact)
    requires SizeOfResponse(p) == |SqlBytes(e, r, statusFlags, compact)|
    ensures var read := ReadSql(registry, p, r.columns.Names?, r.cursor.Some?, SqlBytes(e, r, statusFlags, compact));
      (read == Ok(PlainResult(r)) <==> AllRowsClean(r.rows) && ColumnsClean(r.columns))
      && (read.Ok? ==> PlainResult(read.value) == read.value)
  {
    hide SqlBytes, EncodeRows, ColumnBytes, ColumnLayout, RowLayouts, ReadRows, ReadColumns, ReadSql, SizeAll, SqlLayouts,
         SizeOfResponse, PlainRows, AllRowsClean, ColumnsClean, AllStrings, Table;
    ResponseParts(registry, p, e, r, statusFlags, compact);
    WidthOfCount(r.columns);
    ColumnsRead(registry, r.columns, compact);
    RowsReadBack(registry, r.rows, Width(r.columns), compact);
  }

  lemma RowsSize(ls: seq<Layout>)
    ensures Size(SeqL(0, ls)) == SizeAll(ls)
  {}

  lemma EnvelopeIsLong(e: Envelope, statusFlags: bool)
    ensures |EnvelopeBytes(e, statusFlags)| >= 14
  {}

  /** Anywhere in a buffer, whatever surrounds it: a SQL response with its header, cursor, names, rows and `more` byte is
      read back as its result, with the position exactly behind it, exactly if every cell and column name is clean. */
  lemma SqlReadsBackExactly(registry: Registry, pre: bytes, e: Envelope, r: SqlResult, post: bytes, statusFlags: bool,
                            compact: bool, style: Option<bool>)
    requires Sent(registry, r) && style != Some(!compact)
    ensures var bs := SqlBytes(e, r, statusFlags, compact);
      var read := DecodeSql(registry, pre + bs + post, statusFlags, r.columns.Names?, r.cursor.Some?, Cursor(|pre|, style));
      && (read.Ok? && PlainResult(read.value.0) == PlainResult(r) <==> AllRowsClean(r.rows) && ColumnsClean(r.columns))
      && (read.Ok? ==> read.value.1 == |pre| + |bs|)
  {
    hide Sent, SqlBytes, SqlLayouts, ParseResponse, ReadSql, AllRowsClean, ColumnsClean, SizeOfResponse,
         PlainRows;
    var bs := SqlBytes(e, r, statusFlags, compact);
    var buf := pre + bs + post;
    AtMiddle(pre, bs, post);
    ResponseParses(registry, buf, Cursor(|pre|, style), e, r, statusFlags, compact);
    var p := ParseResponse(registry, buf, statusFlags, Sql(r.columns.Names?, r.cursor.Some?), Cursor(|pre|, style)).value;
    assert buf[|pre|..|pre| + |bs|] == bs;
    ResponseReads(registry, p, e, r, statusFlags, compact);
  }
}
