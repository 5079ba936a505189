/** Requests: the back-patched query header, and the cache information that opens a key-value request. */
module Requests {
  import opened Bytes
  import opened Values
  import opened BinaryStreams
  import opened Writer
  import opened Protocols
  import opened Framing

  // ---- cache information

  /** Durations in milliseconds; `UNCHANGED` is -2 and `ETERNAL` -1. */
  datatype ExpiryPolicy = ExpiryPolicy(create: int, update: int, access: int)

  datatype CacheInfo = CacheInfo(cacheId: int, policy: Option<ExpiryPolicy>, version: Version)

  const TRANSACTIONS_MASK: byte := 0x02
  const EXPIRY_POLICY_MASK: byte := 0x04

  predicate PolicyFits(p: ExpiryPolicy) {
    FitsSigned(p.create, 8) && FitsSigned(p.update, 8) && FitsSigned(p.access, 8)
  }

  /** The transaction that the request is marked with: identifier 0 is falsy in Python. */
  function Marked(version: Version, txId: Option<int>): Option<int> {
    if TransactionsSupported(version) && txId.Some? && txId.value != 0 then txId else None
  }

  /** `to_bytes` overflows on integers out of range, and old protocols have no expiry policies. */
  predicate InfoAccepted(info: CacheInfo, txId: Option<int>) {
    && FitsSigned(info.cacheId, 4)
    && (info.policy.Some? ==> TransactionsSupported(info.version) && PolicyFits(info.policy.value))
    && (Marked(info.version, txId).Some? ==> FitsSigned(txId.value, 4))
  }

  function InfoFlags(info: CacheInfo, txId: Option<int>): byte {
    (if info.policy.Some? then EXPIRY_POLICY_MASK else 0) + if Marked(info.version, txId).Some? then TRANSACTIONS_MASK else 0
  }

  function PolicyBytes(p: ExpiryPolicy): bytes {
    ToLE(p.create, 8) + ToLE(p.update, 8) + ToLE(p.access, 8)
  }

  function InfoBytes(info: CacheInfo, txId: Option<int>): bytes {
    ToLE(info.cacheId, 4) + [InfoFlags(info, txId)]
    + (if info.policy.Some? then PolicyBytes(info.policy.value) else [])
    + (if Marked(info.version, txId).Some? then ToLE(txId.value, 4) else [])
  }

  /** `CacheInfo.from_python`. */
  method WriteInfo(s: BinaryStream, info: CacheInfo, txId: Option<int>) returns (ok: bool)
    requires !s.Stuck()
    modifies s
    ensures ok <==> InfoAccepted(info, txId)
    ensures ok ==> Wrote(s, old(s.data), old(s.pos), InfoBytes(info, txId))
  {
    hide ToLE, Overlay, FitsSigned, Before;
    ghost var data, pos := s.data, s.pos;
    OverlayNothing(data, pos);
    var flags: byte := 0;
    if !FitsSigned(info.cacheId, 4) { return false; }
    Put(s, ToLE(info.cacheId, 4), data, pos, []);
    assert [] + ToLE(info.cacheId, 4) == ToLE(info.cacheId, 4);
    if info.policy.Some? {
      if !TransactionsSupported(info.version) { return false; }
      flags := EXPIRY_POLICY_MASK;
    }
    if TransactionsSupported(info.version) && txId.Some? && txId.value != 0 { flags := flags + TRANSACTIONS_MASK; }
    ghost var w := ToLE(info.cacheId, 4) + [flags];
    Put(s, [flags], data, pos, ToLE(info.cacheId, 4));
    if info.policy.Some? {
      var p := info.policy.value;
      if !PolicyFits(p) { return false; }
      WritePolicy(s, p, data, pos, w);
      w := w + PolicyBytes(p);
    } else {
      assert w + [] == w;
    }
    if flags == TRANSACTIONS_MASK || flags == TRANSACTIONS_MASK + EXPIRY_POLICY_MASK {
      if !FitsSigned(txId.value, 4) { return false; }
      Put(s, ToLE(txId.value, 4), data, pos, w);
    } else {
      assert w + [] == w;
    }
    ok := true;
  }

  method WritePolicy(s: BinaryStream, p: ExpiryPolicy, ghost data: bytes, ghost pos: nat, ghost w: bytes)
    requires Wrote(s, data, pos, w)
    modifies s
    ensures Wrote(s, data, pos, w + PolicyBytes(p))
  {
    hide ToLE, Wrote;
    Put(s, ToLE(p.create, 8), data, pos, w);
    Put(s, ToLE(p.update, 8), data, pos, w + ToLE(p.create, 8));
    Put(s, ToLE(p.access, 8), data, pos, w + ToLE(p.create, 8) + ToLE(p.update, 8));
    assert w + ToLE(p.create, 8) + ToLE(p.update, 8) + ToLE(p.access, 8) == w + PolicyBytes(p);
  }

  datatype Seen = Seen(cacheId: int, policy: Option<ExpiryPolicy>, txId: Option<int>, size: nat)

  /** How a server reads the information at the front of a request's body. */
  function ReadInfo(b: bytes): Option<Seen> {
    if |b| < 5 then None
    else
      var flags := b[4];
      var policy := flags / EXPIRY_POLICY_MASK % 2 == 1;
      var tx := flags / TRANSACTIONS_MASK % 2 == 1;
      var at := 5 + if policy then 24 else 0;
      var size := at + if tx then 4 else 0;
      if |b| < size then None
      else
        Some(Seen(FromSignedLE(b[..4]),
                  if policy then Some(ExpiryPolicy(FromSignedLE(b[5..13]), FromSignedLE(b[13..21]), FromSignedLE(b[21..29])))
                  else None,
                  if tx then Some(FromSignedLE(b[at..at + 4])) else None, size))
  }

  lemma PolicyBack(p: ExpiryPolicy)
    requires PolicyFits(p)
    ensures |PolicyBytes(p)| == 24
    ensures var b := PolicyBytes(p);
      ExpiryPolicy(FromSignedLE(b[0..8]), FromSignedLE(b[8..16]), FromSignedLE(b[16..24])) == p
  {
    SignedBack(p.create, 8);
    SignedBack(p.update, 8);
    SignedBack(p.access, 8);
    hide FromSignedLE, ToLE, FitsSigned;
    var b := PolicyBytes(p);
    assert b[0..8] == ToLE(p.create, 8) && b[8..16] == ToLE(p.update, 8) && b[16..24] == ToLE(p.access, 8);
  }

  lemma SliceOfParts(c: bytes, f: byte, p: bytes, t: bytes, body: bytes)
    requires |c| == 4
    ensures var b := c + [f] + p + t + body;
      b[..4] == c && b[4] == f && b[5..5 + |p|] == p && b[5 + |p|..5 + |p| + |t|] == t
  {}

  lemma SliceOfPolicy(b: bytes, p: bytes)
    requires |p| == 24 && |b| >= 29 && b[5..29] == p
    ensures b[5..13] == p[0..8] && b[13..21] == p[8..16] && b[21..29] == p[16..24]
  {
    SliceOfSlice(b, 5, 29, 0, 8);
    SliceOfSlice(b, 5, 29, 8, 8);
    SliceOfSlice(b, 5, 29, 16, 8);
  }

  /** The cache identifier, a byte of flags (4 for a policy, 2 for a transaction), the three durations in the order create,
      update, access, and the transaction's identifier. */
  lemma InfoSpelledOut(info: CacheInfo, txId: Option<int>)
    ensures var marked := !Before(info.version, (1, 6, 0)) && txId.Some? && txId.value != 0;
      InfoBytes(info, txId)
      == ToLE(info.cacheId, 4) + [(if info.policy.Some? then 4 else 0) + if marked then 2 else 0]
         + (if info.policy.None? then []
            else ToLE(info.policy.value.create, 8) + ToLE(info.policy.value.update, 8) + ToLE(info.policy.value.access, 8))
         + (if marked then ToLE(txId.value, 4) else [])
  {
    hide ToLE, Before;
  }

  /** Whatever follows in the request, the server sees the cache, the policy and exactly the transaction in force:
      none when its identifier is 0 or the protocol is older than 1.6.0. */
  lemma InfoRoundTrip(info: CacheInfo, txId: Option<int>, body: bytes)
    requires InfoAccepted(info, txId)
    ensures ReadInfo(InfoBytes(info, txId) + body)
      == Some(Seen(info.cacheId, info.policy, Marked(info.version, txId), |InfoBytes(info, txId)|))
  {
    hide FromSignedLE, ToLE, FitsSigned, Marked, PolicyBytes, TransactionsSupported;
    var marked := Marked(info.version, txId);
    MarkedIsGiven(info.version, txId);
    var c, f := ToLE(info.cacheId, 4), InfoFlags(info, txId);
    var p := if info.policy.Some? then PolicyBytes(info.policy.value) else [];
    var t := if marked.Some? then ToLE(txId.value, 4) else [];
    var b := InfoBytes(info, txId) + body;
    assert b == c + [f] + p + t + body;
    SliceOfParts(c, f, p, t, body);
    SignedBack(info.cacheId, 4);
    if info.policy.Some? {
      PolicyBack(info.policy.value);
      SliceOfPolicy(b, p);
    }
    if marked.Some? { SignedBack(txId.value, 4); }
  }

  lemma MarkedIsGiven(version: Version, txId: Option<int>)
    ensures Marked(version, txId).Some? ==> Marked(version, txId) == txId
  {}

  // ---- the query around it

  const QUERY_HEADER: nat := 14

  function QueryHeader(bodySize: nat, opCode: int, queryId: int): (b: bytes)
    ensures |b| == QUERY_HEADER
  {
    ToLE(QUERY_HEADER + bodySize - 4, 4) + ToLE(opCode, 2) + ToLE(queryId, 8)
  }

  function QueryBytes(opCode: int, queryId: int, body: bytes): bytes {
    QueryHeader(|body|, opCode, queryId) + body
  }

  /** `Query.from_python`: the header's place is skipped, the fields are written, then the header is written with the
      length that came out. The position is left behind the header. */
  method WriteQuery(s: BinaryStream, opCode: int, queryId: int, fields: seq<bytes>)
    requires !s.Stuck()
    modifies s
    ensures s.data == Overlay(old(s.data), old(s.pos), QueryBytes(opCode, queryId, Flatten(fields)))
    ensures s.pos == old(s.pos) + QUERY_HEADER && !s.Stuck()
  {
    hide ToLE, Flatten, Overlay;
    ghost var data := s.data;
    var initPos := s.Tell();
    s.Seek(initPos + QUERY_HEADER);
    OverlayNothing(data, initPos + QUERY_HEADER);
    NoFields();
    for i := 0 to |fields|
      invariant Wrote(s, data, initPos + QUERY_HEADER, Flatten(fields[..i]))
    {
      Put(s, fields[i], data, initPos + QUERY_HEADER, Flatten(fields[..i]));
      FlattenSnoc(fields[..i], fields[i]);
      assert fields[..i + 1] == fields[..i] + [fields[i]];
    }
    assert fields[..|fields|] == fields;
    ghost var body := Flatten(fields);
    var end := s.Tell();
    var header := QueryHeader(end - initPos - QUERY_HEADER, opCode, queryId);
    s.Seek(initPos);
    var ok := s.Write(header);
    OverlayPatch(data, initPos, header, body, []);
    OverlayNothing(s.data, initPos + QUERY_HEADER + |body|);
    assert header + body + [] == header + body;
    OverlayAt(Overlay(data, initPos + QUERY_HEADER, body), initPos, header);
  }

  lemma NoFields()
    ensures Flatten([]) == []
  {}

  /** The bytes of a query are one frame for the receiver, and its header says the operation and the query. */
  lemma QueryIsOneFrame(opCode: int, queryId: int, body: bytes)
    requires FitsSigned(opCode, 2) && FitsSigned(queryId, 8) && QUERY_HEADER + |body| < MAX_LENGTH
    ensures var q := QueryBytes(opCode, queryId, body);
      IsFrame(q) && Drain(q) == ([q], [])
      && FromSignedLE(q[4..6]) == opCode && FromSignedLE(q[6..14]) == queryId && q[QUERY_HEADER..] == body
  {
    hide ToLE, FromSignedLE, FitsSigned, Drain, ConcatFrames, HasFullResponse;
    var q := QueryBytes(opCode, queryId, body);
    var n := QUERY_HEADER + |body| - 4;
    LengthFits(n);
    SignedBack(n, 4);
    SignedBack(opCode, 2);
    SignedBack(queryId, 8);
    SliceOfHeader(ToLE(n, 4), ToLE(opCode, 2), ToLE(queryId, 8), body);
    OneFrame(q);
    assert q + [] == q;
    EmptyIsTail();
    DrainFrames([q], []);
  }

  lemma LengthFits(n: nat)
    requires n < MAX_LENGTH
    ensures FitsSigned(n, 4)
  {
    Widths();
  }

  lemma EmptyIsTail()
    ensures IsTail([])
  {}

  lemma SliceOfHeader(l: bytes, o: bytes, i: bytes, body: bytes)
    requires |l| == 4 && |o| == 2 && |i| == 8
    ensures var q := l + o + i + body;
      q[..4] == l && q[4..6] == o && q[6..14] == i && q[14..] == body
  {}

  lemma OneFrame(q: bytes)
    ensures ConcatFrames([q]) == q
  {
    assert [q][1..] == [] && q + [] == q;
  }
}
