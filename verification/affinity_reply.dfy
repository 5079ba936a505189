/** The answer to a partition request, from the bytes a server sends to the reply that fills the affinity table. */
module AffinityReplies {
  import opened Bytes
  import opened DecimalCodec
  import opened Values
  import opened Layouts
  import opened WireFormat
  import opened Affinity
  import opened Responses
  import opened Structures

  const CACHE_CONFIG: seq<Part> := [Fixed(4), Fixed(4)]
  const CACHE_MAPPING: seq<Part> := [Fixed(4), Structs(CACHE_CONFIG)]
  const EMPTY_CACHE_MAPPING: seq<Part> := [Fixed(4)]
  const NODE_PARTITIONS: seq<Part> := [Fixed(4)]
  const NODE_MAPPING: seq<Part> := [OfClass(Typed(TC_UUID)), Structs(NODE_PARTITIONS)]
  const PARTITION_MAPPING: seq<Part> := [
    Fixed(1),
    Conditional(0, Structs(CACHE_MAPPING), Structs(EMPTY_CACHE_MAPPING)),
    Conditional(0, Structs(NODE_MAPPING), Inline([]))]
  const RESPONSE_CONFIG: seq<Part> := [Fixed(8), Fixed(4), Structs(PARTITION_MAPPING)]

  // ---- the bytes, written out

  const TWO128: int := 0x1_0000_0000_0000_0000_0000_0000_0000_0000

  /** A node's identifier as the sixteen octets of its UUID. */
  function Octets(node: nat): (b: bytes)
    ensures |b| == 16
  {
    Reverse(ToLE(node, 16))
  }

  function ConfigBytes(pairs: seq<(int, int)>): bytes {
    if pairs == [] then [] else ToLE(pairs[0].0, 4) + ToLE(pairs[0].1, 4) + ConfigBytes(pairs[1..])
  }

  function CachesBytes(applicable: bool, caches: seq<CacheConfig>): bytes {
    if caches == [] then []
    else
      ToLE(caches[0].cacheId, 4)
      + (if applicable then ToLE(|caches[0].keyConfig|, 4) + ConfigBytes(caches[0].keyConfig) else [])
      + CachesBytes(applicable, caches[1..])
  }

  function PartitionsBytes(partitions: seq<int>): bytes {
    if partitions == [] then [] else ToLE(partitions[0], 4) + PartitionsBytes(partitions[1..])
  }

  function NodesBytes(nodes: seq<NodePartitions>): bytes {
    if nodes == [] then []
    else
      [10] + (if nodes[0].node >= 0 then PermuteUuid(Octets(nodes[0].node)) else [])
      + ToLE(|nodes[0].partitions|, 4) + PartitionsBytes(nodes[0].partitions) + NodesBytes(nodes[1..])
  }

  function GroupsBytes(groups: seq<MappingGroup>): bytes {
    if groups == [] then []
    else
      var g := groups[0];
      [if g.applicable then 1 else 0] + ToLE(|g.caches|, 4) + CachesBytes(g.applicable, g.caches)
      + (if g.applicable then ToLE(|g.nodes|, 4) + NodesBytes(g.nodes) else []) + GroupsBytes(groups[1..])
  }

  function ReplyBytes(reply: Reply): bytes {
    ToLE(reply.version.0, 8) + ToLE(reply.version.1, 4) + ToLE(|reply.groups|, 4) + GroupsBytes(reply.groups)
  }

  // ---- what a server can send

  predicate ConfigSent(pairs: seq<(int, int)>) {
    |pairs| < MAX_LENGTH && forall i :: 0 <= i < |pairs| ==> FitsSigned(pairs[i].0, 4) && FitsSigned(pairs[i].1, 4)
  }

  /** Without an applicable mapping neither key configurations nor nodes are sent. */
  predicate CacheSent(applicable: bool, c: CacheConfig) {
    FitsSigned(c.cacheId, 4) && if applicable then ConfigSent(c.keyConfig) else c.keyConfig == []
  }

  predicate NodeSent(n: NodePartitions) {
    0 <= n.node < TWO128 && |n.partitions| < MAX_LENGTH && forall i :: 0 <= i < |n.partitions| ==> FitsSigned(n.partitions[i], 4)
  }

  predicate GroupSent(g: MappingGroup) {
    && |g.caches| < MAX_LENGTH && |g.nodes| < MAX_LENGTH && (!g.applicable ==> g.nodes == [])
    && (forall i :: 0 <= i < |g.caches| ==> CacheSent(g.applicable, g.caches[i]))
    && (forall i :: 0 <= i < |g.nodes| ==> NodeSent(g.nodes[i]))
  }

  predicate ReplySent(reply: Reply) {
    && FitsSigned(reply.version.0, 8) && FitsSigned(reply.version.1, 4) && |reply.groups| < MAX_LENGTH
    && forall i :: 0 <= i < |reply.groups| ==> GroupSent(reply.groups[i])
  }

  // ---- the reply as a structure

  function ConfigRecords(pairs: seq<(int, int)>): (rs: seq<seq<PartValue>>)
    ensures |rs| == |pairs|
  {
    if pairs == [] then [] else [[Number(pairs[0].0), Number(pairs[0].1)]] + ConfigRecords(pairs[1..])
  }

  function CacheRecord(applicable: bool, c: CacheConfig): seq<PartValue> {
    if applicable then [Number(c.cacheId), Records(ConfigRecords(c.keyConfig))] else [Number(c.cacheId)]
  }

  function CacheRecords(applicable: bool, caches: seq<CacheConfig>): (rs: seq<seq<PartValue>>)
    ensures |rs| == |caches|
  {
    if caches == [] then [] else [CacheRecord(applicable, caches[0])] + CacheRecords(applicable, caches[1..])
  }

  function PartitionRecords(partitions: seq<int>): (rs: seq<seq<PartValue>>)
    ensures |rs| == |partitions|
  {
    if partitions == [] then [] else [[Number(partitions[0])]] + PartitionRecords(partitions[1..])
  }

  function NodeRecord(n: NodePartitions): seq<PartValue> {
    [Tagged(Uuid(if n.node >= 0 then Octets(n.node) else [])), Records(PartitionRecords(n.partitions))]
  }

  function NodeRecords(nodes: seq<NodePartitions>): (rs: seq<seq<PartValue>>)
    ensures |rs| == |nodes|
  {
    if nodes == [] then [] else [NodeRecord(nodes[0])] + NodeRecords(nodes[1..])
  }

  function GroupRecord(g: MappingGroup): seq<PartValue> {
    [Number(if g.applicable then 1 else 0), Records(CacheRecords(g.applicable, g.caches)),
     if g.applicable then Records(NodeRecords(g.nodes)) else Record([])]
  }

  function GroupRecords(groups: seq<MappingGroup>): (rs: seq<seq<PartValue>>)
    ensures |rs| == |groups|
  {
    if groups == [] then [] else [GroupRecord(groups[0])] + GroupRecords(groups[1..])
  }

  function AsFields(reply: Reply): seq<PartValue> {
    [Number(reply.version.0), Number(reply.version.1), Records(GroupRecords(reply.groups))]
  }

  // ---- and back: what `__post_process_partitions` takes out of it

  function NumberAt(r: seq<PartValue>, i: nat): int {
    if i < |r| && r[i].Number? then r[i].n else 0
  }

  function RecordsAt(r: seq<PartValue>, i: nat): seq<seq<PartValue>> {
    if i < |r| && r[i].Records? then r[i].records else []
  }

  function NodeAt(r: seq<PartValue>): int {
    if |r| > 0 && r[0].Tagged? && r[0].value.Uuid? then BigEndian(r[0].value.octets) else 0
  }

  function ConfigOf(rs: seq<seq<PartValue>>): seq<(int, int)> {
    if rs == [] then [] else [(NumberAt(rs[0], 0), NumberAt(rs[0], 1))] + ConfigOf(rs[1..])
  }

  function CachesOf(rs: seq<seq<PartValue>>): seq<CacheConfig> {
    if rs == [] then [] else [CacheConfig(NumberAt(rs[0], 0), ConfigOf(RecordsAt(rs[0], 1)))] + CachesOf(rs[1..])
  }

  function PartitionsOf(rs: seq<seq<PartValue>>): seq<int> {
    if rs == [] then [] else [NumberAt(rs[0], 0)] + PartitionsOf(rs[1..])
  }

  function NodesOf(rs: seq<seq<PartValue>>): seq<NodePartitions> {
    if rs == [] then [] else [NodePartitions(NodeAt(rs[0]), PartitionsOf(RecordsAt(rs[0], 1)))] + NodesOf(rs[1..])
  }

  function GroupsOf(rs: seq<seq<PartValue>>): seq<MappingGroup> {
    if rs == [] then []
    else
      [MappingGroup(NumberAt(rs[0], 0) != 0, CachesOf(RecordsAt(rs[0], 1)), NodesOf(RecordsAt(rs[0], 2)))] + GroupsOf(rs[1..])
  }

  function ReplyOf(fields: seq<PartValue>): Reply {
    Affinity.Reply((NumberAt(fields, 0), NumberAt(fields, 1)), GroupsOf(RecordsAt(fields, 2)))
  }

  // ---- small structures

  /** The bytes `b` are those of the fields, which a server can send and a client observes unchanged. */
  ghost predicate Faithful(registry: Registry, fields: seq<Part>, vs: seq<PartValue>, b: bytes, compact: bool) {
    && FittingEach(registry, fields, vs, []) && FieldsBytes(fields, vs, [], compact) == b
    && ObservedFields(fields, vs, []) == Ok(vs)
  }

  ghost predicate FaithfulPart(registry: Registry, part: Part, v: PartValue, done: seq<PartValue>, b: bytes, compact: bool) {
    && Fitting(registry, part, v, done) && PartBytes(part, v, done, compact) == b && ObservedPart(part, v, done) == Ok(v)
  }

  ghost predicate FaithfulRecords(registry: Registry, fields: seq<Part>, rs: seq<seq<PartValue>>, b: bytes, compact: bool) {
    && AllFitting(registry, fields, rs) && RecordsBytes(fields, rs, compact) == b && ObservedRecords(fields, rs) == Ok(rs)
  }

  lemma NoMoreFields(registry: Registry, done: seq<PartValue>, compact: bool)
    ensures FittingEach(registry, [], [], done) && FieldsBytes([], [], done, compact) == [] && ObservedFields([], [], done) == Ok([])
  {}

  lemma FieldStep(registry: Registry, f: Part, fs: seq<Part>, v: PartValue, vs: seq<PartValue>, done: seq<PartValue>, compact: bool)
    ensures FittingEach(registry, [f] + fs, [v] + vs, done) <==> Fitting(registry, f, v, done) && FittingEach(registry, fs, vs, done + [v])
    ensures FieldsBytes([f] + fs, [v] + vs, done, compact) == PartBytes(f, v, done, compact) + FieldsBytes(fs, vs, done + [v], compact)
    ensures ObservedPart(f, v, done) == Ok(v) && ObservedFields(fs, vs, done + [v]) == Ok(vs) ==>
      ObservedFields([f] + fs, [v] + vs, done) == Ok([v] + vs)
  {
    hide Fitting, PartBytes, ObservedPart;
    assert ([f] + fs)[1..] == fs && ([v] + vs)[1..] == vs;
  }

  lemma OneField(registry: Registry, f: Part, v: PartValue, b: bytes, compact: bool)
    requires FaithfulPart(registry, f, v, [], b, compact)
    ensures Faithful(registry, [f], [v], b, compact)
  {
    hide Fitting, PartBytes, ObservedPart, FittingEach, FieldsBytes, ObservedFields;
    NoMoreFields(registry, [] + [v], compact);
    FieldStep(registry, f, [], v, [], [], compact);
    assert [f] + [] == [f] && [v] + [] == [v] && b + [] == b;
  }

  lemma TwoFields(registry: Registry, f: Part, g: Part, v: PartValue, w: PartValue, b: bytes, c: bytes, compact: bool)
    requires FaithfulPart(registry, f, v, [], b, compact) && FaithfulPart(registry, g, w, [v], c, compact)
    ensures Faithful(registry, [f, g], [v, w], b + c, compact)
  {
    hide Fitting, PartBytes, ObservedPart, FittingEach, FieldsBytes, ObservedFields;
    assert [] + [v] == [v] && [v] + [w] == [v, w] && [f] + [g] == [f, g];
    NoMoreFields(registry, [v] + [w], compact);
    FieldStep(registry, g, [], w, [], [v], compact);
    assert [g] + [] == [g] && [w] + [] == [w] && c + [] == c;
    FieldStep(registry, f, [g], v, [w], [], compact);
  }

  lemma ThreeFields(registry: Registry, f: Part, g: Part, h: Part, u: PartValue, v: PartValue, w: PartValue, a: bytes, b: bytes, c: bytes,
                    compact: bool)
    requires FaithfulPart(registry, f, u, [], a, compact) && FaithfulPart(registry, g, v, [u], b, compact) && FaithfulPart(registry, h, w, [u, v], c, compact)
    ensures Faithful(registry, [f, g, h], [u, v, w], a + (b + c), compact)
  {
    hide Fitting, PartBytes, ObservedPart, FittingEach, FieldsBytes, ObservedFields;
    assert [] + [u] == [u] && [u] + [v] == [u, v] && [f] + [g, h] == [f, g, h] && [u] + [v, w] == [u, v, w];
    NoMoreFields(registry, [u, v] + [w], compact);
    FieldStep(registry, h, [], w, [], [u, v], compact);
    assert [h] + [] == [h] && [w] + [] == [w] && c + [] == c;
    FieldStep(registry, g, [h], v, [w], [u], compact);
    assert [g] + [h] == [g, h] && [v] + [w] == [v, w];
    FieldStep(registry, f, [g, h], u, [v, w], [], compact);
  }

  lemma NoRecords(registry: Registry, fields: seq<Part>, compact: bool)
    ensures FaithfulRecords(registry, fields, [], [], compact)
  {}

  lemma RecordStep(registry: Registry, fields: seq<Part>, r: seq<PartValue>, rs: seq<seq<PartValue>>, b: bytes, c: bytes, compact: bool)
    requires Faithful(registry, fields, r, b, compact) && FaithfulRecords(registry, fields, rs, c, compact)
    ensures FaithfulRecords(registry, fields, [r] + rs, b + c, compact)
  {
    hide FittingEach, FieldsBytes, ObservedFields;
    assert ([r] + rs)[1..] == rs;
  }

  lemma NumberPart(registry: Registry, width: nat, n: int, done: seq<PartValue>, compact: bool)
    requires width > 0 && FitsSigned(n, width)
    ensures FaithfulPart(registry, Fixed(width), Number(n), done, ToLE(n, width), compact)
  {}

  lemma RecordsPart(registry: Registry, fields: seq<Part>, rs: seq<seq<PartValue>>, b: bytes, done: seq<PartValue>, compact: bool)
    requires FaithfulRecords(registry, fields, rs, b, compact) && |rs| < MAX_LENGTH
    ensures FaithfulPart(registry, Structs(fields), Records(rs), done, ToLE(|rs|, 4) + b, compact)
  {
    hide AllFitting, RecordsBytes, ObservedRecords, ToLE, Encode, EncodeEach, Flatten, FitsSigned, FittingEach, FieldsBytes,
         ObservedFields, Kept;
  }

  lemma ChosenPart(registry: Registry, ifTrue: Part, otherwise: Part, v: PartValue, choice: bool, more: seq<PartValue>, b: bytes, compact: bool)
    requires var done := [Number(if choice then 1 else 0)] + more;
      FaithfulPart(registry, if choice then ifTrue else otherwise, v, done, b, compact)
    ensures FaithfulPart(registry, Conditional(0, ifTrue, otherwise), v, [Number(if choice then 1 else 0)] + more, b, compact)
  {
    Widths();
  }

  // ---- the parts of a reply

  lemma {:induction false} ConfigFaithful(registry: Registry, pairs: seq<(int, int)>, compact: bool)
    requires ConfigSent(pairs)
    ensures FaithfulRecords(registry, CACHE_CONFIG, ConfigRecords(pairs), ConfigBytes(pairs), compact)
    ensures ConfigOf(ConfigRecords(pairs)) == pairs
  {
    hide FaithfulRecords, Faithful, FaithfulPart, ToLE, FitsSigned;
    if pairs == [] {
      NoRecords(registry, CACHE_CONFIG, compact);
    } else {
      var p := pairs[0];
      ConfigFaithful(registry, pairs[1..], compact);
      NumberPart(registry, 4, p.0, [], compact);
      NumberPart(registry, 4, p.1, [Number(p.0)], compact);
      TwoFields(registry, Fixed(4), Fixed(4), Number(p.0), Number(p.1), ToLE(p.0, 4), ToLE(p.1, 4), compact);
      RecordStep(registry, CACHE_CONFIG, [Number(p.0), Number(p.1)], ConfigRecords(pairs[1..]), ToLE(p.0, 4) + ToLE(p.1, 4),
                 ConfigBytes(pairs[1..]), compact);
      assert ConfigRecords(pairs)[1..] == ConfigRecords(pairs[1..]);
      assert pairs == [p] + pairs[1..];
    }
  }

  function CacheFields(applicable: bool): seq<Part> {
    if applicable then CACHE_MAPPING else EMPTY_CACHE_MAPPING
  }

  lemma CacheFaithful(registry: Registry, applicable: bool, c: CacheConfig, compact: bool)
    requires CacheSent(applicable, c)
    ensures Faithful(registry, CacheFields(applicable), CacheRecord(applicable, c),
      ToLE(c.cacheId, 4) + (if applicable then ToLE(|c.keyConfig|, 4) + ConfigBytes(c.keyConfig) else []), compact)
    ensures var r := CacheRecord(applicable, c); NumberAt(r, 0) == c.cacheId && ConfigOf(RecordsAt(r, 1)) == c.keyConfig
  {
    hide FaithfulRecords, Faithful, FaithfulPart, ToLE, FitsSigned, ConfigSent, ConfigRecords, ConfigBytes, ConfigOf;
    NumberPart(registry, 4, c.cacheId, [], compact);
    if applicable {
      ConfigFaithful(registry, c.keyConfig, compact);
      ConfigIsShort(c.keyConfig);
      var rs := ConfigRecords(c.keyConfig);
      RecordsPart(registry, CACHE_CONFIG, rs, ConfigBytes(c.keyConfig), [Number(c.cacheId)], compact);
      TwoFields(registry, Fixed(4), Structs(CACHE_CONFIG), Number(c.cacheId), Records(rs), ToLE(c.cacheId, 4),
                ToLE(|rs|, 4) + ConfigBytes(c.keyConfig), compact);
    } else {
      OneField(registry, Fixed(4), Number(c.cacheId), ToLE(c.cacheId, 4), compact);
      NothingOf();
      assert ToLE(c.cacheId, 4) + [] == ToLE(c.cacheId, 4);
    }
  }

  lemma ConfigIsShort(pairs: seq<(int, int)>)
    requires ConfigSent(pairs)
    ensures |pairs| < MAX_LENGTH
  {}

  lemma NothingOf()
    ensures ConfigOf([]) == []
  {}

  lemma {:induction false} CachesFaithful(registry: Registry, applicable: bool, caches: seq<CacheConfig>, compact: bool)
    requires forall i :: 0 <= i < |caches| ==> CacheSent(applicable, caches[i])
    ensures FaithfulRecords(registry, CacheFields(applicable), CacheRecords(applicable, caches), CachesBytes(applicable, caches), compact)
    ensures CachesOf(CacheRecords(applicable, caches)) == caches
  {
    hide FaithfulRecords, Faithful, CacheSent, CacheRecord, ToLE, ConfigOf, NumberAt, RecordsAt, CacheFields;
    if caches == [] {
      NoRecords(registry, CacheFields(applicable), compact);
    } else {
      var c := caches[0];
      CacheFaithful(registry, applicable, c, compact);
      CachesFaithful(registry, applicable, caches[1..], compact);
      RecordStep(registry, CacheFields(applicable), CacheRecord(applicable, c), CacheRecords(applicable, caches[1..]),
                 ToLE(c.cacheId, 4) + (if applicable then ToLE(|c.keyConfig|, 4) + ConfigBytes(c.keyConfig) else []),
                 CachesBytes(applicable, caches[1..]), compact);
      assert CacheRecords(applicable, caches)[1..] == CacheRecords(applicable, caches[1..]);
      assert caches == [c] + caches[1..];
    }
  }

  lemma {:induction false} PartitionsFaithful(registry: Registry, partitions: seq<int>, compact: bool)
    requires forall i :: 0 <= i < |partitions| ==> FitsSigned(partitions[i], 4)
    ensures FaithfulRecords(registry, NODE_PARTITIONS, PartitionRecords(partitions), PartitionsBytes(partitions), compact)
    ensures PartitionsOf(PartitionRecords(partitions)) == partitions
  {
    hide FaithfulRecords, Faithful, FaithfulPart, ToLE, FitsSigned;
    if partitions == [] {
      NoRecords(registry, NODE_PARTITIONS, compact);
    } else {
      var p := partitions[0];
      PartitionsFaithful(registry, partitions[1..], compact);
      NumberPart(registry, 4, p, [], compact);
      OneField(registry, Fixed(4), Number(p), ToLE(p, 4), compact);
      RecordStep(registry, NODE_PARTITIONS, [Number(p)], PartitionRecords(partitions[1..]), ToLE(p, 4), PartitionsBytes(partitions[1..]),
                 compact);
      assert PartitionRecords(partitions)[1..] == PartitionRecords(partitions[1..]);
      assert partitions == [p] + partitions[1..];
    }
  }

  lemma UuidPart(registry: Registry, octets: bytes, compact: bool)
    requires |octets| == 16
    ensures FaithfulPart(registry, OfClass(Typed(TC_UUID)), Tagged(Uuid(octets)), [], [10] + PermuteUuid(octets), compact)
  {
    KindsOfCodes();
    hide KindOf, PermuteUuid;
  }

  lemma OctetsSpell(node: nat)
    requires node < TWO128
    ensures BigEndian(Octets(node)) == node
  {
    var le := ToLE(node, 16);
    ReverseTwice(le);
    ReversedIsBigEndian(Reverse(le));
    SixteenBytes();
    FromToLENat(node, 16);
    hide ToLE, FromLE, Reverse, BigEndian, Pow256;
  }

  lemma SixteenBytes()
    ensures Pow256(16) == TWO128
  {
    Widths();
    assert Pow256(9) == 256 * Pow256(8) && Pow256(10) == 256 * Pow256(9) && Pow256(11) == 256 * Pow256(10);
    assert Pow256(12) == 256 * Pow256(11) && Pow256(13) == 256 * Pow256(12) && Pow256(14) == 256 * Pow256(13);
    assert Pow256(15) == 256 * Pow256(14) && Pow256(16) == 256 * Pow256(15);
  }

  function NodeBytes(n: NodePartitions): bytes {
    [10] + (if n.node >= 0 then PermuteUuid(Octets(n.node)) else [])
    + (ToLE(|n.partitions|, 4) + PartitionsBytes(n.partitions))
  }

  lemma NodesBytesStep(nodes: seq<NodePartitions>)
    ensures NodesBytes(nodes) == if nodes == [] then [] else NodeBytes(nodes[0]) + NodesBytes(nodes[1..])
  {
    hide ToLE, PartitionsBytes, PermuteUuid, Octets;
    if nodes != [] { assert NodeBytes(nodes[0]) + NodesBytes(nodes[1..]) == NodesBytes(nodes); }
  }

  lemma NodeFaithful(registry: Registry, n: NodePartitions, compact: bool)
    requires NodeSent(n)
    ensures Faithful(registry, NODE_MAPPING, NodeRecord(n), NodeBytes(n), compact)
    ensures NodeAt(NodeRecord(n)) == n.node && PartitionsOf(RecordsAt(NodeRecord(n), 1)) == n.partitions
  {
    hide FaithfulRecords, Faithful, FaithfulPart, ToLE, FitsSigned, PartitionRecords, PartitionsBytes, PartitionsOf, PermuteUuid,
         Octets, BigEndian;
    var rs := PartitionRecords(n.partitions);
    OctetsSpell(n.node);
    UuidPart(registry, Octets(n.node), compact);
    PartitionsFaithful(registry, n.partitions, compact);
    var id := Tagged(Uuid(Octets(n.node)));
    RecordsPart(registry, NODE_PARTITIONS, rs, PartitionsBytes(n.partitions), [id], compact);
    TwoFields(registry, OfClass(Typed(TC_UUID)), Structs(NODE_PARTITIONS), id, Records(rs), [10] + PermuteUuid(Octets(n.node)),
              ToLE(|rs|, 4) + PartitionsBytes(n.partitions), compact);
  }

  lemma {:induction false} NodesFaithful(registry: Registry, nodes: seq<NodePartitions>, compact: bool)
    requires forall i :: 0 <= i < |nodes| ==> NodeSent(nodes[i])
    ensures FaithfulRecords(registry, NODE_MAPPING, NodeRecords(nodes), NodesBytes(nodes), compact)
    ensures NodesOf(NodeRecords(nodes)) == nodes
  {
    hide FaithfulRecords, Faithful, NodeRecord, NodeBytes, NodesBytes, PartitionsOf, NodeAt, RecordsAt, NodeSent;
    NodesBytesStep(nodes);
    if nodes == [] {
      NoRecords(registry, NODE_MAPPING, compact);
    } else {
      var n := nodes[0];
      NodeFaithful(registry, n, compact);
      NodesFaithful(registry, nodes[1..], compact);
      RecordStep(registry, NODE_MAPPING, NodeRecord(n), NodeRecords(nodes[1..]), NodeBytes(n), NodesBytes(nodes[1..]), compact);
      assert NodeRecords(nodes)[1..] == NodeRecords(nodes[1..]);
      assert nodes == [n] + nodes[1..];
    }
  }

  function GroupBytes(g: MappingGroup): bytes {
    [if g.applicable then 1 else 0]
    + ((ToLE(|g.caches|, 4) + CachesBytes(g.applicable, g.caches))
       + if g.applicable then ToLE(|g.nodes|, 4) + NodesBytes(g.nodes) else [])
  }

  lemma EmptyStruct(registry: Registry, done: seq<PartValue>, compact: bool)
    ensures FaithfulPart(registry, Inline([]), Record([]), done, [], compact)
  {}

  lemma FlagByte(applicable: bool)
    ensures FitsSigned(if applicable then 1 else 0, 1) && ToLE(if applicable then 1 else 0, 1) == [if applicable then 1 else 0]
  {
    Widths();
    OneByte(if applicable then 1 else 0);
  }

  lemma GroupFaithful(registry: Registry, g: MappingGroup, compact: bool)
    requires GroupSent(g)
    ensures Faithful(registry, PARTITION_MAPPING, GroupRecord(g), GroupBytes(g), compact)
    ensures var r := GroupRecord(g);
      (NumberAt(r, 0) != 0) == g.applicable && CachesOf(RecordsAt(r, 1)) == g.caches && NodesOf(RecordsAt(r, 2)) == g.nodes
  {
    hide FaithfulRecords, Faithful, FaithfulPart, ToLE, FitsSigned, CacheRecords, CachesBytes, CachesOf, NodeRecords, NodesBytes,
         NodesOf, CacheSent, NodeSent;
    var flag, caches := Number(if g.applicable then 1 else 0), CacheRecords(g.applicable, g.caches);
    FlagByte(g.applicable);
    NumberPart(registry, 1, flag.n, [], compact);
    CachesFaithful(registry, g.applicable, g.caches, compact);
    assert [flag] + [] == [flag];
    RecordsPart(registry, CacheFields(g.applicable), caches, CachesBytes(g.applicable, g.caches), [flag], compact);
    ChosenPart(registry, Structs(CACHE_MAPPING), Structs(EMPTY_CACHE_MAPPING), Records(caches), g.applicable, [],
               ToLE(|g.caches|, 4) + CachesBytes(g.applicable, g.caches), compact);
    var third := if g.applicable then Records(NodeRecords(g.nodes)) else Record([]);
    var b := if g.applicable then ToLE(|g.nodes|, 4) + NodesBytes(g.nodes) else [];
    assert [flag] + [Records(caches)] == [flag, Records(caches)];
    if g.applicable {
      NodesFaithful(registry, g.nodes, compact);
      RecordsPart(registry, NODE_MAPPING, NodeRecords(g.nodes), NodesBytes(g.nodes), [flag, Records(caches)], compact);
    } else {
      EmptyStruct(registry, [flag, Records(caches)], compact);
      NoNodes();
    }
    ChosenPart(registry, Structs(NODE_MAPPING), Inline([]), third, g.applicable, [Records(caches)], b, compact);
    ThreeFields(registry, Fixed(1), Conditional(0, Structs(CACHE_MAPPING), Structs(EMPTY_CACHE_MAPPING)),
                Conditional(0, Structs(NODE_MAPPING), Inline([])), flag, Records(caches), third,
                [if g.applicable then 1 else 0], ToLE(|g.caches|, 4) + CachesBytes(g.applicable, g.caches), b, compact);
  }

  lemma NoNodes()
    ensures NodesOf([]) == []
  {}

  lemma GroupsBytesStep(groups: seq<MappingGroup>)
    ensures GroupsBytes(groups) == if groups == [] then [] else GroupBytes(groups[0]) + GroupsBytes(groups[1..])
  {
    hide ToLE, CachesBytes, NodesBytes;
    if groups != [] { assert GroupBytes(groups[0]) + GroupsBytes(groups[1..]) == GroupsBytes(groups); }
  }

  lemma {:induction false} GroupsFaithful(registry: Registry, groups: seq<MappingGroup>, compact: bool)
    requires forall i :: 0 <= i < |groups| ==> GroupSent(groups[i])
    ensures FaithfulRecords(registry, PARTITION_MAPPING, GroupRecords(groups), GroupsBytes(groups), compact)
    ensures GroupsOf(GroupRecords(groups)) == groups
  {
    hide FaithfulRecords, Faithful, GroupRecord, GroupBytes, GroupsBytes, NodesOf, CachesOf, NumberAt, RecordsAt, GroupSent;
    GroupsBytesStep(groups);
    if groups == [] {
      NoRecords(registry, PARTITION_MAPPING, compact);
    } else {
      var g := groups[0];
      GroupFaithful(registry, g, compact);
      GroupsFaithful(registry, groups[1..], compact);
      RecordStep(registry, PARTITION_MAPPING, GroupRecord(g), GroupRecords(groups[1..]), GroupBytes(g), GroupsBytes(groups[1..]), compact);
      assert GroupRecords(groups)[1..] == GroupRecords(groups[1..]);
      assert groups == [g] + groups[1..];
    }
  }

  lemma ReplyFaithful(registry: Registry, reply: Reply, compact: bool)
    requires ReplySent(reply)
    ensures Faithful(registry, RESPONSE_CONFIG, AsFields(reply), ReplyBytes(reply), compact)
    ensures ReplyOf(AsFields(reply)) == reply
  {
    hide FaithfulRecords, Faithful, FaithfulPart, ToLE, FitsSigned, GroupRecords, GroupsBytes, GroupsOf, GroupSent;
    var v, rs := reply.version, GroupRecords(reply.groups);
    GroupsFaithful(registry, reply.groups, compact);
    NumberPart(registry, 8, v.0, [], compact);
    NumberPart(registry, 4, v.1, [Number(v.0)], compact);
    RecordsPart(registry, PARTITION_MAPPING, rs, GroupsBytes(reply.groups), [Number(v.0), Number(v.1)], compact);
    ThreeFields(registry, Fixed(8), Fixed(4), Structs(PARTITION_MAPPING), Number(v.0), Number(v.1), Records(rs),
                ToLE(v.0, 8), ToLE(v.1, 4), ToLE(|rs|, 4) + GroupsBytes(reply.groups), compact);
    assert ToLE(v.0, 8) + (ToLE(v.1, 4) + (ToLE(|rs|, 4) + GroupsBytes(reply.groups))) == ReplyBytes(reply);
  }

  /** Anywhere in a buffer: the answer to a partition request, with or without a change of topology in its header, is read
      as the reply that the server sent, with the position exactly behind it. */
  lemma ReplyReadsBack(registry: Registry, pre: bytes, length: int, queryId: int, topology: Option<(int, int)>, reply: Reply,
                       post: bytes, statusFlags: bool, style: Option<bool>)
    requires ReplySent(reply) && FitsSigned(queryId, 8) && (topology.Some? ==> statusFlags)
    requires topology.Some? ==> FitsSigned(topology.value.0, 8) && FitsSigned(topology.value.1, 4)
    ensures var head := HeaderBytes(length, Response(queryId, topology, Success([])), statusFlags);
      var r := DecodeResponse(registry, pre + (head + ReplyBytes(reply)) + post, RESPONSE_CONFIG, statusFlags, Cursor(|pre|, style));
      && r.Ok? && r.value.1 == |pre| + |head + ReplyBytes(reply)|
      && r.value.0.queryId == queryId && r.value.0.topology == topology
      && r.value.0.answer.Success? && ReplyOf(r.value.0.answer.values) == reply
  {
    hide ReplySent, ReplyBytes, FittingEach, FieldsBytes, ObservedFields, AsFields, ReplyOf, DecodeResponse, FitsSigned, ToLE;
    var compact := style != Some(false);
    ReplyFaithful(registry, reply, compact);
    var r := Response(queryId, topology, Success(AsFields(reply)));
    assert ResponseBytes(length, r, RESPONSE_CONFIG, statusFlags, compact)
        == HeaderBytes(length, Response(queryId, topology, Success([])), statusFlags) + ReplyBytes(reply);
    ResponseReadsBack(registry, pre, length, r, RESPONSE_CONFIG, post, statusFlags, compact, style);
  }
}
