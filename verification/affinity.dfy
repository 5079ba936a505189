/** Best-effort affinity: from a server's partition reply to the node that owns a key, and when the table is refreshed. */
module Affinity {
  import opened Bytes
  import opened Bits
  import opened Partitions

  type Version = (int, int)

  /** Python compares version tuples lexicographically. */
  predicate Older(a: Version, b: Version) {
    a.0 < b.0 || (a.0 == b.0 && a.1 < b.1)
  }

  function Newest(a: Version, b: Version): Version {
    if Older(a, b) then b else a
  }

  // ---- the reply and the table entry

  datatype NodePartitions = NodePartitions(node: int, partitions: seq<int>)
  datatype CacheConfig = CacheConfig(cacheId: int, keyConfig: seq<(int, int)>)
  datatype MappingGroup = MappingGroup(applicable: bool, caches: seq<CacheConfig>, nodes: seq<NodePartitions>)
  datatype Reply = Reply(version: Version, groups: seq<MappingGroup>)

  /** One node's entry of a mapping dictionary, in insertion order. */
  datatype Owner = Owner(node: int, partitions: set<int>)

  /** A cache's table entry; `origin` is the version of the reply it came from. */
  datatype Mapping =
    | Unknown
    | Known(applicable: bool, keyConfig: map<int, int>, owners: seq<Owner>, parts: nat, origin: Version)

  function AsSet(xs: seq<int>): (s: set<int>)
    ensures forall x :: x in s <==> x in xs
  {
    set x | x in xs
  }

  /** `d[node] = partitions` on an insertion-ordered dictionary. */
  function PutOwner(owners: seq<Owner>, o: Owner): (r: seq<Owner>) {
    if owners == [] then [o]
    else if owners[0].node == o.node then [o] + owners[1..]
    else [owners[0]] + PutOwner(owners[1..], o)
  }

  function OwnersOf(nodes: seq<NodePartitions>): seq<Owner> {
    if nodes == [] then []
    else
      var last := nodes[|nodes| - 1];
      PutOwner(OwnersOf(nodes[..|nodes| - 1]), Owner(last.node, AsSet(last.partitions)))
  }

  function KeyConfigOf(pairs: seq<(int, int)>): map<int, int> {
    if pairs == [] then map[]
    else KeyConfigOf(pairs[..|pairs| - 1])[pairs[|pairs| - 1].0 := pairs[|pairs| - 1].1]
  }

  /** `sum(len(p) for p in node_mapping.values())`. */
  function CountParts(owners: seq<Owner>): nat {
    if owners == [] then 0 else |owners[0].partitions| + CountParts(owners[1..])
  }

  function MappingOf(g: MappingGroup, c: CacheConfig, version: Version): Mapping {
    if g.applicable then
      var owners := OwnersOf(g.nodes);
      Known(true, KeyConfigOf(c.keyConfig), owners, CountParts(owners), version)
    else Known(false, map[], [], 0, version)
  }

  function GroupTable(table: map<int, Mapping>, g: MappingGroup, caches: seq<CacheConfig>, version: Version): map<int, Mapping> {
    if caches == [] then table
    else
      var c := caches[|caches| - 1];
      GroupTable(table, g, caches[..|caches| - 1], version)[c.cacheId := MappingOf(g, c, version)]
  }

  function ReplyTable(groups: seq<MappingGroup>, version: Version): map<int, Mapping> {
    if groups == [] then map[]
    else
      var g := groups[|groups| - 1];
      GroupTable(ReplyTable(groups[..|groups| - 1], version), g, g.caches, version)
  }

  /** `__post_process_partitions`: the nested loops that fill the table of a reply. */
  method PostProcess(reply: Reply) returns (table: map<int, Mapping>)
    ensures table == ReplyTable(reply.groups, reply.version)
  {
    hide MappingOf;
    table := map[];
    for i := 0 to |reply.groups|
      invariant table == ReplyTable(reply.groups[..i], reply.version)
    {
      var g := reply.groups[i];
      ghost var before := table;
      for j := 0 to |g.caches|
        invariant table == GroupTable(before, g, g.caches[..j], reply.version)
      {
        assert g.caches[..j + 1][..j] == g.caches[..j];
        table := table[g.caches[j].cacheId := MappingOf(g, g.caches[j], reply.version)];
      }
      assert g.caches[..|g.caches|] == g.caches;
      assert reply.groups[..i + 1][..i] == reply.groups[..i];
    }
    assert reply.groups[..|reply.groups|] == reply.groups;
  }

  // ---- ownership

  /** No partition has two owners. */
  ghost predicate Disjoint(owners: seq<Owner>) {
    forall i, j :: 0 <= i < j < |owners| ==> owners[i].partitions !! owners[j].partitions
  }

  function Union(owners: seq<Owner>): (u: set<int>)
    ensures forall x :: x in u <==> exists i :: 0 <= i < |owners| && x in owners[i].partitions
  {
    if owners == [] then {} else
      var rest := Union(owners[1..]);
      assert forall x :: x in owners[0].partitions + rest ==> exists i :: 0 <= i < |owners| && x in owners[i].partitions by {
        forall x | x in rest ensures exists i :: 0 <= i < |owners| && x in owners[i].partitions {
          var i :| 0 <= i < |owners[1..]| && x in owners[1..][i].partitions;
          assert x in owners[i + 1].partitions;
        }
      }
      assert forall i :: 1 <= i < |owners| ==> owners[i] == owners[1..][i - 1];
      owners[0].partitions + rest
  }

  function Range(n: nat): (s: set<int>)
    ensures |s| == n && forall x :: x in s <==> 0 <= x < n
  {
    if n == 0 then {} else Range(n - 1) + {n - 1}
  }

  lemma {:induction false} CountIsCardinality(owners: seq<Owner>)
    requires Disjoint(owners)
    ensures CountParts(owners) == |Union(owners)|
  {
    if owners != [] {
      assert forall i :: 1 <= i < |owners| ==> owners[i] == owners[1..][i - 1];
      CountIsCardinality(owners[1..]);
      var rest := Union(owners[1..]);
      assert owners[0].partitions !! rest by {
        forall x | x in rest ensures x !in owners[0].partitions {
          var i :| 0 <= i < |owners[1..]| && x in owners[1..][i].partitions;
          assert owners[0].partitions !! owners[i + 1].partitions;
        }
      }
    }
  }

  /** When the owners split 0..n-1 among them, the computed partition count is n. */
  lemma CountIsN(owners: seq<Owner>, n: nat)
    requires Disjoint(owners) && Union(owners) == Range(n)
    ensures CountParts(owners) == n
  {
    CountIsCardinality(owners);
  }

  /** The loop over the mapping: the first node that has the partition. */
  function FirstOwner(owners: seq<Owner>, part: int): Option<int> {
    if owners == [] then None
    else if part in owners[0].partitions then Some(owners[0].node)
    else FirstOwner(owners[1..], part)
  }

  ghost predicate Owns(owners: seq<Owner>, node: int, part: int) {
    exists i :: 0 <= i < |owners| && owners[i].node == node && part in owners[i].partitions
  }

  lemma {:induction false} FirstOwnerIsOwner(owners: seq<Owner>, part: int)
    ensures FirstOwner(owners, part).Some? ==> Owns(owners, FirstOwner(owners, part).value, part)
    ensures FirstOwner(owners, part).None? <==> part !in Union(owners)
  {
    if owners != [] {
      FirstOwnerIsOwner(owners[1..], part);
      assert forall i :: 1 <= i < |owners| ==> owners[i] == owners[1..][i - 1];
      if part !in owners[0].partitions {
        var f := FirstOwner(owners[1..], part);
        if f.Some? {
          var i :| 0 <= i < |owners[1..]| && owners[1..][i].node == f.value && part in owners[1..][i].partitions;
          assert owners[i + 1].node == f.value;
        }
        if part in Union(owners[1..]) {
          var i :| 0 <= i < |owners[1..]| && part in owners[1..][i].partitions;
          assert part in owners[i + 1].partitions;
        }
      }
    }
  }

  lemma SharedIsSame(owners: seq<Owner>, i: nat, j: nat, part: int)
    requires Disjoint(owners) && i < |owners| && j < |owners|
    requires part in owners[i].partitions && part in owners[j].partitions
    ensures i == j
  {}

  /** Whatever the dictionary order, the owner found is the only one. */
  lemma OwnerIsUnique(owners: seq<Owner>, part: int, node: int)
    requires Disjoint(owners)
    ensures Owns(owners, node, part) ==> FirstOwner(owners, part) == Some(node)
  {
    FirstOwnerIsOwner(owners, part);
    if Owns(owners, node, part) {
      var i :| 0 <= i < |owners| && owners[i].node == node && part in owners[i].partitions;
      assert part in Union(owners);
      var first := FirstOwner(owners, part).value;
      var j :| 0 <= j < |owners| && owners[j].node == first && part in owners[j].partitions;
      SharedIsSame(owners, i, j, part);
    }
  }

  // ---- routing

  /** A connection the client holds. */
  datatype Node = Node(uuid: int, alive: bool)

  /** The connection loop: the first connection with the owner's identifier, if it is alive. */
  function Connected(nodes: seq<Node>, uuid: int): Option<nat> {
    ConnectedFrom(nodes, uuid, 0)
  }

  function ConnectedFrom(nodes: seq<Node>, uuid: int, i: nat): (r: Option<nat>)
    requires i <= |nodes|
    ensures forall j :: i <= j < |nodes| && nodes[j].uuid == uuid && (forall h :: i <= h < j ==> nodes[h].uuid != uuid) ==>
      r == if nodes[j].alive then Some(j) else None
    ensures (forall j :: i <= j < |nodes| ==> nodes[j].uuid != uuid) ==> r == None
    ensures r.Some? ==> r.value < |nodes| && nodes[r.value] == Node(uuid, true)
    decreases |nodes| - i
  {
    if i == |nodes| then None
    else if nodes[i].uuid == uuid then (if nodes[i].alive then Some(i) else None)
    else ConnectedFrom(nodes, uuid, i + 1)
  }

  /** Where a key goes: to a connection, to any, or nowhere because the computed partition is out of range. */
  datatype Route = To(connection: nat) | Anywhere | PartitionFails

  /** The key goes to the first connection with the identifier if that one is alive, and else stays where it was. */
  ghost predicate LeadsTo(nodes: seq<Node>, uuid: int, r: Route) {
    && (forall j :: 0 <= j < |nodes| && nodes[j].uuid == uuid && (forall h :: 0 <= h < j ==> nodes[h].uuid != uuid) ==>
          r == if nodes[j].alive then To(j) else Anywhere)
    && ((forall j :: 0 <= j < |nodes| ==> nodes[j].uuid != uuid) ==> r == Anywhere)
  }

  function Via(connection: Option<nat>): Route {
    if connection.Some? then To(connection.value) else Anywhere
  }

  /** `_get_node_by_hashcode`, its assertion included: the count is a parameter, the owners are read from the table. */
  function RouteWith(parts: nat, m: Mapping, nodes: seq<Node>, hash: int): Route
    requires parts > 0
  {
    var part := Partition(hash, parts);
    if !(0 <= part < parts) then PartitionFails
    else
      var owner := FirstOwner(if m.Known? then m.owners else [], part);
      if owner.None? then Anywhere else Via(Connected(nodes, owner.value))
  }

  function RouteTo(m: Mapping, nodes: seq<Node>, hash: int): Route
    requires m.Known? && m.parts > 0
  {
    RouteWith(m.parts, m, nodes, hash)
  }

  /** The assertion fails exactly for a partition count that is not a power of two and a hash beyond its square. */
  lemma PartitionFailsExactly(m: Mapping, nodes: seq<Node>, hash: int)
    requires m.Known? && m.parts > 0
    ensures RouteTo(m, nodes, hash).PartitionFails? <==>
      (forall k: nat :: m.parts != Pow2(k)) && !(-(m.parts * (m.parts - 1)) <= hash < m.parts * m.parts)
  {
    hide Partition, And, Pow2, FirstOwner, Connected;
    PowerOfTwoTest(m.parts);
    if k: nat :| m.parts == Pow2(k) {
      PartitionInRange(hash, k);
    } else {
      OtherCountsInRangeExactly(hash, m.parts);
    }
  }

  /** With partitions split among the nodes and a power of two of them, a key is routed to an alive connection
      of the one node that owns its partition, or to none; and the owner always exists. */
  lemma RoutesToTheOwner(m: Mapping, nodes: seq<Node>, hash: int, k: nat)
    requires m.Known? && Disjoint(m.owners) && Union(m.owners) == Range(Pow2(k)) && m.parts == CountParts(m.owners)
    ensures m.parts == Pow2(k)
    ensures var part := Partition(hash, m.parts);
      exists node :: Owns(m.owners, node, part)
        && (forall other :: Owns(m.owners, other, part) ==> other == node)
        && LeadsTo(nodes, node, RouteTo(m, nodes, hash))
    ensures var r := RouteTo(m, nodes, hash);
      !r.PartitionFails? && (r.To? ==> r.connection < |nodes| && nodes[r.connection].alive)
  {
    CountIsN(m.owners, Pow2(k));
    PartitionInRange(hash, k);
    hide Partition, Pow2, Connected, LeadsTo, Union, Range, Via, Disjoint, CountParts;
    var part := Partition(hash, m.parts);
    FirstOwnerIsOwner(m.owners, part);
    var node := FirstOwner(m.owners, part).value;
    forall other | Owns(m.owners, other, part) ensures other == node {
      OwnerIsUnique(m.owners, part, other);
    }
    ViaLeads(nodes, node);
  }

  lemma ViaLeads(nodes: seq<Node>, uuid: int)
    ensures LeadsTo(nodes, uuid, Via(Connected(nodes, uuid)))
    ensures var r := Via(Connected(nodes, uuid));
      !r.PartitionFails? && (r.To? ==> r.connection < |nodes| && nodes[r.connection].alive)
  {}

  // ---- from a reply to the route

  /** What a dictionary of owners holds for a node. */
  function Entry(owners: seq<Owner>, node: int): Option<set<int>> {
    if owners == [] then None
    else if owners[0].node == node then Some(owners[0].partitions)
    else Entry(owners[1..], node)
  }

  /** What a reply says of a node: its last listing counts. */
  function LastListing(nodes: seq<NodePartitions>, node: int): Option<set<int>> {
    if nodes == [] then None
    else if nodes[|nodes| - 1].node == node then Some(AsSet(nodes[|nodes| - 1].partitions))
    else LastListing(nodes[..|nodes| - 1], node)
  }

  function SizeOf(entry: Option<set<int>>): nat {
    if entry.Some? then |entry.value| else 0
  }

  ghost predicate DistinctNodes(owners: seq<Owner>) {
    forall i, j :: 0 <= i < j < |owners| ==> owners[i].node != owners[j].node
  }

  lemma {:induction false} PutEntry(owners: seq<Owner>, o: Owner, node: int)
    ensures Entry(PutOwner(owners, o), node) == if node == o.node then Some(o.partitions) else Entry(owners, node)
  {
    if owners != [] {
      PutEntry(owners[1..], o, node);
      assert ([owners[0]] + PutOwner(owners[1..], o))[1..] == PutOwner(owners[1..], o);
      assert ([o] + owners[1..])[1..] == owners[1..];
    } else {
      assert [o][1..] == [];
    }
  }

  lemma {:induction false} PutCount(owners: seq<Owner>, o: Owner)
    ensures CountParts(PutOwner(owners, o)) + SizeOf(Entry(owners, o.node)) == CountParts(owners) + |o.partitions|
  {
    if owners != [] {
      PutCount(owners[1..], o);
      assert ([owners[0]] + PutOwner(owners[1..], o))[1..] == PutOwner(owners[1..], o);
      assert ([o] + owners[1..])[1..] == owners[1..];
    } else {
      assert [o][1..] == [];
    }
  }

  lemma {:induction false} EntryIsOwner(owners: seq<Owner>, i: nat)
    requires DistinctNodes(owners) && i < |owners|
    ensures Entry(owners, owners[i].node) == Some(owners[i].partitions)
  {
    if i > 0 {
      assert owners[0].node != owners[i].node;
      EntryIsOwner(owners[1..], i - 1);
    }
  }

  lemma {:induction false} OwnerOfEntry(owners: seq<Owner>, node: int) returns (i: nat)
    requires Entry(owners, node).Some?
    ensures i < |owners| && owners[i] == Owner(node, Entry(owners, node).value)
  {
    if owners[0].node == node { i := 0; } else { i := OwnerOfEntry(owners[1..], node); i := i + 1; }
  }

  lemma {:induction false} PutDistinct(owners: seq<Owner>, o: Owner)
    requires DistinctNodes(owners)
    ensures DistinctNodes(PutOwner(owners, o))
    ensures forall x :: x in PutOwner(owners, o) ==> x == o || x in owners
    ensures forall x :: x in PutOwner(owners, o) && x != o ==> x.node != o.node
  {
    if owners != [] && owners[0].node != o.node {
      PutDistinct(owners[1..], o);
      var rest := PutOwner(owners[1..], o);
      forall j | 0 <= j < |rest| ensures rest[j].node != owners[0].node {
        assert rest[j] in rest;
        if rest[j] != o { var k :| 0 <= k < |owners[1..]| && owners[1..][k] == rest[j]; assert owners[k + 1] == rest[j]; }
      }
    } else if owners != [] {
      forall x | x in owners[1..] ensures x in owners && x.node != o.node {
        var k :| 0 <= k < |owners[1..]| && owners[1..][k] == x;
        assert owners[k + 1] == x;
      }
    }
  }

  /** The dictionary of a reply holds the last listing of each node. */
  lemma {:induction false} OwnersAreLastListings(nodes: seq<NodePartitions>)
    ensures DistinctNodes(OwnersOf(nodes))
    ensures forall node :: Entry(OwnersOf(nodes), node) == LastListing(nodes, node)
  {
    if nodes != [] {
      var before, last := nodes[..|nodes| - 1], nodes[|nodes| - 1];
      OwnersAreLastListings(before);
      var o := Owner(last.node, AsSet(last.partitions));
      PutDistinct(OwnersOf(before), o);
      forall node ensures Entry(OwnersOf(nodes), node) == LastListing(nodes, node) { PutEntry(OwnersOf(before), o, node); }
    }
  }

  ghost predicate Listed(nodes: seq<NodePartitions>, p: int) {
    exists i :: 0 <= i < |nodes| && p in AsSet(nodes[i].partitions)
  }

  /** The listings split 0..n-1 among them. */
  ghost predicate Split(nodes: seq<NodePartitions>, n: nat) {
    && (forall i, j :: 0 <= i < j < |nodes| ==> AsSet(nodes[i].partitions) !! AsSet(nodes[j].partitions))
    && (forall p :: Listed(nodes, p) <==> 0 <= p < n)
  }

  /** No node that is listed again had any partitions before. */
  predicate NothingLost(nodes: seq<NodePartitions>) {
    forall i, j :: 0 <= i < j < |nodes| && nodes[i].node == nodes[j].node ==> nodes[i].partitions == []
  }

  function Listings(nodes: seq<NodePartitions>): (owners: seq<Owner>)
    ensures |owners| == |nodes|
  {
    seq(|nodes|, i requires 0 <= i < |nodes| => Owner(nodes[i].node, AsSet(nodes[i].partitions)))
  }

  lemma {:induction false} CountSnoc(owners: seq<Owner>, o: Owner)
    ensures CountParts(owners + [o]) == CountParts(owners) + |o.partitions|
  {
    if owners == [] {
      assert [] + [o] == [o] && [o][1..] == [];
    } else {
      CountSnoc(owners[1..], o);
      assert (owners + [o])[1..] == owners[1..] + [o];
    }
  }

  lemma EmptyListing(partitions: seq<int>)
    ensures |AsSet(partitions)| == 0 <==> partitions == []
  {
    if partitions != [] { assert partitions[0] in AsSet(partitions); }
  }

  lemma {:induction false} LastListingEmpty(nodes: seq<NodePartitions>, node: int)
    requires NothingLost(nodes)
    ensures SizeOf(LastListing(nodes, node)) == 0
      <==> forall i :: 0 <= i < |nodes| && nodes[i].node == node ==> nodes[i].partitions == []
  {
    if nodes != [] {
      var before, last := nodes[..|nodes| - 1], nodes[|nodes| - 1];
      EmptyListing(last.partitions);
      LastListingEmpty(before, node);
      assert forall i :: 0 <= i < |before| ==> nodes[i] == before[i];
    }
  }

  /** The dictionary counts as many partitions as were listed exactly if nothing was overwritten. */
  lemma {:induction false} CountOfListings(nodes: seq<NodePartitions>)
    ensures CountParts(OwnersOf(nodes)) <= CountParts(Listings(nodes))
    ensures CountParts(OwnersOf(nodes)) == CountParts(Listings(nodes)) <==> NothingLost(nodes)
  {
    if nodes != [] {
      var before, last := nodes[..|nodes| - 1], nodes[|nodes| - 1];
      var o := Owner(last.node, AsSet(last.partitions));
      CountOfListings(before);
      OwnersAreLastListings(before);
      PutCount(OwnersOf(before), o);
      CountSnoc(Listings(before), o);
      assert Listings(nodes) == Listings(before) + [o];
      LostStep(nodes);
      if NothingLost(before) { LastListingEmpty(before, last.node); }
      hide NothingLost, OwnersOf, LastListing, Entry, CountParts, Listings;
    }
  }

  lemma LostStep(nodes: seq<NodePartitions>)
    requires nodes != []
    ensures var before, node := nodes[..|nodes| - 1], nodes[|nodes| - 1].node;
      NothingLost(nodes) <==>
        NothingLost(before) && forall i :: 0 <= i < |before| && before[i].node == node ==> before[i].partitions == []
  {}

  /** If a reply's listings split 0..n-1, the computed partition count is n exactly if no node with partitions was
      overwritten by a second listing. */
  lemma ReplyCountExactly(nodes: seq<NodePartitions>, n: nat)
    requires Split(nodes, n)
    ensures CountParts(OwnersOf(nodes)) == n <==> NothingLost(nodes)
  {
    var owners := Listings(nodes);
    assert Disjoint(owners);
    assert Union(owners) == Range(n) by {
      forall p ensures p in Union(owners) <==> p in Range(n) {
        assert Listed(nodes, p) <==> 0 <= p < n;
        if i :| 0 <= i < |nodes| && p in AsSet(nodes[i].partitions) { assert p in owners[i].partitions; }
      }
    }
    hide Union, Range, OwnersOf, CountParts, NothingLost, Split, Listings;
    CountIsN(owners, n);
    CountOfListings(nodes);
  }

  lemma LastListingIsListed(nodes: seq<NodePartitions>, node: int) returns (i: nat)
    requires LastListing(nodes, node).Some?
    ensures i < |nodes| && nodes[i].node == node && LastListing(nodes, node).value == AsSet(nodes[i].partitions)
  {
    if nodes[|nodes| - 1].node == node { i := |nodes| - 1; } else { i := LastListingIsListed(nodes[..|nodes| - 1], node); }
  }

  lemma {:induction false} ListedIsKept(nodes: seq<NodePartitions>, i: nat, p: int)
    requires NothingLost(nodes) && i < |nodes| && p in AsSet(nodes[i].partitions)
    ensures LastListing(nodes, nodes[i].node) == Some(AsSet(nodes[i].partitions))
  {
    var before := nodes[..|nodes| - 1];
    if i < |before| {
      assert forall j :: 0 <= j < |before| ==> nodes[j] == before[j];
      ListedIsKept(before, i, p);
      assert nodes[|nodes| - 1].node != nodes[i].node;
    }
  }

  ghost predicate Lists(nodes: seq<NodePartitions>, node: int, p: int) {
    exists i :: 0 <= i < |nodes| && nodes[i].node == node && p in AsSet(nodes[i].partitions)
  }

  /** With nothing overwritten the dictionary's owners are the listed ones. */
  lemma OwnsExactly(nodes: seq<NodePartitions>, node: int, p: int)
    requires NothingLost(nodes)
    ensures Owns(OwnersOf(nodes), node, p) <==> Lists(nodes, node, p)
  {
    hide OwnersOf, NothingLost, LastListing, Entry, AsSet;
    OwnersAreLastListings(nodes);
    var owners := OwnersOf(nodes);
    if Owns(owners, node, p) {
      var i :| 0 <= i < |owners| && owners[i].node == node && p in owners[i].partitions;
      EntryIsOwner(owners, i);
      var j := LastListingIsListed(nodes, node);
    }
    if Lists(nodes, node, p) {
      var i :| 0 <= i < |nodes| && nodes[i].node == node && p in AsSet(nodes[i].partitions);
      ListedIsKept(nodes, i, p);
      var j := OwnerOfEntry(owners, node);
    }
  }

  lemma SplitOwners(nodes: seq<NodePartitions>, n: nat)
    requires Split(nodes, n) && NothingLost(nodes)
    ensures Disjoint(OwnersOf(nodes)) && Union(OwnersOf(nodes)) == Range(n)
  {
    hide OwnersOf, NothingLost;
    var owners := OwnersOf(nodes);
    OwnersAreLastListings(nodes);
    forall i, j | 0 <= i < j < |owners| ensures owners[i].partitions !! owners[j].partitions {
      forall p | p in owners[i].partitions ensures p !in owners[j].partitions {
        if p in owners[j].partitions { OneListing(nodes, n, owners[i].node, owners[j].node, p); }
      }
    }
    forall p ensures p in Union(owners) <==> p in Range(n) {
      assert Listed(nodes, p) <==> 0 <= p < n;
      if i :| 0 <= i < |owners| && p in owners[i].partitions { OwnsExactly(nodes, owners[i].node, p); }
      if i :| 0 <= i < |nodes| && p in AsSet(nodes[i].partitions) { OwnsExactly(nodes, nodes[i].node, p); }
    }
  }

  lemma OneListing(nodes: seq<NodePartitions>, n: nat, a: int, b: int, p: int)
    requires Split(nodes, n) && NothingLost(nodes)
    requires Owns(OwnersOf(nodes), a, p) && Owns(OwnersOf(nodes), b, p)
    ensures a == b
  {
    hide OwnersOf, NothingLost, AsSet;
    OwnsExactly(nodes, a, p);
    OwnsExactly(nodes, b, p);
    var i :| 0 <= i < |nodes| && nodes[i].node == a && p in AsSet(nodes[i].partitions);
    var j :| 0 <= j < |nodes| && nodes[j].node == b && p in AsSet(nodes[j].partitions);
    var low, high := if i < j then i else j, if i < j then j else i;
    if low < high { assert AsSet(nodes[low].partitions) !! AsSet(nodes[high].partitions); }
  }

  predicate Names(caches: seq<CacheConfig>, c: int) {
    exists i :: 0 <= i < |caches| && caches[i].cacheId == c
  }

  /** The affinity key field that a list of pairs gives for a key type: the last pair counts. */
  function KeyField(pairs: seq<(int, int)>, typeId: int): Option<int> {
    if pairs == [] then None
    else if pairs[|pairs| - 1].0 == typeId then Some(pairs[|pairs| - 1].1)
    else KeyField(pairs[..|pairs| - 1], typeId)
  }

  ghost predicate HoldsPairs(config: map<int, int>, pairs: seq<(int, int)>) {
    forall t :: if KeyField(pairs, t).Some? then t in config && config[t] == KeyField(pairs, t).value else t !in config
  }

  lemma {:induction false} KeyConfigHolds(pairs: seq<(int, int)>)
    ensures HoldsPairs(KeyConfigOf(pairs), pairs)
  {
    if pairs != [] { KeyConfigHolds(pairs[..|pairs| - 1]); }
  }

  /** The configuration that a group gives for a cache: its last one. */
  function LastConfig(caches: seq<CacheConfig>, c: int): seq<(int, int)>
    requires Names(caches, c)
  {
    var last := caches[|caches| - 1];
    if last.cacheId == c then last.keyConfig
    else
      assert Names(caches[..|caches| - 1], c) by {
        var i :| 0 <= i < |caches| && caches[i].cacheId == c;
        assert caches[..|caches| - 1][i].cacheId == c;
      }
      LastConfig(caches[..|caches| - 1], c)
  }

  /** The entry that group g gives for cache c. */
  ghost predicate IsFrom(m: Mapping, g: MappingGroup, version: Version, caches: seq<CacheConfig>, c: int)
    requires Names(caches, c)
  {
    && m.Known? && m.applicable == g.applicable && m.origin == version
    && (if g.applicable then
          m.owners == OwnersOf(g.nodes) && m.parts == CountParts(OwnersOf(g.nodes)) && HoldsPairs(m.keyConfig, LastConfig(caches, c))
        else m.owners == [] && m.parts == 0 && m.keyConfig == map[])
  }

  lemma {:induction false} GroupEntry(table: map<int, Mapping>, g: MappingGroup, caches: seq<CacheConfig>, version: Version,
                                      c: int)
    ensures var t := GroupTable(table, g, caches, version);
      if Names(caches, c) then c in t && IsFrom(t[c], g, version, caches, c)
      else (c in t <==> c in table) && (c in t ==> t[c] == table[c])
  {
    hide KeyConfigOf, OwnersOf, CountParts, HoldsPairs;
    if caches != [] {
      var before := caches[..|caches| - 1];
      KeyConfigHolds(caches[|caches| - 1].keyConfig);
      GroupEntry(table, g, before, version, c);
      if Names(before, c) {
        var i :| 0 <= i < |before| && before[i].cacheId == c;
        assert caches[i].cacheId == c;
      }
      if Names(caches, c) && caches[|caches| - 1].cacheId != c {
        var i :| 0 <= i < |caches| && caches[i].cacheId == c;
        assert before[i].cacheId == c;
      }
    }
  }

  /** A reply's entry for a cache is from the last group that names it. */
  lemma {:induction false} ReplyEntry(groups: seq<MappingGroup>, version: Version, g: nat, c: int)
    requires g < |groups| && Names(groups[g].caches, c)
    requires forall h :: g < h < |groups| ==> !Names(groups[h].caches, c)
    ensures var t := ReplyTable(groups, version); c in t && IsFrom(t[c], groups[g], version, groups[g].caches, c)
  {
    hide GroupTable, IsFrom, Names;
    var before, last := groups[..|groups| - 1], groups[|groups| - 1];
    GroupEntry(ReplyTable(before, version), last, last.caches, version, c);
    if g < |before| { ReplyEntry(before, version, g, c); }
  }

  /** Group g is the last one in the reply to name the cache. */
  predicate SpeaksFor(reply: Reply, g: nat, c: int) {
    g < |reply.groups| && Names(reply.groups[g].caches, c)
    && forall h :: g < h < |reply.groups| ==> !Names(reply.groups[h].caches, c)
  }

  /** The listings split 2^k partitions, and nothing of them is overwritten. */
  ghost predicate SplitWhole(listed: seq<NodePartitions>, k: nat) {
    Split(listed, Pow2(k)) && NothingLost(listed)
  }

  /** Routing by a reply: if the group that speaks for the cache lists its nodes so that they split 2^k partitions, with
      nothing overwritten, then every key has exactly one listed owner and goes to a live connection of that owner,
      or to none. */
  lemma RoutesByReply(reply: Reply, g: nat, c: int, nodes: seq<Node>, hash: int, k: nat)
    requires SpeaksFor(reply, g, c) && reply.groups[g].applicable && SplitWhole(reply.groups[g].nodes, k)
    ensures var t := ReplyTable(reply.groups, reply.version);
      && c in t && t[c].Known? && t[c].parts == Pow2(k)
      && var part := Partition(hash, Pow2(k));
      && 0 <= part < Pow2(k)
      && exists node :: Lists(reply.groups[g].nodes, node, part)
           && (forall other :: Lists(reply.groups[g].nodes, other, part) ==> other == node)
           && LeadsTo(nodes, node, RouteTo(t[c], nodes, hash))
  {
    hide OwnersOf, CountParts, ReplyTable, Partition, Pow2, Names, LeadsTo, RouteTo, Split, NothingLost, Lists, Owns,
         Union, Range;
    var listed := reply.groups[g].nodes;
    ReplyEntry(reply.groups, reply.version, g, c);
    var m := ReplyTable(reply.groups, reply.version)[c];
    SplitOwners(listed, Pow2(k));
    PartitionInRange(hash, k);
    RoutesToTheOwner(m, nodes, hash, k);
    var part := Partition(hash, Pow2(k));
    forall node ensures Owns(m.owners, node, part) <==> Lists(listed, node, part) { OwnsExactly(listed, node, part); }
    var node :| Owns(m.owners, node, part) && (forall other :: Owns(m.owners, other, part) ==> other == node)
      && LeadsTo(nodes, node, RouteTo(m, nodes, hash));
    assert Lists(listed, node, part);
  }
}
