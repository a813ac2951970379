/** Inserting the package graphs of one snapshot: read what is known, skip it, insert the rest
    in batches inside one transaction, then refer to it from the manifests. */
module SnapshotInsert {
  import opened Options
  import opened MerkleTree
  import opened DependencyStore
  import opened DependencyGraph
  import Ordering

  const BATCH := 999

  /** One lockfile: its root and each of its top-level dependencies, or nothing when it did not parse. */
  datatype PackageGraph = PackageGraph(lockFilePath: string, dependencies: seq<GraphNode>, rootTreeHashId: Option<Id>)

  /** A lockfile and what it parses to, if it does. */
  datatype Lockfile = Lockfile(path: string, parsed: Option<Dep>)

  datatype ManifestKey = ManifestKey(buildId: string, path: string)

  /** JavaScript's slice(i, i + n): the bounds are clamped to the length. */
  function Slice<T>(s: seq<T>, i: nat, n: nat): seq<T> {
    s[Min(i, |s|)..Min(i + n, |s|)]
  }

  function ToSet<T>(s: seq<T>): set<T> {
    set x | x in s
  }

  /** The slices of step n put one after another are the whole sequence, so each element is in one. */
  lemma SliceExtends<T>(s: seq<T>, i: nat, n: nat)
    requires i <= |s|
    ensures s[..i] + Slice(s, i, n) == s[..Min(i + n, |s|)]
  {
  }

  // ----- the order of edges -----

  predicate StringLt(a: string, b: string) {
    a != b && Ordering.StringLe(a, b)
  }

  function SortEdges(a: Edge, b: Edge): int {
    if StringLt(a.parent, b.parent) then -1
    else if StringLt(b.parent, a.parent) then 1
    else if StringLt(a.child, b.child) then -1
    else if StringLt(b.child, a.child) then 1
    else 0
  }

  predicate EdgeLe(a: Edge, b: Edge) {
    SortEdges(a, b) <= 0
  }

  /** The comparison orders edges by parent, then child. */
  lemma EdgeLeMeans(a: Edge, b: Edge)
    ensures EdgeLe(a, b)
      <==> StringLt(a.parent, b.parent) || (a.parent == b.parent && Ordering.StringLe(a.child, b.child))
  {
    Ordering.StringOrder();
  }

  lemma EdgeOrder()
    ensures Ordering.TotalOrder(EdgeLe)
  {
    hide SortEdges;
    Ordering.StringOrder();
    forall a, b ensures EdgeLe(a, b) || EdgeLe(b, a) { EdgeLeMeans(a, b); EdgeLeMeans(b, a); }
    forall a, b | EdgeLe(a, b) && EdgeLe(b, a) ensures a == b { EdgeLeMeans(a, b); EdgeLeMeans(b, a); }
    forall a, b, c | EdgeLe(a, b) && EdgeLe(b, c) ensures EdgeLe(a, c) {
      EdgeLeMeans(a, b);
      EdgeLeMeans(b, c);
      EdgeLeMeans(a, c);
    }
  }

  /** The stream of edges is sorted as a whole, so sorting each batch again changes nothing. */
  lemma BatchAlreadySorted(edges: seq<Edge>, i: nat, n: nat)
    ensures Ordering.Sort(EdgeLe, Slice(Ordering.Sort(EdgeLe, edges), i, n))
      == Slice(Ordering.Sort(EdgeLe, edges), i, n)
  {
    EdgeOrder();
    Ordering.SortSorts(EdgeLe, edges);
    Ordering.SortFixesSorted(EdgeLe, Slice(Ordering.Sort(EdgeLe, edges), i, n));
  }

  // ----- the database -----

  function NodeRow(n: GraphNode): Row {
    Row(n.packageData.name.GetOr(""), n.packageData.version.GetOr(""), n.parentRange)
  }

  /** Rows inserted one by one, a row whose id is there already being dropped. */
  function AddRows(rows: map<Id, Row>, batch: seq<GraphNode>): map<Id, Row>
    decreases batch
  {
    if batch == [] then rows
    else if batch[0].treeHashId in rows then AddRows(rows, batch[1..])
    else AddRows(rows[batch[0].treeHashId := NodeRow(batch[0])], batch[1..])
  }

  lemma {:induction false} AddRowsAppend(rows: map<Id, Row>, a: seq<GraphNode>, b: seq<GraphNode>)
    ensures AddRows(rows, a + b) == AddRows(AddRows(rows, a), b)
    decreases a
  {
    if a == [] {
      assert a + b == b;
    } else {
      assert (a + b)[0] == a[0] && (a + b)[1..] == a[1..] + b;
      AddRowsAppend(if a[0].treeHashId in rows then rows else rows[a[0].treeHashId := NodeRow(a[0])], a[1..], b);
    }
  }

  lemma {:induction false} AddRowsResult(rows: map<Id, Row>, batch: seq<GraphNode>, key: Id)
    ensures key in AddRows(rows, batch) <==> key in rows || exists n :: n in batch && n.treeHashId == key
    ensures key in rows ==> AddRows(rows, batch)[key] == rows[key]
    ensures key in AddRows(rows, batch) && key !in rows ==>
      exists n :: n in batch && n.treeHashId == key && AddRows(rows, batch)[key] == NodeRow(n)
    decreases batch
  {
    if batch != [] {
      var rows' := if batch[0].treeHashId in rows then rows else rows[batch[0].treeHashId := NodeRow(batch[0])];
      AddRowsResult(rows', batch[1..], key);
      assert batch == [batch[0]] + batch[1..];
    }
  }

  /** No row has the id of this node, neither before nor from an earlier node of the batch. */
  ghost predicate FirstInserted(ids: set<Id>, batch: seq<GraphNode>, i: int)
    requires 0 <= i < |batch|
  {
    batch[i].treeHashId !in ids && forall j :: 0 <= j < i ==> batch[j].treeHashId != batch[i].treeHashId
  }

  lemma {:induction false} FirstRowStays(rows: map<Id, Row>, batch: seq<GraphNode>, i: nat)
    requires i < |batch| && batch[i].treeHashId !in rows
    requires forall j :: 0 <= j < i ==> batch[j].treeHashId != batch[i].treeHashId
    ensures batch[i].treeHashId in AddRows(rows, batch)
    ensures AddRows(rows, batch)[batch[i].treeHashId] == NodeRow(batch[i])
    decreases i
  {
    var rows' := if batch[0].treeHashId in rows then rows else rows[batch[0].treeHashId := NodeRow(batch[0])];
    if i == 0 {
      AddRowsResult(rows', batch[1..], batch[0].treeHashId);
    } else {
      assert batch[1..][i - 1] == batch[i] && forall j :: 0 <= j < i - 1 ==> batch[1..][j] == batch[j + 1];
      FirstRowStays(rows', batch[1..], i - 1);
    }
  }

  class Database {
    var nodes: map<Id, Row>
    var edges: set<Edge>
    /** The node ids that manifest rows refer to. */
    var manifestNodes: set<Id>
    /** The build and path of each manifest, which a unique index keeps apart. */
    var manifestKeys: set<ManifestKey>

    ghost function Contents(): Tables
      reads this
    {
      Tables(nodes, edges)
    }

    ghost predicate SameManifests(nodes: set<Id>, keys: set<ManifestKey>)
      reads this
    {
      manifestNodes == nodes && manifestKeys == keys
    }

    method SelectKnown(slice: seq<Id>) returns (ids: set<Id>)
      ensures ids == set x | x in slice && x in nodes
    {
      ids := set x | x in slice && x in nodes;
    }

    method InsertNodes(batch: seq<GraphNode>)
      modifies this
      ensures nodes == AddRows(old(nodes), batch) && edges == old(edges)
        && SameManifests(old(manifestNodes), old(manifestKeys))
      ensures forall key :: key in old(nodes) ==> key in nodes && nodes[key] == old(nodes)[key]
      ensures forall i :: 0 <= i < |batch| && FirstInserted(old(nodes).Keys, batch, i) ==>
        var n := batch[i];
        && n.treeHashId in nodes && nodes[n.treeHashId].range == n.parentRange
        && nodes[n.treeHashId].name == n.packageData.name.GetOr("")
        && nodes[n.treeHashId].version == n.packageData.version.GetOr("")
    {
      ghost var before := nodes;
      nodes := AddRows(nodes, batch);
      forall key | key in before ensures key in nodes && nodes[key] == before[key] {
        AddRowsResult(before, batch, key);
      }
      forall i | 0 <= i < |batch| && FirstInserted(before.Keys, batch, i)
        ensures batch[i].treeHashId in nodes && nodes[batch[i].treeHashId] == NodeRow(batch[i])
      {
        FirstRowStays(before, batch, i);
      }
    }

    /** The foreign keys of the edge table reject the statement when an endpoint is missing. */
    method InsertEdges(batch: seq<Edge>) returns (ok: bool)
      modifies this
      ensures ok <==> forall e :: e in batch ==> e.parent in nodes && e.child in nodes
      ensures edges == if ok then old(edges) + ToSet(batch) else old(edges)
      ensures nodes == old(nodes) && SameManifests(old(manifestNodes), old(manifestKeys))
    {
      var sorted := Ordering.Sort(EdgeLe, batch);
      Ordering.SortKeepsElements(EdgeLe, batch);
      ok := forall e :: e in sorted ==> e.parent in nodes && e.child in nodes;
      if ok { edges := edges + ToSet(sorted); }
    }

    /** The unique index makes the insert return no row for a second manifest of one build and path, which is an
        error; so is a reference to a missing node. */
    method InsertManifest(key: ManifestKey, ids: seq<Id>) returns (ok: bool)
      modifies this
      ensures ok <==> key !in old(manifestKeys) && forall x :: x in ids ==> x in nodes
      ensures manifestNodes == if ok then old(manifestNodes) + ToSet(ids) else old(manifestNodes)
      ensures manifestKeys == if ok then old(manifestKeys) + {key} else old(manifestKeys)
      ensures nodes == old(nodes) && edges == old(edges)
    {
      ok := key !in manifestKeys && forall x :: x in ids ==> x in nodes;
      if ok {
        manifestNodes := manifestNodes + ToSet(ids);
        manifestKeys := manifestKeys + {key};
      }
    }

    /** What a failing transaction leaves behind. */
    method Rollback(nodes: set<Id>, keys: set<ManifestKey>)
      modifies this`manifestNodes, this`manifestKeys
      ensures SameManifests(nodes, keys)
    {
      manifestNodes, manifestKeys := nodes, keys;
    }
  }

  /** Looks the ids up in slices; the slices miss nothing. */
  method FindCurrentlyKnownDependencies(db: Database, manifestIds: seq<Id>) returns (known: set<Id>)
    ensures known == set x | x in manifestIds && x in db.nodes
  {
    known := {};
    var i := 0;
    while i < |manifestIds|
      invariant known == set x | x in manifestIds[..Min(i, |manifestIds|)] && x in db.nodes
    {
      var slice := Slice(manifestIds, i, BATCH);
      SliceExtends(manifestIds, i, BATCH);
      var result := db.SelectKnown(slice);
      known := known + result;
      i := i + BATCH;
    }
    assert manifestIds[..|manifestIds|] == manifestIds;
  }

  // ----- the transaction -----

  /** The values of a map, each once, in some order; nothing below depends on which. */
  ghost predicate Enumerates(values: seq<GraphNode>, entries: map<Id, GraphNode>) {
    && (forall n :: n in values ==> n.treeHashId in entries && entries[n.treeHashId] == n)
    && (forall key :: key in entries ==> entries[key] in values)
  }

  method Values(entries: map<Id, GraphNode>, ghost id: Dep -> Id) returns (values: seq<GraphNode>)
    requires FiledNodes(id, entries)
    ensures Enumerates(values, entries)
  {
    values := [];
    var left := entries.Keys;
    while left != {}
      invariant left <= entries.Keys
      invariant forall n :: n in values ==> n.treeHashId in entries && entries[n.treeHashId] == n
      invariant forall key :: key in entries && key !in left ==> entries[key] in values
    {
      var key :| key in left;
      values := values + [entries[key]];
      left := left - {key};
    }
  }

  function EdgesOfNode(n: GraphNode): seq<Edge> {
    seq(|n.children|, i requires 0 <= i < |n.children| => Edge(n.treeHashId, n.children[i].treeHashId))
  }

  function AllEdges(values: seq<GraphNode>): seq<Edge> {
    if values == [] then [] else EdgesOfNode(values[0]) + AllEdges(values[1..])
  }

  lemma {:induction false} AllEdgesAre(id: Dep -> Id, values: seq<GraphNode>)
    requires forall n :: n in values ==> n.Built(id)
    ensures ToSet(AllEdges(values)) == EdgesOf(id, set n | n in values :: n.packageData)
  {
    if values != [] {
      var first, rest := values[0], values[1..];
      assert values == [first] + rest;
      AllEdgesAre(id, rest);
      EdgesOfNodeAre(id, first);
      EdgesUnion(id, {first.packageData}, set n | n in rest :: n.packageData);
      assert (set n | n in values :: n.packageData) == {first.packageData} + set n | n in rest :: n.packageData;
    }
  }

  lemma EdgesOfNodeAre(id: Dep -> Id, n: GraphNode)
    requires n.Built(id)
    ensures ToSet(EdgesOfNode(n)) == EdgesOf(id, {n.packageData})
  {
    forall e | e in EdgesOf(id, {n.packageData}) ensures e in EdgesOfNode(n) {
      var c :| c in n.packageData.dependencies && e == Edge(n.treeHashId, id(c));
      var i :| 0 <= i < |n.children| && n.packageData.dependencies[i] == c;
      assert EdgesOfNode(n)[i] == e;
    }
  }

  lemma EdgesUnion(id: Dep -> Id, a: set<Dep>, b: set<Dep>)
    ensures EdgesOf(id, a + b) == EdgesOf(id, a) + EdgesOf(id, b)
  {
  }

  method InsertNodeBatches(db: Database, values: seq<GraphNode>)
    modifies db
    ensures db.nodes == AddRows(old(db.nodes), values)
    ensures db.edges == old(db.edges) && db.SameManifests(old(db.manifestNodes), old(db.manifestKeys))
  {
    var i := 0;
    while i < |values|
      invariant db.nodes == AddRows(old(db.nodes), values[..Min(i, |values|)])
      invariant db.edges == old(db.edges) && db.SameManifests(old(db.manifestNodes), old(db.manifestKeys))
    {
      AddRowsAppend(old(db.nodes), values[..i], Slice(values, i, BATCH));
      SliceExtends(values, i, BATCH);
      db.InsertNodes(Slice(values, i, BATCH));
      i := i + BATCH;
    }
    assert values[..|values|] == values;
  }

  /** Every batch goes in: each of its edges joins stored nodes, and so does every edge after it. */
  method InsertEdgeBatches(db: Database, edges: seq<Edge>) returns (ok: bool)
    requires EdgesJoinNodes(Tables(db.nodes, ToSet(edges)))
    modifies db
    ensures ok && db.edges == old(db.edges) + ToSet(edges)
    ensures db.nodes == old(db.nodes) && db.SameManifests(old(db.manifestNodes), old(db.manifestKeys))
  {
    var j := 0;
    ok := true;
    while j < |edges|
      invariant ok && db.edges == old(db.edges) + ToSet(edges[..Min(j, |edges|)])
      invariant db.nodes == old(db.nodes) && db.SameManifests(old(db.manifestNodes), old(db.manifestKeys))
    {
      SliceExtends(edges, j, BATCH);
      var edgeSlice := Slice(edges, j, BATCH);
      assert forall e :: e in edgeSlice ==> e in ToSet(edges);
      ok := db.InsertEdges(edgeSlice);
      j := j + BATCH;
    }
    assert edges[..|edges|] == edges;
  }

  /** Nodes first, then edges. No statement is rejected, so the transaction is never rolled back. */
  method InsertTransaction(db: Database, entries: map<Id, GraphNode>, ghost id: Dep -> Id) returns (ok: bool)
    requires FiledNodes(id, entries)
    requires forall key, c :: key in entries && c in entries[key].packageData.dependencies ==>
      id(c) in entries || id(c) in db.nodes
    modifies db
    ensures ok && db.Contents() == Commit(id, old(db.Contents()), TreesOf(entries))
    ensures db.SameManifests(old(db.manifestNodes), old(db.manifestKeys))
  {
    ghost var nodesBefore := db.nodes;
    var values := Values(entries, id);
    InsertNodeBatches(db, values);
    ValuesGiveRows(id, nodesBefore, entries, values);
    ValuesGiveEdges(id, entries, values);
    var dependencyEdges := Ordering.Sort(EdgeLe, AllEdges(values));
    SortKeepsSet(AllEdges(values));
    ok := InsertEdgeBatches(db, dependencyEdges);
  }

  lemma SortKeepsSet(edges: seq<Edge>)
    ensures ToSet(Ordering.Sort(EdgeLe, edges)) == ToSet(edges)
  {
    Ordering.SortKeepsElements(EdgeLe, edges);
  }

  lemma ValuesGiveRows(id: Dep -> Id, rows: map<Id, Row>, entries: map<Id, GraphNode>, values: seq<GraphNode>)
    requires FiledNodes(id, entries) && Enumerates(values, entries)
    ensures AddRows(rows, values) == (map key | key in TreesOf(entries) :: RowOf(TreesOf(entries)[key])) + rows
  {
    hide AddRows, RowOf, FiledNodes, Enumerates;
    forall key
      ensures key in AddRows(rows, values) <==> key in rows || key in entries
      ensures key in AddRows(rows, values) ==>
        AddRows(rows, values)[key] == if key in rows then rows[key] else RowOf(entries[key].packageData)
    {
      ValuesGiveRow(id, rows, entries, values, key);
    }
  }

  lemma ValuesGiveRow(id: Dep -> Id, rows: map<Id, Row>, entries: map<Id, GraphNode>, values: seq<GraphNode>, key: Id)
    requires FiledNodes(id, entries) && Enumerates(values, entries)
    ensures key in AddRows(rows, values) <==> key in rows || key in entries
    ensures key in AddRows(rows, values) ==>
      AddRows(rows, values)[key] == if key in rows then rows[key] else RowOf(entries[key].packageData)
  {
    hide AddRows, ParentRange;
    AddRowsResult(rows, values, key);
    if key in entries { assert entries[key] in values; }
  }

  lemma ValuesGiveEdges(id: Dep -> Id, entries: map<Id, GraphNode>, values: seq<GraphNode>)
    requires FiledNodes(id, entries) && Enumerates(values, entries)
    ensures ToSet(AllEdges(values)) == EdgesOf(id, TreesOf(entries).Values)
  {
    AllEdgesAre(id, values);
    forall d | d in TreesOf(entries).Values ensures exists n :: n in values && n.packageData == d {
      var key :| key in entries && entries[key].packageData == d;
    }
    assert (set n | n in values :: n.packageData) == TreesOf(entries).Values by {
      forall n | n in values ensures n.packageData in TreesOf(entries).Values {
        assert TreesOf(entries)[n.treeHashId] == n.packageData;
      }
    }
  }

  // ----- one snapshot -----

  /** The nodes submitted by all lockfiles, in order. */
  function Submitted(graphs: seq<PackageGraph>): seq<GraphNode> {
    if graphs == [] then [] else Submitted(graphs[..|graphs| - 1]) + graphs[|graphs| - 1].dependencies
  }

  function DepsOf(nodes: seq<GraphNode>): (ds: seq<Dep>)
    ensures |ds| == |nodes|
  {
    seq(|nodes|, i requires 0 <= i < |nodes| => nodes[i].packageData)
  }

  ghost predicate AllBuilt(id: Dep -> Id, nodes: seq<GraphNode>) {
    forall i :: 0 <= i < |nodes| ==> nodes[i].Built(id)
  }

  /** What a snapshot inserts into given tables: the nodes of unknown roots, less the known ids. */
  ghost function Plan(id: Dep -> Id, tb: Tables, ds: seq<Dep>): map<Id, Dep> {
    Candidates(id, ds, tb.nodes.Keys) - tb.nodes.Keys
  }

  lemma {:induction false} UnknownRootsAgree(id: Dep -> Id, ds: seq<Dep>, a: set<Id>, b: set<Id>)
    requires forall d :: d in ds ==> (id(d) in a <==> id(d) in b)
    ensures UnknownRoots(id, ds, a) == UnknownRoots(id, ds, b)
  {
    if ds != [] {
      UnknownRootsAgree(id, ds[..|ds| - 1], a, b);
    }
  }

  lemma CandidatesAgree(id: Dep -> Id, ds: seq<Dep>, a: set<Id>, b: set<Id>)
    requires forall d :: d in ds ==> (id(d) in a <==> id(d) in b)
    ensures Candidates(id, ds, a) == Candidates(id, ds, b)
  {
    UnknownRootsAgree(id, ds, a, b);
  }

  lemma NoCandidates(id: Dep -> Id, knownRoots: set<Id>)
    ensures Candidates(id, [], knownRoots) == map[]
  {
  }

  lemma CandidatesNext(id: Dep -> Id, ds: seq<Dep>, d: Dep, knownRoots: set<Id>)
    ensures Candidates(id, ds + [d], knownRoots)
      == if id(d) in knownRoots then Candidates(id, ds, knownRoots)
         else Candidates(id, ds, knownRoots) + Collect(id, d)
  {
    assert (ds + [d])[..|ds|] == ds;
    var before := UnknownRoots(id, ds, knownRoots);
    assert (before + [d])[..|before|] == before;
  }

  /** Every child id of a planned node is planned too, or stored. */
  lemma CandidatesClosed(id: Dep -> Id, ds: seq<Dep>, knownRoots: set<Id>, key: Id, c: Dep)
    requires key in Candidates(id, ds, knownRoots) && c in Candidates(id, ds, knownRoots)[key].dependencies
    ensures id(c) in Candidates(id, ds, knownRoots)
  {
    var unknown := UnknownRoots(id, ds, knownRoots);
    CollectAllCovers(id, unknown);
    AllSubtreesClosed(unknown);
  }

  method RootIds(graphs: seq<PackageGraph>, ghost id: Dep -> Id) returns (ids: seq<Id>)
    requires AllBuilt(id, Submitted(graphs))
    ensures forall key :: key in ids <==> exists d :: d in DepsOf(Submitted(graphs)) && id(d) == key
    ensures ids == [] ==> Submitted(graphs) == []
  {
    var nodes := Submitted(graphs);
    var hashes := set i | 0 <= i < |nodes| :: nodes[i].treeHashId;
    ids := SortedElements(hashes);
    if nodes != [] { assert nodes[0].treeHashId in hashes; }
    forall key | key in ids ensures exists d :: d in DepsOf(nodes) && id(d) == key {
      var i :| 0 <= i < |nodes| && nodes[i].treeHashId == key;
      assert DepsOf(nodes)[i] in DepsOf(nodes);
    }
    forall d | d in DepsOf(nodes) ensures id(d) in ids {
      var i :| 0 <= i < |nodes| && DepsOf(nodes)[i] == d;
      assert nodes[i].treeHashId in hashes;
    }
  }

  method SortedElements(s: set<Id>) returns (ids: seq<Id>)
    ensures forall key :: key in ids <==> key in s
    ensures Ordering.SortedBy(Ordering.StringLe, ids)
  {
    ids := [];
    var left := s;
    while left != {}
      invariant left <= s
      invariant forall key :: key in ids <==> key in s - left
    {
      var key :| key in left;
      ids := ids + [key];
      left := left - {key};
    }
    Ordering.StringOrder();
    Ordering.SortSorts(Ordering.StringLe, ids);
    Ordering.SortKeepsElements(Ordering.StringLe, ids);
    ids := Ordering.Sort(Ordering.StringLe, ids);
  }

  /** Merges the nodes of every graph whose root is not known, a later node replacing an earlier one. */
  method MergeUnknown(graphs: seq<PackageGraph>, knownRoots: set<Id>,
      ghost id: Dep -> Id) returns (entries: map<Id, GraphNode>)
    requires AllBuilt(id, Submitted(graphs))
    ensures FiledNodes(id, entries)
    ensures TreesOf(entries) == Candidates(id, DepsOf(Submitted(graphs)), knownRoots)
  {
    hide Candidates, GraphNode.Built, Submitted;
    entries := map[];
    NoCandidates(id, knownRoots);
    NothingSubmitted();
    for g := 0 to |graphs|
      invariant FiledNodes(id, entries)
      invariant TreesOf(entries) == Candidates(id, DepsOf(Submitted(graphs[..g])), knownRoots)
    {
      SubmittedNext(graphs, g);
      SubmittedPart(graphs, g + 1);
      BuiltPart(id, Submitted(graphs[..g]), graphs[g].dependencies, Submitted(graphs));
      entries := MergeGraph(entries, graphs[g], DepsOf(Submitted(graphs[..g])), knownRoots, id);
      DepsOfAppend(Submitted(graphs[..g]), graphs[g].dependencies);
    }
    assert graphs[..|graphs|] == graphs;
  }

  lemma BuiltPart(id: Dep -> Id, before: seq<GraphNode>, nodes: seq<GraphNode>, all: seq<GraphNode>)
    requires AllBuilt(id, all) && before + nodes <= all
    ensures AllBuilt(id, nodes)
  {
    forall i | 0 <= i < |nodes| ensures nodes[i].Built(id) {
      assert nodes[i] == (before + nodes)[|before| + i] == all[|before| + i];
    }
  }

  method MergeGraph(start: map<Id, GraphNode>, graph: PackageGraph, ghost before: seq<Dep>, knownRoots: set<Id>,
      ghost id: Dep -> Id) returns (entries: map<Id, GraphNode>)
    requires AllBuilt(id, graph.dependencies) && FiledNodes(id, start)
    requires TreesOf(start) == Candidates(id, before, knownRoots)
    ensures FiledNodes(id, entries)
    ensures TreesOf(entries) == Candidates(id, before + DepsOf(graph.dependencies), knownRoots)
  {
    hide Candidates, GraphNode.Built, Collect;
    entries := start;
    ghost var ds := DepsOf(graph.dependencies);
    assert before + ds[..0] == before;
    for k := 0 to |graph.dependencies|
      invariant FiledNodes(id, entries)
      invariant TreesOf(entries) == Candidates(id, before + ds[..k], knownRoots)
    {
      var pkg := graph.dependencies[k];
      assert before + ds[..k + 1] == before + ds[..k] + [pkg.packageData];
      CandidatesNext(id, before + ds[..k], pkg.packageData, knownRoots);
      BuiltHasId(pkg, id);
      if pkg.treeHashId !in knownRoots {
        var dependencyMap := PackageGraphToUniqueDependencyNodes(pkg, id);
        MergeTrees(entries, dependencyMap);
        entries := entries + dependencyMap;
      }
    }
    assert ds[..|ds|] == ds;
  }

  lemma MergeTrees(a: map<Id, GraphNode>, b: map<Id, GraphNode>)
    ensures TreesOf(a + b) == TreesOf(a) + TreesOf(b)
  {
  }

  lemma SubmittedNext(graphs: seq<PackageGraph>, g: nat)
    requires g < |graphs|
    ensures Submitted(graphs[..g + 1]) == Submitted(graphs[..g]) + graphs[g].dependencies
  {
    assert graphs[..g + 1][..g] == graphs[..g];
  }

  lemma {:induction false} SubmittedPart(graphs: seq<PackageGraph>, g: nat)
    requires g <= |graphs|
    ensures Submitted(graphs[..g]) <= Submitted(graphs)
    decreases |graphs| - g
  {
    if g == |graphs| {
      assert graphs[..g] == graphs;
    } else {
      SubmittedNext(graphs, g);
      SubmittedPart(graphs, g + 1);
    }
  }

  /** The effect on the tables is one commit of the plan, whichever early return is taken,
      and no foreign key is ever violated. */
  method InsertPackageGraphsIntoDatabase(db: Database, graphs: seq<PackageGraph>,
      ghost id: Dep -> Id) returns (ok: bool)
    requires AllBuilt(id, Submitted(graphs))
    modifies db
    ensures ok && db.SameManifests(old(db.manifestNodes), old(db.manifestKeys))
    ensures db.Contents() == Commit(id, old(db.Contents()), Plan(id, old(db.Contents()), DepsOf(Submitted(graphs))))
  {
    hide Commit, Candidates, Submitted, UnknownRoots, GraphNode.Built;
    ghost var ds := DepsOf(Submitted(graphs));
    ok := true;
    CommitNothing(id, db.Contents());
    EmptySnapshot(id, db.Contents());
    if |graphs| == 0 {
      NothingSubmitted();
      assert graphs == [] && ds == [];
      return;
    }
    var rootIds := RootIds(graphs, id);
    if |rootIds| == 0 {
      assert ds == [];
      return;
    }
    var knownRoots := FindCurrentlyKnownDependencies(db, rootIds);
    CandidatesAgree(id, ds, knownRoots, db.nodes.Keys);
    var dependencyNodeMap := MergeUnknown(graphs, knownRoots, id);
    if dependencyNodeMap == map[] {
      return;
    }
    var candidateIds := SortedElements(dependencyNodeMap.Keys);
    var knownIds := FindCurrentlyKnownDependencies(db, candidateIds);
    dependencyNodeMap := dependencyNodeMap - knownIds;
    assert TreesOf(dependencyNodeMap) == Plan(id, db.Contents(), ds);
    if dependencyNodeMap == map[] {
      return;
    }
    forall key, c | key in dependencyNodeMap && c in dependencyNodeMap[key].packageData.dependencies
      ensures id(c) in dependencyNodeMap || id(c) in db.nodes
    {
      CandidatesClosed(id, ds, knownRoots, key, c);
    }
    ok := InsertTransaction(db, dependencyNodeMap, id);
  }

  lemma NothingSubmitted()
    ensures Submitted([]) == []
  {
  }

  lemma EmptySnapshot(id: Dep -> Id, tb: Tables)
    ensures Commit(id, tb, Plan(id, tb, [])) == tb
  {
    assert Plan(id, tb, []) == map[];
    CommitNothing(id, tb);
  }

  lemma CommitNothing(id: Dep -> Id, tb: Tables)
    ensures Commit(id, tb, map[]) == tb
  {
  }

  /** Whatever was known, every submitted root is stored afterwards, even if ids collide. */
  lemma RootStored(id: Dep -> Id, tb: Tables, ds: seq<Dep>, d: Dep)
    requires d in ds
    ensures id(d) in Commit(id, tb, Plan(id, tb, ds)).nodes
  {
    if id(d) !in tb.nodes {
      var unknown := UnknownRoots(id, ds, tb.nodes.Keys);
      UnknownRootsFilter(id, ds, tb.nodes.Keys, d);
      CollectAllCovers(id, unknown);
      SelfSubtree(d);
      assert d in AllSubtrees(unknown);
    }
  }

  /** From tables that mirror a closed set of trees, a snapshot leaves tables that mirror those and all
      submitted trees, the same tables as inserting everything, and each submitted tree reads back. */
  lemma SnapshotRefinesInsertAll(id: Dep -> Id, tb: Tables, trees: set<Dep>, ds: seq<Dep>)
    requires Mirrors(id, tb, trees) && DownwardClosed(trees) && IdsSeparate(id, trees + AllSubtrees(ds))
    ensures Mirrors(id, Commit(id, tb, Plan(id, tb, ds)), trees + AllSubtrees(ds))
    ensures Commit(id, tb, Plan(id, tb, ds)) == Commit(id, tb, CollectAll(id, ds))
    ensures forall d, depth: nat :: d in ds && depth >= Height(d) ==>
      Unfold(Commit(id, tb, Plan(id, tb, ds)), id(d), depth) == ShapeOf(d)
  {
    hide Mirrors, Commit, Candidates, IdsSeparate, DownwardClosed, Unfold, ShapeOf;
    SnapshotMirrors(id, tb, trees, ds, tb.nodes.Keys, tb.nodes.Keys);
    SkippingInsertsTheSame(id, tb, trees, ds, tb.nodes.Keys, tb.nodes.Keys);
    forall d, depth: nat | d in ds && depth >= Height(d)
      ensures Unfold(Commit(id, tb, Plan(id, tb, ds)), id(d), depth) == ShapeOf(d)
    {
      UnionClosed(trees, ds);
      SelfSubtree(d);
      UnfoldGivesTree(id, Commit(id, tb, Plan(id, tb, ds)), trees + AllSubtrees(ds), d, depth);
    }
  }

  /** After a snapshot, for every package stored before or submitted, at any depth: the columns of its row and the
      ends of its edges; and there are no other edges. */
  lemma SnapshotColumns(id: Dep -> Id, tb: Tables, trees: set<Dep>, ds: seq<Dep>)
    requires Mirrors(id, tb, trees) && DownwardClosed(trees) && IdsSeparate(id, trees + AllSubtrees(ds))
    ensures var after := Commit(id, tb, Plan(id, tb, ds));
      && (forall d :: d in trees + AllSubtrees(ds) ==>
        && id(d) in after.nodes
        && after.nodes[id(d)].name == d.name.GetOr("") && after.nodes[id(d)].version == d.version.GetOr("")
        && after.nodes[id(d)].range ==
             if d.range.Some? && d.range.value != "" then d.range.value else d.version.GetOr(""))
      && (forall d, c :: d in trees + AllSubtrees(ds) && c in d.dependencies ==>
        exists e :: e in after.edges && e.parent == id(d) && e.child == id(c))
      && (forall e :: e in after.edges ==>
        exists d, c :: d in trees + AllSubtrees(ds) && c in d.dependencies && e.parent == id(d) && e.child == id(c))
  {
    hide Commit, Candidates, IdsSeparate, DownwardClosed, Plan, Stored;
    var after, all := Commit(id, tb, Plan(id, tb, ds)), trees + AllSubtrees(ds);
    SnapshotRefinesInsertAll(id, tb, trees, ds);
    forall d | d in all ensures Stored(id, after, d) { MirrorStores(id, after, all, d); }
    forall d { StoredColumns(id, after, d); }
    forall e | e in after.edges
      ensures exists d, c :: d in all && c in d.dependencies && e.parent == id(d) && e.child == id(c)
    {
      var d, c :| d in all && c in d.dependencies && e == Edge(id(d), id(c));
    }
  }

  lemma UnionClosed(trees: set<Dep>, ds: seq<Dep>)
    requires DownwardClosed(trees)
    ensures DownwardClosed(trees + AllSubtrees(ds))
  {
    AllSubtreesClosed(ds);
  }

  // ----- the whole run: collect, insert, refer -----

  /** A parsed lockfile gives its root, versioned by the build, and each direct dependency;
      one that did not parse gives nothing. */
  method CollectPackageGraph(digest: Digest, lockfile: Lockfile, rootUniqueId: string) returns (graph: PackageGraph)
    ensures graph.lockFilePath == lockfile.path
    ensures AllBuilt(MerkleId(digest), graph.dependencies)
    ensures lockfile.parsed.None? ==> graph.dependencies == [] && graph.rootTreeHashId == None
    ensures lockfile.parsed.Some? ==> DepsOf(graph.dependencies) == RootsOfLockfile(lockfile.parsed.value, rootUniqueId)
    ensures lockfile.parsed.Some? ==>
      graph.rootTreeHashId == Some(TreeId(digest, VersionedRoot(lockfile.parsed.value, rootUniqueId)))
    ensures RootIsListed(graph)
    ensures lockfile.parsed.Some? ==>
      var read, root := lockfile.parsed.value, graph.dependencies[0].packageData;
      && root.name == read.name && root.range == read.range && root.dependencies == read.dependencies
      && (rootUniqueId == "" ==> root.version == read.version)
      && (rootUniqueId != "" && read.version.Some? ==> root.version == Some(read.version.value + "-" + rootUniqueId))
      && (rootUniqueId != "" && read.version.None? ==> root.version == Some("undefined-" + rootUniqueId))
  {
    hide TreeId, GraphNode.Linked, GraphNode.Below, GraphNode.Nodes, GraphNode.Built, VersionedRoot;
    if lockfile.parsed.Some? { RootVersioned(lockfile.parsed.value, rootUniqueId); }
    if lockfile.parsed.None? { return PackageGraph(lockfile.path, [], None); }
    var pkgTree := VersionedRoot(lockfile.parsed.value, rootUniqueId);
    var root := DfsGenerateMerkleTreeFromDepTree(digest, pkgTree);
    var dependencies := [root];
    for i := 0 to |pkgTree.dependencies|
      invariant AllBuilt(MerkleId(digest), dependencies) && |dependencies| == i + 1 && dependencies[0] == root
      invariant DepsOf(dependencies) == [pkgTree] + pkgTree.dependencies[..i]
    {
      var node := DfsGenerateMerkleTreeFromDepTree(digest, pkgTree.dependencies[i]);
      DepsOfAppend(dependencies, [node]);
      dependencies := dependencies + [node];
    }
    BuiltHasId(root, MerkleId(digest));
    graph := PackageGraph(lockfile.path, dependencies, Some(root.treeHashId));
    assert dependencies[0] in graph.dependencies;
  }

  lemma BuiltHasId(n: GraphNode, id: Dep -> Id)
    requires n.Built(id)
    ensures n.treeHashId == id(n.packageData)
  {
  }

  function VersionedRoot(pkgTree: Dep, rootUniqueId: string): (root: Dep)
    ensures root.dependencies == pkgTree.dependencies
  {
    if rootUniqueId == "" then pkgTree
    else pkgTree.(version := Some(pkgTree.version.GetOr("undefined") + "-" + rootUniqueId))
  }

  lemma RootVersioned(read: Dep, rootUniqueId: string)
    ensures var root := VersionedRoot(read, rootUniqueId);
      && root.name == read.name && root.range == read.range && root.dependencies == read.dependencies
      && (rootUniqueId == "" ==> root.version == read.version)
      && (rootUniqueId != "" && read.version.Some? ==> root.version == Some(read.version.value + "-" + rootUniqueId))
      && (rootUniqueId != "" && read.version.None? ==> root.version == Some("undefined-" + rootUniqueId))
  {
    assert "undefined" + "-" == "undefined-";
  }

  /** The roots of one lockfile in two builds are different packages. */
  lemma BuildsKeepRootsApart(read: Dep, buildId: string, otherBuild: string)
    requires buildId != "" && otherBuild != "" && buildId != otherBuild
    ensures VersionedRoot(read, buildId).version != VersionedRoot(read, otherBuild).version
  {
    var front := read.version.GetOr("undefined") + "-";
    assert (front + buildId)[|front|..] == buildId && (front + otherBuild)[|front|..] == otherBuild;
  }

  function RootsOfLockfile(pkgTree: Dep, rootUniqueId: string): seq<Dep> {
    [VersionedRoot(pkgTree, rootUniqueId)] + pkgTree.dependencies
  }

  function SubmittedDeps(lockfiles: seq<Lockfile>, rootUniqueId: string): seq<Dep> {
    if lockfiles == [] then []
    else
      var init, last := lockfiles[..|lockfiles| - 1], lockfiles[|lockfiles| - 1];
      SubmittedDeps(init, rootUniqueId)
      + if last.parsed.None? then [] else RootsOfLockfile(last.parsed.value, rootUniqueId)
  }

  ghost predicate RootIsListed(graph: PackageGraph) {
    graph.rootTreeHashId.Some? ==> exists n :: n in graph.dependencies && n.treeHashId == graph.rootTreeHashId.value
  }

  method CollectPackageGraphs(digest: Digest, lockfiles: seq<Lockfile>, rootUniqueId: string)
    returns (graphs: seq<PackageGraph>)
    ensures |graphs| == |lockfiles| && forall i :: 0 <= i < |graphs| ==> graphs[i].lockFilePath == lockfiles[i].path
    ensures AllBuilt(MerkleId(digest), Submitted(graphs))
    ensures DepsOf(Submitted(graphs)) == SubmittedDeps(lockfiles, rootUniqueId)
    ensures forall g :: g in graphs ==> RootIsListed(g)
  {
    hide TreeId, RootsOfLockfile, VersionedRoot, GraphNode.Built;
    graphs := [];
    for i := 0 to |lockfiles|
      invariant AllBuilt(MerkleId(digest), Submitted(graphs)) && |graphs| == i
      invariant forall j :: 0 <= j < i ==> graphs[j].lockFilePath == lockfiles[j].path
      invariant DepsOf(Submitted(graphs)) == SubmittedDeps(lockfiles[..i], rootUniqueId)
      invariant forall g :: g in graphs ==> RootIsListed(g)
    {
      var graph := CollectPackageGraph(digest, lockfiles[i], rootUniqueId);
      assert (graphs + [graph])[..i] == graphs && lockfiles[..i + 1][..i] == lockfiles[..i];
      DepsOfAppend(Submitted(graphs), graph.dependencies);
      graphs := graphs + [graph];
    }
    assert lockfiles[..|lockfiles|] == lockfiles;
  }

  lemma DepsOfAppend(a: seq<GraphNode>, b: seq<GraphNode>)
    ensures DepsOf(a + b) == DepsOf(a) + DepsOf(b)
  {
  }

  function ManifestIds(graph: PackageGraph): (ids: seq<Id>) {
    (if graph.rootTreeHashId.Some? then [graph.rootTreeHashId.value] else [])
    + seq(|graph.dependencies|, i requires 0 <= i < |graph.dependencies| => graph.dependencies[i].treeHashId)
  }

  /** No manifest of this build has one of the paths yet, and the paths differ. */
  ghost predicate FreshPaths(keys: set<ManifestKey>, buildId: string, paths: seq<string>) {
    && (forall i :: 0 <= i < |paths| ==> ManifestKey(buildId, paths[i]) !in keys)
    && (forall i, j :: 0 <= i < j < |paths| ==> paths[i] != paths[j])
  }

  function PathsOf(graphs: seq<PackageGraph>): (paths: seq<string>)
    ensures |paths| == |graphs|
  {
    seq(|graphs|, i requires 0 <= i < |graphs| => graphs[i].lockFilePath)
  }

  ghost function KeysOf(buildId: string, paths: seq<string>): set<ManifestKey> {
    set path | path in paths :: ManifestKey(buildId, path)
  }

  lemma FreshNext(keys: set<ManifestKey>, buildId: string, paths: seq<string>, path: string)
    requires FreshPaths(keys, buildId, paths)
    ensures FreshPaths(keys, buildId, paths + [path]) <==> ManifestKey(buildId, path) !in keys + KeysOf(buildId, paths)
    ensures KeysOf(buildId, paths + [path]) == KeysOf(buildId, paths) + {ManifestKey(buildId, path)}
  {
    var more := paths + [path];
    assert forall i :: 0 <= i < |paths| ==> more[i] == paths[i] && paths[i] in paths;
    assert more[|paths|] == path;
  }

  lemma FreshPrefix(keys: set<ManifestKey>, buildId: string, paths: seq<string>, n: nat)
    requires n <= |paths| && !FreshPaths(keys, buildId, paths[..n])
    ensures !FreshPaths(keys, buildId, paths)
  {
  }

  /** One transaction for all manifests: it goes through exactly when no manifest of the build has one of the paths
      yet, then every row refers to a stored node, and otherwise it leaves nothing behind. */
  method InsertPackageManifestsIntoDatabase(db: Database, buildId: string, graphs: seq<PackageGraph>) returns (ok: bool)
    requires forall g, x :: g in graphs && x in ManifestIds(g) ==> x in db.nodes
    modifies db
    ensures ok <==> FreshPaths(old(db.manifestKeys), buildId, PathsOf(graphs))
    ensures db.Contents() == old(db.Contents())
    ensures ok ==> db.manifestNodes == old(db.manifestNodes) + set g, x | g in graphs && x in ManifestIds(g) :: x
    ensures ok ==> db.manifestKeys == old(db.manifestKeys) + KeysOf(buildId, PathsOf(graphs))
    ensures !ok ==> db.SameManifests(old(db.manifestNodes), old(db.manifestKeys))
  {
    hide FreshPaths;
    var paths := PathsOf(graphs);
    var nodesBefore, keysBefore := db.manifestNodes, db.manifestKeys;
    NothingFresh(keysBefore, buildId);
    ok := true;
    for i := 0 to |graphs|
      invariant ok && db.nodes == old(db.nodes) && db.edges == old(db.edges)
      invariant FreshPaths(keysBefore, buildId, paths[..i])
      invariant db.manifestKeys == keysBefore + KeysOf(buildId, paths[..i])
      invariant db.manifestNodes == nodesBefore + set g, x | g in graphs[..i] && x in ManifestIds(g) :: x
    {
      assert graphs[i] in graphs;
      assert graphs[..i + 1] == graphs[..i] + [graphs[i]] && paths[..i + 1] == paths[..i] + [paths[i]];
      FreshNext(keysBefore, buildId, paths[..i], paths[i]);
      ok := db.InsertManifest(ManifestKey(buildId, paths[i]), ManifestIds(graphs[i]));
      if !ok {
        FreshPrefix(keysBefore, buildId, paths, i + 1);
        db.Rollback(nodesBefore, keysBefore);
        return;
      }
    }
    assert graphs[..|graphs|] == graphs && paths[..|graphs|] == paths;
  }

  lemma NothingFresh(keys: set<ManifestKey>, buildId: string)
    ensures FreshPaths(keys, buildId, []) && KeysOf(buildId, []) == {}
  {
  }

  function LockfilePaths(lockfiles: seq<Lockfile>): (paths: seq<string>)
    ensures |paths| == |lockfiles|
  {
    seq(|lockfiles|, i requires 0 <= i < |lockfiles| => lockfiles[i].path)
  }

  /** One snapshot: the tables get one commit of the plan; it succeeds exactly when this build has no manifest for
      any of the lockfiles yet, and the manifests then refer to every submitted tree; in any case they refer to
      stored nodes only. */
  method SnapshotPinnedDependencies(digest: Digest, db: Database, lockfiles: seq<Lockfile>, buildId: string)
    returns (ok: bool)
    requires db.manifestNodes <= db.nodes.Keys
    modifies db
    ensures ok <==> FreshPaths(old(db.manifestKeys), buildId, LockfilePaths(lockfiles))
    ensures db.manifestNodes <= db.nodes.Keys
    ensures db.Contents() == Commit(MerkleId(digest), old(db.Contents()),
      Plan(MerkleId(digest), old(db.Contents()), SubmittedDeps(lockfiles, buildId)))
    ensures ok ==> forall d :: d in SubmittedDeps(lockfiles, buildId) ==> TreeId(digest, d) in db.manifestNodes
    ensures ok ==> db.manifestKeys == old(db.manifestKeys) + KeysOf(buildId, LockfilePaths(lockfiles))
    ensures !ok ==> db.SameManifests(old(db.manifestNodes), old(db.manifestKeys))
  {
    hide TreeId, Plan, Submitted, SubmittedDeps, FreshPaths;
    ghost var id := MerkleId(digest);
    ghost var ds := SubmittedDeps(lockfiles, buildId);
    var graphs := CollectPackageGraphs(digest, lockfiles, buildId);
    ghost var before := db.Contents();
    assert PathsOf(graphs) == LockfilePaths(lockfiles);
    ok := InsertPackageGraphsIntoDatabase(db, graphs, id);
    forall g, x | g in graphs && x in ManifestIds(g) ensures x in db.nodes {
      var d := ManifestIdSubmitted(id, graphs, g, x);
      RootStored(id, before, ds, d);
    }
    ok := InsertPackageManifestsIntoDatabase(db, buildId, graphs);
    if ok {
      forall d | d in ds ensures TreeId(digest, d) in db.manifestNodes {
        SubmittedInManifest(id, graphs, d);
      }
    }
  }

  /** The same snapshot a second time is always refused, if it has a lockfile. */
  lemma SecondSnapshotRefused(keys: set<ManifestKey>, buildId: string, lockfiles: seq<Lockfile>)
    requires lockfiles != []
    ensures !FreshPaths(keys + KeysOf(buildId, LockfilePaths(lockfiles)), buildId, LockfilePaths(lockfiles))
  {
    var paths := LockfilePaths(lockfiles);
    assert paths[0] in paths;
  }

  lemma {:induction false} MemberOfSubmitted(graphs: seq<PackageGraph>, n: GraphNode)
    ensures n in Submitted(graphs) <==> exists g :: g in graphs && n in g.dependencies
  {
    if graphs != [] {
      MemberOfSubmitted(graphs[..|graphs| - 1], n);
      assert graphs == graphs[..|graphs| - 1] + [graphs[|graphs| - 1]];
    }
  }

  lemma ManifestIdSubmitted(id: Dep -> Id, graphs: seq<PackageGraph>, g: PackageGraph, x: Id) returns (d: Dep)
    requires AllBuilt(id, Submitted(graphs)) && g in graphs && RootIsListed(g) && x in ManifestIds(g)
    ensures d in DepsOf(Submitted(graphs)) && id(d) == x
  {
    var n :| n in g.dependencies && n.treeHashId == x;
    MemberOfSubmitted(graphs, n);
    var i :| 0 <= i < |Submitted(graphs)| && Submitted(graphs)[i] == n;
    d := DepsOf(Submitted(graphs))[i];
  }

  lemma SubmittedInManifest(id: Dep -> Id, graphs: seq<PackageGraph>, d: Dep)
    requires AllBuilt(id, Submitted(graphs)) && d in DepsOf(Submitted(graphs))
    ensures exists g :: g in graphs && id(d) in ManifestIds(g)
  {
    var i :| 0 <= i < |Submitted(graphs)| && DepsOf(Submitted(graphs))[i] == d;
    var n := Submitted(graphs)[i];
    MemberOfSubmitted(graphs, n);
    var g :| g in graphs && n in g.dependencies;
    var k :| 0 <= k < |g.dependencies| && g.dependencies[k] == n;
    var offset := if g.rootTreeHashId.Some? then 1 else 0;
    assert ManifestIds(g)[offset + k] == n.treeHashId;
  }
}
