/** The node and edge tables that hold every dependency tree once, keyed by Merkle id. */
module DependencyStore {
  import opened Options
  import opened MerkleTree

  type Id = string

  /** The store only needs some id for each tree; the Merkle id is one. */
  function MerkleId(digest: Digest): Dep -> Id {
    (d: Dep) => TreeId(digest, d)
  }

  ghost function ChildIdSet(id: Dep -> Id, d: Dep): set<Id> {
    set c | c in d.dependencies :: id(c)
  }

  /** Equal ids mean the same fields and the same children, one level deep. */
  ghost predicate IdsSeparate(id: Dep -> Id, trees: set<Dep>) {
    forall a, b :: a in trees && b in trees && id(a) == id(b) ==>
      FieldsOf(a) == FieldsOf(b) && ChildIdSet(id, a) == ChildIdSet(id, b)
  }

  lemma ChildIdsAsSet(digest: Digest, d: Dep)
    ensures ChildIdSet(MerkleId(digest), d) == set x | x in multiset(ChildIds(digest, d))
  {
    hide TreeId;
    forall c | c in d.dependencies ensures TreeId(digest, c) in multiset(ChildIds(digest, d)) {
      var i :| 0 <= i < |d.dependencies| && d.dependencies[i] == c;
      assert ChildIds(digest, d)[i] == TreeId(digest, c);
    }
    forall x | x in multiset(ChildIds(digest, d)) ensures x in ChildIdSet(MerkleId(digest), d) {
      var i :| 0 <= i < |d.dependencies| && ChildIds(digest, d)[i] == x;
      assert d.dependencies[i] in d.dependencies;
    }
  }

  /** Merkle ids without clashes are ids the store can rely on. */
  lemma NoClashSeparates(digest: Digest, trees: set<Dep>)
    requires NoClash(digest, trees)
    ensures IdsSeparate(MerkleId(digest), trees)
  {
    hide TreeId, ChildIdSet, ChildIds;
    forall a, b | a in trees && b in trees && TreeId(digest, a) == TreeId(digest, b)
      ensures ChildIdSet(MerkleId(digest), a) == ChildIdSet(MerkleId(digest), b)
    {
      ChildIdsAsSet(digest, a);
      ChildIdsAsSet(digest, b);
    }
  }

  datatype Row = Row(name: string, version: string, range: string)
  datatype Edge = Edge(parent: Id, child: Id)
  datatype Tables = Tables(nodes: map<Id, Row>, edges: set<Edge>)

  /** The range column: the range the parent asked for, else the resolved version. */
  function ParentRange(d: Dep): string {
    if d.range.GetOr("") != "" then d.range.GetOr("") else d.version.GetOr("")
  }

  function RowOf(d: Dep): Row {
    Row(d.name.GetOr(""), d.version.GetOr(""), ParentRange(d))
  }

  ghost function Ids(id: Dep -> Id, trees: set<Dep>): set<Id> {
    set d | d in trees :: id(d)
  }

  ghost function EdgesOf(id: Dep -> Id, trees: set<Dep>): set<Edge> {
    set d, c | d in trees && c in d.dependencies :: Edge(id(d), id(c))
  }

  /** The tables hold exactly these trees: their ids, their rows and their edges, nothing else. */
  ghost predicate Mirrors(id: Dep -> Id, tb: Tables, trees: set<Dep>) {
    && tb.nodes.Keys == Ids(id, trees)
    && tb.edges == EdgesOf(id, trees)
    && forall d :: d in trees ==> tb.nodes[id(d)] == RowOf(d)
  }

  lemma MirrorUnique(id: Dep -> Id, a: Tables, b: Tables, trees: set<Dep>)
    requires Mirrors(id, a, trees) && Mirrors(id, b, trees)
    ensures a == b
  {
    forall key | key in a.nodes ensures a.nodes[key] == b.nodes[key] {
      var d :| d in trees && key == id(d);
    }
  }

  /** Every edge joins two stored nodes, as the foreign keys of the edge table demand. */
  ghost predicate EdgesJoinNodes(tb: Tables) {
    forall e :: e in tb.edges ==> e.parent in tb.nodes && e.child in tb.nodes
  }

  lemma MirrorJoinsNodes(id: Dep -> Id, tb: Tables, trees: set<Dep>)
    requires Mirrors(id, tb, trees) && DownwardClosed(trees)
    ensures EdgesJoinNodes(tb)
  {
  }

  // ----- one commit -----

  /** Inserts the planned nodes and their edges; a row or edge already there is kept. */
  ghost function Commit(id: Dep -> Id, tb: Tables, plan: map<Id, Dep>): Tables {
    Tables((map key | key in plan :: RowOf(plan[key])) + tb.nodes, tb.edges + EdgesOf(id, plan.Values))
  }

  /** Each entry of the plan is filed under its own id. */
  ghost predicate Filed(id: Dep -> Id, plan: map<Id, Dep>) {
    forall key :: key in plan ==> id(plan[key]) == key
  }

  /** The row and the child edges of one tree are in the tables. */
  ghost predicate Stored(id: Dep -> Id, tb: Tables, d: Dep) {
    && id(d) in tb.nodes && tb.nodes[id(d)] == RowOf(d)
    && EdgesOf(id, {d}) <= tb.edges
  }

  /** A stored tree, column by column: name and version of the package, the range asked for or else the version, and
      an edge from this node to each dependency. */
  lemma StoredColumns(id: Dep -> Id, tb: Tables, d: Dep)
    ensures Stored(id, tb, d) <==>
      && id(d) in tb.nodes
      && tb.nodes[id(d)].name == (if d.name.Some? then d.name.value else "")
      && tb.nodes[id(d)].version == (if d.version.Some? then d.version.value else "")
      && tb.nodes[id(d)].range ==
           (if d.range.Some? && d.range.value != "" then d.range.value
            else if d.version.Some? then d.version.value else "")
      && forall c :: c in d.dependencies ==> exists e :: e in tb.edges && e.parent == id(d) && e.child == id(c)
  {
    forall c | c in d.dependencies ensures Edge(id(d), id(c)) in EdgesOf(id, {d}) {}
    if forall c :: c in d.dependencies ==> exists e :: e in tb.edges && e.parent == id(d) && e.child == id(c) {
      forall e | e in EdgesOf(id, {d}) ensures e in tb.edges {
        var c :| c in d.dependencies && e == Edge(id(d), id(c));
        var e' :| e' in tb.edges && e'.parent == id(d) && e'.child == id(c);
      }
    }
  }

  lemma MirrorStores(id: Dep -> Id, tb: Tables, trees: set<Dep>, d: Dep)
    requires Mirrors(id, tb, trees) && d in trees
    ensures Stored(id, tb, d)
  {
  }

  /** Tables that store each of the trees and hold nothing else mirror them. */
  lemma StoresExactly(id: Dep -> Id, tb: Tables, trees: set<Dep>)
    requires tb.nodes.Keys <= Ids(id, trees) && tb.edges <= EdgesOf(id, trees)
    requires forall s :: s in trees ==> Stored(id, tb, s)
    ensures Mirrors(id, tb, trees)
  {
    forall e | e in EdgesOf(id, trees) ensures e in tb.edges {
      var s, c :| s in trees && c in s.dependencies && e == Edge(id(s), id(c));
      assert e in EdgesOf(id, {s});
      assert Stored(id, tb, s);
    }
  }

  lemma EdgesMonotone(id: Dep -> Id, a: set<Dep>, b: set<Dep>)
    requires a <= b
    ensures EdgesOf(id, a) <= EdgesOf(id, b)
  {
  }

  lemma SameFieldsSameRow(a: Dep, b: Dep)
    requires FieldsOf(a) == FieldsOf(b)
    ensures RowOf(a) == RowOf(b)
  {
  }

  lemma ChildIdOf(id: Dep -> Id, a: Dep, b: Dep, c: Dep) returns (c': Dep)
    requires ChildIdSet(id, a) == ChildIdSet(id, b) && c in a.dependencies
    ensures c' in b.dependencies && id(c') == id(c)
  {
    assert id(c) in ChildIdSet(id, b);
    c' :| c' in b.dependencies && id(c') == id(c);
  }

  lemma SameIdSameEdges(id: Dep -> Id, trees: set<Dep>, a: Dep, b: Dep)
    requires IdsSeparate(id, trees) && a in trees && b in trees && id(a) == id(b)
    ensures EdgesOf(id, {a}) == EdgesOf(id, {b})
  {
    forall e | e in EdgesOf(id, {a}) ensures e in EdgesOf(id, {b}) {
      var c :| c in a.dependencies && e == Edge(id(a), id(c));
      var _ := ChildIdOf(id, a, b, c);
    }
    forall e | e in EdgesOf(id, {b}) ensures e in EdgesOf(id, {a}) {
      var c :| c in b.dependencies && e == Edge(id(b), id(c));
      var _ := ChildIdOf(id, b, a, c);
    }
  }

  /** Two trees with one id are stored by the same row and edges. */
  lemma TwinStored(id: Dep -> Id, tb: Tables, trees: set<Dep>, a: Dep, b: Dep)
    requires IdsSeparate(id, trees) && a in trees && b in trees && id(a) == id(b)
    requires Stored(id, tb, a)
    ensures Stored(id, tb, b)
  {
    SameIdSameEdges(id, trees, a, b);
    SameFieldsSameRow(a, b);
  }

  lemma SubtreeOfChild(d: Dep, s: Dep) returns (c: Dep)
    requires s in Subtrees(d) && s != d
    ensures c in d.dependencies && s in Subtrees(c)
  {
    c :| c in d.dependencies && s in Subtrees(c);
  }

  lemma ChildSubtrees(d: Dep, c: Dep)
    requires c in d.dependencies
    ensures Subtrees(c) <= Subtrees(d)
  {
  }

  /** In tables that mirror a set of trees, a tree whose id is stored is stored completely:
      this is what makes it right to skip it. */
  lemma {:induction false} StoredRootIsComplete(id: Dep -> Id, tb: Tables, trees: set<Dep>, all: set<Dep>, d: Dep)
    requires Mirrors(id, tb, trees) && DownwardClosed(trees)
    requires trees <= all && Subtrees(d) <= all && IdsSeparate(id, all)
    requires id(d) in tb.nodes
    ensures forall s :: s in Subtrees(d) ==> Stored(id, tb, s)
  {
    var twin :| twin in trees && id(twin) == id(d);
    forall s | s in Subtrees(d) ensures Stored(id, tb, s) {
      if s == d {
        MirrorStores(id, tb, trees, twin);
        TwinStored(id, tb, all, twin, d);
      } else {
        var c := SubtreeOfChild(d, s);
        ChildSubtrees(d, c);
        var _ := ChildIdOf(id, d, twin, c);
        StoredRootIsComplete(id, tb, trees, all, c);
      }
    }
  }

  // ----- what a snapshot plans to insert -----

  ghost function AllSubtrees(ds: seq<Dep>): set<Dep> {
    set d, s | d in ds && s in Subtrees(d) :: s
  }

  /** Every node of a tree filed under its id, children before parents; a later visit overwrites. */
  function Collect(id: Dep -> Id, d: Dep): map<Id, Dep>
    decreases d
  {
    CollectAll(id, d.dependencies)[id(d) := d]
  }

  function CollectAll(id: Dep -> Id, ds: seq<Dep>): map<Id, Dep>
    decreases ds
  {
    if ds == [] then map[] else CollectAll(id, ds[..|ds| - 1]) + Collect(id, ds[|ds| - 1])
  }

  function UnknownRoots(id: Dep -> Id, ds: seq<Dep>, knownRoots: set<Id>): seq<Dep> {
    if ds == [] then []
    else if id(ds[|ds| - 1]) in knownRoots then UnknownRoots(id, ds[..|ds| - 1], knownRoots)
    else UnknownRoots(id, ds[..|ds| - 1], knownRoots) + [ds[|ds| - 1]]
  }

  /** The nodes of the trees whose roots were not known, before any id is dropped. */
  function Candidates(id: Dep -> Id, ds: seq<Dep>, knownRoots: set<Id>): map<Id, Dep> {
    CollectAll(id, UnknownRoots(id, ds, knownRoots))
  }

  /** The plan files nodes of these trees under their ids, one for each id. */
  ghost predicate Covers(id: Dep -> Id, plan: map<Id, Dep>, trees: set<Dep>) {
    && Filed(id, plan)
    && (forall key :: key in plan ==> plan[key] in trees)
    && (forall d :: d in trees ==> id(d) in plan)
  }

  lemma MergeCovers(id: Dep -> Id, p: map<Id, Dep>, a: set<Dep>, q: map<Id, Dep>, b: set<Dep>)
    requires Covers(id, p, a) && Covers(id, q, b)
    ensures Covers(id, p + q, a + b)
  {
  }

  lemma {:induction false} CollectCovers(id: Dep -> Id, d: Dep)
    ensures Covers(id, Collect(id, d), Subtrees(d))
    decreases d
  {
    CollectAllCovers(id, d.dependencies);
    assert Subtrees(d) == AllSubtrees(d.dependencies) + {d};
  }

  lemma {:induction false} CollectAllCovers(id: Dep -> Id, ds: seq<Dep>)
    ensures Covers(id, CollectAll(id, ds), AllSubtrees(ds))
    decreases ds
  {
    if ds != [] {
      var init, last := ds[..|ds| - 1], ds[|ds| - 1];
      CollectAllCovers(id, init);
      CollectCovers(id, last);
      MergeCovers(id, CollectAll(id, init), AllSubtrees(init), Collect(id, last), Subtrees(last));
      assert ds == init + [last];
      assert AllSubtrees(ds) == AllSubtrees(init) + Subtrees(last);
    }
  }

  lemma {:induction false} UnknownRootsFilter(id: Dep -> Id, ds: seq<Dep>, knownRoots: set<Id>, d: Dep)
    ensures d in UnknownRoots(id, ds, knownRoots) <==> d in ds && id(d) !in knownRoots
  {
    if ds != [] {
      UnknownRootsFilter(id, ds[..|ds| - 1], knownRoots, d);
      assert ds == ds[..|ds| - 1] + [ds[|ds| - 1]];
    }
  }

  // ----- skipping changes nothing -----

  /** A commit stores every tree that was stored before or is in the plan. */
  lemma CommitMirrors(id: Dep -> Id, tb: Tables, trees: set<Dep>, plan: map<Id, Dep>, more: set<Dep>)
    requires Mirrors(id, tb, trees) && IdsSeparate(id, trees + more)
    requires Filed(id, plan) && (forall key :: key in plan ==> plan[key] in more)
    requires forall s :: s in more ==> Stored(id, tb, s) || id(s) in plan
    ensures Mirrors(id, Commit(id, tb, plan), trees + more)
  {
    var tb' := Commit(id, tb, plan);
    forall s | s in trees + more ensures Stored(id, tb', s) {
      if s in trees { MirrorStores(id, tb, trees, s); }
      if Stored(id, tb, s) {
        CommitKeeps(id, tb, plan, s);
      } else {
        CommitAdds(id, tb, trees, plan, trees + more, s);
      }
    }
    EdgesMonotone(id, plan.Values, trees + more);
    EdgesMonotone(id, trees, trees + more);
    StoresExactly(id, tb', trees + more);
  }

  lemma CommitKeeps(id: Dep -> Id, tb: Tables, plan: map<Id, Dep>, s: Dep)
    requires Stored(id, tb, s)
    ensures Stored(id, Commit(id, tb, plan), s)
  {
  }

  lemma CommitAdds(id: Dep -> Id, tb: Tables, trees: set<Dep>, plan: map<Id, Dep>, all: set<Dep>, s: Dep)
    requires Mirrors(id, tb, trees) && trees <= all && IdsSeparate(id, all)
    requires Filed(id, plan) && (forall key :: key in plan ==> plan[key] in all) && s in all
    requires id(s) in plan
    ensures Stored(id, Commit(id, tb, plan), s)
  {
    hide RowOf;
    var key := id(s);
    var p := plan[key];
    assert p in plan.Values;
    EdgesMonotone(id, {p}, plan.Values);
    SameIdSameEdges(id, all, p, s);
    assert RowOf(p) == RowOf(s) by { SameFieldsSameRow(p, s); }
    if key in tb.nodes {
      StoredRowOf(id, tb, trees, all, s);
    }
  }

  lemma StoredRowOf(id: Dep -> Id, tb: Tables, trees: set<Dep>, all: set<Dep>, s: Dep)
    requires Mirrors(id, tb, trees) && trees <= all && IdsSeparate(id, all)
    requires s in all && id(s) in tb.nodes
    ensures tb.nodes[id(s)] == RowOf(s)
  {
    var twin :| twin in trees && id(twin) == id(s);
    SameFieldsSameRow(twin, s);
  }

  /** A snapshot that skips known roots and drops known ids leaves the tables holding every submitted
      tree, whatever known ids it happened to read, as long as they were stored. */
  lemma SnapshotMirrors(id: Dep -> Id, tb: Tables, trees: set<Dep>, ds: seq<Dep>, knownRoots: set<Id>,
      knownIds: set<Id>)
    requires Mirrors(id, tb, trees) && DownwardClosed(trees)
    requires IdsSeparate(id, trees + AllSubtrees(ds))
    requires knownRoots <= tb.nodes.Keys && knownIds <= tb.nodes.Keys
    ensures Mirrors(id, Commit(id, tb, Candidates(id, ds, knownRoots) - knownIds), trees + AllSubtrees(ds))
  {
    var all := trees + AllSubtrees(ds);
    var unknown := UnknownRoots(id, ds, knownRoots);
    var plan := Candidates(id, ds, knownRoots) - knownIds;
    CollectAllCovers(id, unknown);
    forall s | s in AllSubtrees(ds) ensures Stored(id, tb, s) || id(s) in plan {
      var d :| d in ds && s in Subtrees(d);
      UnknownRootsFilter(id, ds, knownRoots, d);
      SubtreesNested(d, s);
      if id(d) in knownRoots {
        StoredRootIsComplete(id, tb, trees, all, d);
      } else if id(s) in knownIds {
        SelfSubtree(s);
        StoredRootIsComplete(id, tb, trees, all, s);
      } else {
        assert s in AllSubtrees(unknown);
      }
    }
    forall key | key in plan ensures plan[key] in AllSubtrees(ds) {
      assert plan[key] in AllSubtrees(unknown);
      var d :| d in unknown && plan[key] in Subtrees(d);
      UnknownRootsFilter(id, ds, knownRoots, d);
    }
    CommitMirrors(id, tb, trees, plan, AllSubtrees(ds));
  }

  lemma SelfSubtree(d: Dep)
    ensures d in Subtrees(d)
  {
  }

  lemma {:induction false} SubtreesNested(d: Dep, s: Dep)
    requires s in Subtrees(d)
    ensures Subtrees(s) <= Subtrees(d)
  {
    if s != d {
      var c := SubtreeOfChild(d, s);
      SubtreesNested(c, s);
      ChildSubtrees(d, c);
    }
  }

  lemma AllSubtreesClosed(ds: seq<Dep>)
    ensures DownwardClosed(AllSubtrees(ds))
  {
    forall s, c | s in AllSubtrees(ds) && c in s.dependencies ensures c in AllSubtrees(ds) {
      var d :| d in ds && s in Subtrees(d);
      SubtreesNested(d, s);
      SelfSubtree(c);
      ChildSubtrees(s, c);
    }
  }

  /** Skipping is an optimisation only: the result is that of inserting every node of every tree. */
  lemma SkippingInsertsTheSame(id: Dep -> Id, tb: Tables, trees: set<Dep>, ds: seq<Dep>, knownRoots: set<Id>,
      knownIds: set<Id>)
    requires Mirrors(id, tb, trees) && DownwardClosed(trees)
    requires IdsSeparate(id, trees + AllSubtrees(ds))
    requires knownRoots <= tb.nodes.Keys && knownIds <= tb.nodes.Keys
    ensures Commit(id, tb, Candidates(id, ds, knownRoots) - knownIds) == Commit(id, tb, CollectAll(id, ds))
  {
    SnapshotMirrors(id, tb, trees, ds, knownRoots, knownIds);
    CollectAllCovers(id, ds);
    CommitMirrors(id, tb, trees, CollectAll(id, ds), AllSubtrees(ds));
    MirrorUnique(id, Commit(id, tb, Candidates(id, ds, knownRoots) - knownIds),
      Commit(id, tb, CollectAll(id, ds)), trees + AllSubtrees(ds));
  }

  // ----- what holds even where ids collide -----

  /** Each stored id is that of a tree whose row and child edges are stored, and edges join stored nodes. */
  ghost predicate Closed(id: Dep -> Id, universe: set<Dep>, tb: Tables) {
    && EdgesJoinNodes(tb)
    && forall key :: key in tb.nodes ==> exists d :: d in universe && id(d) == key && Stored(id, tb, d)
  }

  lemma MirrorIsClosed(id: Dep -> Id, universe: set<Dep>, tb: Tables, trees: set<Dep>)
    requires Mirrors(id, tb, trees) && DownwardClosed(trees) && trees <= universe
    ensures Closed(id, universe, tb)
  {
    MirrorJoinsNodes(id, tb, trees);
    forall key | key in tb.nodes ensures exists d :: d in universe && id(d) == key && Stored(id, tb, d) {
      var d :| d in trees && id(d) == key;
      MirrorStores(id, tb, trees, d);
    }
  }

  /** A commit keeps this as long as no planned tree has a child that is neither planned nor stored. */
  lemma CommitKeepsClosed(id: Dep -> Id, universe: set<Dep>, tb: Tables, plan: map<Id, Dep>)
    requires Closed(id, universe, tb) && Filed(id, plan) && plan.Values <= universe
    requires forall key, c :: key in plan && c in plan[key].dependencies ==> id(c) in plan || id(c) in tb.nodes
    ensures Closed(id, universe, Commit(id, tb, plan))
  {
    hide RowOf;
    var after := Commit(id, tb, plan);
    forall key | key in after.nodes ensures exists d :: d in universe && id(d) == key && Stored(id, after, d) {
      if key in tb.nodes {
        var d :| d in universe && id(d) == key && Stored(id, tb, d);
        CommitKeeps(id, tb, plan, d);
      } else {
        var d := plan[key];
        assert d in plan.Values;
        EdgesMonotone(id, {d}, plan.Values);
        assert Stored(id, after, d);
      }
    }
    forall e | e in EdgesOf(id, plan.Values) ensures e.parent in after.nodes && e.child in after.nodes {
      var d, c :| d in plan.Values && c in d.dependencies && e == Edge(id(d), id(c));
      var key :| key in plan && plan[key] == d;
    }
  }

  // ----- reading a tree back -----

  /** A dependency tree as the tables can show it: rows, and children as a set. */
  datatype Unfolded = Missing | Unfolded(row: Row, children: set<Unfolded>)

  ghost function Unfold(tb: Tables, key: Id, depth: nat): Unfolded
    decreases depth
  {
    if depth == 0 || key !in tb.nodes then Missing
    else Unfolded(tb.nodes[key], set e | e in tb.edges && e.parent == key :: Unfold(tb, e.child, depth - 1))
  }

  ghost function ShapeOf(d: Dep): Unfolded {
    Unfolded(RowOf(d), set c | c in d.dependencies :: ShapeOf(c))
  }

  ghost function Height(d: Dep): nat
    decreases d, 1
  {
    1 + HeightAll(d.dependencies)
  }

  ghost function HeightAll(ds: seq<Dep>): nat
    decreases ds, 0
  {
    if ds == [] then 0 else
      var rest, last := HeightAll(ds[..|ds| - 1]), Height(ds[|ds| - 1]);
      if rest > last then rest else last
  }

  lemma {:induction false} ChildIsLower(ds: seq<Dep>, c: Dep)
    requires c in ds
    ensures Height(c) <= HeightAll(ds)
  {
    if c != ds[|ds| - 1] {
      assert ds == ds[..|ds| - 1] + [ds[|ds| - 1]];
      ChildIsLower(ds[..|ds| - 1], c);
    }
  }

  lemma EdgesOfStoredId(id: Dep -> Id, tb: Tables, trees: set<Dep>, d: Dep)
    requires Mirrors(id, tb, trees) && IdsSeparate(id, trees) && d in trees
    ensures (set e | e in tb.edges && e.parent == id(d)) == EdgesOf(id, {d})
  {
    forall e | e in tb.edges && e.parent == id(d) ensures e in EdgesOf(id, {d}) {
      var s, c :| s in trees && c in s.dependencies && e == Edge(id(s), id(c));
      assert e in EdgesOf(id, {s});
      SameIdSameEdges(id, trees, s, d);
    }
    MirrorStores(id, tb, trees, d);
  }

  /** Unfolding the tables from the id of a stored tree gives that tree back. */
  lemma {:induction false} UnfoldGivesTree(id: Dep -> Id, tb: Tables, trees: set<Dep>, d: Dep, depth: nat)
    requires Mirrors(id, tb, trees) && DownwardClosed(trees) && IdsSeparate(id, trees)
    requires d in trees && depth >= Height(d)
    ensures Unfold(tb, id(d), depth) == ShapeOf(d)
    decreases d
  {
    hide RowOf, Mirrors, IdsSeparate, Unfold, ShapeOf;
    forall c | c in d.dependencies ensures Unfold(tb, id(c), depth - 1) == ShapeOf(c) {
      ChildIsLower(d.dependencies, c);
      UnfoldGivesTree(id, tb, trees, c, depth - 1);
    }
    EdgesOfStoredId(id, tb, trees, d);
    UnfoldChildren(id, tb, d, depth - 1);
    MirrorStores(id, tb, trees, d);
    UnfoldStep(tb, id(d), depth);
    ShapeStep(d);
  }

  lemma UnfoldStep(tb: Tables, key: Id, depth: nat)
    requires depth > 0 && key in tb.nodes
    ensures Unfold(tb, key, depth)
      == Unfolded(tb.nodes[key], set e | e in tb.edges && e.parent == key :: Unfold(tb, e.child, depth - 1))
  {
  }

  lemma ShapeStep(d: Dep)
    ensures ShapeOf(d) == Unfolded(RowOf(d), set c | c in d.dependencies :: ShapeOf(c))
  {
  }

  lemma UnfoldChildren(id: Dep -> Id, tb: Tables, d: Dep, depth: nat)
    requires (set e | e in tb.edges && e.parent == id(d)) == EdgesOf(id, {d})
    requires forall c :: c in d.dependencies ==> Unfold(tb, id(c), depth) == ShapeOf(c)
    ensures (set e | e in tb.edges && e.parent == id(d) :: Unfold(tb, e.child, depth))
      == (set c | c in d.dependencies :: ShapeOf(c))
  {
    var key := id(d);
    var out := set e | e in tb.edges && e.parent == key;
    forall e | e in out ensures exists c :: c in d.dependencies && Unfold(tb, e.child, depth) == ShapeOf(c) {
      var c :| c in d.dependencies && e == Edge(key, id(c));
    }
    forall c | c in d.dependencies ensures exists e :: e in out && Unfold(tb, e.child, depth) == ShapeOf(c) {
      assert Edge(key, id(c)) in EdgesOf(id, {d});
      assert Edge(key, id(c)) in out;
    }
  }
}
