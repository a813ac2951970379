/** Many snapshots at once: each reads what is known in slices, outside any transaction, while others
    commit; then it commits its own plan. Every interleaving is a run of this state machine. */
module SnapshotProtocol {
  import opened Options
  import opened MerkleTree
  import opened DependencyStore
  import Ordering
  import SnapshotInsert

  datatype Phase =
    | ReadingRoots(next: nat)
    | ReadingIds(next: nat)
    | Ready
    | Finished
    | Recorded

  datatype Worker = Worker(trees: seq<Dep>, phase: Phase, knownRoots: set<Id>, knownIds: set<Id>) {
    predicate Done() {
      phase.Finished? || phase.Recorded?
    }
  }

  datatype World = World(tables: Tables, manifestNodes: set<Id>, workers: map<nat, Worker>)

  /** What the scheduler lets happen next. */
  datatype Step =
    | Arrive(k: nat, trees: seq<Dep>)
    | ReadRootSlice(k: nat)
    | RootsRead(k: nat)
    | ReadIdSlice(k: nat)
    | IdsRead(k: nat)
    | CommitPlan(k: nat)
    | RecordManifest(k: nat)
    | Crash(k: nat)

  ghost function Listed(s: set<Id>): seq<Id> {
    if s == {} then [] else var x :| x in s; [x] + Listed(s - {x})
  }

  ghost function SortedIds(s: set<Id>): seq<Id> {
    Ordering.Sort(Ordering.StringLe, Listed(s))
  }

  ghost function RootIdSet(id: Dep -> Id, trees: seq<Dep>): set<Id> {
    set d | d in trees :: id(d)
  }

  ghost function KnownInSlice(tb: Tables, ids: seq<Id>, next: nat): set<Id> {
    set x | x in SnapshotInsert.Slice(ids, next, SnapshotInsert.BATCH) && x in tb.nodes
  }

  ghost function CandidatesOf(id: Dep -> Id, w: Worker): map<Id, Dep> {
    Candidates(id, w.trees, w.knownRoots)
  }

  ghost function PlanOf(id: Dep -> Id, w: Worker): map<Id, Dep> {
    CandidatesOf(id, w) - w.knownIds
  }

  /** What one worker does to itself when it takes a step against the current tables. */
  ghost predicate WorkerStep(id: Dep -> Id, tb: Tables, s: Step, v: Worker, v': Worker) {
    match s
    case Arrive(_, _) => false
    case ReadRootSlice(_) =>
      var ids := SortedIds(RootIdSet(id, v.trees));
      v.phase.ReadingRoots? && v.phase.next < |ids|
      && v' == v.(knownRoots := v.knownRoots + KnownInSlice(tb, ids, v.phase.next),
                  phase := ReadingRoots(v.phase.next + SnapshotInsert.BATCH))
    case RootsRead(_) =>
      v.phase.ReadingRoots? && v.phase.next >= |SortedIds(RootIdSet(id, v.trees))|
      && v' == v.(phase := if CandidatesOf(id, v) == map[] then Finished else ReadingIds(0))
    case ReadIdSlice(_) =>
      var ids := SortedIds(CandidatesOf(id, v).Keys);
      v.phase.ReadingIds? && v.phase.next < |ids|
      && v' == v.(knownIds := v.knownIds + KnownInSlice(tb, ids, v.phase.next),
                  phase := ReadingIds(v.phase.next + SnapshotInsert.BATCH))
    case IdsRead(_) =>
      v.phase.ReadingIds? && v.phase.next >= |SortedIds(CandidatesOf(id, v).Keys)|
      && v' == v.(phase := if PlanOf(id, v) == map[] then Finished else Ready)
    case CommitPlan(_) => v.phase.Ready? && v' == v.(phase := Finished)
    case RecordManifest(_) => v.phase.Finished? && v' == v.(phase := Recorded)
    case Crash(_) => false
  }

  ghost predicate StepTaken(id: Dep -> Id, universe: set<Dep>, w: World, w': World, s: Step) {
    match s
    case Arrive(k, trees) =>
      k !in w.workers && AllSubtrees(trees) <= universe
      && w' == w.(workers := w.workers[k := Worker(trees, ReadingRoots(0), {}, {})])
    case Crash(k) =>
      k in w.workers && !w.workers[k].Done() && w' == w.(workers := w.workers - {k})
    case _ =>
      s.k in w.workers && s.k in w'.workers
      && WorkerStep(id, w.tables, s, w.workers[s.k], w'.workers[s.k])
      && w'.workers == w.workers[s.k := w'.workers[s.k]]
      && w'.tables == (if s.CommitPlan? then Commit(id, w.tables, PlanOf(id, w.workers[s.k])) else w.tables)
      && w'.manifestNodes == w.manifestNodes + (if s.RecordManifest? then RootIdSet(id, w.workers[s.k].trees) else {})
  }

  ghost predicate Next(id: Dep -> Id, universe: set<Dep>, w: World, w': World) {
    exists s :: StepTaken(id, universe, w, w', s)
  }

  /** The trees that were there at the start and those of every snapshot that has finished. */
  ghost function StoredTrees(initial: set<Dep>, w: World): set<Dep> {
    initial + set k, s | k in w.workers && w.workers[k].Done() && s in AllSubtrees(w.workers[k].trees) :: s
  }

  ghost predicate WorkerOk(universe: set<Dep>, tb: Tables, v: Worker) {
    AllSubtrees(v.trees) <= universe && v.knownRoots <= tb.nodes.Keys && v.knownIds <= tb.nodes.Keys
  }

  /** The tables hold exactly the trees stored so far; what a worker has read as known is stored. */
  ghost predicate Inv(id: Dep -> Id, universe: set<Dep>, initial: set<Dep>, w: World) {
    && Mirrors(id, w.tables, StoredTrees(initial, w))
    && StoredTrees(initial, w) <= universe && DownwardClosed(StoredTrees(initial, w))
    && w.manifestNodes <= w.tables.nodes.Keys
    && forall k :: k in w.workers ==> WorkerOk(universe, w.tables, w.workers[k])
  }

  /** What every database satisfies in which snapshots only have written: closed tables, and manifests
      that refer to stored nodes. */
  ghost predicate StartClosed(id: Dep -> Id, universe: set<Dep>, w: World) {
    Closed(id, universe, w.tables) && w.manifestNodes <= w.tables.nodes.Keys && w.workers == map[]
  }

  ghost predicate Start(id: Dep -> Id, universe: set<Dep>, initial: set<Dep>, w: World) {
    && Mirrors(id, w.tables, initial) && DownwardClosed(initial) && initial <= universe
    && w.manifestNodes <= w.tables.nodes.Keys && w.workers == map[]
  }

  ghost predicate Steps(id: Dep -> Id, universe: set<Dep>, run: seq<World>) {
    run != [] && forall i :: 0 <= i < |run| - 1 ==> Next(id, universe, run[i], run[i + 1])
  }

  ghost predicate Run(id: Dep -> Id, universe: set<Dep>, initial: set<Dep>, run: seq<World>) {
    Steps(id, universe, run) && Start(id, universe, initial, run[0])
  }

  // ----- every step keeps the invariant -----

  /** Finishing without an insert: everything submitted was stored already. */
  lemma NothingLeftMirrors(id: Dep -> Id, universe: set<Dep>, trees: set<Dep>, tb: Tables, v: Worker)
    requires IdsSeparate(id, universe) && trees <= universe
    requires Mirrors(id, tb, trees) && DownwardClosed(trees) && WorkerOk(universe, tb, v)
    requires PlanOf(id, v) == map[]
    ensures Mirrors(id, tb, trees + AllSubtrees(v.trees))
  {
    PlanMirrors(id, universe, trees, tb, v);
    SnapshotInsert.CommitNothing(id, tb);
  }

  lemma PlanMirrors(id: Dep -> Id, universe: set<Dep>, trees: set<Dep>, tb: Tables, v: Worker)
    requires IdsSeparate(id, universe) && trees <= universe
    requires Mirrors(id, tb, trees) && DownwardClosed(trees) && WorkerOk(universe, tb, v)
    ensures Mirrors(id, Commit(id, tb, PlanOf(id, v)), trees + AllSubtrees(v.trees))
  {
    hide Mirrors, Commit, DownwardClosed, Candidates;
    assert IdsSeparate(id, trees + AllSubtrees(v.trees));
    SnapshotMirrors(id, tb, trees, v.trees, v.knownRoots, v.knownIds);
  }

  ghost function NewlyDone(w: World, w': World, s: Step): set<Dep> {
    if !s.Arrive? && !s.Crash? && s.k in w.workers && s.k in w'.workers && w'.workers[s.k].Done()
    then AllSubtrees(w.workers[s.k].trees) else {}
  }

  /** When the stepping worker becomes done, its trees join the stored ones; otherwise nothing does. */
  lemma StoredTreesAfter(id: Dep -> Id, universe: set<Dep>, initial: set<Dep>, w: World, w': World, s: Step)
    requires StepTaken(id, universe, w, w', s)
    ensures StoredTrees(initial, w') == StoredTrees(initial, w) + NewlyDone(w, w', s)
  {
    hide AllSubtrees, Commit, Candidates;
    forall d ensures d in StoredTrees(initial, w') <==> d in StoredTrees(initial, w) + NewlyDone(w, w', s) {
      if d in StoredTrees(initial, w) && d !in initial {
        var k :| k in w.workers && w.workers[k].Done() && d in AllSubtrees(w.workers[k].trees);
        assert k in w'.workers && w'.workers[k].Done() && w'.workers[k].trees == w.workers[k].trees;
      }
      if d in StoredTrees(initial, w') && d !in initial {
        var k :| k in w'.workers && w'.workers[k].Done() && d in AllSubtrees(w'.workers[k].trees);
        assert k in w.workers && w.workers[k].trees == w'.workers[k].trees;
      }
    }
  }

  lemma StepKeepsWorkers(id: Dep -> Id, universe: set<Dep>, w: World, w': World, s: Step)
    requires forall k :: k in w.workers ==> WorkerOk(universe, w.tables, w.workers[k])
    requires StepTaken(id, universe, w, w', s)
    ensures w.tables.nodes.Keys <= w'.tables.nodes.Keys
    ensures forall k :: k in w'.workers ==> WorkerOk(universe, w'.tables, w'.workers[k])
  {
    hide AllSubtrees, Candidates, EdgesOf;
  }

  lemma StepKeepsInv(id: Dep -> Id, universe: set<Dep>, initial: set<Dep>, w: World, w': World, s: Step)
    requires IdsSeparate(id, universe) && Inv(id, universe, initial, w) && StepTaken(id, universe, w, w', s)
    ensures Inv(id, universe, initial, w')
  {
    hide Mirrors, AllSubtrees, Candidates, StoredTrees, DownwardClosed, IdsSeparate;
    StepKeepsWorkers(id, universe, w, w', s);
    StoredTreesAfter(id, universe, initial, w, w', s);
    assert StoredTrees(initial, w) + {} == StoredTrees(initial, w);
    if !s.Arrive? && !s.Crash? && w'.workers[s.k].Done() {
      var v := w.workers[s.k];
      DoneMirrors(id, universe, initial, w, w', s);
      SnapshotInsert.UnionClosed(StoredTrees(initial, w), v.trees);
      if s.RecordManifest? {
        RootsAreStored(id, w'.tables, StoredTrees(initial, w'), v.trees);
      }
    }
  }

  lemma RootsAreStored(id: Dep -> Id, tb: Tables, trees: set<Dep>, ds: seq<Dep>)
    requires Mirrors(id, tb, trees) && AllSubtrees(ds) <= trees
    ensures RootIdSet(id, ds) <= tb.nodes.Keys
  {
    forall d | d in ds ensures d in trees { SelfSubtree(d); }
  }

  lemma DoneMirrors(id: Dep -> Id, universe: set<Dep>, initial: set<Dep>, w: World, w': World, s: Step)
    requires IdsSeparate(id, universe) && Inv(id, universe, initial, w) && StepTaken(id, universe, w, w', s)
    requires !s.Arrive? && !s.Crash? && w'.workers[s.k].Done()
    ensures Mirrors(id, w'.tables, StoredTrees(initial, w) + AllSubtrees(w.workers[s.k].trees))
  {
    hide Mirrors, AllSubtrees, Candidates, IdsSeparate, DownwardClosed;
    var v := w.workers[s.k];
    var trees := StoredTrees(initial, w);
    if s.CommitPlan? {
      PlanMirrors(id, universe, trees, w.tables, v);
    } else if s.RecordManifest? {
      assert trees + AllSubtrees(v.trees) == trees;
    } else {
      assert PlanOf(id, v) == map[];
      NothingLeftMirrors(id, universe, trees, w.tables, v);
    }
  }

  /** Safety over whole runs: in every reachable state the tables hold exactly the initial trees and
      those of all finished snapshots, although each read happened at some earlier moment. */
  lemma {:induction false} RunKeepsInv(id: Dep -> Id, universe: set<Dep>, initial: set<Dep>, run: seq<World>, i: nat)
    requires IdsSeparate(id, universe) && Run(id, universe, initial, run) && i < |run|
    ensures Inv(id, universe, initial, run[i])
  {
    if i == 0 {
      assert StoredTrees(initial, run[0]) == initial;
    } else {
      RunKeepsInv(id, universe, initial, run, i - 1);
      assert Next(id, universe, run[i - 1], run[i - 1 + 1]);
      var s :| StepTaken(id, universe, run[i - 1], run[i], s);
      StepKeepsInv(id, universe, initial, run[i - 1], run[i], s);
    }
  }

  // ----- what follows for the database -----

  /** For every id of trees, also one under which trees collide: the tables are closed, manifests refer to stored
      nodes, what a worker has read as known is stored, and so are the roots of a snapshot that has finished. */
  ghost predicate Safe(id: Dep -> Id, universe: set<Dep>, w: World) {
    && Closed(id, universe, w.tables) && w.manifestNodes <= w.tables.nodes.Keys
    && (forall k :: k in w.workers ==> WorkerOk(universe, w.tables, w.workers[k]))
    && (forall k :: k in w.workers && w.workers[k].Done() ==> RootIdSet(id, w.workers[k].trees) <= w.tables.nodes.Keys)
  }

  /** A root was either known, or it heads the nodes that a worker may have to insert. */
  lemma RootKnownOrCandidate(id: Dep -> Id, v: Worker, d: Dep)
    requires d in v.trees
    ensures id(d) in v.knownRoots || id(d) in CandidatesOf(id, v)
  {
    if id(d) !in v.knownRoots {
      var unknown := UnknownRoots(id, v.trees, v.knownRoots);
      UnknownRootsFilter(id, v.trees, v.knownRoots, d);
      CollectAllCovers(id, unknown);
      SelfSubtree(d);
      assert d in AllSubtrees(unknown);
    }
  }

  lemma CandidatesFiled(id: Dep -> Id, universe: set<Dep>, tb: Tables, v: Worker)
    requires WorkerOk(universe, tb, v)
    ensures Filed(id, CandidatesOf(id, v)) && CandidatesOf(id, v).Values <= universe
  {
    var unknown := UnknownRoots(id, v.trees, v.knownRoots);
    CollectAllCovers(id, unknown);
    forall s | s in AllSubtrees(unknown) ensures s in universe {
      var d :| d in unknown && s in Subtrees(d);
      UnknownRootsFilter(id, v.trees, v.knownRoots, d);
      assert s in AllSubtrees(v.trees);
    }
  }

  lemma PlanKeepsClosed(id: Dep -> Id, universe: set<Dep>, tb: Tables, v: Worker)
    requires Closed(id, universe, tb) && WorkerOk(universe, tb, v)
    ensures Closed(id, universe, Commit(id, tb, PlanOf(id, v)))
  {
    hide Closed, Commit, Candidates, AllSubtrees;
    var plan := PlanOf(id, v);
    CandidatesFiled(id, universe, tb, v);
    forall key, c | key in plan && c in plan[key].dependencies ensures id(c) in plan || id(c) in tb.nodes {
      SnapshotInsert.CandidatesClosed(id, v.trees, v.knownRoots, key, c);
    }
    CommitKeepsClosed(id, universe, tb, plan);
  }

  lemma DoneRootsStored(id: Dep -> Id, universe: set<Dep>, w: World, w': World, s: Step)
    requires Safe(id, universe, w) && StepTaken(id, universe, w, w', s)
    requires !s.Arrive? && !s.Crash? && w'.workers[s.k].Done()
    ensures RootIdSet(id, w'.workers[s.k].trees) <= w'.tables.nodes.Keys
  {
    hide Closed, AllSubtrees, Candidates, EdgesOf;
    var v := w.workers[s.k];
    assert w'.workers[s.k].trees == v.trees && WorkerOk(universe, w.tables, v);
    forall d | d in v.trees ensures id(d) in w'.tables.nodes {
      RootKnownOrCandidate(id, v, d);
      if s.RecordManifest? {
        assert v.Done() && id(d) in RootIdSet(id, v.trees);
      } else {
        assert id(d) in v.knownRoots || id(d) in v.knownIds || id(d) in PlanOf(id, v);
      }
    }
  }

  lemma StepKeepsSafe(id: Dep -> Id, universe: set<Dep>, w: World, w': World, s: Step)
    requires Safe(id, universe, w) && StepTaken(id, universe, w, w', s)
    ensures Safe(id, universe, w')
  {
    hide Closed, AllSubtrees, Candidates, Commit, RootIdSet, PlanOf;
    StepKeepsWorkers(id, universe, w, w', s);
    if s.CommitPlan? { PlanKeepsClosed(id, universe, w.tables, w.workers[s.k]); }
    if !s.Arrive? && !s.Crash? && w'.workers[s.k].Done() { DoneRootsStored(id, universe, w, w', s); }
  }

  /** Concurrent closure, over all runs and for every id of trees: each stored id is that of a tree whose row, child
      edges and children are stored, every edge joins stored nodes, every manifest refers to a stored node, and
      the roots of every finished snapshot are stored. */
  lemma {:induction false} ConcurrentClosure(id: Dep -> Id, universe: set<Dep>, run: seq<World>, i: nat)
    requires Steps(id, universe, run) && StartClosed(id, universe, run[0]) && i < |run|
    ensures Safe(id, universe, run[i])
    ensures forall key :: key in run[i].tables.nodes ==>
      exists d :: d in universe && id(d) == key && Stored(id, run[i].tables, d) && ChildrenStored(id, run[i].tables, d)
  {
    if i > 0 {
      hide Safe, StepTaken, ChildrenStored;
      ConcurrentClosure(id, universe, run, i - 1);
      assert Next(id, universe, run[i - 1], run[i - 1 + 1]);
      var s :| StepTaken(id, universe, run[i - 1], run[i], s);
      StepKeepsSafe(id, universe, run[i - 1], run[i], s);
    }
    SafeChildren(id, universe, run[i]);
  }

  ghost predicate ChildrenStored(id: Dep -> Id, tb: Tables, d: Dep) {
    forall c :: c in d.dependencies ==> id(c) in tb.nodes && Edge(id(d), id(c)) in tb.edges
  }

  lemma SafeChildren(id: Dep -> Id, universe: set<Dep>, w: World)
    requires Safe(id, universe, w)
    ensures forall key :: key in w.tables.nodes ==>
      exists d :: d in universe && id(d) == key && Stored(id, w.tables, d) && ChildrenStored(id, w.tables, d)
  {
    hide RowOf;
    forall key | key in w.tables.nodes
      ensures exists d :: d in universe && id(d) == key && Stored(id, w.tables, d) && ChildrenStored(id, w.tables, d)
    {
      var d :| d in universe && id(d) == key && Stored(id, w.tables, d);
      forall c | c in d.dependencies ensures Edge(id(d), id(c)) in w.tables.edges {
        assert Edge(id(d), id(c)) in EdgesOf(id, {d});
      }
      assert ChildrenStored(id, w.tables, d);
    }
  }

  /** In particular for runs that start from tables holding exactly a closed set of trees. */
  lemma StartIsClosed(id: Dep -> Id, universe: set<Dep>, initial: set<Dep>, w: World)
    requires Start(id, universe, initial, w)
    ensures StartClosed(id, universe, w)
  {
    MirrorIsClosed(id, universe, w.tables, initial);
  }

  lemma SubsetSeparates(id: Dep -> Id, trees: set<Dep>, universe: set<Dep>)
    requires IdsSeparate(id, universe) && trees <= universe
    ensures IdsSeparate(id, trees)
  {
  }

  /** From the moment a snapshot has finished, each tree it submitted can be read back. */
  lemma FinishedReadsBack(id: Dep -> Id, universe: set<Dep>, initial: set<Dep>, run: seq<World>, i: nat, k: nat,
      d: Dep, depth: nat)
    requires IdsSeparate(id, universe) && Run(id, universe, initial, run) && i < |run|
    requires k in run[i].workers && run[i].workers[k].Done() && d in run[i].workers[k].trees && depth >= Height(d)
    ensures Unfold(run[i].tables, id(d), depth) == ShapeOf(d)
  {
    hide Unfold, ShapeOf, Height, Run, Mirrors, IdsSeparate, WorkerOk;
    RunKeepsInv(id, universe, initial, run, i);
    SelfSubtree(d);
    assert d in AllSubtrees(run[i].workers[k].trees);
    assert d in StoredTrees(initial, run[i]);
    SubsetSeparates(id, StoredTrees(initial, run[i]), universe);
    UnfoldGivesTree(id, run[i].tables, StoredTrees(initial, run[i]), d, depth);
  }

  /** The order of the steps leaves no trace: runs that have stored the same trees have the same tables. */
  lemma InterleavingLeavesNoTrace(id: Dep -> Id, universe: set<Dep>, initial: set<Dep>,
      run: seq<World>, i: nat, run': seq<World>, j: nat)
    requires IdsSeparate(id, universe)
    requires Run(id, universe, initial, run) && i < |run| && Run(id, universe, initial, run') && j < |run'|
    requires StoredTrees(initial, run[i]) == StoredTrees(initial, run'[j])
    ensures run[i].tables == run'[j].tables
  {
    RunKeepsInv(id, universe, initial, run, i);
    RunKeepsInv(id, universe, initial, run', j);
    MirrorUnique(id, run[i].tables, run'[j].tables, StoredTrees(initial, run[i]));
  }

  /** The store only grows: a row is never changed or lost, an edge never removed. */
  lemma {:induction false} StoreOnlyGrows(id: Dep -> Id, universe: set<Dep>, run: seq<World>, i: nat, j: nat)
    requires Steps(id, universe, run) && i <= j < |run|
    ensures forall key :: key in run[i].tables.nodes ==>
      key in run[j].tables.nodes && run[j].tables.nodes[key] == run[i].tables.nodes[key]
    ensures run[i].tables.edges <= run[j].tables.edges
    decreases j
  {
    if i < j {
      StoreOnlyGrows(id, universe, run, i, j - 1);
      assert Next(id, universe, run[j - 1], run[j - 1 + 1]);
      var s :| StepTaken(id, universe, run[j - 1], run[j], s);
    }
  }
}
