/** The in-memory graph a snapshot builds from a dependency tree, with its parent links,
    and the index of its nodes by id. */
module DependencyGraph {
  import opened Options
  import opened MerkleTree
  import opened DependencyStore

  /** Only the parent link of a node is assigned after the node is made. */
  class GraphNode {
    const treeHashId: Id
    const packageData: Dep
    const parentRange: string
    const children: seq<GraphNode>
    var parent: GraphNode?

    constructor (treeHashId: Id, packageData: Dep, parentRange: string, children: seq<GraphNode>)
      ensures this.treeHashId == treeHashId && this.packageData == packageData
      ensures this.parentRange == parentRange && this.children == children && parent == null
    {
      this.treeHashId, this.packageData := treeHashId, packageData;
      this.parentRange, this.children, this.parent := parentRange, children, null;
    }

    /** The node carries the id and the range of its tree, and its children those of the child trees. */
    ghost predicate Built(id: Dep -> Id)
      decreases packageData
    {
      && treeHashId == id(packageData) && parentRange == ParentRange(packageData)
      && |children| == |packageData.dependencies|
      && forall i :: 0 <= i < |children| ==>
           children[i].packageData == packageData.dependencies[i] && children[i].Built(id)
    }

    /** The children of this node, and everything below them. */
    ghost function Below(id: Dep -> Id): set<GraphNode>
      requires Built(id)
      decreases packageData
    {
      (set c | c in children) + set i, n | 0 <= i < |children| && n in children[i].Below(id) :: n
    }

    ghost function Nodes(id: Dep -> Id): set<GraphNode>
      requires Built(id)
    {
      {this} + Below(id)
    }

    /** No node is reached twice, and each child links back to the node that lists it. */
    ghost predicate Linked(id: Dep -> Id)
      requires Built(id)
      reads Below(id)
      decreases packageData, 1
    {
      (forall i :: 0 <= i < |children| ==> children[i].parent == this) && Apart(id)
    }

    /** Everything Linked says but for the links to this node itself. */
    ghost predicate Apart(id: Dep -> Id)
      requires Built(id)
      reads Below(id)
      decreases packageData, 0
    {
      && (forall i :: 0 <= i < |children| ==> children[i].Linked(id))
      && this !in Below(id)
      && (forall i, j :: 0 <= i < j < |children| ==> children[i].Nodes(id) !! children[j].Nodes(id))
    }

    lemma ChildBelowNoSibling(id: Dep -> Id)
      requires Built(id) && Apart(id)
      ensures forall i, k :: 0 <= i < |children| && 0 <= k < |children| ==> children[i] !in children[k].Below(id)
      ensures forall k :: 0 <= k < |children| ==> this !in children[k].Below(id)
    {
      forall i, k | 0 <= i < |children| && 0 <= k < |children| ensures children[i] !in children[k].Below(id) {
        assert children[k].Linked(id) && children[k].Apart(id);
        assert i == k || children[i].Nodes(id) !! children[k].Nodes(id);
      }
    }

    method LinkChild(i: nat, ghost id: Dep -> Id)
      requires Built(id) && i < |children|
      requires forall k :: 0 <= k < |children| ==> children[k].Linked(id) && children[i] !in children[k].Below(id)
      modifies children[i]
      ensures children[i].parent == this
      ensures forall k :: 0 <= k < |children| ==> children[k].Linked(id)
    {
      hide Linked;
      children[i].parent := this;
    }

    /** Each child's link is set to this node; every other link stays. */
    method LinkChildren(ghost id: Dep -> Id)
      requires Built(id) && Apart(id)
      modifies set c | c in children
      ensures Linked(id) && parent == old(parent)
    {
      hide Linked, Below;
      ChildBelowNoSibling(id);
      for i := 0 to |children|
        invariant parent == old(parent)
        invariant forall k :: 0 <= k < |children| ==> children[k].Linked(id)
        invariant forall k :: 0 <= k < i ==> children[k].parent == this
      {
        LinkChild(i, id);
      }
      AllLinked(id);
    }

    lemma AllLinked(id: Dep -> Id)
      requires Built(id)
      requires forall k :: 0 <= k < |children| ==> children[k].Linked(id) && children[k].parent == this
      requires this !in Below(id)
      requires forall i, j :: 0 <= i < j < |children| ==> children[i].Nodes(id) !! children[j].Nodes(id)
      ensures Linked(id)
    {
    }
  }

  lemma HashIsTreeId(digest: Digest, d: Dep, childHashes: seq<string>)
    requires |childHashes| == |d.dependencies|
    requires forall i :: 0 <= i < |childHashes| ==> childHashes[i] == TreeId(digest, d.dependencies[i])
    ensures GenerateMerkleHash(digest, d.name.GetOr(""), d.version.GetOr(""), d.range, childHashes) == TreeId(digest, d)
  {
    assert childHashes == ChildIds(digest, d);
  }

  /** Separate graphs, built for the trees in order. */
  ghost predicate Siblings(id: Dep -> Id, nodes: seq<GraphNode>, ds: seq<Dep>, made: set<GraphNode>)
    requires |nodes| <= |ds|
    reads made
  {
    && (forall k :: 0 <= k < |nodes| ==> nodes[k].packageData == ds[k] && nodes[k].Built(id))
    && (forall k :: 0 <= k < |nodes| ==> nodes[k].Nodes(id) <= made && nodes[k].Linked(id))
    && (forall k, l :: 0 <= k < l < |nodes| ==> nodes[k].Nodes(id) !! nodes[l].Nodes(id))
  }

  method BuildChildren(digest: Digest, currentDep: Dep) returns (children: seq<GraphNode>, ghost made: set<GraphNode>)
    ensures fresh(made) && |children| == |currentDep.dependencies|
    ensures Siblings(MerkleId(digest), children, currentDep.dependencies, made)
    decreases currentDep, 0
  {
    hide TreeId, GraphNode.Linked, GraphNode.Below, GraphNode.Built;
    children, made := [], {};
    for i := 0 to |currentDep.dependencies|
      invariant |children| == i && fresh(made)
      invariant Siblings(MerkleId(digest), children, currentDep.dependencies, made)
    {
      var child := DfsGenerateMerkleTreeFromDepTree(digest, currentDep.dependencies[i]);
      children := children + [child];
      made := made + child.Nodes(MerkleId(digest));
    }
  }

  /** Builds the graph of a tree: the children first, then the node, then the links back to it. */
  method DfsGenerateMerkleTreeFromDepTree(digest: Digest, currentDep: Dep) returns (root: GraphNode)
    ensures root.packageData == currentDep && root.Built(MerkleId(digest))
    ensures fresh(root.Nodes(MerkleId(digest)))
    ensures root.Linked(MerkleId(digest)) && root.parent == null
    decreases currentDep, 1
  {
    hide TreeId, GenerateMerkleHash, ParentRange, GraphNode.Built, GraphNode.Below, GraphNode.Apart, GraphNode.Linked,
      Siblings;
    ghost var id := MerkleId(digest);
    var children, made := BuildChildren(digest, currentDep);
    var childHashes := seq(|children|, i requires 0 <= i < |children| => children[i].treeHashId);
    SiblingHashes(digest, children, currentDep, childHashes, made);
    root := new GraphNode(
      GenerateMerkleHash(digest, currentDep.name.GetOr(""), currentDep.version.GetOr(""), currentDep.range,
        childHashes),
      currentDep, ParentRange(currentDep), children);
    ParentOfSiblings(root, id, made);
    root.LinkChildren(id);
  }

  lemma SiblingHashes(digest: Digest, children: seq<GraphNode>, d: Dep, childHashes: seq<string>, made: set<GraphNode>)
    requires |children| == |d.dependencies| && Siblings(MerkleId(digest), children, d.dependencies, made)
    requires |childHashes| == |children| && forall i :: 0 <= i < |children| ==> childHashes[i] == children[i].treeHashId
    ensures GenerateMerkleHash(digest, d.name.GetOr(""), d.version.GetOr(""), d.range, childHashes) == TreeId(digest, d)
  {
    hide TreeId, GenerateMerkleHash;
    HashIsTreeId(digest, d, childHashes);
  }

  lemma ParentOfSiblings(root: GraphNode, id: Dep -> Id, made: set<GraphNode>)
    requires |root.children| == |root.packageData.dependencies|
    requires Siblings(id, root.children, root.packageData.dependencies, made) && root !in made
    requires root.treeHashId == id(root.packageData) && root.parentRange == ParentRange(root.packageData)
    ensures root.Built(id) && root.Apart(id)
    ensures root.Below(id) <= made && root.Nodes(id) <= made + {root} && forall c :: c in root.children ==> c in made
  {
    hide GraphNode.Linked, ParentRange;
  }

  /** Nodes filed under their ids. */
  ghost predicate FiledNodes(id: Dep -> Id, entries: map<Id, GraphNode>) {
    forall key :: key in entries ==> entries[key].Built(id) && entries[key].treeHashId == key
  }

  function TreesOf(entries: map<Id, GraphNode>): map<Id, Dep> {
    map key | key in entries :: entries[key].packageData
  }

  lemma CollectNone(id: Dep -> Id)
    ensures CollectAll(id, []) == map[]
  {
  }

  lemma CollectNext(id: Dep -> Id, ds: seq<Dep>, i: nat)
    requires i < |ds|
    ensures CollectAll(id, ds[..i + 1]) == CollectAll(id, ds[..i]) + Collect(id, ds[i])
  {
    assert ds[..i + 1][..i] == ds[..i];
  }

  lemma CollectNode(id: Dep -> Id, d: Dep)
    ensures Collect(id, d) == CollectAll(id, d.dependencies)[id(d) := d]
  {
  }

  lemma MergeAssociative<K, V>(a: map<K, V>, b: map<K, V>, c: map<K, V>)
    ensures (a + b) + c == a + (b + c)
  {
  }

  lemma TreesOfUpdate(before: map<Id, Dep>, plan: map<Id, Dep>, entries: map<Id, GraphNode>, key: Id, node: GraphNode)
    requires TreesOf(entries) == before + plan
    ensures TreesOf(entries[key := node]) == before + plan[key := node.packageData]
  {
    var left, right := TreesOf(entries[key := node]), before + plan[key := node.packageData];
    assert left == TreesOf(entries)[key := node.packageData];
    assert right == (before + plan)[key := node.packageData];
  }

  /** The map that holds one node of a graph for each id. */
  class UniqueDependencyMap {
    var entries: map<Id, GraphNode>

    constructor ()
      ensures entries == map[]
    {
      entries := map[];
    }

    /** Children before the node itself; a node visited later replaces one with the same id. */
    method RecursePackageGraph(node: GraphNode, ghost id: Dep -> Id)
      requires node.Built(id) && FiledNodes(id, entries)
      modifies this
      ensures FiledNodes(id, entries)
      ensures TreesOf(entries) == old(TreesOf(entries)) + Collect(id, node.packageData)
      decreases node.packageData
    {
      hide GraphNode.Nodes, GraphNode.Below, Collect, CollectAll;
      ghost var ds := node.packageData.dependencies;
      ghost var before := TreesOf(entries);
      CollectNone(id);
      for i := 0 to |node.children|
        invariant FiledNodes(id, entries)
        invariant TreesOf(entries) == before + CollectAll(id, ds[..i])
      {
        RecursePackageGraph(node.children[i], id);
        CollectNext(id, ds, i);
        MergeAssociative(before, CollectAll(id, ds[..i]), Collect(id, ds[i]));
      }
      assert ds[..|ds|] == ds;
      CollectNode(id, node.packageData);
      TreesOfUpdate(before, CollectAll(id, ds), entries, node.treeHashId, node);
      entries := entries[node.treeHashId := node];
    }
  }

  method PackageGraphToUniqueDependencyNodes(rootNode: GraphNode,
      ghost id: Dep -> Id) returns (unique: map<Id, GraphNode>)
    requires rootNode.Built(id)
    ensures FiledNodes(id, unique) && TreesOf(unique) == Collect(id, rootNode.packageData)
  {
    var uniqueDependencyMap := new UniqueDependencyMap();
    uniqueDependencyMap.RecursePackageGraph(rootNode, id);
    unique := uniqueDependencyMap.entries;
  }

  /** The index of a tree has exactly the ids that occur in it and with each node its children,
      although later visits overwrite earlier ones. */
  lemma UniqueNodesClosed(id: Dep -> Id, d: Dep)
    ensures Collect(id, d).Keys == Ids(id, Subtrees(d))
    ensures forall key, c :: key in Collect(id, d) && c in Collect(id, d)[key].dependencies ==> id(c) in Collect(id, d)
  {
    CollectCovers(id, d);
    forall key, c | key in Collect(id, d) && c in Collect(id, d)[key].dependencies ensures id(c) in Collect(id, d) {
      SubtreesNested(d, Collect(id, d)[key]);
      ChildSubtrees(Collect(id, d)[key], c);
      SelfSubtree(c);
    }
  }
}
