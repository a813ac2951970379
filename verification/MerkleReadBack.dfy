/** Exactly when what a snapshot stores under Merkle ids can be read back. */
module MerkleReadBack {
  import opened Options
  import opened MerkleTree
  import opened DependencyStore
  import Ordering
  import SnapshotInsert

  /** Each of the trees is what the tables show under its id. */
  ghost predicate AllReadBack(id: Dep -> Id, tb: Tables, trees: set<Dep>) {
    forall d, depth: nat :: d in trees && depth >= Height(d) ==> Unfold(tb, id(d), depth) == ShapeOf(d)
  }

  /** Trees with one id that both read back have the same row. */
  lemma SameIdSameRow(id: Dep -> Id, tb: Tables, trees: set<Dep>, a: Dep, b: Dep)
    requires AllReadBack(id, tb, trees) && a in trees && b in trees && id(a) == id(b)
    ensures RowOf(a) == RowOf(b)
  {
    hide Unfold, Height;
    var depth := if Height(a) > Height(b) then Height(a) else Height(b);
    assert Unfold(tb, id(a), depth) == ShapeOf(a) && Unfold(tb, id(b), depth) == ShapeOf(b);
  }

  lemma SameRowSameLabel(a: Dep, b: Dep)
    requires RowOf(a) == RowOf(b) && Label(a) == Label(b)
    ensures FieldsOf(a) == FieldsOf(b)
  {
    var front := a.name.GetOr("") + a.version.GetOr("") + ECOSYSTEM + CUSTOM_REGISTRY;
    assert Label(a) == front + a.range.GetOr("") && Label(b) == front + b.range.GetOr("");
    assert Label(a)[|front|..] == a.range.GetOr("") && Label(b)[|front|..] == b.range.GetOr("");
  }

  // ----- nodes with one row do not pose as each other -----

  predicate FromNpm(c: char) {
    c == 'n' || c == 'p' || c == 'm'
  }

  /** If a version v is also a range, and name and version continue with ids where the range begins, the text
      repeats itself with the length of v, so that it consists of the letters that end it. */
  lemma {:induction false} RepeatsItself(n: string, v: string, ids: string)
    requires |ids| == |v| >= 3 && n + v + "npm" + v == ids + (n + v + "npm")
    ensures FromNpm(ids[0]) && forall k :: 0 <= k < |ids| ==> FromNpm(ids[k])
  {
    var x := n + v + "npm";
    forall j | 0 <= j < |v| ensures v[j] == x[|n| + 3 + j] {
      assert (x + v)[|x| + j] == (ids + x)[|x| + j];
    }
    forall j | 0 <= j < |v| ensures FromNpm(v[j]) { VersionFromNpm(n, v, j); }
    forall k | 0 <= k < |ids| ensures FromNpm(ids[k]) {
      forall i | |v| <= i < |x| ensures x[i] == x[i - |v|] {
        assert (x + v)[i] == (ids + x)[i];
      }
      TextFromNpm(n, v, k);
      assert (x + v)[k] == (ids + x)[k];
    }
  }

  lemma {:induction false} VersionFromNpm(n: string, v: string, j: nat)
    requires j < |v| && |v| >= 3
    requires forall i :: 0 <= i < |v| ==> v[i] == (n + v + "npm")[|n| + 3 + i]
    ensures FromNpm(v[j])
    decreases |v| - j
  {
    var x := n + v + "npm";
    if j < |v| - 3 {
      assert x[|n| + 3 + j] == v[j + 3];
      VersionFromNpm(n, v, j + 3);
    } else {
      assert x[|n| + 3 + j] == "npm"[j - (|v| - 3)];
    }
  }

  lemma {:induction false} TextFromNpm(n: string, v: string, k: nat)
    requires |v| >= 3 && k < |n + v + "npm"|
    requires forall j :: 0 <= j < |v| ==> FromNpm(v[j])
    requires forall i :: |v| <= i < |n + v + "npm"| ==> (n + v + "npm")[i] == (n + v + "npm")[i - |v|]
    ensures FromNpm((n + v + "npm")[k])
    decreases |n| + |v| - k
  {
    var x := n + v + "npm";
    if k < |n| {
      TextFromNpm(n, v, k + |v|);
      assert x[k + |v|] == x[k];
    } else if k < |n| + |v| {
      assert x[k] == v[k - |n|];
    } else {
      assert x[k] == "npm"[k - |n| - |v|];
    }
  }

  lemma ConcatLength(xs: seq<string>)
    requires forall x :: x in xs ==> |x| == 36
    ensures |Concat(xs)| == 36 * |xs|
  {
    if xs != [] { ConcatLength(xs[1..]); }
  }

  lemma PosingChangesRow(digest: Digest, a: Dep, b: Dep)
    requires Is128Bit(digest) && PosesAs(digest, a, b)
    ensures RowOf(a) != RowOf(b)
  {
    hide SortedChildIds;
    var xs, ys := SortedChildIds(digest, a), SortedChildIds(digest, b);
    var missing := ys[|xs|..];
    var ids := Concat(missing);
    forall y | y in missing ensures |y| == 36 && LooksLikeId(y) { SortedChildShapeOf(digest, b, y); }
    ConcatLength(missing);
    assert ids[8] == missing[0][8];
    if RowOf(a) == RowOf(b) {
      var n, v, ra, rb := a.name.GetOr(""), a.version.GetOr(""), a.range.GetOr(""), b.range.GetOr("");
      assert Label(a) == n + v + "npm" + ra && Label(b) == n + v + "npm" + rb;
      assert |ra| == |rb| + |ids|;
      assert ra == v && rb == "";
      assert n + v + "npm" + "" == n + v + "npm";
      RepeatsItself(n, v, ids);
    }
  }

  lemma SortedChildShapeOf(digest: Digest, d: Dep, x: string)
    requires Is128Bit(digest) && x in SortedChildIds(digest, d)
    ensures |x| == 36 && LooksLikeId(x)
  {
    SortedChildShape(digest, d, x);
  }

  // ----- the exact condition -----

  /** Whatever the tables: trees that all read back from them can be told apart by what is hashed. */
  lemma ReadBackMeansDistinguishable(digest: Digest, tb: Tables, trees: set<Dep>)
    requires Is128Bit(digest) && AllReadBack(MerkleId(digest), tb, trees)
    ensures Distinguishable(digest, trees)
  {
    hide TreeId, AllReadBack, PosesAs, RowOf, Label;
    var id := MerkleId(digest);
    forall a, b | a in trees && b in trees && multiset(KidsOf(a)) == multiset(KidsOf(b)) && Label(a) == Label(b)
      ensures FieldsOf(a) == FieldsOf(b)
    {
      SameKidsSameChildIds(digest, a, b);
      SameChildrenSameLabel(digest, a, b);
      SameIdSameRow(id, tb, trees, a, b);
      SameRowSameLabel(a, b);
    }
    forall a, b | a in trees && b in trees ensures !PosesAs(digest, a, b) {
      if PosesAs(digest, a, b) {
        PosingKeepsPreimage(digest, a, b);
        PosingChangesRow(digest, a, b);
        SameIdSameRow(id, tb, trees, a, b);
      }
    }
  }

  /** After a snapshot everything stored before and everything submitted reads back if and only if what is hashed
      tells these packages apart. */
  lemma MerkleSnapshotReadsBackIff(digest: Digest, tb: Tables, trees: set<Dep>, ds: seq<Dep>)
    requires Mirrors(MerkleId(digest), tb, trees) && DownwardClosed(trees)
    requires Is128Bit(digest) && CollisionFree(digest, trees + AllSubtrees(ds))
    ensures AllReadBack(MerkleId(digest), Commit(MerkleId(digest), tb, SnapshotInsert.Plan(MerkleId(digest), tb, ds)),
        trees + AllSubtrees(ds))
      <==> Distinguishable(digest, trees + AllSubtrees(ds))
  {
    hide TreeId, Mirrors, Commit, Candidates, DownwardClosed, Unfold, ShapeOf, IdsSeparate, Distinguishable,
      CollisionFree;
    var id, all := MerkleId(digest), trees + AllSubtrees(ds);
    var after := Commit(id, tb, SnapshotInsert.Plan(id, tb, ds));
    if AllReadBack(id, after, all) {
      ReadBackMeansDistinguishable(digest, after, all);
    }
    if Distinguishable(digest, all) {
      SnapshotInsert.UnionClosed(trees, ds);
      DistinguishableMeansNoClash(digest, all);
      NoClashSeparates(digest, all);
      SnapshotInsert.SnapshotRefinesInsertAll(id, tb, trees, ds);
      forall d, depth: nat | d in all && depth >= Height(d) ensures Unfold(after, id(d), depth) == ShapeOf(d) {
        UnfoldGivesTree(id, after, all, d, depth);
      }
    }
  }

  /** Ambiguous labels lose a tree: of these two packages, submitted to empty tables under any digest,
      at most one reads back. */
  lemma AmbiguousLabelsLoseATree(digest: Digest) returns (a: Dep, b: Dep)
    ensures forall tb: Tables, depth: nat ::
      Unfold(tb, TreeId(digest, a), depth) == ShapeOf(a) ==> Unfold(tb, TreeId(digest, b), depth) != ShapeOf(b)
  {
    hide TreeId;
    a, b := LabelsCanBeAmbiguous(digest);
    assert ShapeOf(a).row.name != ShapeOf(b).row.name;
  }
}
