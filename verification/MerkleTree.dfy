/** Merkle ids of dependency trees: what is hashed, and which trees share an id. */
module MerkleTree {
  import opened Options
  import Ordering
  import Text

  /** A lockfile dependency tree; the children are in the order of the object's values. */
  datatype Dep = Dep(
    name: Option<string>, version: Option<string>, range: Option<string>,
    dependencies: seq<Dep>)

  /** A 128-bit digest, written as hexadecimal digits. */
  type Digest = string -> string

  ghost predicate Is128Bit(digest: Digest) {
    forall s :: |digest(s)| == 32
  }

  const ECOSYSTEM := "npm"
  const CUSTOM_REGISTRY := ""

  function Min(a: nat, b: nat): nat { if a < b then a else b }

  /** JavaScript's substring, for start <= end: the bounds are clamped to the length. */
  function Substring(s: string, start: nat, end: nat): string
    requires start <= end
  {
    s[Min(start, |s|)..Min(end, |s|)]
  }

  function Dashed(hash: string): string {
    Substring(hash, 0, 8) + "-" + Substring(hash, 8, 12) + "-" + Substring(hash, 12, 16) + "-"
    + Substring(hash, 16, 20) + "-" + Substring(hash, 20, 32)
  }

  function Concat(parts: seq<string>): string {
    if parts == [] then "" else parts[0] + Concat(parts[1..])
  }

  /** The fields of a package in the order they are hashed, with no separator; the name of the ecosystem stands
      between version and range. */
  function LabelText(name: string, version: string, parentRange: Option<string>): string {
    name + version + ECOSYSTEM + CUSTOM_REGISTRY + parentRange.GetOr("")
  }

  function HashInput(name: string, version: string, parentRange: Option<string>, childHashes: seq<string>): string {
    Concat(Ordering.Sort(Ordering.StringLe, childHashes)) + LabelText(name, version, parentRange)
  }

  function GenerateMerkleHash(
    digest: Digest, name: string, version: string, parentRange: Option<string>, childHashes: seq<string>): string
  {
    Dashed(digest(HashInput(name, version, parentRange, childHashes)))
  }

  function TreeId(digest: Digest, d: Dep): string
    decreases d, 1
  {
    GenerateMerkleHash(digest, d.name.GetOr(""), d.version.GetOr(""), d.range, ChildIds(digest, d))
  }

  function ChildIds(digest: Digest, d: Dep): (ids: seq<string>)
    ensures |ids| == |d.dependencies|
    decreases d, 0
  {
    seq(|d.dependencies|, i requires 0 <= i < |d.dependencies| => TreeId(digest, d.dependencies[i]))
  }

  function Preimage(digest: Digest, d: Dep): string {
    HashInput(d.name.GetOr(""), d.version.GetOr(""), d.range, ChildIds(digest, d))
  }

  /** Everything of a node that is hashed besides its children, in one string. */
  function Label(d: Dep): string {
    LabelText(d.name.GetOr(""), d.version.GetOr(""), d.range)
  }

  datatype Fields = Fields(name: string, version: string, range: string)

  /** The fields of a node; a missing field hashes as an empty one. */
  function FieldsOf(d: Dep): Fields {
    Fields(d.name.GetOr(""), d.version.GetOr(""), d.range.GetOr(""))
  }

  /** A tree without the order of its children, at every depth. */
  datatype Canon = Canon(fields: Fields, kids: multiset<Canon>)

  ghost function CanonOf(d: Dep): Canon
    decreases d, 1
  {
    Canon(FieldsOf(d), multiset(KidsOf(d)))
  }

  ghost function KidsOf(d: Dep): (kids: seq<Canon>)
    ensures |kids| == |d.dependencies|
    decreases d, 0
  {
    seq(|d.dependencies|, i requires 0 <= i < |d.dependencies| => CanonOf(d.dependencies[i]))
  }

  ghost function Subtrees(d: Dep): set<Dep> {
    {d} + set c, s | c in d.dependencies && s in Subtrees(c) :: s
  }

  ghost predicate DownwardClosed(trees: set<Dep>) {
    forall d, c :: d in trees && c in d.dependencies ==> c in trees
  }

  /** No two hashed strings that occur among the trees collide. */
  ghost predicate CollisionFree(digest: Digest, trees: set<Dep>) {
    forall a, b :: a in trees && b in trees && digest(Preimage(digest, a)) == digest(Preimage(digest, b)) ==>
      Preimage(digest, a) == Preimage(digest, b)
  }

  /** A string that begins like a dashed 128-bit id. */
  predicate LooksLikeId(s: string) {
    |s| >= 36 && s[8] == '-' && s[13] == '-' && s[18] == '-' && s[23] == '-'
  }

  ghost predicate SameChildIds(digest: Digest, a: Dep, b: Dep) {
    multiset(ChildIds(digest, a)) == multiset(ChildIds(digest, b))
  }

  /** Two nodes with the same children and the same concatenated label have the same fields. */
  ghost predicate LabelsUnambiguous(trees: set<Dep>) {
    forall a, b :: a in trees && b in trees && multiset(KidsOf(a)) == multiset(KidsOf(b)) && Label(a) == Label(b) ==>
      FieldsOf(a) == FieldsOf(b)
  }

  function SortedChildIds(digest: Digest, d: Dep): seq<string> {
    Ordering.Sort(Ordering.StringLe, ChildIds(digest, d))
  }

  /** Properly fewer child ids, and a label that begins with the ones that are missing. */
  ghost predicate PosesAs(digest: Digest, a: Dep, b: Dep) {
    var xs, ys := SortedChildIds(digest, a), SortedChildIds(digest, b);
    xs < ys && Label(a) == Concat(ys[|xs|..]) + Label(b)
  }

  ghost predicate NoLabelPoses(digest: Digest, trees: set<Dep>) {
    forall a, b :: a in trees && b in trees ==> !PosesAs(digest, a, b)
  }

  /** What hashing without separators needs of the packages. */
  ghost predicate Distinguishable(digest: Digest, trees: set<Dep>) {
    LabelsUnambiguous(trees) && NoLabelPoses(digest, trees)
  }

  /** Equal ids mean the same fields and the same children, one level deep. */
  ghost predicate NoClash(digest: Digest, trees: set<Dep>) {
    forall a, b :: a in trees && b in trees && TreeId(digest, a) == TreeId(digest, b) ==>
      FieldsOf(a) == FieldsOf(b) && SameChildIds(digest, a, b)
  }

  // ----- the shape of an id -----

  lemma TreeIdShape(digest: Digest, d: Dep)
    requires Is128Bit(digest)
    ensures |TreeId(digest, d)| == 36 && LooksLikeId(TreeId(digest, d))
  {
    assert |digest(Preimage(digest, d))| == 32;
  }

  /** The digits of a dashed id. */
  function Undash(id: string): string
    requires |id| == 36
  {
    id[..8] + id[9..13] + id[14..18] + id[19..23] + id[24..]
  }

  lemma UndashDashed(a: string)
    requires |a| == 32
    ensures |Dashed(a)| == 36 && Undash(Dashed(a)) == a
  {
    var x := Dashed(a);
    assert x[..8] == a[..8];
    assert x[9..13] == a[8..12];
    assert x[14..18] == a[12..16];
    assert x[19..23] == a[16..20];
    assert x[24..] == a[20..];
    assert a == a[..8] + a[8..12] + a[12..16] + a[16..20] + a[20..];
  }

  /** Ids are all of one length, so of two runs of them with text behind one is the beginning of the other,
      and the text behind the shorter one continues with the ids that it lacks. */
  lemma {:induction false} ConcatReadsBack(xs: seq<string>, a: string, ys: seq<string>, b: string)
    requires forall x :: x in xs ==> |x| == 36
    requires forall y :: y in ys ==> |y| == 36
    requires |xs| <= |ys| && Concat(xs) + a == Concat(ys) + b
    ensures xs <= ys && a == Concat(ys[|xs|..]) + b
  {
    if xs == [] {
      assert "" + a == a && ys[0..] == ys;
    } else {
      Text.Associate(xs[0], Concat(xs[1..]), a);
      Text.Associate(ys[0], Concat(ys[1..]), b);
      PrefixReadsBack(xs[0], Concat(xs[1..]) + a, ys[0], Concat(ys[1..]) + b);
      ConcatReadsBack(xs[1..], a, ys[1..], b);
      assert xs == [xs[0]] + xs[1..] && ys == [ys[0]] + ys[1..];
      assert ys[1..][|xs[1..]|..] == ys[|xs|..];
    }
  }

  lemma {:induction false} ConcatAppend(xs: seq<string>, ys: seq<string>)
    ensures Concat(xs + ys) == Concat(xs) + Concat(ys)
  {
    if xs == [] {
      assert xs + ys == ys;
    } else {
      assert (xs + ys)[1..] == xs[1..] + ys;
      ConcatAppend(xs[1..], ys);
    }
  }

  lemma PrefixReadsBack(x: string, p: string, y: string, q: string)
    requires |x| == |y| && x + p == y + q
    ensures x == y && p == q
  {
    assert x == (x + p)[..|x|] && y == (y + q)[..|y|];
    assert p == (x + p)[|x|..] && q == (y + q)[|y|..];
  }

  /** Equal hashed strings: the same child ids and label, or a label that poses as child ids. */
  lemma PreimageReadsBack(digest: Digest, a: Dep, b: Dep)
    requires Is128Bit(digest) && |a.dependencies| <= |b.dependencies|
    requires Preimage(digest, a) == Preimage(digest, b)
    ensures PosesAs(digest, a, b) || (SameChildIds(digest, a, b) && Label(a) == Label(b))
  {
    var xs, ys := SortedChildIds(digest, a), SortedChildIds(digest, b);
    Ordering.SortPermutes(Ordering.StringLe, ChildIds(digest, a));
    Ordering.SortPermutes(Ordering.StringLe, ChildIds(digest, b));
    forall x | x in xs ensures |x| == 36 { SortedChildShape(digest, a, x); }
    forall y | y in ys ensures |y| == 36 { SortedChildShape(digest, b, y); }
    ConcatReadsBack(xs, Label(a), ys, Label(b));
    if |xs| == |ys| {
      assert xs == ys && Concat(ys[|xs|..]) == "" && "" + Label(b) == Label(b);
    }
  }

  lemma PreimageIs(digest: Digest, d: Dep)
    ensures Preimage(digest, d) == Concat(SortedChildIds(digest, d)) + Label(d)
    ensures TreeId(digest, d) == Dashed(digest(Preimage(digest, d)))
    ensures |SortedChildIds(digest, d)| == |d.dependencies|
  {
    hide Concat, Label, LabelText, Dashed, Ordering.Sort;
    Ordering.SortPermutes(Ordering.StringLe, ChildIds(digest, d));
    LabelIsText(d);
  }

  lemma LabelIsText(d: Dep)
    ensures Label(d) == LabelText(d.name.GetOr(""), d.version.GetOr(""), d.range)
  {
  }

  /** The converse: a label that poses as child ids gives the same hashed string. */
  lemma PosingKeepsPreimage(digest: Digest, a: Dep, b: Dep)
    requires PosesAs(digest, a, b)
    ensures TreeId(digest, a) == TreeId(digest, b) && |a.dependencies| < |b.dependencies|
  {
    hide Concat, Label, Dashed, Preimage, TreeId, SortedChildIds;
    var xs, ys := SortedChildIds(digest, a), SortedChildIds(digest, b);
    PreimageIs(digest, a);
    PreimageIs(digest, b);
    assert ys == xs + ys[|xs|..];
    ConcatAppend(xs, ys[|xs|..]);
    Text.Associate(Concat(xs), Concat(ys[|xs|..]), Label(b));
  }

  lemma SortedChildShape(digest: Digest, d: Dep, x: string)
    requires Is128Bit(digest) && x in Ordering.Sort(Ordering.StringLe, ChildIds(digest, d))
    ensures |x| == 36 && LooksLikeId(x)
  {
    Ordering.SortPermutes(Ordering.StringLe, ChildIds(digest, d));
    assert x in multiset(ChildIds(digest, d));
    var i :| 0 <= i < |d.dependencies| && ChildIds(digest, d)[i] == x;
    TreeIdShape(digest, d.dependencies[i]);
  }

  // ----- when ids are canonical -----

  /** Equal ids of two trees none of whose nodes pose as others: the same child ids and label. */
  lemma SameIdReadsBack(digest: Digest, trees: set<Dep>, a: Dep, b: Dep)
    requires Is128Bit(digest) && CollisionFree(digest, trees) && NoLabelPoses(digest, trees)
    requires a in trees && b in trees && TreeId(digest, a) == TreeId(digest, b)
    ensures SameChildIds(digest, a, b) && Label(a) == Label(b)
  {
    UndashDashed(digest(Preimage(digest, a)));
    UndashDashed(digest(Preimage(digest, b)));
    if |a.dependencies| <= |b.dependencies| {
      PreimageReadsBack(digest, a, b);
    } else {
      PreimageReadsBack(digest, b, a);
    }
  }

  lemma SameChildrenSameLabel(digest: Digest, a: Dep, b: Dep)
    requires SameChildIds(digest, a, b) && Label(a) == Label(b)
    ensures TreeId(digest, a) == TreeId(digest, b)
  {
    Ordering.StringOrder();
    Ordering.SortCanonical(Ordering.StringLe, ChildIds(digest, a), ChildIds(digest, b));
    var sorted := Concat(Ordering.Sort(Ordering.StringLe, ChildIds(digest, a)));
    assert Preimage(digest, a) == sorted + Label(a);
    assert Preimage(digest, b) == sorted + Label(b);
  }

  lemma RemoveAt<T>(s: seq<T>, j: nat)
    requires j < |s|
    ensures multiset(s) == multiset(s[..j] + s[j + 1..]) + multiset{s[j]}
  {
    assert s == s[..j] + [s[j]] + s[j + 1..];
  }

  lemma RemoveMatching<T>(a: seq<T>, b: seq<T>, j: nat)
    requires a != [] && j < |b| && b[j] == a[0] && multiset(a) == multiset(b)
    ensures multiset(a[1..]) == multiset(b[..j] + b[j + 1..])
  {
    RemoveAt(a, 0);
    RemoveAt(b, j);
    assert a[..0] + a[1..] == a[1..];
    CancelOne(multiset(a[1..]), multiset(b[..j] + b[j + 1..]), a[0]);
  }

  lemma AddMatching<T>(a: seq<T>, b: seq<T>, j: nat)
    requires a != [] && j < |b| && b[j] == a[0] && multiset(a[1..]) == multiset(b[..j] + b[j + 1..])
    ensures multiset(a) == multiset(b)
  {
    RemoveAt(a, 0);
    RemoveAt(b, j);
    assert a[..0] + a[1..] == a[1..];
  }

  /** If equal entries of one column mean equal entries of the other, equal multisets carry over. */
  lemma {:induction false} MultisetTransfer<F, G>(fa: seq<F>, ga: seq<G>, fb: seq<F>, gb: seq<G>)
    requires |fa| == |ga| && |fb| == |gb| && multiset(fa) == multiset(fb)
    requires forall i, j :: 0 <= i < |fa| && 0 <= j < |fb| && fa[i] == fb[j] ==> ga[i] == gb[j]
    ensures multiset(ga) == multiset(gb)
  {
    Ordering.SameSize(fa, fb);
    if fa != [] {
      var j := IndexIn(fa[0], fa, fb);
      RemoveMatching(fa, fb, j);
      var fb', gb' := fb[..j] + fb[j + 1..], gb[..j] + gb[j + 1..];
      forall m, n | 0 <= m < |fa[1..]| && 0 <= n < |fb'| && fa[1..][m] == fb'[n] ensures ga[1..][m] == gb'[n] {
        var n' := if n < j then n else n + 1;
        assert fb'[n] == fb[n'] && gb'[n] == gb[n'];
        assert fa[m + 1] == fb[n'];
      }
      MultisetTransfer(fa[1..], ga[1..], fb', gb');
      AddMatching(ga, gb, j);
    }
  }

  lemma IndexIn<T>(x: T, a: seq<T>, b: seq<T>) returns (j: nat)
    requires x in a && multiset(a) == multiset(b)
    ensures j < |b| && b[j] == x
  {
    assert x in multiset(b);
    j :| 0 <= j < |b| && b[j] == x;
  }

  lemma CancelOne<T>(a: multiset<T>, b: multiset<T>, x: T)
    requires a + multiset{x} == b + multiset{x}
    ensures a == b
  {
    assert a == (a + multiset{x}) - multiset{x};
    assert b == (b + multiset{x}) - multiset{x};
  }

  /** Reordering children at any depth leaves the id unchanged, whatever the digest. */
  lemma {:induction false} ReorderingKeepsId(digest: Digest, a: Dep, b: Dep)
    requires CanonOf(a) == CanonOf(b)
    ensures TreeId(digest, a) == TreeId(digest, b)
  {
    forall i, j | 0 <= i < |a.dependencies| && 0 <= j < |b.dependencies| && KidsOf(a)[i] == KidsOf(b)[j]
      ensures ChildIds(digest, a)[i] == ChildIds(digest, b)[j]
    {
      ReorderingKeepsId(digest, a.dependencies[i], b.dependencies[j]);
    }
    MultisetTransfer(KidsOf(a), ChildIds(digest, a), KidsOf(b), ChildIds(digest, b));
    SameChildrenSameLabel(digest, a, b);
  }

  lemma SameKidsSameChildIds(digest: Digest, a: Dep, b: Dep)
    requires multiset(KidsOf(a)) == multiset(KidsOf(b))
    ensures SameChildIds(digest, a, b)
  {
    forall i, j | 0 <= i < |a.dependencies| && 0 <= j < |b.dependencies| && KidsOf(a)[i] == KidsOf(b)[j]
      ensures ChildIds(digest, a)[i] == ChildIds(digest, b)[j]
    {
      ReorderingKeepsId(digest, a.dependencies[i], b.dependencies[j]);
    }
    MultisetTransfer(KidsOf(a), ChildIds(digest, a), KidsOf(b), ChildIds(digest, b));
  }

  /** Where packages can be told apart, equal ids mean equal trees up to the order of children at every depth. */
  lemma {:induction false} IdDeterminesTree(digest: Digest, trees: set<Dep>, a: Dep, b: Dep)
    requires Is128Bit(digest) && CollisionFree(digest, trees) && DownwardClosed(trees) && Distinguishable(digest, trees)
    requires a in trees && b in trees && TreeId(digest, a) == TreeId(digest, b)
    ensures CanonOf(a) == CanonOf(b)
  {
    hide TreeId, CollisionFree, NoLabelPoses;
    SameIdReadsBack(digest, trees, a, b);
    forall i, j | 0 <= i < |a.dependencies| && 0 <= j < |b.dependencies|
      && ChildIds(digest, a)[i] == ChildIds(digest, b)[j]
      ensures KidsOf(a)[i] == KidsOf(b)[j]
    {
      IdDeterminesTree(digest, trees, a.dependencies[i], b.dependencies[j]);
    }
    MultisetTransfer(ChildIds(digest, a), KidsOf(a), ChildIds(digest, b), KidsOf(b));
  }

  lemma DistinguishableMeansNoClash(digest: Digest, trees: set<Dep>)
    requires Is128Bit(digest) && CollisionFree(digest, trees) && DownwardClosed(trees) && Distinguishable(digest, trees)
    ensures NoClash(digest, trees)
  {
    hide CollisionFree, Distinguishable;
    forall a, b | a in trees && b in trees && TreeId(digest, a) == TreeId(digest, b)
      ensures FieldsOf(a) == FieldsOf(b) && SameChildIds(digest, a, b)
    {
      IdDeterminesTree(digest, trees, a, b);
      assert CanonOf(a).fields == CanonOf(b).fields && CanonOf(a).kids == CanonOf(b).kids;
      SameKidsSameChildIds(digest, a, b);
    }
  }

  ghost predicate IdsCanonical(digest: Digest, trees: set<Dep>) {
    forall a, b :: a in trees && b in trees ==> (TreeId(digest, a) == TreeId(digest, b) <==> CanonOf(a) == CanonOf(b))
  }

  /** Given no digest collision, ids name trees up to reordering exactly when no two nodes with the same children
      have an ambiguous label and no label begins with child ids that another node has in their place. */
  lemma IdsCanonicalIff(digest: Digest, trees: set<Dep>)
    requires Is128Bit(digest) && CollisionFree(digest, trees) && DownwardClosed(trees)
    ensures IdsCanonical(digest, trees) <==> Distinguishable(digest, trees)
  {
    if Distinguishable(digest, trees) {
      forall a, b | a in trees && b in trees
        ensures TreeId(digest, a) == TreeId(digest, b) <==> CanonOf(a) == CanonOf(b)
      {
        if TreeId(digest, a) == TreeId(digest, b) { IdDeterminesTree(digest, trees, a, b); }
        if CanonOf(a) == CanonOf(b) { ReorderingKeepsId(digest, a, b); }
      }
    }
    if IdsCanonical(digest, trees) {
      CanonicalMeansDistinguishable(digest, trees);
    }
  }

  lemma OtherCountOtherTree(a: Dep, b: Dep)
    requires |a.dependencies| < |b.dependencies|
    ensures CanonOf(a) != CanonOf(b)
  {
    assert |multiset(KidsOf(a))| == |KidsOf(a)| && |multiset(KidsOf(b))| == |KidsOf(b)|;
  }

  lemma CanonicalMeansDistinguishable(digest: Digest, trees: set<Dep>)
    requires IdsCanonical(digest, trees)
    ensures Distinguishable(digest, trees)
  {
    hide TreeId, PosesAs;
    forall a, b | a in trees && b in trees && multiset(KidsOf(a)) == multiset(KidsOf(b)) && Label(a) == Label(b)
      ensures FieldsOf(a) == FieldsOf(b)
    {
      SameKidsSameChildIds(digest, a, b);
      SameChildrenSameLabel(digest, a, b);
      assert CanonOf(a).fields == CanonOf(b).fields;
    }
    forall a, b | a in trees && b in trees ensures !PosesAs(digest, a, b) {
      if PosesAs(digest, a, b) {
        PosingKeepsPreimage(digest, a, b);
        OtherCountOtherTree(a, b);
      }
    }
  }

  /** Labels that do not begin like an id never pose as child ids. */
  lemma PlainLabelsDoNotPose(digest: Digest, trees: set<Dep>)
    requires Is128Bit(digest) && forall d :: d in trees ==> !LooksLikeId(Label(d))
    ensures NoLabelPoses(digest, trees)
  {
    forall a, b | a in trees && b in trees ensures !PosesAs(digest, a, b) {
      if PosesAs(digest, a, b) { PosingLooksLikeId(digest, a, b); }
    }
  }

  lemma PosingLooksLikeId(digest: Digest, a: Dep, b: Dep)
    requires Is128Bit(digest) && PosesAs(digest, a, b)
    ensures LooksLikeId(Label(a))
  {
    hide Label;
    var xs, ys := SortedChildIds(digest, a), SortedChildIds(digest, b);
    var y := ys[|xs|];
    SortedChildShape(digest, b, y);
    assert ys[|xs|..][0] == y && ys[|xs|..][1..] == ys[|xs| + 1..];
    assert Label(a) == y + Concat(ys[|xs| + 1..]) + Label(b);
    forall i | 0 <= i < 36 ensures Label(a)[i] == y[i] {}
  }

  /** The fields are hashed without separators: these two packages share an id under every digest. */
  lemma LabelsCanBeAmbiguous(digest: Digest) returns (a: Dep, b: Dep)
    ensures TreeId(digest, a) == TreeId(digest, b) && CanonOf(a) != CanonOf(b)
    ensures a.name == Some("a") && b.name == Some("a1") && a.dependencies == b.dependencies == []
  {
    a := Dep(Some("a"), Some("11"), None, []);
    b := Dep(Some("a1"), Some("1"), None, []);
    assert Label(a) == Label(b);
    assert ChildIds(digest, a) == [] && ChildIds(digest, b) == [];
    SameChildrenSameLabel(digest, a, b);
    assert FieldsOf(a).name != FieldsOf(b).name;
  }

  /** Or a label begins with the id of a child: b has the child c, and a, which has no child, carries that child's
      id in its name. Their ids are equal under every 128-bit digest, although all labels are unambiguous. */
  lemma LabelsCanPose(digest: Digest) returns (a: Dep, b: Dep, c: Dep)
    requires Is128Bit(digest)
    ensures TreeId(digest, a) == TreeId(digest, b) && CanonOf(a) != CanonOf(b)
    ensures DownwardClosed({a, b, c}) && LabelsUnambiguous({a, b, c})
  {
    hide TreeId;
    c := Dep(Some("c"), Some("1"), None, []);
    b := Dep(Some("b"), Some("1"), None, [c]);
    var x := TreeId(digest, c);
    a := Dep(Some(x + "b"), Some("1"), None, []);
    TreeIdShape(digest, c);
    assert ChildIds(digest, b) == [x] && ChildIds(digest, a) == [];
    assert Ordering.Sort(Ordering.StringLe, [x]) == [x] by { assert [x][1..] == []; }
    assert SortedChildIds(digest, b) == [x] && SortedChildIds(digest, a) == [];
    assert Concat([x]) == x + "" == x;
    assert Label(a) == x + Label(b);
    assert [x][0..] == [x];
    assert PosesAs(digest, a, b);
    PosingKeepsPreimage(digest, a, b);
    assert |KidsOf(a)| == 0 && |KidsOf(b)| == 1 && |KidsOf(c)| == 0;
    assert |multiset(KidsOf(a))| == 0 && |multiset(KidsOf(b))| == 1;
    assert |Label(c)| == 5 && |Label(a)| == 41;
  }
}
