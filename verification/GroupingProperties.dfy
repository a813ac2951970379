/** What grouping by package promises: one package for each purl, which sums up exactly that purl's findings. */
module GroupingProperties {
  import opened Options
  import opened PackageGrouping
  import Ordering

  function MembersOf(ds: seq<FindingData>, purl: string): (ms: seq<FindingData>)
    ensures forall m :: m in ms <==> m in ds && m.purl == purl
  {
    if ds == [] then []
    else
      assert ds == ds[..|ds| - 1] + [ds[|ds| - 1]];
      MembersOf(ds[..|ds| - 1], purl) + if ds[|ds| - 1].purl == purl then [ds[|ds| - 1]] else []
  }

  lemma MembersOneMore(ds: seq<FindingData>, d: FindingData, purl: string)
    ensures MembersOf(ds + [d], purl) == if d.purl == purl then MembersOf(ds, purl) + [d] else MembersOf(ds, purl)
  {
    assert (ds + [d])[..|ds|] == ds;
  }

  function Folded(projectId: string, ms: seq<FindingData>): PackageData
    requires ms != []
  {
    if |ms| == 1 then Created(projectId, ms[0])
    else Merged(Folded(projectId, ms[..|ms| - 1]), ms[|ms| - 1])
  }

  // ----- one package -----

  predicate HasGuideOf(ms: seq<FindingData>, id: string) {
    exists m :: m in ms && HasGuide(m.guides.GetOr([]), id)
  }

  lemma {:induction false} AddGuidesAdds(existing: seq<Guide>, more: seq<Guide>, id: string)
    ensures HasGuide(AddGuides(existing, more), id) <==> HasGuide(existing, id) || HasGuide(more, id)
  {
    if more != [] {
      var n := |more| - 1;
      AddGuidesAdds(existing, more[..n], id);
      assert HasGuide(more, id) <==> HasGuide(more[..n], id) || more[n].id == id by {
        if HasGuide(more, id) {
          var i :| 0 <= i < |more| && more[i].id == id;
          if i < n { assert more[..n][i].id == id; }
        }
      }
      var r := AddGuides(existing, more[..n]);
      HasGuideAppend(r, more[n], id);
    }
  }

  lemma HasGuideAppend(r: seq<Guide>, g: Guide, id: string)
    ensures HasGuide(r + [g], id) <==> HasGuide(r, id) || g.id == id
  {
    if HasGuide(r, id) {
      var i :| 0 <= i < |r| && r[i].id == id;
      assert (r + [g])[i].id == id;
    }
    assert (r + [g])[|r|] == g;
  }

  lemma HasVulnerabilityAppend(r: seq<FindingData>, d: FindingData, id: string)
    ensures HasVulnerability(r + [d], id) <==> HasVulnerability(r, id) || d.vulnerabilityId == id
  {
    if HasVulnerability(r, id) {
      var i :| 0 <= i < |r| && r[i].vulnerabilityId == id;
      assert (r + [d])[i].vulnerabilityId == id;
    }
    assert (r + [d])[|r|] == d;
  }

  /** f is the first of ms with its vulnerability. */
  ghost predicate FirstOfVulnerability(ms: seq<FindingData>, f: FindingData) {
    exists i :: 0 <= i < |ms| && ms[i] == f && !HasVulnerability(ms[..i], f.vulnerabilityId)
  }

  ghost predicate DistinctVulnerabilities(fs: seq<FindingData>) {
    forall i, j :: 0 <= i < j < |fs| ==> fs[i].vulnerabilityId != fs[j].vulnerabilityId
  }

  lemma {:induction false} FoldedFindings(projectId: string, ms: seq<FindingData>)
    requires ms != []
    ensures var fs := Folded(projectId, ms).findings;
      && DistinctVulnerabilities(fs)
      && (forall f :: f in fs ==> FirstOfVulnerability(ms, f))
      && (forall id :: HasVulnerability(fs, id) <==> HasVulnerability(ms, id))
  {
    hide AddMissing, AddGuides;
    var fs := Folded(projectId, ms).findings;
    if |ms| == 1 {
      assert fs == ms;
      assert forall f :: f in fs ==> f == ms[0];
      assert !HasVulnerability(ms[..0], ms[0].vulnerabilityId);
    } else {
      var n := |ms| - 1;
      var init, d := ms[..n], ms[n];
      assert ms == init + [d];
      FoldedFindings(projectId, init);
      var before := Folded(projectId, init).findings;
      forall f | f in fs ensures FirstOfVulnerability(ms, f) {
        if f in before {
          var i :| 0 <= i < |init| && init[i] == f && !HasVulnerability(init[..i], f.vulnerabilityId);
          assert ms[i] == f && ms[..i] == init[..i];
        } else {
          assert ms[n] == f && ms[..n] == init;
        }
      }
      forall id ensures HasVulnerability(fs, id) <==> HasVulnerability(ms, id) {
        HasVulnerabilityAppend(init, d, id);
        HasVulnerabilityAppend(before, d, id);
      }
    }
  }

  ghost predicate AnyFixed(ms: seq<FindingData>) {
    exists m :: m in ms && m.fixState == FIXED
  }

  ghost predicate FixedIn(ms: seq<FindingData>, v: string) {
    exists m :: m in ms && m.fixState == FIXED && v in m.fixVersions.GetOr([])
  }

  ghost predicate LocatedAt(ms: seq<FindingData>, l: string) {
    exists m :: m in ms && l in m.locations
  }

  lemma {:induction false} FoldedFix(projectId: string, ms: seq<FindingData>)
    requires ms != []
    ensures var p := Folded(projectId, ms);
      && p.fixState == (if AnyFixed(ms) then FIXED else OrNull(ms[0].fixState))
      && (forall v :: v in p.fixVersions <==> v in ms[0].fixVersions.GetOr([]) || FixedIn(ms, v))
  {
    hide AddGuides, AddMissing, HasVulnerability;
    if |ms| == 1 {
      assert ms == [ms[0]];
    } else {
      var init, d := ms[..|ms| - 1], ms[|ms| - 1];
      assert ms == init + [d];
      FoldedFix(projectId, init);
      assert AnyFixed(ms) <==> AnyFixed(init) || d.fixState == FIXED;
      forall v ensures FixedIn(ms, v) <==> FixedIn(init, v) || (d.fixState == FIXED && v in d.fixVersions.GetOr([])) {}
    }
  }

  lemma {:induction false} FoldedLists(projectId: string, ms: seq<FindingData>)
    requires ms != []
    ensures var p := Folded(projectId, ms);
      && (forall l :: l in p.locations <==> LocatedAt(ms, l))
      && (forall id :: HasGuide(p.guides, id) <==> HasGuideOf(ms, id))
  {
    hide AddMissing, AddGuides, HasGuide, HasVulnerability;
    if |ms| == 1 {
      assert ms == [ms[0]];
    } else {
      var init, d := ms[..|ms| - 1], ms[|ms| - 1];
      assert ms == init + [d];
      FoldedLists(projectId, init);
      forall l ensures LocatedAt(ms, l) <==> LocatedAt(init, l) || l in d.locations {}
      forall id ensures HasGuide(Folded(projectId, ms).guides, id) <==> HasGuideOf(ms, id) {
        AddGuidesAdds(Folded(projectId, init).guides, d.guides.GetOr([]), id);
        assert HasGuideOf(ms, id) <==> HasGuideOf(init, id) || HasGuide(d.guides.GetOr([]), id);
      }
    }
  }

  lemma {:induction false} FoldedHead(projectId: string, ms: seq<FindingData>)
    requires ms != []
    ensures var p, c := Folded(projectId, ms), Created(projectId, ms[0]);
      p == c.(locations := p.locations, fixState := p.fixState, fixVersions := p.fixVersions, guides := p.guides,
              findings := p.findings)
  {
    hide AddMissing, AddGuides;
    if |ms| > 1 { FoldedHead(projectId, ms[..|ms| - 1]); }
  }

  // ----- all packages -----

  ghost predicate OnePerPurl(ps: seq<PackageData>) {
    forall i, j :: 0 <= i < j < |ps| ==> ps[i].purl != ps[j].purl
  }

  lemma MergedKeepsHead(p: PackageData, d: FindingData)
    ensures Merged(p, d).purl == p.purl && Merged(p, d).severity == p.severity
  {
    hide AddMissing, AddGuides, HasVulnerability;
  }

  lemma FoldedOneMore(projectId: string, ms: seq<FindingData>, d: FindingData)
    requires ms != []
    ensures Folded(projectId, ms + [d]) == Merged(Folded(projectId, ms), d)
  {
    assert (ms + [d])[..|ms|] == ms;
  }

  ghost predicate FoldsMembers(projectId: string, ds: seq<FindingData>, p: PackageData) {
    MembersOf(ds, p.purl) != [] && p == Folded(projectId, MembersOf(ds, p.purl))
  }

  /** The packages are the findings of each purl folded on their own, whatever stands between them. */
  ghost predicate FoldsAll(projectId: string, ds: seq<FindingData>, ps: seq<PackageData>) {
    && OnePerPurl(ps)
    && (forall purl :: HasPurl(ps, purl) <==> MembersOf(ds, purl) != [])
    && (forall i :: 0 <= i < |ps| ==> FoldsMembers(projectId, ds, ps[i]))
  }

  lemma FoldsMerge(projectId: string, ds: seq<FindingData>, ps: seq<PackageData>, d: FindingData, k: nat)
    requires FoldsAll(projectId, ds, ps) && k < |ps| && ps[k].purl == d.purl
    ensures FoldsAll(projectId, ds + [d], ps[k := Merged(ps[k], d)])
  {
    hide Merged, MembersOf, Folded;
    var after := ps[k := Merged(ps[k], d)];
    forall purl
      ensures MembersOf(ds + [d], purl) == if d.purl == purl then MembersOf(ds, purl) + [d] else MembersOf(ds, purl)
    {
      MembersOneMore(ds, d, purl);
    }
    MergedKeepsHead(ps[k], d);
    assert FoldsMembers(projectId, ds, ps[k]);
    FoldedOneMore(projectId, MembersOf(ds, d.purl), d);
    assert forall i :: 0 <= i < |ps| ==> after[i].purl == ps[i].purl;
    SamePurls(ps, after);
    forall i | 0 <= i < |ps| ensures FoldsMembers(projectId, ds + [d], after[i]) {
      assert FoldsMembers(projectId, ds, ps[i]);
      assert i != k ==> ps[i].purl != d.purl;
    }
  }

  lemma SamePurls(ps: seq<PackageData>, qs: seq<PackageData>)
    requires |ps| == |qs| && forall i :: 0 <= i < |ps| ==> qs[i].purl == ps[i].purl
    ensures forall purl :: HasPurl(qs, purl) <==> HasPurl(ps, purl)
  {
  }

  lemma OneMorePurl(ps: seq<PackageData>, p: PackageData, purl: string)
    ensures HasPurl(ps + [p], purl) <==> HasPurl(ps, purl) || purl == p.purl
  {
    if HasPurl(ps, purl) {
      var i :| 0 <= i < |ps| && ps[i].purl == purl;
      assert (ps + [p])[i].purl == purl;
    }
    assert (ps + [p])[|ps|] == p;
  }

  lemma FoldsCreate(projectId: string, ds: seq<FindingData>, ps: seq<PackageData>, d: FindingData)
    requires FoldsAll(projectId, ds, ps) && !HasPurl(ps, d.purl)
    ensures FoldsAll(projectId, ds + [d], ps + [Created(projectId, d)])
  {
    hide Created, MembersOf, Folded;
    var p := Created(projectId, d);
    var after := ps + [p];
    FoldedOne(projectId, d);
    forall purl
      ensures MembersOf(ds + [d], purl) == if d.purl == purl then MembersOf(ds, purl) + [d] else MembersOf(ds, purl)
    {
      MembersOneMore(ds, d, purl);
    }
    forall purl ensures HasPurl(after, purl) <==> HasPurl(ps, purl) || purl == p.purl {
      OneMorePurl(ps, p, purl);
    }
    assert MembersOf(ds + [d], p.purl) == [d];
    forall i | 0 <= i < |ps| ensures FoldsMembers(projectId, ds + [d], ps[i]) && ps[i].purl != d.purl {
      assert FoldsMembers(projectId, ds, ps[i]);
      assert HasPurl(ps, ps[i].purl);
    }
  }

  lemma {:induction false} StepsFold(projectId: string, ds: seq<FindingData>)
    ensures FoldsAll(projectId, ds, Steps(projectId, ds))
  {
    hide Step, Merged, Created, MembersOf, FoldsMembers;
    if ds == [] {
      NoMembers(projectId);
    } else {
      var init, d := ds[..|ds| - 1], ds[|ds| - 1];
      assert ds == init + [d];
      StepsFold(projectId, init);
      var before := Steps(projectId, init);
      if HasPurl(before, d.purl) {
        var k :| 0 <= k < |before| && before[k].purl == d.purl;
        StepMerges(projectId, before, d, k);
        FoldsMerge(projectId, init, before, d, k);
      } else {
        StepCreates(projectId, before, d);
        FoldsCreate(projectId, init, before, d);
      }
    }
  }

  lemma FoldedOne(projectId: string, d: FindingData)
    ensures Folded(projectId, [d]) == Created(projectId, d) && Created(projectId, d).purl == d.purl
  {
  }

  lemma NoMembers(projectId: string)
    ensures Steps(projectId, []) == [] && forall purl :: MembersOf([], purl) == []
  {
  }

  ghost predicate Descending(ps: seq<PackageData>) {
    forall i, j :: 0 <= i < j < |ps| ==> Rank(ps[i].severity) >= Rank(ps[j].severity)
  }

  ghost predicate SeverityOf(ds: seq<FindingData>, severity: string) {
    exists i :: 0 <= i < |ds| && ds[i].severity == severity
  }

  /** In descending order, and each with the severity of some finding. */
  ghost predicate DescendFrom(ds: seq<FindingData>, ps: seq<PackageData>) {
    Descending(ps) && forall i :: 0 <= i < |ps| ==> SeverityOf(ds, ps[i].severity)
  }

  /** A package created from a sorted list comes after those at least as severe; merging keeps its place. */
  lemma {:induction false} StepsDescend(projectId: string, ds: seq<FindingData>)
    requires Ordering.SortedBy(AtLeastAsSevere, ds)
    ensures DescendFrom(ds, Steps(projectId, ds))
  {
    hide Step, Merged, Created, Rank, SeverityOf, DescendFrom;
    if ds == [] {
      NoneDescend(projectId);
    } else {
      var init, d := ds[..|ds| - 1], ds[|ds| - 1];
      StepsDescend(projectId, init);
      StepsFold(projectId, init);
      var before := Steps(projectId, init);
      if HasPurl(before, d.purl) {
        var k :| 0 <= k < |before| && before[k].purl == d.purl;
        StepMerges(projectId, before, d, k);
        MergeDescends(ds, before, k);
      } else {
        StepCreates(projectId, before, d);
        CreateDescends(projectId, ds, before);
      }
    }
  }

  lemma NoneDescend(projectId: string)
    ensures DescendFrom([], Steps(projectId, []))
  {
  }

  lemma MergeDescends(ds: seq<FindingData>, ps: seq<PackageData>, k: nat)
    requires Ordering.SortedBy(AtLeastAsSevere, ds) && ds != [] && DescendFrom(ds[..|ds| - 1], ps) && k < |ps|
    ensures DescendFrom(ds, ps[k := Merged(ps[k], ds[|ds| - 1])])
  {
    hide Merged, Rank, SeverityOf, Ordering.SortedBy;
    MergedKeepsHead(ps[k], ds[|ds| - 1]);
    forall i | 0 <= i < |ps| ensures SeverityOf(ds, ps[i].severity) { EarlierSeverity(ds, ps[i].severity); }
  }

  lemma CreateDescends(projectId: string, ds: seq<FindingData>, ps: seq<PackageData>)
    requires Ordering.SortedBy(AtLeastAsSevere, ds) && ds != [] && DescendFrom(ds[..|ds| - 1], ps)
    ensures DescendFrom(ds, ps + [Created(projectId, ds[|ds| - 1])])
  {
    hide Created, Rank, SeverityOf, Ordering.SortedBy;
    CreatedSeverity(projectId, ds);
    forall i | 0 <= i < |ps|
      ensures SeverityOf(ds, ps[i].severity) && Rank(ps[i].severity) >= Rank(ds[|ds| - 1].severity)
    {
      EarlierSeverity(ds, ps[i].severity);
    }
  }

  lemma CreatedSeverity(projectId: string, ds: seq<FindingData>)
    requires ds != []
    ensures var d := ds[|ds| - 1];
      Created(projectId, d).severity == d.severity && SeverityOf(ds, d.severity)
  {
  }

  lemma EarlierSeverity(ds: seq<FindingData>, severity: string)
    requires Ordering.SortedBy(AtLeastAsSevere, ds) && ds != [] && SeverityOf(ds[..|ds| - 1], severity)
    ensures SeverityOf(ds, severity) && Rank(severity) >= Rank(ds[|ds| - 1].severity)
  {
    hide Rank;
    var x :| 0 <= x < |ds| - 1 && ds[..|ds| - 1][x].severity == severity;
    assert AtLeastAsSevere(ds[x], ds[|ds| - 1]);
  }

  // ----- which finding a package describes -----

  /** ds[i] is the most severe finding of its purl, and the first such. */
  ghost predicate Leads(ds: seq<FindingData>, i: nat) {
    && i < |ds|
    && (forall j :: 0 <= j < |ds| && ds[j].purl == ds[i].purl ==> Rank(ds[j].severity) <= Rank(ds[i].severity))
    && (forall j :: 0 <= j < i && ds[j].purl == ds[i].purl ==> Rank(ds[j].severity) < Rank(ds[i].severity))
  }

  lemma NoMembersOf(purl: string)
    ensures MembersOf([], purl) == []
  {
  }

  lemma {:induction false} FirstMember(x: FindingData, s: seq<FindingData>, purl: string)
    ensures MembersOf([x] + s, purl) == if x.purl == purl then [x] + MembersOf(s, purl) else MembersOf(s, purl)
  {
    hide MembersOf;
    if s == [] {
      assert [x] + s == [] + [x];
      NoMembersOf(purl);
      MembersOneMore([], x, purl);
    } else {
      var init, d := s[..|s| - 1], s[|s| - 1];
      FirstMember(x, init, purl);
      assert s == init + [d];
      MembersAppend(x, init, d);
      MembersOneMore(init, d, purl);
      MembersOneMore([x] + init, d, purl);
      MembersAppend(x, MembersOf(init, purl), d);
    }
  }

  lemma MembersAppend(x: FindingData, ms: seq<FindingData>, d: FindingData)
    ensures [x] + (ms + [d]) == ([x] + ms) + [d]
  {
  }

  lemma {:induction false} InsertLeader(x: FindingData, s: seq<FindingData>, purl: string)
    requires Ordering.SortedBy(AtLeastAsSevere, s)
    ensures var ms, after := MembersOf(s, purl), MembersOf(Ordering.Insert(AtLeastAsSevere, x, s), purl);
      && (after == [] <==> x.purl != purl && ms == [])
      && (after != [] ==> after[0] == if x.purl == purl && (ms == [] || AtLeastAsSevere(x, ms[0])) then x else ms[0])
  {
    hide MembersOf, Rank;
    FirstMember(x, s, purl);
    if s == [] || AtLeastAsSevere(x, s[0]) {
      if MembersOf(s, purl) != [] {
        var m := MembersOf(s, purl)[0];
        assert m in s by { MembersOfMeans(s, purl); }
        var i :| 0 <= i < |s| && s[i] == m;
        assert i > 0 ==> AtLeastAsSevere(s[0], m);
      }
    } else {
      InsertLeader(x, s[1..], purl);
      FirstMember(s[0], s[1..], purl);
      assert s == [s[0]] + s[1..];
      FirstMember(s[0], Ordering.Insert(AtLeastAsSevere, x, s[1..]), purl);
    }
  }

  lemma MembersOfMeans(s: seq<FindingData>, purl: string)
    ensures forall m :: m in MembersOf(s, purl) <==> m in s && m.purl == purl
  {
  }

  lemma SeverityOrder()
    ensures Ordering.TotalPreorder<FindingData>(AtLeastAsSevere)
  {
    hide Rank;
  }

  ghost predicate LeaderOf(ds: seq<FindingData>, purl: string, d: FindingData) {
    exists i: nat :: Leads(ds, i) && ds[i] == d && d.purl == purl
  }

  lemma LeaderFirst(ds: seq<FindingData>, d: FindingData)
    requires ds != [] && LeaderOf(ds[1..], ds[0].purl, d) && Rank(d.severity) <= Rank(ds[0].severity)
    ensures LeaderOf(ds, ds[0].purl, ds[0])
  {
    hide Rank;
    var rest := ds[1..];
    var i: nat :| Leads(rest, i) && rest[i] == d && d.purl == ds[0].purl;
    LeadsFirst(ds, i);
    assert Leads(ds, 0);
  }

  lemma LeadsFirst(ds: seq<FindingData>, i: nat)
    requires ds != [] && Leads(ds[1..], i) && ds[1..][i].purl == ds[0].purl
    requires Rank(ds[1..][i].severity) <= Rank(ds[0].severity)
    ensures Leads(ds, 0)
  {
    hide Rank;
    var rest := ds[1..];
    forall j | 0 <= j < |ds| && ds[j].purl == ds[0].purl ensures Rank(ds[j].severity) <= Rank(ds[0].severity) {
      if j > 0 { assert ds[j] == rest[j - 1]; }
    }
  }

  lemma LeaderLater(ds: seq<FindingData>, purl: string, d: FindingData)
    requires ds != [] && LeaderOf(ds[1..], purl, d) && (ds[0].purl != purl || Rank(ds[0].severity) < Rank(d.severity))
    ensures LeaderOf(ds, purl, d)
  {
    hide Rank;
    var rest := ds[1..];
    var i: nat :| Leads(rest, i) && rest[i] == d && d.purl == purl;
    LeadsLater(ds, i);
  }

  lemma LeadsLater(ds: seq<FindingData>, i: nat)
    requires ds != [] && Leads(ds[1..], i)
    requires ds[0].purl != ds[1..][i].purl || Rank(ds[0].severity) < Rank(ds[1..][i].severity)
    ensures Leads(ds, i + 1) && ds[i + 1] == ds[1..][i]
  {
    hide Rank;
    var rest, d := ds[1..], ds[i + 1];
    forall j | 0 <= j < |ds| && ds[j].purl == d.purl ensures Rank(ds[j].severity) <= Rank(d.severity) {
      if j > 0 { assert ds[j] == rest[j - 1]; }
    }
    forall j | 0 <= j < i + 1 && ds[j].purl == d.purl ensures Rank(ds[j].severity) < Rank(d.severity) {
      if j > 0 { assert ds[j] == rest[j - 1]; }
    }
  }

  lemma LeaderAlone(ds: seq<FindingData>)
    requires ds != [] && forall d :: d in ds[1..] ==> d.purl != ds[0].purl
    ensures LeaderOf(ds, ds[0].purl, ds[0])
  {
    hide Rank;
    forall j | 1 <= j < |ds| ensures ds[j].purl != ds[0].purl {
      assert ds[1..][j - 1] == ds[j];
    }
    assert Leads(ds, 0);
  }

  /** The first finding of a purl after sorting is the first most severe one before it. */
  lemma {:induction false} SortedLeader(ds: seq<FindingData>, purl: string)
    requires exists d :: d in ds && d.purl == purl
    ensures var ms := MembersOf(Ordering.Sort(AtLeastAsSevere, ds), purl); ms != [] && LeaderOf(ds, purl, ms[0])
  {
    hide MembersOf, Rank, LeaderOf;
    var x, rest := ds[0], ds[1..];
    assert ds == [x] + rest;
    var sorted := Ordering.Sort(AtLeastAsSevere, rest);
    SeverityOrder();
    Ordering.SortSorts(AtLeastAsSevere, rest);
    Ordering.SortKeepsElements(AtLeastAsSevere, rest);
    MembersOfMeans(sorted, purl);
    InsertLeader(x, sorted, purl);
    var before := MembersOf(sorted, purl);
    if exists d :: d in rest && d.purl == purl {
      SortedLeader(rest, purl);
      if x.purl == purl && AtLeastAsSevere(x, before[0]) {
        LeaderFirst(ds, before[0]);
      } else {
        LeaderLater(ds, purl, before[0]);
      }
    } else {
      assert x.purl == purl;
      Ordering.EmptyIfNone(before);
      LeaderAlone(ds);
    }
  }

  // ----- the promise -----

  /** The plain fields of p are those of d. */
  ghost predicate Describes(projectId: string, p: PackageData, d: FindingData) {
    && p.createdAt == d.createdAt && p.purl == d.purl && p.severity == d.severity && p.version == d.version
    && p.language == d.language && p.typ == d.typ && p.packageName == d.packageName
    && p.cvssScore == d.cvssScore.GetOr(0.0) && p.projectId == projectId
  }

  /** d is one of the findings of p's purl. */
  predicate Member(ds: seq<FindingData>, p: PackageData, d: FindingData) {
    d in ds && d.purl == p.purl
  }

  /** The package is fixed, with the versions of all fixed findings, as soon as one finding is. */
  ghost predicate FixSummed(ds: seq<FindingData>, p: PackageData, leader: FindingData) {
    && p.fixState == (if exists m :: Member(ds, p, m) && m.fixState == FIXED then FIXED else OrNull(leader.fixState))
    && (forall v :: v in p.fixVersions <==>
          v in leader.fixVersions.GetOr([])
          || exists m :: Member(ds, p, m) && m.fixState == FIXED && v in m.fixVersions.GetOr([]))
  }

  /** One finding for every vulnerability of the purl, the most severe with that vulnerability. */
  ghost predicate FindingsSummed(ds: seq<FindingData>, p: PackageData) {
    && DistinctVulnerabilities(p.findings)
    && (forall m :: Member(ds, p, m) ==> HasVulnerability(p.findings, m.vulnerabilityId))
    && (forall f :: f in p.findings ==> Member(ds, p, f))
    && (forall f, m :: f in p.findings && Member(ds, p, m) && m.vulnerabilityId == f.vulnerabilityId ==>
      AtLeastAsSevere(f, m))
  }

  ghost predicate ListsSummed(ds: seq<FindingData>, p: PackageData) {
    && (forall l :: l in p.locations <==> exists m :: Member(ds, p, m) && l in m.locations)
    && (forall id :: HasGuide(p.guides, id) <==> exists m :: Member(ds, p, m) && HasGuide(m.guides.GetOr([]), id))
  }

  /** p sums up exactly the findings of its purl among ds. */
  ghost predicate SumsUp(projectId: string, ds: seq<FindingData>, p: PackageData) {
    && (exists d :: LeaderOf(ds, p.purl, d) && Describes(projectId, p, d) && FixSummed(ds, p, d))
    && FindingsSummed(ds, p)
    && ListsSummed(ds, p)
  }

  lemma MostSevereOfVulnerability(ms: seq<FindingData>, f: FindingData, m: FindingData)
    requires Ordering.SortedBy(AtLeastAsSevere, ms) && FirstOfVulnerability(ms, f)
    requires m in ms && m.vulnerabilityId == f.vulnerabilityId
    ensures AtLeastAsSevere(f, m)
  {
    hide Rank;
    var i :| 0 <= i < |ms| && ms[i] == f && !HasVulnerability(ms[..i], f.vulnerabilityId);
    var j :| 0 <= j < |ms| && ms[j] == m;
    forall k | 0 <= k < i ensures ms[k].vulnerabilityId != f.vulnerabilityId {
      assert ms[..i][k] == ms[k];
    }
  }

  lemma {:induction false} MembersSorted(ds: seq<FindingData>, purl: string)
    requires Ordering.SortedBy(AtLeastAsSevere, ds)
    ensures Ordering.SortedBy(AtLeastAsSevere, MembersOf(ds, purl))
  {
    hide Rank;
    if ds != [] {
      var n := |ds| - 1;
      MembersSorted(ds[..n], purl);
      forall m | m in MembersOf(ds[..n], purl) ensures AtLeastAsSevere(m, ds[n]) {
        var i :| 0 <= i < n && ds[i] == m;
      }
    }
  }

  lemma FoldFindingsSummed(projectId: string, ds: seq<FindingData>, ms: seq<FindingData>, p: PackageData)
    requires ms != [] && p == Folded(projectId, ms) && Ordering.SortedBy(AtLeastAsSevere, ms)
    requires forall m :: m in ms <==> Member(ds, p, m)
    ensures FindingsSummed(ds, p)
  {
    hide Rank, HasVulnerability, Folded, AtLeastAsSevere, FirstOfVulnerability;
    FoldedFindings(projectId, ms);
    forall f | f in p.findings ensures f in ms {
      FirstIsMember(ms, f);
    }
    forall f, m | f in p.findings && m in ms && m.vulnerabilityId == f.vulnerabilityId ensures AtLeastAsSevere(f, m) {
      MostSevereOfVulnerability(ms, f, m);
    }
    forall m | m in ms ensures HasVulnerability(p.findings, m.vulnerabilityId) {
      MemberHas(ms, m);
    }
  }

  lemma FirstIsMember(ms: seq<FindingData>, f: FindingData)
    requires FirstOfVulnerability(ms, f)
    ensures f in ms
  {
  }

  lemma FoldUnionSummed(projectId: string, ds: seq<FindingData>, ms: seq<FindingData>, p: PackageData)
    requires ms != [] && p == Folded(projectId, ms)
    requires forall m :: m in ms <==> Member(ds, p, m)
    ensures ListsSummed(ds, p) && FixSummed(ds, p, ms[0]) && Describes(projectId, p, ms[0])
  {
    hide Folded, HasGuide;
    FoldedHead(projectId, ms);
    FoldedFix(projectId, ms);
    FoldedLists(projectId, ms);
  }

  lemma FoldSumsUp(projectId: string, ds: seq<FindingData>, p: PackageData)
    requires FoldsMembers(projectId, Ordering.Sort(AtLeastAsSevere, ds), p)
    ensures SumsUp(projectId, ds, p)
  {
    hide Rank, Folded, MembersOf, AtLeastAsSevere, FindingsSummed, ListsSummed, FixSummed, LeaderOf, Describes;
    var sorted := Ordering.Sort(AtLeastAsSevere, ds);
    var ms := MembersOf(sorted, p.purl);
    SeverityOrder();
    Ordering.SortSorts(AtLeastAsSevere, ds);
    Ordering.SortKeepsElements(AtLeastAsSevere, ds);
    MembersOfMeans(sorted, p.purl);
    assert ms[0] in ms;
    SortedLeader(ds, p.purl);
    MembersSorted(sorted, p.purl);
    FoldFindingsSummed(projectId, ds, ms, p);
    FoldUnionSummed(projectId, ds, ms, p);
  }

  lemma MemberHas(ms: seq<FindingData>, m: FindingData)
    requires m in ms
    ensures HasVulnerability(ms, m.vulnerabilityId)
  {
    var i :| 0 <= i < |ms| && ms[i] == m;
  }

  /** Grouping gives one package for every purl that occurs, each the summary of that purl's findings,
      in descending severity. */
  lemma GroupingByPurl(projectId: string, ds: seq<FindingData>)
    ensures var ps := Grouped(projectId, ds);
      && OnePerPurl(ps) && Descending(ps)
      && (forall d :: d in ds ==> HasPurl(ps, d.purl))
      && (forall p :: p in ps ==> SumsUp(projectId, ds, p))
  {
    hide Rank, Steps, SumsUp;
    var sorted, ps := Ordering.Sort(AtLeastAsSevere, ds), Grouped(projectId, ds);
    SeverityOrder();
    Ordering.SortSorts(AtLeastAsSevere, ds);
    Ordering.SortKeepsElements(AtLeastAsSevere, ds);
    StepsFold(projectId, sorted);
    StepsDescend(projectId, sorted);
    forall d | d in ds ensures HasPurl(ps, d.purl) {
      assert d in MembersOf(sorted, d.purl);
    }
    forall p | p in ps ensures SumsUp(projectId, ds, p) {
      FoldSumsUp(projectId, ds, p);
    }
  }

  // ----- the promise, by the names of the severities -----

  /** From the most to the least severe; other names come last. */
  lemma SeveritiesCompared(a: string, b: string)
    ensures Rank(a) >= Rank(b) <==>
      || a == "critical"
      || (a == "high" && b != "critical")
      || (a == "medium" && b !in {"critical", "high"})
      || (a == "low" && b !in {"critical", "high", "medium"})
      || (a == "negligible" && b !in {"critical", "high", "medium", "low"})
      || (a == "unknown" && b !in {"critical", "high", "medium", "low", "negligible"})
      || b !in {"critical", "high", "medium", "low", "negligible", "unknown"}
  {
    RankNamed(a);
    RankNamed(b);
    hide Rank;
  }

  lemma RankNamed(s: string)
    ensures Rank(s) ==
      if s == "critical" then 5 else if s == "high" then 4 else if s == "medium" then 3 else if s == "low" then 2
      else if s == "negligible" then 1 else if s == "unknown" then 0 else -1
  {
    hide IndexOf;
    assert IndexOf([], s) == -1 by { NotInNone(s); }
    IndexInFront("critical", [], s);
    IndexInFront("high", ["critical"], s);
    IndexInFront("medium", ["high", "critical"], s);
    IndexInFront("low", ["medium", "high", "critical"], s);
    IndexInFront("negligible", ["low", "medium", "high", "critical"], s);
    IndexInFront("unknown", ["negligible", "low", "medium", "high", "critical"], s);
    assert SEVERITY_ORDER == ["unknown"] + ["negligible", "low", "medium", "high", "critical"];
    assert ["negligible"] + ["low", "medium", "high", "critical"]
      == ["negligible", "low", "medium", "high", "critical"];
    assert ["low"] + ["medium", "high", "critical"] == ["low", "medium", "high", "critical"];
    assert ["medium"] + ["high", "critical"] == ["medium", "high", "critical"];
    assert ["high"] + ["critical"] == ["high", "critical"] && ["critical"] + [] == ["critical"];
  }

  lemma NotInNone(x: string)
    ensures IndexOf([], x) == -1
  {
  }

  lemma IndexInFront(first: string, rest: seq<string>, x: string)
    ensures IndexOf([first] + rest, x) ==
      if first == x then 0 else if IndexOf(rest, x) == -1 then -1 else IndexOf(rest, x) + 1
  {
    assert ([first] + rest)[1..] == rest;
  }

  ghost predicate HasMember(ds: seq<FindingData>, p: PackageData, severity: string) {
    exists m :: Member(ds, p, m) && m.severity == severity
  }

  lemma SeverityIsGreatest(projectId: string, ds: seq<FindingData>, p: PackageData)
    requires SumsUp(projectId, ds, p)
    ensures HasMember(ds, p, p.severity)
    ensures forall s :: HasMember(ds, p, s) ==> Rank(p.severity) >= Rank(s)
  {
    hide Rank, FixSummed, FindingsSummed, ListsSummed;
    var d :| LeaderOf(ds, p.purl, d) && Describes(projectId, p, d) && FixSummed(ds, p, d);
    var i: nat :| Leads(ds, i) && ds[i] == d && d.purl == p.purl;
    assert Member(ds, p, d);
    forall s | HasMember(ds, p, s) ensures Rank(p.severity) >= Rank(s) {
      var m :| Member(ds, p, m) && m.severity == s;
      var j :| 0 <= j < |ds| && ds[j] == m;
    }
  }

  /** A package is critical as soon as one of its findings is, otherwise high as soon as one is, and so on. */
  lemma SeverityByName(projectId: string, ds: seq<FindingData>, p: PackageData)
    requires p in Grouped(projectId, ds)
    ensures p.severity == "critical" <==> HasMember(ds, p, "critical")
    ensures p.severity == "high" <==> HasMember(ds, p, "high") && !HasMember(ds, p, "critical")
    ensures p.severity == "medium" <==>
      HasMember(ds, p, "medium") && forall s :: s in {"critical", "high"} ==> !HasMember(ds, p, s)
    ensures p.severity == "low" <==>
      HasMember(ds, p, "low") && forall s :: s in {"critical", "high", "medium"} ==> !HasMember(ds, p, s)
    ensures p.severity == "negligible" <==>
      HasMember(ds, p, "negligible") && forall s :: s in {"critical", "high", "medium", "low"} ==> !HasMember(ds, p, s)
    ensures p.severity == "unknown" <==>
      && HasMember(ds, p, "unknown")
      && forall s :: s in {"critical", "high", "medium", "low", "negligible"} ==> !HasMember(ds, p, s)
  {
    hide Rank, SumsUp, Grouped, HasMember;
    GroupingByPurl(projectId, ds);
    SeverityIsGreatest(projectId, ds, p);
    forall s { RankNamed(s); }
  }

  /** No package stands after a less severe one. */
  lemma MostSevereFirst(projectId: string, ds: seq<FindingData>, i: nat, j: nat)
    requires i < j < |Grouped(projectId, ds)|
    ensures var first, second := Grouped(projectId, ds)[i].severity, Grouped(projectId, ds)[j].severity;
      && (second == "critical" ==> first == "critical")
      && (second == "high" ==> first in {"critical", "high"})
      && (second == "medium" ==> first in {"critical", "high", "medium"})
      && (second == "low" ==> first in {"critical", "high", "medium", "low"})
      && (second == "negligible" ==> first in {"critical", "high", "medium", "low", "negligible"})
      && (second == "unknown" ==> first in {"critical", "high", "medium", "low", "negligible", "unknown"})
  {
    hide Rank, SumsUp, Grouped;
    GroupingByPurl(projectId, ds);
    SeveritiesCompared(Grouped(projectId, ds)[i].severity, Grouped(projectId, ds)[j].severity);
  }

  /** A package is fixed as soon as one of its findings says "fixed". */
  lemma FixedByName(projectId: string, ds: seq<FindingData>, p: PackageData)
    requires p in Grouped(projectId, ds)
    ensures (exists m :: Member(ds, p, m) && m.fixState == Some("fixed")) <==> p.fixState == Some("fixed")
    ensures p.fixState != Some("")
  {
    hide Rank, Grouped, FindingsSummed, ListsSummed;
    GroupingByPurl(projectId, ds);
    var d :| LeaderOf(ds, p.purl, d) && Describes(projectId, p, d) && FixSummed(ds, p, d);
    var i: nat :| Leads(ds, i) && ds[i] == d && d.purl == p.purl;
    assert Member(ds, p, d);
  }

  ghost predicate HasGuideWith(guides: seq<Guide>, id: string) {
    exists g :: g in guides && g.id == id
  }

  lemma GuideById(guides: seq<Guide>, id: string)
    ensures HasGuide(guides, id) <==> HasGuideWith(guides, id)
  {
    if HasGuideWith(guides, id) {
      var g :| g in guides && g.id == id;
      var i :| 0 <= i < |guides| && guides[i] == g;
    }
  }

  /** A package lists a guide or a vulnerability by its id exactly when one of its findings does. */
  lemma ListedById(projectId: string, ds: seq<FindingData>, p: PackageData)
    requires p in Grouped(projectId, ds)
    ensures forall id :: HasGuideWith(p.guides, id) <==>
      exists m :: Member(ds, p, m) && m.guides.Some? && HasGuideWith(m.guides.value, id)
    ensures forall m :: Member(ds, p, m) ==> exists f :: f in p.findings && f.vulnerabilityId == m.vulnerabilityId
    ensures forall f :: f in p.findings ==> Member(ds, p, f)
  {
    hide Rank, Grouped, FixSummed, HasGuide, HasGuideWith;
    GroupingByPurl(projectId, ds);
    forall guides, id ensures HasGuide(guides, id) <==> HasGuideWith(guides, id) { GuideById(guides, id); }
    forall id ensures !HasGuideWith([], id) { NoGuides(id); }
    forall m | Member(ds, p, m) ensures exists f :: f in p.findings && f.vulnerabilityId == m.vulnerabilityId {
      var i :| 0 <= i < |p.findings| && p.findings[i].vulnerabilityId == m.vulnerabilityId;
      assert p.findings[i] in p.findings;
    }
  }

  lemma NoGuides(id: string)
    ensures !HasGuideWith([], id)
  {
  }
}
