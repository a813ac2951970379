/** Grouping findings into packages by purl: sorted by severity, then created or merged one at a time.
    Findings carry references to arrays; a package takes over some of these arrays and replaces or extends others. */
module PackageGrouping {
  import opened Options
  import Ordering

  class JsArray<T> {
    var items: seq<T>

    constructor (items: seq<T>)
      ensures this.items == items
    {
      this.items := items;
    }

    method Push(x: T)
      modifies this
      ensures items == old(items) + [x]
    {
      items := items + [x];
    }
  }

  datatype Guide = Guide(id: string, title: string)

  /** A finding, with S for a list of strings and G for a list of guides: references or plain sequences. */
  datatype FindingOf<S, G> = Finding(
    createdAt: string, purl: string, locations: S, severity: string, version: string, language: string, typ: string,
    vulnerabilityId: string, cvssScore: Option<real>, guides: Option<G>, packageName: string,
    fixState: Option<string>, fixVersions: Option<S>)

  type Finding = FindingOf<JsArray<string>, JsArray<Guide>>
  type FindingData = FindingOf<seq<string>, seq<Guide>>

  datatype PackageData = PackageData(
    createdAt: string, purl: string, locations: seq<string>, severity: string, version: string, language: string,
    typ: string, guides: seq<Guide>, packageName: string, cvssScore: real, fixState: Option<string>,
    fixVersions: seq<string>, findings: seq<FindingData>, projectId: string)

  // ----- what the functions compute, on plain values -----

  const SEVERITY_ORDER := ["unknown", "negligible", "low", "medium", "high", "critical"]
  const FIXED := Some("fixed")

  function IndexOf(s: seq<string>, x: string): int {
    if s == [] then -1
    else if s[0] == x then 0
    else
      var i := IndexOf(s[1..], x);
      if i == -1 then -1 else i + 1
  }

  function Rank(severity: string): int {
    IndexOf(SEVERITY_ORDER, severity)
  }

  predicate AtLeastAsSevere<S, G>(a: FindingOf<S, G>, b: FindingOf<S, G>) {
    Rank(b.severity) - Rank(a.severity) <= 0
  }

  function AddMissing(existing: seq<string>, more: seq<string>): (r: seq<string>)
    ensures forall x :: x in r <==> x in existing || x in more
  {
    if more == [] then existing
    else
      var r := AddMissing(existing, more[..|more| - 1]);
      assert more == more[..|more| - 1] + [more[|more| - 1]];
      if more[|more| - 1] in r then r else r + [more[|more| - 1]]
  }

  predicate HasGuide(guides: seq<Guide>, id: string) {
    exists i :: 0 <= i < |guides| && guides[i].id == id
  }

  function AddGuides(existing: seq<Guide>, more: seq<Guide>): seq<Guide> {
    if more == [] then existing
    else
      var r := AddGuides(existing, more[..|more| - 1]);
      if HasGuide(r, more[|more| - 1].id) then r else r + [more[|more| - 1]]
  }

  predicate HasVulnerability<S, G>(findings: seq<FindingOf<S, G>>, id: string) {
    exists i :: 0 <= i < |findings| && findings[i].vulnerabilityId == id
  }

  /** JavaScript's "value || null" on strings. */
  function OrNull(value: Option<string>): Option<string> {
    if value == Some("") then None else value
  }

  function Created(projectId: string, d: FindingData): PackageData {
    PackageData(d.createdAt, d.purl, d.locations, d.severity, d.version, d.language, d.typ, d.guides.GetOr([]),
      d.packageName, d.cvssScore.GetOr(0.0), OrNull(d.fixState), d.fixVersions.GetOr([]), [d], projectId)
  }

  function WithFinding(p: PackageData, d: FindingData): PackageData {
    p.(findings := if HasVulnerability(p.findings, d.vulnerabilityId) then p.findings else p.findings + [d])
  }

  function WithLocations(p: PackageData, d: FindingData): PackageData {
    p.(locations := AddMissing(p.locations, d.locations))
  }

  function WithFix(p: PackageData, d: FindingData): PackageData {
    if d.fixState != FIXED then p
    else p.(fixState := d.fixState, fixVersions := AddMissing(p.fixVersions, d.fixVersions.GetOr([])))
  }

  function WithGuides(p: PackageData, d: FindingData): PackageData {
    p.(guides := AddGuides(p.guides, d.guides.GetOr([])))
  }

  function Merged(p: PackageData, d: FindingData): PackageData {
    WithGuides(WithFix(WithLocations(WithFinding(p, d), d), d), d)
  }

  predicate HasPurl(ps: seq<PackageData>, purl: string) {
    exists i :: 0 <= i < |ps| && ps[i].purl == purl
  }

  /** The packages after one more finding, in the order they were first created. */
  function Step(projectId: string, ps: seq<PackageData>, d: FindingData): seq<PackageData> {
    if HasPurl(ps, d.purl)
    then seq(|ps|, i requires 0 <= i < |ps| => if ps[i].purl == d.purl then Merged(ps[i], d) else ps[i])
    else ps + [Created(projectId, d)]
  }

  function Steps(projectId: string, ds: seq<FindingData>): seq<PackageData> {
    if ds == [] then [] else Step(projectId, Steps(projectId, ds[..|ds| - 1]), ds[|ds| - 1])
  }

  function Grouped(projectId: string, ds: seq<FindingData>): seq<PackageData> {
    Steps(projectId, Ordering.Sort(AtLeastAsSevere, ds))
  }

  // ----- the program -----

  ghost function Arrays(f: Finding): set<object> {
    var guides: set<object> := if f.guides.Some? then {f.guides.value} else {};
    var versions: set<object> := if f.fixVersions.Some? then {f.fixVersions.value} else {};
    {f.locations as object} + guides + versions
  }

  ghost function AllArrays(fs: seq<Finding>): set<object> {
    set f, o | f in fs && o in Arrays(f) :: o
  }

  ghost function DataOf(f: Finding): FindingData
    reads Arrays(f)
  {
    Finding(f.createdAt, f.purl, f.locations.items, f.severity, f.version, f.language, f.typ, f.vulnerabilityId,
      f.cvssScore, if f.guides.Some? then Some(f.guides.value.items) else None, f.packageName, f.fixState,
      if f.fixVersions.Some? then Some(f.fixVersions.value.items) else None)
  }

  ghost function AllData(fs: seq<Finding>): (ds: seq<FindingData>)
    reads AllArrays(fs)
    ensures |ds| == |fs| && forall i :: 0 <= i < |fs| ==> ds[i] == DataOf(fs[i])
  {
    if fs == [] then [] else [DataOf(fs[0])] + AllData(fs[1..])
  }

  lemma ArraysWithin(fs: seq<Finding>, f: Finding)
    requires f in fs
    ensures Arrays(f) <= AllArrays(fs)
  {
  }

  twostate lemma AllDataKept(fs: seq<Finding>)
    requires forall f :: f in fs ==> DataOf(f) == old(DataOf(f))
    ensures AllData(fs) == old(AllData(fs))
  {
    hide AllData, DataOf;
    assert forall i :: 0 <= i < |fs| ==> fs[i] in fs;
  }

  class VulnerablePackage {
    const createdAt: string
    const purl: string
    const severity: string
    const version: string
    const language: string
    const typ: string
    const guides: JsArray<Guide>
    const packageName: string
    const cvssScore: real
    const findings: JsArray<Finding>
    const projectId: string
    var locations: JsArray<string>
    var fixState: Option<string>
    var fixVersions: JsArray<string>

    /** What only this package refers to and later merges write to. */
    ghost function Owned(): set<object> {
      {this, guides, findings}
    }

    ghost function Data(): PackageData
      reads Owned(), locations, fixVersions, AllArrays(findings.items)
    {
      PackageData(createdAt, purl, locations.items, severity, version, language, typ, guides.items, packageName,
        cvssScore, fixState, fixVersions.items, AllData(findings.items), projectId)
    }

    /** Writing to what the package owns changes neither its shared arrays nor those of its findings. */
    ghost predicate Valid()
      reads Owned()
    {
      && (guides as object) != findings
      && locations !in Owned() && fixVersions !in Owned()
      && Owned() !! AllArrays(findings.items)
    }

    constructor (projectId: string, f: Finding)
      ensures Valid() && fresh(Owned())
      ensures locations == f.locations && (f.fixVersions.Some? ==> fixVersions == f.fixVersions.value)
      ensures f.fixVersions.None? ==> fresh(fixVersions)
      ensures findings.items == [f] && purl == f.purl
      ensures Data() == Created(projectId, DataOf(f))
    {
      createdAt, purl, locations, severity := f.createdAt, f.purl, f.locations, f.severity;
      version, language, typ, packageName := f.version, f.language, f.typ, f.packageName;
      var gs := new JsArray<Guide>(if f.guides.Some? then f.guides.value.items else []);
      guides := gs;
      cvssScore := f.cvssScore.GetOr(0.0);
      fixState := OrNull(f.fixState);
      if f.fixVersions.Some? {
        fixVersions := f.fixVersions.value;
      } else {
        var vs := new JsArray<string>([]);
        fixVersions := vs;
      }
      var fs := new JsArray<Finding>([f]);
      findings := fs;
      this.projectId := projectId;
    }

    method AddFinding(f: Finding)
      requires Valid() && Owned() !! Arrays(f)
      modifies findings
      ensures Valid()
      ensures findings.items == old(findings.items) || findings.items == old(findings.items) + [f]
      ensures Data() == old(WithFinding(Data(), DataOf(f)))
    {
      hide AllData, HasVulnerability, AllArrays;
      SameVulnerabilities(findings.items, f.vulnerabilityId);
      ghost var existing := findings.items;
      if !HasVulnerability(findings.items, f.vulnerabilityId) {
        findings.Push(f);
        OneMore(existing, f);
        forall g | g in existing ensures DataOf(g) == old(DataOf(g)) { ArraysWithin(existing, g); }
        AllDataKept(existing);
      }
    }

    method AddLocations(f: Finding)
      requires Valid() && Owned() !! Arrays(f)
      modifies this`locations
      ensures Valid() && (locations == old(locations) || fresh(locations))
      ensures Data() == old(WithLocations(Data(), DataOf(f)))
    {
      hide AllData, AddMissing, AllArrays;
      locations := WithMissing(locations, f.locations);
      forall g | g in findings.items ensures DataOf(g) == old(DataOf(g)) { ArraysWithin(findings.items, g); }
      AllDataKept(findings.items);
    }

    method AddFix(f: Finding)
      requires Valid() && Owned() !! Arrays(f)
      modifies this`fixState, this`fixVersions
      ensures Valid() && (fixVersions == old(fixVersions) || fresh(fixVersions))
      ensures Data() == old(WithFix(Data(), DataOf(f)))
    {
      hide AllData, AddMissing, AllArrays;
      NothingMissing(fixVersions.items);
      if f.fixState == FIXED {
        fixState := f.fixState;
        if f.fixVersions.Some? {
          fixVersions := WithMissing(fixVersions, f.fixVersions.value);
        }
      }
      forall g | g in findings.items ensures DataOf(g) == old(DataOf(g)) { ArraysWithin(findings.items, g); }
      AllDataKept(findings.items);
    }

    method AddGuidesOf(f: Finding)
      requires Valid() && Owned() !! Arrays(f)
      modifies guides
      ensures Valid()
      ensures Data() == old(WithGuides(Data(), DataOf(f)))
    {
      hide AllData, AddGuides;
      NoGuides(guides.items);
      if f.guides.Some? {
        PushMissing(guides, f.guides.value);
      }
    }

    method MergeExistingFinding(f: Finding)
      requires Valid() && Owned() !! Arrays(f)
      modifies Owned()
      ensures Valid()
      ensures locations == old(locations) || fresh(locations)
      ensures fixVersions == old(fixVersions) || fresh(fixVersions)
      ensures findings.items == old(findings.items) || findings.items == old(findings.items) + [f]
      ensures Data() == old(Merged(Data(), DataOf(f)))
    {
      hide WithFinding, WithLocations, WithFix, WithGuides, Data;
      ghost var d := DataOf(f);
      AddFinding(f);
      assert DataOf(f) == d;
      AddLocations(f);
      assert DataOf(f) == d;
      AddFix(f);
      assert DataOf(f) == d;
      AddGuidesOf(f);
    }
  }

  lemma NothingMissing(s: seq<string>)
    ensures AddMissing(s, []) == s
  {
  }

  lemma NoGuides(s: seq<Guide>)
    ensures AddGuides(s, []) == s
  {
  }

  lemma SameVulnerabilities(fs: seq<Finding>, id: string)
    ensures HasVulnerability(fs, id) == HasVulnerability(AllData(fs), id)
  {
    if HasVulnerability(fs, id) {
      var i :| 0 <= i < |fs| && fs[i].vulnerabilityId == id;
      assert AllData(fs)[i].vulnerabilityId == id;
    }
  }

  lemma OneMore(fs: seq<Finding>, f: Finding)
    ensures AllData(fs + [f]) == AllData(fs) + [DataOf(f)]
    ensures AllArrays(fs + [f]) == AllArrays(fs) + Arrays(f)
  {
  }

  /** The array itself, or a new one when elements had to be added. */
  method WithMissing(base: JsArray<string>, more: JsArray<string>) returns (r: JsArray<string>)
    ensures r == base || fresh(r)
    ensures r.items == AddMissing(base.items, more.items)
  {
    r := base;
    for i := 0 to |more.items|
      invariant r == base || fresh(r)
      invariant r.items == AddMissing(base.items, more.items[..i])
    {
      assert more.items[..i + 1][..i] == more.items[..i];
      if more.items[i] !in r.items {
        r := new JsArray<string>(r.items + [more.items[i]]);
      }
    }
    assert more.items[..|more.items|] == more.items;
  }

  method PushMissing(guides: JsArray<Guide>, more: JsArray<Guide>)
    requires guides != more
    modifies guides
    ensures guides.items == AddGuides(old(guides.items), more.items)
  {
    for i := 0 to |more.items|
      invariant guides.items == AddGuides(old(guides.items), more.items[..i])
    {
      assert more.items[..i + 1][..i] == more.items[..i];
      if !HasGuide(guides.items, more.items[i].id) {
        guides.Push(more.items[i]);
      }
    }
    assert more.items[..|more.items|] == more.items;
  }

  lemma {:induction false} InsertSameOrder(f: Finding, fs: seq<Finding>)
    ensures AllData(Ordering.Insert(AtLeastAsSevere, f, fs)) == Ordering.Insert(AtLeastAsSevere, DataOf(f), AllData(fs))
  {
    if fs != [] && !AtLeastAsSevere(f, fs[0]) {
      InsertSameOrder(f, fs[1..]);
      assert AllData(fs)[1..] == AllData(fs[1..]);
    }
  }

  /** Sorting references by severity is sorting what they refer to. */
  lemma {:induction false} SortSameOrder(fs: seq<Finding>)
    ensures AllData(Ordering.Sort(AtLeastAsSevere, fs)) == Ordering.Sort(AtLeastAsSevere, AllData(fs))
  {
    if fs != [] {
      SortSameOrder(fs[1..]);
      assert AllData(fs)[1..] == AllData(fs[1..]);
      InsertSameOrder(fs[0], Ordering.Sort(AtLeastAsSevere, fs[1..]));
    }
  }

  /** p shares no array with what q owns. */
  ghost predicate Apart(p: VulnerablePackage, q: VulnerablePackage)
    reads p
  {
    && p.Owned() !! q.Owned()
    && p.locations !in q.Owned() && p.fixVersions !in q.Owned()
  }

  /** What a package relies on: nothing it owns is an input array, and its findings are inputs. */
  ghost predicate Sound(p: VulnerablePackage, inputs: seq<Finding>)
    reads p.Owned()
  {
    && p.Valid() && p.Owned() !! AllArrays(inputs)
    && forall f :: f in p.findings.items ==> f in inputs
  }

  lemma FewerArrays(fs: seq<Finding>, inputs: seq<Finding>)
    requires forall f :: f in fs ==> f in inputs
    ensures AllArrays(fs) <= AllArrays(inputs)
  {
  }

  /** Merging a finding into one package leaves every package apart from it as it was. */
  method MergeOne(p: VulnerablePackage, f: Finding, ghost others: set<VulnerablePackage>, ghost inputs: seq<Finding>)
    requires f in inputs && Sound(p, inputs)
    requires forall q :: q in others ==> Sound(q, inputs) && Apart(p, q) && Apart(q, p)
    modifies p.Owned()
    ensures Sound(p, inputs) && p.Data() == old(Merged(p.Data(), DataOf(f)))
    ensures forall q :: q in others ==> Sound(q, inputs) && Apart(p, q) && Apart(q, p)
    ensures forall q :: q in others ==> q.Data() == old(q.Data())
    ensures forall g :: g in inputs ==> DataOf(g) == old(DataOf(g))
  {
    hide Merged, AllData, AllArrays;
    ArraysWithin(inputs, f);
    p.MergeExistingFinding(f);
    FewerArrays(p.findings.items, inputs);
    forall g | g in inputs ensures DataOf(g) == old(DataOf(g)) { ArraysWithin(inputs, g); }
    forall q | q in others ensures q.Data() == old(q.Data()) {
      assert q.findings.items == old(q.findings.items);
      AllDataKept(q.findings.items);
    }
  }

  lemma StepCreates(projectId: string, ps: seq<PackageData>, d: FindingData)
    requires !HasPurl(ps, d.purl)
    ensures Step(projectId, ps, d) == ps + [Created(projectId, d)]
  {
  }

  lemma StepMerges(projectId: string, ps: seq<PackageData>, d: FindingData, k: nat)
    requires k < |ps| && ps[k].purl == d.purl
    requires forall i, j :: 0 <= i < j < |ps| ==> ps[i].purl != ps[j].purl
    ensures Step(projectId, ps, d) == ps[k := Merged(ps[k], d)]
  {
    hide Merged;
    assert HasPurl(ps, d.purl);
    assert forall i :: 0 <= i < |ps| && ps[i].purl == d.purl ==> i == k;
  }

  ghost function AllOwned(ps: seq<VulnerablePackage>): set<object> {
    set p, o | p in ps && o in p.Owned() :: o
  }

  /** The packages so far, in the order of their keys in pkgs, do not share what they write to and hold the data
      expected. */
  ghost predicate Holds(pkgs: map<string, VulnerablePackage>, packages: seq<VulnerablePackage>,
                        expected: seq<PackageData>, inputs: seq<Finding>)
    reads *
  {
    && (forall p :: p in packages ==> Sound(p, inputs) && p.purl in pkgs && pkgs[p.purl] == p)
    && (forall i, j :: 0 <= i < |packages| && 0 <= j < |packages| && i != j ==> Apart(packages[i], packages[j]))
    && (forall purl :: purl in pkgs ==> pkgs[purl].purl == purl && pkgs[purl] in packages)
    && |packages| == |expected|
    && (forall i :: 0 <= i < |packages| ==> packages[i].Data() == expected[i])
  }

  lemma PurlsOf(pkgs: map<string, VulnerablePackage>, packages: seq<VulnerablePackage>,
                expected: seq<PackageData>, inputs: seq<Finding>, purl: string)
    requires Holds(pkgs, packages, expected, inputs)
    ensures forall i, j :: 0 <= i < j < |expected| ==> expected[i].purl != expected[j].purl
    ensures HasPurl(expected, purl) <==> purl in pkgs
    ensures forall i :: 0 <= i < |packages| ==> expected[i].purl == packages[i].purl
  {
    hide Sound;
    forall i | 0 <= i < |expected| ensures expected[i].purl == packages[i].purl {}
    if HasPurl(expected, purl) {
      var i :| 0 <= i < |expected| && expected[i].purl == purl;
      assert packages[i] in packages;
    }
    if purl in pkgs {
      var i :| 0 <= i < |packages| && packages[i] == pkgs[purl];
      assert expected[i].purl == purl;
    }
    forall i, j | 0 <= i < j < |expected| ensures expected[i].purl != expected[j].purl {
      assert packages[i] in packages && packages[j] in packages && Apart(packages[i], packages[j]);
    }
  }

  lemma HoldsMeans(pkgs: map<string, VulnerablePackage>, packages: seq<VulnerablePackage>,
                   expected: seq<PackageData>, inputs: seq<Finding>)
    ensures Holds(map[], [], [], inputs)
    ensures Holds(pkgs, packages, expected, inputs) ==>
      && |packages| == |expected| && (forall i :: 0 <= i < |packages| ==> packages[i].Data() == expected[i])
      && (forall p :: p in packages ==> Sound(p, inputs))
      && (forall purl :: purl in pkgs ==> pkgs[purl] in packages)
      && (forall i, j :: 0 <= i < |packages| && 0 <= j < |packages| && i != j ==> Apart(packages[i], packages[j]))
  {
  }

  lemma HoldsWithNew(pkgs: map<string, VulnerablePackage>, packages: seq<VulnerablePackage>,
                     expected: seq<PackageData>, inputs: seq<Finding>, p: VulnerablePackage)
    requires Holds(pkgs, packages, expected, inputs) && p.purl !in pkgs && Sound(p, inputs)
    requires forall q :: q in packages ==> Apart(p, q) && Apart(q, p)
    ensures Holds(pkgs[p.purl := p], packages + [p], expected + [p.Data()], inputs)
  {
    hide Sound, Apart, VulnerablePackage.Data;
    assert p !in packages;
    var more := packages + [p];
    assert forall q :: q in more ==> q in packages || q == p;
    assert p == more[|packages|];
  }

  method CreateNew(projectId: string, pkgs: map<string, VulnerablePackage>, packages: seq<VulnerablePackage>,
                   f: Finding, ghost expected: seq<PackageData>, ghost inputs: seq<Finding>)
    returns (p: VulnerablePackage)
    requires Holds(pkgs, packages, expected, inputs) && f in inputs && f.purl !in pkgs
    ensures Holds(pkgs[f.purl := p], packages + [p], Step(projectId, expected, DataOf(f)), inputs)
    ensures fresh(p.Owned())
  {
    hide Step, HasPurl, VulnerablePackage.Data, Created;
    PurlsOf(pkgs, packages, expected, inputs, f.purl);
    StepCreates(projectId, expected, DataOf(f));
    p := new VulnerablePackage(projectId, f);
    assert Holds(pkgs, packages, expected, inputs);
    FewerArrays([f], inputs);
    forall q | q in packages ensures Apart(p, q) && Apart(q, p) {}
    HoldsWithNew(pkgs, packages, expected, inputs, p);
  }

  method MergeInto(projectId: string, ghost pkgs: map<string, VulnerablePackage>,
      ghost packages: seq<VulnerablePackage>,
                   p: VulnerablePackage, f: Finding, ghost expected: seq<PackageData>, ghost inputs: seq<Finding>)
    requires Holds(pkgs, packages, expected, inputs) && f in inputs && f.purl in pkgs && p == pkgs[f.purl]
    modifies p.Owned()
    ensures Holds(pkgs, packages, Step(projectId, expected, old(DataOf(f))), inputs)
    ensures forall g :: g in inputs ==> DataOf(g) == old(DataOf(g))
  {
    hide Step, HasPurl, VulnerablePackage.Data, Merged, Sound, Apart, AllArrays;
    PurlsOf(pkgs, packages, expected, inputs, f.purl);
    ghost var k :| 0 <= k < |packages| && packages[k] == p;
    StepMerges(projectId, expected, DataOf(f), k);
    ghost var others := set q | q in packages && q != p;
    MergeOne(p, f, others, inputs);
    assert forall i :: 0 <= i < |packages| && i != k ==> packages[i] in others;
  }

  method CreateOrMerge(projectId: string, pkgs: map<string, VulnerablePackage>, packages: seq<VulnerablePackage>,
                       f: Finding, ghost expected: seq<PackageData>, ghost inputs: seq<Finding>)
    returns (pkgs': map<string, VulnerablePackage>, packages': seq<VulnerablePackage>)
    requires Holds(pkgs, packages, expected, inputs) && f in inputs
    modifies AllOwned(packages)
    ensures Holds(pkgs', packages', Step(projectId, expected, old(DataOf(f))), inputs)
    ensures forall p :: p in packages' ==> p in packages || fresh(p.Owned())
    ensures forall g :: g in inputs ==> DataOf(g) == old(DataOf(g))
  {
    hide Step, Holds;
    pkgs', packages' := pkgs, packages;
    if f.purl !in pkgs {
      var p := CreateNew(projectId, pkgs, packages, f, expected, inputs);
      pkgs' := pkgs[f.purl := p];
      packages' := packages + [p];
    } else {
      HoldsMeans(pkgs, packages, expected, inputs);
      MergeInto(projectId, pkgs, packages, pkgs[f.purl], f, expected, inputs);
    }
  }

  lemma NoSteps(projectId: string)
    ensures Steps(projectId, []) == []
  {
  }

  lemma NextStep(projectId: string, ds: seq<FindingData>, n: nat)
    requires n < |ds|
    ensures Steps(projectId, ds[..n + 1]) == Step(projectId, Steps(projectId, ds[..n]), ds[n])
  {
    assert ds[..n + 1][..n] == ds[..n];
  }

  method GroupByPackage(projectId: string, findings: seq<Finding>) returns (packages: seq<VulnerablePackage>)
    ensures forall p :: p in packages ==> Sound(p, findings) && fresh(p.Owned())
    ensures forall i, j :: 0 <= i < |packages| && 0 <= j < |packages| && i != j ==> Apart(packages[i], packages[j])
    ensures var expected := old(Grouped(projectId, AllData(findings)));
      |packages| == |expected| && forall i :: 0 <= i < |packages| ==> packages[i].Data() == expected[i]
  {
    hide Steps, Step, AllData, DataOf, Holds, VulnerablePackage.Data;
    var sFindings := Ordering.Sort(AtLeastAsSevere, findings);
    Ordering.SortKeepsElements(AtLeastAsSevere, findings);
    SortSameOrder(findings);
    ghost var ds := AllData(sFindings);
    NoSteps(projectId);
    var pkgs: map<string, VulnerablePackage> := map[];
    packages := [];
    HoldsMeans(pkgs, packages, [], findings);
    for n := 0 to |sFindings|
      invariant forall i :: 0 <= i < |ds| ==> DataOf(sFindings[i]) == ds[i]
      invariant Holds(pkgs, packages, Steps(projectId, ds[..n]), findings)
      invariant forall p :: p in packages ==> fresh(p.Owned())
    {
      NextStep(projectId, ds, n);
      pkgs, packages := CreateOrMerge(projectId, pkgs, packages, sFindings[n], Steps(projectId, ds[..n]), findings);
    }
    assert ds[..|sFindings|] == ds;
    HoldsMeans(pkgs, packages, Steps(projectId, ds), findings);
  }
}
