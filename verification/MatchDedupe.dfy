/** Turning scanner matches into findings to insert: one for each slug. */
module MatchDedupe {
  import opened Options
  import Ordering
  import Text

  datatype Match = Match(
    vulnerabilityId: string, namespace: string, severity: Option<string>,
    fixState: Option<string>, fixVersions: Option<seq<string>>,
    artifactName: string, artifactVersion: string, artifactType: string, language: string, purl: string,
    virtualPath: Option<string>, locations: seq<string>, versionConstraint: string, matcher: string)

  datatype FindingInput = FindingInput(
    packageName: string, version: string, versionMatcher: string, typ: string, locations: string, language: string,
    purl: string, severity: string, virtualPath: Option<string>, matcher: string, dedupeSlug: string,
    fixState: string, fixVersions: Option<string>, buildId: string, vulnerabilityId: string)

  // ----- array literals -----

  function Escaped(c: char): string {
    if c == '"' then ['\\', '"'] else [c]
  }

  function EscapeQuotes(s: string): string {
    if s == "" then "" else Escaped(s[0]) + EscapeQuotes(s[1..])
  }

  function Quoted(s: string): string {
    ['"'] + EscapeQuotes(s) + ['"']
  }

  function QuotedAll(elements: seq<string>): (r: seq<string>)
    ensures |r| == |elements|
  {
    seq(|elements|, i requires 0 <= i < |elements| => Quoted(elements[i]))
  }

  function FormatPsqlStringArray(elements: seq<string>): string {
    "{" + Text.Join(QuotedAll(elements), ", ") + "}"
  }

  // ----- findings -----

  /** JavaScript's "value || fallback" on strings. */
  function Or(value: Option<string>, fallback: string): string {
    if value.GetOr("") == "" then fallback else value.value
  }

  function Slug(m: Match): string {
    m.vulnerabilityId + ":" + m.namespace + ":" + m.artifactName
    + Text.Join(Ordering.Sort(Ordering.StringLe, m.locations), ":")
  }

  function MapMatch(buildId: string, m: Match): FindingInput {
    FindingInput(m.artifactName, m.artifactVersion, m.versionConstraint, m.artifactType,
      FormatPsqlStringArray(m.locations), m.language, m.purl, Or(m.severity, "Unknown"), m.virtualPath, m.matcher,
      Slug(m), Or(m.fixState, "unknown"),
      if m.fixVersions.Some? then Some(FormatPsqlStringArray(m.fixVersions.value)) else None,
      buildId, m.vulnerabilityId)
  }

  function MapAll(buildId: string, ms: seq<Match>): (fs: seq<FindingInput>)
    ensures |fs| == |ms|
  {
    seq(|ms|, i requires 0 <= i < |ms| => MapMatch(buildId, ms[i]))
  }

  /** Where each field of an inserted finding comes from. */
  lemma FindingOfMatch(buildId: string, m: Match)
    ensures var f := MapMatch(buildId, m);
      && f.packageName == m.artifactName && f.version == m.artifactVersion && f.typ == m.artifactType
      && f.language == m.language && f.purl == m.purl && f.virtualPath == m.virtualPath
      && f.versionMatcher == m.versionConstraint && f.matcher == m.matcher
      && f.vulnerabilityId == m.vulnerabilityId && f.buildId == buildId
      && f.dedupeSlug == m.vulnerabilityId + ":" + m.namespace + ":" + m.artifactName
        + Text.Join(Ordering.Sort(Ordering.StringLe, m.locations), ":")
      && (m.severity.None? || m.severity.value == "" ==> f.severity == "Unknown")
      && (m.severity.Some? && m.severity.value != "" ==> f.severity == m.severity.value)
      && (m.fixState.None? || m.fixState.value == "" ==> f.fixState == "unknown")
      && (m.fixState.Some? && m.fixState.value != "" ==> f.fixState == m.fixState.value)
      && f.locations == FormatPsqlStringArray(m.locations)
      && (m.fixVersions.None? ==> f.fixVersions == None)
      && (m.fixVersions.Some? ==> f.fixVersions == Some(FormatPsqlStringArray(m.fixVersions.value)))
  {
    hide FormatPsqlStringArray, Text.Join, Ordering.Sort;
  }

  predicate HasSlug(fs: seq<FindingInput>, slug: string) {
    exists f :: f in fs && f.dedupeSlug == slug
  }

  /** The values of the record that the reduction builds, in the order its keys are first set. */
  function Deduped(fs: seq<FindingInput>): seq<FindingInput> {
    if fs == [] then []
    else
      var before, last := Deduped(fs[..|fs| - 1]), fs[|fs| - 1];
      if last.dedupeSlug == "" || HasSlug(before, last.dedupeSlug) then before else before + [last]
  }

  function MapGrypeMatchesToGraphqlFindings(buildId: string, matches: seq<Match>): seq<FindingInput> {
    Deduped(MapAll(buildId, matches))
  }

  /** The finding at i is the first of all with its slug. */
  ghost predicate FirstWithSlug(fs: seq<FindingInput>, i: nat) {
    i < |fs| && forall j :: 0 <= j < i ==> fs[j].dedupeSlug != fs[i].dedupeSlug
  }

  lemma {:induction false} DedupedKeepsFirst(fs: seq<FindingInput>)
    requires forall f :: f in fs ==> f.dedupeSlug != ""
    ensures forall i, j :: 0 <= i < j < |Deduped(fs)| ==> Deduped(fs)[i].dedupeSlug != Deduped(fs)[j].dedupeSlug
    ensures forall f :: f in Deduped(fs) <==> exists i: nat :: FirstWithSlug(fs, i) && fs[i] == f
    ensures forall s :: HasSlug(Deduped(fs), s) <==> HasSlug(fs, s)
  {
    if fs != [] {
      var n := |fs| - 1;
      var init, last := fs[..n], fs[n];
      assert fs == init + [last];
      DedupedKeepsFirst(init);
      var before := Deduped(init);
      forall s ensures HasSlug(Deduped(fs), s) <==> HasSlug(fs, s) {
        assert HasSlug(fs, s) <==> HasSlug(init, s) || last.dedupeSlug == s;
        assert HasSlug(before + [last], s) <==> HasSlug(before, s) || last.dedupeSlug == s;
      }
      LastIsFirstIff(fs);
      forall i: nat | i < n ensures FirstWithSlug(fs, i) <==> FirstWithSlug(init, i) {}
      forall f ensures f in Deduped(fs) <==> exists i: nat :: FirstWithSlug(fs, i) && fs[i] == f {
        if f in before {
          var i: nat :| FirstWithSlug(init, i) && init[i] == f;
          assert FirstWithSlug(fs, i) && fs[i] == f;
        }
        if i: nat :| FirstWithSlug(fs, i) && fs[i] == f {
          if i < n { assert FirstWithSlug(init, i) && init[i] == f; }
        }
      }
    }
  }

  lemma LastIsFirstIff(fs: seq<FindingInput>)
    requires fs != []
    ensures FirstWithSlug(fs, |fs| - 1) <==> !HasSlug(fs[..|fs| - 1], fs[|fs| - 1].dedupeSlug)
  {
    var init := fs[..|fs| - 1];
    if FirstWithSlug(fs, |fs| - 1) {
      forall f | f in init ensures f.dedupeSlug != fs[|fs| - 1].dedupeSlug {
        var j :| 0 <= j < |init| && init[j] == f;
        assert fs[j] == f;
      }
    } else {
      var j :| 0 <= j < |fs| - 1 && fs[j].dedupeSlug == fs[|fs| - 1].dedupeSlug;
      assert init[j] == fs[j];
    }
  }

  lemma SlugNotEmpty(m: Match)
    ensures Slug(m) != ""
  {
  }

  /** f is what some match becomes, and no earlier match has that match's slug. */
  ghost predicate FromFirstMatch(buildId: string, matches: seq<Match>, f: FindingInput) {
    exists i | 0 <= i < |matches| ::
      f == MapMatch(buildId, matches[i]) && (forall j :: 0 <= j < i ==> Slug(matches[j]) != Slug(matches[i]))
  }

  /** The inserted findings have pairwise different slugs, every match's slug is among them,
      and each is the finding of the first match with its slug. */
  lemma EachSlugOnce(buildId: string, matches: seq<Match>)
    ensures var out := MapGrypeMatchesToGraphqlFindings(buildId, matches);
      && (forall i, j :: 0 <= i < j < |out| ==> out[i].dedupeSlug != out[j].dedupeSlug)
      && (forall m :: m in matches ==> HasSlug(out, Slug(m)))
      && (forall f :: f in out ==> FromFirstMatch(buildId, matches, f))
  {
    var fs := MapAll(buildId, matches);
    forall f | f in fs ensures f.dedupeSlug != "" {
      var i :| 0 <= i < |fs| && fs[i] == f;
      SlugNotEmpty(matches[i]);
    }
    DedupedKeepsFirst(fs);
    forall m | m in matches ensures HasSlug(fs, Slug(m)) {
      var i :| 0 <= i < |matches| && matches[i] == m;
      assert fs[i] in fs;
    }
    forall f | f in Deduped(fs)
      ensures FromFirstMatch(buildId, matches, f)
    {
      var i: nat :| FirstWithSlug(fs, i) && fs[i] == f;
      assert f == MapMatch(buildId, matches[i]);
      forall j | 0 <= j < i ensures Slug(matches[j]) != Slug(matches[i]) {
        assert fs[j].dedupeSlug != fs[i].dedupeSlug;
      }
    }
  }

  /** The slug does not depend on the order of a match's locations. */
  lemma LocationOrderIrrelevant(m: Match, locations: seq<string>)
    requires multiset(locations) == multiset(m.locations)
    ensures Slug(m.(locations := locations)) == Slug(m)
  {
    Ordering.StringOrder();
    Ordering.SortCanonical(Ordering.StringLe, locations, m.locations);
  }

  // ----- when different matches share a slug -----

  const COLON := ":"

  /** y goes on where x ends, with a colon and what r begins with. */
  predicate ContinuesInto(x: string, r: string, y: string, s: string) {
    |x| < |y| && y[..|x| + 1] == x + COLON && r == y[|x| + 1..] + COLON + s
  }

  lemma ContinuedIsEqual(x: string, r: string, y: string, s: string)
    requires ContinuesInto(x, r, y, s)
    ensures x + COLON + r == y + COLON + s
  {
    assert y == x + COLON + y[|x| + 1..];
    Text.Associate(x + COLON, y[|x| + 1..] + COLON, s);
    Text.Associate(x + COLON, y[|x| + 1..], COLON);
  }

  lemma LongerContinues(x: string, r: string, y: string, s: string)
    requires |x| < |y| && x + COLON + r == y + COLON + s
    ensures ContinuesInto(x, r, y, s)
  {
    var all := x + COLON + r;
    assert all[..|x| + 1] == x + COLON && all[|x| + 1..] == r;
    assert (y + COLON + s)[..|x| + 1] == y[..|x| + 1];
    assert (y + COLON + s)[|x| + 1..] == y[|x| + 1..] + COLON + s;
  }

  lemma SameLengthSame(x: string, r: string, y: string, s: string)
    requires |x| == |y| && x + COLON + r == y + COLON + s
    ensures x == y && r == s
  {
    assert (x + COLON + r)[..|x|] == x && (y + COLON + s)[..|y|] == y;
    assert (x + COLON + r)[|x| + 1..] == r && (y + COLON + s)[|y| + 1..] == s;
  }

  lemma JoinedByColonIff(x: string, r: string, y: string, s: string)
    ensures x + COLON + r == y + COLON + s
      <==> (x == y && r == s) || ContinuesInto(x, r, y, s) || ContinuesInto(y, s, x, r)
  {
    hide ContinuesInto;
    if ContinuesInto(x, r, y, s) { ContinuedIsEqual(x, r, y, s); }
    if ContinuesInto(y, s, x, r) { ContinuedIsEqual(y, s, x, r); }
    if x + COLON + r == y + COLON + s {
      if |x| < |y| {
        LongerContinues(x, r, y, s);
      } else if |y| < |x| {
        LongerContinues(y, s, x, r);
      } else {
        SameLengthSame(x, r, y, s);
      }
    }
  }

  /** The name and the locations follow each other without a separator. */
  function PackageText(m: Match): string {
    m.artifactName + Text.Join(Ordering.Sort(Ordering.StringLe, m.locations), COLON)
  }

  function AfterId(m: Match): string {
    m.namespace + COLON + PackageText(m)
  }

  lemma SlugParts(m: Match)
    ensures Slug(m) == m.vulnerabilityId + COLON + AfterId(m)
  {
    hide Text.Join, Ordering.Sort;
    var id, locations := m.vulnerabilityId, Text.Join(Ordering.Sort(Ordering.StringLe, m.locations), COLON);
    Text.Associate(id + COLON + m.namespace + COLON, m.artifactName, locations);
    Text.Associate(id + COLON + m.namespace, COLON, PackageText(m));
    Text.Associate(id + COLON, m.namespace, COLON + PackageText(m));
    Text.Associate(m.namespace, COLON, PackageText(m));
  }

  /** Matches of different vulnerabilities share a slug, so that one of them is dropped, exactly when one id is
      the other one continued by a colon and the beginning of what follows it. */
  lemma VulnerabilitiesShareSlugIff(a: Match, b: Match)
    requires a.vulnerabilityId != b.vulnerabilityId
    ensures Slug(a) == Slug(b) <==>
      ContinuesInto(a.vulnerabilityId, AfterId(a), b.vulnerabilityId, AfterId(b))
      || ContinuesInto(b.vulnerabilityId, AfterId(b), a.vulnerabilityId, AfterId(a))
  {
    hide Slug, AfterId, ContinuesInto;
    SlugParts(a);
    SlugParts(b);
    JoinedByColonIff(a.vulnerabilityId, AfterId(a), b.vulnerabilityId, AfterId(b));
  }

  /** Ids and namespaces of one vulnerability being equal, the slug tells apart exactly what the package name run
      together with the sorted locations tells apart. */
  lemma PackagesShareSlugIff(a: Match, b: Match)
    requires a.vulnerabilityId == b.vulnerabilityId && a.namespace == b.namespace
    ensures Slug(a) == Slug(b) <==> PackageText(a) == PackageText(b)
  {
    hide Slug, PackageText, ContinuesInto;
    SlugParts(a);
    SlugParts(b);
    JoinedByColonIff(a.vulnerabilityId, AfterId(a), b.vulnerabilityId, AfterId(b));
    JoinedByColonIff(a.namespace, PackageText(a), b.namespace, PackageText(b));
    NotInto(a.vulnerabilityId, AfterId(a), AfterId(b));
    NotInto(a.vulnerabilityId, AfterId(b), AfterId(a));
    NotInto(a.namespace, PackageText(a), PackageText(b));
    NotInto(a.namespace, PackageText(b), PackageText(a));
  }

  /** The same for one vulnerability in two namespaces, which may contain colons. */
  lemma NamespacesShareSlugIff(a: Match, b: Match)
    requires a.vulnerabilityId == b.vulnerabilityId && a.namespace != b.namespace
    ensures Slug(a) == Slug(b) <==>
      ContinuesInto(a.namespace, PackageText(a), b.namespace, PackageText(b))
      || ContinuesInto(b.namespace, PackageText(b), a.namespace, PackageText(a))
  {
    hide Slug, PackageText, ContinuesInto;
    SlugParts(a);
    SlugParts(b);
    JoinedByColonIff(a.vulnerabilityId, AfterId(a), b.vulnerabilityId, AfterId(b));
    JoinedByColonIff(a.namespace, PackageText(a), b.namespace, PackageText(b));
    NotInto(a.vulnerabilityId, AfterId(a), AfterId(b));
    NotInto(a.vulnerabilityId, AfterId(b), AfterId(a));
  }

  lemma NotInto(x: string, r: string, s: string)
    ensures !ContinuesInto(x, r, x, s)
  {
  }

  /** Without a colon in the ids, different vulnerabilities never share a slug. */
  lemma PlainIdsKeepApart(a: Match, b: Match)
    requires a.vulnerabilityId != b.vulnerabilityId && ':' !in a.vulnerabilityId && ':' !in b.vulnerabilityId
    ensures Slug(a) != Slug(b)
  {
    hide Slug, AfterId;
    VulnerabilitiesShareSlugIff(a, b);
    NoColonNotInto(a.vulnerabilityId, AfterId(a), b.vulnerabilityId, AfterId(b));
    NoColonNotInto(b.vulnerabilityId, AfterId(b), a.vulnerabilityId, AfterId(a));
  }

  lemma NoColonNotInto(x: string, r: string, y: string, s: string)
    requires ':' !in y
    ensures !ContinuesInto(x, r, y, s)
  {
    if |x| < |y| { assert y[..|x| + 1][|x|] == y[|x|] && (x + COLON)[|x|] == ':'; }
  }

  /** Two packages with one slug: only the first of these matches is inserted. */
  lemma NameRunsIntoLocation(m: Match)
    ensures var a := m.(artifactName := "a", locations := ["b/x"]);
      var b := m.(artifactName := "ab", locations := ["/x"]);
      Slug(a) == Slug(b)
  {
    hide Slug;
    var a, b := m.(artifactName := "a", locations := ["b/x"]), m.(artifactName := "ab", locations := ["/x"]);
    assert a.locations[1..] == [] && b.locations[1..] == [];
    assert PackageText(a) == "a" + "b/x" && PackageText(b) == "ab" + "/x";
    PackagesShareSlugIff(a, b);
  }
}
