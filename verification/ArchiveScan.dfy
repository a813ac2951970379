/** Scanning an archive and the archives in it for classes with known hashes. */
module ArchiveScan {
  import opened Options
  import opened Archive
  import opened ZipNames
  import Text

  datatype VulnerableHash = VulnerableHash(version: string, cve: string)

  datatype Finding = Finding(
    path: string, fileName: string, hash: string,
    jndiLookupFileName: string, jndiLookupHash: string,
    version: string, cve: string, severity: string)

  /** The working directory, SHA-256 in hexadecimal, the table of known hashes, and the test of one version string
      against the range ">=2.0.0" (false when it does not parse). */
  datatype Scanner = Scanner(
    workingDir: string,
    hash: Content -> string,
    lookup: map<string, VulnerableHash>,
    isPatchFileVersion: string -> bool)

  /** A digest in hexadecimal is never the empty string. */
  ghost predicate HashNeverEmpty(sc: Scanner) {
    forall c :: sc.hash(c) != ""
  }

  const PATH_SEPARATOR := "::"
  const VERSION_SEPARATOR := ", "

  function Severity(cve: string): string {
    if cve == "CVE-2021-44228" then "10.0"
    else if cve == "CVE-2021-45046" then "9.0"
    else if cve == "CVE-2021-45105" then "5.9"
    else if cve == "CVE-2019-17571" then "9.8"
    else ""
  }

  predicate IsVulnerableIfContainsJndiLookup(sc: Scanner, versions: seq<string>) {
    exists v :: v in versions && sc.isPatchFileVersion(v)
  }

  predicate Patchable(sc: Scanner, version: string) {
    IsVulnerableIfContainsJndiLookup(sc, Text.Split(version, VERSION_SEPARATOR))
  }

  /** The hash of the JndiLookup class next to the scanned file, or "" when there is none. */
  function GetJndiLookupHash(sc: Scanner, all: seq<Member>): string {
    var found := Open(all, JNDI_LOOKUP);
    if found == [] then "" else sc.hash(found[0])
  }

  function Identify(sc: Scanner, path: string, all: seq<Member>, m: Member): (r: Option<Finding>) {
    var fileHash := sc.hash(m.body);
    if fileHash !in sc.lookup then None
    else
      var info := sc.lookup[fileHash];
      var jndiLookupHash := GetJndiLookupHash(sc, all);
      if jndiLookupHash == "" && Patchable(sc, info.version) then None
      else
        var absolutePath := Abs(sc.workingDir, path);
        Some(Finding(absolutePath, m.name, fileHash, JNDI_LOOKUP, jndiLookupHash, info.version, info.cve,
                     Severity(info.cve)))
  }

  /** A finding together with the chain of names that leads to its archive. */
  datatype Located = Located(where: seq<string>, finding: Finding)

  function PathOf(where: seq<string>): string {
    Text.Join(where, PATH_SEPARATOR)
  }

  /** The findings of an archive: those of its members in order. */
  function ScanArchive(sc: Scanner, where: seq<string>, all: seq<Member>, ms: seq<Member>): seq<Located>
    decreases ms, 0
  {
    if ms == [] then [] else ScanMember(sc, where, all, ms[0]) + ScanArchive(sc, where, all, ms[1..])
  }

  /** A directory reads as empty, so it is never entered. */
  function ScanMember(sc: Scanner, where: seq<string>, all: seq<Member>, m: Member): seq<Located>
    decreases m, 1
  {
    if IsClassName(m.name) then
      match Identify(sc, PathOf(where), all, m)
      case None => []
      case Some(f) => [Located(where, f)]
    else if Entered(m, m.name) && IsArchiveName(m.name) then
      ScanArchive(sc, where + [m.name], m.body.members, m.body.members)
    else []
  }

  function ScanContent(sc: Scanner, where: seq<string>, c: Content): seq<Located> {
    if c.Zip? then ScanArchive(sc, where, c.members, c.members) else []
  }

  function Findings(ls: seq<Located>): (fs: seq<Finding>)
    ensures |fs| == |ls|
  {
    seq(|ls|, i requires 0 <= i < |ls| => ls[i].finding)
  }

  lemma PathOfNested(where: seq<string>, name: string)
    requires where != []
    ensures PathOf(where + [name]) == PathOf(where) + PATH_SEPARATOR + name
    decreases where
  {
    if |where| > 1 {
      assert (where + [name])[1..] == where[1..] + [name];
      PathOfNested(where[1..], name);
    } else {
      assert where == [where[0]] && (where + [name])[1..] == [name];
      assert Text.Join([name], PATH_SEPARATOR) == name && Text.Join(where, PATH_SEPARATOR) == where[0];
    }
  }

  // ----- the loop, as the program runs it -----

  method ScanArchiveForVulnerableFiles(sc: Scanner, path: string, content: Content, ghost where: seq<string>)
    returns (findings: seq<Finding>)
    requires where != [] && path == PathOf(where)
    ensures findings == Findings(ScanContent(sc, where, content))
    decreases content, 1
  {
    findings := [];
    if content.Plain? { return; }
    var ms := content.members;
    for i := 0 to |ms|
      invariant findings + Findings(ScanArchive(sc, where, ms, ms[i..])) == Findings(ScanArchive(sc, where, ms, ms))
    {
      var locatedFindings := ScanFile(sc, path, ms, ms[i], where);
      assert ms[i..][0] == ms[i] && ms[i..][1..] == ms[i + 1..];
      FindingsAppend(ScanMember(sc, where, ms, ms[i]), ScanArchive(sc, where, ms, ms[i + 1..]));
      findings := findings + locatedFindings;
    }
  }

  method ScanFile(sc: Scanner, path: string, all: seq<Member>, file: Member, ghost where: seq<string>)
    returns (findings: seq<Finding>)
    requires where != [] && path == PathOf(where)
    ensures findings == Findings(ScanMember(sc, where, all, file))
    decreases file, 0
  {
    if IsClassName(file.name) {
      var finding := Identify(sc, path, all, file);
      return if finding.Some? then [finding.value] else [];
    } else if IsArchiveName(file.name) && !file.isDir {
      PathOfNested(where, file.name);
      findings := ScanArchiveForVulnerableFiles(sc, path + PATH_SEPARATOR + file.name, file.body, where + [file.name]);
    } else {
      return [];
    }
  }

  lemma FindingsAppend(a: seq<Located>, b: seq<Located>)
    ensures Findings(a + b) == Findings(a) + Findings(b)
  {
  }

  // ----- what a finding says -----

  ghost predicate Under(sc: Scanner, where: seq<string>, ls: seq<Located>) {
    forall l :: l in ls ==>
      && where <= l.where && l.finding.path == Abs(sc.workingDir, PathOf(l.where))
      && l.finding.jndiLookupFileName == JNDI_LOOKUP
  }

  lemma {:induction false} ScanUnder(sc: Scanner, where: seq<string>, all: seq<Member>, ms: seq<Member>)
    ensures Under(sc, where, ScanArchive(sc, where, all, ms))
    decreases ms, 0
  {
    hide Abs;
    if ms != [] {
      ScanMemberUnder(sc, where, all, ms[0]);
      ScanUnder(sc, where, all, ms[1..]);
    }
  }

  lemma {:induction false} ScanMemberUnder(sc: Scanner, where: seq<string>, all: seq<Member>, m: Member)
    ensures Under(sc, where, ScanMember(sc, where, all, m))
    ensures IsArchiveName(m.name) && !IsClassName(m.name) ==> Under(sc, where + [m.name], ScanMember(sc, where, all, m))
    decreases m, 1
  {
    hide Abs;
    if !IsClassName(m.name) && IsArchiveName(m.name) && Entered(m, m.name) {
      ScanUnder(sc, where + [m.name], m.body.members, m.body.members);
      assert where <= where + [m.name];
    }
  }

  /** The finding is what the scanner makes of some class in this archive. */
  ghost predicate ReportedIn(sc: Scanner, ms: seq<Member>, l: Located) {
    exists m :: m in ms && IsClassName(m.name) && Identify(sc, PathOf(l.where), ms, m) == Some(l.finding)
  }

  /** A class is reported if its hash is known, unless no file is listed as the JndiLookup class beside it and one of
      the versions known for the hash is in the range. */
  lemma ReportedUnlessPatched(sc: Scanner, path: string, all: seq<Member>, m: Member)
    requires HashNeverEmpty(sc)
    ensures Identify(sc, path, all, m).Some? <==>
      && sc.hash(m.body) in sc.lookup
      && ((exists n :: n in all && !n.isDir && ListedName(n.name) == JNDI_LOOKUP)
          || forall v :: v in Text.Split(sc.lookup[sc.hash(m.body)].version, ", ") ==> !sc.isPatchFileVersion(v))
  {
    hide ListedName, Abs, Text.Join, Text.Split, ValidPath;
    JndiLookupIsProper();
    ListedIff(all, JNDI_LOOKUP);
  }

  lemma {:induction false} ListedIff(ms: seq<Member>, name: string)
    ensures Listed(ms, name) != [] <==> exists n :: n in ms && !n.isDir && ListedName(n.name) == name
  {
    hide ListedName;
    if ms != [] {
      ListedIff(ms[1..], name);
      assert ms == [ms[0]] + ms[1..];
    }
  }

  /** Version and CVE are those of the known hash, and each CVE has its score. */
  ghost predicate Explained(sc: Scanner, f: Finding) {
    && f.hash in sc.lookup && f.version == sc.lookup[f.hash].version && f.cve == sc.lookup[f.hash].cve
    && (f.cve == "CVE-2021-44228" ==> f.severity == "10.0")
    && (f.cve == "CVE-2021-45046" ==> f.severity == "9.0")
    && (f.cve == "CVE-2021-45105" ==> f.severity == "5.9")
    && (f.cve == "CVE-2019-17571" ==> f.severity == "9.8")
    && (f.cve !in {"CVE-2021-44228", "CVE-2021-45046", "CVE-2021-45105", "CVE-2019-17571"} ==> f.severity == "")
  }

  lemma {:induction false} FindingExplained(sc: Scanner, where: seq<string>, all: seq<Member>, ms: seq<Member>,
      l: Located)
    requires l in ScanArchive(sc, where, all, ms)
    ensures Explained(sc, l.finding)
    decreases ms
  {
    hide Abs, GetJndiLookupHash, Patchable, FileExt, Text.Join;
    var m := ms[0];
    if l in ScanMember(sc, where, all, m) {
      if !IsClassName(m.name) { FindingExplained(sc, where + [m.name], m.body.members, m.body.members, l); }
    } else {
      FindingExplained(sc, where, all, ms[1..], l);
    }
  }

  /** The nested path of the finding leads, by archive names, to an archive that holds the reported class, and the
      reported hash is the one of the JndiLookup class listed in that archive; the patcher can open the path
      exactly when each of its steps is a proper name. */
  ghost predicate LeadsToArchive(sc: Scanner, where: seq<string>, all: seq<Member>, l: Located) {
    where <= l.where &&
    var path := l.where[|where|..];
    && ArchivePath(path) && Reached(all, path)
    && (PathOpens(all, path) <==> ProperPath(path))
    && GetJndiLookupHash(sc, MembersAt(all, path)) == l.finding.jndiLookupHash
    && ReportedIn(sc, MembersAt(all, path), l)
    && exists m :: m in MembersAt(all, path) && m.name == l.finding.fileName && sc.hash(m.body) == l.finding.hash
  }

  lemma ClassFinding(sc: Scanner, where: seq<string>, all: seq<Member>, m: Member, l: Located)
    requires m in all && IsClassName(m.name) && l in ScanMember(sc, where, all, m)
    ensures LeadsToArchive(sc, where, all, l)
  {
    hide FileExt, GetJndiLookupHash, Text.Join, Proper, Abs;
    assert l.where[|where|..] == [] && l.where == where;
  }

  lemma NestedFinding(sc: Scanner, where: seq<string>, all: seq<Member>, m: Member, l: Located)
    requires Tidy(all) && m in all && Entered(m, m.name) && IsArchiveName(m.name)
    requires LeadsToArchive(sc, where + [m.name], m.body.members, l)
    ensures LeadsToArchive(sc, where, all, l)
  {
    hide FileExt, ListedName, Proper, GetJndiLookupHash, Tidy, PathOpens, ReportedIn;
    var path := l.where[|where|..];
    assert path[0] == m.name && path[1..] == l.where[|where + [m.name]|..];
    assert path == [m.name] + path[1..];
    OpensThrough(all, m, path);
  }

  lemma {:induction false} FindingLeadsToArchive(sc: Scanner, where: seq<string>, all: seq<Member>,
      ms: seq<Member>, l: Located)
    requires HashNeverEmpty(sc) && Tidy(all) && (forall m :: m in ms ==> m in all)
    requires l in ScanArchive(sc, where, all, ms)
    ensures LeadsToArchive(sc, where, all, l)
    decreases ms
  {
    hide FileExt, ListedName, Proper, LeadsToArchive, Identify;
    var m := ms[0];
    if l in ScanMember(sc, where, all, m) {
      if IsClassName(m.name) {
        ClassFinding(sc, where, all, m, l);
      } else {
        NotADirectory(all, m);
        FindingLeadsToArchive(sc, where + [m.name], m.body.members, m.body.members, l);
        NestedFinding(sc, where, all, m, l);
      }
    } else {
      FindingLeadsToArchive(sc, where, all, ms[1..], l);
    }
  }

  /** The scan misses no class: whatever it makes of a class, in an archive to which archive names lead, it reports. */
  lemma {:induction false} ReportedIsFound(sc: Scanner, where: seq<string>, path: seq<string>, all: seq<Member>,
      ms: seq<Member>, l: Located)
    requires ArchivePath(path) && l.where == where + path
    requires var there := if path == [] then all else MembersAt(ms, path);
      exists m :: m in MembersAt(ms, path) && IsClassName(m.name)
        && Identify(sc, PathOf(l.where), there, m) == Some(l.finding)
    ensures l in ScanArchive(sc, where, all, ms)
    decreases ms
  {
    hide FileExt, Identify, Text.Join, ReportedIn;
    assert path == [] ==> where + path == where;
    if path != [] && Entered(ms[0], path[0]) {
      assert path[0] in path && where + path == where + [path[0]] + path[1..];
      var inner := ms[0].body.members;
      assert path[1..] == [] ==> MembersAt(inner, path[1..]) == inner;
      ReportedIsFound(sc, where + [path[0]], path[1..], inner, inner, l);
    } else if l !in ScanMember(sc, where, all, ms[0]) {
      ReportedIsFound(sc, where, path, all, ms[1..], l);
    }
  }

  /** The findings of a scan are exactly what the scanner makes of the classes in the archive itself and in those to
      which archive names lead. */
  lemma ScanFindsExactly(sc: Scanner, where: seq<string>, ms: seq<Member>, l: Located)
    requires HashNeverEmpty(sc) && Tidy(ms)
    ensures l in ScanArchive(sc, where, ms, ms) <==>
      && where <= l.where && ArchivePath(l.where[|where|..])
      && ReportedIn(sc, MembersAt(ms, l.where[|where|..]), l)
  {
    hide FileExt, Identify, Text.Join, ScanArchive, Proper, Tidy;
    if l in ScanArchive(sc, where, ms, ms) {
      FindingLeadsToArchive(sc, where, ms, ms, l);
    } else if where <= l.where && ArchivePath(l.where[|where|..]) {
      var path := l.where[|where|..];
      assert l.where == where + path && (path == [] ==> MembersAt(ms, path) == ms);
      if ReportedIn(sc, MembersAt(ms, path), l) { ReportedIsFound(sc, where, path, ms, ms, l); }
    }
  }

  lemma {:induction false} MemberScanned(sc: Scanner, where: seq<string>, all: seq<Member>, ms: seq<Member>,
      m: Member, l: Located)
    requires m in ms && l in ScanMember(sc, where, all, m)
    ensures l in ScanArchive(sc, where, all, ms)
    decreases ms
  {
    if m != ms[0] { MemberScanned(sc, where, all, ms[1..], m, l); }
  }

  /** What the scanner makes of a class in an archive named stem.jar, .war, .zip or .ear is found from outside. */
  lemma NestedClassFound(sc: Scanner, where: seq<string>, ms: seq<Member>, outer: Member, m: Member, f: Finding,
      stem: string, ext: string, class': string)
    requires outer in ms && outer.name == stem + ext && ext in {".jar", ".war", ".zip", ".ear"}
    requires !outer.isDir && outer.body.Zip? && m in outer.body.members && m.name == class' + ".class"
    requires Identify(sc, PathOf(where + [outer.name]), outer.body.members, m) == Some(f)
    ensures Located(where + [outer.name], f) in ScanArchive(sc, where, ms, ms)
  {
    hide Identify, IsClassName, IsArchiveName, ToLower, Text.Join;
    var l, inner := Located(where + [outer.name], f), outer.body.members;
    assert outer.name[|outer.name| - 4..] == ext && m.name[|m.name| - 6..] == ".class";
    LowerExtensions(ext);
    ArchiveNameIff(outer.name);
    ClassNameIff(m.name);
    ArchiveIsNoClass(outer.name);
    MemberScanned(sc, l.where, inner, inner, m, l);
    MemberScanned(sc, where, ms, ms, outer, l);
  }

  lemma LowerExtensions(ext: string)
    requires ext in {".jar", ".war", ".zip", ".ear"}
    ensures ToLower(ext) == ext && ToLower(".class") == ".class"
  {
  }

  lemma ArchiveIsNoClass(name: string)
    ensures !(IsArchiveName(name) && IsClassName(name))
  {
    hide FileExt;
  }

  /** Each member that the first step of the path names is an archive which opens under that name, and the rest of
      the path opens in it. */
  ghost predicate PathOpens(ms: seq<Member>, path: seq<string>)
    decreases |path|
  {
    path == [] ||
    forall m :: m in ms && m.name == path[0] ==>
      Proper(m.name) && !m.isDir && m.body.Zip? && PathOpens(m.body.members, path[1..])
  }

  /** There is an archive at the end of the path. */
  ghost predicate Reached(ms: seq<Member>, path: seq<string>)
    decreases |path|
  {
    path == [] || exists m :: m in ms && Entered(m, path[0]) && Reached(m.body.members, path[1..])
  }

  predicate ProperPath(path: seq<string>) {
    forall n :: n in path ==> Proper(n)
  }

  lemma NotADirectory(all: seq<Member>, m: Member)
    requires Tidy(all) && m in all && m.body.Zip?
    ensures !m.isDir && Tidy(m.body.members)
  {
  }

  lemma {:induction false} UniqueMember(all: seq<Member>, m: Member, n: Member)
    requires Tidy(all) && m in all && n in all && ListedName(m.name) == ListedName(n.name)
    ensures m == n
  {
    hide ListedName;
    var i :| 0 <= i < |all| && all[i] == m;
    var j :| 0 <= j < |all| && all[j] == n;
  }

  lemma OpensThrough(all: seq<Member>, m: Member, path: seq<string>)
    requires Tidy(all) && m in all && path != [] && path[0] == m.name && Entered(m, path[0])
    ensures PathOpens(all, path) <==> Proper(m.name) && PathOpens(m.body.members, path[1..])
    ensures MembersAt(all, path) == MembersAt(m.body.members, path[1..])
  {
    hide ListedName, Proper;
    forall n | n in all && n.name == path[0] ensures n == m { UniqueMember(all, m, n); }
    EnteredFirst(all, m, path);
  }

  lemma {:induction false} EnteredFirst(ms: seq<Member>, m: Member, path: seq<string>)
    requires path != [] && m in ms && Entered(m, path[0])
    requires forall n :: n in ms && n.name == path[0] ==> n == m
    ensures MembersAt(ms, path) == MembersAt(m.body.members, path[1..])
    decreases ms
  {
    if !Entered(ms[0], path[0]) {
      EnteredFirst(ms[1..], m, path);
    }
  }
}
