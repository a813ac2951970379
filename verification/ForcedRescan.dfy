/** What a rescan reports, and what the backups hold, after a forced patch. */
module ForcedRescan {
  import opened Options
  import opened Archive
  import opened ArchiveScan
  import opened ArchiveRescan
  import opened ArchivePatch
  import opened PatchCommand
  import opened ForcedPatch
  import opened ZipNames
  import Ordering
  import Text

  /** A finding that a patch would leave in place: not patchable, not the removed class, no class beside it. */
  predicate Settled(sc: Scanner, l: Located) {
    l.finding.fileName != JNDI_LOOKUP && !Patchable(sc, l.finding.version) && l.finding.jndiLookupHash == ""
  }

  /** The findings of a patched file are those of the file before, settled at each patched archive. */
  function AfterPatches(sc: Scanner, root: string, paths: seq<seq<string>>, ls: seq<Located>): seq<Located> {
    if paths == [] then ls
    else AfterPatch(sc, [root] + paths[|paths| - 1], AfterPatches(sc, root, paths[..|paths| - 1], ls))
  }

  /** Patching an archive changes nothing exactly when the class is not in it. */
  lemma {:induction false} RemoveChangesNothingIff(ms: seq<Member>, path: seq<string>)
    requires Tidy(ms)
    ensures RemoveAt(ms, path, IsTarget) == ms <==> forall m :: m in MembersAt(ms, path) ==> !IsTarget(m)
    decreases |path|, |ms|
  {
    hide Tidy, Text.Join;
    if RemoveAt(ms, path, IsTarget) == ms {
      RemovedAtPath(ms, path, IsTarget);
      forall m | m in MembersAt(ms, path) ensures !IsTarget(m) { MemberOfWithout(MembersAt(ms, path), IsTarget, m); }
    }
    if forall m :: m in MembersAt(ms, path) ==> !IsTarget(m) {
      NothingToRemove(ms, path);
    }
  }

  lemma {:induction false} NothingToRemove(ms: seq<Member>, path: seq<string>)
    requires Tidy(ms) && forall m :: m in MembersAt(ms, path) ==> !IsTarget(m)
    ensures RemoveAt(ms, path, IsTarget) == ms
    decreases |path|, |ms|
  {
    hide Tidy, Text.Join;
    if ms != [] {
      TidyRest(ms);
      if path != [] && Entered(ms[0], path[0]) {
        NothingToRemove(ms[0].body.members, path[1..]);
        NoSecondEntry(ms[1..], path, ms[0].name);
      }
      NothingToRemove(ms[1..], path);
    }
  }

  // ----- archives that hold no class but an impostor -----

  /** The paths whose archives hold no impostor. */
  ghost function WithoutImpostor(ms: seq<Member>, paths: seq<seq<string>>): (r: seq<seq<string>>)
    ensures forall p :: p in r <==> p in paths && !HasImpostor(MembersAt(ms, p))
  {
    if paths == [] then []
    else
      assert paths == paths[..|paths| - 1] + [paths[|paths| - 1]];
      WithoutImpostor(ms, paths[..|paths| - 1])
      + if HasImpostor(MembersAt(ms, paths[|paths| - 1])) then [] else [paths[|paths| - 1]]
  }

  /** A patch brings no impostor into an archive. */
  lemma ImpostorWasThere(ms: seq<Member>, path: seq<string>, other: seq<string>)
    requires ArchivePath(path) && ArchivePath(other) && HasImpostor(MembersAt(RemoveAt(ms, path, IsTarget), other))
    ensures HasImpostor(MembersAt(ms, other))
  {
    hide ListedName, FileExt, Text.Join, MembersAt;
    var m :| m in MembersAt(RemoveAt(ms, path, IsTarget), other) && IsImpostor(m);
    if path == other {
      RemovedAtPath(ms, path, IsTarget);
      MemberOfWithout(MembersAt(ms, path), IsTarget, m);
    } else {
      KeptElsewhere(ms, path, other);
      if other <= path {
        var was := MemberBefore(MembersAt(ms, other), path[|other|..], m);
        assert IsImpostor(was);
      }
    }
  }

  lemma {:induction false} ImpostorWasThereAll(ms: seq<Member>, paths: seq<seq<string>>, other: seq<string>)
    requires (forall p :: p in paths ==> ArchivePath(p)) && ArchivePath(other)
    requires HasImpostor(MembersAt(RemoveAll(ms, paths), other))
    ensures HasImpostor(MembersAt(ms, other))
  {
    hide HasImpostor, MembersAt;
    if paths != [] {
      ImpostorWasThere(RemoveAll(ms, paths[..|paths| - 1]), paths[|paths| - 1], other);
      ImpostorWasThereAll(ms, paths[..|paths| - 1], other);
    }
  }

  lemma {:induction false} TargetWasThereAll(ms: seq<Member>, paths: seq<seq<string>>, other: seq<string>, m: Member)
    requires (forall p :: p in paths ==> ArchivePath(p)) && ArchivePath(other)
    requires m in MembersAt(RemoveAll(ms, paths), other) && IsTarget(m)
    ensures m in MembersAt(ms, other)
  {
    hide MembersAt, Text.Join;
    if paths != [] {
      TargetWasThere(RemoveAll(ms, paths[..|paths| - 1]), paths[|paths| - 1], other, m);
      TargetWasThereAll(ms, paths[..|paths| - 1], other, m);
    }
  }

  /** Patching an archive with an impostor changes nothing. */
  lemma ImpostorKeepsAll(ms: seq<Member>, paths: seq<seq<string>>, path: seq<string>)
    requires Tidy(ms) && (forall p :: p in paths ==> ArchivePath(p)) && ArchivePath(path)
    requires HasImpostor(MembersAt(ms, path))
    ensures RemoveAt(RemoveAll(ms, paths), path, IsTarget) == RemoveAll(ms, paths)
  {
    hide MembersAt, RemoveAll, RemoveAt, HasImpostor, Text.Join;
    var after := RemoveAll(ms, paths);
    MembersAtTidy(ms, path);
    ImpostorMeansNoTarget(MembersAt(ms, path));
    forall m | m in MembersAt(after, path) ensures !IsTarget(m) {
      if IsTarget(m) { TargetWasThereAll(ms, paths, path, m); }
    }
    RemoveAllTidy(ms, paths);
    NothingToRemove(after, path);
  }

  // ----- the rescan -----

  /** A rescan after all patches reports the findings before, settled at each patched archive without impostor. */
  lemma {:induction false} RescanAfterAll(sc: Scanner, root: string, ms: seq<Member>, paths: seq<seq<string>>)
    requires HashNeverEmpty(sc) && Tidy(ms) && forall p :: p in paths ==> ArchivePath(p)
    ensures ScanContent(sc, [root], Zip(RemoveAll(ms, paths)))
      == AfterPatches(sc, root, WithoutImpostor(ms, paths), ScanContent(sc, [root], Zip(ms)))
  {
    hide HasImpostor, Tidy, ArchivePath, MembersAt, ScanArchive, AfterPatch;
    if paths != [] {
      var init, last := paths[..|paths| - 1], paths[|paths| - 1];
      RescanAfterAll(sc, root, ms, init);
      RemoveAllTidy(ms, init);
      if HasImpostor(MembersAt(ms, last)) {
        ImpostorKeepsAll(ms, init, last);
        assert WithoutImpostor(ms, init) + [] == WithoutImpostor(ms, init);
      } else {
        if HasImpostor(MembersAt(RemoveAll(ms, init), last)) { ImpostorWasThereAll(ms, init, last); }
        AllMembers(RemoveAll(ms, init));
        RescanAfterRemove(sc, [root], last, RemoveAll(ms, init), RemoveAll(ms, init));
        AfterPatchesNext(sc, root, WithoutImpostor(ms, init), last, ScanContent(sc, [root], Zip(ms)));
      }
    }
  }

  lemma AllMembers(ms: seq<Member>)
    ensures MembersAt(ms, []) == ms
  {
  }

  lemma AfterPatchesNext(sc: Scanner, root: string, paths: seq<seq<string>>, last: seq<string>, ls: seq<Located>)
    ensures AfterPatches(sc, root, paths + [last], ls)
      == AfterPatch(sc, [root] + last, AfterPatches(sc, root, paths, ls))
  {
    assert (paths + [last])[..|paths|] == paths;
  }

  lemma {:induction false} AfterPatchSettles(sc: Scanner, where: seq<string>, ls: seq<Located>, l: Located)
    requires l in AfterPatch(sc, where, ls)
    ensures l.where == where ==> Settled(sc, l)
    ensures Settled(sc, l) || l in ls
  {
    hide Patchable, Text.Join;
    if l !in AfterPatchOne(sc, where, ls[0]) {
      AfterPatchSettles(sc, where, ls[1..], l);
    }
  }

  lemma {:induction false} AfterPatchesSettle(sc: Scanner, root: string, paths: seq<seq<string>>, ls: seq<Located>,
      l: Located)
    requires l in AfterPatches(sc, root, paths, ls)
    ensures Settled(sc, l) || (l in ls && forall p :: p in paths ==> l.where != [root] + p)
  {
    hide Settled, AfterPatch;
    if paths != [] {
      var init, last := paths[..|paths| - 1], paths[|paths| - 1];
      var before := AfterPatches(sc, root, init, ls);
      assert paths == init + [last];
      AfterPatchSettles(sc, [root] + last, before, l);
      if l in before { AfterPatchesSettle(sc, root, init, ls, l); }
    }
  }

  lemma {:induction false} AfterPatchLeaves(sc: Scanner, where: seq<string>, ls: seq<Located>, l: Located)
    requires l in ls && l.where != where
    ensures l in AfterPatch(sc, where, ls)
  {
    hide Patchable, Text.Join;
    if l != ls[0] { AfterPatchLeaves(sc, where, ls[1..], l); }
  }

  lemma {:induction false} AfterPatchesLeave(sc: Scanner, root: string, paths: seq<seq<string>>, ls: seq<Located>,
      l: Located)
    requires l in ls && forall p :: p in paths ==> l.where != [root] + p
    ensures l in AfterPatches(sc, root, paths, ls)
  {
    hide AfterPatch;
    if paths != [] {
      var init, last := paths[..|paths| - 1], paths[|paths| - 1];
      assert paths == init + [last];
      AfterPatchesLeave(sc, root, init, ls, l);
      AfterPatchLeaves(sc, [root] + last, AfterPatches(sc, root, init, ls), l);
    }
  }

  /** The patcher can do something about the archive of a finding: the path opens, and what the scanner takes for
      the JndiLookup class is named so. */
  ghost predicate Curable(ms: seq<Member>, l: Located) {
    Opens(l) && !HasImpostor(MembersAt(ms, l.where[1..]))
  }

  lemma PatchedIffCurable(ms: seq<Member>, f: string, ls: seq<Located>, l: Located)
    requires l in ls && [f] <= l.where
    ensures (exists p :: p in WithoutImpostor(ms, PathsIn(Opening(ls), f)) && l.where == [f] + p) <==> Curable(ms, l)
  {
    hide Proper, HasImpostor, PathsIn, MembersAt, Text.Join;
    var patched := WithoutImpostor(ms, PathsIn(Opening(ls), f));
    assert l.where == [f] + l.where[1..];
    if Curable(ms, l) {
      PathsInHas(Opening(ls), l);
      assert l.where[1..] in patched;
    }
    if p :| p in patched && l.where == [f] + p {
      assert p == l.where[1..];
      PathsInOpen(ls, f, p);
    }
  }

  /** After a forced patch of everything a scan of a file found, together with findings of other files and in any
      order, a rescan reports only findings that no patch removes if and only if every finding was one already or
      is in an archive about which the patcher can do something. */
  lemma RescanIsSettledIff(sc: Scanner, files: Files, f: string, ls: seq<Located>, backup: bool,
      answers: nat -> seq<string>, askSkip: Member -> bool)
    requires HashNeverEmpty(sc) && ScannableFiles(files)
    requires f in files && files[f].Zip? && IsArchiveName(f)
    requires forall l :: l in ls ==> ScannedFrom(sc, files, l)
    requires forall l :: l in ScanContent(sc, [f], files[f]) ==> l in ls
    ensures var end := Rounds(sc.hash, LoopState(files, true, []), Findings(ls), false, backup, answers, askSkip);
      f in end.files
      && ((forall l :: l in ScanContent(sc, [f], end.files[f]) ==> Settled(sc, l))
        <==> forall l :: l in ScanContent(sc, [f], files[f]) ==> Settled(sc, l) || Curable(files[f].members, l))
  {
    hide AfterPatches, Rounds, RemoveAll, ScanArchive, NamesSplit, Settled, Tidy, FileExt, HasImpostor, MembersAt,
      ProperPath, PathsIn, CopiedBeforeLast, Curable, Text.Join;
    var ms := files[f].members;
    var paths := PathsIn(Opening(ls), f);
    var patched := WithoutImpostor(ms, paths);
    ForcedLoopPatchesAll(sc, files, ls, backup, answers, askSkip);
    PathsInAreArchivePaths(sc, files, Opening(ls), f);
    RescanAfterAll(sc, f, ms, paths);
    var found := ScanContent(sc, [f], files[f]);
    ScanUnder(sc, [f], ms, ms);
    forall l | l in found ensures (exists p :: p in patched && l.where == [f] + p) <==> Curable(ms, l) {
      PatchedIffCurable(ms, f, ls, l);
    }
    forall l | l in AfterPatches(sc, f, patched, found) ensures Settled(sc, l) || (l in found && !Curable(ms, l)) {
      AfterPatchesSettle(sc, f, patched, found, l);
    }
    forall l | l in found && !Curable(ms, l) ensures l in AfterPatches(sc, f, patched, found) {
      AfterPatchesLeave(sc, f, patched, found, l);
    }
  }

  lemma {:induction false} PathsInOpen(ls: seq<Located>, f: string, p: seq<string>)
    requires p in PathsIn(Opening(ls), f)
    ensures ProperPath(p)
  {
    var l := PathsInFrom(Opening(ls), f, p);
  }

  lemma {:induction false} PathsInFrom(ls: seq<Located>, f: string, p: seq<string>) returns (l: Located)
    requires p in PathsIn(ls, f)
    ensures l in ls && l.where != [] && l.where[1..] == p
  {
    var init, last := ls[..|ls| - 1], ls[|ls| - 1];
    assert ls == init + [last];
    if last.where != [] && last.where[0] == f && last.where[1..] == p {
      l := last;
    } else {
      l := PathsInFrom(init, f, p);
    }
  }

  // ----- the backup -----

  /** Removals leave an archive as it was exactly when none of them had a class to remove. */
  lemma RemovalsLeaveOriginalIff(ms: seq<Member>, earlier: seq<seq<string>>)
    requires Tidy(ms)
    ensures RemoveAll(ms, earlier) == ms <==> forall p, m :: p in earlier && m in MembersAt(ms, p) ==> !IsTarget(m)
  {
    hide Text.Join, Tidy;
    if RemoveAll(ms, earlier) == ms {
      forall p, m | p in earlier && m in MembersAt(ms, p) ensures !IsTarget(m) {
        RemoveAllAbsorbs(ms, earlier, p);
        RemoveChangesNothingIff(ms, p);
      }
    }
    if forall p, m :: p in earlier && m in MembersAt(ms, p) ==> !IsTarget(m) {
      NothingToRemoveAnywhere(ms, earlier);
    }
  }

  lemma {:induction false} NothingToRemoveAnywhere(ms: seq<Member>, paths: seq<seq<string>>)
    requires Tidy(ms) && forall p, m :: p in paths && m in MembersAt(ms, p) ==> !IsTarget(m)
    ensures RemoveAll(ms, paths) == ms
  {
    if paths != [] {
      NothingToRemoveAnywhere(ms, paths[..|paths| - 1]);
      NothingToRemove(ms, paths[|paths| - 1]);
    }
  }

  /** The copy that a forced run leaves beside a file is the one made before the last patch of the file, so it is the
      original exactly when none of the earlier patches of that file had a class to remove. */
  lemma BackupIsOriginalIff(sc: Scanner, files: Files, f: string, ls: seq<Located>, answers: nat -> seq<string>,
      askSkip: Member -> bool)
    requires HashNeverEmpty(sc) && ScannableFiles(files)
    requires forall l :: l in ls ==> ScannedFrom(sc, files, l)
    requires f in files && files[f].Zip? && IsArchiveName(f) && PathsIn(Opening(ls), f) != []
    ensures var end := Rounds(sc.hash, LoopState(files, true, []), Findings(ls), false, true, answers, askSkip);
      var paths := PathsIn(Opening(ls), f);
      BackupPath(f) in end.files
      && (end.files[BackupPath(f)] == files[f]
        <==> forall p, m :: p in paths[..|paths| - 1] && m in MembersAt(files[f].members, p) ==> !IsTarget(m))
  {
    hide RemoveAll, PathsIn, Rounds, MembersAt, NamesSplit, AllTakenOut, Tidy, Text.Join;
    ForcedLoopPatchesAll(sc, files, ls, true, answers, askSkip);
    var paths := PathsIn(Opening(ls), f);
    RemovalsLeaveOriginalIff(files[f].members, paths[..|paths| - 1]);
  }

  // ----- a run whose backup is not the original -----

  /** Class files with one byte are known; everything else is not. */
  function DemoScanner(): Scanner {
    Scanner("/", (c: Content) => if c.Plain? && |c.bytes| == 1 then "h" else "x",
      map["h" := VulnerableHash("2.14.0", "CVE-2021-44228")], (v: string) => true)
  }

  const DEMO_MEMBERS := [Member(JNDI_LOOKUP, false, Plain([1])), Member("A.CLASS", false, Plain([1]))]
  const DEMO_FILE := "/a.jar"

  lemma NoColonFree(part: string)
    requires ':' !in part
    ensures Text.FreeOf(part, PATH_SEPARATOR)
  {
    var s := part + PATH_SEPARATOR[..1];
    forall i | 0 <= i < |part| ensures !Text.OccursAt(s, PATH_SEPARATOR, i) {
      if i + 2 <= |s| { assert s[i..i + 2][0] == part[i] && part[i] in part; }
    }
  }

  lemma JarName(front: string)
    ensures IsArchiveName(front + ".jar") && !IsClassName(front + ".jar")
  {
    var ext := ".jar";
    assert ext[3] == 'r' && ext[2] == 'a' && ext[1] == 'j' && ext[0] == '.';
    assert ExtBefore(ext, 1) == ext[0..] == ext;
    assert ExtBefore(ext, 3) == ExtBefore(ext, 1);
    ExtOfAppend(front, ext, 4);
    assert ToLower(ext) == ext;
  }

  lemma DemoNames()
    ensures IsClassName("A.CLASS") && !IsArchiveName("A.CLASS") && IsArchiveName(DEMO_FILE)
    ensures ListedName("A.CLASS") != ListedName(JNDI_LOOKUP)
    ensures ':' !in DEMO_FILE && ':' !in "A.CLASS" && ':' !in JNDI_LOOKUP
  {
    hide Text.Join, Text.Split, ListedName, IsArchiveName;
    DemoClassName();
    JarName("/a");
    assert DEMO_FILE == "/a" + ".jar";
    ListedLast("A.CLASS");
    JndiLookupEnd();
    ListedLast(JNDI_LOOKUP);
    Text.JoinKeepsOut(JNDI_PATH, SLASH, ':');
  }

  lemma DemoClassName()
    ensures IsClassName("A.CLASS") && !IsArchiveName("A.CLASS")
  {
    var a := "A.CLASS";
    assert a[6] == 'S' && a[5] == 'S' && a[4] == 'A' && a[3] == 'L' && a[2] == 'C' && a[1] == '.';
    assert ExtBefore(a, 2) == a[1..] && ExtBefore(a, 4) == ExtBefore(a, 2) && ExtBefore(a, 6) == ExtBefore(a, 4);
    assert a[1..] == ".CLASS" && ToLower(".CLASS") == ".class";
  }

  /** Elements that need no cleaning, joined below the root. */
  lemma CleanFrom(elements: seq<string>)
    requires elements != [] && forall e :: e in elements ==> Ordinary(e) && '/' !in e
    ensures Clean(SLASH + Text.Join(elements, SLASH))
  {
    hide Text.Split, Text.Join, Text.FreeOf;
    forall e | e in elements ensures Text.FreeOf(e, SLASH) { NoSlashFree(e); }
    Text.SplitJoin(elements, SLASH);
    assert (SLASH + Text.Join(elements, SLASH))[1..] == Text.Join(elements, SLASH);
  }

  lemma ScanOfTwo(sc: Scanner, where: seq<string>, ms: seq<Member>)
    requires |ms| == 2
    ensures ScanArchive(sc, where, ms, ms) == ScanMember(sc, where, ms, ms[0]) + ScanMember(sc, where, ms, ms[1])
  {
    hide ScanMember;
    assert ms[1..] == [ms[1]] && ms[1..][1..] == [];
    assert ScanArchive(sc, where, ms, []) == [];
    assert ScanArchive(sc, where, ms, ms[1..]) == ScanMember(sc, where, ms, ms[1]) + [];
  }

  lemma ClassReported(sc: Scanner, where: seq<string>, all: seq<Member>, m: Member)
    requires HashNeverEmpty(sc) && IsClassName(m.name) && sc.hash(m.body) in sc.lookup && Open(all, JNDI_LOOKUP) != []
    ensures |ScanMember(sc, where, all, m)| == 1 && ScanMember(sc, where, all, m)[0].where == where
  {
    hide FileExt, Open, Text.Join, Text.Split, Patchable;
    assert Identify(sc, PathOf(where), all, m).Some?;
  }

  lemma OneMoreInFile(ls: seq<Located>, l: Located, f: string)
    requires l.where == [f]
    ensures Opening(ls + [l]) == Opening(ls) + [l] && PathsIn(ls + [l], f) == PathsIn(ls, f) + [[]]
  {
    hide Proper;
    assert (ls + [l])[..|ls|] == ls && l.where[1..] == [];
  }

  lemma PathsOfTwo(found: seq<Located>, f: string)
    requires |found| == 2 && found[0].where == [f] && found[1].where == [f]
    ensures Opening(found) == found && PathsIn(found, f) == [[], []]
  {
    OneMoreInFile([], found[0], f);
    OneMoreInFile([found[0]], found[1], f);
    hide Opening, PathsIn;
    assert [] + [found[0]] == [found[0]] && [found[0]] + [found[1]] == found;
  }

  lemma DemoClasses(where: seq<string>)
    ensures HashNeverEmpty(DemoScanner())
    ensures forall m :: m in DEMO_MEMBERS ==>
      var ls := ScanMember(DemoScanner(), where, DEMO_MEMBERS, m); |ls| == 1 && ls[0].where == where
  {
    hide Text.Join, Text.Split, ListedName, FileExt;
    var sc, ms := DemoScanner(), DEMO_MEMBERS;
    DemoNames();
    JndiLookupIsClass();
    JndiLookupIsProper();
    assert Open(ms, JNDI_LOOKUP) == [Plain([1])];
    ClassReported(sc, where, ms, ms[0]);
    ClassReported(sc, where, ms, ms[1]);
  }

  lemma DemoScan()
    ensures var files := map[DEMO_FILE := Zip(DEMO_MEMBERS)];
      HashNeverEmpty(DemoScanner()) && ScannableFiles(files)
    ensures var found := ScanContent(DemoScanner(), [DEMO_FILE], Zip(DEMO_MEMBERS));
      |found| == 2 && found[0].where == [DEMO_FILE] && found[1].where == [DEMO_FILE]
  {
    hide Text.Join, Text.Split, ListedName, FileExt;
    var sc, ms := DemoScanner(), DEMO_MEMBERS;
    DemoNames();
    JndiLookupIsClass();
    JndiLookupEnd();
    NoColonFree("A.CLASS");
    NoColonFree(JNDI_LOOKUP);
    JndiLookupIsProper();
    assert Tidy(ms);
    var where := [DEMO_FILE];
    DemoClasses(where);
    ScanOfTwo(sc, where, ms);
  }

  /** Two findings in one archive: after the forced run its backup is not the original. */
  lemma TwoFindingsLoseTheOriginal(answers: nat -> seq<string>, askSkip: Member -> bool)
    ensures var files := map[DEMO_FILE := Zip(DEMO_MEMBERS)];
      var found := ScanContent(DemoScanner(), [DEMO_FILE], files[DEMO_FILE]);
      var end := Rounds(DemoScanner().hash, LoopState(files, true, []), Findings(found), false, true, answers, askSkip);
      BackupPath(DEMO_FILE) in end.files && end.files[BackupPath(DEMO_FILE)] != files[DEMO_FILE]
  {
    hide Text.Join, Text.Split, FileExt, Rounds, ScanArchive, DemoScanner, ScannableFiles, MembersAt, Opening, PathsIn,
      Text.FreeOf, Clean;
    var files := map[DEMO_FILE := Zip(DEMO_MEMBERS)];
    var found := ScanContent(DemoScanner(), [DEMO_FILE], files[DEMO_FILE]);
    DemoScan();
    DemoNames();
    NoColonFree(DEMO_FILE);
    DemoIsClean();
    assert found == [found[0], found[1]];
    forall l | l in found ensures ScannedFrom(DemoScanner(), files, l) {}
    PathsOfTwo(found, DEMO_FILE);
    BackupIsOriginalIff(DemoScanner(), files, DEMO_FILE, found, answers, askSkip);
    var earlier: seq<seq<string>> := [[], []];
    assert earlier[..1] == [[]];
    AllMembers(DEMO_MEMBERS);
    assert DEMO_MEMBERS[0] in DEMO_MEMBERS && IsTarget(DEMO_MEMBERS[0]);
  }

  lemma DemoIsClean()
    ensures Clean(PathOf([DEMO_FILE]))
  {
    CleanFrom(["a.jar"]);
    assert DEMO_FILE == SLASH + "a.jar";
  }

  // ----- runs that leave a finding as it was -----

  /** An archive that holds the two classes under this name. */
  function Nesting(name: string): seq<Member> {
    [Member(name, false, Zip(DEMO_MEMBERS))]
  }

  lemma NestingScan(name: string)
    requires IsArchiveName(name) && !IsClassName(name) && ':' !in name
    ensures HashNeverEmpty(DemoScanner()) && ScannableFiles(map[DEMO_FILE := Zip(Nesting(name))])
    ensures var found := ScanContent(DemoScanner(), [DEMO_FILE], Zip(Nesting(name)));
      |found| == 2 && forall l :: l in found ==> l.where == [DEMO_FILE, name]
  {
    hide Text.Join, Text.Split, ListedName, FileExt, Identify, Text.FreeOf;
    var sc, ms, m := DemoScanner(), Nesting(name), Nesting(name)[0];
    DemoScan();
    NoColonFree(name);
    var demo := map[DEMO_FILE := Zip(DEMO_MEMBERS)];
    assert DEMO_FILE in demo && Tidy(demo[DEMO_FILE].members) && NamesSplit(demo[DEMO_FILE].members);
    assert Tidy([m]) by { ArchiveNameEnd(name); }
    assert ms == [m] && ms[1..] == [];
    assert [DEMO_FILE] + [name] == [DEMO_FILE, name];
    var inner := ScanArchive(sc, [DEMO_FILE, name], DEMO_MEMBERS, DEMO_MEMBERS);
    DemoClasses([DEMO_FILE, name]);
    ScanOfTwo(sc, [DEMO_FILE, name], DEMO_MEMBERS);
    assert ScanArchive(sc, [DEMO_FILE], ms, []) == [];
    assert ScanArchive(sc, [DEMO_FILE], ms, ms) == inner + [];
  }

  lemma ShutName()
    ensures IsArchiveName("/b.jar") && !IsClassName("/b.jar") && !Proper("/b.jar") && ':' !in "/b.jar"
    ensures Clean(PathOf([DEMO_FILE, "/b.jar"]))
  {
    hide Text.Join, Text.Split, ListedName, IsArchiveName, IsClassName, Clean;
    JarName("/b");
    assert "/b.jar" == "/b" + ".jar";
    EmptyFirst("/b.jar");
    assert Text.Split("/b.jar", SLASH)[0] in Text.Split("/b.jar", SLASH);
    CleanFrom(["a.jar::", "b.jar"]);
    JoinOfTwo("a.jar::", "b.jar", SLASH);
    JoinOfTwo(DEMO_FILE, "/b.jar", PATH_SEPARATOR);
    assert SLASH + Text.Join(["a.jar::", "b.jar"], SLASH) == "/a.jar::/b.jar" == PathOf([DEMO_FILE, "/b.jar"]);
  }

  lemma JoinOfTwo(a: string, b: string, sep: string)
    ensures Text.Join([a, b], sep) == a + sep + b
  {
    assert [a, b][1..] == [b];
  }

  /** A nested archive whose name begins with "/" is scanned, but the patcher cannot open it: nothing is patched. */
  lemma ShutArchiveStays(answers: nat -> seq<string>, askSkip: Member -> bool)
    ensures var files := map[DEMO_FILE := Zip(Nesting("/b.jar"))];
      var found := ScanContent(DemoScanner(), [DEMO_FILE], files[DEMO_FILE]);
      var start := LoopState(files, true, []);
      var end := Rounds(DemoScanner().hash, start, Findings(found), false, false, answers, askSkip);
      |found| == 2 && end.patchedLibraries == [] && DEMO_FILE in end.files && end.files[DEMO_FILE] == files[DEMO_FILE]
  {
    hide Text.Join, Text.Split, FileExt, Rounds, ScanArchive, DemoScanner, ScannableFiles, Text.FreeOf, Proper, Clean,
      Nesting;
    var files := map[DEMO_FILE := Zip(Nesting("/b.jar"))];
    var found := ScanContent(DemoScanner(), [DEMO_FILE], files[DEMO_FILE]);
    ShutName();
    NestingScan("/b.jar");
    DemoNames();
    NoColonFree(DEMO_FILE);
    forall l | l in found ensures ScannedFrom(DemoScanner(), files, l) && !Opens(l) {
      assert l.where[1..][0] == "/b.jar" && l.where[1..][0] in l.where[1..];
    }
    ForcedLoopPatchesAll(DemoScanner(), files, found, false, answers, askSkip);
    NoneOpens(found);
  }

  lemma NoneOpens(ls: seq<Located>)
    requires forall l :: l in ls ==> !Opens(l)
    ensures Opening(ls) == [] && forall f :: PathsIn(Opening(ls), f) == []
  {
    Ordering.EmptyIfNone(Opening(ls));
  }

  /** A class whose name begins with "/" is reported with its hash, but the patcher does not take it for the class. */
  lemma RootedClassIsImpostor(content: Content)
    ensures IsImpostor(Member(SLASH + JNDI_LOOKUP, false, content))
    ensures Open([Member(SLASH + JNDI_LOOKUP, false, content)], JNDI_LOOKUP) == [content]
  {
    hide Text.Join, Text.Split, ListedName, ValidPath;
    JndiLookupIsProper();
    RootedName(JNDI_LOOKUP);
    assert |SLASH + JNDI_LOOKUP| == 1 + |JNDI_LOOKUP|;
  }

  // ----- a path that is cleaned -----

  lemma UncleanName()
    ensures IsArchiveName("lib//b.jar") && !IsClassName("lib//b.jar") && ':' !in "lib//b.jar"
    ensures Abs("/", PathOf([DEMO_FILE, "lib//b.jar"])) == PathOf([DEMO_FILE, "lib/b.jar"])
    ensures Text.Split(PathOf([DEMO_FILE, "lib/b.jar"]), PATH_SEPARATOR) == [DEMO_FILE, "lib/b.jar"]
  {
    hide Text.Join, Text.Split, ListedName, IsArchiveName, IsClassName, Kept, Text.FreeOf;
    JarName("lib//b");
    assert "lib//b.jar" == "lib//b" + ".jar";
    JoinOfTwo(DEMO_FILE, "lib//b.jar", PATH_SEPARATOR);
    JoinOfTwo(DEMO_FILE, "lib/b.jar", PATH_SEPARATOR);
    UncleanElements();
    assert PathOf([DEMO_FILE, "lib//b.jar"]) == "/a.jar::lib//b.jar";
    assert PathOf([DEMO_FILE, "lib/b.jar"]) == "/a.jar::lib/b.jar";
    NoColonFree(DEMO_FILE);
    NoColonFree("lib/b.jar");
    Text.SplitJoin([DEMO_FILE, "lib/b.jar"], PATH_SEPARATOR);
  }

  lemma UncleanElements()
    ensures SLASH + Text.Join(Kept(Text.Split("/a.jar::lib//b.jar", SLASH), true), SLASH) == "/a.jar::lib/b.jar"
  {
    hide Text.Split, Text.FreeOf;
    var parts := ["", "a.jar::lib", "", "b.jar"];
    forall e | e in parts ensures Text.FreeOf(e, SLASH) { NoSlashFree(e); }
    Text.SplitJoin(parts, SLASH);
    assert parts[1..] == ["a.jar::lib", "", "b.jar"] && parts[1..][1..] == ["", "b.jar"];
    assert parts[1..][1..][1..] == ["b.jar"];
    assert Text.Join(parts, SLASH) == "/a.jar::lib//b.jar";
    assert parts[..3] == ["", "a.jar::lib", ""] && parts[..3][..2] == ["", "a.jar::lib"];
    assert parts[..3][..2][..1] == [""];
    assert Kept([""], true) == [] && Kept(parts[..3][..2], true) == ["a.jar::lib"];
    assert Kept(parts[..3], true) == ["a.jar::lib"];
    assert Kept(parts, true) == ["a.jar::lib", "b.jar"];
    JoinOfTwo("a.jar::lib", "b.jar", SLASH);
  }

  ghost predicate Missed(l: Located) {
    l.finding.path == PathOf([DEMO_FILE, "lib/b.jar"]) && l.finding.jndiLookupFileName == JNDI_LOOKUP
  }

  lemma UncleanFinding(l: Located)
    requires l in ScanContent(DemoScanner(), [DEMO_FILE], Zip(Nesting("lib//b.jar")))
    requires l.where == [DEMO_FILE, "lib//b.jar"]
    ensures Missed(l)
  {
    hide Text.Join, Text.Split, ScanArchive, Nesting, Abs;
    UncleanName();
    ScanUnder(DemoScanner(), [DEMO_FILE], Nesting("lib//b.jar"), Nesting("lib//b.jar"));
  }

  lemma MissedRound(hash: Content -> string, s: LoopState, l: Located, replies: seq<string>, askSkip: Member -> bool)
    requires s.files == map[DEMO_FILE := Zip(Nesting("lib//b.jar"))] && s.forcePatch && Missed(l)
    ensures Round(hash, s, l.finding, false, false, replies, askSkip)
      == s.(patchedLibraries := s.patchedLibraries + [l.finding.path])
  {
    hide Text.Join, Text.Split, RemoveAt, FileExt;
    UncleanName();
    TargetNameNotEmpty();
    var path, ms := ["lib/b.jar"], Nesting("lib//b.jar");
    var where := Text.Split(l.finding.path, PATH_SEPARATOR);
    assert where == [DEMO_FILE, "lib/b.jar"] && where[1..] == path;
    assert "lib//b.jar"[4] == '/' && "lib/b.jar"[4] == 'b';
    assert PathOpens(ms, path);
    NothingEntered(ms, path, Dropped(hash, l.finding, askSkip));
    assert s.files[DEMO_FILE := Zip(ms)] == s.files;
  }

  lemma {:induction false} NothingEntered(ms: seq<Member>, path: seq<string>, drop: Member -> bool)
    requires path != [] && forall m :: m in ms ==> m.name != path[0]
    ensures RemoveAt(ms, path, drop) == ms
  {
    if ms != [] { NothingEntered(ms[1..], path, drop); }
  }

  lemma TwoReported(found: seq<Located>)
    requires |found| == 2
    ensures ReportedPaths(found) == [found[0].finding.path] + [found[1].finding.path]
  {
  }

  /** The reported path of a class in "lib//b.jar" is cleaned and no longer names that archive: the patcher finds
      nothing under it, takes nothing out, and still lists the path as patched. */
  lemma CleanedPathIsMissed(answers: nat -> seq<string>, askSkip: Member -> bool)
    ensures var files := map[DEMO_FILE := Zip(Nesting("lib//b.jar"))];
      var found := ScanContent(DemoScanner(), [DEMO_FILE], files[DEMO_FILE]);
      var start := LoopState(files, true, []);
      var end := Rounds(DemoScanner().hash, start, Findings(found), false, false, answers, askSkip);
      |found| == 2 && end.files == files && end.patchedLibraries == ReportedPaths(found)
  {
    hide Text.Join, Text.Split, FileExt, ScanArchive, DemoScanner, ScannableFiles, Text.FreeOf, Rounds, Round,
      ReportedPaths, Findings, Nesting;
    var files := map[DEMO_FILE := Zip(Nesting("lib//b.jar"))];
    var sc := DemoScanner();
    var found := ScanContent(sc, [DEMO_FILE], files[DEMO_FILE]);
    var start := LoopState(files, true, []);
    UncleanName();
    NestingScan("lib//b.jar");
    assert found == [found[0], found[1]] && [found[0]] + [found[1]] == found && [] + [found[0]] == [found[0]];
    forall l | l in found ensures Missed(l) { UncleanFinding(l); }
    NoRounds(sc.hash, start, false, false, answers, askSkip);
    RoundsNext(sc.hash, start, [], found[0], false, false, answers, askSkip);
    MissedRound(sc.hash, start, found[0], answers(0), askSkip);
    assert [] + [found[0].finding.path] == [found[0].finding.path];
    RoundsNext(sc.hash, start, [found[0]], found[1], false, false, answers, askSkip);
    MissedRound(sc.hash, start.(patchedLibraries := [found[0].finding.path]), found[1], answers(1), askSkip);
    TwoReported(found);
  }
}
