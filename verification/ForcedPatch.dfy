/** A forced patch of findings of a scan: no prompt, any order, and exactly the findings that open are patched. */
module ForcedPatch {
  import opened Options
  import opened Archive
  import opened ArchiveScan
  import opened ArchiveRescan
  import opened ArchivePatch
  import opened PatchCommand
  import opened ZipNames
  import Text

  /** The class is taken out at each of the paths in turn. */
  function RemoveAll(ms: seq<Member>, paths: seq<seq<string>>): seq<Member> {
    if paths == [] then ms
    else RemoveAt(RemoveAll(ms, paths[..|paths| - 1]), paths[|paths| - 1], IsTarget)
  }

  // ----- the order of patches does not matter -----

  lemma {:induction false} RemoveAllThen(ms: seq<Member>, paths: seq<seq<string>>, p: seq<string>)
    ensures RemoveAt(RemoveAll(ms, paths), p, IsTarget) == RemoveAll(RemoveAt(ms, p, IsTarget), paths)
  {
    if paths != [] {
      var init, last := paths[..|paths| - 1], paths[|paths| - 1];
      RemoveCommutes(RemoveAll(ms, init), last, p);
      RemoveAllThen(ms, init, p);
    }
  }

  lemma {:induction false} RemoveAllSwap(ms: seq<Member>, a: seq<seq<string>>, b: seq<seq<string>>)
    ensures RemoveAll(RemoveAll(ms, a), b) == RemoveAll(RemoveAll(ms, b), a)
  {
    if b != [] {
      var init, last := b[..|b| - 1], b[|b| - 1];
      RemoveAllSwap(ms, a, init);
      RemoveAllThen(RemoveAll(ms, init), a, last);
    }
  }

  lemma {:induction false} RemoveAllAbsorbs(ms: seq<Member>, paths: seq<seq<string>>, p: seq<string>)
    requires p in paths
    ensures RemoveAt(RemoveAll(ms, paths), p, IsTarget) == RemoveAll(ms, paths)
  {
    var init, last := paths[..|paths| - 1], paths[|paths| - 1];
    assert paths == init + [last];
    if p == last {
      RemoveIdempotent(RemoveAll(ms, init), p);
    } else {
      RemoveAllAbsorbs(ms, init, p);
      RemoveCommutes(RemoveAll(ms, init), last, p);
    }
  }

  lemma {:induction false} RemoveAllAbsorbsAll(ms: seq<Member>, a: seq<seq<string>>, b: seq<seq<string>>)
    requires forall p :: p in b ==> p in a
    ensures RemoveAll(RemoveAll(ms, a), b) == RemoveAll(ms, a)
  {
    if b != [] {
      RemoveAllAbsorbsAll(ms, a, b[..|b| - 1]);
      RemoveAllAbsorbs(ms, a, b[|b| - 1]);
    }
  }

  /** Only which archives are patched matters: neither their order nor how often each is patched. */
  lemma OrderAndRepetitionDoNotMatter(ms: seq<Member>, a: seq<seq<string>>, b: seq<seq<string>>)
    requires forall p :: p in a <==> p in b
    ensures RemoveAll(ms, a) == RemoveAll(ms, b)
  {
    RemoveAllAbsorbsAll(ms, a, b);
    RemoveAllAbsorbsAll(ms, b, a);
    RemoveAllSwap(ms, a, b);
  }

  /** After all patches the class is in none of the archives. */
  lemma TakenOutEverywhere(ms: seq<Member>, paths: seq<seq<string>>)
    ensures forall p, m :: p in paths && m in MembersAt(RemoveAll(ms, paths), p) ==> !IsTarget(m)
  {
    hide RemoveAll, Text.Join;
    var after := RemoveAll(ms, paths);
    forall p, m | p in paths && m in MembersAt(after, p) ensures !IsTarget(m) {
      RemoveAllAbsorbs(ms, paths, p);
      RemovedAtPath(after, p, IsTarget);
      MemberOfWithout(MembersAt(after, p), IsTarget, m);
    }
  }

  // ----- an earlier patch spoils no later one -----

  /** The path opens, and the class at its end still has the reported hash, if it is still there. */
  ghost predicate Ripe(hash: Content -> string, ms: seq<Member>, path: seq<string>, jndiLookupHash: string) {
    && PathOpens(ms, path)
    && forall m :: m in MembersAt(ms, path) && IsTarget(m) ==> hash(m.body) == jndiLookupHash
  }

  lemma {:induction false} MemberBefore(ms: seq<Member>, path: seq<string>, m: Member) returns (old': Member)
    requires path != [] && m in RemoveAt(ms, path, IsTarget)
    ensures old' in ms && old'.name == m.name && old'.isDir == m.isDir
    ensures m ==
      if Entered(old', path[0]) then old'.(body := Zip(RemoveAt(old'.body.members, path[1..], IsTarget))) else old'
  {
    RemoveBelow(ms, path, IsTarget);
    if m in RemoveAt(ms[1..], path, IsTarget) {
      old' := MemberBefore(ms[1..], path, m);
    } else {
      old' := ms[0];
    }
  }

  lemma {:induction false} PathStaysOpen(ms: seq<Member>, path: seq<string>, other: seq<string>)
    requires ArchivePath(path) && PathOpens(ms, other)
    ensures PathOpens(RemoveAt(ms, path, IsTarget), other)
    decreases |other|
  {
    hide Proper, FileExt, Text.Join;
    var ms' := RemoveAt(ms, path, IsTarget);
    if other != [] {
      forall m | m in ms' && m.name == other[0]
        ensures Proper(m.name) && !m.isDir && m.body.Zip? && PathOpens(m.body.members, other[1..])
      {
        if path == [] {
          RemoveAtHere(ms, IsTarget);
          MemberOfWithout(ms, IsTarget, m);
        } else {
          var was := MemberBefore(ms, path, m);
          if Entered(was, path[0]) { PathStaysOpen(was.body.members, path[1..], other[1..]); }
        }
      }
    }
  }

  lemma StaysRipe(hash: Content -> string, ms: seq<Member>, path: seq<string>, other: seq<string>,
      jndiLookupHash: string)
    requires ArchivePath(path) && ArchivePath(other) && Ripe(hash, ms, other, jndiLookupHash)
    ensures Ripe(hash, RemoveAt(ms, path, IsTarget), other, jndiLookupHash)
  {
    PathStaysOpen(ms, path, other);
    forall m | m in MembersAt(RemoveAt(ms, path, IsTarget), other) && IsTarget(m) ensures m in MembersAt(ms, other) {
      TargetWasThere(ms, path, other, m);
    }
  }

  lemma TargetWasThere(ms: seq<Member>, path: seq<string>, other: seq<string>, m: Member)
    requires ArchivePath(path) && ArchivePath(other)
    requires m in MembersAt(RemoveAt(ms, path, IsTarget), other) && IsTarget(m)
    ensures m in MembersAt(ms, other)
  {
    if path == other {
      RemovedAtPath(ms, path, IsTarget);
      MemberOfWithout(MembersAt(ms, path), IsTarget, m);
    } else {
      KeptElsewhere(ms, path, other);
      if other <= path {
        var rest := path[|other|..];
        assert rest != [] && rest[0] in path;
        var was := MemberBefore(MembersAt(ms, other), rest, m);
        JndiLookupIsClass();
      }
    }
  }

  lemma {:induction false} RipeAfterAll(hash: Content -> string, ms: seq<Member>, paths: seq<seq<string>>,
      other: seq<string>, jndiLookupHash: string)
    requires (forall p :: p in paths ==> ArchivePath(p)) && ArchivePath(other) && Ripe(hash, ms, other, jndiLookupHash)
    ensures Ripe(hash, RemoveAll(ms, paths), other, jndiLookupHash)
  {
    if paths != [] {
      RipeAfterAll(hash, ms, paths[..|paths| - 1], other, jndiLookupHash);
      StaysRipe(hash, RemoveAll(ms, paths[..|paths| - 1]), paths[|paths| - 1], other, jndiLookupHash);
    }
  }

  /** On a ripe path the prompt about a differing hash never comes, so what the user would say is irrelevant. */
  lemma {:induction false} NoPrompt(hash: Content -> string, f: Finding, ms: seq<Member>, path: seq<string>,
      askSkip: Member -> bool)
    requires Tidy(ms) && f.jndiLookupFileName == JNDI_LOOKUP && Ripe(hash, ms, path, f.jndiLookupHash)
    ensures RemoveAt(ms, path, Dropped(hash, f, askSkip)) == RemoveAt(ms, path, IsTarget)
    decreases |path|, |ms|
  {
    if ms != [] {
      TidyRest(ms);
      RipeTail(hash, ms, path, f.jndiLookupHash);
      NoPrompt(hash, f, ms[1..], path, askSkip);
      if path != [] && Entered(ms[0], path[0]) {
        assert MembersAt(ms, path) == MembersAt(ms[0].body.members, path[1..]);
        NoPrompt(hash, f, ms[0].body.members, path[1..], askSkip);
      }
    }
  }

  lemma RipeTail(hash: Content -> string, ms: seq<Member>, path: seq<string>, h: string)
    requires ms != [] && Tidy(ms) && Ripe(hash, ms, path, h)
    ensures Ripe(hash, ms[1..], path, h)
  {
    hide Proper, ListedName;
    TidyRest(ms);
    if path != [] && Entered(ms[0], path[0]) {
      NoSecondEntry(ms[1..], path, ms[0].name);
    }
  }

  // ----- a finding is ripe when it is made -----

  lemma {:induction false} MembersAtTidy(ms: seq<Member>, path: seq<string>)
    requires Tidy(ms)
    ensures Tidy(MembersAt(ms, path))
    decreases |path|, |ms|
  {
    if path != [] && ms != [] {
      TidyRest(ms);
      if Entered(ms[0], path[0]) {
        MembersAtTidy(ms[0].body.members, path[1..]);
      } else {
        MembersAtTidy(ms[1..], path);
      }
    }
  }

  /** Every finding of a scan leads to an archive whose JndiLookup class, if it is there, has the reported hash; the
      path to it opens exactly when its steps are proper names. */
  lemma FindingIsRipe(sc: Scanner, where: seq<string>, ms: seq<Member>, l: Located)
    requires HashNeverEmpty(sc) && Tidy(ms) && l in ScanArchive(sc, where, ms, ms)
    ensures where <= l.where && ArchivePath(l.where[|where|..]) && Reached(ms, l.where[|where|..])
    ensures Ripe(sc.hash, ms, l.where[|where|..], l.finding.jndiLookupHash) <==> ProperPath(l.where[|where|..])
  {
    hide Proper, ListedName, Text.Join, FileExt;
    FindingLeadsToArchive(sc, where, ms, ms, l);
    var path := l.where[|where|..];
    var there := MembersAt(ms, path);
    MembersAtTidy(ms, path);
    forall m | m in there && IsTarget(m) ensures sc.hash(m.body) == l.finding.jndiLookupHash {
      TargetIsOpened(there, m);
    }
  }

  lemma TargetIsOpened(ms: seq<Member>, m: Member)
    requires Tidy(ms) && m in ms && IsTarget(m)
    ensures Open(ms, JNDI_LOOKUP) == [m.body]
  {
    hide ListedName, Text.Join;
    JndiLookupIsProper();
    if m.isDir { JndiLookupEnd(); } else { OpenUnique(ms, m); }
  }

  // ----- a path that does not open stays shut -----

  lemma {:induction false} MemberAfter(ms: seq<Member>, path: seq<string>, m: Member) returns (after: Member)
    requires m in ms && !IsTarget(m)
    ensures after in RemoveAt(ms, path, IsTarget)
    ensures after ==
      if path != [] && Entered(m, path[0]) then m.(body := Zip(RemoveAt(m.body.members, path[1..], IsTarget))) else m
  {
    if m == ms[0] {
      after := Act(m, path, IsTarget)[0];
    } else {
      after := MemberAfter(ms[1..], path, m);
    }
  }

  lemma {:induction false} StaysReached(ms: seq<Member>, path: seq<string>, other: seq<string>)
    requires ArchivePath(other) && Reached(ms, other)
    ensures Reached(RemoveAt(ms, path, IsTarget), other)
    decreases |other|
  {
    hide FileExt, Text.Join;
    if other != [] {
      var m :| m in ms && Entered(m, other[0]) && Reached(m.body.members, other[1..]);
      assert other[0] in other;
      JndiLookupIsClass();
      var after := MemberAfter(ms, path, m);
      if path != [] && Entered(m, path[0]) { StaysReached(m.body.members, path[1..], other[1..]); }
    }
  }

  lemma {:induction false} ReachedAfterAll(ms: seq<Member>, paths: seq<seq<string>>, other: seq<string>)
    requires ArchivePath(other) && Reached(ms, other)
    ensures Reached(RemoveAll(ms, paths), other)
  {
    if paths != [] {
      ReachedAfterAll(ms, paths[..|paths| - 1], other);
      StaysReached(RemoveAll(ms, paths[..|paths| - 1]), paths[|paths| - 1], other);
    }
  }

  lemma {:induction false} OpenMeansProper(ms: seq<Member>, path: seq<string>)
    requires Reached(ms, path) && PathOpens(ms, path)
    ensures ProperPath(path)
    decreases |path|
  {
    hide Proper;
    if path != [] {
      var m :| m in ms && Entered(m, path[0]) && Reached(m.body.members, path[1..]);
      OpenMeansProper(m.body.members, path[1..]);
      assert path == [path[0]] + path[1..];
    }
  }

  // ----- the joined path splits back -----

  /** No member name, at any depth, can be mistaken for part of a joined path. */
  ghost predicate NamesSplit(ms: seq<Member>) {
    forall m :: m in ms ==>
      Text.FreeOf(m.name, PATH_SEPARATOR) && (m.body.Zip? ==> NamesSplit(m.body.members))
  }

  ghost predicate StepsSplit(path: seq<string>) {
    forall n :: n in path ==> Text.FreeOf(n, PATH_SEPARATOR)
  }

  lemma {:induction false} FindingPathSplits(sc: Scanner, where: seq<string>, all: seq<Member>, ms: seq<Member>,
      l: Located)
    requires StepsSplit(where) && NamesSplit(ms) && l in ScanArchive(sc, where, all, ms)
    ensures StepsSplit(l.where)
    decreases ms
  {
    var m := ms[0];
    if l in ScanMember(sc, where, all, m) {
      if !IsClassName(m.name) {
        FindingPathSplits(sc, where + [m.name], m.body.members, m.body.members, l);
      }
    } else {
      FindingPathSplits(sc, where, all, ms[1..], l);
    }
  }

  /** The reported path splits into the names that lead to the archive exactly when filepath.Abs had nothing to
      clean in it. */
  lemma PathNamesArchiveIff(sc: Scanner, where: seq<string>, ms: seq<Member>, l: Located)
    requires where != [] && StepsSplit(where) && NamesSplit(ms) && l in ScanArchive(sc, where, ms, ms)
    ensures Text.Split(l.finding.path, PATH_SEPARATOR) == l.where
      <==> Clean(PathOf(l.where)) || PathOf(l.where) == SLASH
  {
    hide Abs, Clean, Text.Split, Text.Join, NamesSplit, ScanArchive, Text.FreeOf;
    ScanUnder(sc, where, ms, ms);
    FindingPathSplits(sc, where, ms, ms, l);
    AbsKeepsIff(sc.workingDir, PathOf(l.where));
    Text.SplitJoin(l.where, PATH_SEPARATOR);
    Text.JoinSplit(l.finding.path, PATH_SEPARATOR);
  }

  /** Below a file with a clean name, proper names leave nothing to clean. */
  lemma {:induction false} ProperIsClean(where: seq<string>)
    requires where != [] && Clean(where[0]) && where[0] != SLASH && ProperPath(where[1..])
    ensures Clean(PathOf(where)) && PathOf(where) != SLASH
  {
    hide Clean, Proper, Text.Join;
    if |where| == 1 {
      assert where == [where[0]];
      OneStep(where[0]);
    } else {
      var init, last := where[..|where| - 1], where[|where| - 1];
      assert where == init + [last] && init[1..] == where[1..|where| - 1] && last in where[1..];
      ProperIsClean(init);
      PathOfNested(init, last);
      StepIsClean(PathOf(init), last);
    }
  }

  lemma OneStep(name: string)
    ensures PathOf([name]) == name
  {
  }

  lemma StepIsClean(path: string, name: string)
    requires Clean(path) && path != SLASH && Proper(name)
    ensures Clean(path + PATH_SEPARATOR + name) && path + PATH_SEPARATOR + name != SLASH
  {
    hide Text.Split;
    var a, b := path[1..], PATH_SEPARATOR + name;
    assert (path + PATH_SEPARATOR + name)[1..] == a + b;
    SplitGlued(PATH_SEPARATOR, name);
    SplitGlued(a, b);
    NoSlashFree(PATH_SEPARATOR);
    OneElement(PATH_SEPARATOR);
    var before, glued := Text.Split(a, SLASH), Text.Split(b, SLASH)[0];
    assert Ordinary(before[|before| - 1]) && |glued| >= 2;
    assert |before[|before| - 1] + glued| >= 3;
  }

  // ----- the file system -----

  /** Archives on disk are readable, and their names can be told from the names inside. */
  ghost predicate ScannableFiles(files: Files) {
    forall f :: f in files && files[f].Zip? ==> Tidy(files[f].members) && NamesSplit(files[f].members)
  }

  /** A finding of the scan of a file. Its joined path is one that filepath.Abs leaves alone: the file is named from
      the root of the file system, and there is nothing to clean in the nested names. */
  ghost predicate ScannedFrom(sc: Scanner, files: Files, l: Located) {
    && l.where != [] && l.where[0] in files && files[l.where[0]].Zip?
    && IsArchiveName(l.where[0]) && Text.FreeOf(l.where[0], PATH_SEPARATOR)
    && l in ScanContent(sc, [l.where[0]], files[l.where[0]])
    && Clean(PathOf(l.where))
  }

  /** The nested paths of the findings in one file, in order. */
  function PathsIn(ls: seq<Located>, f: string): seq<seq<string>> {
    if ls == [] then []
    else if ls[|ls| - 1].where != [] && ls[|ls| - 1].where[0] == f
      then PathsIn(ls[..|ls| - 1], f) + [ls[|ls| - 1].where[1..]]
    else PathsIn(ls[..|ls| - 1], f)
  }

  /** Within its file the finding is reached by proper names only. */
  predicate Opens(l: Located) {
    l.where != [] && ProperPath(l.where[1..])
  }

  function Opening(ls: seq<Located>): (r: seq<Located>)
    ensures forall l :: l in r <==> l in ls && Opens(l)
    ensures |r| <= |ls| && (|r| == |ls| <==> forall l :: l in ls ==> Opens(l))
  {
    if ls == [] then []
    else
      assert ls == ls[..|ls| - 1] + [ls[|ls| - 1]];
      Opening(ls[..|ls| - 1]) + if Opens(ls[|ls| - 1]) then [ls[|ls| - 1]] else []
  }

  function ReportedPaths(ls: seq<Located>): (r: seq<string>)
    ensures |r| == |ls|
  {
    seq(|ls|, i requires 0 <= i < |ls| => ls[i].finding.path)
  }

  /** After the loop every scanned file has had the class taken out at each of these findings. */
  ghost predicate AllTakenOut(before: Files, after: Files, ls: seq<Located>) {
    forall f :: f in before && before[f].Zip? && IsArchiveName(f) ==>
      f in after && after[f] == Zip(RemoveAll(before[f].members, PathsIn(ls, f)))
  }

  /** With backups, the copy beside a patched file is the file as it was before its last patch. */
  ghost predicate CopiedBeforeLast(before: Files, after: Files, ls: seq<Located>) {
    forall f :: f in before && before[f].Zip? && IsArchiveName(f) && PathsIn(ls, f) != [] ==>
      BackupPath(f) in after
      && after[BackupPath(f)] == Zip(RemoveAll(before[f].members, PathsIn(ls, f)[..|PathsIn(ls, f)| - 1]))
  }

  lemma BackupNamesDiffer(f: string, g: string)
    requires f != g
    ensures BackupPath(f) != BackupPath(g)
  {
    assert (f + ".bak")[..|f|] == f && (g + ".bak")[..|g|] == g;
    assert |f + ".bak"| == |f| + 4 && |g + ".bak"| == |g| + 4;
  }

  lemma BackupIsNoArchive(f: string)
    ensures !IsArchiveName(BackupPath(f))
  {
    var p := f + ".bak";
    var n := |p|;
    assert p[n - 1] == 'k' && p[n - 2] == 'a' && p[n - 3] == 'b' && p[n - 4] == '.';
    assert ExtBefore(p, n - 3) == p[n - 4..];
    assert ExtBefore(p, n - 2) == ExtBefore(p, n - 3);
    assert ExtBefore(p, n - 1) == ExtBefore(p, n - 2);
    assert p[n - 4..] == ".bak";
    assert ToLower(".bak") == ".bak";
  }

  lemma {:induction false} PathsInAreArchivePaths(sc: Scanner, files: Files, ls: seq<Located>, f: string)
    requires HashNeverEmpty(sc) && ScannableFiles(files)
    requires forall l :: l in ls ==> ScannedFrom(sc, files, l)
    ensures forall p :: p in PathsIn(ls, f) ==> ArchivePath(p)
  {
    hide FileExt, Proper, Ripe, Tidy, NamesSplit, ScanArchive;
    if ls != [] {
      var l := ls[|ls| - 1];
      assert ls == ls[..|ls| - 1] + [l] && l in ls;
      PathsInAreArchivePaths(sc, files, ls[..|ls| - 1], f);
      FindingIsRipe(sc, [l.where[0]], files[l.where[0]].members, l);
    }
  }

  lemma ScannedFindingForm(sc: Scanner, files: Files, l: Located)
    requires HashNeverEmpty(sc) && ScannableFiles(files) && ScannedFrom(sc, files, l)
    ensures l.finding.jndiLookupFileName == JNDI_LOOKUP
    ensures Text.Split(l.finding.path, PATH_SEPARATOR) == l.where
    ensures ArchivePath(l.where[1..]) && Reached(files[l.where[0]].members, l.where[1..])
    ensures Ripe(sc.hash, files[l.where[0]].members, l.where[1..], l.finding.jndiLookupHash) <==> Opens(l)
  {
    hide FileExt, Proper, Ripe, Tidy, NamesSplit, ScanArchive, Text.Split, Abs, Clean;
    var root, ms := [l.where[0]], files[l.where[0]].members;
    ScanUnder(sc, root, ms, ms);
    FindingIsRipe(sc, root, ms, l);
    PathNamesArchiveIff(sc, root, ms, l);
  }

  // ----- the loop -----

  /** What has been answered allows the patch of the finding at i: always under force-patch, else with "y" for this
      finding or "a" for this or an earlier one. */
  ghost predicate Allowed(force: bool, answers: nat -> seq<string>, i: nat) {
    force || Says(answers(i), "y") || exists j: nat :: j <= i && Says(answers(j), "a")
  }

  /** The findings that are allowed to be patched and open, in order. */
  ghost function Patched(force: bool, answers: nat -> seq<string>, ls: seq<Located>): (r: seq<Located>)
    ensures forall l :: l in r ==> l in ls && Opens(l)
  {
    if ls == [] then []
    else
      var init, l := ls[..|ls| - 1], ls[|ls| - 1];
      assert ls == init + [l];
      Patched(force, answers, init) + if Opens(l) && Allowed(force, answers, |init|) then [l] else []
  }

  /** What the files are after these patches: unchanged by a dry run. */
  ghost predicate PatchedFiles(before: Files, after: Files, dryRun: bool, backup: bool, ls: seq<Located>) {
    if dryRun then after == before
    else AllTakenOut(before, after, ls) && (backup ==> CopiedBeforeLast(before, after, ls))
  }

  /** The loop on findings of a scan in any order: exactly the findings that open and that the user allows are patched
      and listed; a dry run lists the same and changes nothing. */
  lemma {:induction false} LoopPatchesAllowed(sc: Scanner, files: Files, ls: seq<Located>, force: bool, dryRun: bool,
      backup: bool, answers: nat -> seq<string>, askSkip: Member -> bool)
    requires HashNeverEmpty(sc) && ScannableFiles(files)
    requires forall l :: l in ls ==> ScannedFrom(sc, files, l)
    ensures var end := Rounds(sc.hash, LoopState(files, force, []), Findings(ls), dryRun, backup, answers, askSkip);
      && PatchedFiles(files, end.files, dryRun, backup, Patched(force, answers, ls))
      && end.patchedLibraries == ReportedPaths(Patched(force, answers, ls))
      && (end.forcePatch <==> force || exists j: nat :: j < |ls| && Says(answers(j), "a"))
  {
    hide AllTakenOut, CopiedBeforeLast, PatchedFiles, ScannedFrom, ScannableFiles, Round, Opens, Rounds, Patched,
      ReportedPaths, Findings, HashNeverEmpty, Says;
    var start := LoopState(files, force, []);
    if ls == [] {
      NothingTakenOut(files, dryRun, backup);
      NoRounds(sc.hash, start, dryRun, backup, answers, askSkip);
    } else {
      var init, l := ls[..|ls| - 1], ls[|ls| - 1];
      assert ls == init + [l];
      LoopPatchesAllowed(sc, files, init, force, dryRun, backup, answers, askSkip);
      RoundsNext(sc.hash, start, init, l, dryRun, backup, answers, askSkip);
      PatchedNext(force, answers, init, l);
      var s := Rounds(sc.hash, start, Findings(init), dryRun, backup, answers, askSkip);
      var replies := answers(|init|);
      PromptedRound(sc.hash, s, l.finding, dryRun, backup, replies, askSkip);
      var forced := s.(forcePatch := true);
      RoundOnForce(sc, files, Patched(force, answers, init), forced, l, dryRun, backup, replies, askSkip);
    }
  }

  /** What an answer does to a round: "n" or none keeps everything, "y" allows this round, "a" forces this round and
      all later ones. */
  lemma PromptedRound(hash: Content -> string, s: LoopState, finding: Finding, dryRun: bool, backup: bool,
      replies: seq<string>, askSkip: Member -> bool)
    ensures var r := Round(hash, s, finding, dryRun, backup, replies, askSkip);
      var forced := Round(hash, s.(forcePatch := true), finding, dryRun, backup, replies, askSkip);
      && (finding.jndiLookupFileName == "" ==> r == s)
      && (s.forcePatch ==> r == forced)
      && (Says(replies, "a") && finding.jndiLookupFileName != "" ==> r == forced)
      && (!s.forcePatch && Says(replies, "y") ==> r == forced.(forcePatch := false))
      && (!s.forcePatch && !Says(replies, "y") && !Says(replies, "a") ==> r == s)
  {
    hide Says, Processed;
    DecisionSays(replies);
  }

  lemma RoundOnForce(sc: Scanner, files: Files, init: seq<Located>, s: LoopState, l: Located, dryRun: bool,
      backup: bool, replies: seq<string>, askSkip: Member -> bool)
    requires HashNeverEmpty(sc) && ScannableFiles(files) && ScannedFrom(sc, files, l) && s.forcePatch
    requires (forall k :: k in init ==> ScannedFrom(sc, files, k))
      && PatchedFiles(files, s.files, dryRun, backup, init)
    ensures l.finding.jndiLookupFileName != ""
    ensures var s' := Round(sc.hash, s, l.finding, dryRun, backup, replies, askSkip);
      && s'.forcePatch
      && PatchedFiles(files, s'.files, dryRun, backup, if Opens(l) then init + [l] else init)
      && s'.patchedLibraries == s.patchedLibraries + if Opens(l) then [l.finding.path] else []
  {
    hide AllTakenOut, CopiedBeforeLast, ScannedFrom, ScannableFiles, Round, Opens, HashNeverEmpty;
    NamedTarget(sc, files, l);
    if dryRun {
      DryRound(sc, files, s, l, backup, replies, askSkip);
    } else if Opens(l) {
      ForcedRound(sc, files, init, s, l, backup, replies, askSkip);
    } else {
      ShutRound(sc, files, init, s, l, backup, replies, askSkip);
    }
  }

  lemma NamedTarget(sc: Scanner, files: Files, l: Located)
    requires HashNeverEmpty(sc) && ScannableFiles(files) && ScannedFrom(sc, files, l)
    ensures l.finding.jndiLookupFileName != ""
  {
    hide *;
    ScannedFindingForm(sc, files, l);
    TargetNameNotEmpty();
  }

  /** A dry run opens the same findings and changes no file. */
  lemma DryRound(sc: Scanner, files: Files, s: LoopState, l: Located, backup: bool, replies: seq<string>,
      askSkip: Member -> bool)
    requires HashNeverEmpty(sc) && ScannableFiles(files) && ScannedFrom(sc, files, l)
    requires s.forcePatch && s.files == files
    ensures Round(sc.hash, s, l.finding, true, backup, replies, askSkip)
      == s.(patchedLibraries := s.patchedLibraries + if Opens(l) then [l.finding.path] else [])
  {
    hide Proper, FileExt, NamesSplit, Tidy, RemoveAt, Text.Split, ScanArchive, ProperPath;
    var ms, path := files[l.where[0]].members, l.where[1..];
    ScannedFindingForm(sc, files, l);
    TargetNameNotEmpty();
    if PathOpens(ms, path) { OpenMeansProper(ms, path); }
    assert s.patchedLibraries + [] == s.patchedLibraries;
  }

  /** Under force-patch, whatever the user would have answered: exactly the findings that open are patched, hence all
      of them if and only if all open. */
  lemma ForcedLoopPatchesAll(sc: Scanner, files: Files, ls: seq<Located>, backup: bool,
      answers: nat -> seq<string>, askSkip: Member -> bool)
    requires HashNeverEmpty(sc) && ScannableFiles(files)
    requires forall l :: l in ls ==> ScannedFrom(sc, files, l)
    ensures var end := Rounds(sc.hash, LoopState(files, true, []), Findings(ls), false, backup, answers, askSkip);
      AllTakenOut(files, end.files, Opening(ls)) && (backup ==> CopiedBeforeLast(files, end.files, Opening(ls)))
      && end.forcePatch && end.patchedLibraries == ReportedPaths(Opening(ls))
      && (|end.patchedLibraries| == |ls| <==> forall l :: l in ls ==> Opens(l))
  {
    hide AllTakenOut, CopiedBeforeLast, ScannedFrom, ScannableFiles, Opens, Rounds, ReportedPaths, Says, Patched,
      Opening;
    LoopPatchesAllowed(sc, files, ls, true, false, backup, answers, askSkip);
    ForcePatchesOpening(answers, ls);
  }

  lemma {:induction false} ForcePatchesOpening(answers: nat -> seq<string>, ls: seq<Located>)
    ensures Patched(true, answers, ls) == Opening(ls)
  {
    hide Opens;
    if ls != [] { ForcePatchesOpening(answers, ls[..|ls| - 1]); }
  }

  lemma NoRounds(hash: Content -> string, start: LoopState, dryRun: bool, backup: bool, answers: nat -> seq<string>,
      askSkip: Member -> bool)
    ensures Rounds(hash, start, Findings([]), dryRun, backup, answers, askSkip) == start
    ensures ReportedPaths([]) == [] && forall force :: Patched(force, answers, []) == []
  {
  }

  lemma RoundsNext(hash: Content -> string, start: LoopState, init: seq<Located>, l: Located, dryRun: bool,
      backup: bool, answers: nat -> seq<string>, askSkip: Member -> bool)
    ensures var s := Rounds(hash, start, Findings(init), dryRun, backup, answers, askSkip);
      Rounds(hash, start, Findings(init + [l]), dryRun, backup, answers, askSkip)
        == Round(hash, s, l.finding, dryRun, backup, answers(|init|), askSkip)
  {
    hide Round;
    assert Findings(init + [l])[..|init|] == Findings(init);
  }

  lemma PatchedNext(force: bool, answers: nat -> seq<string>, init: seq<Located>, l: Located)
    ensures var before := Patched(force, answers, init);
      && Patched(force, answers, init + [l])
        == (if Opens(l) && Allowed(force, answers, |init|) then before + [l] else before)
      && ReportedPaths(before + [l]) == ReportedPaths(before) + [l.finding.path]
  {
    hide Opens, Allowed;
    var before := Patched(force, answers, init);
    assert (init + [l])[..|init|] == init && before + [] == before;
  }

  lemma NothingTakenOut(files: Files, dryRun: bool, backup: bool)
    ensures PatchedFiles(files, files, dryRun, backup, [])
  {
  }

  lemma ForcedRound(sc: Scanner, files: Files, init: seq<Located>, s: LoopState, l: Located, backup: bool,
      replies: seq<string>, askSkip: Member -> bool)
    requires HashNeverEmpty(sc) && ScannableFiles(files)
    requires forall k :: k in init ==> ScannedFrom(sc, files, k)
    requires ScannedFrom(sc, files, l) && Opens(l)
    requires AllTakenOut(files, s.files, init) && s.forcePatch && (backup ==> CopiedBeforeLast(files, s.files, init))
    ensures var s' := Round(sc.hash, s, l.finding, false, backup, replies, askSkip);
      AllTakenOut(files, s'.files, init + [l]) && (backup ==> CopiedBeforeLast(files, s'.files, init + [l]))
      && s'.forcePatch && s'.patchedLibraries == s.patchedLibraries + [l.finding.path]
  {
    hide Proper, FileExt, NamesSplit, Tidy, RemoveAt, RemoveAll, PathsIn, CopiedBeforeLast, Text.Split, ScanArchive;
    var f, path := l.where[0], l.where[1..];
    var ms, ms' := files[f].members, RemoveAll(files[f].members, PathsIn(init, f));
    ScannedFindingForm(sc, files, l);
    TargetNameNotEmpty();
    PathsInAreArchivePaths(sc, files, init, f);
    RipeAfterAll(sc.hash, ms, PathsIn(init, f), path, l.finding.jndiLookupHash);
    RemoveAllTidy(ms, PathsIn(init, f));
    NoPrompt(sc.hash, l.finding, ms', path, askSkip);
    var copied := if backup then s.files[BackupPath(f) := Zip(ms')] else s.files;
    var after := copied[f := Zip(RemoveAt(ms', path, IsTarget))];
    assert Round(sc.hash, s, l.finding, false, backup, replies, askSkip).files == after;
    RoundFiles(files, init, s.files, l, backup, after);
  }

  lemma TargetNameNotEmpty()
    ensures JNDI_LOOKUP != ""
  {
    JndiLookupEnd();
  }

  /** A finding that does not open fails and changes nothing. */
  lemma ShutRound(sc: Scanner, files: Files, init: seq<Located>, s: LoopState, l: Located, backup: bool,
      replies: seq<string>, askSkip: Member -> bool)
    requires HashNeverEmpty(sc) && ScannableFiles(files)
    requires ScannedFrom(sc, files, l) && !Opens(l) && AllTakenOut(files, s.files, init) && s.forcePatch
    ensures Round(sc.hash, s, l.finding, false, backup, replies, askSkip) == s
  {
    hide Proper, FileExt, NamesSplit, Tidy, RemoveAt, RemoveAll, PathsIn, Text.Split, Ripe, ScanArchive, ProperPath;
    var f, path := l.where[0], l.where[1..];
    var ms' := RemoveAll(files[f].members, PathsIn(init, f));
    ScannedFindingForm(sc, files, l);
    TargetNameNotEmpty();
    ReachedAfterAll(files[f].members, PathsIn(init, f), path);
    if PathOpens(ms', path) { OpenMeansProper(ms', path); }
    assert Processed(sc.hash, s.files, l.finding, false, backup, askSkip).Failure?;
  }

  lemma RoundFiles(before: Files, init: seq<Located>, files: Files, l: Located, backup: bool, after: Files)
    requires l.where != [] && l.where[0] in before && before[l.where[0]].Zip? && IsArchiveName(l.where[0])
    requires AllTakenOut(before, files, init) && (backup ==> CopiedBeforeLast(before, files, init))
    requires var f, ms' := l.where[0], RemoveAll(before[l.where[0]].members, PathsIn(init, l.where[0]));
      var copied := if backup then files[BackupPath(f) := Zip(ms')] else files;
      after == copied[f := Zip(RemoveAt(ms', l.where[1..], IsTarget))]
    ensures AllTakenOut(before, after, init + [l]) && (backup ==> CopiedBeforeLast(before, after, init + [l]))
  {
    hide IsArchiveName, RemoveAt, RemoveAll, PathsIn, BackupPath;
    var f := l.where[0];
    PathsInNext(init, l);
    BackupIsNoArchive(f);
    forall g | g in before && before[g].Zip? && IsArchiveName(g)
      ensures g in after && after[g] == Zip(RemoveAll(before[g].members, PathsIn(init + [l], g)))
    {
      if g == f { RemoveAllNext(before[g].members, PathsIn(init, g), l.where[1..]); }
    }
    if backup {
      forall g | g in before && before[g].Zip? && IsArchiveName(g) && PathsIn(init + [l], g) != []
        ensures BackupPath(g) in after
        ensures after[BackupPath(g)]
          == Zip(RemoveAll(before[g].members, PathsIn(init + [l], g)[..|PathsIn(init + [l], g)| - 1]))
      {
        BackupIsNoArchive(g);
        if g != f { BackupNamesDiffer(f, g); }
      }
    }
  }

  lemma PathsInNext(init: seq<Located>, l: Located)
    requires l.where != []
    ensures forall g ::
      PathsIn(init + [l], g) == if g == l.where[0] then PathsIn(init, g) + [l.where[1..]] else PathsIn(init, g)
    ensures PathsIn(init + [l], l.where[0])[..|PathsIn(init, l.where[0])|] == PathsIn(init, l.where[0])
  {
    assert (init + [l])[..|init|] == init;
  }

  lemma RemoveAllNext(ms: seq<Member>, paths: seq<seq<string>>, p: seq<string>)
    ensures RemoveAll(ms, paths + [p]) == RemoveAt(RemoveAll(ms, paths), p, IsTarget)
  {
    assert (paths + [p])[..|paths|] == paths;
  }

  lemma {:induction false} RemoveAllTidy(ms: seq<Member>, paths: seq<seq<string>>)
    requires Tidy(ms)
    ensures Tidy(RemoveAll(ms, paths))
  {
    if paths != [] {
      RemoveAllTidy(ms, paths[..|paths| - 1]);
      RemoveKeepsTidy(RemoveAll(ms, paths[..|paths| - 1]), paths[|paths| - 1], IsTarget);
    }
  }

  // ----- what the answers lead to -----

  lemma {:induction false} AllowedIsPatched(force: bool, answers: nat -> seq<string>, ls: seq<Located>, i: nat)
    requires i < |ls| && Opens(ls[i]) && Allowed(force, answers, i)
    ensures ls[i] in Patched(force, answers, ls)
  {
    hide Opens, Allowed;
    if i < |ls| - 1 { AllowedIsPatched(force, answers, ls[..|ls| - 1], i); }
  }

  /** A finding that opens and is answered "y" is listed, and its class is gone from the archive it reported. */
  lemma AnsweredYesIsPatched(sc: Scanner, files: Files, ls: seq<Located>, force: bool, backup: bool,
      answers: nat -> seq<string>, askSkip: Member -> bool, i: nat)
    requires HashNeverEmpty(sc) && ScannableFiles(files) && forall k :: k in ls ==> ScannedFrom(sc, files, k)
    requires i < |ls| && Opens(ls[i]) && Says(answers(i), "y")
    ensures var end := Rounds(sc.hash, LoopState(files, force, []), Findings(ls), false, backup, answers, askSkip);
      var l := ls[i];
      && l.finding.path in end.patchedLibraries && l.where[0] in end.files && end.files[l.where[0]].Zip?
      && forall m :: m in MembersAt(end.files[l.where[0]].members, l.where[1..]) ==> m.name != JNDI_LOOKUP
  {
    hide RemoveAll, PathsIn, Rounds, MembersAt, CopiedBeforeLast, Opens, NamesSplit, Says, Text.Join;
    var patched, l := Patched(force, answers, ls), ls[i];
    LoopPatchesAllowed(sc, files, ls, force, false, backup, answers, askSkip);
    AllowedIsPatched(force, answers, ls, i);
    var k :| 0 <= k < |patched| && patched[k] == l;
    assert ReportedPaths(patched)[k] == l.finding.path;
    assert ScannedFrom(sc, files, l);
    PathsInHas(patched, l);
    var paths := PathsIn(patched, l.where[0]);
    var end := RemoveAll(files[l.where[0]].members, paths);
    TakenOutEverywhere(files[l.where[0]].members, paths);
    forall m | m in MembersAt(end, l.where[1..]) ensures m.name != JNDI_LOOKUP { assert !IsTarget(m); }
  }

  lemma {:induction false} NotAllowedNotPatched(force: bool, answers: nat -> seq<string>, ls: seq<Located>, f: string)
    requires forall i: nat :: i < |ls| && ls[i].where != [] && ls[i].where[0] == f ==> !Allowed(force, answers, i)
    ensures PathsIn(Patched(force, answers, ls), f) == []
  {
    hide Opens, Allowed;
    if ls != [] {
      var init, l := ls[..|ls| - 1], ls[|ls| - 1];
      assert ls == init + [l];
      NotAllowedNotPatched(force, answers, init, f);
      PatchedNext(force, answers, init, l);
      var before := Patched(force, answers, init);
      assert (before + [l])[..|before|] == before;
    }
  }

  /** A file about which every finding is answered "n", or not answered, and no earlier one "a", stays as it is. */
  lemma AnsweredNoStays(sc: Scanner, files: Files, ls: seq<Located>, dryRun: bool, backup: bool,
      answers: nat -> seq<string>, askSkip: Member -> bool, f: string)
    requires HashNeverEmpty(sc) && ScannableFiles(files) && forall k :: k in ls ==> ScannedFrom(sc, files, k)
    requires f in files && files[f].Zip? && IsArchiveName(f)
    requires forall i: nat :: i < |ls| && ls[i].where != [] && ls[i].where[0] == f ==>
      !Says(answers(i), "y") && forall j: nat :: j <= i ==> !Says(answers(j), "a")
    ensures var end := Rounds(sc.hash, LoopState(files, false, []), Findings(ls), dryRun, backup, answers, askSkip);
      f in end.files && end.files[f] == files[f]
  {
    hide PathsIn, Rounds, CopiedBeforeLast, Opens, NamesSplit, Says, RemoveAt, Patched, FileExt;
    LoopPatchesAllowed(sc, files, ls, false, dryRun, backup, answers, askSkip);
    NotAllowedNotPatched(false, answers, ls, f);
    assert RemoveAll(files[f].members, []) == files[f].members;
  }

  lemma ForcedIgnoresReplies(hash: Content -> string, s: LoopState, finding: Finding, dryRun: bool, backup: bool,
      replies: seq<string>, others: seq<string>, askSkip: Member -> bool)
    requires s.forcePatch
    ensures Round(hash, s, finding, dryRun, backup, replies, askSkip)
      == Round(hash, s, finding, dryRun, backup, others, askSkip)
    ensures Round(hash, s, finding, dryRun, backup, replies, askSkip).forcePatch
  {
    hide Processed, Decision;
  }

  /** From a finding that is answered "a" on, the run is a forced run over the rest, whatever is answered later. */
  lemma {:induction false} AnsweredAllForcesRest(hash: Content -> string, start: LoopState, fs: seq<Finding>,
      dryRun: bool, backup: bool, answers: nat -> seq<string>, others: nat -> seq<string>, askSkip: Member -> bool,
      n: nat)
    requires n < |fs| && fs[n].jndiLookupFileName != "" && Says(answers(n), "a")
    ensures var before := Rounds(hash, start, fs[..n], dryRun, backup, answers, askSkip);
      var end := Rounds(hash, start, fs, dryRun, backup, answers, askSkip);
      && end == Rounds(hash, before.(forcePatch := true), fs[n..], dryRun, backup, others, askSkip) && end.forcePatch
  {
    hide Round, Says;
    var m := |fs| - 1;
    var rest, init := fs[n..], fs[..m];
    var before := Rounds(hash, start, fs[..n], dryRun, backup, answers, askSkip);
    var forced := before.(forcePatch := true);
    assert rest[m - n] == fs[m] && rest[..m - n] == fs[n..m];
    if m == n {
      PromptedRound(hash, before, fs[n], dryRun, backup, answers(n), askSkip);
      assert Rounds(hash, forced, rest[..0], dryRun, backup, others, askSkip) == forced;
      ForcedIgnoresReplies(hash, forced, fs[n], dryRun, backup, answers(n), others(0), askSkip);
    } else {
      assert init[..n] == fs[..n] && init[n..] == rest[..m - n];
      AnsweredAllForcesRest(hash, start, init, dryRun, backup, answers, others, askSkip, n);
      var s := Rounds(hash, start, init, dryRun, backup, answers, askSkip);
      ForcedIgnoresReplies(hash, s, fs[m], dryRun, backup, answers(m), others(m - n), askSkip);
    }
  }

  /** The class is gone from every archive that a patched finding reported. */
  lemma ReportedArchivesCleared(sc: Scanner, files: Files, ls: seq<Located>, backup: bool,
      answers: nat -> seq<string>, askSkip: Member -> bool, l: Located)
    requires HashNeverEmpty(sc) && ScannableFiles(files) && l in ls && Opens(l)
    requires forall k :: k in ls ==> ScannedFrom(sc, files, k)
    ensures var end := Rounds(sc.hash, LoopState(files, true, []), Findings(ls), false, backup, answers, askSkip);
      l.where[0] in end.files && end.files[l.where[0]].Zip?
      && forall m :: m in MembersAt(end.files[l.where[0]].members, l.where[1..]) ==> !IsTarget(m)
  {
    hide RemoveAll, PathsIn, Rounds, MembersAt, CopiedBeforeLast, Opens, NamesSplit;
    ForcedLoopPatchesAll(sc, files, ls, backup, answers, askSkip);
    assert ScannedFrom(sc, files, l) && l in Opening(ls) && l.where != [];
    PathsInHas(Opening(ls), l);
    TakenOutEverywhere(files[l.where[0]].members, PathsIn(Opening(ls), l.where[0]));
  }

  lemma {:induction false} PathsInHas(ls: seq<Located>, l: Located)
    requires l in ls && l.where != []
    ensures l.where[1..] in PathsIn(ls, l.where[0])
  {
    var last := ls[|ls| - 1];
    assert ls == ls[..|ls| - 1] + [last];
    if l != last { PathsInHas(ls[..|ls| - 1], l); }
  }
}
