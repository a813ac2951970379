/** The patch command: each finding's file is rewritten in turn. What the whole loop leaves behind. */
module PatchCommand {
  import opened Options
  import opened Archive
  import opened ArchiveScan
  import opened ArchiveRescan
  import opened ArchivePatch
  import opened ZipNames
  import Text

  type Files = map<string, Content>

  ghost predicate AllTidy(files: Files) {
    forall f :: f in files && files[f].Zip? ==> Tidy(files[f].members)
  }

  datatype Answer = Yes | No | All | Unreadable

  class FileSystem {
    var files: Files
  }

  function BackupPath(f: string): string {
    f + ".bak"
  }

  /** Rewriting the file of one finding; a failure leaves every file as it was. */
  ghost function Processed(hash: Content -> string, files: Files, finding: Finding, dryRun: bool, backup: bool,
      askSkip: Member -> bool): Result<Files>
  {
    var where := Text.Split(finding.path, PATH_SEPARATOR);
    var f := where[0];
    if f !in files || files[f].Plain? || !PathOpens(files[f].members, where[1..]) then Failure
    else if dryRun then Success(files)
    else
      var patched := RemoveAt(files[f].members, where[1..], Dropped(hash, finding, askSkip));
      Success((if backup then files[BackupPath(f) := files[f]] else files)[f := Zip(patched)])
  }

  method ProcessJavaArchive(fs: FileSystem, hash: Content -> string, finding: Finding, dryRun: bool, backup: bool,
      askSkip: Member -> bool) returns (ok: bool)
    requires AllTidy(fs.files)
    modifies fs
    ensures Processed(hash, old(fs.files), finding, dryRun, backup, askSkip)
      == if ok then Success(fs.files) else Failure
    ensures !ok ==> fs.files == old(fs.files)
  {
    var zipPaths := Text.Split(finding.path, PATH_SEPARATOR);
    var fsFile := Head(zipPaths);
    assert Tail(zipPaths) == zipPaths[1..];
    if fsFile !in fs.files || fs.files[fsFile].Plain? { return false; }
    var filtered := CopyAndFilterFilesFromZip(hash, finding, fs.files[fsFile].members, Tail(zipPaths), askSkip);
    if filtered.Failure? { return false; }
    ok := true;
    if dryRun { return; }
    if backup { fs.files := fs.files[BackupPath(fsFile) := fs.files[fsFile]]; }
    fs.files := fs.files[fsFile := Zip(filtered.value)];
  }

  // ----- the loop -----

  datatype LoopState = LoopState(files: Files, forcePatch: bool, patchedLibraries: seq<string>)

  /** What the user decides: the first reply that is one of the three options, or nothing when the input ends. */
  function Decision(replies: seq<string>): Answer {
    if replies == [] then Unreadable
    else if replies[0] == "y" then Yes
    else if replies[0] == "n" then No
    else if replies[0] == "a" then All
    else Decision(replies[1..])
  }

  predicate IsAnswer(reply: string) {
    reply == "y" || reply == "n" || reply == "a"
  }

  /** The user's first reply that is an answer is this one. */
  ghost predicate Says(replies: seq<string>, answer: string) {
    exists k :: 0 <= k < |replies| && replies[k] == answer && IsAnswer(answer)
      && forall j :: 0 <= j < k ==> !IsAnswer(replies[j])
  }

  lemma {:induction false} DecisionSays(replies: seq<string>)
    ensures Decision(replies).Yes? <==> Says(replies, "y")
    ensures Decision(replies).No? <==> Says(replies, "n")
    ensures Decision(replies).All? <==> Says(replies, "a")
    ensures Decision(replies).Unreadable? <==> forall k :: 0 <= k < |replies| ==> !IsAnswer(replies[k])
  {
    if replies != [] {
      if IsAnswer(replies[0]) {
        forall answer ensures Says(replies, answer) <==> answer == replies[0] {}
      } else {
        DecisionSays(replies[1..]);
        forall answer ensures Says(replies, answer) <==> Says(replies[1..], answer) { SaysLater(replies, answer); }
        NoAnswerLater(replies);
      }
    }
  }

  lemma SaysLater(replies: seq<string>, answer: string)
    requires replies != [] && !IsAnswer(replies[0])
    ensures Says(replies, answer) <==> Says(replies[1..], answer)
  {
    var rest := replies[1..];
    if Says(replies, answer) {
      var k :| 0 <= k < |replies| && replies[k] == answer && IsAnswer(answer)
        && forall j :: 0 <= j < k ==> !IsAnswer(replies[j]);
      assert rest[k - 1] == answer && forall j :: 0 <= j < k - 1 ==> rest[j] == replies[j + 1];
    }
    if Says(rest, answer) {
      var k :| 0 <= k < |rest| && rest[k] == answer && IsAnswer(answer)
        && forall j :: 0 <= j < k ==> !IsAnswer(rest[j]);
      assert replies[k + 1] == answer && forall j :: 1 <= j < k + 1 ==> replies[j] == rest[j - 1];
    }
  }

  lemma NoAnswerLater(replies: seq<string>)
    requires replies != [] && !IsAnswer(replies[0])
    ensures (forall k :: 0 <= k < |replies| ==> !IsAnswer(replies[k]))
      <==> forall k :: 0 <= k < |replies[1..]| ==> !IsAnswer(replies[1..][k])
  {
    forall k | 1 <= k < |replies| ensures replies[k] == replies[1..][k - 1] {}
  }

  /** One round of the loop; the replies are what the user types if asked about this finding. */
  ghost function Round(hash: Content -> string, s: LoopState, finding: Finding, dryRun: bool, backup: bool,
      replies: seq<string>, askSkip: Member -> bool): LoopState
  {
    var answer := Decision(replies);
    if finding.jndiLookupFileName == "" then s
    else if !s.forcePatch && (answer.No? || answer.Unreadable?) then s
    else
      var forced := s.(forcePatch := s.forcePatch || answer.All?);
      match Processed(hash, s.files, finding, dryRun, backup, askSkip)
      case Failure => forced
      case Success(files) => forced.(files := files, patchedLibraries := s.patchedLibraries + [finding.path])
  }

  ghost function Rounds(hash: Content -> string, start: LoopState, findings: seq<Finding>, dryRun: bool, backup: bool,
      answers: nat -> seq<string>, askSkip: Member -> bool): LoopState
  {
    if findings == [] then start
    else
      var n := |findings| - 1;
      Round(hash, Rounds(hash, start, findings[..n], dryRun, backup, answers, askSkip), findings[n], dryRun, backup,
        answers(n), askSkip)
  }

  /** Asks until a reply is one of the options. */
  method AskIfShouldSkipPatch(replies: seq<string>) returns (shouldSkip: bool, forcePatch: bool)
    ensures shouldSkip <==> Decision(replies).No? || Decision(replies).Unreadable?
    ensures forcePatch <==> Decision(replies).All?
    ensures shouldSkip <==> Says(replies, "n") || forall k :: 0 <= k < |replies| ==> !IsAnswer(replies[k])
    ensures forcePatch <==> Says(replies, "a")
  {
    DecisionSays(replies);
    hide Says, IsAnswer;
    shouldSkip, forcePatch := false, false;
    var i := 0;
    while true
      invariant i <= |replies| && Decision(replies[i..]) == Decision(replies) && !shouldSkip && !forcePatch
      decreases |replies| - i
    {
      if i == |replies| { return true, false; }
      assert replies[i..][1..] == replies[i + 1..];
      var reply := replies[i];
      i := i + 1;
      match reply {
        case "y" => shouldSkip := false;
        case "n" => shouldSkip := true;
        case "a" => forcePatch := true;
        case _ => continue;
      }
      break;
    }
  }

  method JavaArchivePatchCommand(fs: FileSystem, hash: Content -> string, findings: seq<Finding>, forceFlag: bool,
      dryRun: bool, backup: bool, answers: nat -> seq<string>, askSkip: Member -> bool)
    returns (patchedLibraries: seq<string>)
    requires AllTidy(fs.files)
    modifies fs
    ensures var end :=
      Rounds(hash, LoopState(old(fs.files), forceFlag, []), findings, dryRun, backup, answers, askSkip);
      fs.files == end.files && patchedLibraries == end.patchedLibraries
    ensures AllTidy(fs.files)
  {
    var forcePatch := forceFlag;
    patchedLibraries := [];
    ghost var start := LoopState(fs.files, forceFlag, []);
    for i := 0 to |findings|
      invariant AllTidy(fs.files)
      invariant Rounds(hash, start, findings[..i], dryRun, backup, answers, askSkip)
        == LoopState(fs.files, forcePatch, patchedLibraries)
    {
      var finding := findings[i];
      assert findings[..i + 1][..i] == findings[..i];
      ghost var before := fs.files;
      if finding.jndiLookupFileName == "" { continue; }
      if !forcePatch {
        var shouldSkip: bool;
        shouldSkip, forcePatch := AskIfShouldSkipPatch(answers(i));
        if !forcePatch && shouldSkip { continue; }
      }
      var ok := ProcessJavaArchive(fs, hash, finding, dryRun, backup, askSkip);
      if !ok { continue; }
      ProcessedTidy(hash, before, finding, dryRun, backup, askSkip);
      patchedLibraries := patchedLibraries + [finding.path];
    }
    assert findings[..|findings|] == findings;
  }

  // ----- a patch keeps archives tidy -----

  lemma TidyCons(m: Member, rest: seq<Member>)
    requires Tidy([m]) && Tidy(rest) && forall n :: n in rest ==> ListedName(n.name) != ListedName(m.name)
    ensures Tidy([m] + rest)
  {
    hide ListedName;
  }

  lemma TidyTail(ms: seq<Member>)
    requires ms != [] && Tidy(ms)
    ensures Tidy([ms[0]]) && Tidy(ms[1..]) && forall n :: n in ms[1..] ==> ListedName(n.name) != ListedName(ms[0].name)
  {
    hide ListedName;
  }

  lemma {:induction false} RemoveKeepsTidy(ms: seq<Member>, path: seq<string>, drop: Member -> bool)
    requires Tidy(ms)
    ensures Tidy(RemoveAt(ms, path, drop))
    ensures forall n :: n in RemoveAt(ms, path, drop) ==> exists m :: m in ms && m.name == n.name
    decreases |path|, |ms|
  {
    hide ListedName;
    if ms != [] {
      TidyTail(ms);
      RemoveKeepsTidy(ms[1..], path, drop);
      ActKeepsTidy(ms[0], path, drop);
      if Act(ms[0], path, drop) != [] {
        var m := Act(ms[0], path, drop)[0];
        assert Act(ms[0], path, drop) == [m];
        TidyCons(m, RemoveAt(ms[1..], path, drop));
      } else {
        assert RemoveAt(ms, path, drop) == RemoveAt(ms[1..], path, drop);
      }
    }
  }

  lemma {:induction false} ActKeepsTidy(m: Member, path: seq<string>, drop: Member -> bool)
    requires Tidy([m])
    ensures Tidy(Act(m, path, drop)) && |Act(m, path, drop)| <= 1
    ensures Act(m, path, drop) != [] ==> Act(m, path, drop)[0].name == m.name
    decreases |path|, 0
  {
    hide ListedName;
    if path != [] && Entered(m, path[0]) {
      assert m in [m];
      RemoveKeepsTidy(m.body.members, path[1..], drop);
    }
  }

  lemma ProcessedTidy(hash: Content -> string, files: Files, finding: Finding, dryRun: bool, backup: bool,
      askSkip: Member -> bool)
    requires AllTidy(files)
    ensures Processed(hash, files, finding, dryRun, backup, askSkip).Success? ==>
      AllTidy(Processed(hash, files, finding, dryRun, backup, askSkip).value)
  {
    var where := Text.Split(finding.path, PATH_SEPARATOR);
    if where[0] in files && files[where[0]].Zip? {
      RemoveKeepsTidy(files[where[0]].members, where[1..], Dropped(hash, finding, askSkip));
    }
  }
}
