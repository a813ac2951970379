/** Rewriting the archive file of a finding without its JndiLookup class, and the loop over findings. */
module ArchivePatch {
  import opened Options
  import opened Archive
  import opened ArchiveScan
  import opened ArchiveRescan
  import opened ZipNames
  import Text

  function Head(s: seq<string>): string {
    if |s| > 0 then s[0] else ""
  }

  function Tail(s: seq<string>): seq<string> {
    if |s| > 1 then s[1..] else []
  }

  /** What the rewrite of one finding leaves out: the named class, unless its hash differs from the one
      reported and the user then asks to keep it. */
  function Dropped(hash: Content -> string, finding: Finding, askSkip: Member -> bool): Member -> bool {
    (m: Member) => m.name == finding.jndiLookupFileName && (hash(m.body) == finding.jndiLookupHash || !askSkip(m))
  }

  method GetNestedZipReader(members: seq<Member>, zipPath: string) returns (r: Result<seq<Member>>)
    ensures zipPath == "" ==> r == Success(members)
    ensures zipPath != "" ==>
      r == if Open(members, zipPath) != [] && Open(members, zipPath)[0].Zip?
           then Success(Open(members, zipPath)[0].members) else Failure
  {
    if zipPath == "" { return Success(members); }
    var found := Open(members, zipPath);
    if found == [] || found[0].Plain? { return Failure; }
    return Success(found[0].members);
  }

  /** A file can be opened by its own name exactly when that name is proper. */
  lemma OpenUnique(ms: seq<Member>, m: Member)
    requires Tidy(ms) && m in ms && !m.isDir
    ensures Open(ms, m.name) == if Proper(m.name) then [m.body] else []
  {
    hide ListedName, ValidPath;
    if Proper(m.name) {
      var i :| 0 <= i < |ms| && ms[i] == m;
      ListedSuffix(ms, 0, i);
      assert ms[0..] == ms;
      ProperIsListed(m.name);
    } else if '\\' in m.name {
      NotListed(ms, m.name);
    }
  }

  lemma {:induction false} ListedSuffix(ms: seq<Member>, k: nat, i: nat)
    requires Tidy(ms) && k <= i < |ms| && !ms[i].isDir
    ensures Listed(ms[k..], ListedName(ms[i].name)) == [ms[i].body]
    decreases i - k
  {
    hide ListedName;
    assert ms[k..][1..] == ms[k + 1..];
    if k < i { ListedSuffix(ms, k + 1, i); }
  }

  lemma {:induction false} NotListed(ms: seq<Member>, name: string)
    requires '\\' in name
    ensures Listed(ms, name) == []
  {
    if ms != [] {
      ListedWithoutBackslash(ms[0].name);
      NotListed(ms[1..], name);
    }
  }

  /** Opening the name of a directory fails: it ends in '/', which no valid path does. */
  lemma OpenDirectoryFails(ms: seq<Member>, m: Member)
    requires Tidy(ms) && m in ms && m.isDir
    ensures Open(ms, m.name) == [] && !Proper(m.name)
  {
    EndsInSlash(m.name);
  }

  /** Copies an archive member by member, going down the nested path and leaving out the class at its end.
      It fails exactly when a step of the path names something that is no archive or does not open. */
  method CopyAndFilterFilesFromZip(hash: Content -> string, finding: Finding, members: seq<Member>,
      nestedPaths: seq<string>,
      askSkip: Member -> bool) returns (r: Result<seq<Member>>)
    requires Tidy(members)
    ensures r == if PathOpens(members, nestedPaths)
                 then Success(RemoveAt(members, nestedPaths, Dropped(hash, finding, askSkip))) else Failure
    decreases |nestedPaths|
  {
    hide ListedName, Open, Proper, Tidy, RemoveAt;
    ghost var drop := Dropped(hash, finding, askSkip);
    RemoveNone(nestedPaths, drop);
    NamesNotEmpty(members);
    var nestedPath := Head(nestedPaths);
    var out: seq<Member> := [];
    for i := 0 to |members|
      invariant out == RemoveAt(members[..i], nestedPaths, drop)
      invariant nestedPaths != [] ==> forall m :: m in members[..i] && m.name == nestedPath ==>
        StepOpens(m, nestedPaths)
    {
      var member := members[i];
      assert members[..i + 1] == members[..i] + [member];
      RemoveAtAppend(members[..i], [member], nestedPaths, drop);
      RemoveSingle(member, nestedPaths, drop);
      if member.name == nestedPath {
        OpensWhat(members, member, nestedPaths);
        var nested := GetNestedZipReader(members, nestedPath);
        if nested.Failure? { return Failure; }
        var inner := CopyAndFilterFilesFromZip(hash, finding, nested.value, Tail(nestedPaths), askSkip);
        assert Tail(nestedPaths) == nestedPaths[1..];
        if inner.Failure? { return Failure; }
        out := out + [member.(body := Zip(inner.value))];
        continue;
      }
      if |nestedPaths| == 0 && member.name == finding.jndiLookupFileName {
        var shouldSkip := false;
        if hash(member.body) != finding.jndiLookupHash {
          shouldSkip := askSkip(member);
        }
        if !shouldSkip { continue; }
      }
      if member.isDir {
        out := out + [Member(member.name, true, Plain([]))];
        continue;
      }
      out := out + [member];
    }
    assert members[..|members|] == members;
    r := Success(out);
  }

  lemma RemoveNone(path: seq<string>, drop: Member -> bool)
    ensures RemoveAt([], path, drop) == []
  {
  }

  lemma NamesNotEmpty(members: seq<Member>)
    requires Tidy(members)
    ensures forall m :: m in members ==> m.name != "" && (m.isDir ==> m.body == Plain([]))
  {
  }

  ghost predicate StepOpens(m: Member, path: seq<string>)
    requires path != []
  {
    Proper(m.name) && !m.isDir && m.body.Zip? && PathOpens(m.body.members, path[1..])
  }

  lemma RemoveSingle(m: Member, path: seq<string>, drop: Member -> bool)
    ensures RemoveAt([m], path, drop) == Act(m, path, drop)
  {
    assert [m][1..] == [];
  }

  lemma OpensWhat(members: seq<Member>, m: Member, path: seq<string>)
    requires Tidy(members) && m in members && m.name == Head(path)
    ensures path != []
    ensures m.isDir ==> Open(members, m.name) == [] && !PathOpens(members, path)
    ensures !m.isDir ==> Open(members, m.name) == if Proper(m.name) then [m.body] else []
    ensures !m.isDir && m.body.Zip? ==> Tidy(m.body.members)
    ensures PathOpens(members, path) ==> StepOpens(m, path)
  {
    hide ListedName, Open, Proper;
    if m.isDir { OpenDirectoryFails(members, m); } else { OpenUnique(members, m); }
  }

  /** Of the files with the class name in the target archive, those stay whose hash is not the reported one and for
      which the user asks to skip. */
  lemma PromptKeeps(hash: Content -> string, f: Finding, ms: seq<Member>, path: seq<string>, askSkip: Member -> bool,
      m: Member)
    requires m in MembersAt(ms, path)
    ensures m in MembersAt(RemoveAt(ms, path, Dropped(hash, f, askSkip)), path) <==>
      m.name == f.jndiLookupFileName ==> hash(m.body) != f.jndiLookupHash && askSkip(m)
  {
    RemovedAtPath(ms, path, Dropped(hash, f, askSkip));
    MemberOfWithout(MembersAt(ms, path), Dropped(hash, f, askSkip), m);
  }
}
