/** Java archives as trees of members, and taking a class out of one nested archive. */
module Archive {
  import Text
  import opened ZipNames

  type Bytes = seq<bv8>

  /** What a reader of zip files makes of some bytes: an archive with its members in order, or none. */
  datatype Content = Plain(bytes: Bytes) | Zip(members: seq<Member>)
  datatype Member = Member(name: string, isDir: bool, body: Content)

  const JNDI_PATH := ["org", "apache", "logging", "log4j", "core", "lookup", "JndiLookup.class"]
  const JNDI_LOOKUP := Text.Join(JNDI_PATH, SLASH)

  /** Members are listed under distinct names, none is empty, and a directory has no content and a name that ends
      in '/'. */
  ghost predicate Tidy(ms: seq<Member>) {
    && (forall i, j :: 0 <= i < j < |ms| ==> ListedName(ms[i].name) != ListedName(ms[j].name))
    && forall m :: m in ms ==>
         && m.name != ""
         && (m.isDir ==> m.body == Plain([]) && m.name[|m.name| - 1] == '/')
         && (m.body.Zip? ==> Tidy(m.body.members))
  }

  // ----- file extensions -----

  /** The last dot before the end and what follows it, unless a '/' comes first. */
  function ExtBefore(path: string, end: nat): (ext: string)
    requires end <= |path|
    ensures |ext| <= |path|
  {
    if end == 0 || path[end - 1] == '/' then ""
    else if path[end - 1] == '.' then path[end - 1..]
    else ExtBefore(path, end - 1)
  }

  /** Lower case of one character, as far as it can yield an ASCII letter. */
  function LowerChar(c: char): char {
    if 'A' <= c <= 'Z' then ((c as int) + 32) as char
    else if c == '\U{0130}' then 'i'
    else if c == '\U{212A}' then 'k'
    else c
  }

  function ToLower(s: string): string {
    seq(|s|, i requires 0 <= i < |s| => LowerChar(s[i]))
  }

  function FileExt(path: string): string {
    ToLower(ExtBefore(path, |path|))
  }

  predicate IsClassName(name: string) {
    FileExt(name) == ".class"
  }

  predicate IsArchiveName(name: string) {
    FileExt(name) in {".jar", ".war", ".zip", ".ear"}
  }

  lemma {:induction false} ExtOfAppend(x: string, y: string, end: nat)
    requires end <= |y| && ExtBefore(y, end) != ""
    ensures ExtBefore(x + y, |x| + end) == ExtBefore(y, end)
  {
    assert (x + y)[|x| + end - 1] == y[end - 1];
    if y[end - 1] == '.' {
      assert (x + y)[|x| + end - 1..] == y[end - 1..];
    } else {
      ExtOfAppend(x, y, end - 1);
    }
  }

  lemma {:induction false} JoinEndsIn(parts: seq<string>, sep: string) returns (front: string)
    requires parts != []
    ensures Text.Join(parts, sep) == front + parts[|parts| - 1]
  {
    if |parts| == 1 {
      front := "";
    } else {
      var rest := JoinEndsIn(parts[1..], sep);
      front := parts[0] + sep + rest;
      Text.Associate(parts[0] + sep, rest, parts[|parts| - 1]);
      assert parts[1..][|parts[1..]| - 1] == parts[|parts| - 1];
    }
  }

  lemma ClassExt()
    ensures ExtBefore("JndiLookup.class", 16) == ".class" && ToLower(".class") == ".class"
  {
    var p := "JndiLookup.class";
    assert p[15] == 's' && p[14] == 's' && p[13] == 'a' && p[12] == 'l' && p[11] == 'c' && p[10] == '.';
    assert ExtBefore(p, 11) == p[10..];
    assert ExtBefore(p, 13) == ExtBefore(p, 11);
    assert ExtBefore(p, 15) == ExtBefore(p, 13);
    assert p[10..] == ".class";
  }

  /** The removed class is scanned as a class and never entered as an archive. */
  lemma JndiLookupIsClass()
    ensures IsClassName(JNDI_LOOKUP) && !IsArchiveName(JNDI_LOOKUP)
  {
    hide ExtBefore, ToLower;
    var front := JoinEndsIn(JNDI_PATH, SLASH);
    assert JNDI_PATH[6] == "JndiLookup.class";
    ClassExt();
    ExtOfAppend(front, "JndiLookup.class", 16);
    assert JNDI_LOOKUP == front + "JndiLookup.class" && |JNDI_LOOKUP| == |front| + 16;
  }

  /** The elements of its path in the archive. */
  lemma JndiLookupElements()
    ensures Text.Split(JNDI_LOOKUP, "/") == ["org", "apache", "logging", "log4j", "core", "lookup", "JndiLookup.class"]
  {
    hide Text.Join, Text.Split;
    forall p | p in JNDI_PATH ensures Text.FreeOf(p, SLASH) { NoSlashFree(p); }
    Text.SplitJoin(JNDI_PATH, SLASH);
  }

  lemma JndiLookupEnd()
    ensures JNDI_LOOKUP != "" && JNDI_LOOKUP[|JNDI_LOOKUP| - 1] == 's'
  {
    JoinLast(JNDI_PATH, SLASH);
  }

  /** It is opened under the very name that the patch looks for. */
  lemma JndiLookupIsProper()
    ensures Proper(JNDI_LOOKUP) && ListedName(JNDI_LOOKUP) == JNDI_LOOKUP
  {
    hide Text.Join, Text.Split;
    forall p | p in JNDI_PATH ensures Text.FreeOf(p, SLASH) && Ordinary(p) && '\\' !in p { NoSlashFree(p); }
    Text.SplitJoin(JNDI_PATH, SLASH);
    Text.JoinKeepsOut(JNDI_PATH, SLASH, '\\');
    JndiLookupEnd();
    ProperIsListed(JNDI_LOOKUP);
  }

  /** No archive is listed under its name. */
  lemma ArchiveIsNotListedAsTarget(name: string)
    requires IsArchiveName(name)
    ensures ListedName(name) != JNDI_LOOKUP
  {
    ArchiveNameEnd(name);
    ListedLast(name);
    JndiLookupEnd();
  }

  // ----- names, told by their last characters -----

  /** Lower case gives an ASCII letter for that letter and its capital, and for two characters beyond ASCII. */
  lemma LowerCaseOf(c: char, letter: char)
    requires 'a' <= letter <= 'z'
    ensures LowerChar(c) == letter <==>
      || c == letter || c as int == letter as int - 32
      || (letter == 'i' && c == '\U{0130}') || (letter == 'k' && c == '\U{212A}')
  {
  }

  lemma OtherCharactersKept(c: char, other: char)
    requires !('a' <= other <= 'z') && !('A' <= other <= 'Z')
    ensures LowerChar(c) == other ==> c == other
    ensures LowerChar(other) == other || other == '\U{0130}' || other == '\U{212A}'
  {
  }

  /** The extension of a name that ends in a dot and characters that are neither dots nor slashes. */
  lemma {:induction false} ExtFromDot(name: string, dot: nat, end: nat)
    requires dot < end <= |name| && name[dot] == '.' && forall i :: dot < i < end ==> name[i] !in {'.', '/'}
    ensures ExtBefore(name, end) == name[dot..]
  {
    if dot + 1 < end { ExtFromDot(name, dot, end - 1); }
  }

  /** A dot before the last slash starts no extension. */
  lemma {:induction false} NoExtBeforeSlash(dir: string, base: string, end: nat)
    requires '.' !in base && '/' !in base && |dir| < end <= |dir + "/" + base|
    ensures ExtBefore(dir + "/" + base, end) == ""
  {
    var path := dir + "/" + base;
    if end == |dir| + 1 {
      assert path[|dir|] == '/';
    } else {
      assert path[end - 1] == base[end - 2 - |dir|] && base[end - 2 - |dir|] in base;
      NoExtBeforeSlash(dir, base, end - 1);
    }
  }

  /** The names scanned as classes are those that end in ".class", in any case. */
  lemma ClassNameIff(name: string)
    ensures IsClassName(name) <==> |name| >= 6 && ToLower(name[|name| - 6..]) == ".class"
  {
    EndsInExtIff(name, ".class");
  }

  /** The names entered as archives are those that end in one of four extensions, in any case. */
  lemma ArchiveNameIff(name: string)
    ensures IsArchiveName(name) <==> |name| >= 4 && ToLower(name[|name| - 4..]) in {".jar", ".war", ".zip", ".ear"}
  {
    hide FileExt, ToLower;
    EndsInExtIff(name, ".jar");
    EndsInExtIff(name, ".war");
    EndsInExtIff(name, ".zip");
    EndsInExtIff(name, ".ear");
  }

  lemma EndsInExtIff(name: string, ext: string)
    requires |ext| >= 2 && ext[0] == '.' && forall i :: 1 <= i < |ext| ==> 'a' <= ext[i] <= 'z'
    ensures FileExt(name) == ext <==> |name| >= |ext| && ToLower(name[|name| - |ext|..]) == ext
  {
    hide ExtBefore, LowerChar;
    ExtIsEnd(name, |name|);
    if |name| >= |ext| && ToLower(name[|name| - |ext|..]) == ext {
      var dot := |name| - |ext|;
      forall i | dot <= i < |name| ensures LowerChar(name[i]) == ext[i - dot] {
        assert ToLower(name[dot..])[i - dot] == LowerChar(name[dot..][i - dot]);
      }
      OtherCharactersKept(name[dot], '.');
      forall i | dot < i < |name| ensures name[i] !in {'.', '/'} { LetterNoDot(name[i], ext[i - dot]); }
      ExtFromDot(name, dot, |name|);
    }
  }

  lemma LetterNoDot(c: char, letter: char)
    requires 'a' <= letter <= 'z' && LowerChar(c) == letter
    ensures c !in {'.', '/'}
  {
  }

  lemma ArchiveNameEnd(name: string)
    requires IsArchiveName(name)
    ensures name != "" && name[|name| - 1] !in {'/', '\\', '.', 's'}
  {
    var ext := ExtBefore(name, |name|);
    ExtIsEnd(name, |name|);
    assert ToLower(ext)[3] == LowerChar(ext[3]) && ToLower(ext)[3] in {'r', 'p'};
  }

  lemma {:induction false} ExtIsEnd(path: string, end: nat)
    requires end <= |path|
    ensures ExtBefore(path, end) != "" ==>
      |ExtBefore(path, end)| <= |path| && ExtBefore(path, end) == path[|path| - |ExtBefore(path, end)|..]
  {
    if end > 0 && path[end - 1] != '/' && path[end - 1] != '.' { ExtIsEnd(path, end - 1); }
  }

  // ----- looking inside -----

  /** The content of the first file listed under this name. */
  function Listed(ms: seq<Member>, name: string): (r: seq<Content>)
    ensures |r| <= 1
  {
    if ms == [] then []
    else if ListedName(ms[0].name) == name && !ms[0].isDir then [ms[0].body]
    else Listed(ms[1..], name)
  }

  /** What can be read after opening a path; "." is the archive itself, as a directory. */
  function Open(ms: seq<Member>, name: string): (r: seq<Content>)
    ensures |r| <= 1
  {
    if !ValidPath(name) || name == "." then [] else Listed(ms, name)
  }

  predicate Entered(m: Member, name: string) {
    m.name == name && !m.isDir && m.body.Zip?
  }

  /** The members of the archive that a nested path names; nothing if there is no such archive. */
  function MembersAt(ms: seq<Member>, path: seq<string>): seq<Member>
    decreases path, ms
  {
    if path == [] then ms
    else if ms == [] then []
    else if Entered(ms[0], path[0]) then MembersAt(ms[0].body.members, path[1..])
    else MembersAt(ms[1..], path)
  }

  // ----- removing -----

  /** Members for which drop holds leave the archive at the path; everything else keeps its place. */
  function RemoveAt(ms: seq<Member>, path: seq<string>, drop: Member -> bool): seq<Member>
    decreases |path|, |ms|
  {
    if ms == [] then [] else Act(ms[0], path, drop) + RemoveAt(ms[1..], path, drop)
  }

  function Act(m: Member, path: seq<string>, drop: Member -> bool): seq<Member>
    decreases |path|, 0
  {
    if path == [] then (if drop(m) then [] else [m])
    else if Entered(m, path[0]) then [m.(body := Zip(RemoveAt(m.body.members, path[1..], drop)))]
    else [m]
  }

  /** The class that the patch takes out. */
  const IsTarget: Member -> bool := (m: Member) => m.name == JNDI_LOOKUP

  function Without(ms: seq<Member>, drop: Member -> bool): seq<Member> {
    if ms == [] then []
    else if drop(ms[0]) then Without(ms[1..], drop)
    else [ms[0]] + Without(ms[1..], drop)
  }

  lemma {:induction false} MemberOfWithout(ms: seq<Member>, drop: Member -> bool, m: Member)
    ensures m in Without(ms, drop) <==> m in ms && !drop(m)
  {
    if ms != [] { MemberOfWithout(ms[1..], drop, m); }
  }

  /** Every step of the path has the name of an archive. */
  predicate ArchivePath(path: seq<string>) {
    forall n :: n in path ==> IsArchiveName(n)
  }

  lemma {:induction false} RemoveAtAppend(a: seq<Member>, b: seq<Member>, path: seq<string>, drop: Member -> bool)
    ensures RemoveAt(a + b, path, drop) == RemoveAt(a, path, drop) + RemoveAt(b, path, drop)
  {
    if a == [] {
      assert a + b == b;
    } else {
      assert (a + b)[0] == a[0] && (a + b)[1..] == a[1..] + b;
      RemoveAtAppend(a[1..], b, path, drop);
    }
  }

  lemma {:induction false} RemoveAtHere(ms: seq<Member>, drop: Member -> bool)
    ensures RemoveAt(ms, [], drop) == Without(ms, drop)
  {
    if ms != [] { RemoveAtHere(ms[1..], drop); }
  }

  /** Above its target a patch keeps every member in place. */
  lemma RemoveBelow(ms: seq<Member>, path: seq<string>, drop: Member -> bool)
    requires ms != [] && path != []
    ensures |Act(ms[0], path, drop)| == 1 && Act(ms[0], path, drop)[0].name == ms[0].name
    ensures RemoveAt(ms, path, drop) == Act(ms[0], path, drop) + RemoveAt(ms[1..], path, drop)
    ensures |RemoveAt(ms, path, drop)| > 0 && RemoveAt(ms, path, drop)[0] == Act(ms[0], path, drop)[0]
    ensures RemoveAt(ms, path, drop)[1..] == RemoveAt(ms[1..], path, drop)
  {
  }

  /** At the path itself exactly the dropped members are gone, the rest in order. */
  lemma {:induction false} RemovedAtPath(ms: seq<Member>, path: seq<string>, drop: Member -> bool)
    ensures MembersAt(RemoveAt(ms, path, drop), path) == Without(MembersAt(ms, path), drop)
    decreases |path|, |ms|
  {
    if path == [] {
      RemoveAtHere(ms, drop);
    } else if ms != [] {
      if Entered(ms[0], path[0]) {
        RemovedAtPath(ms[0].body.members, path[1..], drop);
      } else {
        RemovedAtPath(ms[1..], path, drop);
      }
      RemoveBelow(ms, path, drop);
    }
  }

  /** In any other archive the member names stay in order; the contents too, but for the archive on the way
      to the path. */
  lemma {:induction false} KeptElsewhere(ms: seq<Member>, path: seq<string>, other: seq<string>)
    requires other != path && ArchivePath(path) && ArchivePath(other)
    ensures MembersAt(RemoveAt(ms, path, IsTarget), other) ==
      if other <= path then RemoveAt(MembersAt(ms, other), path[|other|..], IsTarget) else MembersAt(ms, other)
    decreases |path|, |ms|
  {
    hide Text.Join, FileExt;
    if other == [] {
      assert path[0..] == path;
    } else if ms == [] {
    } else {
      JndiLookupIsClass();
      KeptElsewhere(ms[1..], path, other);
      var rest := RemoveAt(ms[1..], path, IsTarget);
      if path != [] {
        RemoveBelow(ms, path, IsTarget);
        if Entered(ms[0], other[0]) && path[0] == other[0] {
          assert other <= path <==> other[1..] <= path[1..];
          assert other <= path ==> path[1..][|other[1..]|..] == path[|other|..];
          assert path[1..] != other[1..] by {
            assert path == [path[0]] + path[1..] && other == [other[0]] + other[1..];
          }
          KeptElsewhere(ms[0].body.members, path[1..], other[1..]);
        }
      } else {
        assert other[0] in other;
        if IsTarget(ms[0]) {
          assert RemoveAt(ms, path, IsTarget) == rest;
        } else {
          assert RemoveAt(ms, path, IsTarget)[0] == ms[0] && RemoveAt(ms, path, IsTarget)[1..] == rest;
        }
      }
    }
  }

  /** Patches commute: whatever archives two patches aim at, their order does not matter. */
  lemma {:induction false} RemoveCommutes(ms: seq<Member>, p: seq<string>, q: seq<string>)
    ensures RemoveAt(RemoveAt(ms, p, IsTarget), q, IsTarget) == RemoveAt(RemoveAt(ms, q, IsTarget), p, IsTarget)
    decreases |p|, |ms|
  {
    if ms != [] {
      RemoveCommutes(ms[1..], p, q);
      RemoveAtAppend(Act(ms[0], p, IsTarget), RemoveAt(ms[1..], p, IsTarget), q, IsTarget);
      RemoveAtAppend(Act(ms[0], q, IsTarget), RemoveAt(ms[1..], q, IsTarget), p, IsTarget);
      ActCommutes(ms[0], p, q);
    }
  }

  lemma {:induction false} ActCommutes(m: Member, p: seq<string>, q: seq<string>)
    ensures RemoveAt(Act(m, p, IsTarget), q, IsTarget) == RemoveAt(Act(m, q, IsTarget), p, IsTarget)
    decreases |p|, 0
  {
    RemoveOne(m, p);
    RemoveOne(m, q);
    if p != [] && q != [] && p[0] == q[0] && Entered(m, p[0]) {
      RemoveCommutes(m.body.members, p[1..], q[1..]);
      RemoveOne(m.(body := Zip(RemoveAt(m.body.members, p[1..], IsTarget))), q);
      RemoveOne(m.(body := Zip(RemoveAt(m.body.members, q[1..], IsTarget))), p);
    } else {
      if Act(m, p, IsTarget) != [] { RemoveOne(Act(m, p, IsTarget)[0], q); }
      if Act(m, q, IsTarget) != [] { RemoveOne(Act(m, q, IsTarget)[0], p); }
    }
  }

  lemma RemoveOne(m: Member, path: seq<string>)
    ensures RemoveAt([m], path, IsTarget) == Act(m, path, IsTarget)
  {
    assert [m][1..] == [];
  }

  /** Patching an archive twice is patching it once. */
  lemma {:induction false} RemoveIdempotent(ms: seq<Member>, path: seq<string>)
    ensures RemoveAt(RemoveAt(ms, path, IsTarget), path, IsTarget) == RemoveAt(ms, path, IsTarget)
    decreases |path|, |ms|
  {
    if ms != [] {
      RemoveIdempotent(ms[1..], path);
      RemoveAtAppend(Act(ms[0], path, IsTarget), RemoveAt(ms[1..], path, IsTarget), path, IsTarget);
      if path != [] && Entered(ms[0], path[0]) {
        RemoveIdempotent(ms[0].body.members, path[1..]);
      }
      if Act(ms[0], path, IsTarget) != [] { RemoveOne(Act(ms[0], path, IsTarget)[0], path); }
    }
  }
}
