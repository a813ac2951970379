/** How the zip reader of Go looks members up: under cleaned names, and only for valid paths. */
module ZipNames {
  import Text

  const SLASH := "/"

  /** Zip files written on Windows may separate by backslashes. */
  function Slashes(name: string): (r: string)
    ensures |r| == |name| && '\\' !in r && ('\\' !in name ==> r == name)
  {
    seq(|name|, i requires 0 <= i < |name| => if name[i] == '\\' then '/' else name[i])
  }

  /** The elements of a path, without empty ones and ".", each ".." taking back the element before it; at the
      root ".." leads nowhere. */
  function Kept(parts: seq<string>, rooted: bool): (r: seq<string>)
    ensures forall p :: p in r ==> p in parts || p == ".."
  {
    if parts == [] then []
    else
      var before, last := Kept(parts[..|parts| - 1], rooted), parts[|parts| - 1];
      assert parts == parts[..|parts| - 1] + [last];
      if last == "" || last == "." then before
      else if last != ".." then before + [last]
      else if before != [] && before[|before| - 1] != ".." then before[..|before| - 1]
      else if rooted then before
      else before + [".."]
  }

  function WithoutUps(parts: seq<string>): (r: seq<string>)
    ensures forall p :: p in r ==> p in parts
  {
    if |parts| > 1 && parts[0] == ".." then WithoutUps(parts[1..]) else parts
  }

  /** The name under which a member is listed: its path cleaned, without a leading "/" or leading "../". */
  function ListedName(name: string): string {
    var s := Slashes(name);
    var rooted := s != "" && s[0] == '/';
    var kept := Kept(Text.Split(s, SLASH), rooted);
    if rooted then Text.Join(kept, SLASH)
    else if kept == [] then "."
    else Text.Join(WithoutUps(kept), SLASH)
  }

  predicate Ordinary(element: string) {
    element != "" && element != "." && element != ".."
  }

  /** fs.ValidPath: "." or elements none of which is empty, "." or "..". */
  predicate ValidPath(name: string) {
    name == "." || forall e :: e in Text.Split(name, SLASH) ==> Ordinary(e)
  }

  /** A name under which a file can be opened that has this very name. */
  predicate Proper(name: string) {
    ValidPath(name) && name != "." && '\\' !in name
  }

  lemma {:induction false} OrdinaryKept(parts: seq<string>, rooted: bool)
    requires forall p :: p in parts ==> Ordinary(p)
    ensures Kept(parts, rooted) == parts
  {
    if parts != [] {
      var init, last := parts[..|parts| - 1], parts[|parts| - 1];
      assert parts == init + [last] && last in parts;
      OrdinaryKept(init, rooted);
    }
  }

  lemma EmptyFirst(name: string)
    ensures name == "" || name[0] == '/' ==> Text.Split(name, SLASH)[0] == ""
  {
    if name != "" && name[0] == '/' {
      assert Text.OccursAt(name, SLASH, 0);
    }
  }

  lemma {:induction false} KeptAfterRoot(parts: seq<string>, rooted: bool)
    requires forall p :: p in parts ==> Ordinary(p)
    ensures Kept([""] + parts, rooted) == parts
  {
    var all := [""] + parts;
    if parts == [] {
      assert all[..0] == [];
    } else {
      var init, last := parts[..|parts| - 1], parts[|parts| - 1];
      assert parts == init + [last] && last in parts && all[..|all| - 1] == [""] + init;
      KeptAfterRoot(init, rooted);
    }
  }

  /** With a leading "/" a proper name is listed without it, and cannot be opened. */
  lemma RootedName(name: string)
    requires Proper(name)
    ensures ListedName(SLASH + name) == name && !ValidPath(SLASH + name)
  {
    var s := SLASH + name;
    EmptyFirst(s);
    assert Text.OccursAt(s, SLASH, 0) && Text.First(s, SLASH, 0) == 0 && s[1..] == name;
    assert Text.Split(s, SLASH) == [""] + Text.Split(name, SLASH);
    assert Text.Split(s, SLASH)[0] in Text.Split(s, SLASH);
    assert Slashes(s) == s;
    ProperIsListed(name);
    assert |s| >= 2;
    KeptAfterRoot(Text.Split(name, SLASH), true);
    Text.JoinSplit(name, SLASH);
  }

  /** A proper name is listed as it is. */
  lemma ProperIsListed(name: string)
    requires Proper(name)
    ensures ListedName(name) == name && name != ""
  {
    var parts := Text.Split(name, SLASH);
    assert parts[0] in parts;
    EmptyFirst(name);
    OrdinaryKept(parts, false);
    Text.JoinSplit(name, SLASH);
  }

  /** Cleaning drops empty elements and ".", and ".." takes back the element before it. */
  lemma CleaningElements(parts: seq<string>, rooted: bool, element: string)
    requires Ordinary(element)
    ensures Kept(parts + [""], rooted) == Kept(parts + ["."], rooted) == Kept(parts, rooted)
    ensures Kept(parts + [element], rooted) == Kept(parts, rooted) + [element]
    ensures Kept(parts + [element] + [".."], rooted) == Kept(parts, rooted)
    ensures Kept([".."], true) == [] && Kept([".."], false) == [".."]
  {
    var more := parts + [element];
    assert (parts + [""])[..|parts|] == (parts + ["."])[..|parts|] == more[..|parts|] == parts;
    assert (more + [".."])[..|more|] == more;
    assert [".."][..0] == [];
  }

  /** A proper name is listed as it is, also if it is written with backslashes. */
  lemma BackslashedName(name: string, windows: string)
    requires Proper(name) && |windows| == |name|
    requires forall i :: 0 <= i < |name| ==> windows[i] == name[i] || (windows[i] == '\\' && name[i] == '/')
    ensures ListedName(windows) == name
  {
    forall i | 0 <= i < |name| ensures name[i] != '\\' { assert name[i] in name; }
    assert Slashes(windows) == name == Slashes(name);
    ProperIsListed(name);
  }

  /** "../" in front leads nowhere. */
  lemma LeadingUpDropped(name: string)
    requires Proper(name)
    ensures ListedName("../" + name) == name
  {
    hide Text.Join, Text.First;
    var s, parts := "../" + name, Text.Split(name, SLASH);
    assert s == ".." + SLASH + name && Slashes(s) == s;
    FirstUp(name);
    assert Text.Split(s, SLASH) == [".."] + parts;
    UpKept(parts);
    ProperIsListed(name);
    Text.JoinSplit(name, SLASH);
    assert parts[0] in parts && WithoutUps(parts) == parts;
    assert ([".."] + parts)[1..] == parts && WithoutUps([".."] + parts) == parts;
  }

  lemma FirstUp(name: string)
    ensures Text.Split("../" + name, SLASH) == [".."] + Text.Split(name, SLASH)
  {
    var s := "../" + name;
    assert s[0..1] == "." && s[1..2] == "." && s[2..3] == "/" && s[3..] == name && s[..2] == "..";
    FirstIs(s, 2);
    SplitStep(s);
  }

  lemma {:induction false} UpKept(parts: seq<string>)
    requires forall p :: p in parts ==> Ordinary(p)
    ensures Kept([".."] + parts, false) == [".."] + parts
  {
    var all := [".."] + parts;
    if parts == [] {
      assert all[..0] == [];
    } else {
      var init, last := parts[..|parts| - 1], parts[|parts| - 1];
      assert parts == init + [last] && last in parts && all[..|all| - 1] == [".."] + init;
      assert all[|all| - 1] == last && [".."] + init + [last] == all;
      UpKept(init);
    }
  }

  /** No member is listed under a name with a backslash. */
  lemma ListedWithoutBackslash(name: string)
    ensures '\\' !in ListedName(name)
  {
    var s := Slashes(name);
    var rooted := s != "" && s[0] == '/';
    var kept := Kept(Text.Split(s, SLASH), rooted);
    Text.SplitKeepsOut(s, SLASH, '\\');
    Text.JoinKeepsOut(kept, SLASH, '\\');
    Text.JoinKeepsOut(WithoutUps(kept), SLASH, '\\');
  }

  // ----- absolute paths -----

  /** filepath.Abs on Unix: a path from the working directory unless it starts at the root, cleaned. */
  function Abs(workingDir: string, path: string): string {
    var full := if path != "" && path[0] == '/' then path else workingDir + SLASH + path;
    SLASH + Text.Join(Kept(Text.Split(full, SLASH), true), SLASH)
  }

  /** A path from the root in which there is nothing to clean. */
  predicate Clean(path: string) {
    path != "" && path[0] == '/' && forall e :: e in Text.Split(path[1..], SLASH) ==> Ordinary(e)
  }

  lemma SplitRooted(path: string)
    requires path != "" && path[0] == '/'
    ensures Text.Split(path, SLASH) == [""] + Text.Split(path[1..], SLASH)
  {
    assert Text.OccursAt(path, SLASH, 0) && Text.First(path, SLASH, 0) == 0 && path[..0] == "";
  }

  lemma {:induction false} KeptOrdinary(parts: seq<string>)
    ensures forall p :: p in Kept(parts, true) ==> Ordinary(p) && p in parts
  {
    if parts != [] {
      assert parts == parts[..|parts| - 1] + [parts[|parts| - 1]];
      KeptOrdinary(parts[..|parts| - 1]);
    }
  }

  /** Exactly the clean paths, and the root itself, are left as they are. */
  lemma AbsKeepsIff(workingDir: string, path: string)
    ensures Abs(workingDir, path) == path <==> Clean(path) || path == SLASH
  {
    hide Text.Split, Text.Join, Text.First, Kept;
    if path != "" && path[0] == '/' {
      SplitRooted(path);
      if Clean(path) {
        KeptAfterRoot(Text.Split(path[1..], SLASH), true);
        Text.JoinSplit(path[1..], SLASH);
      }
      RootKept();
      if Abs(workingDir, path) == path && path != SLASH {
        ElementsFree(path);
        CleanedIsClean(path, Text.Split(path, SLASH));
      }
    }
  }

  lemma RootKept()
    ensures SLASH + Text.Join(Kept(Text.Split(SLASH, SLASH), true), SLASH) == SLASH
  {
    SplitRooted(SLASH);
    assert Text.Split("", SLASH) == [""] && [""] + [""] == ["", ""];
    assert Kept([""], true) == [] && ["", ""][..1] == [""];
    assert Kept(["", ""], true) == [];
  }

  lemma ElementsFree(path: string)
    ensures forall e :: e in Text.Split(path, SLASH) ==> Text.FreeOf(e, SLASH)
  {
    hide Text.Split;
    Text.SplitPartsAbsent(path, SLASH);
    forall e | e in Text.Split(path, SLASH) ensures Text.FreeOf(e, SLASH) { assert e + SLASH[..0] == e; }
  }

  lemma OneElement(element: string)
    requires Text.FreeOf(element, SLASH)
    ensures Text.Split(element, SLASH) == [element]
  {
    Text.FreeMeansAbsent(element, SLASH);
  }

  function Glued(before: seq<string>, after: seq<string>): seq<string>
    requires before != [] && after != []
  {
    before[..|before| - 1] + [before[|before| - 1] + after[0]] + after[1..]
  }

  lemma SplitStep(s: string)
    ensures var k := Text.First(s, SLASH, 0);
      Text.Split(s, SLASH) == if k == |s| then [s] else [s[..k]] + Text.Split(s[k + 1..], SLASH)
  {
    hide Text.First, Text.OccursAt;
    assert |SLASH| == 1;
  }

  lemma GluedNext(first: string, before: seq<string>, after: seq<string>)
    requires before != [] && after != []
    ensures Glued([first] + before, after) == [first] + Glued(before, after)
  {
    assert ([first] + before)[..|before|] == [first] + before[..|before| - 1];
  }

  /** Where two strings meet, the last element of one and the first of the other become one. */
  lemma {:induction false} SplitGlued(a: string, b: string)
    ensures Text.Split(a + b, SLASH) == Glued(Text.Split(a, SLASH), Text.Split(b, SLASH))
    decreases |a|
  {
    hide Text.Split, Text.First, Text.OccursAt, Glued;
    var k := Text.First(a, SLASH, 0);
    FirstGlued(a, b);
    SplitStep(a);
    SplitStep(a + b);
    if k < |a| {
      SplitGlued(a[k + 1..], b);
      assert (a + b)[k + 1..] == a[k + 1..] + b && (a + b)[..k] == a[..k];
      GluedNext(a[..k], Text.Split(a[k + 1..], SLASH), Text.Split(b, SLASH));
    } else {
      LastGlued(a, b);
    }
  }

  lemma LastGlued(a: string, b: string)
    requires Text.First(a, SLASH, 0) == |a|
    ensures Text.Split(a + b, SLASH) == Glued([a], Text.Split(b, SLASH))
  {
    hide Text.Split, Text.First, Text.OccursAt;
    FirstGlued(a, b);
    SplitStep(a + b);
    SplitStep(b);
    var j := Text.First(b, SLASH, 0);
    if j < |b| { assert (a + b)[|a| + j + 1..] == b[j + 1..] && (a + b)[..|a| + j] == a + b[..j]; }
  }

  lemma FirstIs(s: string, k: nat)
    requires k <= |s| && (k < |s| ==> Text.OccursAt(s, SLASH, k))
    requires forall i :: 0 <= i < k ==> !Text.OccursAt(s, SLASH, i)
    ensures Text.First(s, SLASH, 0) == k
  {
    hide Text.OccursAt;
  }

  lemma FirstGlued(a: string, b: string)
    ensures var k := Text.First(a, SLASH, 0);
      Text.First(a + b, SLASH, 0) == if k < |a| then k else |a| + Text.First(b, SLASH, 0)
  {
    hide Text.First;
    var s, k, j := a + b, Text.First(a, SLASH, 0), Text.First(b, SLASH, 0);
    forall i | 0 <= i < |a| ensures Text.OccursAt(s, SLASH, i) == Text.OccursAt(a, SLASH, i) {
      assert s[i..i + 1] == a[i..i + 1];
    }
    forall i | 0 <= i < |b| ensures Text.OccursAt(s, SLASH, |a| + i) == Text.OccursAt(b, SLASH, i) {
      assert s[|a| + i..|a| + i + 1] == b[i..i + 1];
    }
    if k < |a| {
      FirstIs(s, k);
    } else {
      forall i | |a| <= i < |a| + j ensures !Text.OccursAt(s, SLASH, i) {
        assert Text.OccursAt(s, SLASH, |a| + (i - |a|)) == Text.OccursAt(b, SLASH, i - |a|);
      }
      FirstIs(s, |a| + j);
    }
  }

  lemma CleanedIsClean(path: string, parts: seq<string>)
    requires path != SLASH && (forall p :: p in parts ==> Text.FreeOf(p, SLASH))
    requires path == SLASH + Text.Join(Kept(parts, true), SLASH)
    ensures Clean(path)
  {
    hide Text.Split, Text.First, Kept;
    KeptOrdinary(parts);
    Text.SplitJoin(Kept(parts, true), SLASH);
    assert path[1..] == Text.Join(Kept(parts, true), SLASH);
  }

  lemma SplitAround(a: string, b: string)
    ensures Text.Split(a + SLASH + b, SLASH) == Text.Split(a, SLASH) + Text.Split(b, SLASH)
  {
    hide Text.Split, Text.First;
    var s, before := SLASH + b, Text.Split(a, SLASH);
    SplitRooted(s);
    assert s[1..] == b && a + SLASH + b == a + s;
    SplitGlued(a, s);
    assert before == before[..|before| - 1] + [before[|before| - 1]];
    assert before[|before| - 1] + "" == before[|before| - 1];
  }

  /** A relative path is one below the working directory. */
  lemma AbsOfRelative(workingDir: string, path: string)
    requires Clean(workingDir) && workingDir != SLASH && Proper(path)
    ensures Abs(workingDir, path) == workingDir + "/" + path
  {
    hide Text.Split, Kept, Text.Join;
    var full := workingDir + SLASH + path;
    assert full[1..] == workingDir[1..] + SLASH + path;
    SplitAround(workingDir[1..], path);
    EmptyFirst(path);
    assert Text.Split(path, SLASH)[0] in Text.Split(path, SLASH);
    AbsKeepsIff(workingDir, full);
  }

  // ----- ends of names -----

  /** A name that ends in "/" is no valid path. */
  lemma {:induction false} EndsInSlash(s: string)
    requires s != "" && s[|s| - 1] == '/'
    ensures "" in Text.Split(s, SLASH)
    decreases |s|
  {
    var k := Text.First(s, SLASH, 0);
    assert Text.OccursAt(s, SLASH, |s| - 1);
    var rest := s[k + 1..];
    if rest == "" {
      assert Text.Split(rest, SLASH) == [""];
      assert Text.Split(s, SLASH)[1] == "";
    } else {
      EndsInSlash(rest);
    }
  }

  lemma {:induction false} SplitLast(s: string)
    requires s != "" && s[|s| - 1] != '/'
    ensures var last := Text.Split(s, SLASH)[|Text.Split(s, SLASH)| - 1]; last != "" && last[|last| - 1] == s[|s| - 1]
    decreases |s|
  {
    var k := Text.First(s, SLASH, 0);
    if k < |s| { SplitLast(s[k + 1..]); }
  }

  lemma {:induction false} JoinLast(parts: seq<string>, sep: string)
    requires parts != [] && parts[|parts| - 1] != ""
    ensures var joined, last := Text.Join(parts, sep), parts[|parts| - 1];
      joined != "" && joined[|joined| - 1] == last[|last| - 1]
  {
    if |parts| > 1 { JoinLast(parts[1..], sep); }
  }

  lemma {:induction false} WithoutUpsLast(parts: seq<string>)
    requires parts != []
    ensures WithoutUps(parts) != [] && WithoutUps(parts)[|WithoutUps(parts)| - 1] == parts[|parts| - 1]
  {
    if |parts| > 1 && parts[0] == ".." { WithoutUpsLast(parts[1..]); }
  }

  lemma KeptLast(parts: seq<string>, rooted: bool)
    requires parts != [] && Ordinary(parts[|parts| - 1])
    ensures Kept(parts, rooted) != [] && Kept(parts, rooted)[|Kept(parts, rooted)| - 1] == parts[|parts| - 1]
  {
    assert Kept(parts, rooted) == Kept(parts[..|parts| - 1], rooted) + [parts[|parts| - 1]];
  }

  /** Cleaning keeps the last character, unless it may itself be cleaned away. */
  lemma ListedLast(name: string)
    requires name != "" && name[|name| - 1] !in {'/', '\\', '.'}
    ensures ListedName(name) != "" && ListedName(name)[|ListedName(name)| - 1] == name[|name| - 1]
  {
    hide Text.Split, Text.Join, WithoutUps, Kept;
    var s := Slashes(name);
    var rooted := s[0] == '/';
    var parts := Text.Split(s, SLASH);
    var last := parts[|parts| - 1];
    SplitLast(s);
    assert last != "." && last != "..";
    var kept := Kept(parts, rooted);
    KeptLast(parts, rooted);
    JoinLast(kept, SLASH);
    WithoutUpsLast(kept);
    JoinLast(WithoutUps(kept), SLASH);
  }

  lemma NoSlashFree(part: string)
    requires '/' !in part
    ensures Text.FreeOf(part, SLASH)
  {
    assert part + SLASH[..0] == part;
    forall i | 0 <= i < |part| ensures !Text.OccursAt(part, SLASH, i) {
      if i + 1 <= |part| { assert part[i..i + 1][0] == part[i] && part[i] in part; }
    }
  }
}
