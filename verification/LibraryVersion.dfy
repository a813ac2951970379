/** Reading a version out of the file name of a library archive. */
module LibraryVersion {
  import opened Options
  import Archive
  import Text

  const HYPHEN := "-"

  function TrimExt(filename: string): string {
    filename[..|filename| - |Archive.ExtBefore(filename, |filename|)|]
  }

  predicate IsLetter(c: char) {
    'a' <= c <= 'z'
  }

  /** The end of the run of lower-case letters that starts at i. */
  function RunEnd(s: string, i: nat): (end: nat)
    requires i <= |s|
    ensures i <= end <= |s| && (forall k :: i <= k < end ==> IsLetter(s[k])) && (end < |s| ==> !IsLetter(s[end]))
    decreases |s| - i
  {
    if i < |s| && IsLetter(s[i]) then RunEnd(s, i + 1) else i
  }

  function FirstLetter(s: string, i: nat): (k: nat)
    requires i <= |s|
    ensures i <= k <= |s| && (forall j :: i <= j < k ==> !IsLetter(s[j])) && (k < |s| ==> IsLetter(s[k]))
    decreases |s| - i
  {
    if i < |s| && !IsLetter(s[i]) then FirstLetter(s, i + 1) else i
  }

  /** The leftmost longest run of lower-case letters, "" if there is none. */
  function FindAlpha(s: string): string {
    var k := FirstLetter(s, 0);
    s[k..RunEnd(s, k)]
  }

  /** Replaces the first occurrence by nothing. */
  function RemoveFirst(s: string, sub: string): string
    requires sub != ""
  {
    var k := Text.First(s, sub, 0);
    if k == |s| then s else s[..k] + s[k + |sub|..]
  }

  function ReplaceAll(s: string, from: string, to: string): string
    requires from != ""
  {
    Text.Join(Text.Split(s, from), to)
  }

  function AdjustMissingPatchVersion(version: string): string {
    var a := if |version| == 3 then version + ".0" else version;
    var b := if Text.HasPrefix(a, "2.0-") then ReplaceAll(a, "2.0-", "2.0.0-") else a;
    if Text.HasPrefix(b, "1.0-") then ReplaceAll(b, "1.0-", "1.0.0-") else b
  }

  predicate IsVersionPart(part: string) {
    (Text.HasPrefix(part, "1") || Text.HasPrefix(part, "2")) && Text.Contains(part, ".")
  }

  // ----- what the name means -----

  /** A tag put before another one. */
  function Before(part: string, tag: string): string {
    if tag == "" then part else part + HYPHEN + tag
  }

  /** The parts to the right of the version, joined; empty ones at the end leave nothing, not even a hyphen. */
  function TagOf(parts: seq<string>): string {
    if parts == [] then "" else Before(parts[0], TagOf(parts[1..]))
  }

  /** The version part with its letters taken out, which then lead the tag. */
  function WithTag(part: string, tag: string): string {
    var letters := FindAlpha(part);
    var number := if letters == "" then part else RemoveFirst(part, letters);
    var fullTag := if letters == "" then tag else Before(letters, tag);
    Before(AdjustMissingPatchVersion(number), fullTag)
  }

  ghost predicate LastVersionPart(parts: seq<string>, i: int) {
    0 <= i < |parts| && IsVersionPart(parts[i]) && forall j :: i < j < |parts| ==> !IsVersionPart(parts[j])
  }

  /** The version is the last part that looks like one, followed by the tag made of what comes after it;
      without such a part it is empty. */
  ghost predicate MeansVersion(parts: seq<string>, version: string) {
    && (forall i :: LastVersionPart(parts, i) ==> version == WithTag(parts[i], TagOf(parts[i + 1..])))
    && ((forall i :: 0 <= i < |parts| ==> !IsVersionPart(parts[i])) ==> version == "")
  }

  lemma WithTagIs(part: string, tag: string)
    ensures FindAlpha(part) == "" ==> WithTag(part, tag) == Before(AdjustMissingPatchVersion(part), tag)
    ensures FindAlpha(part) != "" ==>
      WithTag(part, tag)
        == Before(AdjustMissingPatchVersion(RemoveFirst(part, FindAlpha(part))), Before(FindAlpha(part), tag))
  {
    hide RemoveFirst, FindAlpha, AdjustMissingPatchVersion;
  }

  method ArchiveNameToSemverVersion(filename: string) returns (semverVersion: string)
    ensures MeansVersion(Text.Split(TrimExt(filename), HYPHEN), semverVersion)
  {
    hide RemoveFirst, FindAlpha, AdjustMissingPatchVersion, TrimExt, IsVersionPart, Text.Split, WithTag;
    var fileNameParts := Text.Split(TrimExt(filename), HYPHEN);
    var tag := "";
    semverVersion := "";
    var i: nat := |fileNameParts|;
    while i > 0
      invariant i <= |fileNameParts| && tag == TagOf(fileNameParts[i..]) && semverVersion == ""
      invariant forall j :: i <= j < |fileNameParts| ==> !IsVersionPart(fileNameParts[j])
    {
      i := i - 1;
      var fileNamePart := fileNameParts[i];
      assert fileNameParts[i..][1..] == fileNameParts[i + 1..];
      if IsVersionPart(fileNamePart) {
        var rightTag := tag;
        var tagPart := FindAlpha(fileNamePart);
        if tagPart != "" {
          fileNamePart := RemoveFirst(fileNamePart, tagPart);
          if tag == "" { tag := tagPart; } else { tag := tagPart + HYPHEN + tag; }
        }
        fileNamePart := AdjustMissingPatchVersion(fileNamePart);
        if tag == "" { semverVersion := fileNamePart; } else { semverVersion := fileNamePart + HYPHEN + tag; }
        WithTagIs(fileNameParts[i], rightTag);
        assert semverVersion == WithTag(fileNameParts[i], rightTag);
        assert forall j :: LastVersionPart(fileNameParts, j) ==> j == i;
        return;
      }
      if tag == "" { tag := fileNamePart; } else { tag := fileNamePart + HYPHEN + tag; }
    }
  }

  // ----- when the tag is exactly the parts joined -----

  lemma {:induction false} TagNoLonger(parts: seq<string>)
    ensures |TagOf(parts)| <= |Text.Join(parts, HYPHEN)|
  {
    if |parts| > 1 { TagNoLonger(parts[1..]); }
  }

  /** The tag is the parts joined by hyphens exactly when several parts do not end in an empty one. */
  lemma {:induction false} TagIsJoinIff(parts: seq<string>)
    ensures TagOf(parts) == Text.Join(parts, HYPHEN) <==> |parts| <= 1 || parts[|parts| - 1] != ""
  {
    if |parts| == 1 {
      assert TagOf(parts[1..]) == "";
    } else if |parts| > 1 {
      TagIsJoinIff(parts[1..]);
      TagNoLonger(parts[1..]);
      var tag, joined := TagOf(parts[1..]), Text.Join(parts[1..], HYPHEN);
      assert Text.Join(parts, HYPHEN) == parts[0] + HYPHEN + joined;
      assert parts[1..][|parts[1..]| - 1] == parts[|parts| - 1];
      LastEmptyShortens(parts);
      if tag == joined && tag != "" {
        assert TagOf(parts) == parts[0] + HYPHEN + tag;
      }
      if parts[|parts| - 1] != "" { LastNonEmptyTag(parts[1..]); }
    }
  }

  lemma {:induction false} LastEmptyShortens(parts: seq<string>)
    requires |parts| > 1
    ensures parts[|parts| - 1] == "" ==> |TagOf(parts)| < |Text.Join(parts, HYPHEN)|
  {
    if |parts| == 2 {
      assert parts[1..] == [parts[1]] && [parts[1]][1..] == [];
      assert TagOf([]) == "" && TagOf(parts[1..]) == parts[1];
      assert Text.Join(parts[1..], HYPHEN) == parts[1];
    } else {
      LastEmptyShortens(parts[1..]);
    }
  }

  lemma {:induction false} LastNonEmptyTag(parts: seq<string>)
    requires parts != [] && parts[|parts| - 1] != ""
    ensures TagOf(parts) != ""
  {
    if |parts| == 1 { assert TagOf(parts[1..]) == ""; } else { LastNonEmptyTag(parts[1..]); }
  }

  // ----- when nothing of the name to the right of the version is lost -----

  /** The version part alone: its number, and its letters behind a hyphen. */
  function Numbered(part: string): string {
    var letters := FindAlpha(part);
    if letters == "" then AdjustMissingPatchVersion(part)
    else AdjustMissingPatchVersion(RemoveFirst(part, letters)) + HYPHEN + letters
  }

  lemma WithTagIsBefore(part: string, tag: string)
    ensures WithTag(part, tag) == Before(Numbered(part), tag)
  {
    hide FindAlpha, RemoveFirst, AdjustMissingPatchVersion;
    var letters := FindAlpha(part);
    if letters != "" && tag != "" {
      var number := AdjustMissingPatchVersion(RemoveFirst(part, letters));
      Text.Associate(number + HYPHEN, letters + HYPHEN, tag);
      Text.Associate(number + HYPHEN, letters, HYPHEN);
    }
  }

  /** The rest of a name as it is written: every part behind a hyphen. */
  function Rest(parts: seq<string>): string {
    if parts == [] then "" else HYPHEN + Text.Join(parts, HYPHEN)
  }

  lemma TagIsRestIff(p: string, right: seq<string>)
    ensures Before(p, TagOf(right)) == p + Rest(right) <==> right == [] || right[|right| - 1] != ""
  {
    if right == [] {
      assert p + "" == p;
    } else {
      hide TagOf, Text.Join;
      TagIsJoinIff(right);
      var tag, joined := TagOf(right), Text.Join(right, HYPHEN);
      Text.Associate(p, HYPHEN, joined);
      if right[|right| - 1] != "" { LastNonEmptyTag(right); }
      if |right| == 1 { OneTag(right); }
      if tag != "" && p + HYPHEN + tag == p + HYPHEN + joined {
        assert (p + HYPHEN + tag)[|p| + 1..] == tag && (p + HYPHEN + joined)[|p| + 1..] == joined;
      }
    }
  }

  lemma OneTag(parts: seq<string>)
    requires |parts| == 1
    ensures TagOf(parts) == parts[0]
  {
    assert parts[1..] == [];
  }

  /** The version returned is the version part followed by the rest of the name as written, if and only if the
      version part is the last one or the last part is not empty. */
  lemma VersionKeepsRestIff(filename: string, version: string, i: nat)
    requires var parts := Text.Split(TrimExt(filename), HYPHEN);
      MeansVersion(parts, version) && LastVersionPart(parts, i)
    ensures var parts := Text.Split(TrimExt(filename), HYPHEN);
      version == Numbered(parts[i]) + Rest(parts[i + 1..]) <==> i == |parts| - 1 || parts[|parts| - 1] != ""
  {
    hide Numbered, WithTag, IsVersionPart, TrimExt, Text.Split, TagOf;
    var parts := Text.Split(TrimExt(filename), HYPHEN);
    var right := parts[i + 1..];
    WithTagIsBefore(parts[i], TagOf(right));
    TagIsRestIff(Numbered(parts[i]), right);
    if right != [] { assert right[|right| - 1] == parts[|parts| - 1]; }
  }

  lemma NoHyphenFree(part: string)
    requires '-' !in part
    ensures Text.FreeOf(part, HYPHEN)
  {
    assert part + HYPHEN[..0] == part;
    forall i | 0 <= i < |part| ensures !Text.OccursAt(part, HYPHEN, i) {
      if i + 1 <= |part| { assert part[i..i + 1][0] == part[i] && part[i] in part; }
    }
  }

  lemma NumberPart()
    ensures IsVersionPart("2.1") && FindAlpha("2.1") == "" && Numbered("2.1") == "2.1.0"
    ensures !IsVersionPart("beta") && !IsVersionPart("")
  {
    var p := "2.1";
    assert p[0..1] == "2" && p[1..2] == ".";
    assert Text.OccursAt(p, "2", 0) && Text.OccursAt(p, ".", 1);
    assert FirstLetter(p, 3) == 3 && FirstLetter(p, 2) == 3 && FirstLetter(p, 1) == 3 && FirstLetter(p, 0) == 3;
    assert RunEnd(p, 3) == 3;
    NoPrefix(p + ".0", "2.0-");
    NoPrefix(p + ".0", "1.0-");
    assert "beta"[0..1] == "b" && "1" != "b" && "2" != "b";
  }

  lemma ExampleParts()
    ensures Text.Split(TrimExt("log4j-2.1-beta-.jar"), HYPHEN) == ["log4j", "2.1", "beta", ""]
  {
    var name, parts := "log4j-2.1-beta-.jar", ["log4j", "2.1", "beta", ""];
    assert name[18] == 'r' && name[17] == 'a' && name[16] == 'j' && name[15] == '.';
    assert Archive.ExtBefore(name, 17) == name[15..] && Archive.ExtBefore(name, 19) == Archive.ExtBefore(name, 17);
    assert TrimExt(name) == name[..15];
    assert parts[1..] == ["2.1", "beta", ""] && parts[1..][1..] == ["beta", ""] && parts[1..][1..][1..] == [""];
    assert Text.Join(parts, HYPHEN) == "log4j-2.1-beta-" == name[..15];
    forall p | p in parts ensures Text.FreeOf(p, HYPHEN) { NoHyphenFree(p); }
    Text.SplitJoin(parts, HYPHEN);
  }

  /** A name whose last hyphen is lost. */
  lemma LastHyphenLost(version: string)
    requires MeansVersion(Text.Split(TrimExt("log4j-2.1-beta-.jar"), HYPHEN), version)
    ensures version == "2.1.0-beta"
  {
    hide TrimExt, Text.Split, IsVersionPart, FindAlpha, RemoveFirst, AdjustMissingPatchVersion, WithTag, Numbered;
    ExampleParts();
    NumberPart();
    var parts := ["log4j", "2.1", "beta", ""];
    assert LastVersionPart(parts, 1);
    var right := parts[2..];
    assert right == ["beta", ""] && right[1..] == [""] && right[1..][1..] == [];
    OneTag(right[1..]);
    assert TagOf(right) == Before(right[0], TagOf(right[1..])) == "beta";
    WithTagIsBefore("2.1", "beta");
  }

  // ----- the letters and the patch version -----

  lemma OccursHead(s: string, sub: string, i: nat)
    requires sub != "" && Text.OccursAt(s, sub, i)
    ensures s[i] == sub[0]
  {
    assert s[i..i + |sub|][0] == s[i];
  }

  /** The letters are taken out where they stand: what remains is the text before and after the run. */
  lemma LettersTakenOut(part: string)
    requires FindAlpha(part) != ""
    ensures var k := FirstLetter(part, 0); RemoveFirst(part, FindAlpha(part)) == part[..k] + part[RunEnd(part, k)..]
  {
    var k := FirstLetter(part, 0);
    var sub := FindAlpha(part);
    var f := Text.First(part, sub, 0);
    assert Text.OccursAt(part, sub, k);
    OccursHead(part, sub, f);
    OccursHead(part, sub, k);
  }

  /** Without a hyphen only a missing patch number is ever filled in. */
  lemma OnlyPatchFilledIn(version: string)
    requires forall i :: 0 <= i < |version| ==> version[i] != '-'
    ensures AdjustMissingPatchVersion(version) == if |version| == 3 then version + ".0" else version
  {
    var a := if |version| == 3 then version + ".0" else version;
    assert forall i :: 0 <= i < |a| ==> a[i] != '-';
    NoPrefix(a, "2.0-");
    NoPrefix(a, "1.0-");
  }

  lemma NoPrefix(a: string, prefix: string)
    requires |prefix| == 4 && prefix[3] == '-' && forall i :: 0 <= i < |a| ==> a[i] != '-'
    ensures !Text.HasPrefix(a, prefix)
  {
    if |a| >= 4 { assert a[0..4][3] == a[3]; }
  }

  lemma {:induction false} HyphenOccurs(s: string)
    requires '-' in s
    ensures exists i :: 0 <= i <= |s| && Text.OccursAt(s, HYPHEN, i)
  {
    var i :| 0 <= i < |s| && s[i] == '-';
    assert s[i..i + 1] == HYPHEN && Text.OccursAt(s, HYPHEN, i);
  }

  /** So it is for every part of every file name: the branches for "2.0-" and "1.0-" are never taken. */
  lemma BranchesUnreachable(filename: string, part: string)
    requires part in Text.Split(TrimExt(filename), HYPHEN)
    ensures var number := if FindAlpha(part) == "" then part else RemoveFirst(part, FindAlpha(part));
      !Text.HasPrefix(number, "2.0-") && !Text.HasPrefix(number, "1.0-")
      && AdjustMissingPatchVersion(number) == if |number| == 3 then number + ".0" else number
  {
    hide FindAlpha, TrimExt, AdjustMissingPatchVersion, Text.Split;
    Text.SplitPartsAbsent(TrimExt(filename), HYPHEN);
    if '-' in part { HyphenOccurs(part); }
    var number := if FindAlpha(part) == "" then part else RemoveFirst(part, FindAlpha(part));
    forall i | 0 <= i < |number| ensures number[i] != '-' { assert number[i] in part; }
    NoPrefix(number, "2.0-");
    NoPrefix(number, "1.0-");
    OnlyPatchFilledIn(number);
  }

  // ----- plain names -----

  lemma VersionPartIff(part: string)
    ensures IsVersionPart(part) <==> part != "" && (part[0] == '1' || part[0] == '2') && '.' in part
  {
    if part != "" {
      assert part[0..1] == [part[0]];
      if '.' in part {
        var i :| 0 <= i < |part| && part[i] == '.';
        assert part[i..i + 1] == "." && Text.OccursAt(part, ".", i);
      }
      var k := Text.First(part, ".", 0);
      if k < |part| { OccursHead(part, ".", k); }
    }
  }

  lemma {:induction false} LastPart(front: string, last: string)
    requires '-' !in last
    ensures var parts := Text.Split(front + HYPHEN + last, HYPHEN); parts[|parts| - 1] == last
    decreases |front|
  {
    var s := front + HYPHEN + last;
    var k := Text.First(s, HYPHEN, 0);
    assert Text.OccursAt(s, HYPHEN, |front|);
    if k == |front| {
      assert s[k + 1..] == last;
      NoHyphenFree(last);
      Text.FreeMeansAbsent(last, HYPHEN);
    } else {
      assert s[k + 1..] == front[k + 1..] + HYPHEN + last;
      LastPart(front[k + 1..], last);
    }
  }

  /** A name that ends in a hyphen and a number reads back as that number, with a patch number when it has none. */
  lemma NumberReadsBack(name: string, number: string, version: string)
    requires number != "" && (number[0] == '1' || number[0] == '2') && '.' in number
    requires forall i :: 0 <= i < |number| ==> '0' <= number[i] <= '9' || number[i] == '.'
    requires MeansVersion(Text.Split(TrimExt(name + "-" + number + ".jar"), HYPHEN), version)
    ensures version == if |number| == 3 then number + ".0" else number
  {
    hide Text.Split, WithTag, TrimExt, IsVersionPart;
    var file := name + "-" + number + ".jar";
    JarTrimmed(name + "-" + number);
    LastPart(name, number);
    var parts := Text.Split(name + HYPHEN + number, HYPHEN);
    VersionPartIff(number);
    assert LastVersionPart(parts, |parts| - 1) && parts[|parts|..] == [];
    WithTagIs(number, "");
    NoLetters(number);
    OnlyPatchFilledIn(number);
  }

  lemma JarTrimmed(name: string)
    ensures TrimExt(name + ".jar") == name
  {
    var file := name + ".jar";
    assert file[|name|] == '.' && file[|name| + 1] == 'j' && file[|name| + 2] == 'a' && file[|name| + 3] == 'r';
    Archive.ExtFromDot(file, |name|, |file|);
    assert file[|name|..] == ".jar" && file[..|name|] == name;
  }

  lemma NoLetters(s: string)
    requires forall i :: 0 <= i < |s| ==> !('a' <= s[i] <= 'z')
    ensures FindAlpha(s) == ""
  {
  }

  /** In a part such as 2.0beta9 the letters go behind the number, which keeps the digits on both sides of them. */
  lemma LettersGoBehind(before: string, letters: string, after: string)
    requires letters != "" && forall i :: 0 <= i < |letters| ==> 'a' <= letters[i] <= 'z'
    requires forall i :: 0 <= i < |before| ==> !('a' <= before[i] <= 'z')
    requires after == "" || !('a' <= after[0] <= 'z')
    requires '-' !in before && '-' !in after
    ensures var number := before + after;
      WithTag(before + letters + after, "") == (if |number| == 3 then number + ".0" else number) + "-" + letters
  {
    var part := before + letters + after;
    LettersFound(before, letters, after);
    LettersTakenOut(part);
    ThreeParts(before, letters, after);
    forall i | 0 <= i < |before + after| ensures (before + after)[i] != '-' {
      assert (before + after)[i] in before + after;
    }
    OnlyPatchFilledIn(before + after);
    WithTagIs(part, "");
    hide WithTag, FindAlpha, RemoveFirst, AdjustMissingPatchVersion;
    assert Before(letters, "") == letters;
  }

  lemma ThreeParts(a: string, b: string, c: string)
    ensures var s := a + b + c;
      && (forall i :: 0 <= i < |a| ==> s[i] == a[i])
      && (forall i :: |a| <= i < |a| + |b| ==> s[i] == b[i - |a|])
      && (c != "" ==> s[|a| + |b|] == c[0])
      && s[..|a|] == a && s[|a|..|a| + |b|] == b && s[|a| + |b|..] == c
  {
  }

  lemma LettersFound(before: string, letters: string, after: string)
    requires letters != "" && forall i :: 0 <= i < |letters| ==> 'a' <= letters[i] <= 'z'
    requires forall i :: 0 <= i < |before| ==> !('a' <= before[i] <= 'z')
    requires after == "" || !('a' <= after[0] <= 'z')
    ensures var part := before + letters + after;
      FindAlpha(part) == letters && FirstLetter(part, 0) == |before| && RunEnd(part, |before|) == |before| + |letters|
  {
    hide FirstLetter, RunEnd;
    var part, k, end := before + letters + after, |before|, |before| + |letters|;
    ThreeParts(before, letters, after);
    LettersAt(part, k, end);
  }

  lemma LettersAt(s: string, k: nat, end: nat)
    requires k < end <= |s| && (forall i :: 0 <= i < k ==> !IsLetter(s[i]))
    requires (forall i :: k <= i < end ==> IsLetter(s[i])) && (end < |s| ==> !IsLetter(s[end]))
    ensures FirstLetter(s, 0) == k && RunEnd(s, k) == end && FindAlpha(s) == s[k..end]
  {
    hide FirstLetter, RunEnd;
    FirstLetterIs(s, k);
    RunEndIs(s, k, end);
  }

  lemma FirstLetterIs(s: string, k: nat)
    requires k < |s| && IsLetter(s[k]) && forall j :: 0 <= j < k ==> !IsLetter(s[j])
    ensures FirstLetter(s, 0) == k
  {
    hide FirstLetter;
  }

  lemma RunEndIs(s: string, i: nat, end: nat)
    requires i <= end <= |s| && (forall k :: i <= k < end ==> IsLetter(s[k])) && (end < |s| ==> !IsLetter(s[end]))
    ensures RunEnd(s, i) == end
  {
    hide RunEnd;
  }
}
