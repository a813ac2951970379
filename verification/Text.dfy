/** Searching, splitting and joining strings, as the Go and JavaScript libraries do. */
module Text {

  predicate OccursAt(s: string, sep: string, i: nat) {
    i + |sep| <= |s| && s[i..i + |sep|] == sep
  }

  /** The first occurrence of sep at or after i, or |s| when there is none. */
  function First(s: string, sep: string, i: nat): (k: nat)
    requires sep != "" && i <= |s|
    ensures i <= k <= |s| && (k < |s| ==> OccursAt(s, sep, k))
    ensures forall j :: i <= j < k ==> !OccursAt(s, sep, j)
    decreases |s| - i
  {
    if i == |s| || OccursAt(s, sep, i) then i else First(s, sep, i + 1)
  }

  function Split(s: string, sep: string): (parts: seq<string>)
    requires sep != ""
    ensures parts != []
    decreases |s|
  {
    var k := First(s, sep, 0);
    if k == |s| then [s] else [s[..k]] + Split(s[k + |sep|..], sep)
  }

  function Join(parts: seq<string>, sep: string): string {
    if parts == [] then ""
    else if |parts| == 1 then parts[0]
    else parts[0] + sep + Join(parts[1..], sep)
  }

  lemma Associate(a: string, b: string, c: string)
    ensures a + b + c == a + (b + c)
  {
  }

  predicate NoneBefore(s: string, sep: string, n: nat) {
    forall i :: 0 <= i < n ==> !OccursAt(s, sep, i)
  }

  /** No occurrence of sep begins inside the part once the separator follows it. */
  predicate FreeOf(part: string, sep: string)
    requires sep != ""
  {
    NoneBefore(part + sep[..|sep| - 1], sep, |part|)
  }

  /** An occurrence that begins in a part, with only the separator behind it, lies before the separator's end. */
  lemma OccursInFront(part: string, sep: string, rest: string, k: nat)
    requires sep != "" && k < |part|
    ensures OccursAt(part + sep + rest, sep, k) ==> OccursAt(part + sep[..|sep| - 1], sep, k)
  {
    var s, short := part + sep + rest, part + sep[..|sep| - 1];
    assert s[..|short|] == short;
    if OccursAt(s, sep, k) { assert s[k..k + |sep|] == short[k..k + |sep|]; }
  }

  lemma OccursInside(part: string, sep: string, k: nat)
    requires sep != ""
    ensures OccursAt(part, sep, k) ==> OccursAt(part + sep[..|sep| - 1], sep, k)
  {
    var short := part + sep[..|sep| - 1];
    if OccursAt(part, sep, k) { assert part[k..k + |sep|] == short[k..k + |sep|]; }
  }

  lemma FreeMeansFirst(part: string, sep: string, rest: string)
    requires sep != "" && FreeOf(part, sep)
    ensures First(part + sep + rest, sep, 0) == |part|
  {
    var s := part + sep + rest;
    forall k | 0 <= k < |part| ensures !OccursAt(s, sep, k) { OccursInFront(part, sep, rest, k); }
    assert OccursAt(s, sep, |part|);
  }

  lemma FreeMeansAbsent(part: string, sep: string)
    requires sep != "" && FreeOf(part, sep)
    ensures First(part, sep, 0) == |part|
  {
    forall k | 0 <= k < |part| ensures !OccursAt(part, sep, k) { OccursInside(part, sep, k); }
  }

  lemma {:induction false} SplitJoin(parts: seq<string>, sep: string)
    requires sep != "" && parts != [] && forall p :: p in parts ==> FreeOf(p, sep)
    ensures Split(Join(parts, sep), sep) == parts
  {
    if |parts| == 1 {
      FreeMeansAbsent(parts[0], sep);
    } else {
      var rest := Join(parts[1..], sep);
      FreeMeansFirst(parts[0], sep, rest);
      SplitJoin(parts[1..], sep);
      var s := parts[0] + sep + rest;
      assert s[..|parts[0]|] == parts[0];
      assert s[|parts[0]| + |sep|..] == rest;
    }
  }

  lemma {:induction false} JoinSplit(s: string, sep: string)
    requires sep != ""
    ensures Join(Split(s, sep), sep) == s
    decreases |s|
  {
    var k := First(s, sep, 0);
    if k < |s| {
      JoinSplit(s[k + |sep|..], sep);
      assert s == s[..k] + sep + s[k + |sep|..];
    }
  }

  /** Splitting invents no character. */
  lemma {:induction false} SplitKeepsOut(s: string, sep: string, c: char)
    requires sep != "" && c !in s
    ensures forall p :: p in Split(s, sep) ==> c !in p
    decreases |s|
  {
    var k := First(s, sep, 0);
    assert c !in s[..k];
    if k < |s| {
      hide First;
      assert c !in s[k + |sep|..];
      SplitKeepsOut(s[k + |sep|..], sep, c);
    }
  }

  lemma {:induction false} JoinKeepsOut(parts: seq<string>, sep: string, c: char)
    requires c !in sep && forall p :: p in parts ==> c !in p
    ensures c !in Join(parts, sep)
  {
    if |parts| > 1 { JoinKeepsOut(parts[1..], sep, c); }
  }

  /** Splitting what was split leaves no separator in any part. */
  lemma {:induction false} SplitPartsAbsent(s: string, sep: string)
    requires sep != ""
    ensures forall p, i :: p in Split(s, sep) && 0 <= i <= |p| ==> !OccursAt(p, sep, i)
    decreases |s|
  {
    var k := First(s, sep, 0);
    if k < |s| {
      SplitPartsAbsent(s[k + |sep|..], sep);
      forall i | 0 <= i <= k ensures !OccursAt(s[..k], sep, i) {
        if OccursAt(s[..k], sep, i) {
          assert s[..k][i..i + |sep|] == s[i..i + |sep|];
          assert OccursAt(s, sep, i);
        }
      }
    }
  }

  predicate HasPrefix(s: string, prefix: string) {
    OccursAt(s, prefix, 0)
  }

  predicate Contains(s: string, sub: string)
    requires sub != ""
  {
    First(s, sub, 0) < |s|
  }
}
