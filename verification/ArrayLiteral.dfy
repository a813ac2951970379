/** Reading an array literal as PostgreSQL does (section 8.15.6 of its manual), for quoted elements. */
module ArrayLiteral {
  import opened Options
  import opened MatchDedupe
  import Text

  datatype Parsed = Parsed(element: string, rest: string)

  /** The text up to the closing quote; a backslash takes the next character as it is. */
  function ParseQuoted(s: string): (r: Option<Parsed>)
    ensures r.Some? ==> |r.value.rest| < |s|
    decreases |s|
  {
    if s == "" then None
    else if s[0] == '"' then Some(Parsed("", s[1..]))
    else if s[0] == '\\' then
      if |s| == 1 then None
      else
        var r := ParseQuoted(s[2..]);
        if r.None? then None else Some(Parsed([s[1]] + r.value.element, r.value.rest))
    else
      var r := ParseQuoted(s[1..]);
      if r.None? then None else Some(Parsed([s[0]] + r.value.element, r.value.rest))
  }

  function SkipSpaces(s: string): (r: string)
    ensures |r| <= |s|
  {
    if s != "" && s[0] == ' ' then SkipSpaces(s[1..]) else s
  }

  function ParseElements(s: string): Option<seq<string>>
    decreases |s|
  {
    var t := SkipSpaces(s);
    if t == "" || t[0] != '"' then None
    else
      var first := ParseQuoted(t[1..]);
      if first.None? then None
      else
        var after := SkipSpaces(first.value.rest);
        if after == "}" then Some([first.value.element])
        else if after == "" || after[0] != ',' then None
        else
          var rest := ParseElements(after[1..]);
          if rest.None? then None else Some([first.value.element] + rest.value)
  }

  function ParseArray(s: string): Option<seq<string>> {
    if s == "" || s[0] != '{' then None
    else if SkipSpaces(s[1..]) == "}" then Some([])
    else ParseElements(s[1..])
  }

  predicate HasBackslash(s: string) {
    '\\' in s
  }

  /** The text of an element after its opening quote, and what follows. */
  function Closed(e: string, tail: string): string {
    EscapeQuotes(e) + ['"'] + tail
  }

  lemma ClosedStep(e: string, tail: string)
    ensures Closed(e, tail) == if e == "" then ['"'] + tail else Escaped(e[0]) + Closed(e[1..], tail)
  {
    if e != "" {
      hide EscapeQuotes, Escaped;
      EscapeStep(e);
      assert Escaped(e[0]) + EscapeQuotes(e[1..]) + ['"'] + tail
        == Escaped(e[0]) + (EscapeQuotes(e[1..]) + ['"'] + tail);
    }
  }

  lemma EscapeStep(e: string)
    requires e != ""
    ensures EscapeQuotes(e) == Escaped(e[0]) + EscapeQuotes(e[1..])
  {
  }

  function Prepend(c: char, r: Option<Parsed>): Option<Parsed> {
    if r.None? then None else Some(Parsed([c] + r.value.element, r.value.rest))
  }

  lemma ParseStep(c: char, next: string)
    ensures c == '"' ==> ParseQuoted([c] + next) == Some(Parsed("", next))
    ensures c != '"' && c != '\\' ==> ParseQuoted([c] + next) == Prepend(c, ParseQuoted(next))
  {
    assert ([c] + next)[1..] == next;
  }

  lemma ParseEscaped(c: char, next: string)
    ensures ParseQuoted(['\\', c] + next) == Prepend(c, ParseQuoted(next))
  {
    assert (['\\', c] + next)[2..] == next;
  }

  /** The parser undoes the escaping of a character that is not a backslash. */
  lemma ParseCharacter(e: string, tail: string)
    requires e != "" && e[0] != '\\'
    ensures ParseQuoted(Closed(e, tail)) == Prepend(e[0], ParseQuoted(Closed(e[1..], tail)))
  {
    hide ParseQuoted, Closed;
    ClosedStep(e, tail);
    if e[0] == '"' { ParseEscaped('"', Closed(e[1..], tail)); } else { ParseStep(e[0], Closed(e[1..], tail)); }
  }

  lemma {:induction false} CleanElement(e: string, tail: string)
    requires !HasBackslash(e)
    ensures ParseQuoted(Closed(e, tail)) == Some(Parsed(e, tail))
  {
    hide ParseQuoted, Closed;
    if e == "" {
      ClosedStep(e, tail);
      ParseStep('"', tail);
    } else {
      ParseCharacter(e, tail);
      CleanElement(e[1..], tail);
      assert e == [e[0]] + e[1..];
    }
  }

  predicate OnlyBackslashes(w: string) {
    forall i :: 0 <= i < |w| ==> w[i] == '\\'
  }

  lemma PrependOther(c: char, r: Option<Parsed>, x: string)
    requires r.None? || r.value.element != x
    ensures Prepend(c, r).None? || Prepend(c, r).value.element != [c] + x
  {
    if r.Some? { assert ([c] + r.value.element)[1..] == r.value.element && ([c] + x)[1..] == x; }
  }

  /** Backslashes are not escaped, so the parser never returns an element that has one: reading the text of e
      never gives e, nor e with backslashes w in front. */
  lemma {:induction false} DirtyElement(e: string, w: string, tail: string)
    requires OnlyBackslashes(w) && (w != "" || HasBackslash(e))
    ensures var r := ParseQuoted(Closed(e, tail)); r.None? || r.value.element != w + e
    decreases |e|
  {
    hide ParseQuoted, Closed;
    if e == "" {
      ClosedStep(e, tail);
      ParseStep('"', tail);
    } else if e[0] == '\\' {
      DirtyBackslash(e, w, tail);
    } else {
      ParseCharacter(e, tail);
      if w == "" {
        assert e == [e[0]] + e[1..];
        DirtyElement(e[1..], w, tail);
        PrependOther(e[0], ParseQuoted(Closed(e[1..], tail)), w + e[1..]);
        assert w + e == [e[0]] + (w + e[1..]);
      } else {
        assert (w + e)[0] == '\\';
      }
    }
  }

  /** A backslash takes the next character as it is: the closing quote, the backslash put before a quote,
      or the next character of e. */
  lemma {:induction false} DirtyBackslash(e: string, w: string, tail: string)
    requires OnlyBackslashes(w) && e != "" && e[0] == '\\'
    ensures var r := ParseQuoted(Closed(e, tail)); r.None? || r.value.element != w + e
    decreases |e|, 0
  {
    hide ParseQuoted, Closed;
    assert (w + e)[0] == '\\';
    ClosedBackslash(e, tail);
    if |e| == 1 {
      ParseEscaped('"', tail);
    } else {
      var after := Closed(e[2..], tail);
      if e[1] == '"' {
        ParseEscaped('\\', ['"'] + after);
        ParseStep('"', after);
      } else {
        ParseEscaped(e[1], after);
        if e[1] == '\\' {
          DirtyElement(e[2..], w + ['\\'], tail);
          OneBackslashMore(w, e);
          PrependOther('\\', ParseQuoted(after), w + ['\\'] + e[2..]);
        }
      }
    }
  }

  lemma ClosedBackslash(e: string, tail: string)
    requires e != "" && e[0] == '\\'
    ensures |e| == 1 ==> Closed(e, tail) == ['\\', '"'] + tail
    ensures |e| > 1 ==> var after := Closed(e[2..], tail);
      Closed(e, tail) == if e[1] == '"' then ['\\', '\\'] + (['"'] + after) else ['\\', e[1]] + after
  {
    hide Closed;
    ClosedStep(e, tail);
    ClosedStep(e[1..], tail);
    if |e| > 1 { assert e[1..][1..] == e[2..]; }
  }

  lemma OneBackslashMore(w: string, e: string)
    requires OnlyBackslashes(w) && |e| > 1 && e[0] == e[1] == '\\'
    ensures w + e == ['\\'] + (w + ['\\'] + e[2..]) && OnlyBackslashes(w + ['\\'])
  {
    assert e == ['\\'] + ['\\'] + e[2..];
    assert w + ['\\'] == ['\\'] + w;
  }

  // ----- whole arrays -----

  function ElementsText(a: seq<string>): string {
    if a == [] then ""
    else Quoted(a[0]) + if |a| == 1 then "}" else ", " + ElementsText(a[1..])
  }

  lemma {:induction false} FormatIsElements(a: seq<string>)
    requires a != []
    ensures Text.Join(QuotedAll(a), ", ") + "}" == ElementsText(a)
  {
    if |a| > 1 {
      assert QuotedAll(a)[1..] == QuotedAll(a[1..]);
      FormatIsElements(a[1..]);
    }
  }

  predicate Clean(a: seq<string>) {
    forall i :: 0 <= i < |a| ==> !HasBackslash(a[i])
  }

  /** What the parser makes of a list whose first element's text is body, up to its closing quote. */
  lemma ParseFirst(body: string)
    ensures var r, all := ParseQuoted(body), ParseElements(['"'] + body);
      && (all.Some? ==> r.Some? && all.value != [] && all.value[0] == r.value.element)
      && (r.Some? && r.value.rest == "}" ==> all == Some([r.value.element]))
      && (r.Some? && r.value.rest != "" && r.value.rest[0] == ',' ==>
            var rest := ParseElements(r.value.rest[1..]);
            all == if rest.None? then None else Some([r.value.element] + rest.value))
  {
    hide ParseQuoted;
    var text := ['"'] + body;
    assert text[1..] == body && SkipSpaces(text) == text;
  }

  function TailText(a: seq<string>): string
    requires a != []
  {
    if |a| == 1 then "}" else ", " + ElementsText(a[1..])
  }

  lemma ElementsTextStart(a: seq<string>)
    requires a != []
    ensures ElementsText(a) == ['"'] + Closed(a[0], TailText(a))
  {
    hide EscapeQuotes, TailText, ElementsText;
    ElementsTextStep(a);
    Regroup(['"'], EscapeQuotes(a[0]), ['"'], TailText(a));
  }

  lemma ElementsTextStep(a: seq<string>)
    requires a != []
    ensures ElementsText(a) == Quoted(a[0]) + TailText(a)
  {
    hide Quoted;
  }

  lemma Regroup(a: string, b: string, c: string, d: string)
    ensures a + b + c + d == a + (b + c + d)
  {
  }

  lemma TailRead(a: seq<string>)
    requires a != []
    ensures |a| == 1 ==> TailText(a) == "}"
    ensures |a| > 1 ==> TailText(a) != "" && TailText(a)[0] == ',' && TailText(a)[1..] == " " + ElementsText(a[1..])
  {
    hide ElementsText;
    if |a| > 1 {
      var text := ElementsText(a[1..]);
      assert ", " == "," + " ";
      assert ("," + " " + text)[1..] == " " + text;
    }
  }

  /** What the parser makes of a whole list, in terms of what it makes of the rest. */
  lemma FirstElement(a: seq<string>)
    requires a != []
    ensures ElementsText(a) != "" && ElementsText(a)[0] == '"'
    ensures !HasBackslash(a[0]) ==>
      var rest := if |a| == 1 then Some([]) else ParseElements(" " + ElementsText(a[1..]));
      ParseElements(ElementsText(a)) == if rest.None? then None else Some([a[0]] + rest.value)
    ensures var r := ParseElements(ElementsText(a));
      HasBackslash(a[0]) && r.Some? ==> r.value != [] && r.value[0] != a[0]
  {
    hide *;
    var tail := TailText(a);
    ElementsTextStart(a);
    TailRead(a);
    ParseFirst(Closed(a[0], tail));
    if HasBackslash(a[0]) {
      NoBackslashesInFront(a[0]);
      DirtyElement(a[0], "", tail);
    } else {
      CleanElement(a[0], tail);
      if |a| == 1 { assert [a[0]] + [] == [a[0]]; }
    }
  }

  lemma NoBackslashesInFront(e: string)
    ensures OnlyBackslashes("") && "" + e == e
  {
  }

  lemma LeadingSpace(s: string)
    ensures ParseElements(" " + s) == ParseElements(s)
  {
    assert (" " + s)[1..] == s && SkipSpaces(" " + s) == SkipSpaces(s);
  }

  lemma {:induction false} ElementsReadBackIff(a: seq<string>)
    requires a != []
    ensures ParseElements(ElementsText(a)) == Some(a) <==> Clean(a)
  {
    hide ParseElements, ElementsText, HasBackslash;
    FirstElement(a);
    if |a| > 1 {
      ElementsReadBackIff(a[1..]);
      LeadingSpace(ElementsText(a[1..]));
      var rest := ParseElements(ElementsText(a[1..]));
      if rest.Some? { assert ([a[0]] + rest.value)[1..] == rest.value; }
      assert a == [a[0]] + a[1..];
      assert Clean(a) <==> !HasBackslash(a[0]) && Clean(a[1..]);
    } else {
      assert a == [a[0]] + [];
    }
  }

  /** The literal reads back as the list it was made from exactly when no element contains a backslash. */
  lemma LiteralReadsBackIff(a: seq<string>)
    ensures ParseArray(FormatPsqlStringArray(a)) == Some(a) <==> Clean(a)
  {
    var s := FormatPsqlStringArray(a);
    if a == [] {
      assert s == "{}" && s[1..] == "}";
    } else {
      FormatIsElements(a);
      assert s == "{" + (Text.Join(QuotedAll(a), ", ") + "}") && s[1..] == ElementsText(a);
      assert SkipSpaces(ElementsText(a)) == ElementsText(a) && ElementsText(a)[0] == '"';
      ElementsReadBackIff(a);
    }
  }

  /** The list of one backslash: its literal {"\"} is refused, since the backslash takes the closing quote. */
  lemma OneBackslashIsRefused()
    ensures FormatPsqlStringArray(["\\"]) == "{\"\\\"}" && ParseArray("{\"\\\"}") == None
  {
    hide ParseQuoted, ParseElements;
    var a, text := ["\\"], "\"\\\"}";
    assert EscapeQuotes("\\") == "\\" by { EscapeStep("\\"); }
    assert FormatPsqlStringArray(a) == "{" + text;
    assert ("{" + text)[1..] == text && SkipSpaces(text) == text && text == ['"'] + "\\\"}";
    ParseFirst("\\\"}");
    ParseEscaped('"', "}");
    assert "\\\"}" == ['\\', '"'] + "}";
    NeverClosed();
  }

  lemma NeverClosed()
    ensures ParseQuoted("}") == None
  {
    assert ParseQuoted("") == None;
    ParseStep('}', "");
  }
}
