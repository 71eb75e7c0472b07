/** The regular-expression matcher of grep.c. Pattern and text are C strings: a char* is the rest of
    the string from there, and reading at its end gives NUL. */
module Grep {

  predicate CString(s: string) { '\0' !in s }

  /** s[i] of a NUL-terminated string. */
  function CharAt(s: string, i: nat): (c: char)
    requires i <= |s|
  {
    if i < |s| then s[i] else '\0'
  }

  // -------------------------------------------------- what a pattern denotes

  /** One character, or any number of them; '.' stands for every character. */
  datatype Item = One(c: char) | Star(c: char)

  /** A pattern without its leading '^': its items, and whether it ends in '$'. */
  datatype Pattern = Pattern(items: seq<Item>, toEnd: bool)

  function Parse(re: string): (p: Pattern)
    decreases |re|
  {
    if re == "" then Pattern([], false)
    else if |re| > 1 && re[1] == '*' then
      var rest := Parse(re[2..]);
      Pattern([Star(re[0])] + rest.items, rest.toEnd)
    else if re == "$" then Pattern([], true)
    else
      var rest := Parse(re[1..]);
      Pattern([One(re[0])] + rest.items, rest.toEnd)
  }

  predicate Accepts(c: char, x: char) { c == '.' || c == x }

  predicate AllAccepted(c: char, s: string) { forall i :: 0 <= i < |s| ==> Accepts(c, s[i]) }

  /** The language of a sequence of items. */
  ghost predicate InLanguage(items: seq<Item>, s: string)
    decreases |items|
  {
    if items == [] then s == ""
    else match items[0]
      case One(c) => s != "" && Accepts(c, s[0]) && InLanguage(items[1..], s[1..])
      case Star(c) => exists k :: 0 <= k <= |s| && AllAccepted(c, s[..k]) && InLanguage(items[1..], s[k..])
  }

  /** Some prefix of the text is in the language, the whole text if the pattern ends in '$'. */
  ghost predicate MatchesHere(p: Pattern, text: string) {
    exists k :: 0 <= k <= |text| && InLanguage(p.items, text[..k]) && (p.toEnd ==> k == |text|)
  }

  /** What match promises: with a leading '^' the match is at the start, without at any place. */
  ghost predicate Matches(re: string, text: string) {
    if re != "" && re[0] == '^' then MatchesHere(Parse(re[1..]), text)
    else exists i :: 0 <= i <= |text| && MatchesHere(Parse(re), text[i..])
  }

  // ------------------------------------------------------------- unfolding

  lemma HereEmpty(text: string)
    ensures MatchesHere(Parse(""), text)
  {
    assert InLanguage([], text[..0]);
  }

  lemma HereEnd(text: string)
    ensures MatchesHere(Parse("$"), text) <==> text == ""
  {
    assert text == "" ==> InLanguage([], text[..0]);
  }

  lemma OneSplits(p: Pattern, q: Pattern, text: string)
    requires p.items != [] && p.items[0].One? && q == Pattern(p.items[1..], p.toEnd) && MatchesHere(p, text)
    ensures text != "" && Accepts(p.items[0].c, text[0]) && MatchesHere(q, text[1..])
  {
    var k :| 0 <= k <= |text| && InLanguage(p.items, text[..k]) && (p.toEnd ==> k == |text|);
    assert text[..k][1..] == text[1..][..k - 1];
  }

  lemma OneJoins(p: Pattern, q: Pattern, text: string)
    requires p.items != [] && p.items[0].One? && q == Pattern(p.items[1..], p.toEnd)
    requires text != "" && Accepts(p.items[0].c, text[0]) && MatchesHere(q, text[1..])
    ensures MatchesHere(p, text)
  {
    var k :| 0 <= k <= |text[1..]| && InLanguage(q.items, text[1..][..k]) && (q.toEnd ==> k == |text[1..]|);
    assert text[..k + 1][1..] == text[1..][..k];
    assert InLanguage(p.items, text[..k + 1]);
  }

  lemma HereOne(re: string, text: string)
    requires re != "" && !(|re| > 1 && re[1] == '*') && re != "$"
    ensures MatchesHere(Parse(re), text) <==>
      text != "" && Accepts(re[0], text[0]) && MatchesHere(Parse(re[1..]), text[1..])
  {
    var p, q := Parse(re), Parse(re[1..]);
    assert p.items[1..] == q.items;
    hide MatchesHere, InLanguage;
    if MatchesHere(p, text) { OneSplits(p, q, text); }
    if text != "" && Accepts(re[0], text[0]) && MatchesHere(q, text[1..]) { OneJoins(p, q, text); }
  }

  /** Some number of accepted characters, and a match after them. */
  ghost predicate MatchesAfter(c: char, p: Pattern, text: string) {
    exists j :: 0 <= j <= |text| && AllAccepted(c, text[..j]) && MatchesHere(p, text[j..])
  }

  lemma StarSplits(p: Pattern, q: Pattern, text: string)
    requires p.items != [] && p.items[0].Star? && q == Pattern(p.items[1..], p.toEnd) && MatchesHere(p, text)
    ensures MatchesAfter(p.items[0].c, q, text)
  {
    var c := p.items[0].c;
    var k :| 0 <= k <= |text| && InLanguage(p.items, text[..k]) && (p.toEnd ==> k == |text|);
    var j :| 0 <= j <= k && AllAccepted(c, text[..k][..j]) && InLanguage(q.items, text[..k][j..]);
    assert text[..k][..j] == text[..j] && text[..k][j..] == text[j..][..k - j];
    assert MatchesHere(q, text[j..]);
  }

  lemma StarJoins(p: Pattern, q: Pattern, text: string)
    requires p.items != [] && p.items[0].Star? && q == Pattern(p.items[1..], p.toEnd)
    requires MatchesAfter(p.items[0].c, q, text)
    ensures MatchesHere(p, text)
  {
    var c := p.items[0].c;
    var j :| 0 <= j <= |text| && AllAccepted(c, text[..j]) && MatchesHere(q, text[j..]);
    var k :| 0 <= k <= |text[j..]| && InLanguage(q.items, text[j..][..k]) && (q.toEnd ==> k == |text[j..]|);
    var s := text[..j + k];
    assert s[..j] == text[..j] && s[j..] == text[j..][..k];
    assert InLanguage(p.items, s);
  }

  lemma HereStar(re: string, text: string)
    requires |re| > 1 && re[1] == '*'
    ensures MatchesHere(Parse(re), text) <==> MatchesAfter(re[0], Parse(re[2..]), text)
  {
    var p, q := Parse(re), Parse(re[2..]);
    assert p.items[1..] == q.items;
    hide MatchesHere, InLanguage, MatchesAfter;
    if MatchesHere(p, text) { StarSplits(p, q, text); }
    if MatchesAfter(re[0], q, text) { StarJoins(p, q, text); }
  }

  // ---------------------------------------------------------------- the matcher

  /** matchhere: is some prefix of the text in the pattern's language? */
  method MatchHere(re: string, text: string) returns (r: bool)
    requires CString(re) && CString(text)
    ensures r <==> MatchesHere(Parse(re), text)
    decreases |re|, 0
  {
    if CharAt(re, 0) == '\0' {
      HereEmpty(text);
      return true;
    }
    if CharAt(re, 1) == '*' {
      HereStar(re, text);
      r := MatchStar(re[0], re[2..], text);
      return;
    }
    if CharAt(re, 0) == '$' && CharAt(re, 1) == '\0' {
      assert re == "$";
      HereEnd(text);
      return CharAt(text, 0) == '\0';
    }
    HereOne(re, text);
    if CharAt(text, 0) != '\0' && (re[0] == '.' || re[0] == CharAt(text, 0)) {
      r := MatchHere(re[1..], text[1..]);
      return;
    }
    r := false;
  }

  /** matchstar: does re match after a run, possibly empty, of characters c accepts? */
  method MatchStar(c: char, re: string, text: string) returns (r: bool)
    requires c != '\0' && CString(re) && CString(text)
    ensures r <==> MatchesAfter(c, Parse(re), text)
    decreases |re|, 1
  {
    var i := 0;
    assert text[0..] == text;
    while true
      invariant 0 <= i <= |text| && AllAccepted(c, text[..i])
      invariant forall j :: 0 <= j < i ==> !MatchesHere(Parse(re), text[j..])
      decreases |text| - i
    {
      r := MatchHere(re, text[i..]);
      if r { return; }
      if !(CharAt(text, i) != '\0' && (CharAt(text, i) == c || c == '.')) {
        assert forall j :: i < j <= |text| && AllAccepted(c, text[..j]) ==> Accepts(c, text[..j][i]);
        return false;
      }
      assert text[..i + 1] == text[..i] + [text[i]];
      i := i + 1;
    }
  }

  /** match: 1 exactly when the text is matched. */
  method Match(re: string, text: string) returns (r: bool)
    requires CString(re) && CString(text)
    ensures r <==> Matches(re, text)
  {
    if CharAt(re, 0) == '^' {
      r := MatchHere(re[1..], text);
      return;
    }
    var i := 0;
    while true
      invariant 0 <= i <= |text|
      invariant forall j :: 0 <= j < i ==> !MatchesHere(Parse(re), text[j..])
      decreases |text| - i
    {
      r := MatchHere(re, text[i..]);
      if r { return; }
      if CharAt(text, i) == '\0' { return false; }
      i := i + 1;
    }
  }
}
