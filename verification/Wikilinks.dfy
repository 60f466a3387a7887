/**
 The wikilink rewriter: position guards, case-insensitive title matching, and
 the pass that wraps title mentions in `[[slug|Title]]`.

 Case folding is a parameter `fold`, applied character by character as a regular
 expression with the `i` flag does.
 */
module Wikilinks {
  import Strings
  import opened Text

  /** A page of the title index: only its slug and title matter to linking. */
  datatype PageInfo = PageInfo(slug: string, title: string)

  /** A match position; `end` is one past the last character. */
  datatype Span = Span(start: nat, end: nat)

  predicate IsBracket(c: char) {
    c == '[' || c == ']'
  }

  predicate IsPunctuation(c: char) {
    || c == ',' || c == '.' || c == ':' || c == ';' || c == '!' || c == '?'
    || c == '(' || c == ')' || c == '{' || c == '}' || c == '/' || c == '\"' || c == '\''
  }

  /** The characters accepted on either side of a mention. */
  predicate IsBoundary(c: char) {
    IsBracket(c) || IsPunctuation(c) || Strings.IsWhiteSpace(c)
  }

  /** Folding neither changes nor produces a boundary character or a caret. */
  ghost predicate KeepsMarkup(fold: char -> char) {
    forall c :: IsBoundary(c) || c == '^' || IsBoundary(fold(c)) || fold(c) == '^' ==> fold(c) == c
  }

  /** Text without square brackets. */
  predicate BracketFree(s: string) {
    forall k :: 0 <= k < |s| ==> !IsBracket(s[k])
  }

  /** A page whose link is well formed: a title to look for, no brackets inside the link. */
  predicate Linkable(page: PageInfo) {
    page.title != "" && BracketFree(page.title) && BracketFree(page.slug)
  }

  // ----- Position guards -----

  /** The guard shared by the link check (`[[`, `]]`) and the citation check (`^[`, `]`). */
  predicate IsInside(text: string, open: string, close: string, position: nat) {
    var before := LastIndexOf(text, open, position);
    var after := IndexOf(text, close, position);
    if before == -1 || after == -1 then false
    else IndexOf(text, close, before) >= position
  }

  predicate IsInsideWikilink(text: string, position: nat) {
    IsInside(text, "[[", "]]", position)
  }

  predicate IsInsideCitation(text: string, position: nat) {
    IsInside(text, "^[", "]", position)
  }

  predicate IsWordBoundary(text: string, start: nat, end: nat)
    requires start <= |text|
  {
    && (start == 0 || IsBoundary(text[start - 1]))
    && (end >= |text| || IsBoundary(text[end]))
  }

  predicate IsLinkablePosition(text: string, start: nat, end: nat)
    requires start <= |text|
  {
    && !IsInsideWikilink(text, start)
    && !IsInsideCitation(text, start)
    && IsWordBoundary(text, start, end)
  }

  // ----- Matching -----

  /** `title` occurs at `i`, up to case. */
  predicate Occurs(fold: char -> char, text: string, title: string, i: int) {
    0 <= i <= i + |title| <= |text|
    && forall q :: i <= q < i + |title| ==> fold(text[q]) == fold(title[q - i])
  }

  /** What one `regex.exec` call finds: the leftmost occurrence at `from` or later, or -1. */
  function NextMatch(fold: char -> char, text: string, title: string, from: nat): (r: int)
    ensures r == -1 || from <= r <= r + |title| <= |text|
    decreases |text| - from
  {
    if from + |title| > |text| then -1
    else if Occurs(fold, text, title, from) then from
    else NextMatch(fold, text, title, from + 1)
  }

  lemma {:induction false} NextMatchLeftmost(fold: char -> char, text: string, title: string, from: nat)
    ensures var r := NextMatch(fold, text, title, from);
      && (r != -1 ==> Occurs(fold, text, title, r))
      && forall i :: from <= i && (r == -1 || i < r) ==> !Occurs(fold, text, title, i)
    decreases |text| - from
  {
    if from + |title| <= |text| && !Occurs(fold, text, title, from) {
      NextMatchLeftmost(fold, text, title, from + 1);
    }
  }

  /** The non-overlapping matches from left to right, starting the scan at `from`. */
  function TitleMatches(fold: char -> char, text: string, title: string, from: nat): (ms: seq<Span>)
    requires title != ""
    decreases |text| - from
  {
    var next := NextMatch(fold, text, title, from);
    if next == -1 then []
    else [Span(next, next + |title|)] + TitleMatches(fold, text, title, next + |title|)
  }

  lemma {:induction false} MatchesOrdered(fold: char -> char, text: string, title: string, from: nat)
    requires title != ""
    ensures Ordered(TitleMatches(fold, text, title, from), from, |text|)
    decreases |text| - from
  {
    var next := NextMatch(fold, text, title, from);
    if next != -1 {
      MatchesOrdered(fold, text, title, next + |title|);
    }
  }

  /** Spans lie in `[from, limit]`, left to right, without overlap. */
  ghost predicate Ordered(ms: seq<Span>, from: nat, limit: nat) {
    ms == [] || (from <= ms[0].start <= ms[0].end <= limit && Ordered(ms[1..], ms[0].end, limit))
  }

  /** The imperative scan: repeated `exec` pushing each match. */
  method FindTitleMatches(fold: char -> char, text: string, title: string) returns (matches: seq<Span>)
    requires title != ""
    ensures matches == TitleMatches(fold, text, title, 0)
  {
    matches := [];
    var lastIndex := 0;
    ghost var rest := TitleMatches(fold, text, title, 0);
    ghost var all := rest;
    while true
      invariant lastIndex <= |text|
      invariant rest == TitleMatches(fold, text, title, lastIndex)
      invariant matches + rest == all
      decreases |text| - lastIndex
    {
      var next := NextMatch(fold, text, title, lastIndex);
      if next == -1 {
        break;
      }
      AppendOne(matches, rest[0], rest[1..]);
      matches := matches + [Span(next, next + |title|)];
      lastIndex := next + |title|;
      rest := rest[1..];
    }
  }

  lemma AppendOne<T>(s: seq<T>, x: T, rest: seq<T>)
    ensures s + ([x] + rest) == (s + [x]) + rest
  {}

  // ----- Rewriting -----

  function LinkText(page: PageInfo): string {
    "[[" + page.slug + "|" + page.title + "]]"
  }

  /** One replacement, skipped when the position is not eligible in the text as it now stands. */
  function LinkOne(text: string, page: PageInfo, m: Span): (r: string)
    requires m.start <= m.end <= |text|
    ensures m.start <= |r| && r[..m.start] == text[..m.start]
  {
    if IsLinkablePosition(text, m.start, m.end)
    then text[..m.start] + LinkText(page) + text[m.end..]
    else text
  }

  /** All matches of one title, the last one first. */
  function LinkMatches(text: string, page: PageInfo, ms: seq<Span>, ghost from: nat): (r: string)
    requires from <= |text| && Ordered(ms, from, |text|)
    ensures from <= |r| && r[..from] == text[..from]
  {
    if ms == [] then text
    else
      var rest := LinkMatches(text, page, ms[1..], ms[0].end);
      assert rest[..from] == rest[..ms[0].end][..from] == text[..ms[0].end][..from] == text[..from];
      LinkOne(rest, page, ms[0])
  }

  function LinkTitle(fold: char -> char, text: string, page: PageInfo): string
    requires page.title != ""
  {
    MatchesOrdered(fold, text, page.title, 0);
    LinkMatches(text, page, TitleMatches(fold, text, page.title, 0), 0)
  }

  /** All titles in index order, skipping the page's own title. */
  function LinkTitles(fold: char -> char, text: string, titles: seq<PageInfo>, selfTitle: string): string
    requires forall p :: p in titles ==> p.title != ""
    decreases |titles|
  {
    if titles == [] then text
    else
      var page := titles[0];
      var text' := if EqFold(fold, page.title, selfTitle) then text else LinkTitle(fold, text, page);
      LinkTitles(fold, text', titles[1..], selfTitle)
  }

  /** The pass over a page body as the compiler runs it. */
  method AddWikilinks(fold: char -> char, body: string, titles: seq<PageInfo>, selfTitle: string)
    returns (result: string)
    requires forall p :: p in titles ==> p.title != ""
    ensures result == LinkTitles(fold, body, titles, selfTitle)
  {
    result := body;
    for i := 0 to |titles|
      invariant LinkTitles(fold, result, titles[i..], selfTitle) == LinkTitles(fold, body, titles, selfTitle)
    {
      var page := titles[i];
      if !EqFold(fold, page.title, selfTitle) {
        ghost var before := result;
        var matches := FindTitleMatches(fold, result, page.title);
        MatchesOrdered(fold, result, page.title, 0);
        OrderedSlices(matches, 0, |result|);
        var k := |matches|;
        while k > 0
          invariant 0 <= k <= |matches|
          invariant result == LinkMatches(before, page, matches[k..], if k == 0 then 0 else matches[k - 1].end)
        {
          k := k - 1;
          ghost var from := if k == 0 then 0 else matches[k - 1].end;
          assert matches[k..][0] == matches[k] && matches[k..][1..] == matches[k + 1..];
          var m := matches[k];
          if IsLinkablePosition(result, m.start, m.end) {
            result := result[..m.start] + LinkText(page) + result[m.end..];
          }
        }
        assert matches[0..] == matches;
      }
      assert titles[i..][0] == page && titles[i..][1..] == titles[i + 1..];
    }
  }

  lemma OrderedSlices(ms: seq<Span>, from: nat, limit: nat)
    requires Ordered(ms, from, limit) && from <= limit
    ensures forall k :: 0 <= k <= |ms| ==>
      Ordered(ms[k..], if k == 0 then from else ms[k - 1].end, limit)
      && (if k == 0 then from else ms[k - 1].end) <= limit
  {
    if ms != [] {
      OrderedSlices(ms[1..], ms[0].end, limit);
      forall k | 0 < k <= |ms|
        ensures Ordered(ms[k..], ms[k - 1].end, limit) && ms[k - 1].end <= limit
      {
        assert ms[k..] == ms[1..][k - 1..];
        if k > 1 {
          assert ms[k - 1] == ms[1..][k - 2];
        }
      }
    }
    assert ms[0..] == ms;
  }
}
