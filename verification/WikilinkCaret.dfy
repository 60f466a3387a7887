/**
 When the wikilink pass is unsound: linking a title that ends in a caret can dissolve a
 citation mark, after which a later title is linked inside what the body had as a citation.
 */
module WikilinkCaret {
  import opened Text
  import opened Wikilinks
  import opened WikilinkDocs
  import opened WikilinkSoundness
  import opened WikilinkRelinking

  /** A mention of the caret title, directly followed by the other title in brackets. */
  function CitedBody(caret: PageInfo, cited: PageInfo): string {
    caret.title + "[" + cited.title + "]"
  }

  /**
   A title shows up inside a caret title, up to case, as a word that the pass would link: on word boundaries, and not
   as the caret alone.
   */
  ghost predicate MentionedIn(fold: char -> char, caret: string, title: string) {
    exists i: nat :: WordAt(fold, caret, title, i)
  }

  ghost predicate WordAt(fold: char -> char, caret: string, title: string, i: nat) {
    && Occurs(fold, caret, title, i) && (i == 0 || IsBoundary(caret[i - 1]))
    && if i + |title| < |caret| then IsBoundary(caret[i + |title|]) else |title| >= 2
  }

  // ----- The caret title is linked first -----

  /** From `b` on nothing is eligible for a title that does not occur in the rest of the caret title. */
  lemma CitationSettled(fold: char -> char, caret: PageInfo, cited: PageInfo, page: PageInfo, b: nat)
    requires KeepsMarkup(fold) && Linkable(caret) && Linkable(cited) && CaretTitle(caret.title)
    requires Linkable(page) && b <= |caret.title|
    requires forall t: nat :: b <= t < |caret.title| && Occurs(fold, CitedBody(caret, cited), page.title, t) ==>
      !IsLinkablePosition(CitedBody(caret, cited), t, t + |page.title|)
    ensures Settled(fold, PositionGuard(), CitedBody(caret, cited), page.title, b)
  {
    hide IsLinkablePosition, IsInsideCitation;
    var title, body, n := page.title, CitedBody(caret, cited), |caret.title|;
    CitedTitle(caret.title, cited.title, body);
    assert body[n] == '[' && body[|body| - 1] == ']';
    forall t: nat | b <= t < |body| && Occurs(fold, body, title, t)
      ensures !PositionGuard()(body, t, t + |title|)
    {
      if t == n || t == |body| - 1 {
        NoBracketInMention(fold, body, title, t, t);
      } else if t > n {
        IneligibleInside(body, t, t + |title|);
      }
    }
    NextMatchLeftmost(fold, body, title, |body|);
    SettledFromStretch(fold, PositionGuard(), body, title, b, |body|, b);
  }

  lemma FirstMention(fold: char -> char, caret: PageInfo, cited: PageInfo)
    requires KeepsMarkup(fold) && Linkable(caret) && Linkable(cited) && CaretTitle(caret.title)
    ensures var title, body, n := caret.title, CitedBody(caret, cited), |caret.title|;
      TitleMatches(fold, body, title, 0) == [Span(0, n)] + TitleMatches(fold, body, title, n)
  {
    var title, body, n := caret.title, CitedBody(caret, cited), |caret.title|;
    assert Occurs(fold, body, title, 0);
    NextMatchIs(fold, body, title, 0, 0);
  }

  /** The caret title is linked, and nothing else is. */
  lemma CaretTitleLinks(fold: char -> char, caret: PageInfo, cited: PageInfo)
    requires KeepsMarkup(fold) && Linkable(caret) && Linkable(cited) && CaretTitle(caret.title)
    ensures LinkTitle(fold, CitedBody(caret, cited), caret) == LinkText(caret) + "[" + cited.title + "]"
  {
    hide IsLinkablePosition, IsInsideCitation, LinkText, Settled, PositionGuard, TitleMatches;
    var title, body, n := caret.title, CitedBody(caret, cited), |caret.title|;
    CitedTitle(title, cited.title, body);
    CitationSettled(fold, caret, cited, caret, n);
    FixedIffSettled(fold, body, caret, n);
    FirstMention(fold, caret, cited);
    MatchesOrdered(fold, body, title, 0);
    assert LinkTitle(fold, body, caret) == LinkOne(body, caret, Span(0, n));
    LinkAtStart(caret, cited);
  }

  lemma LinkAtStart(caret: PageInfo, cited: PageInfo)
    requires IsLinkablePosition(CitedBody(caret, cited), 0, |caret.title|)
    ensures LinkOne(CitedBody(caret, cited), caret, Span(0, |caret.title|)) == LinkText(caret) + "[" + cited.title + "]"
  {
    hide IsLinkablePosition, LinkText;
    var body, n := CitedBody(caret, cited), |caret.title|;
    assert body[..0] + LinkText(caret) + body[n..] == LinkText(caret) + "[" + cited.title + "]";
  }

  /** What the pass would link in the caret title of this body is a word of it. */
  lemma LinkableIsWord(fold: char -> char, caret: string, cited: string, body: string, title: string, t: nat)
    requires KeepsMarkup(fold) && title != "" && BracketFree(title) && CaretTitle(caret)
    requires body == caret + "[" + cited + "]" && t < |caret| && Occurs(fold, body, title, t)
    requires IsLinkablePosition(body, t, t + |title|)
    ensures WordAt(fold, caret, title, t)
  {
    hide KeepsMarkup, BracketFree, IsInsideWikilink, IsInsideCitation;
    var n := |caret|;
    assert body[n] == '[' && body[|body| - 1] == ']' && forall q :: 0 <= q < n ==> body[q] == caret[q];
    if t + |title| > n {
      NoBracketInMention(fold, body, title, t, n);
    }
    if t == n - 1 {
      ClosedCitation(body, t, |body| - 1);
    }
  }

  /** A title that is no word of the caret title leaves this body alone. */
  lemma EarlierIdle(fold: char -> char, caret: PageInfo, cited: PageInfo, page: PageInfo)
    requires KeepsMarkup(fold) && Linkable(caret) && Linkable(cited) && CaretTitle(caret.title)
    requires Linkable(page) && !MentionedIn(fold, caret.title, page.title)
    ensures LinkTitle(fold, CitedBody(caret, cited), page) == CitedBody(caret, cited)
  {
    hide IsLinkablePosition, PositionGuard, Settled, WordAt;
    var body := CitedBody(caret, cited);
    forall t: nat | t < |caret.title| && Occurs(fold, body, page.title, t)
      ensures !IsLinkablePosition(body, t, t + |page.title|)
    {
      if IsLinkablePosition(body, t, t + |page.title|) {
        LinkableIsWord(fold, caret.title, cited.title, body, page.title, t);
      }
    }
    CitationSettled(fold, caret, cited, page, 0);
    FixedIffSettled(fold, body, page, 0);
  }

  lemma {:induction false} IdlePrefix(fold: char -> char, text: string, before: seq<PageInfo>, after: seq<PageInfo>,
                                      selfTitle: string)
    requires forall p :: p in before + after ==> p.title != ""
    requires forall p :: p in before ==> LinkTitle(fold, text, p) == text
    ensures LinkTitles(fold, text, before + after, selfTitle) == LinkTitles(fold, text, after, selfTitle)
    decreases |before|
  {
    hide LinkTitle, EqFold;
    if before == [] {
      assert before + after == after;
    } else {
      assert (before + after)[1..] == before[1..] + after;
      IdlePrefix(fold, text, before[1..], after, selfTitle);
    }
  }

  // ----- Then the cited title is linked -----

  /** The text ends with three closing brackets, the last link directly before the one of the body. */
  predicate EndsLinked(text: string) {
    |text| >= 3 && text[|text| - 3] == text[|text| - 2] == text[|text| - 1] == ']'
  }

  lemma LinkOneEnds(text: string, page: PageInfo, m: Span)
    requires Linkable(page) && m.start < m.end <= |text| && !IsBracket(text[m.end - 1])
    requires EndsLinked(text) || (text[m.end..] == "]" && IsLinkablePosition(text, m.start, m.end))
    ensures EndsLinked(LinkOne(text, page, m))
  {
    hide IsLinkablePosition;
    LinkShape(page);
    var text' := text[..m.start] + LinkText(page) + text[m.end..];
    if !EndsLinked(text) {
      assert text'[|text'| - 1] == text[m.end..][0];
    }
  }

  ghost predicate BareMatches(text: string, ms: seq<Span>) {
    forall m :: m in ms ==> m.start < m.end <= |text| && !IsBracket(text[m.end - 1])
  }

  lemma {:induction false} LinkMatchesEnds(text: string, page: PageInfo, ms: seq<Span>, from: nat)
    requires Linkable(page) && from <= |text| && Ordered(ms, from, |text|) && BareMatches(text, ms)
    requires EndsLinked(text) || (ms != [] &&
      var m := ms[|ms| - 1]; text[m.end..] == "]" && IsLinkablePosition(text, m.start, m.end))
    ensures EndsLinked(LinkMatches(text, page, ms, from))
    decreases |ms|
  {
    hide IsLinkablePosition, LinkOne, EndsLinked, Linkable;
    if ms != [] {
      var m := ms[0];
      var rest := LinkMatches(text, page, ms[1..], m.end);
      assert rest[m.end - 1] == rest[..m.end][m.end - 1] == text[..m.end][m.end - 1] == text[m.end - 1];
      if |ms| > 1 || EndsLinked(text) {
        assert |ms| > 1 ==> ms[1..][|ms| - 2] == ms[|ms| - 1];
        LinkMatchesEnds(text, page, ms[1..], m.end);
      }
      LinkOneEnds(rest, page, m);
    }
  }

  lemma MatchesAreBare(fold: char -> char, text: string, title: string)
    requires KeepsMarkup(fold) && title != "" && BracketFree(title)
    ensures BareMatches(text, TitleMatches(fold, text, title, 0))
  {
    hide KeepsMarkup, EqFold, BracketFree;
    MatchesOccur(fold, text, title, 0);
    forall m | m in TitleMatches(fold, text, title, 0)
      ensures m.start < m.end <= |text| && !IsBracket(text[m.end - 1])
    {
      MentionCharacters(fold, text, title, m.start);
      SliceIsBare(text, m.start, m.end);
    }
  }

  /** The last mention, which no other one overlaps, is the last match of the scan. */
  lemma {:induction false} LastMatch(fold: char -> char, text: string, title: string, from: nat, i: nat)
    requires title != "" && from <= i && Occurs(fold, text, title, i)
    requires forall j :: i - |title| < j && j != i ==> !Occurs(fold, text, title, j)
    ensures var ms := TitleMatches(fold, text, title, from);
      ms != [] && ms[|ms| - 1] == Span(i, i + |title|)
    decreases i - from
  {
    hide Occurs;
    NextMatchLeftmost(fold, text, title, from);
    var next := NextMatch(fold, text, title, from);
    assert from <= next <= i;
    if next == i {
      NextMatchLeftmost(fold, text, title, i + |title|);
      assert TitleMatches(fold, text, title, i + |title|) == [];
    } else {
      LastMatch(fold, text, title, next + |title|, i);
    }
  }

  lemma BracketedIsLast(fold: char -> char, link: string, title: string, text: string)
    requires KeepsMarkup(fold) && title != "" && BracketFree(title) && text == link + "[" + title + "]"
    ensures var ms, i := TitleMatches(fold, text, title, 0), |link| + 1;
      ms != [] && ms[|ms| - 1] == Span(i, i + |title|) && text[i + |title|..] == "]"
  {
    var i, n := |link| + 1, |title|;
    assert text[i - 1] == '[' && text[i + n] == ']';
    assert forall q :: i <= q < i + n ==> text[q] == title[q - i];
    forall j | i - n < j && j != i
      ensures !Occurs(fold, text, title, j)
    {
      if j < i {
        NoBracketInMention(fold, text, title, j, i - 1);
      } else if j == i + 1 {
        NoBracketInMention(fold, text, title, j, i + n);
      }
    }
    LastMatch(fold, text, title, 0, i);
  }

  /** After the link of the caret title, the cited title is linked too. */
  lemma CitedTitleLinks(fold: char -> char, caret: PageInfo, cited: PageInfo)
    requires KeepsMarkup(fold) && Linkable(caret) && Linkable(cited)
    ensures EndsLinked(LinkTitle(fold, LinkText(caret) + "[" + cited.title + "]", cited))
  {
    hide IsLinkablePosition, LinkText, EndsLinked, TitleMatches, KeepsMarkup, BareMatches;
    var title, text := cited.title, LinkText(caret) + "[" + cited.title + "]";
    BracketedIsLast(fold, LinkText(caret), title, text);
    MentionAfterLinkIsEligible(caret, title, "[", "]", text);
    MatchesOrdered(fold, text, title, 0);
    MatchesAreBare(fold, text, title);
    LinkMatchesEnds(text, cited, TitleMatches(fold, text, title, 0), 0);
  }

  lemma {:induction false} LaterTitlesKeepEnd(fold: char -> char, text: string, titles: seq<PageInfo>, selfTitle: string)
    requires KeepsMarkup(fold) && LinkableIndex(titles) && EndsLinked(text)
    ensures EndsLinked(LinkTitles(fold, text, titles, selfTitle))
    decreases |titles|
  {
    hide EndsLinked, KeepsMarkup, EqFold;
    if titles != [] {
      var page := titles[0];
      MatchesOrdered(fold, text, page.title, 0);
      MatchesAreBare(fold, text, page.title);
      LinkMatchesEnds(text, page, TitleMatches(fold, text, page.title, 0), 0);
      var text' := if EqFold(fold, page.title, selfTitle) then text else LinkTitle(fold, text, page);
      LaterTitlesKeepEnd(fold, text', titles[1..], selfTitle);
    }
  }

  // ----- No sound explanation touches the citation -----

  /** Sound spans leave the bracketed end of this body as it is. */
  lemma CitationStays(caret: PageInfo, cited: PageInfo, d: seq<Atom>, text: string) returns (i: nat)
    requires Linkable(caret) && Linkable(cited) && CaretTitle(caret.title)
    requires SoundDoc(d, CitedBody(caret, cited), text)
    ensures CharRun(d, i, |d|) && Pos(SourceOf, d, i) == |caret.title|
  {
    hide IsInsideCitation, IsInsideWikilink;
    var body, n := CitedBody(caret, cited), |caret.title|;
    assert body[n] == '[' && body[|body| - 1] == ']';
    CitedTitle(caret.title, cited.title, body);
    i := BracketIsChar(d, body, text, n);
    var last := BracketIsChar(d, body, text, |body| - 1);
    forall k | i <= k < |d|
      ensures d[k].Char?
    {
      NoAtomEmpty(d, body, text, k);
      assert SoundAtom(d, body, k);
      if k > i {
        PosMonotone(SourceOf, d, i + 1, k);
      }
      if Pos(SourceOf, d, k) == |body| - 1 {
        PositionOrder(d, body, text, k, last);
        PositionOrder(d, body, text, last, k);
      }
    }
  }

  /** So the text would end with the last character of the cited title before its bracket. */
  lemma EndsLinkedIsUnsound(caret: PageInfo, cited: PageInfo, d: seq<Atom>, text: string)
    requires Linkable(caret) && Linkable(cited) && CaretTitle(caret.title) && EndsLinked(text)
    ensures !SoundDoc(d, CitedBody(caret, cited), text)
  {
    hide SoundDoc;
    var body := CitedBody(caret, cited);
    assert body[|body| - 2] == cited.title[|cited.title| - 1];
    if SoundDoc(d, body, text) {
      var i := CitationStays(caret, cited, d, text);
      TailStays(d, body, text, i);
    }
  }

  lemma TailStays(d: seq<Atom>, body: string, text: string, i: nat)
    requires SoundDoc(d, body, text) && CharRun(d, i, |d|) && Pos(SourceOf, d, i) + 2 <= |body|
    ensures |text| >= 2 && text[|text| - 2] == body[|body| - 2]
  {
    RunText(d, body, text, i, |d| - i);
    assert body[|body| - 2] == text[|body| - 2 - Pos(SourceOf, d, i) + Pos(RenderedOf, d, i)];
  }

  /** What the pass makes of the cited body, whatever titles come before and after the two. */
  lemma RewrittenEnds(fold: char -> char, before: seq<PageInfo>, caret: PageInfo, cited: PageInfo, after: seq<PageInfo>,
                      selfTitle: string)
    requires KeepsMarkup(fold) && LinkableIndex(before + [caret, cited] + after) && CaretTitle(caret.title)
    requires !EqFold(fold, caret.title, selfTitle) && !EqFold(fold, cited.title, selfTitle)
    requires forall p :: p in before ==> !MentionedIn(fold, caret.title, p.title)
    ensures EndsLinked(LinkTitles(fold, CitedBody(caret, cited), before + [caret, cited] + after, selfTitle))
  {
    hide KeepsMarkup, LinkTitle, MentionedIn, Linkable, EqFold, LinkText, CitedBody, EndsLinked, CaretTitle;
    var body := CitedBody(caret, cited);
    MembersLinkable(before, caret, cited, after);
    forall p | p in before
      ensures LinkTitle(fold, body, p) == body
    {
      EarlierIdle(fold, caret, cited, p);
    }
    assert before + [caret, cited] + after == before + ([caret] + ([cited] + after));
    IdlePrefix(fold, body, before, [caret] + ([cited] + after), selfTitle);
    CaretTitleLinks(fold, caret, cited);
    CitedTitleLinks(fold, caret, cited);
    LinkFirst(fold, body, caret, [cited] + after, selfTitle);
    LinkFirst(fold, LinkTitle(fold, body, caret), cited, after, selfTitle);
    LaterTitlesKeepEnd(fold, LinkTitle(fold, LinkTitle(fold, body, caret), cited), after, selfTitle);
  }

  lemma MembersLinkable(before: seq<PageInfo>, caret: PageInfo, cited: PageInfo, after: seq<PageInfo>)
    requires LinkableIndex(before + [caret, cited] + after)
    ensures Linkable(caret) && Linkable(cited) && LinkableIndex(before) && LinkableIndex(after)
  {
    hide Linkable;
    var all := before + [caret, cited] + after;
    assert caret == all[|before|] && cited == all[|before| + 1];
    assert forall p :: p in before || p in after ==> p in all;
  }

  lemma LinkFirst(fold: char -> char, text: string, page: PageInfo, rest: seq<PageInfo>, selfTitle: string)
    requires page.title != "" && (forall p :: p in rest ==> p.title != "") && !EqFold(fold, page.title, selfTitle)
    ensures LinkTitles(fold, text, [page] + rest, selfTitle) == LinkTitles(fold, LinkTitle(fold, text, page), rest, selfTitle)
  {
    hide LinkTitle, EqFold;
    assert ([page] + rest)[1..] == rest;
  }

  /**
   For every caret title with another title after it, of which no earlier title is a word, there
   is a body whose rewriting no choice of sound spans explains.
   */
  lemma CaretTitleIsUnsound(fold: char -> char, titles: seq<PageInfo>, selfTitle: string, i: nat)
    requires KeepsMarkup(fold) && LinkableIndex(titles)
    requires i + 1 < |Others(fold, titles, selfTitle)| && CaretTitle(Others(fold, titles, selfTitle)[i].title)
    requires var others := Others(fold, titles, selfTitle);
      forall k :: 0 <= k < i ==> !MentionedIn(fold, others[i].title, others[k].title)
    ensures var others := Others(fold, titles, selfTitle);
      !SoundOn(fold, CitedBody(others[i], others[i + 1]), titles, selfTitle)
  {
    hide KeepsMarkup, LinkTitles, SoundDoc, OnlyMentions, MentionedIn, Linkable, EqFold, CitedBody, EndsLinked, CaretTitle;
    var others := Others(fold, titles, selfTitle);
    var caret, cited := others[i], others[i + 1];
    var body := CitedBody(caret, cited);
    OthersSuffice(fold, body, titles, selfTitle);
    assert others == others[..i] + [caret, cited] + others[i + 2..];
    RewrittenEnds(fold, others[..i], caret, cited, others[i + 2..], selfTitle);
    forall d
      ensures !SoundDoc(d, body, LinkTitles(fold, body, titles, selfTitle))
    {
      EndsLinkedIsUnsound(caret, cited, d, LinkTitles(fold, body, titles, selfTitle));
    }
  }

  /** A title that ends in a caret, with another title after it, of which no earlier title is a word. */
  ghost predicate CaretStandsAlone(fold: char -> char, others: seq<PageInfo>, i: nat) {
    && i + 1 < |others| && CaretTitle(others[i].title)
    && forall k :: 0 <= k < i ==> !MentionedIn(fold, others[i].title, others[k].title)
  }

  lemma StandsAlone(fold: char -> char, others: seq<PageInfo>, i: nat)
    requires CaretStandsAlone(fold, others, i)
    ensures i + 1 < |others| && CaretTitle(others[i].title)
    ensures forall k :: 0 <= k < i ==> !MentionedIn(fold, others[i].title, others[k].title)
  {}

  lemma FirstOfTwoCarets(fold: char -> char, others: seq<PageInfo>)
    requires |others| <= 2 && !CaretsLast(others)
    ensures CaretStandsAlone(fold, others, 0)
  {}

  /**
   Main result: every body is rewritten soundly exactly when no caret title is followed by another title to look for.
   It covers every index of at most two such titles, and every longer one unless each of its caret titles but the last
   title has an earlier title as a word.
   */
  lemma SoundExactly(fold: char -> char, titles: seq<PageInfo>, selfTitle: string)
    requires KeepsMarkup(fold) && LinkableIndex(titles)
    requires var others := Others(fold, titles, selfTitle);
      |others| <= 2 || CaretsLast(others) || exists i: nat :: CaretStandsAlone(fold, others, i)
    ensures (forall body :: SoundOn(fold, body, titles, selfTitle)) <==> CaretsLast(Others(fold, titles, selfTitle))
  {
    hide KeepsMarkup, SoundOn, MentionedIn, CaretTitle, Linkable, Others, CaretStandsAlone;
    var others := Others(fold, titles, selfTitle);
    if CaretsLast(others) {
      forall body
        ensures SoundOn(fold, body, titles, selfTitle)
      {
        AddWikilinksSound(fold, body, titles, selfTitle);
      }
    } else {
      if |others| <= 2 {
        FirstOfTwoCarets(fold, others);
      }
      var i: nat :| CaretStandsAlone(fold, others, i);
      StandsAlone(fold, others, i);
      CaretTitleIsUnsound(fold, titles, selfTitle, i);
    }
  }
}
