/**
 A title that ends in a caret does no harm when the title linked just before it is a word
 of it: that title takes its own mention out of every mention of the longer one.
 */
module WikilinkShadow {
  import opened Text
  import opened Wikilinks
  import opened WikilinkSoundness
  import opened WikilinkRelinking
  import opened WikilinkCaret

  /** Two mentions of the title, up to case, can lie `d` characters apart. */
  ghost predicate OverlapsItself(fold: char -> char, title: string, d: nat) {
    forall k :: d <= k < |title| ==> fold(title[k]) == fold(title[k - d])
  }

  ghost predicate NoSelfOverlap(fold: char -> char, title: string) {
    forall d: nat :: 0 < d < |title| ==> !OverlapsItself(fold, title, d)
  }

  /** Every mention of the title that could be linked is linked in one pass, and the caret title holds one as a word. */
  ghost predicate Shadows(fold: char -> char, title: string, caret: string)
    requires title != ""
  {
    SettlesInOnePass(title) && NoSelfOverlap(fold, title) && MentionedIn(fold, caret, title)
  }

  lemma MentionsApart(fold: char -> char, text: string, title: string, j: int, i: int)
    requires NoSelfOverlap(fold, title) && Occurs(fold, text, title, i) && i - |title| < j < i
    ensures !Occurs(fold, text, title, j)
  {
    if Occurs(fold, text, title, j) {
      forall k | i - j <= k < |title|
        ensures fold(title[k]) == fold(title[k - (i - j)])
      {
        assert fold(text[j + k]) == fold(title[k]);
      }
      assert OverlapsItself(fold, title, i - j);
    }
  }

  // ----- The word inside a mention -----

  lemma WordOccurs(fold: char -> char, text: string, caret: string, title: string, i: nat, k: nat)
    requires Occurs(fold, text, caret, i) && Occurs(fold, caret, title, k)
    ensures Occurs(fold, text, title, i + k)
  {
    forall q | i + k <= q < i + k + |title|
      ensures fold(text[q]) == fold(title[q - (i + k)])
    {
      assert fold(text[q]) == fold(caret[q - i]);
    }
  }

  /** No link or citation mark opens inside the mention, so the word is as free as the mention is. */
  lemma WordOutside(text: string, open: string, close: string, i: nat, n: nat, k: nat, m: nat)
    requires (open == "[[" && close == "]]") || (open == "^[" && close == "]")
    requires i + n <= |text| && (forall q :: i <= q < i + n ==> !IsBracket(text[q]))
    requires 0 < m && k + m <= n && (m == 1 ==> k + m < n)
    requires !IsInside(text, open, close, i)
    ensures !IsInside(text, open, close, i + k)
  {
    if IsInside(text, open, close, i + k) {
      var b, e := InsideWitness(text, open, close, i + k);
      AtTwo(text, open, b);
      assert b < i;
      InsideFrom(text, open, close, b, i, e);
    }
  }

  lemma WordIsLinkable(fold: char -> char, text: string, caret: string, title: string, i: nat, k: nat)
    requires KeepsMarkup(fold) && BracketFree(caret) && title != ""
    requires Occurs(fold, text, caret, i) && WordAt(fold, caret, title, k)
    requires IsLinkablePosition(text, i, i + |caret|)
    ensures IsLinkablePosition(text, i + k, i + k + |title|)
  {
    var n, m := |caret|, |title|;
    MentionCharacters(fold, text, caret, i);
    SliceIsBare(text, i, i + n);
    WordBounds(fold, text, caret, title, i, k);
    hide IsInside, BracketFree, Occurs, KeepsMarkup, EqFold, IsBoundary, IsBracket;
    WordOutside(text, "[[", "]]", i, n, k, m);
    WordOutside(text, "^[", "]", i, n, k, m);
  }

  /** The word is bounded inside the mention, or where the mention is. */
  lemma WordBounds(fold: char -> char, text: string, caret: string, title: string, i: nat, k: nat)
    requires KeepsMarkup(fold) && Occurs(fold, text, caret, i) && WordAt(fold, caret, title, k)
    ensures k + |title| <= |caret| && (k + |title| == |caret| ==> |title| >= 2)
    ensures IsWordBoundary(text, i, i + |caret|) ==> IsWordBoundary(text, i + k, i + k + |title|)
  {
    hide IsBoundary;
    var m := |title|;
    if k > 0 {
      FoldedBoundary(fold, text[i + (k - 1)], caret[k - 1]);
    }
    if k + m < |caret| {
      FoldedBoundary(fold, text[i + (k + m)], caret[k + m]);
    }
  }

  lemma FoldedBoundary(fold: char -> char, a: char, b: char)
    requires KeepsMarkup(fold) && fold(a) == fold(b) && IsBoundary(b)
    ensures IsBoundary(a)
  {
    hide IsBoundary;
  }

  // ----- The caret title is idle -----

  /** Where the shorter title is settled, no mention of the longer one can be linked. */
  lemma NoMentionLinkable(fold: char -> char, text: string, title: string, caret: string, i: nat)
    requires KeepsMarkup(fold) && title != "" && BracketFree(caret) && Shadows(fold, title, caret)
    requires Settled(fold, PositionGuard(), text, title, 0) && Occurs(fold, text, caret, i)
    ensures !IsLinkablePosition(text, i, i + |caret|)
  {
    hide KeepsMarkup, BracketFree, IsLinkablePosition, SettlesInOnePass, NoSelfOverlap;
    var k: nat :| WordAt(fold, caret, title, k);
    WordOccurs(fold, text, caret, title, i, k);
    forall j | i + k - |title| < j < i + k
      ensures !Occurs(fold, text, title, j)
    {
      MentionsApart(fold, text, title, j, i + k);
    }
    hide Occurs;
    SettledCovers(fold, PositionGuard(), text, title, 0, i + k);
    if IsLinkablePosition(text, i, i + |caret|) {
      WordIsLinkable(fold, text, caret, title, i, k);
    }
  }

  lemma {:induction false} NothingLinkable(fold: char -> char, text: string, title: string, from: nat)
    requires title != "" && forall i: nat :: Occurs(fold, text, title, i) ==> !IsLinkablePosition(text, i, i + |title|)
    ensures Settled(fold, PositionGuard(), text, title, from)
    decreases |text| - from
  {
    hide Occurs, IsLinkablePosition;
    var next := NextMatch(fold, text, title, from);
    NextMatchLeftmost(fold, text, title, from);
    if next != -1 {
      NothingLinkable(fold, text, title, next + |title|);
    }
  }

  lemma ShadowSettles(fold: char -> char, title: string, caret: string)
    requires title != "" && Shadows(fold, title, caret)
    ensures SettlesInOnePass(title)
  {}

  lemma PassSettled(fold: char -> char, text: string, page: PageInfo)
    requires KeepsMarkup(fold) && Linkable(page) && SettlesInOnePass(page.title)
    ensures Settled(fold, PositionGuard(), LinkTitle(fold, text, page), page.title, 0)
  {
    PassSettles(fold, text, page, 0);
    hide KeepsMarkup, Settled, LinkMatches, TitleMatches, SettlesInOnePass;
  }

  lemma FixedWhenSettled(fold: char -> char, text: string, page: PageInfo)
    requires page.title != "" && Settled(fold, PositionGuard(), text, page.title, 0)
    ensures LinkTitle(fold, text, page) == text
  {
    FixedIffSettled(fold, text, page, 0);
    hide Settled, LinkMatches, TitleMatches;
  }

  /** Where the shorter title is settled, the pass of the longer one changes nothing. */
  lemma ShadowedIdle(fold: char -> char, text: string, title: string, caret: PageInfo)
    requires KeepsMarkup(fold) && title != "" && Linkable(caret) && Shadows(fold, title, caret.title)
    requires Settled(fold, PositionGuard(), text, title, 0)
    ensures LinkTitle(fold, text, caret) == text
  {
    hide KeepsMarkup, IsLinkablePosition, Shadows, Settled, PositionGuard, LinkTitle, BracketFree;
    forall i: nat | Occurs(fold, text, caret.title, i)
      ensures !IsLinkablePosition(text, i, i + |caret.title|)
    {
      NoMentionLinkable(fold, text, title, caret.title, i);
    }
    NothingLinkable(fold, text, caret.title, 0);
    FixedWhenSettled(fold, text, caret);
  }

  lemma ShadowedPass(fold: char -> char, text: string, page: PageInfo, caret: PageInfo)
    requires KeepsMarkup(fold) && Linkable(page) && Linkable(caret) && Shadows(fold, page.title, caret.title)
    ensures LinkTitle(fold, LinkTitle(fold, text, page), caret) == LinkTitle(fold, text, page)
  {
    hide KeepsMarkup, Shadows, Settled, PositionGuard, LinkTitle, BracketFree;
    ShadowSettles(fold, page.title, caret.title);
    PassSettled(fold, text, page);
    ShadowedIdle(fold, LinkTitle(fold, text, page), page.title, caret);
  }

  lemma {:induction false} ShadowedTitleIdle(fold: char -> char, text: string, before: seq<PageInfo>, page: PageInfo,
                                             caret: PageInfo, after: seq<PageInfo>, selfTitle: string)
    requires KeepsMarkup(fold) && LinkableIndex(before + [page, caret] + after) && LinkableIndex(before + [page] + after)
    requires Shadows(fold, page.title, caret.title)
    requires !EqFold(fold, page.title, selfTitle) && !EqFold(fold, caret.title, selfTitle)
    ensures LinkTitles(fold, text, before + [page, caret] + after, selfTitle) ==
      LinkTitles(fold, text, before + [page] + after, selfTitle)
    decreases |before|
  {
    hide KeepsMarkup, Shadows, LinkTitle, EqFold, Linkable;
    var all, slim := before + [page, caret] + after, before + [page] + after;
    if before == [] {
      assert all[1..] == [caret] + after && slim[1..] == after && all[1..][1..] == after;
      assert all[0] == page && all[1] == caret;
      ShadowedPass(fold, text, page, caret);
    } else {
      assert all[1..] == before[1..] + [page, caret] + after && slim[1..] == before[1..] + [page] + after;
      var text' := if EqFold(fold, before[0].title, selfTitle) then text else LinkTitle(fold, text, before[0]);
      ShadowedTitleIdle(fold, text', before[1..], page, caret, after, selfTitle);
    }
  }

  /** The index without the title at one place. */
  function Dropped(titles: seq<PageInfo>, i: nat): seq<PageInfo>
    requires i < |titles|
  {
    titles[..i] + titles[i + 1..]
  }

  /**
   Main result: a title that ends in a caret, although others follow it, leaves every body sound if the title looked
   for just before it shadows it and the rest of the index has no such title.
   */
  lemma ShadowedCaretIsSound(fold: char -> char, body: string, titles: seq<PageInfo>, selfTitle: string, i: nat)
    requires KeepsMarkup(fold) && LinkableIndex(titles)
    requires i + 1 < |Others(fold, titles, selfTitle)|
    requires var others := Others(fold, titles, selfTitle);
      others[i].title != "" && Shadows(fold, others[i].title, others[i + 1].title) && CaretsLast(Dropped(others, i + 1))
    ensures SoundOn(fold, body, titles, selfTitle)
  {
    hide KeepsMarkup, Shadows, Linkable, EqFold, SoundDoc, BareDoc, OnlyMentions, LinkTitles, CaretsLast, Others, LinkableIndex;
    var others := Others(fold, titles, selfTitle);
    var slim := Dropped(others, i + 1);
    SlimIndex(fold, titles, selfTitle, others, i);
    OthersSuffice(fold, body, titles, selfTitle);
    ShadowedTitleIdle(fold, body, others[..i], others[i], others[i + 1], others[i + 2..], selfTitle);
    var d := TitlesExplanation(fold, body, titles, slim, selfTitle);
    assert Explains(fold, d, body, LinkTitles(fold, body, titles, selfTitle), titles, selfTitle);
  }

  lemma SlimIndex(fold: char -> char, titles: seq<PageInfo>, selfTitle: string, others: seq<PageInfo>, i: nat)
    requires LinkableIndex(titles) && i + 1 < |others|
    requires forall p :: p in others ==> p in titles && !EqFold(fold, p.title, selfTitle)
    ensures forall p :: p in titles ==> p.title != ""
    ensures var slim := Dropped(others, i + 1);
      && others == others[..i] + [others[i], others[i + 1]] + others[i + 2..]
      && slim == others[..i] + [others[i]] + others[i + 2..]
      && LinkableIndex(others) && LinkableIndex(slim)
      && forall p :: p in slim ==> p in titles && !EqFold(fold, p.title, selfTitle)
    ensures !EqFold(fold, others[i].title, selfTitle) && !EqFold(fold, others[i + 1].title, selfTitle)
  {
    hide EqFold, Linkable;
    assert forall p :: p in Dropped(others, i + 1) ==> p in others;
    assert others[i] in others && others[i + 1] in others;
  }

  // ----- All shadowed titles at once -----

  /** The titles to look for without those that the one kept before them shadows. */
  ghost function Unshadowed(fold: char -> char, titles: seq<PageInfo>): (r: seq<PageInfo>)
    requires forall p :: p in titles ==> p.title != ""
    ensures forall p :: p in r ==> p in titles
    decreases |titles|
  {
    if |titles| < 2 then titles
    else if Shadows(fold, titles[0].title, titles[1].title) then Unshadowed(fold, [titles[0]] + titles[2..])
    else [titles[0]] + Unshadowed(fold, titles[1..])
  }

  /** They are all that the pass needs. */
  lemma {:induction false} UnshadowedSuffice(fold: char -> char, text: string, titles: seq<PageInfo>, selfTitle: string)
    requires KeepsMarkup(fold) && LinkableIndex(titles) && forall p :: p in titles ==> !EqFold(fold, p.title, selfTitle)
    ensures LinkTitles(fold, text, titles, selfTitle) == LinkTitles(fold, text, Unshadowed(fold, titles), selfTitle)
    decreases |titles|
  {
    hide KeepsMarkup, Shadows, LinkTitle, EqFold, Linkable;
    if |titles| >= 2 {
      var page, next := titles[0], titles[1];
      if Shadows(fold, page.title, next.title) {
        var slim := [page] + titles[2..];
        assert titles == [] + [page, next] + titles[2..] && slim == [] + [page] + titles[2..];
        assert forall p :: p in slim ==> p in titles;
        ShadowedTitleIdle(fold, text, [], page, next, titles[2..], selfTitle);
        UnshadowedSuffice(fold, text, slim, selfTitle);
      } else {
        assert titles == [page] + titles[1..];
        LinkFirst(fold, text, page, titles[1..], selfTitle);
        LinkFirst(fold, text, page, Unshadowed(fold, titles[1..]), selfTitle);
        UnshadowedSuffice(fold, LinkTitle(fold, text, page), titles[1..], selfTitle);
      }
    }
  }

  /** For the titles that are left, the pass of the whole index is theirs. */
  lemma UnshadowedPass(fold: char -> char, body: string, titles: seq<PageInfo>, selfTitle: string)
    requires KeepsMarkup(fold) && LinkableIndex(titles)
    ensures var left := Unshadowed(fold, Others(fold, titles, selfTitle));
      && LinkTitles(fold, body, titles, selfTitle) == LinkTitles(fold, body, left, selfTitle)
      && LinkableIndex(left) && forall p :: p in left ==> p in titles && !EqFold(fold, p.title, selfTitle)
  {
    hide KeepsMarkup, LinkTitles, EqFold, Linkable, Unshadowed;
    OthersSuffice(fold, body, titles, selfTitle);
    UnshadowedSuffice(fold, body, Others(fold, titles, selfTitle), selfTitle);
  }

  /**
   Main result, wider than with the whole list of titles: every body is rewritten soundly exactly when no caret title
   among the unshadowed ones is followed by another one.
   */
  lemma SoundExactlyUnshadowed(fold: char -> char, titles: seq<PageInfo>, selfTitle: string)
    requires KeepsMarkup(fold) && LinkableIndex(titles)
    requires var left := Unshadowed(fold, Others(fold, titles, selfTitle));
      |left| <= 2 || CaretsLast(left) || exists i: nat :: CaretStandsAlone(fold, left, i)
    ensures (forall body :: SoundOn(fold, body, titles, selfTitle)) <==>
      CaretsLast(Unshadowed(fold, Others(fold, titles, selfTitle)))
  {
    hide KeepsMarkup, SoundOn, MentionedIn, CaretTitle, Linkable, Others, Unshadowed, CaretStandsAlone;
    var left := Unshadowed(fold, Others(fold, titles, selfTitle));
    if CaretsLast(left) {
      forall body
        ensures SoundOn(fold, body, titles, selfTitle)
      {
        UnshadowedSound(fold, body, titles, selfTitle);
      }
    } else {
      if |left| <= 2 {
        FirstOfTwoCarets(fold, left);
      }
      var i: nat :| CaretStandsAlone(fold, left, i);
      StandsAlone(fold, left, i);
      UnshadowedCaretIsUnsound(fold, titles, selfTitle, i);
    }
  }

  lemma UnshadowedSound(fold: char -> char, body: string, titles: seq<PageInfo>, selfTitle: string)
    requires KeepsMarkup(fold) && LinkableIndex(titles) && CaretsLast(Unshadowed(fold, Others(fold, titles, selfTitle)))
    ensures SoundOn(fold, body, titles, selfTitle)
  {
    hide KeepsMarkup, LinkTitles, SoundDoc, BareDoc, OnlyMentions, CaretsLast, Others, Unshadowed, Linkable, EqFold;
    UnshadowedPass(fold, body, titles, selfTitle);
    var d := TitlesExplanation(fold, body, titles, Unshadowed(fold, Others(fold, titles, selfTitle)), selfTitle);
    assert Explains(fold, d, body, LinkTitles(fold, body, titles, selfTitle), titles, selfTitle);
  }

  lemma UnshadowedCaretIsUnsound(fold: char -> char, titles: seq<PageInfo>, selfTitle: string, i: nat)
    requires KeepsMarkup(fold) && LinkableIndex(titles)
    requires var left := Unshadowed(fold, Others(fold, titles, selfTitle));
      && i + 1 < |left| && CaretTitle(left[i].title)
      && forall k :: 0 <= k < i ==> !MentionedIn(fold, left[i].title, left[k].title)
    ensures var left := Unshadowed(fold, Others(fold, titles, selfTitle));
      !SoundOn(fold, CitedBody(left[i], left[i + 1]), titles, selfTitle)
  {
    hide KeepsMarkup, LinkTitles, SoundDoc, OnlyMentions, MentionedIn, Linkable, EqFold, CitedBody, EndsLinked, CaretTitle,
      Others, Unshadowed;
    var left := Unshadowed(fold, Others(fold, titles, selfTitle));
    var caret, cited := left[i], left[i + 1];
    var body := CitedBody(caret, cited);
    UnshadowedPass(fold, body, titles, selfTitle);
    assert left == left[..i] + [caret, cited] + left[i + 2..];
    RewrittenEnds(fold, left[..i], caret, cited, left[i + 2..], selfTitle);
    forall d
      ensures !SoundDoc(d, body, LinkTitles(fold, body, titles, selfTitle))
    {
      EndsLinkedIsUnsound(caret, cited, d, LinkTitles(fold, body, titles, selfTitle));
    }
  }

  /**
   So soundness does not need the caret titles to come last: here one stands between two other titles, and every body
   is rewritten soundly.
   */
  lemma CaretsLastNotNecessary(fold: char -> char, c: char, slug: string) returns (titles: seq<PageInfo>)
    requires KeepsMarkup(fold) && !IsBoundary(c) && c != '^' && BracketFree(slug)
    ensures LinkableIndex(titles) && Others(fold, titles, "") == titles && !CaretsLast(titles)
    ensures forall body :: SoundOn(fold, body, titles, "")
  {
    var page, caret, last := PageInfo(slug, [c]), PageInfo(slug, [c, ' ', '^']), PageInfo(slug, [c, c]);
    titles := [page, caret, last];
    ThreeOthers(fold, page, caret, last);
    OneLetterShadows(fold, c);
    CaretSecond(page, caret, last);
    assert Linkable(page) && Linkable(caret) && Linkable(last);
    assert Dropped(titles, 1) == [page, last];
    hide SoundOn, KeepsMarkup, Others, CaretsLast, Shadows, Linkable, IsBoundary, BracketFree, CaretTitle;
    forall body
      ensures SoundOn(fold, body, titles, "")
    {
      ShadowedCaretIsSound(fold, body, titles, "", 0);
    }
  }

  lemma OneLetterShadows(fold: char -> char, c: char)
    requires !IsBoundary(c) && c != '^'
    ensures Shadows(fold, [c], [c, ' ', '^'])
  {
    assert WordAt(fold, [c, ' ', '^'], [c], 0);
  }

  lemma CaretSecond(page: PageInfo, caret: PageInfo, last: PageInfo)
    requires CaretTitle(caret.title) && !CaretTitle(page.title)
    ensures !CaretsLast([page, caret, last]) && CaretsLast([page, last])
  {
    assert [page, caret, last][1] == caret;
  }

  lemma ThreeOthers(fold: char -> char, a: PageInfo, b: PageInfo, c: PageInfo)
    requires a.title != "" && b.title != "" && c.title != ""
    ensures Others(fold, [a, b, c], "") == [a, b, c]
  {
    assert [a, b, c][1..] == [b, c] && [b, c][1..] == [c] && [c][1..] == [];
    assert Others(fold, [c], "") == [c];
    assert Others(fold, [b, c], "") == [b, c];
  }
}
