/**
 Linking one title twice: when the second pass over the same body is a no-op.
 The answer is exact, in terms of the title alone.
 */
module WikilinkRelinking {
  import opened Text
  import opened Wikilinks
  import opened WikilinkSoundness

  /** The titles for which one pass is enough. */
  predicate SettlesInOnePass(title: string)
    requires title != ""
  {
    && (IsBoundary(title[0]) ==> IsBoundary(title[|title| - 1]))
    && !CaretTitle(title)
  }

  // ----- Texts with a common tail -----

  /** From `b` on, `text` continues in `text'` with every position moved by `shift`. */
  ghost predicate SameTail(text: string, text': string, b: nat, shift: int) {
    && b <= |text| && 0 <= b + shift && |text'| == |text| + shift
    && (forall q :: b <= q < |text| ==> text'[q + shift] == text[q])
    && (forall q :: b + shift <= q < |text'| ==> text'[q] == text[q - shift])
  }

  lemma AtShifts(text: string, text': string, b: nat, shift: int, sub: string, p: nat)
    requires SameTail(text, text', b, shift) && b <= p
    ensures At(text, sub, p) <==> At(text', sub, p + shift)
  {
    if At(text, sub, p) {
      assert forall q :: p + shift <= q < p + shift + |sub| ==> text'[q] == text[q - shift];
    }
    if At(text', sub, p + shift) {
      assert forall q :: p <= q < p + |sub| ==> text[q] == text'[q + shift];
    }
  }

  lemma OccursShifts(fold: char -> char, text: string, text': string, b: nat, shift: int, title: string, p: nat)
    requires SameTail(text, text', b, shift) && b <= p
    ensures Occurs(fold, text, title, p) <==> Occurs(fold, text', title, p + shift)
  {
    if Occurs(fold, text, title, p) {
      assert forall q :: p + shift <= q < p + shift + |title| ==> text'[q] == text[q - shift];
    }
    if Occurs(fold, text', title, p + shift) {
      assert forall q :: p <= q < p + |title| ==> text[q] == text'[q + shift];
    }
  }

  lemma NextMatchShifts(fold: char -> char, text: string, text': string, b: nat, shift: int, title: string, x: nat)
    requires SameTail(text, text', b, shift) && b <= x
    ensures var next, next' := NextMatch(fold, text, title, x), NextMatch(fold, text', title, x + shift);
      if next == -1 then next' == -1 else next' == next + shift
  {
    hide Occurs;
    NextMatchLeftmost(fold, text, title, x);
    NextMatchLeftmost(fold, text', title, x + shift);
    var next, next' := NextMatch(fold, text, title, x), NextMatch(fold, text', title, x + shift);
    OccursShifts(fold, text, text', b, shift, title, if next == -1 then x else next);
    OccursShifts(fold, text, text', b, shift, title, if next' == -1 then x else next' - shift);
  }

  // ----- A mention left unlinked stays so when an earlier one is linked -----

  /** An eligible mention `[a, b)`: no bracket in it, and no caret at its end unless it is one. */
  ghost predicate EligibleMention(text: string, a: nat, b: nat) {
    && a < b <= |text|
    && (forall q :: a <= q < b ==> !IsBracket(text[q]))
    && (b - a > 1 ==> text[b - 1] != '^')
    && IsLinkablePosition(text, a, b)
  }

  /** What encloses a later position opens after an eligible mention. */
  lemma OpenAfterMention(text: string, open: string, close: string, a: nat, b: nat, s: nat, bk: nat, e: nat)
    requires IsMarkPair(open, close) && EligibleMention(text, a, b) && b <= s
    requires Encloses(text, open, close, bk, s, e)
    ensures b <= bk
  {
    AtTwo(text, open, bk);
    if bk <= a {
      InsideFrom(text, open, close, bk, a, e);
    }
  }

  lemma NoCloseShifts(text: string, text': string, b: nat, shift: int, close: string, bk: nat, s: nat)
    requires SameTail(text, text', b, shift) && b <= bk
    requires forall j :: bk <= j < s ==> !At(text, close, j)
    ensures forall j :: bk + shift <= j < s + shift ==> !At(text', close, j)
  {
    forall j | bk + shift <= j < s + shift
      ensures !At(text', close, j)
    {
      AtShifts(text, text', b, shift, close, j - shift);
    }
  }

  lemma InsideShifts(text: string, text': string, open: string, close: string, a: nat, b: nat, shift: int, s: nat)
    requires IsMarkPair(open, close) && EligibleMention(text, a, b) && b <= s
    requires SameTail(text, text', b, shift)
    requires IsInside(text, open, close, s)
    ensures IsInside(text', open, close, s + shift)
  {
    hide IsInside, EligibleMention, At;
    var bk, e := InsideWitness(text, open, close, s);
    OpenAfterMention(text, open, close, a, b, s, bk, e);
    AtShifts(text, text', b, shift, open, bk);
    AtShifts(text, text', b, shift, close, e);
    NoCloseShifts(text, text', b, shift, close, bk, s);
    InsideFrom(text', open, close, bk + shift, s + shift, e + shift);
  }

  /** Linking `[a, b)` does not make a later ineligible mention `[s, e)` eligible. */
  lemma StaysUnlinkable(text: string, text': string, a: nat, b: nat, shift: int, s: nat, e: nat)
    requires EligibleMention(text, a, b) && b <= s < e <= |text|
    requires SameTail(text, text', b, shift)
    requires !IsLinkablePosition(text, s, e)
    requires IsBoundary(text[s]) && s == b ==> IsBoundary(text[s - 1])
    ensures !IsLinkablePosition(text', s + shift, e + shift)
  {
    if IsInsideWikilink(text, s) {
      InsideShifts(text, text', "[[", "]]", a, b, shift, s);
    } else if IsInsideCitation(text, s) {
      InsideShifts(text, text', "^[", "]", a, b, shift, s);
    } else {
      assert !IsWordBoundary(text, s, e);
    }
  }

  // ----- Settled texts -----

  /** A test of a match in a text, such as the position guard. */
  type Guard = (string, nat, nat) -> bool

  /** No match found by scanning from `from` passes the guard. */
  ghost predicate Settled(fold: char -> char, guard: Guard, text: string, title: string, from: nat)
    requires title != ""
    decreases |text| - from
  {
    var next := NextMatch(fold, text, title, from);
    next == -1 || (!guard(text, next, next + |title|) && Settled(fold, guard, text, title, next + |title|))
  }

  /** Where nothing occurs, the scan may start later. */
  lemma ScanSkips(fold: char -> char, guard: Guard, text: string, title: string, from: nat, x: nat)
    requires title != "" && from <= x
    requires forall i :: from <= i < x ==> !Occurs(fold, text, title, i)
    ensures Settled(fold, guard, text, title, from) <==> Settled(fold, guard, text, title, x)
  {
    NextMatchLeftmost(fold, text, title, from);
    NextMatchLeftmost(fold, text, title, x);
  }

  /** The scan of a common tail is settled in both texts, if what fails the guard still does. */
  lemma {:induction false} SettledShifts(fold: char -> char, guard: Guard, text: string, text': string,
                                         b: nat, shift: int, title: string, x: nat)
    requires title != "" && SameTail(text, text', b, shift) && b <= x
    requires forall t: nat :: b <= t && Occurs(fold, text, title, t) && !guard(text, t, t + |title|) ==>
      !guard(text', t + shift, t + shift + |title|)
    requires Settled(fold, guard, text, title, x)
    ensures Settled(fold, guard, text', title, x + shift)
    decreases |text| - x
  {
    NextMatchShifts(fold, text, text', b, shift, title, x);
    NextMatchLeftmost(fold, text, title, x);
    var next := NextMatch(fold, text, title, x);
    if next != -1 {
      SettledShifts(fold, guard, text, text', b, shift, title, next + |title|);
    }
  }

  /** Every match in a stretch fails the guard and ends in it: a scan from there is settled if one from its end is. */
  lemma {:induction false} SettledFromStretch(fold: char -> char, guard: Guard, text: string, title: string,
                                              b: nat, end: nat, x: nat)
    requires title != "" && b <= x <= end
    requires forall t: nat :: b <= t < end && Occurs(fold, text, title, t) ==>
      !guard(text, t, t + |title|) && t + |title| <= end
    requires Settled(fold, guard, text, title, end)
    ensures Settled(fold, guard, text, title, x)
    decreases end - x
  {
    var next := NextMatch(fold, text, title, x);
    NextMatchLeftmost(fold, text, title, x);
    if next == -1 || next >= end {
      ScanSkips(fold, guard, text, title, x, end);
    } else {
      SettledFromStretch(fold, guard, text, title, b, end, next + |title|);
    }
  }

  // ----- The guard of the pass -----

  function PositionGuard(): Guard {
    (text: string, s: nat, e: nat) => s <= |text| && IsLinkablePosition(text, s, e)
  }

  /** A mention of a bracket-free title covers no bracket. */
  lemma NoBracketInMention(fold: char -> char, text: string, title: string, i: int, q: nat)
    requires KeepsMarkup(fold) && BracketFree(title)
    requires i <= q < i + |title| && q < |text| && IsBracket(text[q])
    ensures !Occurs(fold, text, title, i)
  {
    assert !IsBracket(title[q - i]);
  }

  /** What a mention's first and last characters say about the title's. */
  lemma MentionEnds(fold: char -> char, text: string, title: string, s: nat)
    requires KeepsMarkup(fold) && title != "" && Occurs(fold, text, title, s)
    ensures IsBoundary(text[s]) <==> IsBoundary(title[0])
    ensures IsBoundary(text[s + |title| - 1]) <==> IsBoundary(title[|title| - 1])
    ensures text[s + |title| - 1] == '^' <==> title[|title| - 1] == '^'
  {
    assert fold(text[s]) == fold(title[0]);
    assert fold(text[s + |title| - 1]) == fold(title[|title| - 1]);
  }

  lemma MentionIsEligible(fold: char -> char, text: string, title: string, s: nat)
    requires KeepsMarkup(fold) && title != "" && BracketFree(title) && !CaretTitle(title)
    requires Occurs(fold, text, title, s) && IsLinkablePosition(text, s, s + |title|)
    ensures EligibleMention(text, s, s + |title|)
  {
    MentionEnds(fold, text, title, s);
    forall q | s <= q < s + |title|
      ensures !IsBracket(text[q])
    {
      if IsBracket(text[q]) {
        NoBracketInMention(fold, text, title, s, q);
      }
    }
  }

  /** Two mentions of one title: linking the first leaves the second ineligible if it was. */
  lemma MentionStaysUnlinkable(fold: char -> char, text: string, text': string, title: string,
                               s: nat, shift: int, t: nat)
    requires KeepsMarkup(fold) && title != "" && BracketFree(title) && SettlesInOnePass(title)
    requires Occurs(fold, text, title, s) && EligibleMention(text, s, s + |title|)
    requires SameTail(text, text', s + |title|, shift)
    requires s + |title| <= t && Occurs(fold, text, title, t) && !IsLinkablePosition(text, t, t + |title|)
    ensures !IsLinkablePosition(text', t + shift, t + shift + |title|)
  {
    MentionEnds(fold, text, title, s);
    MentionEnds(fold, text, title, t);
    StaysUnlinkable(text, text', s, s + |title|, shift, t, t + |title|);
  }

  /** A match that starts in an inserted link ends in it and is ineligible. */
  lemma MatchInLink(fold: char -> char, text: string, page: PageInfo, b: nat, s: nat)
    requires KeepsMarkup(fold) && Linkable(page) && At(text, LinkText(page), b)
    requires b <= s < b + |LinkText(page)| && Occurs(fold, text, page.title, s)
    ensures s + |page.title| <= b + |LinkText(page)|
    ensures IsInsideWikilink(text, s)
  {
    var close := b + |LinkText(page)| - 2;
    if IsBracket(text[s]) {
      NoBracketInMention(fold, text, page.title, s, s);
    }
    InsideLinkText(text, page, b, s);
    LinkShape(page);
    assert text[close] == LinkText(page)[close - b];
    if s + |page.title| > close {
      NoBracketInMention(fold, text, page.title, s, close);
    }
  }

  // ----- One pass settles the text -----

  lemma LinkedTail(text: string, page: PageInfo, s: nat, e: nat)
    requires s <= e <= |text|
    ensures var text' := text[..s] + LinkText(page) + text[e..];
      && SameTail(text, text', e, |LinkText(page)| - (e - s))
      && At(text', LinkText(page), s)
      && text'[..s] == text[..s]
  {}

  /** No occurrence before an inserted link that was not there before. */
  lemma NothingBeforeLink(fold: char -> char, text: string, text': string, page: PageInfo, from: nat, s: nat)
    requires KeepsMarkup(fold) && Linkable(page)
    requires s <= |text| && s <= |text'| && text'[..s] == text[..s] && At(text', LinkText(page), s)
    requires forall i :: from <= i < s ==> !Occurs(fold, text, page.title, i)
    ensures forall i :: from <= i < s ==> !Occurs(fold, text', page.title, i)
  {
    LinkShape(page);
    forall i | from <= i < s
      ensures !Occurs(fold, text', page.title, i)
    {
      var e := i + |page.title|;
      if e <= s {
        assert text[..e] == text[..s][..e] == text'[..s][..e] == text'[..e];
        SameOccurrence(fold, text, text', page.title, i);
      } else {
        NoBracketInMention(fold, text', page.title, i, s);
      }
    }
  }

  lemma LinkedSettles(fold: char -> char, guard: Guard, text: string, text': string, page: PageInfo,
                      from: nat, s: nat)
    requires KeepsMarkup(fold) && Linkable(page) && from <= s && s + |page.title| <= |text|
    requires SameTail(text, text', s + |page.title|, |LinkText(page)| - |page.title|)
    requires At(text', LinkText(page), s) && text'[..s] == text[..s]
    requires forall i :: from <= i < s ==> !Occurs(fold, text, page.title, i)
    requires forall t: nat ::
      (s + |page.title| <= t && Occurs(fold, text, page.title, t) && !guard(text, t, t + |page.title|)) ==>
      !guard(text', t + (|LinkText(page)| - |page.title|), t + (|LinkText(page)| - |page.title|) + |page.title|)
    requires forall t: nat :: IsInsideWikilink(text', t) ==> !guard(text', t, t + |page.title|)
    requires Settled(fold, guard, text, page.title, s + |page.title|)
    ensures Settled(fold, guard, text', page.title, from)
  {
    hide LinkText, IsInsideWikilink, KeepsMarkup, Occurs, Settled, BracketFree;
    var title, e, end := page.title, s + |page.title|, s + |LinkText(page)|;
    SettledShifts(fold, guard, text, text', e, end - e, title, e);
    forall t: nat | s <= t < end && Occurs(fold, text', title, t)
      ensures !guard(text', t, t + |title|) && t + |title| <= end
    {
      MatchInLink(fold, text', page, s, t);
    }
    SettledFromStretch(fold, guard, text', title, s, end, s);
    NothingBeforeLink(fold, text, text', page, from, s);
    ScanSkips(fold, guard, text', title, from, s);
  }

  /** Scanning finds the first occurrence. */
  lemma NextMatchIs(fold: char -> char, text: string, title: string, from: nat, s: nat)
    requires from <= s && Occurs(fold, text, title, s)
    requires forall i :: from <= i < s ==> !Occurs(fold, text, title, i)
    ensures NextMatch(fold, text, title, from) == s
  {
    NextMatchLeftmost(fold, text, title, from);
  }

  /** The first match depends on the text up to its end only. */
  lemma SamePrefixMatch(fold: char -> char, text: string, text': string, title: string, from: nat, s: nat)
    requires NextMatch(fold, text, title, from) == s
    requires s + |title| <= |text'| && text[..s + |title|] == text'[..s + |title|]
    ensures NextMatch(fold, text', title, from) == s
    ensures Occurs(fold, text', title, s)
    ensures forall i :: from <= i < s ==> !Occurs(fold, text', title, i)
  {
    NextMatchLeftmost(fold, text, title, from);
    SameOccurrence(fold, text, text', title, s);
    forall i | from <= i < s
      ensures !Occurs(fold, text', title, i)
    {
      var n := i + |title|;
      assert text[..n] == text[..s + |title|][..n] == text'[..s + |title|][..n] == text'[..n];
      SameOccurrence(fold, text, text', title, i);
    }
    NextMatchIs(fold, text', title, from, s);
  }

  lemma LinkOneSettles(fold: char -> char, text: string, page: PageInfo, from: nat, s: nat)
    requires KeepsMarkup(fold) && Linkable(page) && SettlesInOnePass(page.title)
    requires NextMatch(fold, text, page.title, from) == s && Occurs(fold, text, page.title, s)
    requires forall i :: from <= i < s ==> !Occurs(fold, text, page.title, i)
    requires Settled(fold, PositionGuard(), text, page.title, s + |page.title|)
    ensures Settled(fold, PositionGuard(), LinkOne(text, page, Span(s, s + |page.title|)), page.title, from)
  {
    hide IsLinkablePosition, KeepsMarkup, BracketFree, Settled, PositionGuard, Occurs, LinkText, NextMatch;
    var e := s + |page.title|;
    if IsLinkablePosition(text, s, e) {
      var text' := text[..s] + LinkText(page) + text[e..];
      MentionIsEligible(fold, text, page.title, s);
      LinkedTail(text, page, s, e);
      EligibleSettles(fold, text, text', page, from, s);
    } else {
      SkippedSettles(fold, text, page.title, from, s);
    }
  }

  /** A match that is not eligible is skipped. */
  lemma SkippedSettles(fold: char -> char, text: string, title: string, from: nat, s: nat)
    requires title != "" && NextMatch(fold, text, title, from) == s && s <= |text|
    requires !IsLinkablePosition(text, s, s + |title|)
    requires Settled(fold, PositionGuard(), text, title, s + |title|)
    ensures Settled(fold, PositionGuard(), text, title, from)
  {
    hide IsLinkablePosition;
  }

  lemma EligibleSettles(fold: char -> char, text: string, text': string, page: PageInfo, from: nat, s: nat)
    requires KeepsMarkup(fold) && Linkable(page) && SettlesInOnePass(page.title)
    requires from <= s && Occurs(fold, text, page.title, s) && EligibleMention(text, s, s + |page.title|)
    requires forall i :: from <= i < s ==> !Occurs(fold, text, page.title, i)
    requires SameTail(text, text', s + |page.title|, |LinkText(page)| - |page.title|)
    requires At(text', LinkText(page), s) && text'[..s] == text[..s]
    requires Settled(fold, PositionGuard(), text, page.title, s + |page.title|)
    ensures Settled(fold, PositionGuard(), text', page.title, from)
  {
    hide IsLinkablePosition, IsInsideWikilink, PositionGuard, Settled, Occurs, KeepsMarkup, SettlesInOnePass, LinkText, SameTail;
    TailStaysUnlinkable(fold, text, text', page.title, s, |LinkText(page)| - |page.title|);
    GuardMindsLinks(text', |page.title|);
    LinkedSettles(fold, PositionGuard(), text, text', page, from, s);
  }

  lemma GuardMindsLinks(text: string, n: nat)
    ensures forall t: nat :: IsInsideWikilink(text, t) ==> !PositionGuard()(text, t, t + n)
  {}

  lemma TailStaysUnlinkable(fold: char -> char, text: string, text': string, title: string, s: nat, shift: int)
    requires KeepsMarkup(fold) && title != "" && BracketFree(title) && SettlesInOnePass(title)
    requires Occurs(fold, text, title, s) && EligibleMention(text, s, s + |title|)
    requires SameTail(text, text', s + |title|, shift)
    ensures forall t: nat ::
      (s + |title| <= t && Occurs(fold, text, title, t) && !PositionGuard()(text, t, t + |title|)) ==>
      !PositionGuard()(text', t + shift, t + shift + |title|)
  {
    hide IsLinkablePosition;
    forall t: nat | s + |title| <= t && Occurs(fold, text, title, t) && !PositionGuard()(text, t, t + |title|)
      ensures !PositionGuard()(text', t + shift, t + shift + |title|)
    {
      MentionStaysUnlinkable(fold, text, text', title, s, shift, t);
    }
  }

  /** The induction over the matches, last one first: what is processed is settled. */
  lemma {:induction false} PassSettles(fold: char -> char, text: string, page: PageInfo, from: nat)
    requires KeepsMarkup(fold) && Linkable(page) && SettlesInOnePass(page.title) && from <= |text|
    ensures Ordered(TitleMatches(fold, text, page.title, from), from, |text|)
    ensures Settled(fold, PositionGuard(),
      LinkMatches(text, page, TitleMatches(fold, text, page.title, from), from), page.title, from)
    decreases |text| - from
  {
    hide LinkOne, IsLinkablePosition, KeepsMarkup, SettlesInOnePass, Occurs, BracketFree;
    var s := NextMatch(fold, text, page.title, from);
    MatchesOrdered(fold, text, page.title, from);
    if s != -1 {
      var e := s + |page.title|;
      PassSettles(fold, text, page, e);
      var rest := LinkMatches(text, page, TitleMatches(fold, text, page.title, e), e);
      SamePrefixMatch(fold, text, rest, page.title, from, s);
      LinkOneSettles(fold, rest, page, from, s);
    }
  }

  // ----- Fixed texts are the settled ones -----

  /** Linking never shortens a text. */
  lemma {:induction false} LinkMatchesGrows(text: string, page: PageInfo, ms: seq<Span>, from: nat)
    requires from <= |text| && Ordered(ms, from, |text|)
    requires forall m :: m in ms ==> m.end == m.start + |page.title|
    ensures |LinkMatches(text, page, ms, from)| >= |text|
    ensures LinkMatches(text, page, ms, from) != text ==>
      |LinkMatches(text, page, ms, from)| >= |text| + |LinkText(page)| - |page.title|
    decreases |ms|
  {
    hide IsLinkablePosition;
    if ms != [] {
      LinkMatchesGrows(text, page, ms[1..], ms[0].end);
    }
  }

  /** One replacement leaves a text alone exactly when its position is ineligible. */
  lemma LinkOneGrows(text: string, page: PageInfo, m: Span)
    requires m.start <= m.end <= |text| && m.end == m.start + |page.title|
    ensures |LinkOne(text, page, m)| >= |text|
    ensures |LinkOne(text, page, m)| == |text| <==> !PositionGuard()(text, m.start, m.end)
    ensures !PositionGuard()(text, m.start, m.end) ==> LinkOne(text, page, m) == text
  {}

  lemma FixedStep(fold: char -> char, text: string, page: PageInfo, from: nat, rest: string)
    requires page.title != "" && NextMatch(fold, text, page.title, from) != -1 && |rest| >= |text|
    requires rest == text <==>
      Settled(fold, PositionGuard(), text, page.title, NextMatch(fold, text, page.title, from) + |page.title|)
    ensures var next := NextMatch(fold, text, page.title, from);
      LinkOne(rest, page, Span(next, next + |page.title|)) == text
      <==> Settled(fold, PositionGuard(), text, page.title, from)
  {
    hide IsLinkablePosition;
    var next := NextMatch(fold, text, page.title, from);
    LinkOneGrows(rest, page, Span(next, next + |page.title|));
  }

  lemma MatchLengths(fold: char -> char, text: string, title: string, from: nat)
    requires title != ""
    ensures forall m :: m in TitleMatches(fold, text, title, from) ==> m.end == m.start + |title|
  {
    MatchesOccur(fold, text, title, from);
  }

  /** A pass leaves a text alone exactly when the text is settled. */
  lemma {:induction false} FixedIffSettled(fold: char -> char, text: string, page: PageInfo, from: nat)
    requires page.title != "" && from <= |text|
    ensures Ordered(TitleMatches(fold, text, page.title, from), from, |text|)
    ensures LinkMatches(text, page, TitleMatches(fold, text, page.title, from), from) == text
      <==> Settled(fold, PositionGuard(), text, page.title, from)
    decreases |text| - from
  {
    hide LinkOne, IsLinkablePosition, Occurs;
    var next := NextMatch(fold, text, page.title, from);
    MatchesOrdered(fold, text, page.title, from);
    if next != -1 {
      var e := next + |page.title|;
      FixedIffSettled(fold, text, page, e);
      MatchLengths(fold, text, page.title, e);
      var rest := TitleMatches(fold, text, page.title, e);
      LinkMatchesGrows(text, page, rest, e);
      FixedStep(fold, text, page, from, LinkMatches(text, page, rest, e));
    }
  }

  /** One pass is enough for a title that settles: the second pass changes nothing. */
  lemma RelinkingIsNoOp(fold: char -> char, body: string, page: PageInfo)
    requires KeepsMarkup(fold) && Linkable(page) && SettlesInOnePass(page.title)
    ensures LinkTitle(fold, LinkTitle(fold, body, page), page) == LinkTitle(fold, body, page)
  {
    PassSettles(fold, body, page, 0);
    FixedIffSettled(fold, LinkTitle(fold, body, page), page, 0);
  }

  // ----- What a pass leaves unlinked -----

  const BOUNDARIES := ",.:;!?()[]{}/\"\'"

  /** On either side of the mention the text ends, or has white space or one of the listed characters. */
  predicate Delimited(text: string, start: nat, end: nat) {
    && (0 < start <= |text| ==> text[start - 1] in BOUNDARIES || Strings.IsWhiteSpace(text[start - 1]))
    && (end < |text| ==> text[end] in BOUNDARIES || Strings.IsWhiteSpace(text[end]))
  }

  lemma BoundariesListed(c: char)
    ensures IsBoundary(c) <==> c in BOUNDARIES || Strings.IsWhiteSpace(c)
  {}

  lemma DelimitedIff(text: string, start: nat, end: nat)
    requires start <= |text|
    ensures IsWordBoundary(text, start, end) <==> Delimited(text, start, end)
  {
    hide IsBoundary, BOUNDARIES;
    if 0 < start {
      BoundariesListed(text[start - 1]);
    }
    if end < |text| {
      BoundariesListed(text[end]);
    }
  }

  /**
   A pass misses no mention: whatever is left of a title that settles is in a link, in a citation or part of a word, unless
   an earlier mention overlaps it.
   */
  lemma MentionsLeftAreIneligible(fold: char -> char, body: string, page: PageInfo, i: nat)
    requires KeepsMarkup(fold) && Linkable(page) && SettlesInOnePass(page.title)
    requires Occurs(fold, LinkTitle(fold, body, page), page.title, i)
    requires forall j :: i - |page.title| < j < i ==> !Occurs(fold, LinkTitle(fold, body, page), page.title, j)
    ensures var result := LinkTitle(fold, body, page);
      || IsInsideWikilink(result, i) || IsInsideCitation(result, i)
      || !Delimited(result, i, i + |page.title|)
  {
    hide LinkTitle, Occurs, IsInsideWikilink, IsInsideCitation, IsWordBoundary, Delimited, KeepsMarkup, Settled;
    var result := LinkTitle(fold, body, page);
    assert i <= |result| by {
      OccursWithin(fold, result, page.title, i);
    }
    PassIsSettled(fold, body, page);
    SettledCovers(fold, PositionGuard(), result, page.title, 0, i);
    DelimitedIff(result, i, i + |page.title|);
  }

  lemma OccursWithin(fold: char -> char, text: string, title: string, i: int)
    requires Occurs(fold, text, title, i)
    ensures 0 <= i <= i + |title| <= |text|
  {}

  lemma PassIsSettled(fold: char -> char, body: string, page: PageInfo)
    requires KeepsMarkup(fold) && Linkable(page) && SettlesInOnePass(page.title)
    ensures Settled(fold, PositionGuard(), LinkTitle(fold, body, page), page.title, 0)
  {
    PassSettles(fold, body, page, 0);
  }

  lemma TitleGrows(fold: char -> char, text: string, page: PageInfo)
    requires page.title != ""
    ensures |LinkTitle(fold, text, page)| >= |text|
    ensures LinkTitle(fold, text, page) == text <==> Settled(fold, PositionGuard(), text, page.title, 0)
    ensures LinkTitle(fold, text, page) != text ==> |LinkTitle(fold, text, page)| > |text|
  {
    hide PositionGuard, Settled, TitleMatches, LinkMatches;
    MatchesOrdered(fold, text, page.title, 0);
    MatchLengths(fold, text, page.title, 0);
    LinkMatchesGrows(text, page, TitleMatches(fold, text, page.title, 0), 0);
    FixedIffSettled(fold, text, page, 0);
  }

  lemma {:induction false} TitlesGrow(fold: char -> char, body: string, titles: seq<PageInfo>, selfTitle: string)
    requires forall p :: p in titles ==> p.title != ""
    ensures |LinkTitles(fold, body, titles, selfTitle)| >= |body|
    decreases |titles|
  {
    hide LinkTitle, EqFold;
    if titles != [] {
      TitleGrows(fold, body, titles[0]);
      TitlesGrow(fold, if EqFold(fold, titles[0].title, selfTitle) then body else LinkTitle(fold, body, titles[0]),
                 titles[1..], selfTitle);
    }
  }

  /** No title is left out: a body stays as it is exactly when it has no eligible match of any other page's title. */
  lemma {:induction false} UnchangedIff(fold: char -> char, body: string, titles: seq<PageInfo>, selfTitle: string)
    requires forall p :: p in titles ==> p.title != ""
    ensures LinkTitles(fold, body, titles, selfTitle) == body <==>
      forall p :: p in titles && !EqFold(fold, p.title, selfTitle) ==> Settled(fold, PositionGuard(), body, p.title, 0)
    decreases |titles|
  {
    hide LinkTitle, EqFold, Settled, PositionGuard;
    if titles != [] {
      var page, rest := titles[0], titles[1..];
      assert forall p :: p in titles <==> p == page || p in rest;
      TitleGrows(fold, body, page);
      var text := if EqFold(fold, page.title, selfTitle) then body else LinkTitle(fold, body, page);
      TitlesGrow(fold, text, rest, selfTitle);
      UnchangedIff(fold, body, rest, selfTitle);
    }
  }

  // ----- Titles that do not settle -----

  /** A mention that no other mention overlaps from the left is reached by the scan. */
  lemma {:induction false} SettledCovers(fold: char -> char, guard: Guard, text: string, title: string, from: nat, i: nat)
    requires title != "" && Settled(fold, guard, text, title, from)
    requires from <= i && Occurs(fold, text, title, i)
    requires forall j :: i - |title| < j < i ==> !Occurs(fold, text, title, j)
    ensures !guard(text, i, i + |title|)
    decreases i - from
  {
    var next := NextMatch(fold, text, title, from);
    NextMatchLeftmost(fold, text, title, from);
    if next < i {
      SettledCovers(fold, guard, text, title, next + |title|, i);
    }
  }

  /** A body with two mentions of which the second is ineligible. */
  lemma FirstOfTwo(fold: char -> char, body: string, page: PageInfo, b: nat)
    requires Linkable(page)
    requires NextMatch(fold, body, page.title, 0) == 0
    requires NextMatch(fold, body, page.title, |page.title|) == b
    requires NextMatch(fold, body, page.title, b + |page.title|) == -1
    requires !IsLinkablePosition(body, b, b + |page.title|)
    requires IsLinkablePosition(body, 0, |page.title|)
    ensures LinkTitle(fold, body, page) == LinkText(page) + body[|page.title|..]
  {
    hide IsLinkablePosition;
    var n := |page.title|;
    var first, second := Span(0, n), Span(b, b + n);
    assert TitleMatches(fold, body, page.title, b + n) == [];
    assert TitleMatches(fold, body, page.title, n) == [second];
    var ms := [first, second];
    assert TitleMatches(fold, body, page.title, 0) == [first] + [second] == ms;
    assert ms[1..] == [second] && [second][1..] == [];
    MatchesOrdered(fold, body, page.title, 0);
    assert LinkMatches(body, page, [], b + n) == body;
    assert LinkMatches(body, page, [second], n) == LinkOne(body, page, second) == body;
    assert LinkMatches(body, page, ms, 0) == LinkOne(body, page, first);
    assert body[..0] == "";
  }

  lemma NotInsideUnopened(text: string, open: string, close: string, position: nat)
    requires forall b: nat :: b <= position ==> !At(text, open, b)
    ensures !IsInside(text, open, close, position)
  {
    if IsInside(text, open, close, position) {
      var b, e := InsideWitness(text, open, close, position);
    }
  }

  lemma NotInsideUnclosed(text: string, open: string, close: string, position: nat)
    requires forall e: nat :: position <= e ==> !At(text, close, e)
    ensures !IsInside(text, open, close, position)
  {
    if IsInside(text, open, close, position) {
      var b, e := InsideWitness(text, open, close, position);
    }
  }

  lemma DoubledMatches(fold: char -> char, title: string, body: string)
    requires title != "" && body == title + title
    ensures NextMatch(fold, body, title, 0) == 0 && NextMatch(fold, body, title, |title|) == |title|
    ensures NextMatch(fold, body, title, 2 * |title|) == -1
  {
    assert Occurs(fold, body, title, 0) && Occurs(fold, body, title, |title|);
    NextMatchIs(fold, body, title, 0, 0);
    NextMatchIs(fold, body, title, |title|, |title|);
  }

  /** The title twice in a row: linking the first mention gives the second a boundary it lacked. */
  lemma BoundaryStartUnsettled(fold: char -> char, page: PageInfo)
    requires KeepsMarkup(fold) && Linkable(page)
    requires IsBoundary(page.title[0]) && !IsBoundary(page.title[|page.title| - 1])
    ensures var body := page.title + page.title;
      LinkTitle(fold, LinkTitle(fold, body, page), page) != LinkTitle(fold, body, page)
  {
    hide IsLinkablePosition, LinkText, LinkTitle, KeepsMarkup, BracketFree;
    var title, n := page.title, |page.title|;
    var body := title + title;
    DoubledMatches(fold, title, body);
    DoubledTitle(title, body);
    FirstOfTwo(fold, body, page, n);
    assert body[n..] == title;
    assert LinkText(page) + "" + title + "" == LinkText(page) + title;
    LinkedThenText(fold, page, page, "", "");
  }

  lemma DoubledTitle(title: string, body: string)
    requires title != "" && BracketFree(title) && body == title + title
    requires IsBoundary(title[0]) && !IsBoundary(title[|title| - 1])
    ensures IsLinkablePosition(body, 0, |title|)
    ensures !IsLinkablePosition(body, |title|, 2 * |title|)
  {
    assert body[|title| - 1] == title[|title| - 1] && body[|title|] == title[0];
    assert BracketFree(body);
    forall e: nat
      ensures !At(body, "]]", e) && !At(body, "]", e)
    {
      AtTwo(body, "]]", e);
      AtOne(body, "]", e);
    }
    NotInsideUnclosed(body, "[[", "]]", 0);
    NotInsideUnclosed(body, "^[", "]", 0);
  }

  /** The mention after an inserted link, with or without brackets around it, is eligible. */
  lemma LinkedThenText(fold: char -> char, linked: PageInfo, page: PageInfo, gap: string, tail: string)
    requires KeepsMarkup(fold) && Linkable(linked) && Linkable(page)
    requires (gap == "" && tail == "") || (gap == "[" && tail == "]")
    ensures LinkTitle(fold, LinkText(linked) + gap + page.title + tail, page)
      != LinkText(linked) + gap + page.title + tail
  {
    hide IsLinkablePosition;
    var title, n := page.title, |page.title|;
    var text := LinkText(linked) + gap + title + tail;
    var i := |LinkText(linked)| + |gap|;
    LinkShape(linked);
    assert IsBracket(text[i - 1]);
    assert forall q :: i <= q < i + n ==> text[q] == title[q - i];
    forall j | i - n < j < i
      ensures !Occurs(fold, text, title, j)
    {
      NoBracketInMention(fold, text, title, j, i - 1);
    }
    MentionAfterLinkIsEligible(linked, title, gap, tail, text);
    FixedIffSettled(fold, text, page, 0);
    if Settled(fold, PositionGuard(), text, title, 0) {
      SettledCovers(fold, PositionGuard(), text, title, 0, i);
    }
  }

  lemma MentionAfterLinkIsEligible(linked: PageInfo, title: string, gap: string, tail: string, text: string)
    requires Linkable(linked) && title != "" && BracketFree(title)
    requires (gap == "" && tail == "") || (gap == "[" && tail == "]")
    requires text == LinkText(linked) + gap + title + tail
    ensures IsLinkablePosition(text, |LinkText(linked)| + |gap|, |LinkText(linked)| + |gap| + |title|)
  {
    var i, n := |LinkText(linked)| + |gap|, |title|;
    LinkShape(linked);
    assert IsBracket(text[i - 1]) && (tail != "" ==> text[i + n] == ']');
    assert forall q :: i <= q < i + n ==> text[q] == title[q - i];
    forall e: nat | i <= e
      ensures !At(text, "]]", e)
    {
      AtTwo(text, "]]", e);
    }
    NotInsideUnclosed(text, "[[", "]]", i);
    if tail == "" {
      forall e: nat | i <= e
        ensures !At(text, "]", e)
      {
        AtOne(text, "]", e);
      }
      NotInsideUnclosed(text, "^[", "]", i);
    } else {
      CitationMarkGone(linked, title, text);
    }
  }

  /** After the link, no citation mark is open any more. */
  lemma CitationMarkGone(linked: PageInfo, title: string, text: string)
    requires Linkable(linked) && title != "" && BracketFree(title)
    requires text == LinkText(linked) + "[" + title + "]"
    ensures !IsInsideCitation(text, |LinkText(linked)| + 1)
  {
    var l := |LinkText(linked)|;
    LinkShape(linked);
    assert text[l - 1] == ']' && text[l] == '[' && text[l + 1] == title[0];
    assert text[l + 2] == if |title| > 1 then title[1] else ']';
    if IsInsideCitation(text, l + 1) {
      var b, e := InsideWitness(text, "^[", "]", l + 1);
      AtTwo(text, "^[", b);
      AtOne(text, "]", l - 1);
    }
  }

  /** A title that ends in a caret, then itself in brackets: linking it dissolves the citation. */
  lemma CaretTitleUnsettled(fold: char -> char, page: PageInfo)
    requires KeepsMarkup(fold) && Linkable(page) && CaretTitle(page.title)
    ensures var body := page.title + "[" + page.title + "]";
      LinkTitle(fold, LinkTitle(fold, body, page), page) != LinkTitle(fold, body, page)
  {
    hide IsLinkablePosition, LinkText;
    var title, n := page.title, |page.title|;
    var body := title + "[" + title + "]";
    CitedMatches(fold, title, body);
    CitedTitle(title, title, body);
    IneligibleInside(body, n + 1, 2 * n + 1);
    FirstOfTwo(fold, body, page, n + 1);
    assert LinkText(page) + body[n..] == LinkText(page) + "[" + title + "]";
    LinkedThenText(fold, page, page, "[", "]");
  }

  lemma CitedMatches(fold: char -> char, title: string, body: string)
    requires KeepsMarkup(fold) && title != "" && BracketFree(title) && body == title + "[" + title + "]"
    ensures NextMatch(fold, body, title, 0) == 0
    ensures NextMatch(fold, body, title, |title|) == |title| + 1
  {
    var n := |title|;
    assert forall q :: 0 <= q < n ==> body[q] == title[q];
    assert body[n] == '[';
    assert forall q :: n + 1 <= q < 2 * n + 1 ==> body[q] == title[q - (n + 1)];
    NextMatchIs(fold, body, title, 0, 0);
    NoBracketInMention(fold, body, title, n, n);
    NextMatchIs(fold, body, title, n, n + 1);
  }

  lemma IneligibleInside(text: string, s: nat, e: nat)
    requires s <= |text| && IsInsideCitation(text, s)
    ensures !IsLinkablePosition(text, s, e)
  {}

  /** A title that ends in a caret, followed by another mention in brackets. */
  lemma CitedTitle(title: string, cited: string, body: string)
    requires CaretTitle(title) && BracketFree(title) && body == title + "[" + cited + "]"
    requires cited != "" && BracketFree(cited)
    ensures IsLinkablePosition(body, 0, |title|)
    ensures forall q :: |title| < q <= |title| + |cited| ==> IsInsideCitation(body, q)
  {
    var n, close := |title|, |title| + |cited| + 1;
    assert forall q :: 0 <= q < n ==> body[q] == title[q];
    assert body[n] == '[' && body[close] == ']';
    assert forall q :: n + 1 <= q < close ==> body[q] == cited[q - (n + 1)];
    AtTwo(body, "^[", n - 1);
    AtOne(body, "]", close);
    forall q | n < q < close
      ensures IsInsideCitation(body, q)
    {
      forall j | n - 1 <= j < q
        ensures !At(body, "]", j)
      {
        AtOne(body, "]", j);
      }
      InsideFrom(body, "^[", "]", n - 1, q, close);
    }
    forall e: nat
      ensures !At(body, "]]", e)
    {
      AtTwo(body, "]]", e);
    }
    NotInsideUnclosed(body, "[[", "]]", 0);
    AtTwo(body, "^[", 0);
    NotInsideUnopened(body, "^[", "]", 0);
  }

  /**
   Main result: linking one title twice equals linking it once, on every body, exactly
   when the title settles in one pass. Titles that start with a boundary character and
   end with another, or that end in a caret, do not.
   */
  lemma RelinkingExactly(fold: char -> char, page: PageInfo)
    requires KeepsMarkup(fold) && Linkable(page)
    ensures SettlesInOnePass(page.title) <==>
      forall body :: LinkTitle(fold, LinkTitle(fold, body, page), page) == LinkTitle(fold, body, page)
  {
    if SettlesInOnePass(page.title) {
      forall body
        ensures LinkTitle(fold, LinkTitle(fold, body, page), page) == LinkTitle(fold, body, page)
      {
        RelinkingIsNoOp(fold, body, page);
      }
    } else if CaretTitle(page.title) {
      CaretTitleUnsettled(fold, page);
    } else {
      BoundaryStartUnsettled(fold, page);
    }
  }
}
