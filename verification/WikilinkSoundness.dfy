/**
 Soundness of the wikilink pass: whatever the title list, the result is the body
 with disjoint spans replaced, and no replaced span starts inside a link or a
 citation of the body, as long as no title that ends in a caret is linked before
 another one.
 */
module WikilinkSoundness {
  import opened Text
  import opened Wikilinks
  import opened WikilinkDocs

  // ----- The position guard, as an unclosed opening mark -----

  /** `b` is an opening mark, still open at `position`, that is closed at `e`. */
  ghost predicate Encloses(text: string, open: string, close: string, b: int, position: nat, e: int) {
    && b <= position <= e && At(text, open, b) && At(text, close, e)
    && forall j :: b <= j < position ==> !At(text, close, j)
  }

  lemma InsideWitness(text: string, open: string, close: string, position: nat) returns (b: nat, e: nat)
    requires IsInside(text, open, close, position)
    ensures Encloses(text, open, close, b, position, e)
  {
    b := LastIndexOf(text, open, position);
    e := IndexOf(text, close, position);
    LastIndexOfLast(text, open, position);
    IndexOfFirst(text, close, position);
    IndexOfFirst(text, close, b);
  }

  lemma InsideFrom(text: string, open: string, close: string, b: nat, position: nat, e: nat)
    requires Encloses(text, open, close, b, position, e)
    ensures IsInside(text, open, close, position)
  {
    LastIndexOfLast(text, open, position);
    IndexOfFirst(text, close, position);
    IndexOfFirst(text, close, LastIndexOf(text, open, position));
  }

  /** The two pairs of marks the guards look for. */
  ghost predicate IsMarkPair(open: string, close: string) {
    (open == "[[" && close == "]]") || (open == "^[" && close == "]")
  }

  // ----- The invariant -----

  /** A caret that loses its citation mark to this span has no citation to lose. */
  ghost predicate CaretHarmless(body: string, end: nat)
    requires 0 < end <= |body|
  {
    end < |body| && body[end - 1] == '^' && body[end] == '[' ==>
      forall e :: end <= e < |body| ==> body[e] != ']'
  }

  /** Outside every link and citation. */
  predicate Outside(text: string, position: nat) {
    !IsInsideWikilink(text, position) && !IsInsideCitation(text, position)
  }

  /** A span of the body that may be replaced. */
  ghost predicate SoundSpan(body: string, start: nat, end: nat) {
    start < end <= |body| && Outside(body, start)
  }

  /** A link stands for some text without brackets. */
  ghost predicate BareAtom(d: seq<Atom>, k: nat)
    requires k < |d|
  {
    d[k].Link? ==> Linkable(d[k].page) && d[k].original != "" && BracketFree(d[k].original)
  }

  /** A link stands for a span that may be replaced. */
  ghost predicate SoundAtom(d: seq<Atom>, body: string, k: nat)
    requires k < |d|
  {
    d[k].Link? ==> SoundSpan(body, Pos(SourceOf, d, k), Pos(SourceOf, d, k + 1))
  }

  ghost predicate HarmlessAtom(d: seq<Atom>, body: string, k: nat)
    requires k < |d|
  {
    d[k].Link? ==> 0 < Pos(SourceOf, d, k + 1) <= |body| && CaretHarmless(body, Pos(SourceOf, d, k + 1))
  }

  /** The atoms read as `body` before and as `text` after. */
  ghost predicate BareDoc(d: seq<Atom>, body: string, text: string) {
    && Reads(SourceOf, d, body)
    && Reads(RenderedOf, d, text)
    && forall k :: 0 <= k < |d| ==> BareAtom(d, k)
  }

  /** Every link stands for a span that may be replaced. */
  ghost predicate SoundDoc(d: seq<Atom>, body: string, text: string) {
    && BareDoc(d, body, text)
    && forall k :: 0 <= k < |d| ==> SoundAtom(d, body, k)
  }

  /** What keeps later passes sound: no citation mark of the body is dissolved. */
  ghost predicate GoodDoc(d: seq<Atom>, body: string, text: string) {
    && SoundDoc(d, body, text)
    && forall k :: 0 <= k < |d| ==> HarmlessAtom(d, body, k)
  }

  /** No link stands for text inside a link of the body. */
  ghost predicate ClearDoc(d: seq<Atom>, body: string, text: string) {
    && BareDoc(d, body, text)
    && forall k :: 0 <= k < |d| ==> ClearAtom(d, body, k)
  }

  ghost predicate ClearAtom(d: seq<Atom>, body: string, k: nat)
    requires k < |d|
  {
    d[k].Link? ==> !IsInsideWikilink(body, Pos(SourceOf, d, k))
  }

  lemma GoodIsClear(d: seq<Atom>, body: string, text: string)
    requires GoodDoc(d, body, text)
    ensures ClearDoc(d, body, text)
  {
    hide IsInsideWikilink, IsInsideCitation;
    forall k | 0 <= k < |d|
      ensures ClearAtom(d, body, k)
    {
      assert SoundAtom(d, body, k);
    }
  }

  /** What it takes for a mark of the body to stay one in the text. */
  ghost predicate KeepsMark(d: seq<Atom>, body: string, text: string, open: string) {
    if open == "[[" then ClearDoc(d, body, text) else GoodDoc(d, body, text)
  }

  lemma NoAtomEmpty(d: seq<Atom>, body: string, text: string, k: nat)
    requires BareDoc(d, body, text) && k < |d|
    ensures Pos(SourceOf, d, k) < Pos(SourceOf, d, k + 1) == Pos(SourceOf, d, k) + |SourceOf(d[k])| <= |body|
    ensures Pos(RenderedOf, d, k) < Pos(RenderedOf, d, k + 1) <= |text|
  {
    assert BareAtom(d, k);
    AtomCharacters(SourceOf, d, body, k);
    AtomCharacters(RenderedOf, d, text, k);
  }

  lemma PositionOrder(d: seq<Atom>, body: string, text: string, i: nat, j: nat)
    requires BareDoc(d, body, text) && i <= |d| && j <= |d|
    requires Pos(SourceOf, d, i) <= Pos(SourceOf, d, j)
    ensures i <= j
  {
    if j < i {
      PosMonotone(SourceOf, d, j + 1, i);
      NoAtomEmpty(d, body, text, j);
    }
  }

  // ----- The marks of the body stand as plain characters -----

  /** A bracket of the body is a plain character. */
  lemma BracketIsChar(d: seq<Atom>, body: string, text: string, p: nat) returns (i: nat)
    requires BareDoc(d, body, text)
    requires p < |body| && IsBracket(body[p])
    ensures i < |d| && d[i] == Char(body[p])
    ensures Pos(SourceOf, d, i) == p && Pos(SourceOf, d, i + 1) == p + 1
  {
    i := Locate(SourceOf, d, body, p);
    assert BareAtom(d, i);
  }

  /** A closing mark of the body stands verbatim. */
  lemma CloseIsVerbatim(d: seq<Atom>, body: string, text: string, close: string, e: nat) returns (i: nat)
    requires BareDoc(d, body, text)
    requires close == "]]" || close == "]"
    requires At(body, close, e)
    ensures body[e] == ']' && Verbatim(d, i, close) && Pos(SourceOf, d, i) == e
  {
    if close == "]" {
      AtOne(body, close, e);
      i := BracketIsChar(d, body, text, e);
    } else {
      AtTwo(body, close, e);
      i := BracketIsChar(d, body, text, e);
      var next := BracketIsChar(d, body, text, e + 1);
      PositionOrder(d, body, text, i + 1, next);
      PositionOrder(d, body, text, next, i + 1);
    }
  }

  /** Of an opening mark that is closed later, the first character is a plain one too. */
  lemma OpenIsChar(d: seq<Atom>, body: string, text: string, b: nat, e: nat) returns (i: nat)
    requires GoodDoc(d, body, text)
    requires b + 1 < |body| && (body[b] == '[' || body[b] == '^') && body[b + 1] == '['
    requires b <= e < |body| && body[e] == ']'
    ensures i < |d| && d[i] == Char(body[b])
    ensures Pos(SourceOf, d, i) == b && Pos(SourceOf, d, i + 1) == b + 1
  {
    i := Locate(SourceOf, d, body, b);
    if d[i].Link? {
      assert BareAtom(d, i) && HarmlessAtom(d, body, i);
      AtomCharacters(SourceOf, d, body, i);
      // the span cannot go on past a bracket, so it would end with the caret of a closed citation
      assert forall q :: Pos(SourceOf, d, i) <= q < Pos(SourceOf, d, i + 1) ==> !IsBracket(body[q]);
    }
  }

  /** An opening mark of the body that is closed later stands verbatim. */
  lemma OpenIsVerbatim(d: seq<Atom>, body: string, text: string, open: string, b: nat, e: nat) returns (i: nat)
    requires KeepsMark(d, body, text, open)
    requires open == "[[" || open == "^["
    requires At(body, open, b) && b <= e < |body| && body[e] == ']'
    ensures Verbatim(d, i, open) && Pos(SourceOf, d, i) == b
  {
    AtTwo(body, open, b);
    if open == "[[" {
      i := BracketIsChar(d, body, text, b);
    } else {
      i := OpenIsChar(d, body, text, b, e);
    }
    var next := BracketIsChar(d, body, text, b + 1);
    PositionOrder(d, body, text, i + 1, next);
    PositionOrder(d, body, text, next, i + 1);
  }

  // ----- Being inside survives rewriting -----

  /** No replaced span lies between an open mark and the position it encloses. */
  lemma NoLinkBetween(d: seq<Atom>, body: string, text: string, open: string, close: string,
                      ib: nat, i: nat, e: nat)
    requires KeepsMark(d, body, text, open) && IsMarkPair(open, close) && ib <= i <= |d|
    requires Encloses(body, open, close, Pos(SourceOf, d, ib), Pos(SourceOf, d, i), e)
    ensures CharRun(d, ib, i)
  {
    forall k | ib <= k < i
      ensures d[k].Char?
    {
      if d[k].Link? {
        assert if open == "[[" then ClearAtom(d, body, k) else SoundAtom(d, body, k);
        PosMonotone(SourceOf, d, ib, k);
        PosMonotone(SourceOf, d, k, i);
        InsideFrom(body, open, close, Pos(SourceOf, d, ib), Pos(SourceOf, d, k), e);
      }
    }
  }

  /** The atoms of the marks around an enclosed position. */
  lemma EnclosingMarks(d: seq<Atom>, body: string, text: string, open: string, close: string, i: nat)
    returns (ib: nat, ie: nat)
    requires KeepsMark(d, body, text, open) && IsMarkPair(open, close) && i < |d|
    requires IsInside(body, open, close, Pos(SourceOf, d, i))
    ensures ib <= i <= ie && Verbatim(d, ib, open) && Verbatim(d, ie, close)
    ensures CharRun(d, ib, i)
    ensures forall j :: Pos(SourceOf, d, ib) <= j < Pos(SourceOf, d, i) ==> !At(body, close, j)
  {
    var b, e := InsideWitness(body, open, close, Pos(SourceOf, d, i));
    ie := CloseIsVerbatim(d, body, text, close, e);
    ib := OpenIsVerbatim(d, body, text, open, b, e);
    PositionOrder(d, body, text, ib, i);
    PositionOrder(d, body, text, i, ie);
    NoLinkBetween(d, body, text, open, close, ib, i, e);
  }

  /** The character rendered after a run of characters, if it closes, is a plain one. */
  lemma CloseAfterRun(d: seq<Atom>, body: string, text: string, ib: nat, i: nat, k: nat)
    requires BareDoc(d, body, text) && CharRun(d, ib, i) && ib <= k <= i < |d|
    requires Pos(RenderedOf, d, ib) + (k - ib) < |text|
    requires text[Pos(RenderedOf, d, ib) + (k - ib)] == ']'
    ensures d[k] == Char(']')
  {
    CharRunLength(RenderedOf, d, ib, k);
    AtomCharacters(RenderedOf, d, text, k);
    NoAtomEmpty(d, body, text, k);
  }

  /** A closing mark rendered from a run of characters stands in the body too. */
  lemma CloseInRun(d: seq<Atom>, body: string, text: string, close: string, ib: nat, i: nat, k: nat)
    requires BareDoc(d, body, text) && CharRun(d, ib, i) && ib <= k < i < |d|
    requires close == "]]" || close == "]"
    requires At(text, close, Pos(RenderedOf, d, ib) + (k - ib))
    ensures At(body, close, Pos(SourceOf, d, ib) + (k - ib))
  {
    if close == "]]" {
      AtTwo(text, close, Pos(RenderedOf, d, ib) + (k - ib));
      CloseAfterRun(d, body, text, ib, i, k);
      CloseAfterRun(d, body, text, ib, i, k + 1);
    } else {
      AtOne(text, close, Pos(RenderedOf, d, ib) + (k - ib));
      CloseAfterRun(d, body, text, ib, i, k);
    }
    CharRunLength(SourceOf, d, ib, k);
    VerbatimText(SourceOf, d, body, k, close);
  }

  lemma InsideTransfers(d: seq<Atom>, body: string, text: string, open: string, close: string, i: nat)
    requires KeepsMark(d, body, text, open) && IsMarkPair(open, close) && i < |d|
    requires IsInside(body, open, close, Pos(SourceOf, d, i))
    ensures IsInside(text, open, close, Pos(RenderedOf, d, i))
  {
    var ib, ie := EnclosingMarks(d, body, text, open, close, i);
    VerbatimText(RenderedOf, d, text, ib, open);
    VerbatimText(RenderedOf, d, text, ie, close);
    PosMonotone(RenderedOf, d, i, ie);
    CharRunLength(RenderedOf, d, ib, i);
    CharRunLength(SourceOf, d, ib, i);
    var b' := Pos(RenderedOf, d, ib);
    forall j | b' <= j < Pos(RenderedOf, d, i)
      ensures !At(text, close, j)
    {
      if At(text, close, j) {
        CloseInRun(d, body, text, close, ib, i, ib + (j - b'));
      }
    }
    InsideFrom(text, open, close, b', Pos(RenderedOf, d, i), Pos(RenderedOf, d, ie));
  }

  // ----- An eligible mention is a replaceable span -----

  /** Every bracket-free position of a link's text is inside that link. */
  lemma InsideLinkText(text: string, page: PageInfo, b: nat, s: nat)
    requires Linkable(page) && At(text, LinkText(page), b)
    requires b <= s < b + |LinkText(page)| && !IsBracket(text[s])
    ensures b + 2 <= s < b + |LinkText(page)| - 2
    ensures IsInsideWikilink(text, s)
  {
    var link := LinkText(page);
    var e := b + |link| - 2;
    LinkShape(page);
    AtTwo(text, "[[", b);
    AtTwo(text, "]]", e);
    forall j | b <= j < s
      ensures !At(text, "]]", j)
    {
      assert text[j] == link[j - b];
      AtTwo(text, "]]", j);
    }
    InsideFrom(text, "[[", "]]", b, s, e);
  }

  lemma LinkShape(page: PageInfo)
    requires Linkable(page)
    ensures var link := LinkText(page);
      && |link| >= 5 && link[0] == link[1] == '[' && link[|link| - 2] == link[|link| - 1] == ']'
      && forall k :: 2 <= k < |link| - 2 ==> !IsBracket(link[k])
  {
    var inner := page.slug + "|" + page.title;
    assert LinkText(page) == "[[" + inner + "]]";
    assert forall k :: 0 <= k < |inner| ==> !IsBracket(inner[k]);
  }

  /** A bracket-free position outside every link of the text is a character of the body. */
  lemma MentionStart(d: seq<Atom>, body: string, text: string, s: nat) returns (i: nat)
    requires BareDoc(d, body, text) && s < |text| && !IsBracket(text[s])
    requires !IsInsideWikilink(text, s)
    ensures i < |d| && d[i].Char? && Pos(RenderedOf, d, i) == s
  {
    i := Locate(RenderedOf, d, text, s);
    if d[i].Link? {
      assert BareAtom(d, i) && AtomText(RenderedOf, d, text, i);
      InsideLinkText(text, d[i].page, Pos(RenderedOf, d, i), s);
    }
  }

  /** A bracket-free stretch of the text that does not start inside a link is a run of characters. */
  lemma {:induction false} MentionIsCharRun(d: seq<Atom>, body: string, text: string, s: nat, n: nat)
    returns (i: nat)
    requires BareDoc(d, body, text) && 0 < n && s + n <= |text|
    requires forall q :: s <= q < s + n ==> !IsBracket(text[q])
    requires !IsInsideWikilink(text, s)
    ensures CharRun(d, i, i + n) && Pos(RenderedOf, d, i) == s
  {
    if n == 1 {
      i := MentionStart(d, body, text, s);
    } else {
      i := MentionIsCharRun(d, body, text, s, n - 1);
      CharRunLength(RenderedOf, d, i, i + n - 1);
      NextIsChar(d, body, text, i + n - 1);
    }
  }

  lemma NextIsChar(d: seq<Atom>, body: string, text: string, j: nat)
    requires BareDoc(d, body, text) && j <= |d| && Pos(RenderedOf, d, j) < |text|
    requires !IsBracket(text[Pos(RenderedOf, d, j)])
    ensures j < |d| && d[j].Char?
  {
    AtomCharacters(RenderedOf, d, text, j);
    NoAtomEmpty(d, body, text, j);
  }

  /** A run of characters reads the same in the body and in the text. */
  lemma RunText(d: seq<Atom>, body: string, text: string, i: nat, n: nat)
    requires Reads(SourceOf, d, body) && Reads(RenderedOf, d, text) && CharRun(d, i, i + n)
    ensures Pos(SourceOf, d, i + n) == Pos(SourceOf, d, i) + n <= |body|
    ensures Pos(RenderedOf, d, i + n) == Pos(RenderedOf, d, i) + n <= |text|
    ensures forall q :: Pos(SourceOf, d, i) <= q < Pos(SourceOf, d, i) + n ==>
      body[q] == text[q - Pos(SourceOf, d, i) + Pos(RenderedOf, d, i)]
  {
    RunBounds(SourceOf, d, body, i, n);
    RunBounds(RenderedOf, d, text, i, n);
    forall q | Pos(SourceOf, d, i) <= q < Pos(SourceOf, d, i) + n
      ensures body[q] == text[q - Pos(SourceOf, d, i) + Pos(RenderedOf, d, i)]
    {
      RunChar(d, body, text, i, i + (q - Pos(SourceOf, d, i)));
    }
  }

  lemma RunBounds(view: Atom -> string, d: seq<Atom>, text: string, i: nat, n: nat)
    requires Reads(view, d, text) && CharRun(d, i, i + n)
    requires forall c :: view(Char(c)) == [c]
    ensures Pos(view, d, i + n) == Pos(view, d, i) + n <= |text|
  {
    CharRunLength(view, d, i, i + n);
    PosMonotone(view, d, i + n, |d|);
  }

  lemma RunChar(d: seq<Atom>, body: string, text: string, i: nat, k: nat)
    requires Reads(SourceOf, d, body) && Reads(RenderedOf, d, text) && i <= k && CharRun(d, i, k + 1)
    ensures Pos(SourceOf, d, i) + (k - i) < |body| && Pos(RenderedOf, d, i) + (k - i) < |text|
    ensures body[Pos(SourceOf, d, i) + (k - i)] == text[Pos(RenderedOf, d, i) + (k - i)]
  {
    CharOfRun(SourceOf, d, body, i, k);
    CharOfRun(RenderedOf, d, text, i, k);
  }

  /** Outside every citation, a span that ends in the caret of a citation mark is that caret or harmless. */
  lemma CaretOutside(body: string, s: nat, n: nat)
    requires 0 < n && s + n <= |body| && !IsInsideCitation(body, s)
    requires n > 1 ==> body[s + n - 1] != '^'
    ensures CaretHarmless(body, s + n)
  {
    if s + n < |body| && body[s + n - 1] == '^' && body[s + n] == '[' {
      forall e | s + n <= e < |body|
        ensures body[e] != ']'
      {
        if body[e] == ']' {
          ClosedCitation(body, s, e);
        }
      }
    }
  }

  /** A citation mark that is closed later encloses its own caret. */
  lemma ClosedCitation(body: string, s: nat, e: nat)
    requires s + 1 < |body| && body[s] == '^' && body[s + 1] == '['
    requires s <= e < |body| && body[e] == ']'
    ensures IsInsideCitation(body, s)
  {
    AtTwo(body, "^[", s);
    AtOne(body, "]", e);
    InsideFrom(body, "^[", "]", s, s, e);
  }

  /** An eligible mention covers characters of the body. */
  lemma MentionRun(d: seq<Atom>, body: string, text: string, s: nat, n: nat) returns (i: nat)
    requires BareDoc(d, body, text) && 0 < n && s + n <= |text|
    requires forall q :: s <= q < s + n ==> !IsBracket(text[q])
    requires !IsInsideWikilink(text, s)
    ensures CharRun(d, i, i + n) && Pos(RenderedOf, d, i) == s && Pos(RenderedOf, d, i + n) == s + n
    ensures Pos(SourceOf, d, i + n) == Pos(SourceOf, d, i) + n <= |body|
    ensures At(body, text[s..s + n], Pos(SourceOf, d, i))
    ensures body[Pos(SourceOf, d, i) + n - 1] == text[s + n - 1]
  {
    i := MentionIsCharRun(d, body, text, s, n);
    RunText(d, body, text, i, n);
  }

  /** What is outside every mark in the text stands outside them in the body. */
  lemma OutsideBody(d: seq<Atom>, body: string, text: string, i: nat)
    requires GoodDoc(d, body, text) && i < |d| && Outside(text, Pos(RenderedOf, d, i))
    ensures Outside(body, Pos(SourceOf, d, i))
  {
    hide IsInside, GoodDoc;
    GoodIsClear(d, body, text);
    if IsInsideWikilink(body, Pos(SourceOf, d, i)) {
      InsideTransfers(d, body, text, "[[", "]]", i);
    }
    if IsInsideCitation(body, Pos(SourceOf, d, i)) {
      InsideTransfers(d, body, text, "^[", "]", i);
    }
  }

  // ----- One replacement keeps the invariant -----

  lemma CollapsedAtom(d: seq<Atom>, i: nat, n: nat, a: Atom, k: nat)
    requires i + n <= |d| && k < |Collapse(d, i, n, a)|
    requires Pos(SourceOf, d, i + n) == Pos(SourceOf, d, i) + |SourceOf(a)|
    ensures var d' := Collapse(d, i, n, a);
      if k == i then
        d'[k] == a && Pos(SourceOf, d', k) == Pos(SourceOf, d, i) && Pos(SourceOf, d', k + 1) == Pos(SourceOf, d, i + n)
      else
        var m := if k < i then k else k + n - 1;
        d'[k] == d[m] && Pos(SourceOf, d', k) == Pos(SourceOf, d, m) && Pos(SourceOf, d', k + 1) == Pos(SourceOf, d, m + 1)
  {
    CollapsePos(SourceOf, d, i, n, a, k);
    CollapsePos(SourceOf, d, i, n, a, k + 1);
  }

  /** Replacing a run of atoms by a link that stands for the same text. */
  lemma CollapseBare(d: seq<Atom>, body: string, text: string, i: nat, n: nat, a: Atom)
    requires BareDoc(d, body, text) && i + n <= |d| && a.Link? && BareAtom([a], 0)
    requires Pos(SourceOf, d, i + n) == Pos(SourceOf, d, i) + |a.original|
    requires At(body, a.original, Pos(SourceOf, d, i))
    ensures Pos(RenderedOf, d, i) <= Pos(RenderedOf, d, i + n) <= |text|
    ensures BareDoc(Collapse(d, i, n, a), body,
      text[..Pos(RenderedOf, d, i)] + LinkText(a.page) + text[Pos(RenderedOf, d, i + n)..])
  {
    hide Linkable, BracketFree;
    CollapseReads(SourceOf, d, body, i, n, a);
    CollapseReads(RenderedOf, d, text, i, n, a);
    SplicedBack(body, a.original, Pos(SourceOf, d, i));
    forall k | 0 <= k < |Collapse(d, i, n, a)|
      ensures BareAtom(Collapse(d, i, n, a), k)
    {
      CollapsedAtom(d, i, n, a, k);
      assert k < i ==> BareAtom(d, k);
      assert k > i ==> BareAtom(d, k + n - 1);
    }
  }

  lemma CollapseSound(d: seq<Atom>, body: string, i: nat, n: nat, a: Atom)
    requires i + n <= |d| && a.Link? && forall k :: 0 <= k < |d| ==> SoundAtom(d, body, k)
    requires Pos(SourceOf, d, i + n) == Pos(SourceOf, d, i) + |a.original|
    requires SoundSpan(body, Pos(SourceOf, d, i), Pos(SourceOf, d, i + n))
    ensures forall k :: 0 <= k < |Collapse(d, i, n, a)| ==> SoundAtom(Collapse(d, i, n, a), body, k)
  {
    hide SoundSpan;
    forall k | 0 <= k < |Collapse(d, i, n, a)|
      ensures SoundAtom(Collapse(d, i, n, a), body, k)
    {
      CollapsedAtom(d, i, n, a, k);
      assert k < i ==> SoundAtom(d, body, k);
      assert k > i ==> SoundAtom(d, body, k + n - 1);
    }
  }

  lemma CollapseClear(d: seq<Atom>, body: string, text: string, i: nat, n: nat, a: Atom)
    requires ClearDoc(d, body, text) && i + n <= |d| && a.Link? && BareAtom([a], 0)
    requires Pos(SourceOf, d, i + n) == Pos(SourceOf, d, i) + |a.original|
    requires At(body, a.original, Pos(SourceOf, d, i)) && !IsInsideWikilink(body, Pos(SourceOf, d, i))
    ensures Pos(RenderedOf, d, i) <= Pos(RenderedOf, d, i + n) <= |text|
    ensures ClearDoc(Collapse(d, i, n, a), body,
      text[..Pos(RenderedOf, d, i)] + LinkText(a.page) + text[Pos(RenderedOf, d, i + n)..])
  {
    hide BareDoc, IsInsideWikilink, LinkText;
    CollapseBare(d, body, text, i, n, a);
    forall k | 0 <= k < |Collapse(d, i, n, a)|
      ensures ClearAtom(Collapse(d, i, n, a), body, k)
    {
      CollapsedAtom(d, i, n, a, k);
      assert k < i ==> ClearAtom(d, body, k);
      assert k > i ==> ClearAtom(d, body, k + n - 1);
    }
  }

  lemma CollapseHarmless(d: seq<Atom>, body: string, i: nat, n: nat, a: Atom)
    requires i + n <= |d| && a.Link? && forall k :: 0 <= k < |d| ==> HarmlessAtom(d, body, k)
    requires Pos(SourceOf, d, i + n) == Pos(SourceOf, d, i) + |a.original|
    requires 0 < Pos(SourceOf, d, i + n) <= |body| && CaretHarmless(body, Pos(SourceOf, d, i + n))
    ensures forall k :: 0 <= k < |Collapse(d, i, n, a)| ==> HarmlessAtom(Collapse(d, i, n, a), body, k)
  {
    hide CaretHarmless;
    forall k | 0 <= k < |Collapse(d, i, n, a)|
      ensures HarmlessAtom(Collapse(d, i, n, a), body, k)
    {
      CollapsedAtom(d, i, n, a, k);
      assert k < i ==> HarmlessAtom(d, body, k);
      assert k > i ==> HarmlessAtom(d, body, k + n - 1);
    }
  }

  lemma SplicedBack(body: string, original: string, s: nat)
    requires At(body, original, s)
    ensures body[..s] + original + body[s + |original|..] == body
  {}

  lemma CollapseMembers(d: seq<Atom>, i: nat, n: nat, a: Atom)
    requires i + n <= |d|
    ensures forall x :: x in Collapse(d, i, n, a) ==> x == a || x in d
  {}

  lemma CollapseSoundDoc(d: seq<Atom>, body: string, text: string, i: nat, n: nat, a: Atom)
    requires SoundDoc(d, body, text) && i + n <= |d| && a.Link? && BareAtom([a], 0)
    requires Pos(SourceOf, d, i + n) == Pos(SourceOf, d, i) + |a.original|
    requires At(body, a.original, Pos(SourceOf, d, i))
    requires SoundSpan(body, Pos(SourceOf, d, i), Pos(SourceOf, d, i + n))
    ensures Pos(RenderedOf, d, i) <= Pos(RenderedOf, d, i + n) <= |text|
    ensures SoundDoc(Collapse(d, i, n, a), body,
      text[..Pos(RenderedOf, d, i)] + LinkText(a.page) + text[Pos(RenderedOf, d, i + n)..])
  {
    hide SoundSpan, SoundAtom, BareDoc;
    CollapseBare(d, body, text, i, n, a);
    CollapseSound(d, body, i, n, a);
  }

  lemma CollapseGoodDoc(d: seq<Atom>, body: string, text: string, i: nat, n: nat, a: Atom)
    requires GoodDoc(d, body, text) && i + n <= |d| && a.Link? && BareAtom([a], 0)
    requires Pos(SourceOf, d, i + n) == Pos(SourceOf, d, i) + |a.original|
    requires At(body, a.original, Pos(SourceOf, d, i))
    requires SoundSpan(body, Pos(SourceOf, d, i), Pos(SourceOf, d, i + n))
    requires CaretHarmless(body, Pos(SourceOf, d, i + n))
    ensures Pos(RenderedOf, d, i) <= Pos(RenderedOf, d, i + n) <= |text|
    ensures GoodDoc(Collapse(d, i, n, a), body,
      text[..Pos(RenderedOf, d, i)] + LinkText(a.page) + text[Pos(RenderedOf, d, i + n)..])
  {
    hide HarmlessAtom, CaretHarmless, SoundDoc;
    CollapseSoundDoc(d, body, text, i, n, a);
    CollapseHarmless(d, body, i, n, a);
  }

  // ----- What explains a rewriting -----

  /** The link shows a page of the index, not the page itself, whose title the span spells up to case. */
  ghost predicate MentionOf(fold: char -> char, a: Atom, titles: seq<PageInfo>, selfTitle: string)
    requires a.Link?
  {
    && a.page in titles
    && !EqFold(fold, a.page.title, selfTitle)
    && EqFold(fold, a.original, a.page.title)
  }

  ghost predicate OnlyMentions(fold: char -> char, d: seq<Atom>, titles: seq<PageInfo>, selfTitle: string) {
    forall a :: a in d && a.Link? ==> MentionOf(fold, a, titles, selfTitle)
  }

  /** `d` explains `text` as `body` with mentions of other pages' titles replaced, all of them outside links and citations. */
  ghost predicate Explains(fold: char -> char, d: seq<Atom>, body: string, text: string,
                           titles: seq<PageInfo>, selfTitle: string) {
    SoundDoc(d, body, text) && OnlyMentions(fold, d, titles, selfTitle)
  }

  /** Some choice of replaced spans explains what the pass makes of this body. */
  ghost predicate SoundOn(fold: char -> char, body: string, titles: seq<PageInfo>, selfTitle: string)
    requires forall p :: p in titles ==> p.title != ""
  {
    exists d :: Explains(fold, d, body, LinkTitles(fold, body, titles, selfTitle), titles, selfTitle)
  }

  // ----- The pass -----

  /** A title that can end a span with the caret of a citation mark. */
  predicate CaretTitle(title: string) {
    |title| >= 2 && title[|title| - 1] == '^'
  }

  ghost predicate LinkableIndex(titles: seq<PageInfo>) {
    forall p :: p in titles ==> p.title != "" && Linkable(p)
  }

  /** No title but the last one can end a span with the caret of a citation mark. */
  predicate CaretsLast(titles: seq<PageInfo>) {
    forall i :: 0 <= i < |titles| - 1 ==> !CaretTitle(titles[i].title)
  }

  /** The titles the pass looks for: all but the page's own. */
  function Others(fold: char -> char, titles: seq<PageInfo>, selfTitle: string): (r: seq<PageInfo>)
    ensures forall p :: p in r <==> p in titles && !EqFold(fold, p.title, selfTitle)
  {
    if titles == [] then []
    else
      var rest := Others(fold, titles[1..], selfTitle);
      if EqFold(fold, titles[0].title, selfTitle) then rest else [titles[0]] + rest
  }

  lemma {:induction false} OthersSuffice(fold: char -> char, text: string, titles: seq<PageInfo>, selfTitle: string)
    requires forall p :: p in titles ==> p.title != ""
    ensures LinkTitles(fold, text, titles, selfTitle) == LinkTitles(fold, text, Others(fold, titles, selfTitle), selfTitle)
    decreases |titles|
  {
    hide LinkTitle, EqFold;
    if titles != [] {
      var page := titles[0];
      var text' := if EqFold(fold, page.title, selfTitle) then text else LinkTitle(fold, text, page);
      OthersSuffice(fold, text', titles[1..], selfTitle);
    }
  }

  /** A mention of a bracket-free title holds no bracket, and ends in a caret only if the title does. */
  lemma MentionCharacters(fold: char -> char, text: string, title: string, s: nat)
    requires KeepsMarkup(fold) && BracketFree(title) && Occurs(fold, text, title, s)
    ensures EqFold(fold, text[s..s + |title|], title)
    ensures BracketFree(text[s..s + |title|])
    ensures title != "" && text[s + |title| - 1] == '^' ==> title[|title| - 1] == '^'
  {
    var mention := text[s..s + |title|];
    forall k | 0 <= k < |title|
      ensures fold(mention[k]) == fold(title[k]) && !IsBracket(mention[k])
    {
      assert mention[k] == text[s + k];
    }
  }

  /** Every match that a scan reports is an occurrence of the title. */
  lemma {:induction false} MatchesOccur(fold: char -> char, text: string, title: string, from: nat)
    requires title != ""
    ensures forall m :: m in TitleMatches(fold, text, title, from) ==>
      Occurs(fold, text, title, m.start) && m.end == m.start + |title|
    decreases |text| - from
  {
    var next := NextMatch(fold, text, title, from);
    NextMatchLeftmost(fold, text, title, from);
    if next != -1 {
      MatchesOccur(fold, text, title, next + |title|);
    }
  }

  /** An occurrence depends on the text up to its end only. */
  lemma SameOccurrence(fold: char -> char, text: string, text': string, title: string, s: nat)
    requires s + |title| <= |text| && s + |title| <= |text'|
    requires text[..s + |title|] == text'[..s + |title|]
    ensures Occurs(fold, text, title, s) <==> Occurs(fold, text', title, s)
  {
    assert forall q :: 0 <= q < s + |title| ==> text[q] == text[..s + |title|][q] == text'[q];
  }

  /** A link inserted after `from` closes every mark that is open there. */
  lemma {:induction false} ClosedAfterLinks(text: string, page: PageInfo, ms: seq<Span>, from: nat, close: string, e: nat)
    returns (e': nat)
    requires from <= |text| && Ordered(ms, from, |text|) && Linkable(page)
    requires close == "]]" || close == "]"
    requires from <= e && At(text, close, e)
    ensures from <= e' && At(LinkMatches(text, page, ms, from), close, e')
    decreases |ms|
  {
    hide IsLinkablePosition, Linkable;
    e' := e;
    if ms != [] {
      var rest := LinkMatches(text, page, ms[1..], ms[0].end);
      if IsLinkablePosition(rest, ms[0].start, ms[0].end) {
        e' := ms[0].start + |LinkText(page)| - |close|;
        LinkCloses(rest, page, ms[0].start, ms[0].end, close);
      } else if rest != text {
        e' := LinkedCloses(text, page, ms[1..], ms[0].end, close);
      }
    }
  }

  /** A text that linking has changed holds a closing mark where it was changed. */
  lemma {:induction false} LinkedCloses(text: string, page: PageInfo, ms: seq<Span>, from: nat, close: string)
    returns (e: nat)
    requires from <= |text| && Ordered(ms, from, |text|) && Linkable(page)
    requires close == "]]" || close == "]"
    requires LinkMatches(text, page, ms, from) != text
    ensures from <= e && At(LinkMatches(text, page, ms, from), close, e)
    decreases |ms|
  {
    hide IsLinkablePosition, Linkable;
    var rest := LinkMatches(text, page, ms[1..], ms[0].end);
    if IsLinkablePosition(rest, ms[0].start, ms[0].end) {
      e := ms[0].start + |LinkText(page)| - |close|;
      LinkCloses(rest, page, ms[0].start, ms[0].end, close);
    } else {
      e := LinkedCloses(text, page, ms[1..], ms[0].end, close);
    }
  }

  lemma LinkCloses(text: string, page: PageInfo, s: nat, e: nat, close: string)
    requires s <= e <= |text| && Linkable(page) && (close == "]]" || close == "]")
    ensures |LinkText(page)| >= |close|
    ensures At(text[..s] + LinkText(page) + text[e..], close, s + |LinkText(page)| - |close|)
  {
    LinkShape(page);
  }

  /** In one pass, what encloses a mention before the later ones are linked still does afterwards. */
  lemma StillInside(text: string, page: PageInfo, ms: seq<Span>, open: string, close: string, s: nat, e: nat)
    requires IsMarkPair(open, close) && Linkable(page)
    requires s + 2 <= e <= |text| && Ordered(ms, e, |text|)
    requires forall q :: s <= q < e ==> !IsBracket(text[q])
    requires IsInside(text, open, close, s)
    ensures IsInside(LinkMatches(text, page, ms, e), open, close, s)
  {
    hide LinkMatches, Linkable, IsInside;
    var rest := LinkMatches(text, page, ms, e);
    var b, c := InsideWitness(text, open, close, s);
    assert At(text, close, c) && text[c] == ']';
    var c' := ClosedAfterLinks(text, page, ms, e, close, c);
    assert forall q :: 0 <= q < e ==> rest[q] == rest[..e][q] == text[..e][q] == text[q];
    forall j | b <= j < s
      ensures !At(rest, close, j)
    {
      if At(rest, close, j) {
        AtPrefix(rest, text, close, j, e);
      }
    }
    AtPrefix(text, rest, open, b, e);
    InsideFrom(rest, open, close, b, s, c');
  }

  /** Two documents with the same first `j` atoms. */
  ghost predicate SamePrefix(d: seq<Atom>, d': seq<Atom>, j: nat) {
    j <= |d| && j <= |d'| && d[..j] == d'[..j]
  }

  lemma {:induction false} SamePos(view: Atom -> string, d: seq<Atom>, d': seq<Atom>, j: nat, i: nat)
    requires SamePrefix(d, d', j) && i <= j
    ensures Pos(view, d, i) == Pos(view, d', i)
  {
    if i > 0 {
      SamePos(view, d, d', j, i - 1);
      assert d[i - 1] == d[..j][i - 1] == d'[..j][i - 1] == d'[i - 1];
    }
  }

  /** A run of atoms that ends before a position starts in the atoms before it. */
  lemma RunBefore(d: seq<Atom>, body: string, text: string, i: nat, n: nat, j: nat)
    requires BareDoc(d, body, text) && i + n <= |d| && j <= |d|
    requires Pos(RenderedOf, d, i + n) <= Pos(RenderedOf, d, j)
    ensures i + n <= j
  {
    if j < i + n {
      PosMonotone(RenderedOf, d, j + 1, i + n);
      NoAtomEmpty(d, body, text, j);
    }
  }

  /**
   Where an eligible mention starts in the body. While no citation mark is dissolved, the
   document `d` of the text as it stands tells; in a pass that may dissolve some, the document
   `d0` from before the pass does, since a mark that encloses the mention is still to its left.
   */
  lemma MentionOutside(d0: seq<Atom>, d: seq<Atom>, body: string, text: string, page: PageInfo,
                       ms: seq<Span>, s: nat, e: nat, j: nat, i: nat)
    requires Linkable(page) && s < e <= |text| && Ordered(ms, e, |text|)
    requires forall q :: s <= q < e ==> !IsBracket(text[q])
    requires GoodDoc(d0, body, text) && SamePrefix(d0, d, j)
    requires GoodDoc(d, body, LinkMatches(text, page, ms, e)) || s + 2 <= e
    requires i < j && Pos(RenderedOf, d, i) == s
    requires Outside(LinkMatches(text, page, ms, e), s)
    ensures Outside(body, Pos(SourceOf, d, i))
  {
    hide IsInside, LinkMatches, GoodDoc;
    if GoodDoc(d, body, LinkMatches(text, page, ms, e)) {
      OutsideBody(d, body, LinkMatches(text, page, ms, e), i);
    } else {
      if IsInsideWikilink(text, s) {
        StillInside(text, page, ms, "[[", "]]", s, e);
      }
      if IsInsideCitation(text, s) {
        StillInside(text, page, ms, "^[", "]", s, e);
      }
      SamePos(RenderedOf, d0, d, j, i);
      SamePos(SourceOf, d0, d, j, i);
      OutsideBody(d0, body, text, i);
    }
  }

  /** What the pass of one title makes of a document `d0`: a new one with the atoms before `from` unchanged. */
  ghost predicate PassExplained(fold: char -> char, d0: seq<Atom>, text: string, d: seq<Atom>, text': string, body: string,
                                titles: seq<PageInfo>, selfTitle: string, page: PageInfo, from: nat, j: nat) {
    && BareDoc(d, body, text') && OnlyMentions(fold, d, titles, selfTitle)
    && SamePrefix(d0, d, j) && from <= Pos(RenderedOf, d0, j)
    && (ClearDoc(d0, body, text) ==> ClearDoc(d, body, text'))
    && (GoodDoc(d0, body, text) ==> SoundDoc(d, body, text'))
    && (GoodDoc(d0, body, text) && !CaretTitle(page.title) ==> GoodDoc(d, body, text'))
  }

  lemma {:induction false} LinkMatchesExplained(fold: char -> char, d0: seq<Atom>, body: string, text: string,
                                                titles: seq<PageInfo>, selfTitle: string, page: PageInfo,
                                                ms: seq<Span>, from: nat)
    returns (d: seq<Atom>, j: nat)
    requires KeepsMarkup(fold) && BareDoc(d0, body, text) && OnlyMentions(fold, d0, titles, selfTitle)
    requires page in titles && Linkable(page) && !EqFold(fold, page.title, selfTitle)
    requires from <= |text| && Ordered(ms, from, |text|)
    requires forall m :: m in ms ==> Occurs(fold, text, page.title, m.start) && m.end == m.start + |page.title|
    ensures PassExplained(fold, d0, text, d, LinkMatches(text, page, ms, from), body, titles, selfTitle, page, from, j)
    decreases |ms|
  {
    hide KeepsMarkup, IsLinkablePosition;
    d, j := d0, |d0|;
    assert d0[..j] == d0;
    if ms != [] {
      var rest := LinkMatches(text, page, ms[1..], ms[0].end);
      d, j := LinkMatchesExplained(fold, d0, body, text, titles, selfTitle, page, ms[1..], ms[0].end);
      if IsLinkablePosition(rest, ms[0].start, ms[0].end) {
        d, j := LinkOneExplained(fold, d0, d, body, text, titles, selfTitle, page, ms[1..], ms[0].start, ms[0].end, j);
      }
    }
  }

  /** Atoms `i` up to `i + (e - s)`, unchanged by the pass so far, are the mention `[s, e)` of the title. */
  ghost predicate CoversMention(fold: char -> char, d0: seq<Atom>, d1: seq<Atom>, body: string, rest: string,
                                title: string, s: nat, e: nat, j: nat, i: nat)
    requires s < e <= |rest|
  {
    && i + (e - s) <= j <= |d1| && SamePrefix(d0, d1, j)
    && Pos(RenderedOf, d1, i) == Pos(RenderedOf, d0, i) == s && Pos(RenderedOf, d1, i + (e - s)) == e
    && Pos(SourceOf, d1, i + (e - s)) == Pos(SourceOf, d1, i) + (e - s) <= |body|
    && At(body, rest[s..e], Pos(SourceOf, d1, i))
    && EqFold(fold, rest[s..e], title) && BracketFree(rest[s..e])
  }

  /** The run of atoms that an eligible mention covers. */
  lemma LinkOneRun(fold: char -> char, d0: seq<Atom>, d1: seq<Atom>, body: string, rest: string,
                   title: string, s: nat, e: nat, j: nat)
    returns (i: nat)
    requires KeepsMarkup(fold) && title != "" && BracketFree(title)
    requires e == s + |title| <= |rest| && Occurs(fold, rest, title, s) && !IsInsideWikilink(rest, s)
    requires BareDoc(d1, body, rest) && SamePrefix(d0, d1, j) && e <= Pos(RenderedOf, d0, j)
    ensures i + (e - s) <= |d1| && CoversMention(fold, d0, d1, body, rest, title, s, e, j, i)
  {
    hide IsInsideWikilink, KeepsMarkup, Occurs, EqFold, BareDoc, BracketFree;
    MentionCharacters(fold, rest, title, s);
    SliceIsBare(rest, s, e);
    i := MentionRun(d1, body, rest, s, e - s);
    SamePos(RenderedOf, d0, d1, j, j);
    RunBefore(d1, body, rest, i, e - s, j);
    SamePos(RenderedOf, d0, d1, j, i);
  }

  lemma SliceIsBare(text: string, s: nat, e: nat)
    requires s <= e <= |text| && BracketFree(text[s..e])
    ensures forall q :: s <= q < e ==> !IsBracket(text[q])
  {
    assert forall q :: s <= q < e ==> text[q] == text[s..e][q - s];
  }

  /** The replacement of that run, with the atoms before it unchanged. */
  lemma LinkOneBare(fold: char -> char, d0: seq<Atom>, d1: seq<Atom>, body: string, rest: string,
                    titles: seq<PageInfo>, selfTitle: string, page: PageInfo, s: nat, e: nat, j: nat, i: nat)
    requires page in titles && Linkable(page) && !EqFold(fold, page.title, selfTitle)
    requires s < e <= |rest| && CoversMention(fold, d0, d1, body, rest, page.title, s, e, j, i)
    requires BareDoc(d1, body, rest) && OnlyMentions(fold, d1, titles, selfTitle)
    ensures var d := Collapse(d1, i, e - s, Link(rest[s..e], page));
      && BareDoc(d, body, rest[..s] + LinkText(page) + rest[e..]) && OnlyMentions(fold, d, titles, selfTitle)
      && SamePrefix(d0, d, i) && Pos(RenderedOf, d0, i) == s
  {
    hide BareDoc, EqFold, Linkable, LinkText;
    var a := Link(rest[s..e], page);
    CollapseBare(d1, body, rest, i, e - s, a);
    CollapseMembers(d1, i, e - s, a);
    assert Collapse(d1, i, e - s, a)[..i] == d1[..i] == d1[..j][..i] == d0[..j][..i] == d0[..i];
  }

  /** If the document before the pass was a good one, the replacement is sound. */
  lemma LinkOneSound(fold: char -> char, d0: seq<Atom>, d1: seq<Atom>, body: string, text: string, page: PageInfo,
                     ms: seq<Span>, s: nat, e: nat, j: nat, i: nat)
    requires KeepsMarkup(fold) && Linkable(page) && e == s + |page.title| <= |text| && Ordered(ms, e, |text|)
    requires CoversMention(fold, d0, d1, body, LinkMatches(text, page, ms, e), page.title, s, e, j, i)
    requires GoodDoc(d0, body, text) && SoundDoc(d1, body, LinkMatches(text, page, ms, e))
    requires !CaretTitle(page.title) ==> GoodDoc(d1, body, LinkMatches(text, page, ms, e))
    requires Outside(LinkMatches(text, page, ms, e), s)
    ensures var rest, a := LinkMatches(text, page, ms, e), Link(LinkMatches(text, page, ms, e)[s..e], page);
      var d, text' := Collapse(d1, i, e - s, a), rest[..s] + LinkText(page) + rest[e..];
      SoundDoc(d, body, text') && (!CaretTitle(page.title) ==> GoodDoc(d, body, text'))
  {
    hide KeepsMarkup, Outside, LinkMatches, GoodDoc, SoundDoc, LinkText, CaretHarmless;
    var rest, n := LinkMatches(text, page, ms, e), e - s;
    var p, a := Pos(SourceOf, d1, i), Link(rest[s..e], page);
    assert rest[..e] == text[..e];
    assert rest[s..e] == rest[..e][s..] == text[..e][s..] == text[s..e];
    SliceIsBare(text, s, e);
    MentionOutside(d0, d1, body, text, page, ms, s, e, j, i);
    CollapseSoundDoc(d1, body, rest, i, n, a);
    if !CaretTitle(page.title) {
      LastCharacter(fold, rest[s..e], page.title);
      OutsideCaret(body, p, n, rest[s..e]);
      CollapseGoodDoc(d1, body, rest, i, n, a);
    }
  }

  /** If no link stood for text inside a link of the body, nor does the new one. */
  lemma LinkOneClear(fold: char -> char, d0: seq<Atom>, d1: seq<Atom>, body: string, rest: string, page: PageInfo,
                     s: nat, e: nat, j: nat, i: nat)
    requires Linkable(page) && s < e <= |rest| && CoversMention(fold, d0, d1, body, rest, page.title, s, e, j, i)
    requires ClearDoc(d1, body, rest) && !IsInsideWikilink(rest, s)
    ensures ClearDoc(Collapse(d1, i, e - s, Link(rest[s..e], page)), body, rest[..s] + LinkText(page) + rest[e..])
  {
    hide IsInsideWikilink, ClearDoc, LinkText, EqFold, Linkable;
    if IsInsideWikilink(body, Pos(SourceOf, d1, i)) {
      InsideLink(d1, body, rest, i);
    }
    CollapseClear(d1, body, rest, i, e - s, Link(rest[s..e], page));
  }

  lemma InsideLink(d: seq<Atom>, body: string, text: string, i: nat)
    requires ClearDoc(d, body, text) && i < |d| && IsInsideWikilink(body, Pos(SourceOf, d, i))
    ensures IsInsideWikilink(text, Pos(RenderedOf, d, i))
  {
    hide IsInside, ClearDoc;
    InsideTransfers(d, body, text, "[[", "]]", i);
  }

  lemma LastCharacter(fold: char -> char, mention: string, title: string)
    requires KeepsMarkup(fold) && EqFold(fold, mention, title) && title != "" && !CaretTitle(title)
    ensures !CaretTitle(mention)
  {
    assert fold(mention[|title| - 1]) == fold(title[|title| - 1]);
  }

  lemma OutsideCaret(body: string, p: nat, n: nat, mention: string)
    requires 0 < n == |mention| && p + n <= |body| && At(body, mention, p) && Outside(body, p) && !CaretTitle(mention)
    ensures CaretHarmless(body, p + n)
  {
    hide IsInsideWikilink, IsInsideCitation, CaretHarmless;
    assert body[p + n - 1] == mention[n - 1];
    CaretOutside(body, p, n);
  }

  /** One replacement in the pass. */
  lemma LinkOneExplained(fold: char -> char, d0: seq<Atom>, d1: seq<Atom>, body: string, text: string,
                         titles: seq<PageInfo>, selfTitle: string, page: PageInfo,
                         ms: seq<Span>, s: nat, e: nat, j: nat)
    returns (d: seq<Atom>, i: nat)
    requires KeepsMarkup(fold) && page in titles && Linkable(page) && !EqFold(fold, page.title, selfTitle)
    requires Occurs(fold, text, page.title, s) && e == s + |page.title| <= |text| && Ordered(ms, e, |text|)
    requires PassExplained(fold, d0, text, d1, LinkMatches(text, page, ms, e), body, titles, selfTitle, page, e, j)
    requires IsLinkablePosition(LinkMatches(text, page, ms, e), s, e)
    ensures PassExplained(fold, d0, text, d, LinkOne(LinkMatches(text, page, ms, e), page, Span(s, e)), body,
      titles, selfTitle, page, s, i)
  {
    hide KeepsMarkup, IsInsideWikilink, IsInsideCitation, LinkMatches, BareDoc, GoodDoc, SoundDoc, ClearDoc, LinkText,
      Occurs, EqFold, CoversMention, CaretTitle, OnlyMentions;
    var rest := LinkMatches(text, page, ms, e);
    SameOccurrence(fold, text, rest, page.title, s);
    i := LinkOneRun(fold, d0, d1, body, rest, page.title, s, e, j);
    d := Collapse(d1, i, e - s, Link(rest[s..e], page));
    LinkOneBare(fold, d0, d1, body, rest, titles, selfTitle, page, s, e, j, i);
    if ClearDoc(d0, body, text) {
      LinkOneClear(fold, d0, d1, body, rest, page, s, e, j, i);
    }
    if GoodDoc(d0, body, text) {
      LinkOneSound(fold, d0, d1, body, text, page, ms, s, e, j, i);
    }
  }

  lemma {:induction false} LinkTitlesExplained(fold: char -> char, d: seq<Atom>, body: string, text: string,
                                               titles: seq<PageInfo>, others: seq<PageInfo>, selfTitle: string)
    returns (d': seq<Atom>)
    requires KeepsMarkup(fold) && BareDoc(d, body, text) && OnlyMentions(fold, d, titles, selfTitle)
    requires LinkableIndex(titles)
    requires forall p :: p in others ==> p in titles && !EqFold(fold, p.title, selfTitle)
    ensures BareDoc(d', body, LinkTitles(fold, text, others, selfTitle)) && OnlyMentions(fold, d', titles, selfTitle)
    ensures ClearDoc(d, body, text) ==> ClearDoc(d', body, LinkTitles(fold, text, others, selfTitle))
    ensures GoodDoc(d, body, text) && CaretsLast(others) ==> SoundDoc(d', body, LinkTitles(fold, text, others, selfTitle))
    decreases |others|
  {
    hide KeepsMarkup, BareDoc, GoodDoc, SoundDoc, ClearDoc, OnlyMentions, LinkMatches, EqFold, Linkable;
    d' := d;
    if others == [] {
      GoodIsSound(d, body, text);
    } else {
      var page := others[0];
      var ms := TitleMatches(fold, text, page.title, 0);
      MatchesOccur(fold, text, page.title, 0);
      MatchesOrdered(fold, text, page.title, 0);
      var d1, j := LinkMatchesExplained(fold, d, body, text, titles, selfTitle, page, ms, 0);
      d' := LinkTitlesExplained(fold, d1, body, LinkTitle(fold, text, page), titles, others[1..], selfTitle);
      if others[1..] == [] {
        d' := d1;
      }
    }
  }

  lemma GoodIsSound(d: seq<Atom>, body: string, text: string)
    ensures GoodDoc(d, body, text) ==> SoundDoc(d, body, text)
  {}

  /** The body as plain characters. */
  function Plain(body: string): seq<Atom> {
    seq(|body|, k requires 0 <= k < |body| => Char(body[k]))
  }

  lemma PlainReads(view: Atom -> string, body: string)
    requires forall c :: view(Char(c)) == [c]
    ensures Reads(view, Plain(body), body)
  {
    var d := Plain(body);
    CharRunLength(view, d, 0, |body|);
    forall k | 0 <= k < |d|
      ensures AtomText(view, d, body, k)
    {
      CharRunLength(view, d, 0, k);
      assert view(d[k]) == [body[k]] == body[k..k + 1];
    }
  }

  /** What linking some other titles of the index makes of a body. */
  lemma TitlesExplanation(fold: char -> char, body: string, titles: seq<PageInfo>, others: seq<PageInfo>,
                          selfTitle: string)
    returns (d: seq<Atom>)
    requires KeepsMarkup(fold) && LinkableIndex(titles)
    requires forall p :: p in others ==> p in titles && !EqFold(fold, p.title, selfTitle)
    ensures BareDoc(d, body, LinkTitles(fold, body, others, selfTitle)) && OnlyMentions(fold, d, titles, selfTitle)
    ensures ClearDoc(d, body, LinkTitles(fold, body, others, selfTitle))
    ensures CaretsLast(others) ==> SoundDoc(d, body, LinkTitles(fold, body, others, selfTitle))
  {
    hide KeepsMarkup, EqFold;
    PlainReads(SourceOf, body);
    PlainReads(RenderedOf, body);
    d := LinkTitlesExplained(fold, Plain(body), body, body, titles, others, selfTitle);
  }

  /** What every pass over a body is, caret titles or not. */
  lemma PassExplanation(fold: char -> char, body: string, titles: seq<PageInfo>, selfTitle: string)
    returns (d: seq<Atom>)
    requires KeepsMarkup(fold) && LinkableIndex(titles)
    ensures BareDoc(d, body, LinkTitles(fold, body, titles, selfTitle)) && OnlyMentions(fold, d, titles, selfTitle)
    ensures ClearDoc(d, body, LinkTitles(fold, body, titles, selfTitle))
    ensures CaretsLast(Others(fold, titles, selfTitle)) ==> SoundDoc(d, body, LinkTitles(fold, body, titles, selfTitle))
  {
    hide KeepsMarkup, EqFold, BareDoc, SoundDoc, ClearDoc, OnlyMentions, LinkTitles, CaretsLast, Linkable;
    OthersSuffice(fold, body, titles, selfTitle);
    d := TitlesExplanation(fold, body, titles, Others(fold, titles, selfTitle), selfTitle);
  }

  /**
   Main result. For every title list whose titles and slugs are bracket-free, and in which
   no other page's title ends in a caret (after another character) unless it is the last
   one looked for, the rewritten body is explained by replaced spans of the body: disjoint
   (atoms are), equal up to case to the title linked, and starting outside every wikilink
   and every citation of the original body.
   */
  lemma AddWikilinksSound(fold: char -> char, body: string, titles: seq<PageInfo>, selfTitle: string)
    requires KeepsMarkup(fold) && LinkableIndex(titles)
    requires CaretsLast(Others(fold, titles, selfTitle))
    ensures SoundOn(fold, body, titles, selfTitle)
  {
    hide KeepsMarkup, SoundDoc, OnlyMentions;
    var d := PassExplanation(fold, body, titles, selfTitle);
    assert Explains(fold, d, body, LinkTitles(fold, body, titles, selfTitle), titles, selfTitle);
  }

  // ----- Collapsing the inserted links -----

  lemma {:induction false} ShownLength(fold: char -> char, d: seq<Atom>, i: nat)
    requires i <= |d|
    requires forall a :: a in d && a.Link? ==> EqFold(fold, a.original, a.page.title)
    ensures Pos(ShownOf, d, i) == Pos(SourceOf, d, i)
  {
    if i > 0 {
      ShownLength(fold, d, i - 1);
      assert d[i - 1] in d;
    }
  }

  lemma ShownIsSource(fold: char -> char, d: seq<Atom>, body: string, shown: string)
    requires forall a :: a in d && a.Link? ==> EqFold(fold, a.original, a.page.title)
    requires Reads(SourceOf, d, body) && Reads(ShownOf, d, shown)
    ensures EqFold(fold, shown, body)
  {
    ShownLength(fold, d, |d|);
    forall p | 0 <= p < |body|
      ensures fold(shown[p]) == fold(body[p])
    {
      var i := Locate(SourceOf, d, body, p);
      ShownLength(fold, d, i);
      AtomCharacters(ShownOf, d, shown, i);
      assert d[i] in d;
      AtomCharacters(SourceOf, d, body, i);
    }
  }

  /** Shown as the titles they display, the inserted links give the body back, up to case. */
  ghost predicate ShowsBody(fold: char -> char, d: seq<Atom>, body: string) {
    forall shown :: Reads(ShownOf, d, shown) ==> EqFold(fold, shown, body)
  }

  /** Collapsing every inserted link to its title gives the body back, whatever the titles end in. */
  lemma CollapsingLinksRestoresBody(fold: char -> char, body: string, titles: seq<PageInfo>, selfTitle: string)
    requires KeepsMarkup(fold) && LinkableIndex(titles)
    ensures exists d :: Reads(RenderedOf, d, LinkTitles(fold, body, titles, selfTitle)) && ShowsBody(fold, d, body)
  {
    hide KeepsMarkup, EqFold;
    var d := PassExplanation(fold, body, titles, selfTitle);
    forall shown | Reads(ShownOf, d, shown)
      ensures EqFold(fold, shown, body)
    {
      ShownIsSource(fold, d, body, shown);
    }
  }
}
