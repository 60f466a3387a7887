/**
 What a reader finds in a rewritten body: the links that were there, and for every replaced
 mention one with the page's slug as its target and the page's title as its label.
 */
module WikilinkReading {
  import opened Text
  import opened Wikilinks
  import opened WikilinkDocs
  import opened WikilinkSoundness

  // ----- The reader -----

  /** A character outside every link, or a link. */
  datatype Piece = Plain(c: char) | Ref(target: string, shown: string)

  /** The first bracket at `from` or later. */
  function NextBracket(text: string, from: nat): (j: nat)
    requires from <= |text|
    ensures from <= j <= |text|
    ensures (j < |text| ==> IsBracket(text[j])) && forall q :: from <= q < j ==> !IsBracket(text[q])
    decreases |text| - from
  {
    if from == |text| || IsBracket(text[from]) then from else NextBracket(text, from + 1)
  }

  /** A link starts here: text without brackets between double ones. */
  predicate LinkAt(text: string, i: nat) {
    && i + 2 <= |text| && text[i] == text[i + 1] == '['
    && var j := NextBracket(text, i + 2);
      j > i + 2 && j + 1 < |text| && text[j] == text[j + 1] == ']'
  }

  /** The length of the link that starts here. */
  function LinkLength(text: string, i: nat): (n: nat)
    requires LinkAt(text, i)
    ensures 4 < n && i + n <= |text|
  {
    NextBracket(text, i + 2) + 2 - i
  }

  function InnerText(text: string, i: nat): string
    requires LinkAt(text, i)
  {
    text[i + 2..NextBracket(text, i + 2)]
  }

  /** The part before the first bar. */
  function Target(inner: string): string {
    if inner == [] || inner[0] == '|' then [] else [inner[0]] + Target(inner[1..])
  }

  /** The part after the first bar; without one, a link shows its target. */
  function Shown(inner: string): string {
    if |Target(inner)| < |inner| then inner[|Target(inner)| + 1..] else inner
  }

  function LinkPiece(text: string, i: nat): Piece
    requires LinkAt(text, i)
  {
    Ref(Target(InnerText(text, i)), Shown(InnerText(text, i)))
  }

  function Read(text: string, i: nat): seq<Piece>
    requires i <= |text|
    decreases |text| - i
  {
    if i == |text| then []
    else if LinkAt(text, i) then [LinkPiece(text, i)] + Read(text, i + LinkLength(text, i))
    else [Plain(text[i])] + Read(text, i + 1)
  }

  /** What a reader sees: every link as its label. */
  function Displayed(pieces: seq<Piece>): string {
    if pieces == [] then []
    else (match pieces[0] case Plain(c) => [c] case Ref(_, shown) => shown) + Displayed(pieces[1..])
  }

  // ----- Edits -----

  /** A piece that stays, or a mention that becomes a link to a page. */
  datatype Edit = Same(piece: Piece) | Linked(mention: string, page: PageInfo)

  function Plainly(s: string): seq<Piece> {
    seq(|s|, i requires 0 <= i < |s| => Plain(s[i]))
  }

  function Replaced(e: Edit): seq<Piece> {
    match e
    case Same(piece) => [piece]
    case Linked(mention, _) => Plainly(mention)
  }

  function Replacement(e: Edit): seq<Piece> {
    match e
    case Same(piece) => [piece]
    case Linked(_, page) => [Ref(page.slug, page.title)]
  }

  function Before(edits: seq<Edit>): seq<Piece> {
    if edits == [] then [] else Replaced(edits[0]) + Before(edits[1..])
  }

  function After(edits: seq<Edit>): seq<Piece> {
    if edits == [] then [] else Replacement(edits[0]) + After(edits[1..])
  }

  /** The mention is, up to case, the title of another page of the index. */
  ghost predicate LinksOthers(fold: char -> char, edits: seq<Edit>, titles: seq<PageInfo>, selfTitle: string) {
    forall e :: e in edits && e.Linked? ==>
      e.page in titles && !EqFold(fold, e.page.title, selfTitle) && EqFold(fold, e.mention, e.page.title)
  }

  /** No slug of the index has a bar in it, which would end the target early. */
  predicate BarFree(titles: seq<PageInfo>) {
    forall p :: p in titles ==> '|' !in p.slug
  }

  // ----- Reading without links -----

  lemma NextBracketIs(text: string, from: nat, j: nat)
    requires from <= j < |text| && IsBracket(text[j]) && forall q :: from <= q < j ==> !IsBracket(text[q])
    ensures NextBracket(text, from) == j
  {}

  lemma NotALink(text: string, p: nat)
    requires p < |text| && !IsBracket(text[p])
    ensures Read(text, p) == [Plain(text[p])] + Read(text, p + 1)
  {}

  /** Text without brackets is read as it stands. */
  lemma {:induction false} ReadPlain(text: string, p: nat, s: string)
    requires At(text, s, p) && BracketFree(s)
    ensures Read(text, p) == Plainly(s) + Read(text, p + |s|)
    decreases |s|
  {
    hide Read, LinkAt;
    if s == [] {
      assert Plainly(s) == [];
    } else {
      assert text[p] == s[0];
      NotALink(text, p);
      ReadPlain(text, p + 1, s[1..]);
      assert Plainly(s) == [Plain(s[0])] + Plainly(s[1..]);
      assert Read(text, p) == [Plain(s[0])] + (Plainly(s[1..]) + Read(text, p + |s|));
    }
  }

  // ----- Reading an inserted link -----

  lemma {:induction false} TargetBeforeBar(target: string, shown: string)
    requires '|' !in target
    ensures Target(target + "|" + shown) == target
    decreases |target|
  {
    var inner := target + "|" + shown;
    if target == [] {
      assert inner[0] == '|';
    } else {
      assert inner[0] == target[0] && inner[1..] == target[1..] + "|" + shown;
      TargetBeforeBar(target[1..], shown);
    }
  }

  lemma ShownAfterBar(target: string, shown: string)
    requires '|' !in target
    ensures Shown(target + "|" + shown) == shown
  {
    TargetBeforeBar(target, shown);
    assert (target + "|" + shown)[|target| + 1..] == shown;
  }

  /** Double brackets around some text without brackets are a link. */
  lemma LinkAround(text: string, q: nat, inner: string)
    requires inner != [] && q + |inner| + 4 <= |text| && BracketFree(inner)
    requires text[q] == text[q + 1] == '[' && text[q + 2 + |inner|] == text[q + 3 + |inner|] == ']'
    requires forall x :: 0 <= x < |inner| ==> text[q + 2 + x] == inner[x]
    ensures LinkAt(text, q) && InnerText(text, q) == inner && LinkLength(text, q) == |inner| + 4
  {
    forall y | q + 2 <= y < q + 2 + |inner|
      ensures !IsBracket(text[y])
    {
      assert text[q + 2 + (y - q - 2)] == inner[y - q - 2];
    }
    NextBracketIs(text, q + 2, q + 2 + |inner|);
  }

  /** An inserted link's inner text reads as the slug and the title. */
  lemma InnerReads(page: PageInfo) returns (inner: string)
    requires '|' !in page.slug
    ensures inner != [] && |LinkText(page)| == |inner| + 4
    ensures forall x :: 0 <= x < |inner| ==> LinkText(page)[x + 2] == inner[x]
    ensures Target(inner) == page.slug && Shown(inner) == page.title
  {
    inner := page.slug + "|" + page.title;
    InsertedInner(page);
    TargetBeforeBar(page.slug, page.title);
    ShownAfterBar(page.slug, page.title);
  }

  lemma ReadInserted(text: string, page: PageInfo, q: nat)
    requires Linkable(page) && '|' !in page.slug && At(text, LinkText(page), q)
    ensures Read(text, q) == [Ref(page.slug, page.title)] + Read(text, q + |LinkText(page)|)
  {
    hide LinkText, Target, Shown, Linkable, Read, LinkAt, LinkLength, InnerText, NextBracket, BracketFree, At;
    var inner := InnerReads(page);
    InsertedText(text, page, inner, q);
    LinkAround(text, q, inner);
    ReadsLink(text, q);
  }

  lemma InsertedText(text: string, page: PageInfo, inner: string, q: nat)
    requires At(text, LinkText(page), q) && Linkable(page) && |LinkText(page)| == |inner| + 4
    requires forall x :: 0 <= x < |inner| ==> LinkText(page)[x + 2] == inner[x]
    ensures q + |inner| + 4 <= |text| && BracketFree(inner)
    ensures text[q] == text[q + 1] == '[' && text[q + 2 + |inner|] == text[q + 3 + |inner|] == ']'
    ensures forall x :: 0 <= x < |inner| ==> text[q + 2 + x] == inner[x]
  {
    LinkShape(page);
    hide LinkText;
    forall x | 0 <= x < |inner|
      ensures text[q + 2 + x] == inner[x] && !IsBracket(inner[x])
    {
      assert text[q + 2 + x] == LinkText(page)[x + 2];
    }
    var link := LinkText(page);
    assert text[q] == link[0] && text[q + 1] == link[1];
    assert text[q + 2 + |inner|] == link[|link| - 2] && text[q + 3 + |inner|] == link[|link| - 1];
  }

  lemma ReadsLink(text: string, i: nat)
    requires LinkAt(text, i)
    ensures Read(text, i) == [LinkPiece(text, i)] + Read(text, i + LinkLength(text, i))
  {
    hide LinkAt, LinkLength, LinkPiece;
  }

  /** Between its brackets an inserted link holds the slug, a bar and the title. */
  lemma InsertedInner(page: PageInfo)
    ensures var link, inner := LinkText(page), page.slug + "|" + page.title;
      |link| == |inner| + 4 && forall x :: 0 <= x < |inner| ==> link[x + 2] == inner[x]
  {
    assert LinkText(page) == "[[" + (page.slug + "|" + page.title) + "]]";
  }

  // ----- Links of the body -----

  lemma ClearIsBare(d: seq<Atom>, body: string, text: string)
    requires ClearDoc(d, body, text)
    ensures BareDoc(d, body, text)
  {}

  lemma BareReads(d: seq<Atom>, body: string, text: string)
    requires BareDoc(d, body, text)
    ensures Reads(SourceOf, d, body) && Reads(RenderedOf, d, text)
  {}

  /** The atoms of a stretch that no link atom starts in are characters. */
  lemma {:induction false} StretchIsRun(view: Atom -> string, d: seq<Atom>, s: string, k: nat, n: nat)
    requires Reads(view, d, s) && k <= |d| && Pos(view, d, k) + n <= |s|
    requires forall c :: view(Char(c)) == [c]
    requires forall t :: k <= t < |d| && Pos(view, d, t) < Pos(view, d, k) + n ==> d[t].Char?
    ensures CharRun(d, k, k + n)
    decreases n
  {
    if n > 0 {
      StretchIsRun(view, d, s, k, n - 1);
      CharRunLength(view, d, k, k + n - 1);
      assert k + n - 1 < |d|;
    }
  }

  /** A link of the body is copied character by character. */
  lemma BodyLinkIsRun(d: seq<Atom>, body: string, text: string, k: nat)
    requires ClearDoc(d, body, text) && k < |d| && LinkAt(body, Pos(SourceOf, d, k))
    ensures CharRun(d, k, k + LinkLength(body, Pos(SourceOf, d, k)))
  {
    var p := Pos(SourceOf, d, k);
    var j := NextBracket(body, p + 2);
    forall t | k <= t < |d| && Pos(SourceOf, d, t) < j + 2
      ensures d[t].Char?
    {
      if d[t].Link? {
        PosMonotone(SourceOf, d, k, t);
        NoAtomEmpty(d, body, text, t);
        assert BareAtom(d, t) && ClearAtom(d, body, t);
        AtomCharacters(SourceOf, d, body, t);
        InsideBodyLink(body, p, Pos(SourceOf, d, t));
      }
    }
    StretchIsRun(SourceOf, d, body, k, j + 2 - p);
  }

  /** A character of a link that is no bracket is inside it. */
  lemma InsideBodyLink(body: string, p: nat, s: nat)
    requires LinkAt(body, p) && p <= s < NextBracket(body, p + 2) + 2 && !IsBracket(body[s])
    ensures IsInsideWikilink(body, s)
  {
    var j := NextBracket(body, p + 2);
    AtTwo(body, "[[", p);
    AtTwo(body, "]]", j);
    forall x | p <= x < s
      ensures !At(body, "]]", x)
    {
      AtTwo(body, "]]", x);
    }
    InsideFrom(body, "[[", "]]", p, s, j);
  }

  /** No other link starts within a link. */
  lemma NoLinkWithin(text: string, q: nat, r: nat)
    requires LinkAt(text, q) && q < r < q + LinkLength(text, q) && r + 1 < |text|
    ensures !(text[r] == '[' && text[r + 1] == '[')
  {}

  lemma NoLinkAtomWithin(d: seq<Atom>, body: string, text: string, k: nat, t: nat)
    requires BareDoc(d, body, text) && k < t < |d| && LinkAt(text, Pos(RenderedOf, d, k))
    requires Pos(RenderedOf, d, t) < Pos(RenderedOf, d, k) + LinkLength(text, Pos(RenderedOf, d, k))
    ensures d[t].Char?
  {
    hide LinkAt, LinkLength;
    NoAtomEmpty(d, body, text, k);
    PosMonotone(RenderedOf, d, k + 1, t);
    if d[t].Link? {
      assert BareAtom(d, t);
      LinkShape(d[t].page);
      AtomCharacters(RenderedOf, d, text, t);
      hide LinkText;
      NoLinkWithin(text, Pos(RenderedOf, d, k), Pos(RenderedOf, d, t));
    }
  }

  /** So is a link of the text that does not start with an inserted one. */
  lemma TextLinkIsRun(d: seq<Atom>, body: string, text: string, k: nat)
    requires BareDoc(d, body, text) && k < |d| && d[k].Char? && LinkAt(text, Pos(RenderedOf, d, k))
    ensures CharRun(d, k, k + LinkLength(text, Pos(RenderedOf, d, k)))
  {
    hide LinkAt, LinkLength, BareDoc, Reads, Pos, LinkText;
    BareReads(d, body, text);
    var q := Pos(RenderedOf, d, k);
    forall t | k <= t < |d| && Pos(RenderedOf, d, t) < q + LinkLength(text, q)
      ensures d[t].Char?
    {
      if t > k {
        NoLinkAtomWithin(d, body, text, k, t);
      }
    }
    StretchIsRun(RenderedOf, d, text, k, LinkLength(text, q));
  }

  /** The same link starts at both places. */
  predicate SameLinkAt(a: string, b: string, p: nat, q: nat) {
    && LinkAt(a, p) && LinkAt(b, q)
    && LinkLength(b, q) == LinkLength(a, p) && LinkPiece(b, q) == LinkPiece(a, p)
  }

  /** A run of characters that is a link in one of the two is the same link in the other. */
  lemma SameLink(a: string, b: string, p: nat, q: nat)
    requires LinkAt(a, p) && q + LinkLength(a, p) <= |b|
    requires forall x :: p <= x < p + LinkLength(a, p) ==> a[x] == b[x - p + q]
    ensures SameLinkAt(a, b, p, q)
  {
    var inner := InnerText(a, p);
    InnerChars(a, p);
    hide LinkAt, LinkLength, InnerText, Target, Shown;
    forall x | 0 <= x < |inner|
      ensures b[q + 2 + x] == inner[x]
    {
      assert a[p + 2 + x] == b[p + 2 + x - p + q];
    }
    assert b[q] == a[p] && b[q + 1] == a[p + 1];
    assert b[q + 2 + |inner|] == a[p + 2 + |inner|] && b[q + 3 + |inner|] == a[p + 3 + |inner|];
    LinkAround(b, q, inner);
  }

  lemma InnerChars(text: string, i: nat)
    requires LinkAt(text, i)
    ensures var inner := InnerText(text, i);
      && inner != [] && BracketFree(inner) && LinkLength(text, i) == |inner| + 4 && i + |inner| + 4 <= |text|
      && text[i] == text[i + 1] == '[' && text[i + 2 + |inner|] == text[i + 3 + |inner|] == ']'
      && forall x :: 0 <= x < |inner| ==> text[i + 2 + x] == inner[x]
  {}

  lemma BodyLinkCopied(d: seq<Atom>, body: string, text: string, k: nat)
    requires ClearDoc(d, body, text) && k < |d| && LinkAt(body, Pos(SourceOf, d, k))
    ensures SameLinkAt(body, text, Pos(SourceOf, d, k), Pos(RenderedOf, d, k))
    ensures CharRun(d, k, k + LinkLength(body, Pos(SourceOf, d, k)))
  {
    var p, q := Pos(SourceOf, d, k), Pos(RenderedOf, d, k);
    hide LinkAt, LinkLength, LinkPiece, BareDoc, ClearDoc, Reads, Pos, CharRun, LinkText, SameLinkAt;
    ClearIsBare(d, body, text);
    BareReads(d, body, text);
    BodyLinkIsRun(d, body, text, k);
    RunText(d, body, text, k, LinkLength(body, p));
    SameLink(body, text, p, q);
  }

  lemma RunTextBack(d: seq<Atom>, body: string, text: string, k: nat, n: nat)
    requires BareDoc(d, body, text) && CharRun(d, k, k + n)
    ensures Pos(SourceOf, d, k) + n <= |body|
    ensures forall x :: Pos(RenderedOf, d, k) <= x < Pos(RenderedOf, d, k) + n ==>
      x < |text| && text[x] == body[x - Pos(RenderedOf, d, k) + Pos(SourceOf, d, k)]
  {
    BareReads(d, body, text);
    hide BareDoc, Reads, Pos, CharRun, LinkText;
    RunText(d, body, text, k, n);
    var p, q := Pos(SourceOf, d, k), Pos(RenderedOf, d, k);
    forall x | q <= x < q + n
      ensures x < |text| && text[x] == body[x - q + p]
    {
      var y := x - q + p;
      assert body[y] == text[y - p + q];
    }
  }

  lemma TextLinkCopied(d: seq<Atom>, body: string, text: string, k: nat)
    requires BareDoc(d, body, text) && k < |d| && d[k].Char? && LinkAt(text, Pos(RenderedOf, d, k))
    ensures LinkAt(body, Pos(SourceOf, d, k))
  {
    hide LinkAt, LinkLength, LinkPiece, BareDoc, Reads, Pos, CharRun, LinkText, SourceOf, RenderedOf, SameLinkAt;
    var p, q := Pos(SourceOf, d, k), Pos(RenderedOf, d, k);
    TextLinkIsRun(d, body, text, k);
    RunTextBack(d, body, text, k, LinkLength(text, q));
    SameLink(text, body, q, p);
    LinkOfSame(text, body, q, p);
  }

  lemma LinkOfSame(a: string, b: string, p: nat, q: nat)
    requires SameLinkAt(a, b, p, q)
    ensures LinkAt(b, q)
  {}

  // ----- The whole document -----

  lemma BeforeCons(e: Edit, rest: seq<Edit>)
    ensures Before([e] + rest) == Replaced(e) + Before(rest) && After([e] + rest) == Replacement(e) + After(rest)
  {
    assert ([e] + rest)[1..] == rest;
  }

  /** What the reader finds from one atom on. */
  ghost predicate EditsFrom(d: seq<Atom>, body: string, text: string, k: nat, edits: seq<Edit>) {
    && k <= |d| && Pos(SourceOf, d, k) <= |body| && Pos(RenderedOf, d, k) <= |text|
    && Before(edits) == Read(body, Pos(SourceOf, d, k))
    && After(edits) == Read(text, Pos(RenderedOf, d, k))
    && forall e :: e in edits && e.Linked? ==> Link(e.mention, e.page) in d
  }

  lemma PositionsWithin(d: seq<Atom>, body: string, text: string, k: nat)
    requires BareDoc(d, body, text) && k <= |d|
    ensures Pos(SourceOf, d, k) <= |body| && Pos(RenderedOf, d, k) <= |text|
    ensures k == |d| ==> Pos(SourceOf, d, k) == |body| && Pos(RenderedOf, d, k) == |text|
    ensures k < |d| ==> Pos(SourceOf, d, k) < |body| && Pos(RenderedOf, d, k) < |text|
  {
    PosMonotone(SourceOf, d, k, |d|);
    PosMonotone(RenderedOf, d, k, |d|);
    if k < |d| {
      NoAtomEmpty(d, body, text, k);
    }
  }

  /** One more edit, whose pieces the reader finds first. */
  lemma OneMoreEdit(d: seq<Atom>, body: string, text: string, k: nat, next: nat, e: Edit, rest: seq<Edit>)
    requires EditsFrom(d, body, text, next, rest) && k <= |d|
    requires Pos(SourceOf, d, k) <= |body| && Pos(RenderedOf, d, k) <= |text|
    requires Read(body, Pos(SourceOf, d, k)) == Replaced(e) + Read(body, Pos(SourceOf, d, next))
    requires Read(text, Pos(RenderedOf, d, k)) == Replacement(e) + Read(text, Pos(RenderedOf, d, next))
    requires e.Linked? ==> Link(e.mention, e.page) in d
    ensures EditsFrom(d, body, text, k, [e] + rest)
  {
    hide Read, Before, After, Replaced, Replacement;
    BeforeCons(e, rest);
  }

  lemma LinkEdit(d: seq<Atom>, body: string, text: string, k: nat, rest: seq<Edit>)
    requires BareDoc(d, body, text) && k < |d| && d[k].Link? && '|' !in d[k].page.slug
    requires EditsFrom(d, body, text, k + 1, rest)
    ensures EditsFrom(d, body, text, k, [Linked(d[k].original, d[k].page)] + rest)
  {
    hide Read, LinkText, Linkable, BracketFree, EditsFrom;
    PositionsWithin(d, body, text, k);
    assert BareAtom(d, k) && AtomText(SourceOf, d, body, k) && AtomText(RenderedOf, d, text, k);
    ReadPlain(body, Pos(SourceOf, d, k), d[k].original);
    ReadInserted(text, d[k].page, Pos(RenderedOf, d, k));
    assert d[k] == Link(d[k].original, d[k].page) && d[k] in d;
    OneMoreEdit(d, body, text, k, k + 1, Linked(d[k].original, d[k].page), rest);
  }

  /** Where a copied link ends, in both. */
  lemma CopiedLinkEnds(d: seq<Atom>, body: string, text: string, k: nat)
    requires ClearDoc(d, body, text) && k < |d| && LinkAt(body, Pos(SourceOf, d, k))
    ensures var p, q := Pos(SourceOf, d, k), Pos(RenderedOf, d, k);
      && SameLinkAt(body, text, p, q) && k + LinkLength(body, p) <= |d|
      && Pos(SourceOf, d, k + LinkLength(body, p)) == p + LinkLength(body, p)
      && Pos(RenderedOf, d, k + LinkLength(body, p)) == q + LinkLength(body, p)
  {
    var n := LinkLength(body, Pos(SourceOf, d, k));
    BodyLinkCopied(d, body, text, k);
    hide LinkAt, LinkLength, LinkPiece, ClearDoc, SameLinkAt, LinkText, Pos;
    CharRunLength(SourceOf, d, k, k + n);
    CharRunLength(RenderedOf, d, k, k + n);
  }

  lemma CopiedLinkEdit(d: seq<Atom>, body: string, text: string, k: nat, rest: seq<Edit>)
    requires ClearDoc(d, body, text) && k < |d| && d[k].Char? && LinkAt(body, Pos(SourceOf, d, k))
    requires EditsFrom(d, body, text, k + LinkLength(body, Pos(SourceOf, d, k)), rest)
    ensures EditsFrom(d, body, text, k, [Same(LinkPiece(body, Pos(SourceOf, d, k)))] + rest)
  {
    hide Read, LinkAt, LinkLength, LinkPiece, ClearDoc, BareDoc, EditsFrom, Pos, LinkText, SourceOf, RenderedOf, Replaced,
      Replacement;
    var p, q := Pos(SourceOf, d, k), Pos(RenderedOf, d, k);
    var e := Same(LinkPiece(body, p));
    ClearIsBare(d, body, text);
    CopiedLinkEnds(d, body, text, k);
    PositionsWithin(d, body, text, k);
    ReadLink(body, p, e);
    ReadLink(text, q, e);
    OneMoreEdit(d, body, text, k, k + LinkLength(body, p), e, rest);
  }

  lemma ReadLink(text: string, i: nat, e: Edit)
    requires LinkAt(text, i) && e == Same(LinkPiece(text, i))
    ensures Read(text, i) == Replaced(e) + Read(text, i + LinkLength(text, i))
    ensures Read(text, i) == Replacement(e) + Read(text, i + LinkLength(text, i))
  {
    hide Read, LinkAt, LinkLength, LinkPiece;
    ReadsLink(text, i);
  }

  lemma CharEdit(d: seq<Atom>, body: string, text: string, k: nat, rest: seq<Edit>)
    requires ClearDoc(d, body, text) && k < |d| && d[k].Char? && !LinkAt(body, Pos(SourceOf, d, k))
    requires EditsFrom(d, body, text, k + 1, rest)
    ensures EditsFrom(d, body, text, k, [Same(Plain(d[k].c))] + rest)
  {
    hide LinkAt, LinkPiece, ClearDoc, BareDoc, Reads, EditsFrom, Read, LinkText;
    ClearIsBare(d, body, text);
    BareReads(d, body, text);
    if LinkAt(text, Pos(RenderedOf, d, k)) {
      TextLinkCopied(d, body, text, k);
    }
    PositionsWithin(d, body, text, k);
    AtomCharacters(SourceOf, d, body, k);
    AtomCharacters(RenderedOf, d, text, k);
    ReadChar(body, Pos(SourceOf, d, k));
    ReadChar(text, Pos(RenderedOf, d, k));
    OneMoreEdit(d, body, text, k, k + 1, Same(Plain(d[k].c)), rest);
  }

  lemma ReadChar(text: string, i: nat)
    requires i < |text| && !LinkAt(text, i)
    ensures Read(text, i) == [Plain(text[i])] + Read(text, i + 1)
  {}

  lemma {:induction false} DocEdits(d: seq<Atom>, body: string, text: string, k: nat) returns (edits: seq<Edit>)
    requires ClearDoc(d, body, text) && k <= |d| && forall a :: a in d && a.Link? ==> '|' !in a.page.slug
    ensures EditsFrom(d, body, text, k, edits)
    decreases |d| - k
  {
    hide EditsFrom, ClearAtom, LinkAt, LinkLength, LinkPiece;
    PositionsWithin(d, body, text, k);
    if k == |d| {
      edits := [];
      NothingLeft(d, body, text);
    } else if d[k].Link? {
      edits := DocEdits(d, body, text, k + 1);
      assert d[k] in d;
      LinkEdit(d, body, text, k, edits);
      edits := [Linked(d[k].original, d[k].page)] + edits;
    } else if LinkAt(body, Pos(SourceOf, d, k)) {
      BodyLinkCopied(d, body, text, k);
      edits := DocEdits(d, body, text, k + LinkLength(body, Pos(SourceOf, d, k)));
      CopiedLinkEdit(d, body, text, k, edits);
      edits := [Same(LinkPiece(body, Pos(SourceOf, d, k)))] + edits;
    } else {
      edits := DocEdits(d, body, text, k + 1);
      CharEdit(d, body, text, k, edits);
      edits := [Same(Plain(d[k].c))] + edits;
    }
  }

  lemma NothingLeft(d: seq<Atom>, body: string, text: string)
    requires BareDoc(d, body, text)
    ensures EditsFrom(d, body, text, |d|, [])
  {}

  /** What a reader of the body and one of the result find: the same, but for mentions that became links to their pages. */
  ghost predicate ReadsAs(fold: char -> char, edits: seq<Edit>, body: string, result: string, titles: seq<PageInfo>,
                          selfTitle: string) {
    Before(edits) == Read(body, 0) && After(edits) == Read(result, 0) && LinksOthers(fold, edits, titles, selfTitle)
  }

  /**
   Main result: in the rewritten body a reader finds what was in the body, links included, except that some mentions of
   other pages' titles are links whose target is the page's slug and whose label is its title.
   */
  lemma ResultReadsAs(fold: char -> char, body: string, titles: seq<PageInfo>, selfTitle: string) returns (edits: seq<Edit>)
    requires KeepsMarkup(fold) && LinkableIndex(titles) && BarFree(titles)
    ensures ReadsAs(fold, edits, body, LinkTitles(fold, body, titles, selfTitle), titles, selfTitle)
  {
    hide KeepsMarkup, ClearDoc, BareDoc, EqFold, LinkTitles, Read, Before, After;
    var d := PassExplanation(fold, body, titles, selfTitle);
    forall a | a in d && a.Link?
      ensures MentionOf(fold, a, titles, selfTitle) && '|' !in a.page.slug
    {}
    edits := DocEdits(d, body, LinkTitles(fold, body, titles, selfTitle), 0);
    forall e | e in edits && e.Linked?
      ensures e.page in titles && !EqFold(fold, e.page.title, selfTitle) && EqFold(fold, e.mention, e.page.title)
    {
      assert MentionOf(fold, Link(e.mention, e.page), titles, selfTitle);
    }
  }

  // ----- What follows for the reader -----

  lemma {:induction false} DisplayedAppend(a: seq<Piece>, b: seq<Piece>)
    ensures Displayed(a + b) == Displayed(a) + Displayed(b)
  {
    if a == [] {
      assert a + b == b;
    } else {
      assert (a + b)[1..] == a[1..] + b;
      DisplayedAppend(a[1..], b);
    }
  }

  lemma {:induction false} PlainlyDisplayed(s: string)
    ensures Displayed(Plainly(s)) == s
  {
    if s != [] {
      assert Plainly(s)[1..] == Plainly(s[1..]);
      PlainlyDisplayed(s[1..]);
    }
  }

  lemma EqFoldAppend(fold: char -> char, a: string, b: string, c: string, d: string)
    requires EqFold(fold, a, b) && EqFold(fold, c, d)
    ensures EqFold(fold, a + c, b + d)
  {}

  lemma EqFoldSelf(fold: char -> char, a: string)
    ensures EqFold(fold, a, a)
  {}

  lemma {:induction false} EditsDisplayAlike(fold: char -> char, edits: seq<Edit>, titles: seq<PageInfo>, selfTitle: string)
    requires LinksOthers(fold, edits, titles, selfTitle)
    ensures EqFold(fold, Displayed(Before(edits)), Displayed(After(edits)))
  {
    if edits != [] {
      var e, rest := edits[0], edits[1..];
      EditsDisplayAlike(fold, rest, titles, selfTitle);
      assert edits == [e] + rest;
      hide EqFold, Before, After, Displayed, Replaced, Replacement;
      BeforeCons(e, rest);
      DisplayedAppend(Replaced(e), Before(rest));
      DisplayedAppend(Replacement(e), After(rest));
      OneEditAlike(fold, e);
      EqFoldAppend(fold, Displayed(Replaced(e)), Displayed(Replacement(e)), Displayed(Before(rest)), Displayed(After(rest)));
    }
  }

  lemma OneEditAlike(fold: char -> char, e: Edit)
    requires e.Linked? ==> EqFold(fold, e.mention, e.page.title)
    ensures EqFold(fold, Displayed(Replaced(e)), Displayed(Replacement(e)))
  {
    match e
    case Same(piece) => EqFoldSelf(fold, Displayed([piece]));
    case Linked(mention, page) =>
      PlainlyDisplayed(mention);
      assert Displayed([Ref(page.slug, page.title)]) == page.title + Displayed([]) == page.title;
  }

  /** With every link shown as its label, the result reads as the body does, up to case. */
  lemma ResultDisplaysBody(fold: char -> char, body: string, titles: seq<PageInfo>, selfTitle: string)
    requires KeepsMarkup(fold) && LinkableIndex(titles) && BarFree(titles)
    ensures EqFold(fold, Displayed(Read(body, 0)), Displayed(Read(LinkTitles(fold, body, titles, selfTitle), 0)))
  {
    hide KeepsMarkup, EqFold, LinkTitles, Read, Displayed;
    var edits := ResultReadsAs(fold, body, titles, selfTitle);
    EditsDisplayAlike(fold, edits, titles, selfTitle);
  }

  /** The links among some pieces, in order. */
  function Links(pieces: seq<Piece>): seq<Piece> {
    if pieces == [] then [] else (if pieces[0].Ref? then [pieces[0]] else []) + Links(pieces[1..])
  }

  /** The links that the edits insert, in order. */
  function Inserted(edits: seq<Edit>): seq<Piece> {
    if edits == [] then [] else (if edits[0].Linked? then Replacement(edits[0]) else []) + Inserted(edits[1..])
  }

  lemma {:induction false} LinksAppend(a: seq<Piece>, b: seq<Piece>)
    ensures Links(a + b) == Links(a) + Links(b)
  {
    if a == [] {
      assert a + b == b;
    } else {
      var first, rest := a[0], a[1..];
      LinksAppend(rest, b);
      assert (a + b)[0] == first && (a + b)[1..] == rest + b;
      var own := if first.Ref? then [first] else [];
      assert Links(a + b) == own + Links(rest + b) && Links(a) == own + Links(rest);
      hide Links;
    }
  }

  lemma {:induction false} PlainHasNoLinks(s: string)
    ensures Links(Plainly(s)) == []
  {
    if s != [] {
      assert Plainly(s)[1..] == Plainly(s[1..]);
      PlainHasNoLinks(s[1..]);
    }
  }

  /** No link of the body is lost or changed, and exactly the inserted ones are new. */
  lemma {:induction false} LinksAfterEdits(edits: seq<Edit>)
    ensures multiset(Links(After(edits))) == multiset(Links(Before(edits))) + multiset(Inserted(edits))
  {
    if edits != [] {
      var e, rest := edits[0], edits[1..];
      LinksAfterEdits(rest);
      assert edits == [e] + rest;
      BeforeCons(e, rest);
      match e
      case Same(piece) =>
        LinksAppend([piece], Before(rest));
        LinksAppend([piece], After(rest));
      case Linked(mention, page) =>
        LinksAppend(Plainly(mention), Before(rest));
        PlainHasNoLinks(mention);
        LinksAppend([Ref(page.slug, page.title)], After(rest));
        assert Links([Ref(page.slug, page.title)]) == [Ref(page.slug, page.title)];
    }
  }

  /** Of the links that a reader finds in the result, those of the body are all there, and the others are inserted ones. */
  lemma ResultKeepsLinks(fold: char -> char, body: string, titles: seq<PageInfo>, selfTitle: string)
    returns (edits: seq<Edit>)
    requires KeepsMarkup(fold) && LinkableIndex(titles) && BarFree(titles)
    ensures ReadsAs(fold, edits, body, LinkTitles(fold, body, titles, selfTitle), titles, selfTitle)
    ensures multiset(Links(Read(LinkTitles(fold, body, titles, selfTitle), 0))) ==
      multiset(Links(Read(body, 0))) + multiset(Inserted(edits))
  {
    hide KeepsMarkup, EqFold, LinkTitles, Read, Links;
    edits := ResultReadsAs(fold, body, titles, selfTitle);
    LinksAfterEdits(edits);
  }
}
