/**
 A rewritten body read as a sequence of atoms: characters copied from the original
 body and links that stand for a span of it. Under the view `SourceOf` the atoms read
 as the original body, under `RenderedOf` as the text the rewriter works on.
 */
module WikilinkDocs {
  import opened Text
  import opened Wikilinks

  datatype Atom = Char(c: char) | Link(original: string, page: PageInfo)

  function SourceOf(a: Atom): string {
    match a
    case Char(c) => [c]
    case Link(original, _) => original
  }

  function RenderedOf(a: Atom): string {
    match a
    case Char(c) => [c]
    case Link(_, page) => LinkText(page)
  }

  /** Inserted links read as the titles they display. */
  function ShownOf(a: Atom): string {
    match a
    case Char(c) => [c]
    case Link(_, page) => page.title
  }

  /** Where atom `i` starts. */
  function Pos(view: Atom -> string, d: seq<Atom>, i: nat): nat
    requires i <= |d|
  {
    if i == 0 then 0 else Pos(view, d, i - 1) + |view(d[i - 1])|
  }

  ghost predicate AtomText(view: Atom -> string, d: seq<Atom>, text: string, i: nat)
    requires i < |d|
  {
    At(text, view(d[i]), Pos(view, d, i))
  }

  /** `text` is the concatenation of the atoms' texts. */
  ghost predicate Reads(view: Atom -> string, d: seq<Atom>, text: string) {
    && |text| == Pos(view, d, |d|)
    && forall i :: 0 <= i < |d| ==> AtomText(view, d, text, i)
  }

  lemma {:induction false} PosMonotone(view: Atom -> string, d: seq<Atom>, i: nat, j: nat)
    requires i <= j <= |d|
    ensures Pos(view, d, i) <= Pos(view, d, j)
    decreases j
  {
    if i < j {
      PosMonotone(view, d, i, j - 1);
    }
  }

  /** The characters of one atom. */
  lemma AtomCharacters(view: Atom -> string, d: seq<Atom>, text: string, i: nat)
    requires Reads(view, d, text) && i < |d|
    ensures Pos(view, d, i + 1) == Pos(view, d, i) + |view(d[i])| <= |text|
    ensures forall q :: Pos(view, d, i) <= q < Pos(view, d, i + 1) ==> text[q] == view(d[i])[q - Pos(view, d, i)]
  {
    assert AtomText(view, d, text, i);
  }

  /** The atom that holds character `p`. */
  lemma {:induction false} Locate(view: Atom -> string, d: seq<Atom>, text: string, p: nat) returns (i: nat)
    requires Reads(view, d, text) && p < |text|
    ensures i < |d| && Pos(view, d, i) <= p < Pos(view, d, i + 1)
    ensures Pos(view, d, i + 1) == Pos(view, d, i) + |view(d[i])|
    ensures text[p] == view(d[i])[p - Pos(view, d, i)]
  {
    i := 0;
    while Pos(view, d, i + 1) <= p
      invariant i < |d| && Pos(view, d, i) <= p
      decreases |d| - i
    {
      i := i + 1;
    }
    AtomCharacters(view, d, text, i);
  }

  // ----- Runs of characters -----

  /** Atoms `i` up to `j` are characters. */
  predicate CharRun(d: seq<Atom>, i: nat, j: nat) {
    i <= j <= |d| && forall k :: i <= k < j ==> d[k].Char?
  }

  lemma {:induction false} CharRunLength(view: Atom -> string, d: seq<Atom>, i: nat, j: nat)
    requires CharRun(d, i, j)
    requires forall c :: view(Char(c)) == [c]
    ensures Pos(view, d, j) == Pos(view, d, i) + (j - i)
    decreases j
  {
    if i < j {
      CharRunLength(view, d, i, j - 1);
      assert view(d[j - 1]) == [d[j - 1].c];
    }
  }

  /** Character `k` of a run. */
  lemma CharOfRun(view: Atom -> string, d: seq<Atom>, text: string, i: nat, k: nat)
    requires Reads(view, d, text) && CharRun(d, i, k + 1) && i <= k
    requires forall c :: view(Char(c)) == [c]
    ensures Pos(view, d, i) + (k - i) < |text|
    ensures text[Pos(view, d, i) + (k - i)] == d[k].c
  {
    CharRunLength(view, d, i, k);
    AtomCharacters(view, d, text, k);
    assert view(d[k]) == [d[k].c];
  }

  /** The characters of `s` stand as plain atoms at `i`. */
  predicate Verbatim(d: seq<Atom>, i: nat, s: string) {
    i + |s| <= |d| && forall k :: i <= k < i + |s| ==> d[k] == Char(s[k - i])
  }

  lemma VerbatimText(view: Atom -> string, d: seq<Atom>, text: string, i: nat, s: string)
    requires Reads(view, d, text) && Verbatim(d, i, s)
    requires forall c :: view(Char(c)) == [c]
    ensures At(text, s, Pos(view, d, i))
  {
    var p := Pos(view, d, i);
    CharRunLength(view, d, i, i + |s|);
    PosMonotone(view, d, i + |s|, |d|);
    forall q | p <= q < p + |s|
      ensures text[q] == s[q - p]
    {
      CharOfRun(view, d, text, i, i + (q - p));
    }
  }

  // ----- Replacing a run of atoms by one -----

  function Collapse(d: seq<Atom>, i: nat, n: nat, a: Atom): seq<Atom>
    requires i + n <= |d|
  {
    d[..i] + [a] + d[i + n..]
  }

  lemma {:induction false} CollapsePos(view: Atom -> string, d: seq<Atom>, i: nat, n: nat, a: Atom, k: nat)
    requires i + n <= |d| && k <= |Collapse(d, i, n, a)|
    ensures Pos(view, Collapse(d, i, n, a), k) ==
      if k <= i then Pos(view, d, k)
      else Pos(view, d, i) + |view(a)| + (Pos(view, d, k + n - 1) - Pos(view, d, i + n))
  {
    if k > 0 {
      CollapsePos(view, d, i, n, a, k - 1);
    }
  }

  lemma AtPrefix(text: string, text': string, sub: string, p: nat, m: nat)
    requires m <= |text| && m <= |text'| && forall q :: 0 <= q < m ==> text'[q] == text[q]
    requires p + |sub| <= m && At(text, sub, p)
    ensures At(text', sub, p)
  {}

  lemma AtSuffix(text: string, text': string, sub: string, p: nat, shift: int)
    requires p + shift >= 0 && p + |sub| + shift <= |text'|
    requires forall q :: p + shift <= q < p + |sub| + shift ==> 0 <= q - shift < |text| && text'[q] == text[q - shift]
    requires At(text, sub, p)
    ensures At(text', sub, p + shift)
  {}

  /** An atom after the replaced run, in the shifted text. */
  lemma CollapseTail(view: Atom -> string, d: seq<Atom>, text: string, text': string,
                     i: nat, n: nat, a: Atom, k: nat)
    requires Reads(view, d, text) && i + n <= |d| && i < k < |Collapse(d, i, n, a)|
    requires |text'| == |text| + Pos(view, d, i) + |view(a)| - Pos(view, d, i + n)
    requires forall q :: Pos(view, d, i) + |view(a)| <= q < |text'| ==>
      text'[q] == text[q - (Pos(view, d, i) + |view(a)| - Pos(view, d, i + n))]
    ensures AtomText(view, Collapse(d, i, n, a), text', k)
  {
    var m := k + n - 1;
    CollapsePos(view, d, i, n, a, k);
    AtomCharacters(view, d, text, m);
    PosMonotone(view, d, i + n, m);
    assert AtomText(view, d, text, m);
    AtSuffix(text, text', view(d[m]), Pos(view, d, m), Pos(view, d, i) + |view(a)| - Pos(view, d, i + n));
  }

  lemma CollapseReads(view: Atom -> string, d: seq<Atom>, text: string, i: nat, n: nat, a: Atom)
    requires Reads(view, d, text) && i + n <= |d|
    ensures Pos(view, d, i) <= Pos(view, d, i + n) <= |text|
    ensures Reads(view, Collapse(d, i, n, a),
      text[..Pos(view, d, i)] + view(a) + text[Pos(view, d, i + n)..])
  {
    PosMonotone(view, d, i, i + n);
    PosMonotone(view, d, i + n, |d|);
    var d', s, e := Collapse(d, i, n, a), Pos(view, d, i), Pos(view, d, i + n);
    var text' := text[..s] + view(a) + text[e..];
    CollapsePos(view, d, i, n, a, |d'|);
    forall k | 0 <= k < |d'|
      ensures AtomText(view, d', text', k)
    {
      if k < i {
        CollapsePos(view, d, i, n, a, k);
        assert AtomText(view, d, text, k);
        PosMonotone(view, d, k + 1, i);
        AtPrefix(text, text', view(d[k]), Pos(view, d, k), s);
      } else if k == i {
        CollapsePos(view, d, i, n, a, k);
      } else {
        CollapseTail(view, d, text, text', i, n, a, k);
      }
    }
  }
}
