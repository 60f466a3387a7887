/**
 Substring search as the compiler uses it: `indexOf` and `lastIndexOf` on
 strings, with -1 for "not found".
 */
module Text {

  /** `sub` occurs in `text` at index `i`. */
  predicate At(text: string, sub: string, i: int) {
    0 <= i <= i + |sub| <= |text| && forall q :: i <= q < i + |sub| ==> text[q] == sub[q - i]
  }

  /** The first occurrence of `sub` that starts at `from` or later. */
  function IndexOf(text: string, sub: string, from: nat): (r: int)
    ensures r == -1 || from <= r <= r + |sub| <= |text|
    decreases |text| - from
  {
    if from + |sub| > |text| then -1
    else if At(text, sub, from) then from
    else IndexOf(text, sub, from + 1)
  }

  /** The last occurrence of `sub` that starts at `position` or earlier. */
  function LastIndexOf(text: string, sub: string, position: nat): (r: int)
    ensures -1 <= r <= position
    decreases position
  {
    if At(text, sub, position) then position
    else if position == 0 then -1
    else LastIndexOf(text, sub, position - 1)
  }

  lemma {:induction false} IndexOfFirst(text: string, sub: string, from: nat)
    ensures var r := IndexOf(text, sub, from);
      && (r != -1 ==> At(text, sub, r))
      && forall i :: from <= i && (r == -1 || i < r) ==> !At(text, sub, i)
    decreases |text| - from
  {
    if from + |sub| <= |text| && !At(text, sub, from) {
      IndexOfFirst(text, sub, from + 1);
    }
  }

  lemma {:induction false} LastIndexOfLast(text: string, sub: string, position: nat)
    ensures var r := LastIndexOf(text, sub, position);
      && (r != -1 ==> At(text, sub, r))
      && forall i :: r < i <= position ==> !At(text, sub, i)
    decreases position
  {
    if position != 0 && !At(text, sub, position) {
      LastIndexOfLast(text, sub, position - 1);
    }
  }

  /** The characters of a two-character occurrence. */
  lemma AtTwo(text: string, sub: string, i: nat)
    requires |sub| == 2
    ensures At(text, sub, i) <==> i + 2 <= |text| && text[i] == sub[0] && text[i + 1] == sub[1]
  {}

  lemma AtOne(text: string, sub: string, i: nat)
    requires |sub| == 1
    ensures At(text, sub, i) <==> i < |text| && text[i] == sub[0]
  {}

  /** Two strings of one length whose characters agree under `fold`. */
  predicate EqFold(fold: char -> char, a: string, b: string) {
    |a| == |b| && forall k :: 0 <= k < |a| ==> fold(a[k]) == fold(b[k])
  }
}
