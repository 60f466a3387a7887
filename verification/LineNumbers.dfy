/**
 The numbered source text that a prompt shows, under its budget, and the line-number
 parser that checks citations against it.
 */
module LineNumbers {
  import opened Options
  import opened Strings

  datatype SourceSlice = SourceSlice(file: string, content: string)

  // ----- Printing -----

  function Lines(content: string): (r: seq<string>)
    ensures |r| >= 1
  {
    Split(content, '\n')
  }

  function Spaces(n: nat): (r: string)
    ensures |r| == n && forall i :: 0 <= i < n ==> r[i] == ' '
  {
    seq(n, i => ' ')
  }

  function PadStart(s: string, width: nat): string {
    if |s| >= width then s else Spaces(width - |s|) + s
  }

  /** Line `i`, counted from 0, behind its right-aligned number. */
  function NumberedLine(i: nat, width: nat, line: string): string {
    PadStart(ToDecimal(i + 1), width) + [' ', '|', ' '] + line
  }

  function NumberedLines(lines: seq<string>): (r: seq<string>)
    ensures |r| == |lines|
  {
    seq(|lines|, i requires 0 <= i < |lines| => NumberedLine(i, |ToDecimal(|lines|)|, lines[i]))
  }

  function NumberLines(content: string): string {
    Join(NumberedLines(Lines(content)), '\n')
  }

  function Header(file: string): string {
    "--- SOURCE: " + file + " ---"
  }

  function FormatSlice(s: SourceSlice): string {
    Header(s.file) + ['\n'] + (['\n'] + NumberLines(s.content))
  }

  function FormatSlices(slices: seq<SourceSlice>): string {
    if slices == [] then []
    else if |slices| == 1 then FormatSlice(slices[0])
    else FormatSlice(slices[0]) + ['\n'] + (['\n'] + FormatSlices(slices[1..]))
  }

  // ----- The budget -----

  const MARKER_LINE := "[\U{2026}truncated for prompt budget \U{2014} see #39\U{2026}]"

  /** The marker that ends a truncated slice: a blank line and a line of its own. */
  const TRUNCATION_MARKER := "\n\n" + MARKER_LINE

  function TotalLength(slices: seq<SourceSlice>): nat {
    if slices == [] then 0 else |slices[0].content| + TotalLength(slices[1..])
  }

  function PerSource(budget: nat, n: nat): nat
    requires n > 0
  {
    if budget / n > 1 then budget / n else 1
  }

  /** How much of a slice's text is kept. */
  function KeptLength(s: SourceSlice, perSource: nat): nat {
    if |s.content| > perSource then perSource else |s.content|
  }

  function Clip(s: SourceSlice, perSource: nat): SourceSlice {
    if |s.content| > perSource then s.(content := s.content[..perSource] + TRUNCATION_MARKER) else s
  }

  /** The slices that the prompt shows. */
  function Shown(slices: seq<SourceSlice>, budget: nat): (r: seq<SourceSlice>)
    ensures |r| == |slices|
  {
    if TotalLength(slices) <= budget then slices
    else seq(|slices|, i requires 0 <= i < |slices| => Clip(slices[i], PerSource(budget, |slices|)))
  }

  function BuildBudgetedCombinedContent(slices: seq<SourceSlice>, budget: nat): string {
    FormatSlices(Shown(slices, budget))
  }

  /** The texts of some slices, one after the other. */
  function Contents(slices: seq<SourceSlice>): string {
    if slices == [] then [] else slices[0].content + Contents(slices[1..])
  }

  lemma {:induction false} TotalIsLength(slices: seq<SourceSlice>)
    ensures TotalLength(slices) == |Contents(slices)|
  {
    if slices != [] {
      TotalIsLength(slices[1..]);
    }
  }

  /** A slice without the marker: the text that is kept of it. */
  function KeptOf(s: SourceSlice, perSource: nat): SourceSlice {
    s.(content := s.content[..KeptLength(s, perSource)])
  }

  function KeptSlices(slices: seq<SourceSlice>, perSource: nat): (r: seq<SourceSlice>)
    ensures |r| == |slices|
  {
    seq(|slices|, i requires 0 <= i < |slices| => KeptOf(slices[i], perSource))
  }

  lemma OneMoreShare(n: nat, perSource: nat)
    ensures (n + 1) * perSource == n * perSource + perSource
  {}

  lemma {:induction false} KeptAtMost(slices: seq<SourceSlice>, perSource: nat)
    ensures |Contents(KeptSlices(slices, perSource))| <= |slices| * perSource
  {
    if slices != [] {
      KeptAtMost(slices[1..], perSource);
      assert KeptSlices(slices, perSource)[1..] == KeptSlices(slices[1..], perSource);
      OneMoreShare(|slices[1..]|, perSource);
    }
  }

  /** The share of one source: an equal part of the budget, and at least one character. */
  ghost predicate IsShare(share: nat, budget: nat, n: nat) {
    share >= 1 && (share * n <= budget < (share + 1) * n || (share == 1 && budget < n))
  }

  lemma PerSourceIsShare(budget: nat, n: nat)
    requires n > 0
    ensures IsShare(PerSource(budget, n), budget, n)
  {
    var q := budget / n;
    assert budget == n * q + budget % n;
    assert n * q == q * n && (q + 1) * n == q * n + n;
  }

  /** Each slice shows the kept part of its text, which ends with the marker if it is not the whole. */
  ghost predicate ShowsKept(slices: seq<SourceSlice>, kept: seq<SourceSlice>, shown: seq<SourceSlice>) {
    && |kept| == |shown| == |slices|
    && forall i :: 0 <= i < |slices| ==>
      && kept[i].file == shown[i].file == slices[i].file
      && kept[i].content <= slices[i].content
      && shown[i].content == kept[i].content + if kept[i] == slices[i] then [] else TRUNCATION_MARKER
  }

  /**
   What the prompt shows: all texts if they fit in the budget, else of each source its share; in any case no more than
   the budget, or one character per source if the budget is smaller still.
   */
  lemma ShownWithinBudget(slices: seq<SourceSlice>, budget: nat) returns (kept: seq<SourceSlice>, share: nat)
    ensures ShowsKept(slices, kept, Shown(slices, budget))
    ensures |Contents(kept)| <= (if budget > |slices| then budget else |slices|)
    ensures |Contents(slices)| <= budget ==> kept == slices
    ensures |Contents(slices)| > budget ==> IsShare(share, budget, |slices|)
    ensures |Contents(slices)| > budget ==> forall i :: 0 <= i < |slices| ==>
      |kept[i].content| == share || (|kept[i].content| < share && kept[i] == slices[i])
  {
    TotalIsLength(slices);
    if TotalLength(slices) <= budget {
      kept, share := slices, 1;
      assert forall s: string :: s + [] == s;
    } else {
      var n := |slices|;
      share := PerSource(budget, n);
      PerSourceIsShare(budget, n);
      kept := KeptSlices(slices, share);
      KeptAtMost(slices, share);
      assert n * share == share * n;
      hide Contents, PerSource, TRUNCATION_MARKER;
      forall i | 0 <= i < n
        ensures Clip(slices[i], share).content == kept[i].content + if kept[i] == slices[i] then [] else TRUNCATION_MARKER
      {
        ClipShowsKept(slices[i], share);
      }
    }
  }

  lemma ClipShowsKept(s: SourceSlice, perSource: nat)
    ensures Clip(s, perSource).content ==
      KeptOf(s, perSource).content + if KeptOf(s, perSource) == s then [] else TRUNCATION_MARKER
  {
    if |s.content| <= perSource {
      assert s.content[..|s.content|] == s.content && s.content + [] == s.content;
      assert KeptOf(s, perSource) == s;
    } else {
      assert |KeptOf(s, perSource).content| < |s.content|;
    }
  }

  // ----- Parsing -----

  function SkipSpaces(s: string, i: nat): (k: nat)
    requires i <= |s|
    ensures i <= k <= |s| && (forall j :: i <= j < k ==> IsWhiteSpace(s[j])) && (k < |s| ==> !IsWhiteSpace(s[k]))
    decreases |s| - i
  {
    if i < |s| && IsWhiteSpace(s[i]) then SkipSpaces(s, i + 1) else i
  }

  function SkipDigits(s: string, i: nat): (k: nat)
    requires i <= |s|
    ensures i <= k <= |s| && (forall j :: i <= j < k ==> IsDigit(s[j])) && (k < |s| ==> !IsDigit(s[k]))
    decreases |s| - i
  {
    if i < |s| && IsDigit(s[i]) then SkipDigits(s, i + 1) else i
  }

  /** The number at the start of a numbered line. */
  function ParseNumber(line: string): Option<nat> {
    var start := SkipSpaces(line, 0);
    var end := SkipDigits(line, start);
    var bar := SkipSpaces(line, end);
    if start < end && bar < |line| && line[bar] == '|' then Some(DecimalValue(line[start..end])) else None
  }

  predicate AllSpaces(gap: string) {
    forall i :: 0 <= i < |gap| ==> IsWhiteSpace(gap[i])
  }

  /** The line in parts: spaces, digits, spaces, a bar and the rest. */
  ghost predicate IsNumberedLine(line: string, lead: string, digits: string, gap: string, rest: string) {
    && line == lead + digits + gap + ['|'] + rest
    && AllSpaces(lead) && digits != [] && AllDigits(digits) && AllSpaces(gap)
  }

  /** Every line of this form reads as the number of its digits. */
  lemma NumberedLineReads(line: string, lead: string, digits: string, gap: string, rest: string)
    requires IsNumberedLine(line, lead, digits, gap, rest)
    ensures ParseNumber(line) == Some(DecimalValue(digits))
  {
    hide DecimalValue;
    var k, e := |lead|, |lead| + |digits|;
    var b := e + |gap|;
    assert forall j :: 0 <= j < k ==> line[j] == lead[j];
    assert forall j :: k <= j < e ==> line[j] == digits[j - k];
    assert forall j :: e <= j < b ==> line[j] == gap[j - e];
    assert line[b] == '|';
    SkipsTo(line, 0, k, e, b);
    assert line[k..e] == digits;
  }

  lemma SkipsTo(line: string, from: nat, k: nat, e: nat, b: nat)
    requires from <= k < e <= b < |line| && line[b] == '|'
    requires forall j :: from <= j < k ==> IsWhiteSpace(line[j])
    requires forall j :: k <= j < e ==> IsDigit(line[j])
    requires forall j :: e <= j < b ==> IsWhiteSpace(line[j])
    ensures SkipSpaces(line, from) == k && SkipDigits(line, k) == e && SkipSpaces(line, e) == b
  {
    assert IsDigit(line[k]) && !IsWhiteSpace(line[k]) && !IsWhiteSpace(line[b]) && !IsDigit(line[b]);
    assert e < b ==> !IsDigit(line[e]);
  }

  /** And no other line reads as a number. */
  lemma OnlyNumberedLinesRead(line: string) returns (lead: string, digits: string, gap: string, rest: string)
    requires ParseNumber(line).Some?
    ensures IsNumberedLine(line, lead, digits, gap, rest)
  {
    var k := SkipSpaces(line, 0);
    var e := SkipDigits(line, k);
    var b := SkipSpaces(line, e);
    lead, digits, gap, rest := line[..k], line[k..e], line[e..b], line[b + 1..];
    hide IsDigit, IsWhiteSpace;
    assert forall i :: 0 <= i < |digits| ==> digits[i] == line[k + i];
    assert forall i :: 0 <= i < |gap| ==> gap[i] == line[e + i];
    FourParts(line, k, e, b);
  }

  lemma FourParts(line: string, k: nat, e: nat, b: nat)
    requires k <= e <= b < |line| && line[b] == '|'
    ensures line == line[..k] + line[k..e] + line[e..b] + ['|'] + line[b + 1..]
  {
    assert line[b..] == ['|'] + line[b + 1..];
  }

  function Max(a: nat, b: nat): nat {
    if a >= b then a else b
  }

  /** The highest number on any of the lines, 0 if there is none. */
  function HighestNumber(lines: seq<string>): nat {
    if lines == [] then 0
    else
      var n := ParseNumber(lines[|lines| - 1]);
      Max(HighestNumber(lines[..|lines| - 1]), if n.Some? then n.value else 0)
  }

  method MaxLineNumber(combinedContent: string) returns (max: nat)
    ensures max == HighestNumber(Lines(combinedContent))
  {
    max := 0;
    var lines := Lines(combinedContent);
    for i := 0 to |lines|
      invariant max == HighestNumber(lines[..i])
    {
      assert lines[..i + 1][..i] == lines[..i];
      var n := ParseNumber(lines[i]);
      if n.Some? {
        if n.value > max {
          max := n.value;
        }
      }
    }
    assert lines[..|lines|] == lines;
  }

  // ----- The parser inverts the printer -----

  /** Spaces, digits, a space and a bar read as the number. */
  lemma ParseAt(s: string, k: nat, digits: string)
    requires digits != [] && AllDigits(digits) && |s| >= k + |digits| + 2
    requires forall j :: 0 <= j < k ==> s[j] == ' '
    requires s[k..k + |digits|] == digits && forall j :: k <= j < k + |digits| ==> s[j] == digits[j - k]
    requires s[k + |digits|] == ' ' && s[k + |digits| + 1] == '|'
    ensures ParseNumber(s) == Some(DecimalValue(digits))
  {
    hide DecimalValue;
    assert IsDigit(s[k]) && !IsWhiteSpace(s[k]);
    assert SkipSpaces(s, 0) == k;
    assert SkipDigits(s, k) == k + |digits|;
    assert SkipSpaces(s, k + |digits|) == k + |digits| + 1;
  }

  lemma ParseNumbered(i: nat, width: nat, line: string)
    ensures ParseNumber(NumberedLine(i, width, line)) == Some(i + 1)
  {
    hide NumberedLine, ParseNumber;
    var k := |PadStart(ToDecimal(i + 1), width)| - |ToDecimal(i + 1)|;
    ToDecimalReads(i + 1);
    PaddedAt(i, width, line, k);
    ParseAt(NumberedLine(i, width, line), k, ToDecimal(i + 1));
  }

  lemma PaddedAt(i: nat, width: nat, line: string, k: int)
    requires k == |PadStart(ToDecimal(i + 1), width)| - |ToDecimal(i + 1)|
    ensures var digits, s := ToDecimal(i + 1), NumberedLine(i, width, line);
      && k >= 0 && |s| >= k + |digits| + 3
      && (forall j :: 0 <= j < k ==> s[j] == ' ')
      && s[k..k + |digits|] == digits && (forall j :: k <= j < k + |digits| ==> s[j] == digits[j - k])
      && s[k + |digits|] == ' ' && s[k + |digits| + 1] == '|'
  {}

  /** A header cannot be taken for a numbered line, and neither can an empty line. */
  lemma UnnumberedLines(file: string)
    ensures ParseNumber(Header(file)) == None && ParseNumber([]) == None
  {
    assert Header(file)[0] == '-';
  }

  lemma {:induction false} HighestOfConcat(a: seq<string>, b: seq<string>)
    ensures HighestNumber(a + b) == Max(HighestNumber(a), HighestNumber(b))
    decreases |b|
  {
    if b == [] {
      assert a + b == a;
    } else {
      HighestOfConcat(a, b[..|b| - 1]);
      assert (a + b)[..|a + b| - 1] == a + b[..|b| - 1];
    }
  }

  /** The first `n` numbered lines. */
  lemma {:induction false} HighestOfNumbered(lines: seq<string>, width: nat, n: nat)
    requires n <= |lines|
    ensures HighestNumber(seq(n, i requires 0 <= i < n => NumberedLine(i, width, lines[i]))) == n
  {
    var numbered := seq(n, i requires 0 <= i < n => NumberedLine(i, width, lines[i]));
    if n > 0 {
      HighestOfNumbered(lines, width, n - 1);
      assert numbered[..n - 1] == seq(n - 1, i requires 0 <= i < n - 1 => NumberedLine(i, width, lines[i]));
      ParseNumbered(n - 1, width, lines[n - 1]);
    }
  }

  lemma {:induction false} LinesHaveNoBreak(content: string)
    ensures forall i :: 0 <= i < |Lines(content)| ==> '\n' !in Lines(content)[i]
  {
    SplitJoin(content, '\n');
  }

  lemma DigitsHaveNoBreak(n: nat)
    ensures '\n' !in ToDecimal(n)
  {
    ToDecimalReads(n);
  }

  lemma NumberedHasNoBreak(i: nat, width: nat, line: string)
    requires '\n' !in line
    ensures '\n' !in NumberedLine(i, width, line)
  {
    DigitsHaveNoBreak(i + 1);
  }

  /** The text of a slice splits back into its numbered lines. */
  lemma LinesOfNumbered(content: string)
    ensures Lines(NumberLines(content)) == NumberedLines(Lines(content))
  {
    var lines, numbered := Lines(content), NumberedLines(Lines(content));
    LinesHaveNoBreak(content);
    forall i | 0 <= i < |numbered|
      ensures '\n' !in numbered[i]
    {
      NumberedHasNoBreak(i, |ToDecimal(|lines|)|, lines[i]);
    }
    JoinSplit(numbered, '\n');
  }

  lemma LinesOfSlice(s: SourceSlice)
    requires '\n' !in s.file
    ensures Lines(FormatSlice(s)) == [Header(s.file), []] + NumberedLines(Lines(s.content))
  {
    hide Split, NumberLines, NumberedLines;
    LinesOfNumbered(s.content);
    SplitFirst(Header(s.file), ['\n'] + NumberLines(s.content), '\n');
    SplitFirst([], NumberLines(s.content), '\n');
    assert [] + ['\n'] + NumberLines(s.content) == ['\n'] + NumberLines(s.content);
  }

  /** The highest number of a slice is its line count. */
  lemma HighestOfSlice(s: SourceSlice)
    requires '\n' !in s.file
    ensures HighestNumber(Lines(FormatSlice(s))) == |Lines(s.content)|
  {
    var lines := Lines(s.content);
    LinesOfSlice(s);
    HighestOfConcat([Header(s.file), []], NumberedLines(lines));
    HighestOfNumbered(lines, |ToDecimal(|lines|)|, |lines|);
    UnnumberedLines(s.file);
    assert [Header(s.file), []][..1] == [Header(s.file)] && [Header(s.file)][..0] == [];
    assert HighestNumber([Header(s.file)]) == 0 by {
      assert HighestNumber([]) == 0;
    }
  }

  lemma NoNumber()
    ensures Lines([]) == [[]] && HighestNumber([[]]) == 0
  {
    UnnumberedLines([]);
    var blank: seq<string> := [[]];
    assert blank[..0] == [];
  }

  function LongestSlice(slices: seq<SourceSlice>): nat {
    if slices == [] then 0 else Max(|Lines(slices[0].content)|, LongestSlice(slices[1..]))
  }

  /** The parser finds the line count of the longest slice shown. */
  lemma {:induction false} HighestOfSlices(slices: seq<SourceSlice>)
    requires forall s :: s in slices ==> '\n' !in s.file
    ensures HighestNumber(Lines(FormatSlices(slices))) == LongestSlice(slices)
  {
    hide FormatSlice, ParseNumber;
    if slices == [] {
      UnnumberedLines([]);
      NoNumber();
    } else {
      HighestOfSlice(slices[0]);
      if |slices| > 1 {
        HighestOfSlices(slices[1..]);
        var rest := FormatSlices(slices[1..]);
        SplitConcat(FormatSlice(slices[0]), ['\n'] + rest, '\n');
        SplitFirst([], rest, '\n');
        assert [] + ['\n'] + rest == ['\n'] + rest;
        HighestOfConcat(Lines(FormatSlice(slices[0])), [[]] + Lines(rest));
        HighestOfConcat([[]], Lines(rest));
        UnnumberedLines([]);
        NoNumber();
      }
    }
  }

  lemma LinesWithMarker(kept: string, marker: string)
    requires '\n' !in marker
    ensures |Lines(kept + (['\n', '\n'] + marker))| == |Lines(kept)| + 2
  {
    SplitConcat(kept, ['\n'] + marker, '\n');
    assert kept + (['\n', '\n'] + marker) == kept + ['\n'] + (['\n'] + marker);
    assert ['\n'] + marker == [] + ['\n'] + marker;
    SplitFirst([], marker, '\n');
    SplitFirst(marker, [], '\n');
  }

  lemma MarkerText()
    ensures TRUNCATION_MARKER == ['\n', '\n'] + MARKER_LINE && '\n' !in MARKER_LINE
  {}

  /** A clipped slice shows the lines of its kept text and two more, the marker's. */
  lemma ClippedLines(s: SourceSlice, perSource: nat)
    ensures |Lines(Clip(s, perSource).content)| ==
      if |s.content| > perSource then |Lines(s.content[..perSource])| + 2 else |Lines(s.content)|
  {
    MarkerText();
    var marker := MARKER_LINE;
    assert Clip(s, perSource).content ==
      if |s.content| > perSource then s.content[..perSource] + (['\n', '\n'] + marker) else s.content;
    if |s.content| > perSource {
      LinesWithMarker(s.content[..perSource], marker);
    }
  }
}
