/**
 Reading a combined prompt text back: under each header the numbered lines, without their
 numbers, are the text of one source.
 */
module PromptReading {
  import opened LineNumbers
  import opened Strings

  // ----- The reader -----

  predicate IsNumbered(line: string) {
    ParseNumber(line).Some?
  }

  /** The text behind the first bar and the space after it. */
  function BehindBar(line: string): string {
    if line == [] then []
    else if line[0] == '|' then (if |line| > 1 then line[2..] else [])
    else BehindBar(line[1..])
  }

  /** How many lines at the front are numbered. */
  function NumberedRun(lines: seq<string>): (n: nat)
    ensures n <= |lines|
  {
    if lines == [] || !IsNumbered(lines[0]) then 0 else 1 + NumberedRun(lines[1..])
  }

  function Texts(lines: seq<string>): (r: seq<string>)
    ensures |r| == |lines|
  {
    seq(|lines|, i requires 0 <= i < |lines| => BehindBar(lines[i]))
  }

  const OPENING := "--- SOURCE: "
  const CLOSING := " ---"

  predicate IsHeader(line: string) {
    && |line| >= |OPENING| + |CLOSING|
    && line[..|OPENING|] == OPENING && line[|line| - |CLOSING|..] == CLOSING
  }

  function FileIn(header: string): string
    requires IsHeader(header)
  {
    header[|OPENING|..|header| - |CLOSING|]
  }

  /** The sources that the lines show: each header, a blank line and the numbered lines after it. */
  function ReadSlices(lines: seq<string>): seq<SourceSlice>
    decreases |lines|
  {
    if lines == [] then []
    else if IsHeader(lines[0]) && |lines| > 1 then
      var n := NumberedRun(lines[2..]);
      [SourceSlice(FileIn(lines[0]), Join(Texts(lines[2..2 + n]), '\n'))] + ReadSlices(lines[2 + n..])
    else ReadSlices(lines[1..])
  }

  // ----- It inverts the printer -----

  lemma HeaderReads(file: string)
    ensures IsHeader(Header(file)) && FileIn(Header(file)) == file
  {
    var h := Header(file);
    assert |h| == |OPENING| + |file| + |CLOSING|;
  }

  lemma {:induction false} BehindBarIs(front: string, text: string)
    requires '|' !in front
    ensures BehindBar(front + ['|', ' '] + text) == text
  {
    var line := front + ['|', ' '] + text;
    if front == [] {
      assert line[2..] == text;
    } else {
      BehindBarIs(front[1..], text);
      assert line[1..] == front[1..] + ['|', ' '] + text;
    }
  }

  lemma NumberedLineText(i: nat, width: nat, line: string)
    ensures IsNumbered(NumberedLine(i, width, line)) && BehindBar(NumberedLine(i, width, line)) == line
  {
    hide ParseNumber, PadStart, ToDecimal;
    ParseNumbered(i, width, line);
    NoBarInNumber(i + 1, width);
    var front := PadStart(ToDecimal(i + 1), width) + [' '];
    assert NumberedLine(i, width, line) == front + ['|', ' '] + line;
    BehindBarIs(front, line);
  }

  lemma NoBarInNumber(n: nat, width: nat)
    ensures '|' !in PadStart(ToDecimal(n), width)
  {
    ToDecimalReads(n);
  }

  /** The numbered lines of a text and the blank line behind it, if any, read as the text. */
  lemma NumberedRead(lines: seq<string>, rest: seq<string>)
    requires rest == [] || !IsNumbered(rest[0])
    ensures NumberedRun(NumberedLines(lines) + rest) == |lines|
    ensures Texts(NumberedLines(lines)) == lines
  {
    hide NumberedLine, IsNumbered, BehindBar;
    forall i | 0 <= i < |lines|
      ensures IsNumbered(NumberedLines(lines)[i]) && BehindBar(NumberedLines(lines)[i]) == lines[i]
    {
      NumberedLineText(i, |ToDecimal(|lines|)|, lines[i]);
    }
    RunThrough(NumberedLines(lines), rest);
  }

  lemma {:induction false} RunThrough(numbered: seq<string>, rest: seq<string>)
    requires forall i :: 0 <= i < |numbered| ==> IsNumbered(numbered[i])
    requires rest == [] || !IsNumbered(rest[0])
    ensures NumberedRun(numbered + rest) == |numbered|
  {
    hide IsNumbered;
    if numbered == [] {
      assert numbered + rest == rest;
    } else {
      RunThrough(numbered[1..], rest);
      assert (numbered + rest)[1..] == numbered[1..] + rest;
    }
  }

  /** The lines of the combined text. */
  function PromptLines(slices: seq<SourceSlice>): seq<string> {
    if slices == [] then []
    else
      [Header(slices[0].file), []] + NumberedLines(Lines(slices[0].content)) +
      if |slices| == 1 then [] else [[]] + PromptLines(slices[1..])
  }

  lemma {:induction false} LinesOfSlices(slices: seq<SourceSlice>)
    requires slices != [] && forall s :: s in slices ==> '\n' !in s.file
    ensures Lines(FormatSlices(slices)) == PromptLines(slices)
  {
    hide FormatSlice, NumberedLines, Split;
    LinesOfSlice(slices[0]);
    if |slices| == 1 {
      assert forall x: seq<string> :: x + [] == x;
    } else {
      LinesOfSlices(slices[1..]);
      var rest := FormatSlices(slices[1..]);
      SplitConcat(FormatSlice(slices[0]), ['\n'] + rest, '\n');
      SplitFirst([], rest, '\n');
      assert [] + ['\n'] + rest == ['\n'] + rest;
    }
  }

  lemma {:induction false} PromptLinesRead(slices: seq<SourceSlice>)
    ensures ReadSlices(PromptLines(slices)) == slices
  {
    hide Header, NumberedLines, IsHeader, FileIn, Join, Split;
    if slices != [] {
      var s, lines := slices[0], Lines(slices[0].content);
      var rest := if |slices| == 1 then [] else [[]] + PromptLines(slices[1..]);
      PromptLinesRead(slices[1..]);
      HeaderReads(s.file);
      BlankLine();
      NumberedRead(lines, rest);
      SplitJoin(s.content, '\n');
      SliceRead(s, rest);
      if |slices| > 1 {
        assert rest[1..] == PromptLines(slices[1..]);
      }
      assert slices == [s] + slices[1..];
    }
  }

  lemma BlankLine()
    ensures !IsNumbered([]) && !IsHeader([])
  {}

  lemma SliceRead(s: SourceSlice, rest: seq<string>)
    requires IsHeader(Header(s.file)) && FileIn(Header(s.file)) == s.file
    requires NumberedRun(NumberedLines(Lines(s.content)) + rest) == |Lines(s.content)|
    requires Texts(NumberedLines(Lines(s.content))) == Lines(s.content) && Join(Lines(s.content), '\n') == s.content
    ensures ReadSlices([Header(s.file), []] + NumberedLines(Lines(s.content)) + rest) == [s] + ReadSlices(rest)
  {
    hide Header, NumberedLines, IsHeader, FileIn, Join, Split, NumberedRun, Texts;
    var numbered := NumberedLines(Lines(s.content));
    var lines := [Header(s.file), []] + numbered + rest;
    assert lines[2..] == numbered + rest;
    assert lines[2..2 + |numbered|] == numbered;
    assert lines[2 + |numbered|..] == rest;
  }

  /** Main result: from the combined text every shown source is read back, its file and its text. */
  lemma PromptReadsBack(slices: seq<SourceSlice>, budget: nat)
    requires forall s :: s in slices ==> '\n' !in s.file
    ensures ReadSlices(Lines(BuildBudgetedCombinedContent(slices, budget))) == Shown(slices, budget)
  {
    var shown := Shown(slices, budget);
    forall s | s in shown
      ensures '\n' !in s.file
    {
      var i :| 0 <= i < |shown| && shown[i] == s;
      assert shown[i].file == slices[i].file;
    }
    if shown == [] {
      NothingRead();
    } else {
      LinesOfSlices(shown);
      PromptLinesRead(shown);
    }
  }

  lemma NothingRead()
    ensures Lines(FormatSlices([])) == [[]] && ReadSlices([[]]) == []
  {}
}
