/**
 Repairing citation entries that are bare line numbers, checked against the numbered
 text the prompt showed.
 */
module Citations {
  import opened LineNumbers
  import opened Options
  import opened Strings

  // ----- Normalizing one entry -----

  function TrimEnd(s: string): string {
    if s != [] && IsWhiteSpace(s[|s| - 1]) then TrimEnd(s[..|s| - 1]) else s
  }

  function Trim(s: string): string {
    TrimEnd(s[SkipSpaces(s, 0)..])
  }

  predicate IsNumber(s: string) {
    s != [] && AllDigits(s)
  }

  /** A number, or two with a hyphen between them. */
  predicate IsSegment(s: string) {
    var parts := Split(s, '-');
    |parts| <= 2 && forall i :: 0 <= i < |parts| ==> IsNumber(parts[i])
  }

  /** A trimmed entry of comma-separated segments: no file name at all. */
  predicate IsBareLineRange(entry: string) {
    var parts := Split(entry, ',');
    forall i :: 0 <= i < |parts| ==> IsSegment(Trim(parts[i]))
  }

  predicate SegmentIsValid(segment: string, maxLine: nat)
    requires IsSegment(segment)
  {
    var parts := Split(segment, '-');
    if |parts| == 2 then 1 <= DecimalValue(parts[0]) <= DecimalValue(parts[1]) <= maxLine
    else 1 <= DecimalValue(parts[0]) <= maxLine
  }

  predicate RangeIsValid(entry: string, maxLine: nat)
    requires IsBareLineRange(entry)
  {
    var parts := Split(entry, ',');
    forall i :: 0 <= i < |parts| ==> SegmentIsValid(Trim(parts[i]), maxLine)
  }

  function BeforeMark(s: string): string {
    if s == [] || s[0] == ':' || s[0] == '#' then [] else [s[0]] + BeforeMark(s[1..])
  }

  /** The entry as it stays in the marker, or none if it is dropped. */
  function NormalizeEntry(entry: string, sourceFiles: seq<string>, maxLine: nat): Option<string> {
    var trimmed := Trim(entry);
    if trimmed == [] then None
    else if Trim(BeforeMark(trimmed)) in sourceFiles then Some(trimmed)
    else if IsBareLineRange(trimmed) then
      if |sourceFiles| == 1 && RangeIsValid(trimmed, maxLine) then Some(sourceFiles[0] + [':'] + trimmed) else None
    else Some(trimmed)
  }

  // ----- Bare entries as a writer means them -----

  /** A line or a range of lines, each number in digits with any leading zeros. */
  datatype Segment = One(line: string) | Range(first: string, last: string)

  predicate InNumbers(s: Segment) {
    match s
    case One(line) => IsNumber(line)
    case Range(first, last) => IsNumber(first) && IsNumber(last)
  }

  function SegmentText(s: Segment): string {
    match s
    case One(line) => line
    case Range(first, last) => first + ['-'] + last
  }

  predicate Within(s: Segment, maxLine: nat)
    requires InNumbers(s)
  {
    match s
    case One(line) => 1 <= DecimalValue(line) <= maxLine
    case Range(first, last) => 1 <= DecimalValue(first) <= DecimalValue(last) <= maxLine
  }

  /** A segment with the spaces around it. */
  datatype Item = Item(before: string, segment: Segment, after: string)

  predicate IsItem(x: Item) {
    AllSpaces(x.before) && AllSpaces(x.after) && InNumbers(x.segment)
  }

  function ItemText(x: Item): string {
    x.before + SegmentText(x.segment) + x.after
  }

  function ItemTexts(items: seq<Item>): (texts: seq<string>)
    ensures |texts| == |items|
  {
    seq(|items|, i requires 0 <= i < |items| => ItemText(items[i]))
  }

  /** The items with commas between them. */
  function EntryText(items: seq<Item>): string {
    Join(ItemTexts(items), ',')
  }

  predicate AreItems(items: seq<Item>) {
    forall i :: 0 <= i < |items| ==> IsItem(items[i])
  }

  predicate AllWithin(items: seq<Item>, maxLine: nat)
    requires AreItems(items)
  {
    forall i :: 0 <= i < |items| ==> IsItem(items[i]) && Within(items[i].segment, maxLine)
  }

  /** Line numbers and ranges with any spaces around the commas, none at the ends. */
  predicate IsEntry(items: seq<Item>) {
    items != [] && AreItems(items) && items[0].before == [] && items[|items| - 1].after == []
  }

  /** A bare entry as it stands between the brackets, with any spaces around it. */
  predicate IsRawEntry(raw: string, lead: string, items: seq<Item>, trail: string) {
    AllSpaces(lead) && AllSpaces(trail) && IsEntry(items) && raw == lead + EntryText(items) + trail
  }

  // ----- Reading them back -----

  lemma SegmentReads(s: Segment, maxLine: nat)
    requires InNumbers(s)
    ensures IsSegment(SegmentText(s)) && (SegmentIsValid(SegmentText(s), maxLine) <==> Within(s, maxLine))
  {
    match s
    case One(line) => SplitFirst(line, [], '-');
    case Range(first, last) =>
      SplitFirst(first, last, '-');
      SplitFirst(last, [], '-');
  }

  /** Digits and hyphens, with a digit at either end. */
  predicate Solid(s: string) {
    && s != [] && IsDigit(s[0]) && IsDigit(s[|s| - 1])
    && forall i :: 0 <= i < |s| ==> IsDigit(s[i]) || s[i] == '-'
  }

  lemma SegmentSolid(s: Segment)
    requires InNumbers(s)
    ensures Solid(SegmentText(s))
  {}

  lemma {:induction false} TrimEndPadded(s: string, gap: string)
    requires AllSpaces(gap) && s != [] && !IsWhiteSpace(s[|s| - 1])
    ensures TrimEnd(s + gap) == s
    decreases |gap|
  {
    if gap == [] {
      assert s + gap == s;
    } else {
      assert (s + gap)[..|s + gap| - 1] == s + gap[..|gap| - 1];
      TrimEndPadded(s, gap[..|gap| - 1]);
    }
  }

  lemma TrimPadded(before: string, s: string, after: string)
    requires AllSpaces(before) && AllSpaces(after)
    requires s != [] && !IsWhiteSpace(s[0]) && !IsWhiteSpace(s[|s| - 1])
    ensures Trim(before + s + after) == s
  {
    var t := before + s + after;
    assert t[|before|] == s[0];
    assert SkipSpaces(t, 0) == |before|;
    assert t[|before|..] == s + after;
    TrimEndPadded(s, after);
  }

  predicate NoMarkIn(s: string) {
    forall i :: 0 <= i < |s| ==> s[i] != ':' && s[i] != '#'
  }

  lemma ItemReads(x: Item)
    requires IsItem(x)
    ensures Trim(ItemText(x)) == SegmentText(x.segment) && ',' !in ItemText(x)
    ensures ItemText(x) != [] && NoMarkIn(ItemText(x))
  {
    SegmentSolid(x.segment);
    TrimPadded(x.before, SegmentText(x.segment), x.after);
  }

  lemma EntryReads(items: seq<Item>, maxLine: nat)
    requires items != [] && AreItems(items)
    ensures IsBareLineRange(EntryText(items))
    ensures RangeIsValid(EntryText(items), maxLine) <==> AllWithin(items, maxLine)
  {
    hide Trim, IsSegment, SegmentIsValid, SegmentText, ItemText, InNumbers, Within, AllSpaces;
    forall i | 0 <= i < |items|
      ensures Trim(ItemTexts(items)[i]) == SegmentText(items[i].segment) && ',' !in ItemTexts(items)[i]
      ensures IsSegment(SegmentText(items[i].segment))
      ensures SegmentIsValid(SegmentText(items[i].segment), maxLine) <==> Within(items[i].segment, maxLine)
    {
      ItemReads(items[i]);
      SegmentReads(items[i].segment, maxLine);
    }
    JoinSplit(ItemTexts(items), ',');
    hide Split, Join;
  }

  /** The ends of joined texts, and what none of them has. */
  lemma {:induction false} JoinEnds(texts: seq<string>, c: char)
    requires texts != [] && c != ':' && c != '#'
    requires forall k :: 0 <= k < |texts| ==> texts[k] != [] && NoMarkIn(texts[k])
    ensures var s, last := Join(texts, c), texts[|texts| - 1];
      s != [] && s[0] == texts[0][0] && s[|s| - 1] == last[|last| - 1] && NoMarkIn(s)
  {
    if |texts| > 1 {
      JoinEnds(texts[1..], c);
    }
  }

  /** An entry starts and ends with a digit and names no file. */
  lemma EntrySolid(items: seq<Item>)
    requires IsEntry(items)
    ensures var s := EntryText(items);
      s != [] && IsDigit(s[0]) && IsDigit(s[|s| - 1]) && NoMarkIn(s)
  {
    hide Join, NoMarkIn, ItemText, AllSpaces, InNumbers;
    var texts := ItemTexts(items);
    forall k | 0 <= k < |items|
      ensures texts[k] != [] && NoMarkIn(texts[k])
    {
      ItemReads(items[k]);
    }
    JoinEnds(texts, ',');
    ItemDigits(items[0]);
    ItemDigits(items[|items| - 1]);
  }

  lemma ItemDigits(x: Item)
    requires IsItem(x)
    ensures ItemText(x) != []
    ensures x.before == [] ==> IsDigit(ItemText(x)[0])
    ensures x.after == [] ==> IsDigit(ItemText(x)[|ItemText(x)| - 1])
  {
    SegmentSolid(x.segment);
    hide InNumbers, SegmentText;
  }

  lemma {:induction false} NoMark(s: string)
    requires NoMarkIn(s)
    ensures BeforeMark(s) == s
  {
    if s != [] {
      NoMark(s[1..]);
    }
  }

  // ----- The grammar is complete -----

  lemma {:induction false} TrimEndSplit(s: string) returns (after: string)
    ensures s == TrimEnd(s) + after && AllSpaces(after)
    ensures TrimEnd(s) != [] ==> !IsWhiteSpace(TrimEnd(s)[|TrimEnd(s)| - 1])
  {
    if s != [] && IsWhiteSpace(s[|s| - 1]) {
      after := TrimEndSplit(s[..|s| - 1]);
      after := after + [s[|s| - 1]];
    } else {
      after := [];
    }
  }

  /** A text is what is left of it after trimming, with spaces on both sides. */
  lemma TrimSplit(s: string) returns (before: string, after: string)
    ensures s == before + Trim(s) + after && AllSpaces(before) && AllSpaces(after)
    ensures Trim(s) != [] ==> !IsWhiteSpace(Trim(s)[0]) && !IsWhiteSpace(Trim(s)[|Trim(s)| - 1])
  {
    var k := SkipSpaces(s, 0);
    before := s[..k];
    after := TrimEndSplit(s[k..]);
    var text := TrimEnd(s[k..]);
    hide TrimEnd, SkipSpaces, IsWhiteSpace;
    ThreeParts(s, k, text, after);
    assert text != [] ==> text[0] == s[k..][0];
  }

  lemma ThreeParts(s: string, k: nat, text: string, after: string)
    requires k <= |s| && s[k..] == text + after
    ensures s == s[..k] + text + after
  {
    assert s == s[..k] + s[k..];
  }

  lemma SegmentOf(text: string) returns (s: Segment)
    requires IsSegment(text)
    ensures InNumbers(s) && SegmentText(s) == text
  {
    var parts := Split(text, '-');
    SplitJoin(text, '-');
    if |parts| == 1 {
      s := One(parts[0]);
    } else {
      s := Range(parts[0], parts[1]);
      assert parts[1..] == [parts[1]];
    }
  }

  lemma ItemOf(part: string) returns (x: Item)
    requires IsSegment(Trim(part))
    ensures IsItem(x) && ItemText(x) == part
  {
    var before, after := TrimSplit(part);
    var s := SegmentOf(Trim(part));
    x := Item(before, s, after);
  }

  lemma {:induction false} ItemsOf(parts: seq<string>) returns (items: seq<Item>)
    requires forall i :: 0 <= i < |parts| ==> IsSegment(Trim(parts[i]))
    ensures AreItems(items) && ItemTexts(items) == parts
  {
    hide IsSegment, Trim, IsItem, ItemText;
    if parts == [] {
      items := [];
    } else {
      var init := ItemsOf(parts[..|parts| - 1]);
      var last := ItemOf(parts[|parts| - 1]);
      items := init + [last];
      assert parts == parts[..|parts| - 1] + [parts[|parts| - 1]];
    }
  }

  /** Every trimmed entry that the pattern takes for a bare line range is one of these. */
  lemma BareIsEntry(raw: string) returns (lead: string, items: seq<Item>, trail: string)
    requires IsBareLineRange(Trim(raw))
    ensures IsRawEntry(raw, lead, items, trail)
  {
    hide IsSegment, Split, Join;
    var entry := Trim(raw);
    lead, trail := TrimSplit(raw);
    items := ItemsOf(Split(entry, ','));
    SplitJoin(entry, ',');
    EntryEnds(items, entry);
  }

  lemma EntryEnds(items: seq<Item>, entry: string)
    requires items != [] && AreItems(items) && entry == EntryText(items)
    requires entry != [] ==> !IsWhiteSpace(entry[0]) && !IsWhiteSpace(entry[|entry| - 1])
    ensures IsEntry(items)
  {
    hide Join, NoMarkIn, ItemText, AllSpaces, InNumbers, IsWhiteSpace, IsItem;
    var texts, last := ItemTexts(items), items[|items| - 1];
    forall k | 0 <= k < |items|
      ensures texts[k] != [] && NoMarkIn(texts[k])
    {
      ItemReads(items[k]);
    }
    JoinEnds(texts, ',');
    ItemEnds(items[0]);
    ItemEnds(last);
  }

  lemma ItemEnds(x: Item)
    requires IsItem(x) && ItemText(x) != []
    ensures x.before != [] ==> IsWhiteSpace(ItemText(x)[0])
    ensures x.after != [] ==> IsWhiteSpace(ItemText(x)[|ItemText(x)| - 1])
  {}

  // ----- What becomes of a bare entry -----

  lemma RawEntryTrims(raw: string, lead: string, items: seq<Item>, trail: string)
    requires IsRawEntry(raw, lead, items, trail)
    ensures Trim(raw) == EntryText(items) && EntryText(items) != []
    ensures Trim(BeforeMark(EntryText(items))) == EntryText(items)
  {
    hide EntryText, Trim, IsEntry;
    var entry := EntryText(items);
    EntrySolid(items);
    NoMark(entry);
    TrimPadded(lead, entry, trail);
    TrimPadded([], entry, []);
    assert [] + entry + [] == entry;
  }

  /** A bare entry on a page with one source survives exactly when all its segments lie within the lines. */
  lemma BareEntrySurvivesIff(raw: string, lead: string, items: seq<Item>, trail: string, file: string, maxLine: nat)
    requires IsRawEntry(raw, lead, items, trail) && !IsBareLineRange(file)
    ensures NormalizeEntry(raw, [file], maxLine) ==
      if AllWithin(items, maxLine) then Some(file + [':'] + EntryText(items)) else None
  {
    RawEntryTrims(raw, lead, items, trail);
    EntryReads(items, maxLine);
    hide IsBareLineRange, RangeIsValid, Trim, EntryText, BeforeMark, AllWithin;
  }

  /** On a page with several sources, or none, a bare entry is always dropped. */
  lemma BareEntryIsAmbiguous(raw: string, lead: string, items: seq<Item>, trail: string, files: seq<string>, maxLine: nat)
    requires IsRawEntry(raw, lead, items, trail) && |files| != 1
    requires forall f :: f in files ==> !IsBareLineRange(f)
    ensures NormalizeEntry(raw, files, maxLine) == None
  {
    RawEntryTrims(raw, lead, items, trail);
    EntryReads(items, maxLine);
    hide IsBareLineRange, RangeIsValid, Trim, EntryText, BeforeMark;
  }

  // ----- Entries that name a file -----

  predicate SolidEnds(s: string) {
    s != [] && !IsWhiteSpace(s[0]) && !IsWhiteSpace(s[|s| - 1])
  }

  /** What follows the file of an entry: nothing, or spaces and then a mark. */
  predicate IsPlace(place: string, gap: string) {
    && AllSpaces(gap) && gap <= place
    && (place != [] ==>
      |gap| < |place| && (place[|gap|] == ':' || place[|gap|] == '#') && !IsWhiteSpace(place[|place| - 1]))
  }

  /** The text is a list of segments with spaces around its commas. */
  ghost predicate IsBareEntry(entry: string) {
    exists items :: IsEntry(items) && EntryText(items) == entry
  }

  /** The text before the first mark. */
  lemma {:induction false} BeforeMarkIs(file: string, place: string)
    requires NoMarkIn(file) && (place != [] ==> place[0] == ':' || place[0] == '#')
    ensures BeforeMark(file + place) == file
  {
    if file == [] {
      assert file + place == place;
    } else {
      BeforeMarkIs(file[1..], place);
      assert (file + place)[1..] == file[1..] + place;
    }
  }

  /** An entry for a source stays as it is, whatever lines it gives. */
  lemma SourceEntryStays(lead: string, file: string, place: string, gap: string, trail: string,
                         files: seq<string>, maxLine: nat)
    requires AllSpaces(lead) && AllSpaces(trail) && IsPlace(place, gap)
    requires SolidEnds(file) && NoMarkIn(file) && file in files
    ensures NormalizeEntry(lead + file + place + trail, files, maxLine) == Some(file + place)
  {
    var entry := file + place;
    assert lead + file + place + trail == lead + entry + trail;
    assert SolidEnds(entry);
    TrimPadded(lead, entry, trail);
    var front := file + gap;
    assert NoMarkIn(front) by {
      assert forall i :: 0 <= i < |gap| ==> gap[i] != ':' && gap[i] != '#';
    }
    assert place == gap + place[|gap|..];
    assert entry == front + place[|gap|..];
    BeforeMarkIs(front, place[|gap|..]);
    TrimPadded([], file, gap);
    assert [] + file + gap == front;
    hide Trim, BeforeMark, IsBareLineRange, RangeIsValid;
  }

  /** An entry that is no list of segments stays as it is, whether or not it names a source. */
  lemma OtherEntryStays(lead: string, entry: string, trail: string, files: seq<string>, maxLine: nat)
    requires AllSpaces(lead) && AllSpaces(trail) && SolidEnds(entry) && !IsBareEntry(entry)
    ensures NormalizeEntry(lead + entry + trail, files, maxLine) == Some(entry)
  {
    TrimPadded(lead, entry, trail);
    TrimPadded([], entry, []);
    assert [] + entry + [] == entry;
    if IsBareLineRange(entry) {
      IsBare(entry);
    }
    hide Trim, BeforeMark, IsBareLineRange, RangeIsValid, IsBareEntry;
  }

  lemma IsBare(entry: string)
    requires IsBareLineRange(entry) && Trim(entry) == entry
    ensures IsBareEntry(entry)
  {
    hide Trim, IsBareLineRange, EntryText, IsEntry;
    var lead, items, trail := BareIsEntry(entry);
    RawEntryTrims(entry, lead, items, trail);
  }

  /** A blank entry is dropped. */
  lemma BlankEntryIsDropped(raw: string, files: seq<string>, maxLine: nat)
    requires AllSpaces(raw)
    ensures NormalizeEntry(raw, files, maxLine) == None
  {
    if Trim(raw) != [] {
      TrimmedIsNotBlank(raw);
    }
  }

  lemma TrimmedIsNotBlank(raw: string)
    requires Trim(raw) != []
    ensures !AllSpaces(raw)
  {
    var before, after := TrimSplit(raw);
    assert raw[|before|] == Trim(raw)[0];
  }

  // ----- Against the text that the prompt showed -----

  /** How many lines of a single source the prompt shows under a budget. */
  function ShownLines(s: SourceSlice, budget: nat): nat {
    |Lines(Shown([s], budget)[0].content)|
  }

  lemma HighestShown(s: SourceSlice, budget: nat)
    requires '\n' !in s.file
    ensures HighestNumber(Lines(BuildBudgetedCombinedContent([s], budget))) == ShownLines(s, budget)
  {
    HighestOfSlice(Shown([s], budget)[0]);
    assert Shown([s], budget) == [Shown([s], budget)[0]];
  }

  /** A bare citation of a single source survives exactly when all its segments lie within the lines that were shown. */
  lemma CitationSurvivesIffShown(raw: string, lead: string, items: seq<Item>, trail: string, s: SourceSlice, budget: nat)
    requires IsRawEntry(raw, lead, items, trail) && !IsBareLineRange(s.file) && '\n' !in s.file
    ensures var maxLine := HighestNumber(Lines(BuildBudgetedCombinedContent([s], budget)));
      NormalizeEntry(raw, [s.file], maxLine) ==
        if AllWithin(items, ShownLines(s, budget)) then Some(s.file + [':'] + EntryText(items)) else None
  {
    HighestShown(s, budget);
    BareEntrySurvivesIff(raw, lead, items, trail, s.file, ShownLines(s, budget));
  }

  /**
   A line of the source is citable under the budget exactly when it was shown; when the source was clipped, the two lines
   of the marker are citable as well, whether or not the source has them.
   */
  lemma CitableLines(s: SourceSlice, budget: nat)
    requires budget > 0
    ensures ShownLines(s, budget) ==
      if |s.content| <= budget then |Lines(s.content)|
      else |Lines(s.content[..budget])| + 2
  {
    assert TotalLength([s]) == |s.content| by {
      assert [s][1..] == [];
    }
    if |s.content| > budget {
      assert budget / 1 == budget;
      ClippedLines(s, budget);
    }
  }
}
