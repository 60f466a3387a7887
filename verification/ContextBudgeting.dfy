/**
 The reported token estimate of a context pack. The pack's JSON text is measured as the
 text of its lists plus the text of its budget block, which holds the estimate's own digits.
 */
module ContextBudgeting {
  import opened ContextTrim
  import opened Options
  import opened Strings

  // ----- Measuring text -----

  function DigitCount(n: nat): nat {
    |ToDecimal(n)|
  }

  function SectionName(s: Section): string {
    match s
    case Neighbors => "neighbors"
    case SourceWindows => "sourceWindows"
    case Chunks => "chunks"
    case ContentTiers => "contentTiers"
    case PrimaryPages => "primary"
  }

  /** The section list between its brackets: quoted names, separated by commas. */
  function SectionsText(sections: seq<Section>): nat {
    if sections == [] then 0
    else
      SectionsText(sections[..|sections| - 1]) + |SectionName(sections[|sections| - 1])| + 2 +
      if |sections| > 1 then 1 else 0
  }

  function FlagText(b: bool): nat {
    if b then 4 else 5
  }

  function BudgetText(b: ContextBudget): nat {
    DigitCount(b.requestedTokens) + DigitCount(b.estimatedTokens) + FlagText(b.truncated) + SectionsText(b.trimmedSections)
  }

  /** The section names as JSON text. */
  function Quoted(sections: seq<Section>): (r: seq<string>)
    ensures |r| == |sections|
  {
    seq(|sections|, i requires 0 <= i < |sections| => QuotedName(sections[i]))
  }

  function QuotedName(s: Section): string {
    ['\"'] + SectionName(s) + ['\"']
  }

  /** The values of the budget block as JSON text. */
  function BudgetValues(b: ContextBudget): string {
    ToDecimal(b.requestedTokens) + ToDecimal(b.estimatedTokens) + (if b.truncated then "true" else "false") +
    Join(Quoted(b.trimmedSections), ',')
  }

  lemma {:induction false} JoinOneMore(parts: seq<string>, last: string, c: char)
    ensures |Join(parts + [last], c)| == |Join(parts, c)| + |last| + if parts == [] then 0 else 1
  {
    if parts == [] {
      assert parts + [last] == [last];
    } else {
      JoinOneMore(parts[1..], last, c);
      assert (parts + [last])[1..] == parts[1..] + [last];
    }
  }

  lemma {:induction false} SectionsTextIsLength(sections: seq<Section>)
    ensures SectionsText(sections) == |Join(Quoted(sections), ',')|
  {
    hide SectionName, QuotedName, Join;
    if sections == [] {
      NothingJoined();
    } else {
      var init, last := sections[..|sections| - 1], sections[|sections| - 1];
      SectionsTextIsLength(init);
      JoinOneMore(Quoted(init), QuotedName(last), ',');
      assert Quoted(sections) == Quoted(init) + [QuotedName(last)];
      QuotedLength(last);
    }
  }

  lemma NothingJoined()
    ensures Join([], ',') == []
  {}

  lemma QuotedLength(s: Section)
    ensures |QuotedName(s)| == |SectionName(s)| + 2
  {
    hide SectionName;
  }

  /** What the block adds to the text is the length of its values. */
  lemma BudgetTextIsLength(b: ContextBudget)
    ensures BudgetText(b) == |BudgetValues(b)|
  {
    SectionsTextIsLength(b.trimmedSections);
    hide Join, Quoted, ToDecimal, SectionsText;
  }

  /** The length of everything but the values of the budget block. */
  type Measure = (seq<Primary>, seq<Item>, string) -> nat

  function PackText(measure: Measure, p: Pack): nat {
    measure(p.primary, p.neighbors, p.rest) + BudgetText(p.budget)
  }

  /** A quarter of the length, rounded up. */
  function EstimateTokens(length: nat): nat {
    (length + 3) / 4
  }

  /** The least number of tokens that, at four characters each, hold the text. */
  lemma EstimateIsCeiling(length: nat)
    ensures length <= 4 * EstimateTokens(length) && forall t: nat :: length <= 4 * t ==> EstimateTokens(length) <= t
  {}

  function EstimatePackTokens(measure: Measure, p: Pack): nat {
    EstimateTokens(PackText(measure, p))
  }

  // ----- The graph-neighbor reason -----

  datatype Edge = Edge(source: string, target: string)

  predicate HasId(primary: seq<Primary>, id: string) {
    exists e :: e in primary && e.id == id
  }

  /** An edge between two ranked pages ends at `id`. */
  predicate ConnectedBy(edge: Edge, primary: seq<Primary>, id: string) {
    HasId(primary, edge.source) && HasId(primary, edge.target) && (id == edge.source || id == edge.target)
  }

  predicate Connected(edges: seq<Edge>, primary: seq<Primary>, id: string) {
    exists k :: 0 <= k < |edges| && ConnectedBy(edges[k], primary, id)
  }

  function AnnotatePage(e: Primary, connected: bool): Primary {
    if connected then e.(reasons := e.reasons + {GraphNeighbor}) else e
  }

  function Annotated(primary: seq<Primary>, edges: seq<Edge>): (r: seq<Primary>)
    ensures |r| == |primary|
  {
    if |primary| < 2 then primary
    else seq(|primary|, i requires 0 <= i < |primary| => AnnotatePage(primary[i], Connected(edges, primary, primary[i].id)))
  }

  /** The ids at an end of an edge between two ranked pages. */
  method ConnectedIds(primary: seq<Primary>, edges: seq<Edge>) returns (connected: set<string>)
    ensures forall id :: id in connected <==> Connected(edges, primary, id)
  {
    var primaryIds := set e | e in primary :: e.id;
    assert forall id :: id in primaryIds <==> HasId(primary, id);
    hide HasId;
    connected := {};
    for k := 0 to |edges|
      invariant forall id :: id in connected <==> exists j :: 0 <= j < k && ConnectedBy(edges[j], primary, id)
    {
      var edge := edges[k];
      if edge.source in primaryIds && edge.target in primaryIds {
        connected := connected + {edge.source, edge.target};
      }
    }
  }

  method AnnotateGraphNeighbors(primary: seq<Primary>, edges: seq<Edge>) returns (r: seq<Primary>)
    ensures r == Annotated(primary, edges)
  {
    hide Connected;
    if |primary| < 2 {
      return primary;
    }
    var connected := ConnectedIds(primary, edges);
    if connected == {} {
      assert Annotated(primary, edges) == primary;
      return primary;
    }
    r := seq(|primary|, i requires 0 <= i < |primary| => AnnotatePage(primary[i], primary[i].id in connected));
  }

  function Stripped(primary: seq<Primary>): (r: seq<Primary>)
    ensures |r| == |primary|
  {
    seq(|primary|, i requires 0 <= i < |primary| => primary[i].(reasons := primary[i].reasons - {GraphNeighbor}))
  }

  function ReconcileGraphNeighborReasons(p: Pack, graph: Option<seq<Edge>>): Pack {
    p.(primary := if graph.Some? then Annotated(Stripped(p.primary), graph.value) else Stripped(p.primary))
  }

  /** How a draft's pages got their reasons: none graph-derived but those of the annotation. */
  ghost predicate AnnotatedDraft(primary: seq<Primary>, graph: Option<seq<Edge>>) {
    exists ranked: seq<Primary> :: AnnotatedFrom(primary, ranked, graph)
  }

  predicate AnnotatedFrom(primary: seq<Primary>, ranked: seq<Primary>, graph: Option<seq<Edge>>) {
    && (forall e :: e in ranked ==> GraphNeighbor !in e.reasons)
    && primary == if graph.Some? then Annotated(ranked, graph.value) else ranked
  }

  lemma StrippedIds(primary: seq<Primary>, id: string)
    ensures HasId(Stripped(primary), id) <==> HasId(primary, id)
  {
    if e :| e in primary && e.id == id {
      var i :| 0 <= i < |primary| && primary[i] == e;
      assert Stripped(primary)[i] in Stripped(primary);
    }
    if e :| e in Stripped(primary) && e.id == id {
      var i :| 0 <= i < |primary| && Stripped(primary)[i] == e;
      assert primary[i] in primary;
    }
  }

  /** After reconciling, a page has the reason exactly when a graph edge links it to the kept pages. */
  lemma ReconciledExactly(p: Pack, graph: Option<seq<Edge>>, i: nat)
    requires i < |p.primary|
    ensures var e := ReconcileGraphNeighborReasons(p, graph).primary[i];
      && e == p.primary[i].(reasons := e.reasons)
      && e.reasons - {GraphNeighbor} == p.primary[i].reasons - {GraphNeighbor}
      && (GraphNeighbor in e.reasons <==>
          graph.Some? && |p.primary| >= 2 && Connected(graph.value, p.primary, p.primary[i].id))
  {
    if graph.Some? {
      forall k | 0 <= k < |graph.value|
        ensures ConnectedBy(graph.value[k], Stripped(p.primary), p.primary[i].id) <==>
          ConnectedBy(graph.value[k], p.primary, p.primary[i].id)
      {
        StrippedIds(p.primary, graph.value[k].source);
        StrippedIds(p.primary, graph.value[k].target);
      }
    }
  }

  /** Page by page, no reason of `qs` is missing from `ps`; nothing else differs. */
  ghost predicate FewerReasons(ps: seq<Primary>, qs: seq<Primary>) {
    |ps| == |qs| && forall i :: 0 <= i < |ps| ==> qs[i] == ps[i].(reasons := qs[i].reasons) && qs[i].reasons <= ps[i].reasons
  }

  /** Reconciling a cut of an annotated draft only drops reasons. */
  lemma ReconcileOnlyDrops(draft: Pack, p: Pack, graph: Option<seq<Edge>>)
    requires AnnotatedDraft(draft.primary, graph) && Cut(draft, p)
    ensures FewerReasons(p.primary, ReconcileGraphNeighborReasons(p, graph).primary)
  {
    hide InSectionOrder, InRankOrder, Stripped;
    var ranked: seq<Primary> :| AnnotatedFrom(draft.primary, ranked, graph);
    forall i | 0 <= i < |p.primary|
      ensures ReconcileGraphNeighborReasons(p, graph).primary[i].reasons <= p.primary[i].reasons
    {
      ReconciledExactly(p, graph, i);
      assert CutPage(draft.primary[i], p.primary[i]);
      if graph.Some? && |p.primary| >= 2 && Connected(graph.value, p.primary, p.primary[i].id) {
        CutStaysConnected(draft, p, ranked, graph.value, i);
      }
      var reasons := ReconcileGraphNeighborReasons(p, graph).primary[i].reasons;
      forall r | r in reasons
        ensures r in p.primary[i].reasons
      {
        if r != GraphNeighbor {
          assert r in reasons - {GraphNeighbor};
        }
      }
    }
    forall i | 0 <= i < |p.primary|
      ensures var e := ReconcileGraphNeighborReasons(p, graph).primary[i]; e == p.primary[i].(reasons := e.reasons)
    {
      ReconciledExactly(p, graph, i);
    }
  }

  lemma CutStaysConnected(draft: Pack, p: Pack, ranked: seq<Primary>, edges: seq<Edge>, i: nat)
    requires draft.primary == Annotated(ranked, edges) && Prefixes(draft, p) && i < |p.primary| && |p.primary| >= 2
    requires Connected(edges, p.primary, p.primary[i].id)
    ensures GraphNeighbor in p.primary[i].reasons
  {
    forall j | 0 <= j < |p.primary|
      ensures j < |ranked| && p.primary[j].id == ranked[j].id && p.primary[j].reasons == draft.primary[j].reasons
    {
      assert CutPage(draft.primary[j], p.primary[j]);
    }
    hide Prefixes, HasId;
    var k :| 0 <= k < |edges| && ConnectedBy(edges[k], p.primary, p.primary[i].id);
    CutIds(p.primary, ranked, edges[k].source);
    CutIds(p.primary, ranked, edges[k].target);
    assert ConnectedBy(edges[k], ranked, ranked[i].id);
  }

  lemma CutIds(cut: seq<Primary>, ranked: seq<Primary>, id: string)
    requires |cut| <= |ranked| && forall j :: 0 <= j < |cut| ==> cut[j].id == ranked[j].id
    ensures HasId(cut, id) ==> HasId(ranked, id)
  {
    if e :| e in cut && e.id == id {
      var j :| 0 <= j < |cut| && cut[j] == e;
      assert ranked[j] in ranked;
    }
  }

  // ----- The reported estimate -----

  function Fits(measure: Measure, requested: nat): Pack -> bool {
    p => EstimatePackTokens(measure, p) <= requested
  }

  /** The pack that is shipped and the sections that the trim reports, before its budget block is filled in. */
  function TrimmedDraft(draft: Pack, requested: nat, measure: Measure): (Pack, seq<Section>) {
    (Trimmed(draft, Fits(measure, requested)), StagesLost(draft, Fits(measure, requested)))
  }

  function WithEstimate(p: Pack, requested: nat, estimate: nat, truncated: bool, sections: seq<Section>): Pack {
    p.(budget := ContextBudget(requested, estimate, truncated, sections))
  }

  /** The second estimate, measured with the first one filled in. */
  function SecondEstimate(p: Pack, requested: nat, sections: seq<Section>, measure: Measure): nat {
    var trimmedAny := sections != [];
    var e1 := EstimatePackTokens(measure, WithEstimate(p, requested, 0, trimmedAny, sections));
    EstimatePackTokens(measure, WithEstimate(p, requested, e1, trimmedAny, sections))
  }

  function FinalizeBudget(draft: Pack, requested: nat, graph: Option<seq<Edge>>, measure: Measure): Pack {
    var (pack, sections) := TrimmedDraft(draft, requested, measure);
    var reconciled := ReconcileGraphNeighborReasons(pack, graph);
    var e2 := SecondEstimate(reconciled, requested, sections, measure);
    WithEstimate(reconciled, requested, e2, sections != [] || e2 > requested, sections)
  }

  // Digits grow by at most one when a number grows by at most nine times itself.

  lemma {:induction false} DigitsMonotone(m: nat, n: nat)
    requires m <= n
    ensures DigitCount(m) <= DigitCount(n)
    decreases n
  {
    if n >= 10 && m >= 10 {
      DigitsMonotone(m / 10, n / 10);
    }
  }

  lemma {:induction false} FewDigits(n: nat)
    requires n >= 1
    ensures DigitCount(n) <= n
    decreases n
  {
    if n >= 10 {
      FewDigits(n / 10);
    }
  }

  lemma DigitsGrowByOne(m: nat, n: nat)
    requires 1 <= m <= n <= 10 * m
    ensures DigitCount(m) <= DigitCount(n) <= DigitCount(m) + 1
  {
    DigitsMonotone(m, n);
    DigitsMonotone(n, 10 * m);
    assert 10 * m / 10 == m;
  }

  /** What the second pass measured: the first estimate's digits in place of the second's. */
  lemma SecondPass(length: nat)
    requires length >= 1
    ensures var e1 := EstimateTokens(length);
      var e2 := EstimateTokens(length - 1 + DigitCount(e1));
      e1 <= e2 && DigitCount(e1) <= DigitCount(e2) <= DigitCount(e1) + 1
  {
    var e1 := EstimateTokens(length);
    FewDigits(e1);
    DigitsGrowByOne(e1, EstimateTokens(length - 1 + DigitCount(e1)));
  }

  /**
   The text of the shipped pack is the measured one plus a digit the estimate may have gained, minus the character that
   `true` saves over `false` when only the estimate set the flag.
   */
  lemma ShippedText(p: Pack, requested: nat, sections: seq<Section>, measure: Measure)
    ensures var trimmedAny := sections != [];
      var e1 := EstimatePackTokens(measure, WithEstimate(p, requested, 0, trimmedAny, sections));
      var e2 := SecondEstimate(p, requested, sections, measure);
      var measured := PackText(measure, WithEstimate(p, requested, e1, trimmedAny, sections));
      var shipped := PackText(measure, WithEstimate(p, requested, e2, trimmedAny || e2 > requested, sections));
      && e2 == EstimateTokens(measured)
      && DigitCount(e1) <= DigitCount(e2) <= DigitCount(e1) + 1
      && shipped == measured + (DigitCount(e2) - DigitCount(e1)) - (if !trimmedAny && e2 > requested then 1 else 0)
  {
    SecondPass(PackText(measure, WithEstimate(p, requested, 0, sections != [], sections)));
  }

  /** The reported estimate is within one token of the shipped pack's. */
  lemma EstimateWithinOneToken(draft: Pack, requested: nat, graph: Option<seq<Edge>>, measure: Measure)
    ensures var shipped := FinalizeBudget(draft, requested, graph, measure);
      && shipped.budget.requestedTokens == requested
      && -1 <= shipped.budget.estimatedTokens - EstimatePackTokens(measure, shipped) <= 1
      && (shipped.budget.truncated <==> shipped.budget.trimmedSections != [] || shipped.budget.estimatedTokens > requested)
  {
    hide Trimmed, StagesLost, ReconcileGraphNeighborReasons, SecondEstimate, PackText;
    var (pack, sections) := TrimmedDraft(draft, requested, measure);
    ShippedText(ReconcileGraphNeighborReasons(pack, graph), requested, sections, measure);
  }

  /** The sections are listed in the documented order, each once. */
  predicate InDocumentedOrder(sections: seq<Section>) {
    forall i, j :: 0 <= i < j < |sections| ==> Rank(sections[i]) < Rank(sections[j])
  }

  /** The trimmed sections up to a rank, in order. */
  ghost predicate ListsUpTo(listed: seq<Section>, trimmed: set<Section>, rank: int) {
    && InDocumentedOrder(listed)
    && forall s :: s in listed <==> s in trimmed && Rank(s) <= rank
  }

  lemma ListsOneMore(listed: seq<Section>, trimmed: set<Section>, s: Section)
    requires ListsUpTo(listed, trimmed, Rank(s) - 1)
    ensures ListsUpTo(listed + IfTrimmed(trimmed, s), trimmed, Rank(s))
  {
    forall i | 0 <= i < |listed|
      ensures Rank(listed[i]) < Rank(s)
    {
      assert listed[i] in listed;
    }
    assert forall t :: Rank(t) == Rank(s) ==> t == s;
  }

  lemma OrderedMembers(trimmed: set<Section>)
    ensures InDocumentedOrder(OrderedSections(trimmed))
    ensures forall s :: s in OrderedSections(trimmed) <==> s in trimmed
  {
    var l1 := IfTrimmed(trimmed, Neighbors);
    var l2 := l1 + IfTrimmed(trimmed, SourceWindows);
    var l3 := l2 + IfTrimmed(trimmed, Chunks);
    var l4 := l3 + IfTrimmed(trimmed, ContentTiers);
    assert [] + l1 == l1;
    assert forall s :: Rank(s) <= 4;
    hide IfTrimmed;
    ListsOneMore([], trimmed, Neighbors);
    ListsOneMore(l1, trimmed, SourceWindows);
    ListsOneMore(l2, trimmed, Chunks);
    ListsOneMore(l3, trimmed, ContentTiers);
    ListsOneMore(l4, trimmed, PrimaryPages);
  }

  /** Reasons and the budget block do not count. */
  lemma {:induction false} SameItems(ps: seq<Primary>, qs: seq<Primary>, s: Section)
    requires |ps| == |qs| && forall i :: 0 <= i < |ps| ==> qs[i] == ps[i].(reasons := qs[i].reasons)
    ensures Sum(ps, (e: Primary) => |Items(e, s)|) == Sum(qs, (e: Primary) => |Items(e, s)|)
  {
    if ps != [] {
      SameItems(ps[..|ps| - 1], qs[..|qs| - 1], s);
    }
  }

  lemma CountBeside(p: Pack, q: Pack, s: Section)
    requires q.neighbors == p.neighbors && |q.primary| == |p.primary|
    requires forall i :: 0 <= i < |p.primary| ==> q.primary[i] == p.primary[i].(reasons := q.primary[i].reasons)
    ensures Count(q, s) == Count(p, s)
  {
    if PerPage(s) {
      SameItems(p.primary, q.primary, s);
    }
  }

  lemma ShippedCounts(p: Pack, graph: Option<seq<Edge>>, requested: nat, estimate: nat, truncated: bool,
                      sections: seq<Section>)
    ensures forall s ::
      Count(WithEstimate(ReconcileGraphNeighborReasons(p, graph), requested, estimate, truncated, sections), s) == Count(p, s)
  {
    var r := ReconcileGraphNeighborReasons(p, graph);
    ReconcileKeepsRest(p, graph);
    forall i | 0 <= i < |p.primary|
      ensures r.primary[i] == p.primary[i].(reasons := r.primary[i].reasons)
    {
      ReconciledExactly(p, graph, i);
    }
    var shipped := WithEstimate(r, requested, estimate, truncated, sections);
    hide ReconcileGraphNeighborReasons, Count;
    forall s
      ensures Count(shipped, s) == Count(p, s)
    {
      CountBeside(p, shipped, s);
    }
  }

  /** Some edge between two pages of the pack ends at page `i`. */
  predicate LinkedWithin(p: Pack, edges: seq<Edge>, i: nat)
    requires i < |p.primary|
  {
    exists k, j :: 0 <= k < |edges| && 0 <= j < |p.primary| &&
      (edges[k] == Edge(p.primary[i].id, p.primary[j].id) || edges[k] == Edge(p.primary[j].id, p.primary[i].id))
  }

  lemma LinkedIff(p: Pack, edges: seq<Edge>, i: nat)
    requires i < |p.primary|
    ensures Connected(edges, p.primary, p.primary[i].id) <==> LinkedWithin(p, edges, i)
  {
    var id := p.primary[i].id;
    assert p.primary[i] in p.primary;
    if Connected(edges, p.primary, id) {
      var k :| 0 <= k < |edges| && ConnectedBy(edges[k], p.primary, id);
      var other := if edges[k].source == id then edges[k].target else edges[k].source;
      var e :| e in p.primary && e.id == other;
      var j :| 0 <= j < |p.primary| && p.primary[j] == e;
      assert edges[k] == Edge(id, p.primary[j].id) || edges[k] == Edge(p.primary[j].id, id);
    }
    if LinkedWithin(p, edges, i) {
      var k, j :| 0 <= k < |edges| && 0 <= j < |p.primary| &&
        (edges[k] == Edge(id, p.primary[j].id) || edges[k] == Edge(p.primary[j].id, id));
      assert p.primary[j] in p.primary;
      assert ConnectedBy(edges[k], p.primary, id);
    }
  }

  /** The shipped page has the graph-neighbor reason exactly when an edge links it to the shipped pages. */
  predicate CarriesReconciled(shipped: Pack, graph: Option<seq<Edge>>, i: nat)
    requires i < |shipped.primary|
  {
    GraphNeighbor in shipped.primary[i].reasons <==>
      graph.Some? && |shipped.primary| >= 2 && LinkedWithin(shipped, graph.value, i)
  }

  /** For the caller: the listed sections are exactly those that hold less than in the draft, in the documented order. */
  ghost predicate ReportsLosses(draft: Pack, shipped: Pack) {
    && InDocumentedOrder(shipped.budget.trimmedSections)
    && (forall s :: s in shipped.budget.trimmedSections <==> Count(shipped, s) < Count(draft, s))
    && ((exists s :: Count(shipped, s) < Count(draft, s)) ==> shipped.budget.truncated)
  }

  /**
   Main result: a draft that loses no empty tier key early is shipped with an honest report of what was trimmed, with
   fewer of its pages at the end only, and with the reasons that hold among the shipped pages.
   */
  lemma ShippedReportsLosses(draft: Pack, requested: nat, graph: Option<seq<Edge>>, measure: Measure)
    requires !LosesEmptyKey(draft, Fits(measure, requested))
    ensures var shipped := FinalizeBudget(draft, requested, graph, measure);
      ReportsLosses(draft, shipped) && forall i :: 0 <= i < |shipped.primary| ==> CarriesReconciled(shipped, graph, i)
  {
    var fits := Fits(measure, requested);
    var pack, sections := Trimmed(draft, fits), StagesLost(draft, fits);
    var shipped := FinalizeBudget(draft, requested, graph, measure);
    ShippedParts(draft, requested, graph, measure);
    hide Trimmed, StagesLost, Count, OrderedSections, ReconcileGraphNeighborReasons, CarriesReconciled, LosesEmptyKey,
      LostSections, FinalizeBudget, Fits, WithEstimate, ReportsLosses;
    StagesAreLost(draft, fits);
    ShippedCounts(pack, graph, requested, shipped.budget.estimatedTokens, shipped.budget.truncated, sections);
    ShippedPages(pack, graph, requested, shipped.budget.estimatedTokens, shipped.budget.truncated, sections);
    LossesReported(draft, pack, shipped);
  }

  lemma ShippedParts(draft: Pack, requested: nat, graph: Option<seq<Edge>>, measure: Measure)
    ensures var shipped := FinalizeBudget(draft, requested, graph, measure);
      var pack, sections := Trimmed(draft, Fits(measure, requested)), StagesLost(draft, Fits(measure, requested));
      && shipped == WithEstimate(ReconcileGraphNeighborReasons(pack, graph), requested, shipped.budget.estimatedTokens,
                                 shipped.budget.truncated, sections)
      && shipped.budget.trimmedSections == sections && (sections != [] ==> shipped.budget.truncated)
  {
    hide Trimmed, StagesLost, ReconcileGraphNeighborReasons, SecondEstimate;
  }

  lemma LossesReported(draft: Pack, pack: Pack, shipped: Pack)
    requires shipped.budget.trimmedSections == LostSections(draft, pack)
    requires forall s :: Count(shipped, s) == Count(pack, s)
    requires shipped.budget.trimmedSections != [] ==> shipped.budget.truncated
    ensures ReportsLosses(draft, shipped)
  {
    OrderedMembers(set s: Section | Count(pack, s) < Count(draft, s));
    hide Count, OrderedSections, InDocumentedOrder;
    if s :| Count(shipped, s) < Count(draft, s) {
      assert s in shipped.budget.trimmedSections;
    }
  }

  lemma ShippedPages(p: Pack, graph: Option<seq<Edge>>, requested: nat, estimate: nat, truncated: bool,
                     sections: seq<Section>)
    ensures var shipped := WithEstimate(ReconcileGraphNeighborReasons(p, graph), requested, estimate, truncated, sections);
      forall i :: 0 <= i < |shipped.primary| ==> CarriesReconciled(shipped, graph, i)
  {
    var r := ReconcileGraphNeighborReasons(p, graph);
    var shipped := WithEstimate(r, requested, estimate, truncated, sections);
    forall i | 0 <= i < |shipped.primary|
      ensures CarriesReconciled(shipped, graph, i)
    {
      ReconciledExactly(p, graph, i);
      if graph.Some? {
        SameIds(p, graph, r.primary[i].id);
        LinkedIff(shipped, graph.value, i);
      }
      hide ReconcileGraphNeighborReasons, Connected, LinkedWithin;
    }
  }

  lemma SameIds(p: Pack, graph: Option<seq<Edge>>, id: string)
    requires graph.Some?
    ensures Connected(graph.value, ReconcileGraphNeighborReasons(p, graph).primary, id) <==>
      Connected(graph.value, p.primary, id)
  {
    var r := ReconcileGraphNeighborReasons(p, graph);
    forall x
      ensures HasId(r.primary, x) <==> HasId(p.primary, x)
    {
      ReconciledIds(p, graph, x);
    }
    hide HasId, ReconcileGraphNeighborReasons;
    assert forall k :: 0 <= k < |graph.value| ==>
      ConnectedBy(graph.value[k], r.primary, id) == ConnectedBy(graph.value[k], p.primary, id);
  }

  lemma ReconciledIds(p: Pack, graph: Option<seq<Edge>>, id: string)
    ensures HasId(ReconcileGraphNeighborReasons(p, graph).primary, id) <==> HasId(p.primary, id)
  {
    var r := ReconcileGraphNeighborReasons(p, graph);
    forall i | 0 <= i < |p.primary|
      ensures r.primary[i].id == p.primary[i].id
    {
      ReconciledExactly(p, graph, i);
    }
    hide ReconcileGraphNeighborReasons;
    if e :| e in p.primary && e.id == id {
      var i :| 0 <= i < |p.primary| && p.primary[i] == e;
      assert r.primary[i] in r.primary;
    }
    if e :| e in r.primary && e.id == id {
      var i :| 0 <= i < |r.primary| && r.primary[i] == e;
      assert p.primary[i] in p.primary;
    }
  }

  /** The lists of both packs are the same, and the pages differ in the graph-neighbor reason at most. */
  ghost predicate SameButReasons(p: Pack, q: Pack) {
    && q.neighbors == p.neighbors && q.rest == p.rest && |q.primary| == |p.primary|
    && forall i :: 0 <= i < |p.primary| ==>
      && q.primary[i] == p.primary[i].(reasons := q.primary[i].reasons)
      && q.primary[i].reasons - {GraphNeighbor} == p.primary[i].reasons - {GraphNeighbor}
  }

  /**
   Main result: a draft without empty tier lists is shipped after the least number of deletions that brings its text down to
   four characters for each token requested, or else after all of them.
   */
  lemma ShippedIsFirstFit(draft: Pack, requested: nat, graph: Option<seq<Edge>>, measure: Measure) returns (k: nat)
    requires NoEmptyTiers(draft.primary)
    ensures SameButReasons(Scheduled(draft, k), FinalizeBudget(draft, requested, graph, measure))
    ensures PackText(measure, Scheduled(draft, k)) <= 4 * requested || FullyDrained(Scheduled(draft, k))
    ensures forall j: nat :: j < k ==> PackText(measure, Scheduled(draft, j)) > 4 * requested
  {
    var fits := Fits(measure, requested);
    TrimmedIsFirstFit(draft, fits);
    k := FirstFitIsEarliest(draft, fits);
    hide Scheduled, FirstFit, Trimmed, StagesLost, FullyDrained, SameButReasons, PackText, EstimateTokens, NoEmptyTiers,
      ReconcileGraphNeighborReasons, SecondEstimate;
    forall j: nat
      ensures fits(Scheduled(draft, j)) <==> PackText(measure, Scheduled(draft, j)) <= 4 * requested
    {
      EstimateIsCeiling(PackText(measure, Scheduled(draft, j)));
    }
    ReconciledKeepsLists(Scheduled(draft, k), graph);
    hide Fits;
    ShippedParts(draft, requested, graph, measure);
    var shipped := FinalizeBudget(draft, requested, graph, measure);
    SameBeforeBudget(Scheduled(draft, k), ReconcileGraphNeighborReasons(Scheduled(draft, k), graph), shipped);
  }

  lemma ReconciledKeepsLists(p: Pack, graph: Option<seq<Edge>>)
    ensures SameButReasons(p, ReconcileGraphNeighborReasons(p, graph))
  {
    ReconcileKeepsRest(p, graph);
    forall i | 0 <= i < |p.primary|
      ensures var e := ReconcileGraphNeighborReasons(p, graph).primary[i];
        e == p.primary[i].(reasons := e.reasons) && e.reasons - {GraphNeighbor} == p.primary[i].reasons - {GraphNeighbor}
    {
      ReconciledExactly(p, graph, i);
    }
    hide ReconcileGraphNeighborReasons;
  }

  lemma SameBeforeBudget(p: Pack, q: Pack, shipped: Pack)
    requires SameButReasons(p, q) && shipped == q.(budget := shipped.budget)
    ensures SameButReasons(p, shipped)
  {}

  /** Dropping reasons never lengthens the text. */
  ghost predicate ShrinksWithReasons(measure: Measure) {
    forall ps, qs, neighbors, rest :: FewerReasons(ps, qs) ==> measure(qs, neighbors, rest) <= measure(ps, neighbors, rest)
  }

  /** The budget block that a draft carries while it is trimmed. */
  predicate FreshBudget(draft: Pack, requested: nat) {
    draft.budget == ContextBudget(requested, 0, false, [])
  }

  /** After a trim that fitted, the text exceeds the request only by the section list and the estimate's digits. */
  lemma FittedTrimExceedsByBudgetBlock(draft: Pack, requested: nat, graph: Option<seq<Edge>>, measure: Measure)
    requires FreshBudget(draft, requested) && NoEmptyTiers(draft.primary) && AnnotatedDraft(draft.primary, graph)
    requires ShrinksWithReasons(measure)
    requires Fits(measure, requested)(Trimmed(draft, Fits(measure, requested)))
    ensures var shipped := FinalizeBudget(draft, requested, graph, measure);
      PackText(measure, shipped) <=
        4 * requested + SectionsText(shipped.budget.trimmedSections) + DigitCount(shipped.budget.estimatedTokens) - 1
  {
    hide Trimmed, StagesLost, ReconcileGraphNeighborReasons, SecondEstimate, SectionsText, DigitCount, Cut, FewerReasons,
      AnnotatedDraft, NoEmptyTiers;
    TrimmedIsCut(draft, Fits(measure, requested));
    var pack := Trimmed(draft, Fits(measure, requested));
    KeepsBudget(draft, pack);
    ReconcileOnlyDrops(draft, pack, graph);
    ReconcileKeepsRest(pack, graph);
    NoSections();
  }

  lemma NoSections()
    ensures SectionsText([]) == 0 && DigitCount(0) == 1
  {}

  lemma KeepsBudget(p0: Pack, p: Pack)
    requires Cut(p0, p)
    ensures p.budget == p0.budget
  {}

  lemma ReconcileKeepsRest(p: Pack, graph: Option<seq<Edge>>)
    ensures var r := ReconcileGraphNeighborReasons(p, graph); r == p.(primary := r.primary)
  {}
}
