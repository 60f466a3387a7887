/**
 Trimming a context pack to its token budget: five loops that delete from the end of the
 pack's lists, against one fixed schedule of deletions.
 */
module ContextTrim {
  import opened Options

  datatype Reason = SemanticChunk | TitleMatch | BodyMatch | ExactSlug | ExactTitle | GraphNeighbor

  /** A list element, by its JSON text. */
  type Item = string

  /** One ranked page; its other fields are in `rest`. */
  datatype Primary = Primary(id: string, reasons: set<Reason>, chunks: seq<Item>, sourceWindows: seq<Item>,
                             contentTiers: Option<seq<Item>>, rest: string)

  datatype Section = Neighbors | SourceWindows | Chunks | ContentTiers | PrimaryPages

  datatype ContextBudget = ContextBudget(requestedTokens: nat, estimatedTokens: nat, truncated: bool,
                                         trimmedSections: seq<Section>)

  datatype Pack = Pack(budget: ContextBudget, primary: seq<Primary>, neighbors: seq<Item>, rest: string)

  // ----- The schedule -----

  /** What a page lists in one of the three per-page sections. */
  function Items(e: Primary, s: Section): seq<Item> {
    match s
    case SourceWindows => e.sourceWindows
    case Chunks => e.chunks
    case ContentTiers => if e.contentTiers.Some? then e.contentTiers.value else []
    case _ => []
  }

  predicate PerPage(s: Section) {
    s in {SourceWindows, Chunks, ContentTiers}
  }

  /** The page still has something of the section; an empty tier list still has its key. */
  predicate Lists(e: Primary, s: Section) {
    if s == ContentTiers then e.contentTiers.Some? else Items(e, s) != []
  }

  function ButLast<T>(xs: seq<T>): seq<T> {
    if xs == [] then [] else xs[..|xs| - 1]
  }

  /** The page without its last item; a page whose tiers are gone has no tier key. */
  function PopItem(e: Primary, s: Section): Primary {
    var kept := ButLast(Items(e, s));
    match s
    case SourceWindows => e.(sourceWindows := kept)
    case Chunks => e.(chunks := kept)
    case ContentTiers => e.(contentTiers := if kept == [] then None else Some(kept))
    case _ => e
  }

  /** The lowest-ranked page that still lists something. */
  function LastListing(primary: seq<Primary>, s: Section): (i: int)
    ensures -1 <= i < |primary|
    ensures i >= 0 ==> Lists(primary[i], s)
    ensures forall k :: i < k < |primary| ==> !Lists(primary[k], s)
  {
    if primary == [] then -1
    else if Lists(primary[|primary| - 1], s) then |primary| - 1
    else LastListing(primary[..|primary| - 1], s)
  }

  predicate Drained(p: Pack, s: Section) {
    match s
    case Neighbors => p.neighbors == []
    case PrimaryPages => p.primary == []
    case _ => LastListing(p.primary, s) < 0
  }

  /** The next deletion in one section. */
  function Pop(p: Pack, s: Section): Pack
    requires !Drained(p, s)
  {
    match s
    case Neighbors => p.(neighbors := p.neighbors[..|p.neighbors| - 1])
    case PrimaryPages => p.(primary := p.primary[..|p.primary| - 1])
    case _ =>
      var i := LastListing(p.primary, s);
      p.(primary := PopAt(p.primary, i, s))
  }

  function PopAt(primary: seq<Primary>, i: nat, s: Section): seq<Primary>
    requires i < |primary|
  {
    primary[i := PopItem(primary[i], s)]
  }

  function After(s: Section): Option<Section> {
    match s
    case Neighbors => Some(SourceWindows)
    case SourceWindows => Some(Chunks)
    case Chunks => Some(ContentTiers)
    case ContentTiers => Some(PrimaryPages)
    case PrimaryPages => None
  }

  function Rank(s: Section): nat {
    match s
    case Neighbors => 0
    case SourceWindows => 1
    case Chunks => 2
    case ContentTiers => 3
    case PrimaryPages => 4
  }

  /** The first section, from `s` on, that is not drained. */
  function Current(p: Pack, s: Section): Option<Section>
    decreases 5 - Rank(s)
  {
    if !Drained(p, s) then Some(s)
    else match After(s)
      case Some(next) => Current(p, next)
      case None => None
  }

  function Sum(primary: seq<Primary>, f: Primary -> nat): nat {
    if primary == [] then 0 else Sum(primary[..|primary| - 1], f) + f(primary[|primary| - 1])
  }

  lemma {:induction false} SumUpdate(primary: seq<Primary>, i: nat, e: Primary, f: Primary -> nat)
    requires i < |primary|
    ensures Sum(primary[i := e], f) == Sum(primary, f) - f(primary[i]) + f(e)
  {
    var init := primary[..|primary| - 1];
    if i < |primary| - 1 {
      SumUpdate(init, i, e, f);
      assert primary[i := e][..|primary| - 1] == init[i := e];
    } else {
      assert primary[i := e][..|primary| - 1] == init;
    }
  }

  /** What a section holds, over all pages. */
  function Count(p: Pack, s: Section): nat {
    match s
    case Neighbors => |p.neighbors|
    case PrimaryPages => |p.primary|
    case _ => Sum(p.primary, (e: Primary) => |Items(e, s)|)
  }

  function PageWeight(e: Primary): nat {
    |e.sourceWindows| + |e.chunks| + if e.contentTiers.Some? then |e.contentTiers.value| + 1 else 0
  }

  /** A bound on the deletions left in a pack. */
  function Weight(p: Pack): nat {
    |p.neighbors| + |p.primary| + Sum(p.primary, PageWeight)
  }

  lemma PopShrinks(p: Pack, s: Section)
    requires !Drained(p, s)
    ensures Weight(Pop(p, s)) < Weight(p)
  {
    if PerPage(s) {
      var i := LastListing(p.primary, s);
      SumUpdate(p.primary, i, PopItem(p.primary[i], s), PageWeight);
    }
  }

  /** Follow the schedule, from section `s` on, to the first pack that fits or to the end. */
  function FirstFit(p: Pack, s: Section, fits: Pack -> bool): Pack
    decreases Weight(p)
  {
    if fits(p) then p
    else match Current(p, s)
      case None => p
      case Some(c) =>
        CurrentNotDrained(p, s);
        PopShrinks(p, c);
        FirstFit(Pop(p, c), s, fits)
  }

  lemma CurrentNotDrained(p: Pack, s: Section)
    ensures match Current(p, s)
      case Some(c) => !Drained(p, c) && Rank(c) >= Rank(s) && forall t :: Rank(s) <= Rank(t) < Rank(c) ==> Drained(p, t)
      case None => forall t :: Rank(s) <= Rank(t) ==> Drained(p, t)
    decreases 5 - Rank(s)
  {
    if Drained(p, s) && After(s).Some? {
      CurrentNotDrained(p, After(s).value);
    }
  }

  /** Delete in one section until the pack fits or the section is drained. */
  function Within(p: Pack, s: Section, fits: Pack -> bool): Pack
    decreases Weight(p)
  {
    if fits(p) || Drained(p, s) then p
    else
      PopShrinks(p, s);
      Within(Pop(p, s), s, fits)
  }

  /** A deletion in another section does not refill a drained one. */
  lemma DrainedStays(p: Pack, s: Section, c: Section)
    requires Drained(p, s) && !Drained(p, c)
    ensures Drained(Pop(p, c), s)
  {
    if PerPage(s) {
      forall k | 0 <= k < |Pop(p, c).primary|
        ensures !Lists(Pop(p, c).primary[k], s)
      {
        assert !Lists(p.primary[k], s);
      }
    }
  }

  lemma {:induction false} FirstFitDrained(p: Pack, s: Section, next: Section, fits: Pack -> bool)
    requires Drained(p, s) && After(s) == Some(next)
    ensures FirstFit(p, s, fits) == FirstFit(p, next, fits)
    decreases Weight(p)
  {
    if !fits(p) && Current(p, s).Some? {
      var c := Current(p, s).value;
      CurrentNotDrained(p, s);
      PopShrinks(p, c);
      DrainedStays(p, s, c);
      FirstFitDrained(Pop(p, c), s, next, fits);
    }
  }

  /** Section by section, the schedule is followed within the first and then from the next. */
  lemma {:induction false} FirstFitBySection(p: Pack, s: Section, fits: Pack -> bool)
    ensures FirstFit(p, s, fits) == match After(s)
      case Some(next) => FirstFit(Within(p, s, fits), next, fits)
      case None => Within(p, s, fits)
    decreases Weight(p)
  {
    if fits(p) {
    } else if Drained(p, s) {
      if After(s).Some? {
        FirstFitDrained(p, s, After(s).value, fits);
      }
    } else {
      PopShrinks(p, s);
      FirstFitBySection(Pop(p, s), s, fits);
      assert Current(p, s) == Some(s);
      assert Within(p, s, fits) == Within(Pop(p, s), s, fits);
      assert FirstFit(p, s, fits) == FirstFit(Pop(p, s), s, fits);
    }
  }

  /** The section is done when the pack fits or no page lists anything. */
  lemma WithinDone(p: Pack, s: Section, fits: Pack -> bool)
    requires PerPage(s) && (fits(p) || NoneListsFrom(p.primary, 0, s))
    ensures Within(p, s, fits) == p
  {}

  // ----- The loops -----

  /** A pack draft that the loops cut down; the caller's pack is a value and stays as it is. */
  class PackDraft {
    var primary: seq<Primary>
    var neighbors: seq<Item>
    const budget: ContextBudget
    const rest: string

    constructor Clone(pack: Pack)
      ensures Value() == pack
    {
      primary, neighbors, budget, rest := pack.primary, pack.neighbors, pack.budget, pack.rest;
    }

    function Value(): Pack
      reads this
    {
      Pack(budget, primary, neighbors, rest)
    }

    method TrimNeighbors(fits: Pack -> bool, trimmed: set<Section>) returns (trimmed': set<Section>)
      modifies this
      ensures Value() == Within(old(Value()), Neighbors, fits)
      ensures IsTrim(old(Value()), Value(), Neighbors, trimmed, trimmed')
    {
      trimmed' := trimmed;
      while |neighbors| > 0 && !fits(Value())
        invariant Within(Value(), Neighbors, fits) == Within(old(Value()), Neighbors, fits)
        invariant IsTrim(old(Value()), Value(), Neighbors, trimmed, trimmed')
      {
        neighbors := neighbors[..|neighbors| - 1];
        trimmed' := trimmed' + {Neighbors};
      }
    }

    /** The loop over source windows, and the same loop over chunks. */
    method TrimPageItems(s: Section, fits: Pack -> bool, trimmed: set<Section>) returns (trimmed': set<Section>)
      requires s in {SourceWindows, Chunks}
      modifies this
      ensures Value() == Within(old(Value()), s, fits)
      ensures IsTrim(old(Value()), Value(), s, trimmed, trimmed')
    {
      hide Within, Count, Lists, PopAt, Weight;
      trimmed' := trimmed;
      for i := |primary| downto 0
        invariant i <= |primary|
        invariant NoneListsFrom(primary, i, s)
        invariant Within(Value(), s, fits) == Within(old(Value()), s, fits)
        invariant IsTrim(old(Value()), Value(), s, trimmed, trimmed')
      {
        while Lists(primary[i], s) && !fits(Value())
          invariant i < |primary|
          invariant NoneListsFrom(primary, i + 1, s)
          invariant Within(Value(), s, fits) == Within(old(Value()), s, fits)
          invariant IsTrim(old(Value()), Value(), s, trimmed, trimmed')
          decreases Weight(Value())
        {
          ListsItems(primary[i], s);
          PopsHere(Value(), i, s, fits);
          CountAfterPop(Value(), i, s);
          primary := PopAt(primary, i, s);
          trimmed' := trimmed' + {s};
        }
        if fits(Value()) {
          WithinDone(Value(), s, fits);
          return;
        }
      }
      WithinDone(Value(), s, fits);
    }

    /** The tiers of one page, deepest first; a list that ends up empty loses its key. */
    method TrimTiersAt(i: nat, fits: Pack -> bool, trimmed: set<Section>) returns (trimmed': set<Section>)
      requires i < |primary| && primary[i].contentTiers.Some? && NoneListsFrom(primary, i + 1, ContentTiers)
      modifies this
      ensures |primary| == |old(primary)|
      ensures fits(Value()) || NoneListsFrom(primary, i, ContentTiers)
      ensures if Items(old(primary[i]), ContentTiers) == []
        then Value() == old(Value()).(primary := PopAt(old(primary), i, ContentTiers))
        else Within(Value(), ContentTiers, fits) == Within(old(Value()), ContentTiers, fits)
      ensures IsTrim(old(Value()), Value(), ContentTiers, trimmed, trimmed')
    {
      hide Within, Count, PopAt, Weight;
      trimmed' := trimmed;
      ghost var before := Value();
      var tiers := primary[i].contentTiers.value;
      while |tiers| > 0 && !fits(Value())
        invariant i < |primary| == |old(primary)| && primary[i].contentTiers == Some(tiers)
        invariant NoneListsFrom(primary, i + 1, ContentTiers)
        invariant Items(old(primary[i]), ContentTiers) == [] ==> Value() == old(Value()) && tiers == []
        invariant Items(old(primary[i]), ContentTiers) != [] ==>
          Within(WithoutEmptyTiers(Value(), i), ContentTiers, fits) == Within(before, ContentTiers, fits)
        invariant IsTrim(before, Value(), ContentTiers, trimmed, trimmed')
        decreases |tiers|
      {
        PopsHere(Value(), i, ContentTiers, fits);
        ghost var unpopped := Value();
        CountAfterPop(Value(), i, ContentTiers);
        tiers := tiers[..|tiers| - 1];
        primary := primary[i := primary[i].(contentTiers := Some(tiers))];
        EmptyKeyIgnored(Value(), i);
        TierPopped(unpopped, Value(), i);
        trimmed' := trimmed' + {ContentTiers};
      }
      EmptyKeyIgnored(Value(), i);
      ghost var last := Value();
      if |tiers| == 0 {
        TierKeyDeleted(last, i);
        primary := primary[i := primary[i].(contentTiers := None)];
      }
    }

    method TrimContentTiers(fits: Pack -> bool, trimmed: set<Section>) returns (trimmed': set<Section>)
      modifies this
      ensures Value() == Within(TierStart(old(Value()), fits), ContentTiers, fits)
      ensures IsTrim(old(Value()), Value(), ContentTiers, trimmed, trimmed')
    {
      hide Within, Count, PopAt, Weight, TierStart;
      trimmed' := trimmed;
      ghost var before := Value();
      for i := |primary| downto 0
        invariant i <= |primary|
        invariant NoneListsFrom(primary, i, ContentTiers)
        invariant Value() == before ||
          (!fits(Value()) && Within(Value(), ContentTiers, fits) == Within(TierStart(before, fits), ContentTiers, fits))
        invariant IsTrim(before, Value(), ContentTiers, trimmed, trimmed')
      {
        if primary[i].contentTiers.None? {
          continue;
        }
        ghost var reached := Value();
        trimmed' := TrimTiersAt(i, fits, trimmed');
        PageReached(before, reached, Value(), i, fits);
        if fits(Value()) {
          WithinDone(Value(), ContentTiers, fits);
          return;
        }
      }
      NoTiersLeft(before, fits);
      WithinDone(Value(), ContentTiers, fits);
    }

    method TrimPrimary(fits: Pack -> bool, trimmed: set<Section>) returns (trimmed': set<Section>)
      modifies this
      ensures Value() == Within(old(Value()), PrimaryPages, fits)
      ensures Value().neighbors == old(Value()).neighbors
      ensures |primary| <= |old(primary)| && primary == old(primary)[..|primary|]
      ensures trimmed' == if |primary| < |old(primary)| then trimmed + {PrimaryPages} else trimmed
    {
      trimmed' := trimmed;
      while |primary| > 0 && !fits(Value())
        invariant Within(Value(), PrimaryPages, fits) == Within(old(Value()), PrimaryPages, fits)
        invariant |primary| <= |old(primary)| && primary == old(primary)[..|primary|]
        invariant neighbors == old(neighbors)
        invariant trimmed' == if |primary| < |old(primary)| then trimmed + {PrimaryPages} else trimmed
      {
        primary := primary[..|primary| - 1];
        trimmed' := trimmed' + {PrimaryPages};
      }
    }
  }

  /** The lowest-ranked page with a tier key has no tiers. */
  predicate EndsInEmptyTiers(p: Pack) {
    var i := LastListing(p.primary, ContentTiers);
    i >= 0 && Items(p.primary[i], ContentTiers) == []
  }

  /** The walk over tiers deletes an empty list's key before it looks at the budget. */
  function TierStart(p: Pack, fits: Pack -> bool): Pack {
    if fits(p) && EndsInEmptyTiers(p) then Pop(p, ContentTiers) else p
  }

  lemma NoTiersLeft(p: Pack, fits: Pack -> bool)
    ensures NoneListsFrom(p.primary, 0, ContentTiers) ==> TierStart(p, fits) == p
  {}

  /** One page of the tier walk keeps the walk on the schedule. */
  lemma PageReached(before: Pack, reached: Pack, p: Pack, i: nat, fits: Pack -> bool)
    requires i < |reached.primary| && reached.primary[i].contentTiers.Some?
    requires NoneListsFrom(reached.primary, i + 1, ContentTiers)
    requires reached == before ||
      (!fits(reached) && Within(reached, ContentTiers, fits) == Within(TierStart(before, fits), ContentTiers, fits))
    requires if Items(reached.primary[i], ContentTiers) == []
      then p == reached.(primary := PopAt(reached.primary, i, ContentTiers))
      else Within(p, ContentTiers, fits) == Within(reached, ContentTiers, fits)
    ensures Within(p, ContentTiers, fits) == Within(TierStart(before, fits), ContentTiers, fits)
  {
    assert LastListing(reached.primary, ContentTiers) == i;
    if Items(reached.primary[i], ContentTiers) == [] && !fits(reached) {
      PopsHere(reached, i, ContentTiers, fits);
    }
  }

  /** The pack with the tier key of a page deleted if the list is empty. */
  function WithoutEmptyTiers(p: Pack, i: nat): Pack
    requires i < |p.primary|
  {
    if p.primary[i].contentTiers == Some([]) then p.(primary := p.primary[i := p.primary[i].(contentTiers := None)]) else p
  }

  ghost predicate NoneListsFrom(primary: seq<Primary>, i: int, s: Section) {
    forall k :: 0 <= i <= k < |primary| ==> !Lists(primary[k], s)
  }

  /** Trimming a section touches the counts of that section only, and reports it if it lost something. */
  ghost predicate IsTrim(before: Pack, after: Pack, s: Section, trimmed: set<Section>, trimmed': set<Section>) {
    && Count(after, s) <= Count(before, s)
    && trimmed' == (if Count(after, s) < Count(before, s) then trimmed + {s} else trimmed)
    && (s != PrimaryPages ==> forall t :: t != s ==> Count(after, t) == Count(before, t))
  }

  /** The lowest page that lists something is where the schedule deletes. */
  lemma PopsHere(p: Pack, i: nat, s: Section, fits: Pack -> bool)
    requires PerPage(s) && i < |p.primary| && Lists(p.primary[i], s) && NoneListsFrom(p.primary, i + 1, s)
    requires !fits(p)
    ensures var q := p.(primary := PopAt(p.primary, i, s));
      && |q.primary| == |p.primary| && NoneListsFrom(q.primary, i + 1, s)
      && Weight(q) < Weight(p) && Within(q, s, fits) == Within(p, s, fits)
  {
    assert LastListing(p.primary, s) == i;
    PopShrinks(p, s);
  }

  lemma CountAfterPop(p: Pack, i: nat, s: Section)
    requires PerPage(s) && i < |p.primary|
    ensures var q := p.(primary := PopAt(p.primary, i, s));
      && Count(q, s) == Count(p, s) - (if Items(p.primary[i], s) == [] then 0 else 1)
      && forall t :: t != s ==> Count(q, t) == Count(p, t)
  {
    forall t | PerPage(t)
      ensures Count(p.(primary := PopAt(p.primary, i, s)), t) ==
        Count(p, t) - |Items(p.primary[i], t)| + |Items(PopItem(p.primary[i], s), t)|
    {
      SumUpdate(p.primary, i, PopItem(p.primary[i], s), (e: Primary) => |Items(e, t)|);
    }
  }

  lemma ListsItems(e: Primary, s: Section)
    requires s in {SourceWindows, Chunks}
    ensures Lists(e, s) <==> Items(e, s) != []
  {}

  lemma EmptyKeyIgnored(p: Pack, i: nat)
    requires i < |p.primary|
    ensures forall t :: Count(WithoutEmptyTiers(p, i), t) == Count(p, t)
  {
    var e := p.primary[i].(contentTiers := None);
    if p.primary[i].contentTiers == Some([]) {
      forall t | PerPage(t)
        ensures Count(p.(primary := p.primary[i := e]), t) == Count(p, t)
      {
        SumUpdate(p.primary, i, e, (e: Primary) => |Items(e, t)|);
      }
    }
  }

  /** Popping a tier in place and deleting the key of an empty list is one deletion of the schedule. */
  lemma TierPopped(before: Pack, p: Pack, i: nat)
    requires i < |before.primary| && Items(before.primary[i], ContentTiers) != []
    requires p == before.(primary := before.primary[i :=
      before.primary[i].(contentTiers := Some(ButLast(Items(before.primary[i], ContentTiers))))])
    ensures WithoutEmptyTiers(p, i) == before.(primary := PopAt(before.primary, i, ContentTiers))
  {}

  lemma TierKeyDeleted(p: Pack, i: nat)
    requires i < |p.primary| && p.primary[i].contentTiers == Some([])
    ensures WithoutEmptyTiers(p, i) == p.(primary := p.primary[i := p.primary[i].(contentTiers := None)])
    ensures WithoutEmptyTiers(p, i) == p.(primary := PopAt(p.primary, i, ContentTiers))
  {}

  // ----- The whole trim -----

  /** After neighbors, source windows and chunks. */
  function BeforeTiers(p: Pack, fits: Pack -> bool): Pack {
    Within(Within(Within(p, Neighbors, fits), SourceWindows, fits), Chunks, fits)
  }

  function Trimmed(p: Pack, fits: Pack -> bool): Pack {
    if fits(p) then p
    else Within(Within(TierStart(BeforeTiers(p, fits), fits), ContentTiers, fits), PrimaryPages, fits)
  }

  /** The pack fits after the chunks, and still loses the key of an empty tier list. */
  predicate LosesEmptyKey(p: Pack, fits: Pack -> bool) {
    !fits(p) && fits(BeforeTiers(p, fits)) && EndsInEmptyTiers(BeforeTiers(p, fits))
  }

  function IfTrimmed(trimmed: set<Section>, s: Section): seq<Section> {
    if s in trimmed then [s] else []
  }

  function OrderedSections(trimmed: set<Section>): seq<Section> {
    IfTrimmed(trimmed, Neighbors) + IfTrimmed(trimmed, SourceWindows) + IfTrimmed(trimmed, Chunks) +
    IfTrimmed(trimmed, ContentTiers) + IfTrimmed(trimmed, PrimaryPages)
  }

  /** The sections that lost something, in the documented order. */
  function LostSections(before: Pack, after: Pack): seq<Section> {
    OrderedSections(set s: Section | Count(after, s) < Count(before, s))
  }

  /** The pack before the loop of a section, of a pack that does not fit. */
  function StageStart(p: Pack, s: Section, fits: Pack -> bool): Pack {
    match s
    case Neighbors => p
    case SourceWindows => Within(p, Neighbors, fits)
    case Chunks => Within(Within(p, Neighbors, fits), SourceWindows, fits)
    case ContentTiers => BeforeTiers(p, fits)
    case PrimaryPages => Within(TierStart(BeforeTiers(p, fits), fits), ContentTiers, fits)
  }

  /** The pack after the loop of a section. */
  function StageEnd(p: Pack, s: Section, fits: Pack -> bool): Pack {
    if s == PrimaryPages then Within(StageStart(p, s, fits), PrimaryPages, fits)
    else if s == ContentTiers then StageStart(p, PrimaryPages, fits)
    else Within(StageStart(p, s, fits), s, fits)
  }

  /** The section's own loop deleted something of it. */
  predicate LosesInStage(p: Pack, s: Section, fits: Pack -> bool) {
    !fits(p) && Count(StageEnd(p, s, fits), s) < Count(StageStart(p, s, fits), s)
  }

  /** Every section whose loop deleted something, in the documented order. */
  function StagesLost(p: Pack, fits: Pack -> bool): seq<Section> {
    OrderedSections(set s: Section | LosesInStage(p, s, fits))
  }

  method TrimToBudget(pack: Pack, size: Pack -> nat, budget: nat) returns (result: Pack, sections: seq<Section>)
    ensures result == Trimmed(pack, p => size(p) <= budget)
    ensures sections == StagesLost(pack, p => size(p) <= budget)
    ensures !LosesEmptyKey(pack, p => size(p) <= budget) ==> sections == LostSections(pack, result)
  {
    hide Within, Count, TierStart, EndsInEmptyTiers, IsTrim, IsStage, StagesLost, OrderedSections;
    var fits := p => size(p) <= budget;
    var draft := new PackDraft.Clone(pack);
    if fits(draft.Value()) {
      NothingLost(pack);
      NoStages(pack, fits);
      return draft.Value(), [];
    }
    var trimmed: set<Section>;
    trimmed := draft.TrimNeighbors(fits, {});
    ghost var p1, t1 := draft.Value(), trimmed;
    trimmed := draft.TrimPageItems(SourceWindows, fits, trimmed);
    ghost var p2, t2 := draft.Value(), trimmed;
    trimmed := draft.TrimPageItems(Chunks, fits, trimmed);
    ghost var p3, t3 := draft.Value(), trimmed;
    trimmed := draft.TrimContentTiers(fits, trimmed);
    ghost var p4, t4 := draft.Value(), trimmed;
    trimmed := draft.TrimPrimary(fits, trimmed);
    result, sections := draft.Value(), OrderedSections(trimmed);
    StagesReported(pack, p1, p2, p3, p4, result, t1, t2, t3, t4, trimmed, fits);
    assert !LosesEmptyKey(pack, fits) ==> sections == LostSections(pack, result) by {
      if !LosesEmptyKey(pack, fits) {
        TierStartKeeps(p3, fits);
        WithinIsStage(p1, SourceWindows, fits);
        WithinIsStage(p2, Chunks, fits);
        WithinIsStage(p3, ContentTiers, fits);
        WithinIsStage(p4, PrimaryPages, fits);
        SectionsReported(pack, p1, p2, p3, p4, result, t1, t2, t3, t4, trimmed, fits);
      }
    }
  }

  lemma NoStages(p: Pack, fits: Pack -> bool)
    requires fits(p)
    ensures StagesLost(p, fits) == []
  {
    hide StageStart, StageEnd, Count;
  }

  /** Each loop adds its own section, exactly when it deleted something of it. */
  lemma StagesReported(pack: Pack, p1: Pack, p2: Pack, p3: Pack, p4: Pack, result: Pack,
                       t1: set<Section>, t2: set<Section>, t3: set<Section>, t4: set<Section>, t5: set<Section>,
                       fits: Pack -> bool)
    requires !fits(pack) && p1 == StageStart(pack, SourceWindows, fits) && p2 == StageStart(pack, Chunks, fits)
    requires p3 == StageStart(pack, ContentTiers, fits) && p4 == StageStart(pack, PrimaryPages, fits)
    requires result == StageEnd(pack, PrimaryPages, fits)
    requires IsTrim(pack, p1, Neighbors, {}, t1) && IsTrim(p1, p2, SourceWindows, t1, t2)
    requires IsTrim(p2, p3, Chunks, t2, t3) && IsTrim(p3, p4, ContentTiers, t3, t4)
    requires t5 == if |result.primary| < |p4.primary| then t4 + {PrimaryPages} else t4
    ensures OrderedSections(t5) == StagesLost(pack, fits)
  {
    CountOfPages(result);
    CountOfPages(p4);
    hide Count, Within, TierStart, OrderedSections;
    forall s
      ensures s in t5 <==> LosesInStage(pack, s, fits)
    {
      match s
      case Neighbors =>
      case SourceWindows =>
      case Chunks =>
      case ContentTiers =>
      case PrimaryPages =>
    }
    assert t5 == set s: Section | LosesInStage(pack, s, fits);
  }

  lemma TierStartKeeps(p: Pack, fits: Pack -> bool)
    requires !(fits(p) && EndsInEmptyTiers(p))
    ensures TierStart(p, fits) == p
  {}

  lemma NothingLost(p: Pack)
    ensures LostSections(p, p) == []
  {}

  lemma {:induction false} WithinFitsOrDrained(p: Pack, s: Section, fits: Pack -> bool)
    ensures fits(Within(p, s, fits)) || Drained(Within(p, s, fits), s)
    decreases Weight(p)
  {
    if !fits(p) && !Drained(p, s) {
      PopShrinks(p, s);
      WithinFitsOrDrained(Pop(p, s), s, fits);
    }
  }

  lemma WithinFits(p: Pack, s: Section, fits: Pack -> bool)
    requires fits(p)
    ensures Within(p, s, fits) == p
  {}

  lemma {:induction false} EmptySum(primary: seq<Primary>, f: Primary -> nat)
    requires forall i :: 0 <= i < |primary| ==> f(primary[i]) == 0
    ensures Sum(primary, f) == 0
  {
    if primary != [] {
      EmptySum(primary[..|primary| - 1], f);
    }
  }

  lemma DrainedCountsNothing(p: Pack, s: Section)
    ensures Drained(p, s) ==> Count(p, s) == 0
  {
    if PerPage(s) && Drained(p, s) {
      EmptySum(p.primary, (e: Primary) => |Items(e, s)|);
    }
  }

  lemma {:induction false} SumOfPrefix(primary: seq<Primary>, n: nat, f: Primary -> nat)
    requires n <= |primary|
    ensures Sum(primary[..n], f) <= Sum(primary, f)
  {
    if n < |primary| {
      SumOfPrefix(primary[..|primary| - 1], n, f);
      assert primary[..|primary| - 1][..n] == primary[..n];
    } else {
      assert primary[..n] == primary;
    }
  }

  /** A pack that fits stays as it is; otherwise the section ends drained or the pack fits. */
  ghost predicate IsStage(before: Pack, after: Pack, s: Section, fits: Pack -> bool) {
    (fits(before) ==> after == before) && (fits(after) || Drained(after, s))
  }

  lemma WithinIsStage(p: Pack, s: Section, fits: Pack -> bool)
    ensures IsStage(p, Within(p, s, fits), s, fits)
  {
    WithinFitsOrDrained(p, s, fits);
  }

  /** Pages are only dropped once every other section is drained, so the drop loses nothing else. */
  lemma SectionsReported(pack: Pack, p1: Pack, p2: Pack, p3: Pack, p4: Pack, result: Pack,
                         t1: set<Section>, t2: set<Section>, t3: set<Section>, t4: set<Section>, t5: set<Section>,
                         fits: Pack -> bool)
    requires IsTrim(pack, p1, Neighbors, {}, t1)
    requires IsStage(p1, p2, SourceWindows, fits) && IsTrim(p1, p2, SourceWindows, t1, t2)
    requires IsStage(p2, p3, Chunks, fits) && IsTrim(p2, p3, Chunks, t2, t3)
    requires IsStage(p3, p4, ContentTiers, fits) && IsTrim(p3, p4, ContentTiers, t3, t4)
    requires IsStage(p4, result, PrimaryPages, fits)
    requires result.neighbors == p4.neighbors
    requires |result.primary| <= |p4.primary| && result.primary == p4.primary[..|result.primary|]
    requires t5 == if |result.primary| < |p4.primary| then t4 + {PrimaryPages} else t4
    ensures OrderedSections(t5) == LostSections(pack, result)
  {
    hide Count, IsTrim;
    assert Count(result, PrimaryPages) == |result.primary| && Count(p4, PrimaryPages) == |p4.primary| by {
      CountOfPages(result);
      CountOfPages(p4);
    }
    if !fits(p4) {
      StillDrained(p1, p2, p3, p4, fits, t2, t3, t4);
      forall s | s != PrimaryPages
        ensures Count(result, s) == Count(p4, s)
      {
        CountOfPrefix(p4, result, s);
      }
    }
    ChainReports(pack, p1, p2, p3, p4, result, t1, t2, t3, t4, t5);
  }

  /** What one section's loop does to the counts. */
  lemma {:induction false} WithinCounts(p: Pack, s: Section, fits: Pack -> bool)
    ensures Count(Within(p, s, fits), s) <= Count(p, s)
    ensures s != PrimaryPages ==> forall t :: t != s ==> Count(Within(p, s, fits), t) == Count(p, t)
    decreases Weight(p)
  {
    if !fits(p) && !Drained(p, s) {
      PopShrinks(p, s);
      WithinCounts(Pop(p, s), s, fits);
      if PerPage(s) {
        CountAfterPop(p, LastListing(p.primary, s), s);
      }
    }
  }

  lemma {:induction false} WithinPages(p: Pack, fits: Pack -> bool)
    ensures var q := Within(p, PrimaryPages, fits);
      q.neighbors == p.neighbors && |q.primary| <= |p.primary| && q.primary == p.primary[..|q.primary|]
    decreases Weight(p)
  {
    if !fits(p) && !Drained(p, PrimaryPages) {
      PopShrinks(p, PrimaryPages);
      WithinPages(Pop(p, PrimaryPages), fits);
    }
  }

  function Reported(before: Pack, after: Pack, s: Section, trimmed: set<Section>): set<Section> {
    if Count(after, s) < Count(before, s) then trimmed + {s} else trimmed
  }

  lemma WithinTrims(p: Pack, s: Section, fits: Pack -> bool, trimmed: set<Section>)
    ensures IsTrim(p, Within(p, s, fits), s, trimmed, Reported(p, Within(p, s, fits), s, trimmed))
    ensures IsStage(p, Within(p, s, fits), s, fits)
  {
    WithinCounts(p, s, fits);
    WithinIsStage(p, s, fits);
    hide Within, Count;
  }

  /** Unless an empty tier key is lost early, the sections whose loops deleted something are those that lost something. */
  lemma StagesAreLost(pack: Pack, fits: Pack -> bool)
    requires !LosesEmptyKey(pack, fits)
    ensures StagesLost(pack, fits) == LostSections(pack, Trimmed(pack, fits))
  {
    if fits(pack) {
      NoStages(pack, fits);
      NothingLost(pack);
    } else {
      var p1 := StageStart(pack, SourceWindows, fits);
      var p2 := StageStart(pack, Chunks, fits);
      var p3 := StageStart(pack, ContentTiers, fits);
      TierStartKeeps(p3, fits);
      var p4 := StageStart(pack, PrimaryPages, fits);
      var result := Trimmed(pack, fits);
      hide Within, Count, TierStart, IsTrim, IsStage, StagesLost, LostSections, OrderedSections, Reported;
      var t1 := Reported(pack, p1, Neighbors, {});
      var t2 := Reported(p1, p2, SourceWindows, t1);
      var t3 := Reported(p2, p3, Chunks, t2);
      var t4 := Reported(p3, p4, ContentTiers, t3);
      var t5 := if |result.primary| < |p4.primary| then t4 + {PrimaryPages} else t4;
      WithinTrims(pack, Neighbors, fits, {});
      WithinTrims(p1, SourceWindows, fits, t1);
      WithinTrims(p2, Chunks, fits, t2);
      WithinTrims(p3, ContentTiers, fits, t3);
      WithinIsStage(p4, PrimaryPages, fits);
      WithinPages(p4, fits);
      StagesReported(pack, p1, p2, p3, p4, result, t1, t2, t3, t4, t5, fits);
      SectionsReported(pack, p1, p2, p3, p4, result, t1, t2, t3, t4, t5, fits);
    }
  }

  lemma ChainReports(pack: Pack, p1: Pack, p2: Pack, p3: Pack, p4: Pack, result: Pack,
                     t1: set<Section>, t2: set<Section>, t3: set<Section>, t4: set<Section>, t5: set<Section>)
    requires IsTrim(pack, p1, Neighbors, {}, t1) && IsTrim(p1, p2, SourceWindows, t1, t2)
    requires IsTrim(p2, p3, Chunks, t2, t3) && IsTrim(p3, p4, ContentTiers, t3, t4)
    requires forall s :: s != PrimaryPages ==> Count(result, s) == Count(p4, s)
    requires Count(result, PrimaryPages) <= Count(p4, PrimaryPages)
    requires t5 == if Count(result, PrimaryPages) < Count(p4, PrimaryPages) then t4 + {PrimaryPages} else t4
    ensures OrderedSections(t5) == LostSections(pack, result)
  {
    hide Count, OrderedSections;
    forall s
      ensures s in t5 <==> Count(result, s) < Count(pack, s)
    {
      match s
      case Neighbors =>
      case SourceWindows =>
      case Chunks =>
      case ContentTiers =>
      case PrimaryPages =>
    }
    assert t5 == set s: Section | Count(result, s) < Count(pack, s);
  }

  lemma CountOfPages(p: Pack)
    ensures Count(p, PrimaryPages) == |p.primary|
  {}

  lemma CountOfPrefix(p: Pack, q: Pack, s: Section)
    requires q.neighbors == p.neighbors && |q.primary| <= |p.primary| && q.primary == p.primary[..|q.primary|]
    requires s != PrimaryPages && (s != Neighbors ==> Count(p, s) == 0)
    ensures Count(q, s) == Count(p, s)
  {
    if PerPage(s) {
      SumOfPrefix(p.primary, |q.primary|, (e: Primary) => |Items(e, s)|);
    }
  }

  lemma StillDrained(p1: Pack, p2: Pack, p3: Pack, p4: Pack, fits: Pack -> bool, t2: set<Section>, t3: set<Section>,
                     t4: set<Section>)
    requires IsStage(p1, p2, SourceWindows, fits)
    requires IsStage(p2, p3, Chunks, fits) && IsTrim(p2, p3, Chunks, t2, t3)
    requires IsStage(p3, p4, ContentTiers, fits) && IsTrim(p3, p4, ContentTiers, t3, t4)
    requires !fits(p4)
    ensures forall s :: PerPage(s) ==> Count(p4, s) == 0
  {
    hide Count, Drained;
    DrainedCountsNothing(p2, SourceWindows);
    DrainedCountsNothing(p3, Chunks);
    DrainedCountsNothing(p4, ContentTiers);
  }

  // ----- Against the schedule -----

  lemma FitsStays(p: Pack, s: Section, fits: Pack -> bool)
    requires fits(p)
    ensures FirstFit(p, s, fits) == p
  {}

  lemma FirstFitInStages(p: Pack, fits: Pack -> bool)
    ensures FirstFit(p, Neighbors, fits) ==
      Within(Within(BeforeTiers(p, fits), ContentTiers, fits), PrimaryPages, fits)
  {
    hide FirstFit, Within;
    var p1 := Within(p, Neighbors, fits);
    var p2 := Within(p1, SourceWindows, fits);
    FirstFitBySection(p, Neighbors, fits);
    FirstFitBySection(p1, SourceWindows, fits);
    FirstFitBySection(p2, Chunks, fits);
    FirstFitBySection(BeforeTiers(p, fits), ContentTiers, fits);
    FirstFitBySection(Within(BeforeTiers(p, fits), ContentTiers, fits), PrimaryPages, fits);
  }

  lemma {:induction false} WithinNeverGrows(p: Pack, s: Section, fits: Pack -> bool)
    ensures Weight(Within(p, s, fits)) <= Weight(p)
    decreases Weight(p)
  {
    if !fits(p) && !Drained(p, s) {
      PopShrinks(p, s);
      WithinNeverGrows(Pop(p, s), s, fits);
    }
  }

  /** The trim returns the first pack of the schedule that fits, except when it deletes an empty list's key too early. */
  lemma TrimmedIsFirstFitIff(p: Pack, fits: Pack -> bool)
    ensures Trimmed(p, fits) == FirstFit(p, Neighbors, fits) <==> !LosesEmptyKey(p, fits)
  {
    hide FirstFit, Within, Weight;
    if fits(p) {
      FitsStays(p, Neighbors, fits);
    } else {
      FirstFitInStages(p, fits);
      var q := BeforeTiers(p, fits);
      if LosesEmptyKey(p, fits) {
        WithinFits(q, ContentTiers, fits);
        WithinFits(q, PrimaryPages, fits);
        PopShrinks(q, ContentTiers);
        WithinNeverGrows(Pop(q, ContentTiers), ContentTiers, fits);
        WithinNeverGrows(Within(Pop(q, ContentTiers), ContentTiers, fits), PrimaryPages, fits);
      }
    }
  }

  predicate NoEmptyTiers(primary: seq<Primary>) {
    forall i :: 0 <= i < |primary| ==> primary[i].contentTiers != Some([])
  }

  lemma {:induction false} WithinKeepsTiers(p: Pack, s: Section, fits: Pack -> bool)
    requires s in {Neighbors, SourceWindows, Chunks} && NoEmptyTiers(p.primary)
    ensures NoEmptyTiers(Within(p, s, fits).primary)
    decreases Weight(p)
  {
    if !fits(p) && !Drained(p, s) {
      PopShrinks(p, s);
      WithinKeepsTiers(Pop(p, s), s, fits);
    }
  }

  /** A pack without empty tier lists is trimmed to the first fit, whatever the size function. */
  lemma TrimmedIsFirstFit(p: Pack, fits: Pack -> bool)
    requires NoEmptyTiers(p.primary)
    ensures !LosesEmptyKey(p, fits)
    ensures Trimmed(p, fits) == FirstFit(p, Neighbors, fits)
  {
    hide FirstFit, Within, Weight;
    WithinKeepsTiers(p, Neighbors, fits);
    WithinKeepsTiers(Within(p, Neighbors, fits), SourceWindows, fits);
    WithinKeepsTiers(Within(Within(p, Neighbors, fits), SourceWindows, fits), Chunks, fits);
    TrimmedIsFirstFitIff(p, fits);
  }

  /** The pack after `k` deletions. */
  function Scheduled(p: Pack, k: nat): Pack {
    if k == 0 then p
    else
      var q := Scheduled(p, k - 1);
      match Current(q, Neighbors)
      case None => q
      case Some(c) => CurrentNotDrained(q, Neighbors); Pop(q, c)
  }

  predicate FullyDrained(p: Pack) {
    Current(p, Neighbors).None?
  }

  lemma {:induction false} ScheduledFromNext(p: Pack, c: Section, k: nat)
    requires Current(p, Neighbors) == Some(c) && !Drained(p, c)
    ensures Scheduled(p, k + 1) == Scheduled(Pop(p, c), k)
  {
    if k > 0 {
      ScheduledFromNext(p, c, k - 1);
    }
  }

  /** The first fit is the earliest pack of the schedule that fits, or the fully drained one. */
  lemma {:induction false} FirstFitIsEarliest(p: Pack, fits: Pack -> bool) returns (k: nat)
    ensures FirstFit(p, Neighbors, fits) == Scheduled(p, k)
    ensures fits(Scheduled(p, k)) || FullyDrained(Scheduled(p, k))
    ensures forall j: nat :: j < k ==> !fits(Scheduled(p, j))
    decreases Weight(p)
  {
    hide Pop, Drained, Weight, Current;
    k := 0;
    if !fits(p) && Current(p, Neighbors).Some? {
      var c := Current(p, Neighbors).value;
      CurrentNotDrained(p, Neighbors);
      PopShrinks(p, c);
      var rest := FirstFitIsEarliest(Pop(p, c), fits);
      k := rest + 1;
      forall j: nat | j <= k
        ensures j > 0 ==> Scheduled(p, j) == Scheduled(Pop(p, c), j - 1)
      {
        if j > 0 {
          ScheduledFromNext(p, c, j - 1);
        }
      }
    }
  }

  // ----- What every pack of the schedule keeps -----

  /** A page keeps its identity and a prefix of each of its lists. */
  ghost predicate CutPage(e0: Primary, e: Primary) {
    && e == e0.(chunks := e.chunks, sourceWindows := e.sourceWindows, contentTiers := e.contentTiers)
    && e.chunks <= e0.chunks && e.sourceWindows <= e0.sourceWindows
    && Items(e, ContentTiers) <= Items(e0, ContentTiers)
    && (e.contentTiers.Some? ==> e0.contentTiers.Some?)
  }

  predicate TouchedPage(e0: Primary, e: Primary, s: Section) {
    match s
    case SourceWindows => e.sourceWindows != e0.sourceWindows
    case Chunks => e.chunks != e0.chunks
    case ContentTiers => e.contentTiers != e0.contentTiers
    case _ => false
  }

  ghost predicate Touched(p0: Pack, p: Pack, s: Section) {
    match s
    case Neighbors => p.neighbors != p0.neighbors
    case PrimaryPages => |p.primary| < |p0.primary|
    case _ => exists i :: 0 <= i < |p.primary| <= |p0.primary| && TouchedPage(p0.primary[i], p.primary[i], s)
  }

  /** Only list ends are missing. */
  ghost predicate Prefixes(p0: Pack, p: Pack) {
    && p.budget == p0.budget && p.rest == p0.rest && p.neighbors <= p0.neighbors && |p.primary| <= |p0.primary|
    && forall i :: 0 <= i < |p.primary| ==> CutPage(p0.primary[i], p.primary[i])
  }

  /** A section is touched only after all earlier ones are drained. */
  ghost predicate InSectionOrder(p0: Pack, p: Pack) {
    forall s, t :: Touched(p0, p, s) && Rank(t) < Rank(s) ==> Drained(p, t)
  }

  /** A page loses an item only after every lower-ranked page lost all of that section. */
  ghost predicate InRankOrder(p0: Pack, p: Pack) {
    |p.primary| <= |p0.primary| &&
    forall s, i :: PerPage(s) && 0 <= i < |p.primary| && TouchedPage(p0.primary[i], p.primary[i], s) ==>
      NoneListsFrom(p.primary, i + 1, s)
  }

  ghost predicate Cut(p0: Pack, p: Pack) {
    Prefixes(p0, p) && InSectionOrder(p0, p) && InRankOrder(p0, p)
  }

  lemma {:induction false} ScheduleCuts(p: Pack, k: nat)
    ensures Cut(p, Scheduled(p, k))
  {
    if k > 0 {
      ScheduleCuts(p, k - 1);
      var q := Scheduled(p, k - 1);
      if Current(q, Neighbors).Some? {
        CurrentNotDrained(q, Neighbors);
        PopCuts(p, q, Current(q, Neighbors).value);
      }
    }
  }

  lemma PopCuts(p0: Pack, p: Pack, c: Section)
    requires Cut(p0, p) && !Drained(p, c)
    requires forall t :: Rank(t) < Rank(c) ==> Drained(p, t)
    ensures Cut(p0, Pop(p, c))
  {
    PopKeepsPrefixes(p0, p, c);
    PopKeepsSectionOrder(p0, p, c);
    PopKeepsRankOrder(p0, p, c);
  }

  lemma PopKeepsPrefixes(p0: Pack, p: Pack, c: Section)
    requires Prefixes(p0, p) && !Drained(p, c)
    ensures Prefixes(p0, Pop(p, c))
  {}

  lemma PopKeepsSectionOrder(p0: Pack, p: Pack, c: Section)
    requires Prefixes(p0, p) && InSectionOrder(p0, p) && !Drained(p, c)
    requires forall t :: Rank(t) < Rank(c) ==> Drained(p, t)
    ensures InSectionOrder(p0, Pop(p, c))
  {
    var q := Pop(p, c);
    forall s, t | Touched(p0, q, s) && Rank(t) < Rank(s)
      ensures Drained(q, t)
    {
      if s != c {
        assert Touched(p0, p, s);
      }
      if t != c {
        DrainedStays(p, t, c);
      }
    }
  }

  lemma PopKeepsRankOrder(p0: Pack, p: Pack, c: Section)
    requires Prefixes(p0, p) && InRankOrder(p0, p) && !Drained(p, c)
    ensures InRankOrder(p0, Pop(p, c))
  {
    var q := Pop(p, c);
    forall s, i | PerPage(s) && 0 <= i < |q.primary| && TouchedPage(p0.primary[i], q.primary[i], s)
      ensures NoneListsFrom(q.primary, i + 1, s)
    {
      assert i == LastListing(p.primary, c) || TouchedPage(p0.primary[i], p.primary[i], s) || PerPage(c);
    }
  }

  /** The trimmed pack misses only list ends, lower sections first and lower-ranked pages first. */
  lemma TrimmedIsCut(p: Pack, fits: Pack -> bool)
    requires NoEmptyTiers(p.primary)
    ensures Cut(p, Trimmed(p, fits))
  {
    hide Cut, FirstFit, Trimmed;
    TrimmedIsFirstFit(p, fits);
    var k := FirstFitIsEarliest(p, fits);
    ScheduleCuts(p, k);
  }

  // ----- Where tier lists come from -----

  /** Project the tiers that a page's record resolves; none leaves the page without the key. */
  function AugmentPrimary(e: Primary, tiers: seq<Item>): Primary {
    if |tiers| > 0 then e.(contentTiers := Some(tiers)) else e
  }

  function ApplyContentTiers(primary: seq<Primary>, tiersOf: string -> seq<Item>): (r: seq<Primary>)
    ensures |r| == |primary| && forall i :: 0 <= i < |r| ==>
      var tiers := tiersOf(primary[i].id);
      && r[i].contentTiers == (if tiers == [] then primary[i].contentTiers else Some(tiers))
      && r[i] == primary[i].(contentTiers := r[i].contentTiers)
    ensures NoEmptyTiers(primary) ==> NoEmptyTiers(r)
  {
    seq(|primary|, i requires 0 <= i < |primary| => AugmentPrimary(primary[i], tiersOf(primary[i].id)))
  }
}
