/**
 Merging per-source extractions into one concept per slug, with reconciled metadata.
 */
module Merge {
  import opened Options
  import opened Sequences
  import opened WikiState

  datatype MergedConcept = MergedConcept(slug: Slug, concept: ExtractedConcept, sourceFiles: seq<File>)

  // ----- Reconciling two contributions -----

  predicate Mentioned(refs: seq<ContradictionRef>, slug: Slug) {
    exists r :: r in refs && r.slug == slug
  }

  function Refs(c: ExtractedConcept): seq<ContradictionRef> {
    if c.contradictedBy.Some? then c.contradictedBy.value else []
  }

  /** Append the references whose slug is not there yet. */
  function AddRefs(refs: seq<ContradictionRef>, incoming: seq<ContradictionRef>): seq<ContradictionRef>
    decreases |incoming|
  {
    if incoming == [] then refs
    else AddRefs(if Mentioned(refs, incoming[0].slug) then refs else refs + [incoming[0]], incoming[1..])
  }

  function LowerConfidence(a: Option<real>, b: Option<real>): Option<real> {
    match b
    case None => a
    case Some(y) => match a
      case None => b
      case Some(x) => Some(if x <= y then x else y)
  }

  function Reconcile(existing: ExtractedConcept, incoming: ExtractedConcept): ExtractedConcept {
    var refs := AddRefs(Refs(existing), Refs(incoming));
    existing.(confidence := LowerConfidence(existing.confidence, incoming.confidence),
              merged := true,
              contradictedBy := if refs == [] then None else Some(refs))
  }

  method ReconcileConceptMetadata(existing: ExtractedConcept, incoming: ExtractedConcept)
    returns (reconciled: ExtractedConcept)
    ensures reconciled == Reconcile(existing, incoming)
  {
    reconciled := existing;
    if incoming.confidence.Some? {
      reconciled := reconciled.(confidence :=
        if existing.confidence.Some?
        then Some(if existing.confidence.value <= incoming.confidence.value
                  then existing.confidence.value else incoming.confidence.value)
        else incoming.confidence);
    }
    reconciled := reconciled.(merged := true);
    var refs := Refs(existing);
    var seen := set r | r in refs :: r.slug;
    var arriving := Refs(incoming);
    for i := 0 to |arriving|
      invariant forall s :: s in seen <==> Mentioned(refs, s)
      invariant AddRefs(refs, arriving[i..]) == AddRefs(Refs(existing), arriving)
    {
      assert arriving[i..][1..] == arriving[i + 1..];
      if arriving[i].slug !in seen {
        ghost var before := refs;
        refs := refs + [arriving[i]];
        seen := seen + {arriving[i].slug};
        assert forall s :: Mentioned(refs, s) <==> Mentioned(before, s) || s == arriving[i].slug by {
          MentionedAppend(before, arriving[i]);
        }
      }
    }
    reconciled := reconciled.(contradictedBy := if |refs| > 0 then Some(refs) else None);
  }

  lemma MentionedAppend(refs: seq<ContradictionRef>, r: ContradictionRef)
    ensures forall s :: Mentioned(refs + [r], s) <==> Mentioned(refs, s) || s == r.slug
  {
    forall s
      ensures Mentioned(refs + [r], s) <==> Mentioned(refs, s) || s == r.slug
    {
      assert r in refs + [r];
      if Mentioned(refs, s) {
        var q :| q in refs && q.slug == s;
        assert q in refs + [r];
      }
    }
  }

  // ----- What one slug receives, in extraction order -----

  datatype Contribution = Contribution(file: File, concept: ExtractedConcept)

  function ContributionsIn(file: File, concepts: seq<ExtractedConcept>): seq<Contribution> {
    if concepts == [] then []
    else ContributionsIn(file, concepts[..|concepts| - 1]) + [Contribution(file, concepts[|concepts| - 1])]
  }

  function Contributions(extractions: seq<ExtractionResult>): seq<Contribution> {
    if extractions == [] then []
    else
      var last := extractions[|extractions| - 1];
      Contributions(extractions[..|extractions| - 1]) + ContributionsIn(last.sourceFile, last.concepts)
  }

  /** The contributions to one slug. */
  function To(cs: seq<Contribution>, slug: Slug): seq<Contribution> {
    if cs == [] then []
    else
      var c := cs[|cs| - 1];
      To(cs[..|cs| - 1], slug) + if c.concept.slug == slug then [c] else []
  }

  function Files(cs: seq<Contribution>): seq<File> {
    seq(|cs|, i requires 0 <= i < |cs| => cs[i].file)
  }

  /** The reconciled concept of a list of contributions. */
  function Fold(cs: seq<Contribution>): ExtractedConcept
    requires cs != []
  {
    if |cs| == 1 then cs[0].concept
    else Reconcile(Fold(cs[..|cs| - 1]), cs[|cs| - 1].concept)
  }

  /** The slugs in order of first appearance, without the frozen ones. */
  function SlugOrder(cs: seq<Contribution>, frozen: set<Slug>): seq<Slug> {
    if cs == [] then []
    else
      var slug := cs[|cs| - 1].concept.slug;
      var before := SlugOrder(cs[..|cs| - 1], frozen);
      if slug in frozen then before else Add(before, slug)
  }

  /** The entry of one slug, if it has any, is what the slug received. */
  ghost predicate IsEntry(bySlug: map<Slug, MergedConcept>, cs: seq<Contribution>, frozen: set<Slug>, s: Slug) {
    && (s in bySlug <==> s !in frozen && To(cs, s) != [])
    && (s in bySlug ==> bySlug[s] == MergedConcept(s, Fold(To(cs, s)), Files(To(cs, s))))
  }

  /** The merge of a list of contributions is complete: one entry per slug, with what it received. */
  ghost predicate IsMerge(bySlug: map<Slug, MergedConcept>, order: seq<Slug>, cs: seq<Contribution>, frozen: set<Slug>) {
    && order == SlugOrder(cs, frozen)
    && Distinct(order)
    && (forall s :: s in order <==> s in bySlug)
    && (forall s :: IsEntry(bySlug, cs, frozen, s))
  }

  lemma IsMergeStep(bySlug: map<Slug, MergedConcept>, order: seq<Slug>, cs: seq<Contribution>, frozen: set<Slug>,
                    c: Contribution)
    requires IsMerge(bySlug, order, cs, frozen)
    ensures IsMerge(WithContribution(bySlug, frozen, c), SlugOrder(cs + [c], frozen), cs + [c], frozen)
    ensures SlugOrder(cs + [c], frozen) ==
      if c.concept.slug in frozen || c.concept.slug in bySlug then order else order + [c.concept.slug]
  {
    var s, bySlug' := c.concept.slug, WithContribution(bySlug, frozen, c);
    ToStep(cs, c);
    assert SlugOrder(cs + [c], frozen) == if s in frozen then order else Add(order, s);
    forall t
      ensures IsEntry(bySlug', cs + [c], frozen, t)
    {
      assert IsEntry(bySlug, cs, frozen, t);
      if t == s {
        FoldStep(To(cs, s), c);
      }
    }
  }

  /** The table after one contribution. */
  function WithContribution(bySlug: map<Slug, MergedConcept>, frozen: set<Slug>, c: Contribution)
    : map<Slug, MergedConcept>
  {
    var s := c.concept.slug;
    if s in frozen then bySlug
    else if s in bySlug then
      bySlug[s := MergedConcept(bySlug[s].slug, Reconcile(bySlug[s].concept, c.concept), bySlug[s].sourceFiles + [c.file])]
    else bySlug[s := MergedConcept(s, c.concept, [c.file])]
  }

  lemma ToStep(cs: seq<Contribution>, c: Contribution)
    ensures forall s :: To(cs + [c], s) == if s == c.concept.slug then To(cs, s) + [c] else To(cs, s)
    ensures (cs + [c])[..|cs|] == cs
  {
    assert (cs + [c])[..|cs|] == cs;
    forall s
      ensures To(cs + [c], s) == if s == c.concept.slug then To(cs, s) + [c] else To(cs, s)
    {
      assert To(cs, s) + [] == To(cs, s);
    }
  }

  lemma FoldStep(received: seq<Contribution>, c: Contribution)
    ensures Fold(received + [c]) == if received == [] then c.concept else Reconcile(Fold(received), c.concept)
    ensures Files(received + [c]) == Files(received) + [c.file]
  {
    assert (received + [c])[..|received|] == received;
  }

  method MergeExtractions(extractions: seq<ExtractionResult>, frozen: set<Slug>) returns (merged: seq<MergedConcept>)
    ensures var cs := Contributions(extractions);
      && |merged| == |SlugOrder(cs, frozen)| && Distinct(SlugOrder(cs, frozen))
      && (forall s :: s in SlugOrder(cs, frozen) <==> s !in frozen && To(cs, s) != [])
      && forall i :: 0 <= i < |merged| ==>
        var s := SlugOrder(cs, frozen)[i];
        To(cs, s) != [] && merged[i] == MergedConcept(s, Fold(To(cs, s)), Files(To(cs, s)))
  {
    hide Fold, Reconcile, IsMerge, To, Files, SlugOrder, WithContribution;
    var bySlug: map<Slug, MergedConcept> := map[];
    var order: seq<Slug> := [];
    ghost var cs: seq<Contribution> := [];
    NothingMerged(frozen);
    for i := 0 to |extractions|
      invariant cs == Contributions(extractions[..i])
      invariant IsMerge(bySlug, order, cs, frozen)
    {
      var result := extractions[i];
      ghost var before := cs;
      for k := 0 to |result.concepts|
        invariant cs == before + ContributionsIn(result.sourceFile, result.concepts[..k])
        invariant IsMerge(bySlug, order, cs, frozen)
      {
        var concept := result.concepts[k];
        IsMergeStep(bySlug, order, cs, frozen, Contribution(result.sourceFile, concept));
        ContributionsInStep(result.sourceFile, result.concepts, k, before);
        ghost var merged' := WithContribution(bySlug, frozen, Contribution(result.sourceFile, concept));
        WithContributionCases(bySlug, frozen, result.sourceFile, concept);
        cs := cs + [Contribution(result.sourceFile, concept)];
        if concept.slug !in frozen {
          if concept.slug in bySlug {
            var existing := bySlug[concept.slug];
            var reconciled := ReconcileConceptMetadata(existing.concept, concept);
            bySlug := bySlug[concept.slug := existing.(concept := reconciled,
                                                       sourceFiles := existing.sourceFiles + [result.sourceFile])];
          } else {
            bySlug := bySlug[concept.slug := MergedConcept(concept.slug, concept, [result.sourceFile])];
            order := order + [concept.slug];
          }
        }
        assert bySlug == merged';
      }
      ContributionsStep(extractions, i);
    }
    assert extractions[..|extractions|] == extractions;
    MergeEntries(bySlug, order, cs, frozen);
    merged := seq(|order|, i requires 0 <= i < |order| => bySlug[order[i]]);
  }

  lemma NothingMerged(frozen: set<Slug>)
    ensures Contributions([]) == [] && IsMerge(map[], [], [], frozen)
    ensures forall file :: ContributionsIn(file, []) == []
  {}

  lemma ContributionsInStep(file: File, concepts: seq<ExtractedConcept>, k: nat, before: seq<Contribution>)
    requires k < |concepts|
    ensures before + ContributionsIn(file, concepts[..k + 1])
      == before + ContributionsIn(file, concepts[..k]) + [Contribution(file, concepts[k])]
  {
    assert concepts[..k + 1][..k] == concepts[..k];
  }

  lemma ContributionsStep(extractions: seq<ExtractionResult>, i: nat)
    requires i < |extractions|
    ensures var last := extractions[i];
      && last.concepts[..0] == [] && last.concepts[..|last.concepts|] == last.concepts
      && Contributions(extractions[..i + 1])
        == Contributions(extractions[..i]) + ContributionsIn(last.sourceFile, last.concepts)
  {
    assert extractions[..i + 1][..i] == extractions[..i];
  }

  lemma WithContributionCases(bySlug: map<Slug, MergedConcept>, frozen: set<Slug>, file: File, concept: ExtractedConcept)
    ensures var after, s := WithContribution(bySlug, frozen, Contribution(file, concept)), concept.slug;
      && (s in frozen ==> after == bySlug)
      && (s !in frozen && s !in bySlug ==> after == bySlug[s := MergedConcept(s, concept, [file])])
      && (s !in frozen && s in bySlug ==>
        after == bySlug[s := bySlug[s].(concept := Reconcile(bySlug[s].concept, concept),
                                        sourceFiles := bySlug[s].sourceFiles + [file])])
  {}

  /** What a complete merge holds, slug by slug. */
  lemma MergeEntries(bySlug: map<Slug, MergedConcept>, order: seq<Slug>, cs: seq<Contribution>, frozen: set<Slug>)
    requires IsMerge(bySlug, order, cs, frozen)
    ensures order == SlugOrder(cs, frozen) && Distinct(order) && forall s :: s in order <==> s in bySlug
    ensures forall s :: s in order <==> s !in frozen && To(cs, s) != []
    ensures forall s :: s in order ==> bySlug[s] == MergedConcept(s, Fold(To(cs, s)), Files(To(cs, s)))
  {
    hide Fold, To, Files, SlugOrder;
    forall s
      ensures s in order <==> s !in frozen && To(cs, s) != []
      ensures s in order ==> bySlug[s] == MergedConcept(s, Fold(To(cs, s)), Files(To(cs, s)))
    {
      assert IsEntry(bySlug, cs, frozen, s);
    }
  }

  // ----- What reconciling means -----

  lemma {:induction false} AddRefsMentions(refs: seq<ContradictionRef>, incoming: seq<ContradictionRef>, slug: Slug)
    ensures Mentioned(AddRefs(refs, incoming), slug) <==> Mentioned(refs, slug) || Mentioned(incoming, slug)
    decreases |incoming|
  {
    if incoming != [] {
      var first := incoming[0];
      AddRefsMentions(if Mentioned(refs, first.slug) then refs else refs + [first], incoming[1..], slug);
      MentionedAppend(refs, first);
      assert incoming == [first] + incoming[1..];
      assert Mentioned(incoming, slug) <==> first.slug == slug || Mentioned(incoming[1..], slug) by {
        if Mentioned(incoming[1..], slug) {
          var r :| r in incoming[1..] && r.slug == slug;
          assert r in incoming;
        }
      }
    }
  }

  /** `confidence` is the lowest of those stated, or none if none is stated. */
  ghost predicate LowestStated(confidence: Option<real>, cs: seq<Contribution>) {
    && (confidence.None? ==> forall c :: c in cs ==> c.concept.confidence.None?)
    && (confidence.Some? ==>
      && (exists c :: c in cs && c.concept.confidence == confidence)
      && forall c :: c in cs && c.concept.confidence.Some? ==> confidence.value <= c.concept.confidence.value)
  }

  lemma {:induction false} FoldMentions(cs: seq<Contribution>)
    requires cs != []
    ensures forall s :: Mentioned(Refs(Fold(cs)), s) <==> exists c :: c in cs && Mentioned(Refs(c.concept), s)
    decreases |cs|
  {
    hide Mentioned, Refs;
    if |cs| > 1 {
      var init, last := cs[..|cs| - 1], cs[|cs| - 1];
      FoldMentions(init);
      LastOfMany(cs);
      assert forall c :: c in cs <==> c in init || c == last by {
        assert cs == init + [last];
      }
      forall s
        ensures Mentioned(Refs(Fold(cs)), s) <==> exists c :: c in cs && Mentioned(Refs(c.concept), s)
      {
        AddRefsMentions(Refs(Fold(init)), Refs(last.concept), s);
      }
    }
  }

  lemma {:induction false} FoldLowest(cs: seq<Contribution>)
    requires cs != []
    ensures LowestStated(Fold(cs).confidence, cs) && Fold(cs).slug == cs[0].concept.slug
    decreases |cs|
  {
    hide AddRefs, Refs;
    if |cs| > 1 {
      var init, last := cs[..|cs| - 1], cs[|cs| - 1];
      FoldLowest(init);
      assert forall c :: c in cs <==> c in init || c == last by {
        assert cs == init + [last];
      }
    }
  }

  /**
   The most pessimistic aggregate: lowest confidence, union of contradictions, marked as merged; one contribution alone
   stays as it is.
   */
  lemma FoldIsPessimistic(cs: seq<Contribution>)
    requires cs != []
    ensures LowestStated(Fold(cs).confidence, cs)
    ensures forall s :: Mentioned(Refs(Fold(cs)), s) <==> exists c :: c in cs && Mentioned(Refs(c.concept), s)
    ensures |cs| >= 2 ==> Fold(cs).merged && Fold(cs).contradictedBy != Some([])
    ensures |cs| == 1 ==> Fold(cs) == cs[0].concept
    ensures Fold(cs).slug == cs[0].concept.slug
  {
    FoldMentions(cs);
    FoldLowest(cs);
    hide Mentioned, Refs, LowestStated;
  }

  // ----- Which reference is kept for a slug -----

  /** Every reference of the contributions, one list after the other. */
  function AllRefs(cs: seq<Contribution>): seq<ContradictionRef> {
    if cs == [] then [] else AllRefs(cs[..|cs| - 1]) + Refs(cs[|cs| - 1].concept)
  }

  predicate FirstOfSlug(all: seq<ContradictionRef>, i: nat)
    requires i < |all|
  {
    forall j :: 0 <= j < i ==> all[j].slug != all[i].slug
  }

  predicate DistinctSlugs(refs: seq<ContradictionRef>) {
    forall i, j :: 0 <= i < j < |refs| ==> refs[i].slug != refs[j].slug
  }

  /** Read at the positions `at`, in order, the list gives its first `n` references and then the first one of each slug. */
  ghost predicate PicksFirsts(all: seq<ContradictionRef>, n: nat, at: seq<nat>, kept: seq<ContradictionRef>) {
    && |at| == |kept|
    && (forall k :: 0 <= k < |at| ==> at[k] < |all| && all[at[k]] == kept[k])
    && (forall k, l :: 0 <= k < l < |at| ==> at[k] < at[l])
    && forall i: nat :: i < |all| ==> (i in at <==> i < n || FirstOfSlug(all, i))
  }

  /** One more reference is kept exactly when its slug is new. */
  lemma PicksStep(all: seq<ContradictionRef>, n: nat, at: seq<nat>, kept: seq<ContradictionRef>, r: ContradictionRef)
    returns (at': seq<nat>)
    requires PicksFirsts(all, n, at, kept) && n <= |all|
    ensures PicksFirsts(all + [r], n, at', if Mentioned(kept, r.slug) then kept else kept + [r])
  {
    hide PicksFirsts, FirstOfSlug, Mentioned;
    FirstIffNew(all, n, at, kept, r);
    if Mentioned(kept, r.slug) {
      PicksNoMore(all, n, at, kept, r);
      at' := at;
    } else {
      PicksOneMore(all, n, at, kept, r);
      at' := at + [|all|];
    }
  }

  lemma PicksNoMore(all: seq<ContradictionRef>, n: nat, at: seq<nat>, kept: seq<ContradictionRef>, r: ContradictionRef)
    requires PicksFirsts(all, n, at, kept) && n <= |all| && !FirstOfSlug(all + [r], |all|)
    ensures PicksFirsts(all + [r], n, at, kept)
  {
    hide FirstOfSlug;
    StillFirst(all, r);
  }

  lemma PicksOneMore(all: seq<ContradictionRef>, n: nat, at: seq<nat>, kept: seq<ContradictionRef>, r: ContradictionRef)
    requires PicksFirsts(all, n, at, kept) && n <= |all| && FirstOfSlug(all + [r], |all|)
    ensures PicksFirsts(all + [r], n, at + [|all|], kept + [r])
  {
    hide FirstOfSlug;
    var m, at' := |all|, at + [|all|];
    StillFirst(all, r);
    forall i: nat
      ensures i in at' <==> i in at || i == m
    {}
  }

  lemma StillFirst(all: seq<ContradictionRef>, r: ContradictionRef)
    ensures forall i: nat :: i < |all| ==> FirstOfSlug(all + [r], i) == FirstOfSlug(all, i)
  {
    forall i: nat | i < |all|
      ensures FirstOfSlug(all + [r], i) == FirstOfSlug(all, i)
    {
      assert forall j :: 0 <= j <= i ==> (all + [r])[j] == all[j];
    }
  }

  /** The reference at the end is the first one of its slug exactly when none of the kept ones has that slug. */
  lemma FirstIffNew(all: seq<ContradictionRef>, n: nat, at: seq<nat>, kept: seq<ContradictionRef>, r: ContradictionRef)
    requires PicksFirsts(all, n, at, kept)
    ensures FirstOfSlug(all + [r], |all|) <==> !Mentioned(kept, r.slug)
  {
    var all' := all + [r];
    if Mentioned(kept, r.slug) {
      var k :| 0 <= k < |kept| && kept[k].slug == r.slug;
      assert all'[at[k]].slug == r.slug;
    } else {
      forall j | 0 <= j < |all|
        ensures all'[j].slug != r.slug
      {
        NotKept(all, n, at, kept, r.slug, j);
      }
    }
  }

  lemma NotKept(all: seq<ContradictionRef>, n: nat, at: seq<nat>, kept: seq<ContradictionRef>, slug: Slug, j: nat)
    requires PicksFirsts(all, n, at, kept) && !Mentioned(kept, slug) && j < |all|
    ensures all[j].slug != slug
  {
    hide FirstOfSlug;
    var i := FirstBefore(all, j);
    var k :| 0 <= k < |at| && at[k] == i;
    assert kept[k] in kept;
  }

  /** Some reference at or before `j` is the first one of the same slug. */
  lemma {:induction false} FirstBefore(all: seq<ContradictionRef>, j: nat) returns (i: nat)
    requires j < |all|
    ensures i <= j && all[i].slug == all[j].slug && FirstOfSlug(all, i)
  {
    if FirstOfSlug(all, j) {
      i := j;
    } else {
      var h :| 0 <= h < j && all[h].slug == all[j].slug;
      i := FirstBefore(all, h);
    }
  }

  lemma {:induction false} PicksAdded(all: seq<ContradictionRef>, n: nat, at: seq<nat>, kept: seq<ContradictionRef>,
                                      incoming: seq<ContradictionRef>)
    returns (at': seq<nat>)
    requires PicksFirsts(all, n, at, kept) && n <= |all|
    ensures PicksFirsts(all + incoming, n, at', AddRefs(kept, incoming))
    decreases |incoming|
  {
    hide PicksFirsts, Mentioned;
    if incoming == [] {
      at' := at;
      assert all + incoming == all;
    } else {
      var r := incoming[0];
      var at1 := PicksStep(all, n, at, kept, r);
      at' := PicksAdded(all + [r], n, at1, if Mentioned(kept, r.slug) then kept else kept + [r], incoming[1..]);
      assert all + [r] + incoming[1..] == all + incoming;
    }
  }

  /**
   A folded concept keeps the first contribution's references and, of each slug they do not mention, the first reference
   with its reason, in the order of the contributions.
   */
  lemma {:induction false} FoldKeepsFirstReasons(cs: seq<Contribution>) returns (at: seq<nat>)
    requires cs != []
    ensures PicksFirsts(AllRefs(cs), |Refs(cs[0].concept)|, at, Refs(Fold(cs)))
    ensures |Refs(cs[0].concept)| <= |AllRefs(cs)|
    ensures DistinctSlugs(Refs(cs[0].concept)) ==> DistinctSlugs(Refs(Fold(cs)))
    decreases |cs|
  {
    hide PicksFirsts, DistinctSlugs, Fold, AllRefs, Refs;
    var n := |Refs(cs[0].concept)|;
    StartsWithFirst(cs);
    if |cs| == 1 {
      at := OnlyOne(cs);
    } else {
      var init, last := cs[..|cs| - 1], cs[|cs| - 1];
      var at1 := FoldKeepsFirstReasons(init);
      at := PicksAdded(AllRefs(init), n, at1, Refs(Fold(init)), Refs(last.concept));
      LastOfMany(cs);
    }
    PicksDistinct(AllRefs(cs), n, at, Refs(Fold(cs)));
    assert AllRefs(cs)[..n] == Refs(cs[0].concept);
  }

  lemma OnlyOne(cs: seq<Contribution>) returns (at: seq<nat>)
    requires |cs| == 1
    ensures PicksFirsts(AllRefs(cs), |Refs(cs[0].concept)|, at, Refs(Fold(cs)))
  {
    hide FirstOfSlug, Refs;
    var n := |Refs(cs[0].concept)|;
    assert cs[..0] == [];
    assert AllRefs(cs) == Refs(cs[0].concept);
    at := seq(n, i requires 0 <= i < n => i);
    forall i: nat | i < n
      ensures i in at
    {
      assert at[i] == i;
    }
  }

  lemma LastOfMany(cs: seq<Contribution>)
    requires |cs| > 1
    ensures var init, last := cs[..|cs| - 1], cs[|cs| - 1];
      && Refs(Fold(cs)) == AddRefs(Refs(Fold(init)), Refs(last.concept))
      && AllRefs(cs) == AllRefs(init) + Refs(last.concept)
  {}

  lemma {:induction false} StartsWithFirst(cs: seq<Contribution>)
    requires cs != []
    ensures Refs(cs[0].concept) <= AllRefs(cs)
    decreases |cs|
  {
    if |cs| == 1 {
      assert cs[..0] == [];
    } else {
      StartsWithFirst(cs[..|cs| - 1]);
    }
  }

  lemma PicksDistinct(all: seq<ContradictionRef>, n: nat, at: seq<nat>, kept: seq<ContradictionRef>)
    requires PicksFirsts(all, n, at, kept) && n <= |all|
    ensures DistinctSlugs(all[..n]) ==> DistinctSlugs(kept)
  {
    if DistinctSlugs(all[..n]) {
      KeptDistinct(all, n, at, kept);
    }
  }

  lemma KeptDistinct(all: seq<ContradictionRef>, n: nat, at: seq<nat>, kept: seq<ContradictionRef>)
    requires PicksFirsts(all, n, at, kept) && n <= |all| && DistinctSlugs(all[..n])
    ensures DistinctSlugs(kept)
  {
    forall k, l | 0 <= k < l < |kept|
      ensures kept[k].slug != kept[l].slug
    {
      assert at[l] in at;
      if at[l] < n {
        assert all[..n][at[k]] == kept[k] && all[..n][at[l]] == kept[l];
      } else {
        assert FirstOfSlug(all, at[l]);
      }
    }
  }

  // ----- The order of the concepts -----

  /** The contribution at `i` is the first one of its slug, and the slug is not frozen. */
  predicate FirstOfConcept(cs: seq<Contribution>, frozen: set<Slug>, i: nat)
    requires i < |cs|
  {
    cs[i].concept.slug !in frozen && forall j :: 0 <= j < i ==> cs[j].concept.slug != cs[i].concept.slug
  }

  /** The slugs stand at the positions `at`, from left to right, and these are all the first positions. */
  ghost predicate StandAt(slugs: seq<Slug>, cs: seq<Contribution>, frozen: set<Slug>, at: seq<nat>) {
    && |at| == |slugs|
    && (forall k :: 0 <= k < |at| ==> at[k] < |cs| && cs[at[k]].concept.slug == slugs[k])
    && (forall k, l :: 0 <= k < l < |at| ==> at[k] < at[l])
    && forall i: nat :: i < |cs| ==> (i in at <==> FirstOfConcept(cs, frozen, i))
  }

  /** The merged concepts stand in the order in which their slugs first appear in the extractions. */
  lemma {:induction false} OrderOfFirstAppearance(cs: seq<Contribution>, frozen: set<Slug>) returns (at: seq<nat>)
    ensures StandAt(SlugOrder(cs, frozen), cs, frozen, at)
    decreases |cs|
  {
    hide FirstOfConcept, StandAt;
    if cs == [] {
      at := [];
      NothingStands(cs, frozen);
    } else {
      var n, c := |cs| - 1, cs[|cs| - 1];
      var init := cs[..n];
      at := OrderOfFirstAppearance(init, frozen);
      OrderedSlugs(init, frozen);
      FirstIffUnlisted(init, frozen, c);
      assert cs == init + [c];
      if FirstOfConcept(cs, frozen, n) {
        OneMoreStands(SlugOrder(init, frozen), init, frozen, at, c);
        at := at + [n];
      } else {
        NoMoreStands(SlugOrder(init, frozen), init, frozen, at, c);
      }
    }
  }

  lemma NothingStands(cs: seq<Contribution>, frozen: set<Slug>)
    requires cs == []
    ensures StandAt(SlugOrder(cs, frozen), cs, frozen, [])
  {}

  lemma NoMoreStands(slugs: seq<Slug>, cs: seq<Contribution>, frozen: set<Slug>, at: seq<nat>, c: Contribution)
    requires StandAt(slugs, cs, frozen, at) && !FirstOfConcept(cs + [c], frozen, |cs|)
    ensures StandAt(slugs, cs + [c], frozen, at)
  {
    hide FirstOfConcept;
    StillFirstOfConcept(cs, frozen, c);
  }

  lemma OneMoreStands(slugs: seq<Slug>, cs: seq<Contribution>, frozen: set<Slug>, at: seq<nat>, c: Contribution)
    requires StandAt(slugs, cs, frozen, at) && FirstOfConcept(cs + [c], frozen, |cs|)
    ensures StandAt(slugs + [c.concept.slug], cs + [c], frozen, at + [|cs|])
  {
    hide FirstOfConcept;
    var m, at' := |cs|, at + [|cs|];
    StillFirstOfConcept(cs, frozen, c);
    forall i: nat
      ensures i in at' <==> i in at || i == m
    {}
  }

  lemma {:induction false} OrderedSlugs(cs: seq<Contribution>, frozen: set<Slug>)
    ensures forall s :: s in SlugOrder(cs, frozen) <==> s !in frozen && exists j :: 0 <= j < |cs| && cs[j].concept.slug == s
    decreases |cs|
  {
    if cs != [] {
      var init := cs[..|cs| - 1];
      OrderedSlugs(init, frozen);
      assert cs == init + [cs[|cs| - 1]];
      assert forall j :: 0 <= j < |init| ==> cs[j] == init[j];
    }
  }

  lemma FirstIffUnlisted(init: seq<Contribution>, frozen: set<Slug>, c: Contribution)
    requires forall s :: s in SlugOrder(init, frozen) <==>
      s !in frozen && exists j :: 0 <= j < |init| && init[j].concept.slug == s
    ensures FirstOfConcept(init + [c], frozen, |init|) <==>
      c.concept.slug !in frozen && c.concept.slug !in SlugOrder(init, frozen)
  {
    assert forall j :: 0 <= j < |init| ==> (init + [c])[j] == init[j];
  }

  lemma StillFirstOfConcept(init: seq<Contribution>, frozen: set<Slug>, c: Contribution)
    ensures forall i: nat :: i < |init| ==> FirstOfConcept(init + [c], frozen, i) == FirstOfConcept(init, frozen, i)
  {
    assert forall j :: 0 <= j < |init| ==> (init + [c])[j] == init[j];
  }

  /** Confidence and contradictions do not depend on the order of the contributions. */
  lemma FoldIgnoresOrder(cs: seq<Contribution>, ds: seq<Contribution>)
    requires cs != [] && multiset(cs) == multiset(ds)
    ensures ds != []
    ensures Fold(cs).confidence == Fold(ds).confidence
    ensures forall s :: Mentioned(Refs(Fold(cs)), s) <==> Mentioned(Refs(Fold(ds)), s)
    ensures multiset(Files(cs)) == multiset(Files(ds))
  {
    hide Fold, Files, Refs;
    SameMembers(cs, ds);
    FoldIsPessimistic(cs);
    FoldIsPessimistic(ds);
    LowestIsUnique(Fold(cs).confidence, Fold(ds).confidence, cs, ds);
    FilesIgnoreOrder(cs, ds);
  }

  lemma SameMembers(cs: seq<Contribution>, ds: seq<Contribution>)
    requires multiset(cs) == multiset(ds)
    ensures forall c :: c in cs <==> c in ds
    ensures cs != [] ==> ds != []
  {
    forall c
      ensures c in cs <==> c in ds
    {
      assert c in cs <==> c in multiset(cs);
    }
    assert cs != [] ==> cs[0] in ds;
  }

  lemma LowestIsUnique(x: Option<real>, y: Option<real>, cs: seq<Contribution>, ds: seq<Contribution>)
    requires LowestStated(x, cs) && LowestStated(y, ds) && forall c :: c in cs <==> c in ds
    ensures x == y
  {
    if x.Some? {
      var c :| c in cs && c.concept.confidence == x;
      assert c in ds;
    }
    if y.Some? {
      var d :| d in ds && d.concept.confidence == y;
      assert d in cs;
    }
  }

  lemma RemoveOne(cs: seq<Contribution>, ds: seq<Contribution>, k: nat)
    requires cs != [] && k < |ds| && cs[0] == ds[k] && multiset(cs) == multiset(ds)
    ensures multiset(cs[1..]) == multiset(ds[..k] + ds[k + 1..])
  {
    assert cs == [cs[0]] + cs[1..];
    assert ds == ds[..k] + ([ds[k]] + ds[k + 1..]);
    assert multiset(ds) == multiset(ds[..k]) + (multiset([ds[k]]) + multiset(ds[k + 1..]));
    assert multiset(cs) == multiset([cs[0]]) + multiset(cs[1..]);
    assert multiset(ds[..k] + ds[k + 1..]) == multiset(ds[..k]) + multiset(ds[k + 1..]);
    Cancel(multiset([cs[0]]), multiset(cs[1..]), multiset(ds[..k] + ds[k + 1..]));
  }

  lemma Cancel<T>(x: multiset<T>, a: multiset<T>, b: multiset<T>)
    requires x + a == x + b
    ensures a == b
  {
    assert forall t :: (x + a)[t] == x[t] + a[t] && (x + b)[t] == x[t] + b[t];
  }

  lemma FilesAppend(a: seq<Contribution>, b: seq<Contribution>)
    ensures multiset(Files(a + b)) == multiset(Files(a)) + multiset(Files(b))
  {
    assert Files(a + b) == Files(a) + Files(b);
  }

  lemma {:induction false} FilesIgnoreOrder(cs: seq<Contribution>, ds: seq<Contribution>)
    requires multiset(cs) == multiset(ds)
    ensures multiset(Files(cs)) == multiset(Files(ds))
    decreases |cs|
  {
    hide Files;
    if cs == [] {
      assert |ds| == |multiset(ds)| == 0;
    } else {
      assert cs[0] in multiset(ds);
      var k :| 0 <= k < |ds| && ds[k] == cs[0];
      RemoveOne(cs, ds, k);
      FilesIgnoreOrder(cs[1..], ds[..k] + ds[k + 1..]);
      FilesAppend(ds[..k], ds[k + 1..]);
      FilesAppend(ds[..k], [ds[k]] + ds[k + 1..]);
      FilesAppend([ds[k]], ds[k + 1..]);
      FilesAppend([cs[0]], cs[1..]);
      assert ds == ds[..k] + ([ds[k]] + ds[k + 1..]);
      assert cs == [cs[0]] + cs[1..];
    }
  }
}
