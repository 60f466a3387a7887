/**
 What a run does to the review queue, target by target: which pages are waiting after it,
 made from which sources.
 */
module Queue {
  import opened Sequences
  import opened WikiState
  import opened ExtractionPhase
  import opened Generation
  import opened ChangePlan
  import opened Orphan
  import opened Pending
  import opened Pipeline

  /** The candidates for one target, in order. */
  function For(candidates: Candidates, target: Target): Candidates {
    Keep(candidates, (c: Candidate) => c.target == target)
  }

  /** The digests of the sources in the batch that yield the concept. */
  ghost function Digests(run: Run, sources: Sources, s: Slug): map<File, Hash> {
    map f | f in run.disk && f in Batch(run, sources) && Yields(run, f, s) :: run.disk[f]
  }

  /**
   The candidates for a concept after its page was generated: one new one if the run is a review run or the policy holds
   the page, none if the page is live, and the earlier ones if it is invalid or was not rendered.
   */
  ghost function Queued(run: Run, sources: Sources, s: Slug, earlier: Candidates): Candidates {
    if run.generate(s) == Throws then earlier
    else if run.review || run.generate(s) == Held then [Candidate(ConceptPage(s), Digests(run, sources, s))]
    else if run.generate(s) == Invalid then earlier
    else []
  }

  // ----- One page -----

  lemma ForWithout(candidates: Candidates, s: Slug, target: Target)
    ensures For(Without(candidates, s), target) == if target == ConceptPage(s) then [] else For(candidates, target)
  {
    var p, q := (c: Candidate) => c.target != ConceptPage(s), (c: Candidate) => c.target == target;
    if target == ConceptPage(s) {
      var none := (c: Candidate) => false;
      KeepTwice(candidates, p, q, none);
      NoneKept(candidates, none);
    } else {
      KeepTwice(candidates, p, q, q);
    }
  }

  lemma {:induction false} NoneKept(candidates: Candidates, p: Candidate -> bool)
    requires forall c :: c in candidates ==> !p(c)
    ensures Keep(candidates, p) == []
  {
    if candidates != [] {
      assert candidates[|candidates| - 1] in candidates;
      NoneKept(candidates[..|candidates| - 1], p);
    }
  }

  lemma ForAppend(candidates: Candidates, c: Candidate, target: Target)
    ensures For(candidates + [c], target) == if c.target == target then For(candidates, target) + [c] else For(candidates, target)
  {
    assert (candidates + [c])[..|candidates|] == candidates;
  }

  lemma HeldDigests(run: Run, sources: Sources, s: Slug)
    ensures CandidateFor(run, Batch(run, sources), s) == Candidate(ConceptPage(s), Digests(run, sources, s))
  {
    var held := CandidateFor(run, Batch(run, sources), s).hashes;
    hide Batch;
    forall f
      ensures f in held <==> f in Digests(run, sources, s)
    {}
  }

  lemma PageQueues(run: Run, sources: Sources, candidates: Candidates, s: Slug, target: Target)
    ensures For(AfterPage(run, Batch(run, sources), candidates, s), target) ==
      if target == ConceptPage(s) then Queued(run, sources, s, For(candidates, target)) else For(candidates, target)
  {
    hide Batch, CandidateFor, For, Without, Digests;
    HeldDigests(run, sources, s);
    ForWithout(candidates, s, target);
    ForAppend(Without(candidates, s), CandidateFor(run, Batch(run, sources), s), target);
  }

  // ----- All pages -----

  lemma {:induction false} PagesQueue(run: Run, sources: Sources, candidates: Candidates, slugs: seq<Slug>, target: Target)
    requires Distinct(slugs)
    ensures For(AfterPages(run, Batch(run, sources), candidates, slugs), target) ==
      if target.ConceptPage? && target.slug in slugs then Queued(run, sources, target.slug, For(candidates, target))
      else For(candidates, target)
  {
    hide Batch, AfterPage, For, Queued;
    if slugs == [] {
      NoPages(run, Batch(run, sources), candidates);
    } else {
      var init, s := slugs[..|slugs| - 1], slugs[|slugs| - 1];
      assert slugs == init + [s] && s !in init;
      AfterOneMore(run, Batch(run, sources), candidates, init, s);
      PagesQueue(run, sources, candidates, init, target);
      PageQueues(run, sources, AfterPages(run, Batch(run, sources), candidates, init), s, target);
    }
  }

  /** The queue after a run, whatever came of it: for each concept as before, or as its page was generated. */
  ghost predicate QueuesSome(run: Run, before: Wiki, after: Wiki, target: Target) {
    || For(after.candidates, target) == For(before.candidates, target)
    || (target.ConceptPage? && Merges(run, Batch(run, before.state.sources), Frozen(run, before.state), target.slug) &&
        For(after.candidates, target) == Queued(run, before.state.sources, target.slug, For(before.candidates, target)))
  }

  /**
   Main result: after a run that came to its end, in review mode too, every merged concept has the candidates that its
   page and the mode ask for, and those for any other target are as they were.
   */
  lemma CompletedRunQueues(before: Wiki, run: Run, outcome: Outcome, after: Wiki, target: Target)
    requires Step(before, run, outcome, after) && outcome.Compiled?
    ensures For(after.candidates, target) ==
      if target.ConceptPage? && target.slug in outcome.merged
      then Queued(run, before.state.sources, target.slug, For(before.candidates, target))
      else For(before.candidates, target)
    ensures forall s :: s in outcome.merged ==> run.generate(s) != Throws
  {
    var state := before.state;
    CompletedParts(before, run, outcome, after);
    hide Step, Batch, Frozen, Merges, AfterPages, For, Queued, Succeeds, AllExtracted, DiesEarly;
    var generated: seq<Slug> :| IsGeneration(run, state, generated) &&
      after.candidates == AfterPages(run, Batch(run, state.sources), before.candidates, generated);
    PagesQueue(run, state.sources, before.candidates, generated, target);
  }

  lemma CompletedParts(before: Wiki, run: Run, outcome: Outcome, after: Wiki)
    requires Step(before, run, outcome, after) && outcome.Compiled?
    ensures Succeeds(run, before.state) && !DiesEarly(run, before.state) && Reports(run, before.state, outcome)
    ensures !run.stop.InDeletions? && AllExtracted(run, Batch(run, before.state.sources))
    ensures CandidatesStep(run, before.state, before.candidates, after.candidates)
    ensures forall s :: s in outcome.merged ==> run.generate(s) != Throws
  {
    SuccessExtracts(run, before.state);
    hide Batch, Frozen, Merges, AllExtracted, CandidatesStep, NextPages, NextSources, OrphanedBy, UnflushedPages, Deletions,
      NoWork, Orphaned;
  }

  /** And after any run at all, no target has other candidates than before or than its page asks for. */
  lemma AnyRunQueues(before: Wiki, run: Run, outcome: Outcome, after: Wiki, target: Target)
    requires Step(before, run, outcome, after)
    ensures QueuesSome(run, before, after, target)
  {
    hide LiveStep, NoWork, Batch, Frozen, Merges, AfterPages, For, Queued, Succeeds, AllExtracted, DiesEarly;
    if after.candidates != before.candidates {
      var generated: seq<Slug> :| IsGeneration(run, before.state, generated) &&
        after.candidates == AfterPages(run, Batch(run, before.state.sources), before.candidates, generated);
      PagesQueue(run, before.state.sources, before.candidates, generated, target);
    }
  }

  /** A review run leaves exactly one candidate for every concept of its batch, with the digests of its sources. */
  lemma ReviewRunQueues(before: Wiki, run: Run, outcome: Outcome, after: Wiki, s: Slug)
    requires Step(before, run, outcome, after) && outcome.Compiled? && run.review && s in outcome.merged
    ensures For(after.candidates, ConceptPage(s)) == [Candidate(ConceptPage(s), Digests(run, before.state.sources, s))]
    ensures after.state == before.state && after.pages == before.pages
  {
    CompletedRunQueues(before, run, outcome, after, ConceptPage(s));
    hide LiveStep, CandidatesStep, NoWork, Reports, Succeeds, DiesEarly, For;
  }
}
