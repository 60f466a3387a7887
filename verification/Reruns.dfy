/**
 Whether a compile that failed or died is simply repeated: the candidates that it changed
 on the way decide which sources the next run takes for unchanged.
 */
module Reruns {
  import opened Options
  import opened Sequences
  import opened WikiState
  import opened Deps
  import opened Hasher
  import opened ExtractionPhase
  import opened Generation
  import opened ChangePlan
  import opened Orphan
  import opened Pending
  import opened Pipeline
  import opened CompileRuns
  import opened Interruptions
  import Review

  // ----- What the rerun takes for unchanged -----

  /** The file is new or changed, and the caller's filter lets it through. */
  predicate Considered(run: Run, sources: Sources, f: File) {
    f in run.disk && Classify(run.disk, sources, f) != Unchanged && run.keep(SourceChange(f, Classify(run.disk, sources, f)))
  }

  /** Some candidates hold the current digest of the file. */
  predicate Covers(run: Run, candidates: Candidates, f: File) {
    var hashes := SourceHashes(candidates);
    f in run.disk && f in hashes && hashes[f] != "" && hashes[f] == run.disk[f]
  }

  /** Once these pages were generated: one of them is held and made from the file, or an untouched candidate covers it. */
  predicate CoveredAfter(run: Run, batch: set<File>, candidates: Candidates, slugs: seq<Slug>, f: File) {
    (HeldFrom(run, batch, slugs, f) && f in run.disk && run.disk[f] != "") || Covers(run, Untouched(run, candidates, slugs), f)
  }

  lemma CoveredAfterPages(run: Run, batch: set<File>, candidates: Candidates, slugs: seq<Slug>, f: File)
    requires Distinct(slugs)
    ensures Covers(run, AfterPages(run, batch, candidates, slugs), f) <==> CoveredAfter(run, batch, candidates, slugs, f)
  {
    HashesAfterPages(run, batch, candidates, slugs, f);
    hide HeldFrom, AfterPages, Untouched, SourceHashes;
  }

  /**
   Main result: a rerun on the same disk has the direct changes of the run before it exactly when none of these is
   covered by what that run left, and no file that was covered has lost its cover.
   */
  lemma SameChangesIff(before: Wiki, run: Run, outcome: Outcome, between: Wiki, slugs: seq<Slug>, again: Run)
    requires Step(before, run, outcome, between) && Distinct(slugs)
    requires between.candidates == AfterPages(run, Batch(run, before.state.sources), before.candidates, slugs)
    requires again.disk == run.disk && again.keep == run.keep && again.pending == SourceHashes(between.candidates)
    ensures DirectChanges(again, before.state.sources) == DirectChanges(run, before.state.sources) <==>
      && (forall f :: f in DirectChanges(run, before.state.sources) ==>
            !CoveredAfter(run, Batch(run, before.state.sources), before.candidates, slugs, f))
      && (forall f :: Considered(run, before.state.sources, f) && Covers(run, before.candidates, f) ==>
            CoveredAfter(run, Batch(run, before.state.sources), before.candidates, slugs, f))
  {
    hide LiveStep, CandidatesStep, NoWork;
    assert run.pending == SourceHashes(before.candidates);
    hide Step, AfterPages, Batch, SourceHashes;
    var sources, batch := before.state.sources, Batch(run, before.state.sources);
    forall f
      ensures f in DirectChanges(run, sources) <==> Considered(run, sources, f) && !Covers(run, before.candidates, f)
      ensures f in DirectChanges(again, sources) <==>
        Considered(run, sources, f) && !CoveredAfter(run, batch, before.candidates, slugs, f)
    {
      CoveredAfterPages(run, batch, before.candidates, slugs, f);
      hide CoveredAfter;
    }
    hide DirectChanges, Considered, CoveredAfter, Covers;
  }

  /** Every run leaves the candidates that some of its pages leave. */
  lemma PagesGenerated(before: Wiki, run: Run, outcome: Outcome, after: Wiki) returns (slugs: seq<Slug>)
    requires Step(before, run, outcome, after)
    ensures Distinct(slugs) && after.candidates == AfterPages(run, Batch(run, before.state.sources), before.candidates, slugs)
    ensures forall s :: s in slugs ==> Merges(run, Batch(run, before.state.sources), Frozen(run, before.state), s)
  {
    var state, batch := before.state, Batch(run, before.state.sources);
    hide LiveStep, NoWork, Batch, Frozen, Merges, AllExtracted, Succeeds;
    NoPages(run, batch, before.candidates);
    hide AfterPages;
    if after.candidates == before.candidates {
      slugs := [];
    } else {
      slugs :| IsGeneration(run, state, slugs) && after.candidates == AfterPages(run, batch, before.candidates, slugs);
    }
  }

  // ----- Runs that leave the candidates alone -----

  /** No page that the run may generate is held, and none of them has a candidate. */
  ghost predicate LeavesCandidates(run: Run, state: WikiState, candidates: Candidates) {
    forall s :: Merges(run, Batch(run, state.sources), Frozen(run, state), s) ==>
      GeneratedAs(run, s) != Held && forall c :: c in candidates ==> c.target != ConceptPage(s)
  }

  lemma {:induction false} NothingToTouch(run: Run, batch: set<File>, candidates: Candidates, slugs: seq<Slug>)
    requires forall s :: s in slugs ==> GeneratedAs(run, s) != Held && forall c :: c in candidates ==> c.target != ConceptPage(s)
    ensures AfterPages(run, batch, candidates, slugs) == candidates
  {
    if slugs != [] {
      var init, s := slugs[..|slugs| - 1], slugs[|slugs| - 1];
      assert s in slugs;
      NothingToTouch(run, batch, candidates, init);
      KeepAll(candidates, (c: Candidate) => c.target != ConceptPage(s));
    }
  }

  lemma CandidatesUntouched(before: Wiki, run: Run, outcome: Outcome, after: Wiki)
    requires Step(before, run, outcome, after)
    requires Extracts(run, before.state) ==> LeavesCandidates(run, before.state, before.candidates)
    ensures after.candidates == before.candidates
  {
    if Extracts(run, before.state) {
      var slugs := PagesGenerated(before, run, outcome, after);
      hide Step, Batch, Frozen, Merges, GeneratedAs, Extracts;
      NothingToTouch(run, Batch(run, before.state.sources), before.candidates, slugs);
    } else {
      hide Batch, AllExtracted, LiveStep, NoWork;
    }
  }

  lemma {:induction false} HistoryUntouched(h: History, i: nat)
    requires InterruptedUntilLast(h) && i < |h.runs|
    requires LeavesCandidates(LastFrom(h, 0), h.wikis[0].state, h.wikis[0].candidates)
    ensures h.wikis[i].candidates == h.wikis[0].candidates
  {
    hide LeavesCandidates, InterruptedUntilLast, LastFrom, SamePlan, Step;
    if i > 0 {
      HistoryUntouched(h, i - 1);
      StateUntouched(h, i - 1);
      FoundAtFirst(h, i - 1);
      RunUntouched(h.wikis[i - 1], h.runs[i - 1], h.outcomes[i - 1], h.wikis[i], LastFrom(h, 0));
    }
  }

  lemma RunUntouched(before: Wiki, run: Run, outcome: Outcome, after: Wiki, last: Run)
    requires Step(before, run, outcome, after) && SamePlan(run, last, before.state)
    requires LeavesCandidates(last, before.state, before.candidates)
    ensures after.candidates == before.candidates
  {
    hide LeavesCandidates, Step, SamePlan, Extracts;
    if Extracts(run, before.state) {
      LeaveAlike(run, last, before.state, before.candidates);
    }
    CandidatesUntouched(before, run, outcome, after);
  }

  /** A run that finds the candidates of the first one plans what the last one would in its place. */
  lemma FoundAtFirst(h: History, i: nat)
    requires InterruptedUntilLast(h) && i < |h.runs| - 1 && h.wikis[i].candidates == h.wikis[0].candidates
    ensures |h.wikis| == |h.outcomes| + 1 == |h.runs| + 1
    ensures SamePlan(h.runs[i], LastFrom(h, 0), h.wikis[0].state)
    ensures Step(h.wikis[i], h.runs[i], h.outcomes[i], h.wikis[i + 1])
  {
    hide LiveStep, CandidatesStep, NoWork, SourceHashes, DirectChanges, Extracts, Merges, Batch, Frozen;
    var state, last := h.wikis[0].state, h.runs[|h.runs| - 1];
    assert Step(h.wikis[i], h.runs[i], h.outcomes[i], h.wikis[i + 1]);
    assert Step(h.wikis[0], h.runs[0], h.outcomes[0], h.wikis[1]);
    assert Repeats(h.runs[i], last, state);
    SameCover(h.runs[i], LastFrom(h, 0), state.sources);
  }

  lemma LeaveAlike(run: Run, again: Run, state: WikiState, candidates: Candidates)
    requires SamePlan(run, again, state) && Extracts(run, state) && LeavesCandidates(again, state, candidates)
    ensures LeavesCandidates(run, state, candidates)
  {
    SameRun(run, again, state);
    assert run.review == again.review;
    hide SamePlan, Extracts, Batch, Frozen, Merges;
  }

  /**
   What a caller can check before the first run: if no page that the batch of the last one yields can be held, and none
   has a candidate waiting, then no interruption or failure changes what the next run compiles.
   */
  lemma UntouchedCandidatesKeepChanges(h: History)
    requires InterruptedUntilLast(h) && LeavesCandidates(LastFrom(h, 0), h.wikis[0].state, h.wikis[0].candidates)
    ensures KeepsChanges(h)
  {
    hide LeavesCandidates, DirectChanges;
    forall i | 0 <= i < |h.runs|
      ensures DirectChanges(h.runs[i], h.wikis[0].state.sources) == DirectChanges(h.runs[0], h.wikis[0].state.sources)
    {
      HistoryUntouched(h, i);
      SamePending(h, i);
    }
  }

  lemma SamePending(h: History, i: nat)
    requires InterruptedUntilLast(h) && i < |h.runs| && h.wikis[i].candidates == h.wikis[0].candidates
    ensures DirectChanges(h.runs[i], h.wikis[0].state.sources) == DirectChanges(h.runs[0], h.wikis[0].state.sources)
  {
    hide LiveStep, CandidatesStep, NoWork, SourceHashes, DirectChanges, Extracts, Merges, Batch, Frozen;
    assert Step(h.wikis[i], h.runs[i], h.outcomes[i], h.wikis[i + 1]);
    assert Step(h.wikis[0], h.runs[0], h.outcomes[0], h.wikis[1]);
    var last := h.runs[|h.runs| - 1];
    assert i < |h.runs| - 1 ==> Repeats(h.runs[i], last, h.wikis[0].state);
    assert 0 < |h.runs| - 1 ==> Repeats(h.runs[0], last, h.wikis[0].state);
    SameCover(h.runs[i], h.runs[0], h.wikis[0].state.sources);
  }

  // ----- Interruptions that are not repeated -----

  /**
   The promise that an interrupted compile is run again as a whole fails: `f` changed and yields `s1`, which is held,
   and `s2`. The run dies after the candidate for `s1` is stored; from then on every run on the same inputs takes `f`
   for unchanged and does nothing, and once `s1` is approved `f` is recorded as compiled. `s2` is never written.
   */
  lemma HeldPageHidesChange(f: File, s1: Slug, s2: Slug, h: Hash, h': Hash)
    returns (before: Wiki, run: Run, between: Wiki)
    requires s1 != s2 && h != h' && h' != ""
    ensures before == Wiki(WikiState(map[f := SourceState(h, [])], {}), map[], []) && !run.review
    ensures Yields(run, f, s1) && run.generate(s1) == Held && Yields(run, f, s2) && run.generate(s2) == Written
    ensures Step(before, run, Interrupted, between) && f in DirectChanges(run, before.state.sources)
    ensures between == before.(candidates := [Candidate(ConceptPage(s1), map[f := h'])])
    ensures forall again: Run ::
      again.disk == run.disk && again.keep == run.keep && again.pending == SourceHashes(between.candidates) ==>
      NoWork(again, between.state.sources)
    ensures forall again: Run :: again.disk == run.disk && again.keep == run.keep ==>
      NoWork(again, Review.WithApprovedSlug(between.state.sources, f, s1, h'))
  {
    before := Wiki(WikiState(map[f := SourceState(h, [])], {}), map[], []);
    run := Run(map[f := h'], change => true, map[], file => Some([Concept(s1), Concept(s2)]),
               slug => if slug == s1 then Held else Written, false, InGeneration);
    between := before.(candidates := [Candidate(ConceptPage(s1), map[f := h'])]);
    var sources := before.state.sources;
    OneSourceBatch(run, sources, f);
    TwoConcepts(run, f, s1, s2);
    DirectlyChanged(run, sources, f);
    OneHeldPage(before, run, between, f, s1);
    forall again: Run | again.disk == run.disk && again.keep == run.keep
      ensures again.pending == SourceHashes(between.candidates) ==> NoWork(again, between.state.sources)
      ensures NoWork(again, Review.WithApprovedSlug(between.state.sources, f, s1, h'))
    {
      OneHash(between.candidates[0]);
      if again.pending == SourceHashes(between.candidates) {
        RecordedOrCovered(again, sources, f);
      }
      RecordedOrCovered(again, Review.WithApprovedSlug(sources, f, s1, h'), f);
    }
  }

  lemma TwoConcepts(run: Run, f: File, s1: Slug, s2: Slug)
    requires Extract(run, f) == Some([Concept(s1), Concept(s2)])
    ensures forall s :: Yields(run, f, s) <==> s == s1 || s == s2
    ensures !Empty(run, f)
  {
    var slugs := SlugsOf([Concept(s1), Concept(s2)]);
    assert slugs[0] == s1 && slugs[1] == s2 && [Concept(s1), Concept(s2)] != [];
  }

  lemma DirectlyChanged(run: Run, sources: Sources, f: File)
    requires Unfiltered(run) && f in run.disk && f in sources && sources[f].hash != run.disk[f]
    ensures f in DirectChanges(run, sources)
  {
    assert run.keep(SourceChange(f, Changed));
  }

  lemma OneHash(c: Candidate)
    ensures SourceHashes([c]) == c.hashes
  {
    HashesAppend([], c);
    assert [] + [c] == [c];
  }

  /** A run over one source dies once the first page was held. */
  lemma OneHeldPage(before: Wiki, run: Run, after: Wiki, f: File, s: Slug)
    requires !run.review && run.stop == InGeneration && f in run.disk && Yields(run, f, s) && run.generate(s) == Held
    requires before.candidates == [] && run.pending == map[] && before.state.frozenSlugs == {} && !Empty(run, f)
    requires Batch(run, before.state.sources) == {f} && Deletions(run, before.state.sources) == {}
    requires after == before.(candidates := [Candidate(ConceptPage(s), map[f := run.disk[f]])])
    requires !NoWork(run, before.state.sources)
    ensures Step(before, run, Interrupted, after)
  {
    hide Batch, Deletions, NoWork;
    NoPages(run, {f}, []);
    OnlyPage(run, {f}, [], s);
    assert CandidateFor(run, {f}, s).hashes == map[f := run.disk[f]];
    assert after.candidates == AfterPages(run, {f}, before.candidates, [s]);
    assert Frozen(run, before.state) == {};
    hide Yields, Empty, AfterPages;
    assert IsGeneration(run, before.state, [s]);
    OrphanedNothing(before.pages);
    assert LiveStep(before, run, Interrupted, after, [], before.pages);
  }

  /** No file is a direct change that is recorded with its digest or covered. */
  lemma RecordedOrCovered(run: Run, sources: Sources, f: File)
    requires run.disk.Keys == sources.Keys == {f}
    requires sources[f].hash == run.disk[f] || CoveredByPending(run, f)
    ensures NoWork(run, sources)
  {
    assert DirectChanges(run, sources) == {};
    assert AffectedBy(sources, {}, {}) == {};
  }

  /**
   No review policy is needed: `g` is covered by a candidate for `s`, which the changed `f` yields too. The run writes
   the page, which deletes the candidate, and dies; the next run compiles `g` as well.
   */
  lemma LivePageUncovers(f: File, g: File, s: Slug, h: Hash, h': Hash, k: Hash)
    returns (before: Wiki, run: Run, between: Wiki)
    requires f != g && h != h' && k != ""
    ensures before == Wiki(WikiState(map[f := SourceState(h, [])], {}), map[], [Candidate(ConceptPage(s), map[g := k])])
    ensures !run.review && forall slug :: run.generate(slug) == Written
    ensures Step(before, run, Interrupted, between) && between == before.(candidates := [])
    ensures Batch(run, before.state.sources) == {f}
    ensures forall again: Run ::
      again.disk == run.disk && again.keep == run.keep && again.pending == SourceHashes(between.candidates) ==>
      g in Batch(again, between.state.sources)
  {
    before := Wiki(WikiState(map[f := SourceState(h, [])], {}), map[], [Candidate(ConceptPage(s), map[g := k])]);
    run := Run(map[f := h', g := k], change => true, map[g := k], file => Some([Concept(s), Concept(s)]),
               slug => Written, false, InGeneration);
    between := before.(candidates := []);
    var sources := before.state.sources;
    OneHash(before.candidates[0]);
    TwoConcepts(run, f, s, s);
    CoveredBatch(run, sources, f, g);
    CandidateDeleted(before, run, between, f, s);
    forall again: Run | again.disk == run.disk && again.keep == run.keep && again.pending == SourceHashes(between.candidates)
      ensures g in Batch(again, sources)
    {
      assert again.keep(SourceChange(g, New));
      assert g in DirectChanges(again, sources);
    }
  }

  lemma CoveredBatch(run: Run, sources: Sources, f: File, g: File)
    requires f != g && run.disk.Keys == {f, g} && sources.Keys == {f} && sources[f].hash != run.disk[f]
    requires KeepsAll(run) && run.pending.Keys == {g} && CoveredByPending(run, g)
    ensures Batch(run, sources) == {f} && Deletions(run, sources) == {}
  {
    assert run.keep(SourceChange(f, Changed));
    assert DirectChanges(run, sources) == {f};
    assert AffectedBy(sources, {f}, {}) == {};
    assert FirstBatch(run, sources) == {f};
    hide FirstBatch;
    assert LateBatch(run, sources) == {};
  }

  /** A run over one source dies once its page, which had the only candidate, was generated as live. */
  lemma CandidateDeleted(before: Wiki, run: Run, after: Wiki, f: File, s: Slug)
    requires !run.review && run.stop == InGeneration && f in run.disk && Yields(run, f, s) && run.generate(s) == Written
    requires |before.candidates| == 1 && before.candidates[0].target == ConceptPage(s)
    requires run.pending == SourceHashes(before.candidates) && before.state.frozenSlugs == {} && !Empty(run, f)
    requires Batch(run, before.state.sources) == {f} && Deletions(run, before.state.sources) == {}
    requires after == before.(candidates := []) && !NoWork(run, before.state.sources)
    ensures Step(before, run, Interrupted, after)
  {
    hide Batch, Deletions, NoWork, SourceHashes;
    OnlyPage(run, {f}, before.candidates, s);
    WithoutAppend([], before.candidates[0], s);
    assert [] + before.candidates == before.candidates == [before.candidates[0]];
    assert after.candidates == AfterPages(run, {f}, before.candidates, [s]);
    assert Frozen(run, before.state) == {};
    hide Yields, Empty, AfterPages;
    assert IsGeneration(run, before.state, [s]);
    OrphanedNothing(before.pages);
    assert LiveStep(before, run, Interrupted, after, [], before.pages);
  }

  /**
   The order of deletions can matter: `f` lists a concept twice and `g` once. A run that deletes `f` first orphans the
   page, one that deletes `g` first does not; if the first dies, the second does not bring the page back.
   */
  lemma OtherOrderLosesPage(f: File, g: File, s: Slug) returns (before: Wiki, run: Run)
    requires f != g && IsSafeFilenameComponent(s)
    ensures OrderingOf([f, g], Deletions(run, before.state.sources)) && OrderingOf([g, f], Deletions(run, before.state.sources))
    ensures before.pages == map[s := Page(false)] && Owns(before.state.sources, f, s) && Owns(before.state.sources, g, s)
    ensures s in LostToOrder(before, run, [f, g], [g, f]) && !Settles(run.(stop := Never), before.state, s)
  {
    var sources := map[f := SourceState("", [s, s]), g := SourceState("", [s])];
    before := Wiki(WikiState(sources, {}), map[s := Page(false)], []);
    run := Run(map[], change => true, map[], file => None, slug => Written, false, BeforeFlush);
    assert run.keep(SourceChange(f, Deleted)) && run.keep(SourceChange(g, Deleted));
    assert Deletions(run, sources) == {f, g};
    assert Processed(run, [f, g]) == [f, g];
    DoubleListing(sources, f, g, s);
    NothingYielded(run.(stop := Never), before.state, s);
  }

  lemma DoubleListing(sources: Sources, f: File, g: File, s: Slug)
    requires f != g && sources == map[f := SourceState("", [s, s]), g := SourceState("", [s])]
    ensures s in OrphanedBy(sources, [f, g]) && s !in OrphanedBy(sources, [g, f])
  {
    assert multiset([s]) == multiset{s} && multiset([s, s]) == multiset{s, s};
    OrphanedExactly(sources, [f, g], s);
    OrphanedExactly(sources, [g, f], s);
    assert [f, g][..1] == [f] && [g, f][..1] == [g] && [g, f][..0] == [];
    assert LastOwner(sources, [f, g], 1, s);
    assert [s, s][0] == s && Owns(sources, f, s) && f !in [g, f][..0];
    assert Lists(sources, f, s) == 2;
  }

  lemma NothingYielded(run: Run, state: WikiState, s: Slug)
    requires run.disk == map[] && !run.review && state.frozenSlugs == {}
    ensures !Settles(run, state, s)
  {
    assert Extract(run, "").None?;
    assert forall f :: Extract(run, f).None?;
    hide Batch, NextSources;
    assert Frozen(run, state) == {};
  }
}
