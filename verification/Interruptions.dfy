/**
 What a run that fails or dies before its state write leaves for the next one: the next run
 starts from the same state, and if it does again what the first one did, apart from its
 failures, it ends as if nothing had happened.
 */
module Interruptions {
  import opened Options
  import opened Sequences
  import opened WikiState
  import opened Deps
  import opened Hasher
  import opened ExtractionPhase
  import opened ChangePlan
  import opened Generation
  import opened Orphan
  import opened Pending
  import opened Pipeline
  import opened CompileRuns

  /** The run came as far as generating pages: every extraction of its batch succeeded. */
  ghost predicate Extracts(run: Run, state: WikiState) {
    !run.stop.InDeletions? && AllExtracted(run, Batch(run, state.sources))
  }

  /**
   On the same disk, under the same filter and in the same mode, the second run extracts and generates again what the
   first one did, as far as that came and did not fail. A run with a failed extraction did nothing that has to be
   repeated, nor does a page that threw; they may end in any way the second time.
   */
  ghost predicate Repeats(run: Run, again: Run, state: WikiState) {
    && again.disk == run.disk && again.keep == run.keep && again.review == run.review
    && (Extracts(run, state) ==>
      && (forall f :: f in Batch(run, state.sources) ==> again.extract(f) == run.extract(f))
      && forall s :: Merges(run, Batch(run, state.sources), Frozen(run, state), s) && run.generate(s) != Throws ==>
          again.generate(s) == run.generate(s))
  }

  /** And the candidates that both find leave them the same direct changes. */
  ghost predicate SamePlan(run: Run, again: Run, state: WikiState) {
    Repeats(run, again, state) && DirectChanges(run, state.sources) == DirectChanges(again, state.sources)
  }

  /** It is enough that extraction and generation agree wherever the first run does not fail. */
  lemma AgreementRepeats(run: Run, again: Run, state: WikiState)
    requires again.disk == run.disk && again.keep == run.keep && again.review == run.review
    requires forall f :: run.extract(f).None? || again.extract(f) == run.extract(f)
    requires forall s :: run.generate(s) == Throws || again.generate(s) == run.generate(s)
    ensures Repeats(run, again, state)
  {
    hide Batch, Frozen, Merges;
    if Extracts(run, state) {
      forall f | f in Batch(run, state.sources)
        ensures again.extract(f) == run.extract(f)
      {
        assert Extract(run, f).Some?;
      }
    }
  }

  // ----- The direct changes decide the rest -----

  lemma SameFirstBatch(run: Run, again: Run, state: WikiState)
    requires SamePlan(run, again, state)
    ensures Deletions(run, state.sources) == Deletions(again, state.sources)
    ensures FirstBatch(run, state.sources) == FirstBatch(again, state.sources)
    ensures NoWork(run, state.sources) <==> NoWork(again, state.sources)
  {
    hide DirectChanges, AffectedBy, Extracts;
  }

  lemma SameExtraction(run: Run, again: Run, state: WikiState, f: File)
    requires Repeats(run, again, state) && Extracts(run, state) && f in Batch(run, state.sources)
    ensures Extract(run, f).Some? && Extract(again, f) == Extract(run, f)
    ensures Empty(run, f) <==> Empty(again, f)
    ensures forall s :: Yields(run, f, s) <==> Yields(again, f, s)
  {
    hide Batch, Frozen, Merges;
  }

  lemma SameBatch(run: Run, again: Run, state: WikiState)
    requires SamePlan(run, again, state) && Extracts(run, state)
    ensures Batch(run, state.sources) == Batch(again, state.sources)
    ensures AllExtracted(again, Batch(again, state.sources))
  {
    SameFirstBatch(run, again, state);
    hide Repeats, FirstBatch, Deletions, Extract, DirectChanges, Extracts;
    forall f | f in Batch(run, state.sources)
      ensures Extract(run, f).Some? && Extract(again, f) == Extract(run, f)
    {
      SameExtraction(run, again, state, f);
    }
    assert LateBatch(run, state.sources) == LateBatch(again, state.sources) by {
      assert forall f, s :: f in FirstBatch(run, state.sources) ==>
        Gains(run, state.sources, f, s) == Gains(again, state.sources, f, s);
    }
  }

  lemma SameFrozen(run: Run, again: Run, state: WikiState)
    requires SamePlan(run, again, state) && Extracts(run, state)
    ensures Frozen(run, state) == Frozen(again, state)
  {
    SameFirstBatch(run, again, state);
    SameBatch(run, again, state);
    forall f | f in Batch(run, state.sources)
      ensures Empty(run, f) <==> Empty(again, f)
    {
      SameExtraction(run, again, state, f);
    }
    assert run.review == again.review;
    hide Batch, Deletions, SamePlan, Empty, Extracts;
  }

  lemma SameMerge(run: Run, again: Run, state: WikiState, s: Slug)
    requires SamePlan(run, again, state) && Extracts(run, state)
    ensures
      Merges(run, Batch(run, state.sources), Frozen(run, state), s) <==>
      Merges(again, Batch(again, state.sources), Frozen(again, state), s)
    ensures Merges(run, Batch(run, state.sources), Frozen(run, state), s) && run.generate(s) != Throws ==>
      again.generate(s) == run.generate(s)
  {
    SameBatch(run, again, state);
    SameFrozen(run, again, state);
    forall f | f in Batch(run, state.sources)
      ensures Yields(run, f, s) <==> Yields(again, f, s)
    {
      SameExtraction(run, again, state, f);
    }
    hide Batch, Frozen, Yields, Extracts, DirectChanges;
  }

  /** What the second run shares with a first one that extracted everything. */
  lemma SameRun(run: Run, again: Run, state: WikiState)
    requires SamePlan(run, again, state) && Extracts(run, state)
    ensures Deletions(run, state.sources) == Deletions(again, state.sources)
    ensures Batch(run, state.sources) == Batch(again, state.sources) && Frozen(run, state) == Frozen(again, state)
    ensures AllExtracted(again, Batch(again, state.sources))
    ensures forall s ::
      Merges(run, Batch(run, state.sources), Frozen(run, state), s) <==>
      Merges(again, Batch(again, state.sources), Frozen(again, state), s)
    ensures forall s :: Merges(run, Batch(run, state.sources), Frozen(run, state), s) && run.generate(s) != Throws ==>
      again.generate(s) == run.generate(s)
  {
    SameFirstBatch(run, again, state);
    SameBatch(run, again, state);
    SameFrozen(run, again, state);
    hide SamePlan, Batch, Frozen, Merges, Extracts, Deletions;
    forall s
      ensures
        Merges(run, Batch(run, state.sources), Frozen(run, state), s) <==>
        Merges(again, Batch(again, state.sources), Frozen(again, state), s)
      ensures Merges(run, Batch(run, state.sources), Frozen(run, state), s) && run.generate(s) != Throws ==>
        again.generate(s) == run.generate(s)
    {
      SameMerge(run, again, state, s);
    }
  }

  /** And with one that succeeded. */
  lemma SameSuccess(run: Run, again: Run, state: WikiState)
    requires SamePlan(run, again, state) && Extracts(run, state) && Succeeds(run, state)
    ensures Succeeds(again, state)
    ensures forall s ::
      Publishes(run, Batch(run, state.sources), Frozen(run, state), s) <==>
      Publishes(again, Batch(again, state.sources), Frozen(again, state), s)
  {
    SameRun(run, again, state);
    hide SamePlan, Batch, Frozen, Merges, Extracts, Deletions, AllExtracted;
  }

  lemma SameSources(run: Run, again: Run, state: WikiState)
    requires SamePlan(run, again, state) && Extracts(run, state) && Succeeds(run, state)
    ensures AllExtracted(again, Batch(again, state.sources))
    ensures NextSources(run, state) == NextSources(again, state)
  {
    SameRun(run, again, state);
    hide SamePlan, Batch, Frozen, Deletions, Publishes, Merges, Succeeds, Extract, Extracts;
    forall f | f in Batch(run, state.sources)
      ensures Extract(run, f) == Extract(again, f) && Extract(run, f).Some?
      ensures Entry(run, state.sources, Frozen(run, state), f) == Entry(again, state.sources, Frozen(again, state), f)
    {
      SameEntry(run, again, state, f);
    }
    SameEntries(run, again, state);
  }

  lemma SameEntries(run: Run, again: Run, state: WikiState)
    requires AllExtracted(run, Batch(run, state.sources)) && AllExtracted(again, Batch(again, state.sources))
    requires Deletions(run, state.sources) == Deletions(again, state.sources)
    requires Batch(run, state.sources) == Batch(again, state.sources) && Frozen(run, state) == Frozen(again, state)
    requires forall f :: f in Batch(run, state.sources) ==>
      Extract(run, f).Some? && Extract(again, f).Some? &&
      Entry(run, state.sources, Frozen(run, state), f) == Entry(again, state.sources, Frozen(again, state), f)
    ensures NextSources(run, state) == NextSources(again, state)
  {
    hide Batch, Frozen, Deletions, Entry, Extract;
  }

  lemma SameEntry(run: Run, again: Run, state: WikiState, f: File)
    requires SamePlan(run, again, state) && Extracts(run, state) && Succeeds(run, state)
    requires f in Batch(run, state.sources)
    ensures Extract(run, f).Some? && Extract(again, f) == Extract(run, f)
    ensures Entry(run, state.sources, Frozen(run, state), f) == Entry(again, state.sources, Frozen(again, state), f)
  {
    var batch, frozen := Batch(run, state.sources), Frozen(run, state);
    SameRun(run, again, state);
    SameExtraction(run, again, state, f);
    assert again.disk == run.disk;
    hide SamePlan, Batch, Frozen, Deletions, Extracts, AllExtracted;
    var slugs := SlugsOf(Extract(run, f).value);
    forall s | s in slugs
      ensures (s !in frozen && run.generate(s) == Written) == (s !in frozen && again.generate(s) == Written)
    {
      if s !in frozen {
        assert Yields(run, f, s);
        assert Merges(run, batch, frozen, s);
      }
    }
    hide Merges, Succeeds;
    KeepAgrees(slugs, s => s !in frozen && run.generate(s) == Written, s => s !in frozen && again.generate(s) == Written);
  }

  // ----- The pages -----

  /** The deletions that a run gets to orphan nothing that all of them, in the same order, would not. */
  lemma ProcessedPrefix(sources: Sources, run: Run, order: seq<File>)
    ensures OrphanedBy(sources, Processed(run, order)) <= OrphanedBy(sources, order)
  {
    var part := Processed(run, order);
    forall s | s in OrphanedBy(sources, part)
      ensures s in OrphanedBy(sources, order)
    {
      OrphanedExactly(sources, part, s);
      OrphanedExactly(sources, order, s);
      var i :| LastOwner(sources, part, i, s);
      assert order[..i] == part[..i];
      assert LastOwner(sources, order, i, s);
    }
  }

  /** Live pages that the first run orphans in its order of deletions and the second one would not in its own. */
  ghost function LostToOrder(before: Wiki, run: Run, order: seq<File>, order': seq<File>): set<Slug> {
    set s | s in before.pages && !before.pages[s].orphaned && IsSafeFilenameComponent(s) &&
      s in OrphanedBy(before.state.sources, Processed(run, order)) && s !in OrphanedBy(before.state.sources, order')
  }

  /** There are none in the same order, or without double listings. */
  lemma NothingLostToOrder(before: Wiki, run: Run, order: seq<File>, order': seq<File>, deleted: set<File>)
    requires order' == order || forall s :: ListedOnce(before.state.sources, s)
    requires OrderingOf(order, deleted) && OrderingOf(order', deleted)
    ensures LostToOrder(before, run, order, order') == {}
  {
    ProcessedPrefix(before.state.sources, run, order);
    if order' != order {
      OrphaningIgnoresOrder(before.state.sources, deleted, order, order');
    }
  }

  ghost predicate Writes(run: Run, state: WikiState, s: Slug) {
    WritesPages(run, state) && Publishes(run, Batch(run, state.sources), Frozen(run, state), s)
  }

  /**
   What the first run leaves of one page, once the deletions of the second are processed too, against what these alone
   make of it.
   */
  ghost predicate LeavesPage(run: Run, state: WikiState, clean: Pages, left: Pages, lost: set<Slug>, s: Slug) {
    && (s in clean ==> s in left)
    && (s in left && s !in clean ==> Writes(run, state, s))
    && (s in clean && s in left ==>
      || left[s] == clean[s] || Writes(run, state, s) || (OrphansFrozen(run, state, s) && IsSafeFilenameComponent(s))
      || s in lost)
    && (s in lost ==>
      && s in clean && s in left && !clean[s].orphaned && IsSafeFilenameComponent(s)
      && (Writes(run, state, s) || left[s].orphaned))
  }

  lemma LeftPage(before: Wiki, run: Run, outcome: Outcome, between: Wiki, order: seq<File>, pages: Pages,
                 order': seq<File>, s: Slug)
    requires LiveStep(before, run, outcome, between, order, pages) && !outcome.Compiled?
    ensures var orphans := OrphanedBy(before.state.sources, order');
      LeavesPage(run, before.state, Orphaned(before.pages, orphans), Orphaned(between.pages, orphans),
                 LostToOrder(before, run, order, order'), s)
  {
    hide Batch, Frozen, NextSources, OrphanedBy, Deletions, Succeeds, IsSafeFilenameComponent, Publishes, Unowned, Processed;
  }

  lemma LeftPages(before: Wiki, run: Run, outcome: Outcome, between: Wiki, order: seq<File>, pages: Pages,
                  order': seq<File>)
    requires LiveStep(before, run, outcome, between, order, pages) && !outcome.Compiled?
    ensures var orphans := OrphanedBy(before.state.sources, order');
      forall s :: LeavesPage(run, before.state, Orphaned(before.pages, orphans), Orphaned(between.pages, orphans),
                             LostToOrder(before, run, order, order'), s)
  {
    hide LiveStep, LeavesPage;
    forall s
      ensures var orphans := OrphanedBy(before.state.sources, order');
        LeavesPage(run, before.state, Orphaned(before.pages, orphans), Orphaned(between.pages, orphans),
                   LostToOrder(before, run, order, order'), s)
    {
      LeftPage(before, run, outcome, between, order, pages, order', s);
    }
  }

  /** A run that comes to its end writes the page or orphans it as frozen, whatever the deletions made of it. */
  ghost predicate Settles(run: Run, state: WikiState, s: Slug) {
    && Succeeds(run, state)
    && (SuccessExtracts(run, state);
        || Publishes(run, Batch(run, state.sources), Frozen(run, state), s)
        || s in Unowned(NextSources(run, state), Frozen(run, state)))
  }

  lemma SameSettled(run: Run, again: Run, state: WikiState, s: Slug)
    requires SamePlan(run, again, state) && Succeeds(again, state)
    ensures Writes(run, state, s) ==> Publishes(again, Batch(again, state.sources), Frozen(again, state), s)
    ensures OrphansFrozen(run, state, s) ==> Settles(again, state, s)
    ensures Writes(run, state, s) ==> Settles(again, state, s)
  {
    if WritesPages(run, state) {
      WritingExtracts(run, state);
      SuccessExtracts(again, state);
      SameRun(run, again, state);
      SameSuccess(run, again, state);
      SameSources(run, again, state);
      hide Batch, Frozen, NextSources, Publishes, Unowned, AllExtracted, Succeeds, SamePlan, Extracts;
    }
  }

  lemma WritingExtracts(run: Run, state: WikiState)
    requires WritesPages(run, state)
    ensures Extracts(run, state) && Succeeds(run, state)
  {
    SuccessExtracts(run, state);
    hide Succeeds, AllExtracted;
  }

  /** The next pages do not depend on what the first run left, unless they keep a page that it lost. */
  lemma AbsorbedPages(run: Run, again: Run, state: WikiState, clean: Pages, left: Pages, lost: set<Slug>, after: Pages)
    requires SamePlan(run, again, state) && Succeeds(again, state) && AllExtracted(again, Batch(again, state.sources))
    requires forall s :: LeavesPage(run, state, clean, left, lost, s)
    requires NextPages(again, state, left, after)
    ensures NextPages(again, state, clean, after) <==> forall s :: s in lost ==> Settles(again, state, s)
  {
    hide LeavesPage, OrphansFrozen, Writes, Batch, Frozen, NextSources, Publishes, NextPage, AllExtracted, Settles, Succeeds,
      SamePlan;
    forall s
      ensures s in after <==> s in clean || Publishes(again, Batch(again, state.sources), Frozen(again, state), s)
      ensures s in after ==>
        (after[s] == NextPage(again, state, clean, s) <==> (s in lost ==> Settles(again, state, s)))
      ensures s in lost ==> s in after
    {
      SameSettled(run, again, state, s);
      AbsorbedPage(run, again, state, clean, left, lost, after, s);
    }
  }

  lemma AbsorbedPage(run: Run, again: Run, state: WikiState, clean: Pages, left: Pages, lost: set<Slug>, after: Pages, s: Slug)
    requires AllExtracted(again, Batch(again, state.sources)) && Succeeds(again, state)
    requires LeavesPage(run, state, clean, left, lost, s) && NextPages(again, state, left, after)
    requires Writes(run, state, s) ==> Publishes(again, Batch(again, state.sources), Frozen(again, state), s)
    requires OrphansFrozen(run, state, s) ==> Settles(again, state, s)
    ensures s in after <==> s in clean || Publishes(again, Batch(again, state.sources), Frozen(again, state), s)
    ensures s in after ==>
      (after[s] == NextPage(again, state, clean, s) <==> (s in lost ==> Settles(again, state, s)))
    ensures s in lost ==> s in after
  {
    hide Batch, Frozen, NextSources, IsSafeFilenameComponent, Publishes, Unowned, AllExtracted, OrphansFrozen, Writes, Succeeds;
  }

  /** A run that comes to its end, from the pages that the deletions leave of those it finds. */
  lemma RerunPages(before: Wiki, between: Wiki, again: Run, outcome: Outcome, after: Wiki, order: seq<File>, pages: Pages)
    requires LiveStep(between, again, outcome, after, order, pages) && again.stop == Never && between.state == before.state
    ensures pages == Orphaned(between.pages, OrphanedBy(before.state.sources, order))
    ensures Succeeds(again, before.state) ==> AllExtracted(again, Batch(again, before.state.sources))
    ensures if Succeeds(again, before.state) then NextPages(again, before.state, pages, after.pages) else after.pages == pages
    ensures var clean := Orphaned(before.pages, OrphanedBy(before.state.sources, order));
      LiveStep(before, again, outcome, after, order, clean) <==>
      if Succeeds(again, before.state) then NextPages(again, before.state, clean, after.pages) else after.pages == clean
  {
    SuccessExtracts(again, before.state);
    hide Batch, Frozen, NextSources, OrphanedBy, Deletions, NextPages, Reports, Orphaned, Succeeds, AllExtracted;
  }

  /**
   A run that did not write its state leaves no trace in the state and the pages: a second run that repeats it, with the
   same direct changes, and comes to its end does the very step it would have done from the wiki before the first,
   exactly when it settles the pages that only the first run's order of deletions orphaned.
   */
  lemma AbsorbedStep(before: Wiki, run: Run, outcome: Outcome, between: Wiki, order: seq<File>, pages: Pages,
                     again: Run, outcome': Outcome, after: Wiki, order': seq<File>, pages': Pages)
    requires LiveStep(before, run, outcome, between, order, pages) && !outcome.Compiled?
    requires SamePlan(run, again, before.state) && again.stop == Never
    requires LiveStep(between, again, outcome', after, order', pages')
    ensures LiveStep(before, again, outcome', after, order', Orphaned(before.pages, OrphanedBy(before.state.sources, order')))
      <==> forall s :: s in LostToOrder(before, run, order, order') ==> Settles(again, before.state, s)
  {
    StateUnwritten(before, run, outcome, between, order, pages);
    RerunPages(before, between, again, outcome', after, order', pages');
    LeftPages(before, run, outcome, between, order, pages, order');
    hide LiveStep, Batch, Frozen, OrphanedBy, Deletions, NextPages, Publishes, Merges, Orphaned, Succeeds, LeavesPage,
      LostToOrder, Settles, SamePlan, WritesPages;
    var state, orphans, lost := before.state, OrphanedBy(before.state.sources, order'), LostToOrder(before, run, order, order');
    var clean, left := Orphaned(before.pages, orphans), Orphaned(between.pages, orphans);
    if Succeeds(again, state) {
      AbsorbedPages(run, again, state, clean, left, lost, after.pages);
    } else {
      if WritesPages(run, state) {
        WritingExtracts(run, state);
        SameSuccess(run, again, state);
      }
      NothingLeft(run, again, state, clean, left, lost);
    }
  }

  lemma NothingLeft(run: Run, again: Run, state: WikiState, clean: Pages, left: Pages, lost: set<Slug>)
    requires !WritesPages(run, state) && !Succeeds(again, state)
    requires forall s :: LeavesPage(run, state, clean, left, lost, s)
    ensures left == clean <==> forall s :: s in lost ==> Settles(again, state, s)
  {
    hide Succeeds, IsSafeFilenameComponent, WritesPages;
    forall s
      ensures s in left <==> s in clean
      ensures s in clean && s in left ==> (left[s] == clean[s] <==> s !in lost)
      ensures s in lost ==> s in clean
    {
      assert LeavesPage(run, state, clean, left, lost, s);
    }
  }

  // ----- The candidates -----

  /** The pages whose generation did not throw. */
  function Unthrown(run: Run, slugs: seq<Slug>): seq<Slug> {
    Keep(slugs, (s: Slug) => run.generate(s) != Throws)
  }

  /** The pages that throw leave the candidates alone, the others do the same again. */
  lemma {:induction false} SameGeneration(run: Run, again: Run, state: WikiState, candidates: Candidates, slugs: seq<Slug>)
    requires SamePlan(run, again, state) && Extracts(run, state)
    requires forall s :: s in slugs ==> Merges(run, Batch(run, state.sources), Frozen(run, state), s)
    ensures AfterPages(run, Batch(run, state.sources), candidates, slugs) ==
      AfterPages(again, Batch(run, state.sources), candidates, Unthrown(run, slugs))
  {
    var batch := Batch(run, state.sources);
    if slugs == [] {
      NoPages(run, batch, candidates);
      NoPages(again, batch, candidates);
    } else {
      var init, last := slugs[..|slugs| - 1], slugs[|slugs| - 1];
      assert slugs == init + [last];
      hide SamePlan, Extracts, Batch, Frozen, Merges, AfterPage, AfterPages;
      SameGeneration(run, again, state, candidates, init);
      AfterOneMore(run, batch, candidates, init, last);
      AfterOneMore(again, batch, candidates, Unthrown(run, init), last);
      SamePage(run, again, state, AfterPages(run, batch, candidates, init), last);
      assert Unthrown(run, slugs) ==
        if run.generate(last) == Throws then Unthrown(run, init) else Unthrown(run, init) + [last];
    }
  }

  lemma SamePage(run: Run, again: Run, state: WikiState, candidates: Candidates, s: Slug)
    requires SamePlan(run, again, state) && Extracts(run, state)
    requires Merges(run, Batch(run, state.sources), Frozen(run, state), s)
    ensures var batch := Batch(run, state.sources);
      AfterPage(run, batch, candidates, s) ==
      if run.generate(s) == Throws then candidates else AfterPage(again, batch, candidates, s)
  {
    SameMerge(run, again, state, s);
    SameCandidate(run, again, state, s);
    assert run.review == again.review;
    hide SamePlan, Extracts, Batch, Frozen, Merges, Without, CandidateFor;
  }

  lemma SameCandidate(run: Run, again: Run, state: WikiState, s: Slug)
    requires SamePlan(run, again, state) && Extracts(run, state)
    ensures CandidateFor(run, Batch(run, state.sources), s) == CandidateFor(again, Batch(run, state.sources), s)
  {
    assert run.disk == again.disk;
    hide SamePlan, Extracts, Batch, Yields;
    forall f | f in Batch(run, state.sources)
      ensures Yields(run, f, s) ==> f in run.disk
      ensures Yields(run, f, s) <==> Yields(again, f, s)
    {
      YieldedOnDisk(run, f, s);
      SameYield(run, again, state, f, s);
    }
  }

  lemma YieldedOnDisk(run: Run, f: File, s: Slug)
    ensures Yields(run, f, s) ==> f in run.disk
  {}

  lemma SameYield(run: Run, again: Run, state: WikiState, f: File, s: Slug)
    requires SamePlan(run, again, state) && Extracts(run, state) && f in Batch(run, state.sources)
    ensures Yields(run, f, s) <==> Yields(again, f, s)
  {
    hide Repeats, DirectChanges, Batch, Extracts;
    SameExtraction(run, again, state, f);
  }

  /** A generation, told as one of the second run. */
  lemma SameGenerated(run: Run, again: Run, state: WikiState, slugs: seq<Slug>)
    requires SamePlan(run, again, state) && Extracts(run, state) && IsGeneration(run, state, slugs)
    ensures Distinct(Unthrown(run, slugs))
    ensures forall s :: s in Unthrown(run, slugs) ==> Merges(again, Batch(again, state.sources), Frozen(again, state), s)
    ensures again.stop == run.stop == Never && Repeats(again, run, state) ==> IsGeneration(again, state, Unthrown(run, slugs))
  {
    SameRun(run, again, state);
    KeepMembers(slugs, (s: Slug) => run.generate(s) != Throws);
    KeepDistinct(slugs, (s: Slug) => run.generate(s) != Throws);
    if again.stop == run.stop == Never && Repeats(again, run, state) && Succeeds(again, state) {
      SuccessExtracts(again, state);
      SameRun(again, run, state);
      SameSuccess(again, run, state);
    }
    hide SamePlan, Repeats, Extracts, Batch, Frozen, Merges, AllExtracted, Keep;
  }

  /** The pages of both runs, each at the place where it last touched the candidates. */
  lemma BothGenerations(run: Run, state: WikiState, first: seq<Slug>, second: seq<Slug>)
    requires Distinct(first) && IsGeneration(run, state, second)
    requires forall s :: s in first ==> Merges(run, Batch(run, state.sources), Frozen(run, state), s)
    ensures IsGeneration(run, state, Minus(first, second) + second)
  {
    hide Batch, Frozen, Merges, AllExtracted, Succeeds, DiesEarly;
    var p := (s: Slug) => s !in second;
    KeepMembers(first, p);
    KeepDistinct(first, p);
    DistinctConcat(Keep(first, p), second);
  }

  lemma DistinctConcat(a: seq<Slug>, b: seq<Slug>)
    requires Distinct(a) && Distinct(b) && forall s :: s in a ==> s !in b
    ensures Distinct(a + b)
  {
    assert forall i :: 0 <= i < |a| ==> a[i] in a;
    assert forall i :: 0 <= i < |b| ==> b[i] in b;
  }

  /** What the first run did to the candidates, the second one does again or might as well have done itself. */
  lemma AbsorbedCandidates(run: Run, again: Run, alone: Run, state: WikiState, before: Candidates, between: Candidates,
                           after: Candidates)
    requires SamePlan(run, alone, state) && SamePlan(again, alone, state) && SamePlan(alone, again, state)
    requires alone.stop == again.stop == Never
    requires CandidatesStep(run, state, before, between) && CandidatesStep(again, state, between, after)
    ensures CandidatesStep(alone, state, before, after)
  {
    hide SamePlan, Batch, Frozen, Merges, AfterPages, AllExtracted, Succeeds, Minus, IsGeneration, Unthrown;
    var batch := Batch(alone, state.sources);
    if Extracts(alone, state) {
      SameRun(alone, again, state);
      var second := LaterGeneration(again, alone, state, between, after);
      if Extracts(run, state) {
        SameRun(run, alone, state);
        var first := EarlierGeneration(run, alone, state, before, between);
        Overwritten(alone, batch, before, first, second);
        BothGenerations(alone, state, first, second);
      }
    } else {
      if Extracts(again, state) {
        SameRun(again, alone, state);
      }
      if Extracts(run, state) {
        SameRun(run, alone, state);
      }
    }
  }

  /** What an earlier run did to the candidates, told by pages of this one. */
  lemma EarlierGeneration(run: Run, alone: Run, state: WikiState, before: Candidates, after: Candidates)
    returns (slugs: seq<Slug>)
    requires SamePlan(run, alone, state) && Extracts(run, state) && CandidatesStep(run, state, before, after)
    ensures Distinct(slugs) && after == AfterPages(alone, Batch(alone, state.sources), before, slugs)
    ensures forall s :: s in slugs ==> Merges(alone, Batch(alone, state.sources), Frozen(alone, state), s)
  {
    SameRun(run, alone, state);
    hide SamePlan, Batch, Frozen, Merges, AfterPages, AllExtracted, Succeeds, Unthrown, DiesEarly;
    var generated: seq<Slug> :|
      IsGeneration(run, state, generated) && after == AfterPages(run, Batch(run, state.sources), before, generated);
    SameGeneration(run, alone, state, before, generated);
    SameGenerated(run, alone, state, generated);
    slugs := Unthrown(run, generated);
  }

  /** The same for a run that comes to its end and differs only in the candidates that it finds. */
  lemma LaterGeneration(again: Run, alone: Run, state: WikiState, before: Candidates, after: Candidates)
    returns (slugs: seq<Slug>)
    requires SamePlan(again, alone, state) && SamePlan(alone, again, state) && Extracts(again, state)
    requires alone.stop == again.stop == Never && CandidatesStep(again, state, before, after)
    ensures Distinct(slugs) && IsGeneration(alone, state, slugs)
    ensures after == AfterPages(alone, Batch(alone, state.sources), before, slugs)
  {
    SameRun(again, alone, state);
    assert Repeats(alone, again, state);
    hide SamePlan, Batch, Frozen, Merges, AfterPages, AllExtracted, Succeeds, Unthrown, DiesEarly, Repeats;
    var generated: seq<Slug> :|
      IsGeneration(again, state, generated) && after == AfterPages(again, Batch(again, state.sources), before, generated);
    SameGeneration(again, alone, state, before, generated);
    SameGenerated(again, alone, state, generated);
    slugs := Unthrown(again, generated);
  }

  // ----- Whole runs -----

  /** The second run as it would have been in place of the first: it finds the candidates that that one found. */
  function Alone(run: Run, again: Run): Run {
    again.(pending := run.pending)
  }

  lemma AlonePlans(run: Run, again: Run, state: WikiState)
    requires SamePlan(run, again, state)
    ensures SamePlan(run, Alone(run, again), state)
    ensures SamePlan(Alone(run, again), again, state) && SamePlan(again, Alone(run, again), state)
  {
    var alone := Alone(run, again);
    assert DirectChanges(alone, state.sources) == DirectChanges(run, state.sources) by {
      SameCover(run, alone, state.sources);
    }
    hide DirectChanges, Batch, Frozen, Merges, Extracts;
  }

  /** The direct changes depend on the disk, the filter and the candidates found. */
  lemma SameCover(run: Run, again: Run, sources: Sources)
    requires again.disk == run.disk && again.keep == run.keep && again.pending == run.pending
    ensures DirectChanges(run, sources) == DirectChanges(again, sources)
  {
    assert forall f :: CoveredByPending(run, f) == CoveredByPending(again, f);
    hide CoveredByPending, Classify;
  }

  /** A run that comes to its end does the same to the state and the pages whichever candidates it finds. */
  lemma SameLiveStep(before: Wiki, alone: Run, again: Run, outcome: Outcome, after: Wiki, order: seq<File>, pages: Pages)
    requires SamePlan(alone, again, before.state) && SamePlan(again, alone, before.state) && alone.stop == again.stop == Never
    requires LiveStep(before, again, outcome, after, order, pages)
    ensures LiveStep(before, alone, outcome, after, order, pages)
  {
    SameFirstBatch(alone, again, before.state);
    SameEnd(alone, again, before.state);
    SuccessExtracts(again, before.state);
    if Succeeds(again, before.state) {
      SameRun(again, alone, before.state);
      SameSources(again, alone, before.state);
      SameNext(again, alone, before.state, pages, after.pages);
      SameReport(again, alone, before.state, outcome);
    }
    hide Batch, Frozen, NextSources, OrphanedBy, Orphaned, Deletions, Succeeds, Publishes, Merges, AllExtracted, Unowned,
      NextPages, Reports, SamePlan;
  }

  lemma SameEnd(alone: Run, again: Run, state: WikiState)
    requires SamePlan(alone, again, state) && SamePlan(again, alone, state)
    requires !alone.stop.InDeletions? && !again.stop.InDeletions?
    ensures Succeeds(alone, state) <==> Succeeds(again, state)
  {
    hide SamePlan, Succeeds, AllExtracted;
    SuccessExtracts(alone, state);
    SuccessExtracts(again, state);
    if Succeeds(alone, state) {
      SameSuccess(alone, again, state);
    }
    if Succeeds(again, state) {
      SameSuccess(again, alone, state);
    }
  }

  lemma SameNext(run: Run, again: Run, state: WikiState, before: Pages, after: Pages)
    requires SamePlan(run, again, state) && Extracts(run, state) && Succeeds(run, state)
    requires AllExtracted(again, Batch(again, state.sources))
    ensures NextPages(run, state, before, after) <==> NextPages(again, state, before, after)
  {
    SameSuccess(run, again, state);
    SameRun(run, again, state);
    SameSources(run, again, state);
    hide SamePlan, AllExtracted, Batch, Frozen, NextSources, Publishes, Extracts, Succeeds, Merges, Deletions;
    forall s | s in before || Publishes(run, Batch(run, state.sources), Frozen(run, state), s)
      ensures NextPage(run, state, before, s) == NextPage(again, state, before, s)
    {
      hide Unowned, IsSafeFilenameComponent;
    }
    hide NextPage;
  }

  lemma SameReport(run: Run, again: Run, state: WikiState, outcome: Outcome)
    requires SamePlan(run, again, state) && Extracts(run, state)
    ensures Reports(run, state, outcome) <==> Reports(again, state, outcome)
  {
    SameRun(run, again, state);
    hide Batch, Frozen, Merges, SamePlan, AllExtracted, Deletions, Extracts;
  }

  /** The run processes its deletions in this order. */
  ghost predicate DeletesIn(before: Wiki, run: Run, outcome: Outcome, after: Wiki, order: seq<File>) {
    exists pages :: LiveStep(before, run, outcome, after, order, pages)
  }

  lemma RerunLiveStep(before: Wiki, run: Run, outcome: Outcome, between: Wiki, order: seq<File>,
                      again: Run, outcome': Outcome, after: Wiki, order': seq<File>)
    requires DeletesIn(before, run, outcome, between, order) && !outcome.Compiled?
    requires SamePlan(run, again, before.state) && again.stop == Never
    requires DeletesIn(between, again, outcome', after, order')
    requires order' == order || forall s :: ListedOnce(before.state.sources, s)
    ensures between.state == before.state && DeletesIn(before, Alone(run, again), outcome', after, order')
  {
    hide LiveStep, ListedOnce, Deletions, OrphanedBy, Orphaned, SamePlan, LostToOrder, Settles;
    var state := before.state;
    var pages :| LiveStep(before, run, outcome, between, order, pages);
    var pages' :| LiveStep(between, again, outcome', after, order', pages');
    StateUnwritten(before, run, outcome, between, order, pages);
    OrderOfDeletions(between, again, outcome', after, order', pages');
    AlonePlans(run, again, state);
    SameFirstBatch(run, again, state);
    NothingLostToOrder(before, run, order, order', Deletions(run, state.sources));
    NothingToSettle(before, run, order, order', again);
    AbsorbedStep(before, run, outcome, between, order, pages, again, outcome', after, order', pages');
    SameLiveStep(before, Alone(run, again), again, outcome', after, order',
                 Orphaned(before.pages, OrphanedBy(state.sources, order')));
  }

  lemma NothingToSettle(before: Wiki, run: Run, order: seq<File>, order': seq<File>, again: Run)
    requires LostToOrder(before, run, order, order') == {}
    ensures forall s :: s in LostToOrder(before, run, order, order') ==> Settles(again, before.state, s)
  {}

  /** The same for whole runs: the rerun makes the step of an undisturbed run, also for the candidates. */
  lemma UnflushedRunLeavesNoTrace(before: Wiki, run: Run, outcome: Outcome, between: Wiki, order: seq<File>,
                                  again: Run, outcome': Outcome, after: Wiki, order': seq<File>)
    requires Step(before, run, outcome, between) && Unflushed(run, outcome) && DeletesIn(before, run, outcome, between, order)
    requires SamePlan(run, again, before.state) && again.stop == Never
    requires Step(between, again, outcome', after) && DeletesIn(between, again, outcome', after, order')
    requires order' == order || forall s :: ListedOnce(before.state.sources, s)
    ensures between.state == before.state
    ensures Step(before, Alone(run, again), outcome', after) && DeletesIn(before, Alone(run, again), outcome', after, order')
  {
    assert again.review == run.review;
    hide LiveStep, ListedOnce, CandidatesStep, SamePlan, SourceHashes, NoWork;
    RerunLiveStep(before, run, outcome, between, order, again, outcome', after, order');
    AlonePlans(run, again, before.state);
    SameFirstBatch(run, again, before.state);
    SameFirstBatch(Alone(run, again), again, before.state);
    AbsorbedCandidates(run, again, Alone(run, again), before.state, before.candidates, between.candidates, after.candidates);
  }

  lemma OrderOfDeletions(before: Wiki, run: Run, outcome: Outcome, after: Wiki, order: seq<File>, pages: Pages)
    requires LiveStep(before, run, outcome, after, order, pages)
    ensures OrderingOf(order, Deletions(run, before.state.sources))
  {
    hide Succeeds, UnflushedPages, Deletions, OrphanedBy, NextPages, NextSources, Reports, Batch;
  }

  // ----- Histories -----

  /** A history of runs of which only the last writes its state, and repeats what the others did without failing. */
  ghost predicate InterruptedUntilLast(h: History) {
    && h.Valid() && h.runs != [] && h.runs[|h.runs| - 1].stop == Never
    && forall i :: 0 <= i < |h.runs| - 1 ==>
      Unflushed(h.runs[i], h.outcomes[i]) && Repeats(h.runs[i], h.runs[|h.runs| - 1], h.wikis[0].state)
  }

  /** What the interrupted runs did to the candidates gives no later run other direct changes. */
  ghost predicate KeepsChanges(h: History) {
    h.wikis != [] &&
    forall i, j :: 0 <= i < j < |h.runs| ==>
      DirectChanges(h.runs[i], h.wikis[0].state.sources) == DirectChanges(h.runs[j], h.wikis[0].state.sources)
  }

  lemma UnflushedState(before: Wiki, run: Run, outcome: Outcome, after: Wiki)
    requires Step(before, run, outcome, after) && Unflushed(run, outcome)
    ensures after.state == before.state
  {
    hide LiveStep, NoWork, CandidatesStep;
    var order, pages :| LiveStep(before, run, outcome, after, order, pages);
    StateUnwritten(before, run, outcome, after, order, pages);
  }

  lemma {:induction false} StateUntouched(h: History, i: nat)
    requires InterruptedUntilLast(h) && i < |h.runs|
    ensures h.wikis[i].state == h.wikis[0].state
  {
    hide Step;
    if i > 0 {
      StateUntouched(h, i - 1);
      assert Step(h.wikis[i - 1], h.runs[i - 1], h.outcomes[i - 1], h.wikis[i]);
      UnflushedState(h.wikis[i - 1], h.runs[i - 1], h.outcomes[i - 1], h.wikis[i]);
    }
  }

  /** Some orders in which the runs of a history process their deletions. */
  ghost predicate InOrders(h: History, orders: seq<seq<File>>) {
    && h.Valid() && |orders| == |h.runs|
    && forall i :: 0 <= i < |h.runs| && !NoWork(h.runs[i], h.wikis[i].state.sources) ==>
      DeletesIn(h.wikis[i], h.runs[i], h.outcomes[i], h.wikis[i + 1], orders[i])
  }

  /** The runs all process their deletions in one order, or the order makes no difference. */
  ghost predicate OneOrder(sources: Sources, orders: seq<seq<File>>) {
    (forall i, j :: 0 <= i < j < |orders| ==> orders[i] == orders[j]) || forall s :: ListedOnce(sources, s)
  }

  /** The last run of a history, in place of run `i`. */
  ghost function LastFrom(h: History, i: nat): Run
    requires i < |h.runs|
  {
    Alone(h.runs[i], h.runs[|h.runs| - 1])
  }

  /** The rest of the history in one step. */
  lemma {:induction false} OneStepFrom(h: History, orders: seq<seq<File>>, i: nat)
    requires InterruptedUntilLast(h) && KeepsChanges(h) && i < |h.runs|
    requires InOrders(h, orders) && OneOrder(h.wikis[0].state.sources, orders)
    ensures Step(h.wikis[i], LastFrom(h, i), h.outcomes[|h.runs| - 1], h.wikis[|h.runs|])
    ensures NoWork(h.runs[i], h.wikis[0].state.sources) ||
      DeletesIn(h.wikis[i], LastFrom(h, i), h.outcomes[|h.runs| - 1], h.wikis[|h.runs|], orders[|h.runs| - 1])
    decreases |h.runs| - i
  {
    hide Step, ListedOnce, DirectChanges, DeletesIn, NoWork, Repeats;
    var n := |h.runs|;
    var state := h.wikis[0].state;
    assert Step(h.wikis[i], h.runs[i], h.outcomes[i], h.wikis[i + 1]);
    StateUntouched(h, i);
    if i < n - 1 {
      OneStepFrom(h, orders, i + 1);
      LastPlans(h, i);
      SameFirstBatch(h.runs[i], LastFrom(h, i + 1), state);
      SameWorkAsLast(h, i + 1);
      UnflushedWorks(h.wikis[i], h.runs[i], h.outcomes[i], h.wikis[i + 1]);
      UnflushedRunLeavesNoTrace(h.wikis[i], h.runs[i], h.outcomes[i], h.wikis[i + 1], orders[i],
                                LastFrom(h, i + 1), h.outcomes[n - 1], h.wikis[n], orders[n - 1]);
      assert Alone(h.runs[i], LastFrom(h, i + 1)) == LastFrom(h, i);
    } else {
      assert LastFrom(h, i) == h.runs[i];
    }
  }

  /** The last run, in place of the next one, repeats this one. */
  lemma LastPlans(h: History, i: nat)
    requires InterruptedUntilLast(h) && KeepsChanges(h) && i < |h.runs| - 1
    ensures SamePlan(h.runs[i], LastFrom(h, i + 1), h.wikis[0].state) && LastFrom(h, i + 1).stop == Never
  {
    var state, last, next := h.wikis[0].state, h.runs[|h.runs| - 1], h.runs[i + 1];
    assert next.disk == last.disk && next.keep == last.keep by {
      if i + 1 < |h.runs| - 1 {
        assert Repeats(next, last, state);
      }
    }
    SameCover(next, LastFrom(h, i + 1), state.sources);
    assert Repeats(h.runs[i], last, state);
    hide DirectChanges, Extracts, Merges, Batch, Frozen;
  }

  lemma SameWorkAsLast(h: History, i: nat)
    requires InterruptedUntilLast(h) && i < |h.runs|
    ensures NoWork(LastFrom(h, i), h.wikis[0].state.sources) <==> NoWork(h.runs[i], h.wikis[0].state.sources)
  {
    var state, last := h.wikis[0].state, h.runs[|h.runs| - 1];
    assert h.runs[i].disk == last.disk && h.runs[i].keep == last.keep by {
      if i < |h.runs| - 1 {
        assert Repeats(h.runs[i], last, state);
      }
    }
    SameCover(h.runs[i], LastFrom(h, i), state.sources);
    hide DirectChanges, AffectedBy;
  }

  lemma UnflushedWorks(before: Wiki, run: Run, outcome: Outcome, after: Wiki)
    requires Step(before, run, outcome, after) && Unflushed(run, outcome)
    ensures !NoWork(run, before.state.sources)
  {
    hide NoWork, LiveStep, CandidatesStep;
  }

  /**
   Main result: however often a compile fails or dies before its state write, a last run that comes to its end and does
   again what the others did without failing makes the single step that it would have made in place of the first: the
   same batch, state, pages and candidates, and recorded concepts with live pages. The runs before it must leave
   candidates that keep the direct changes.
   */
  lemma InterruptionsLeaveNoTrace(h: History, orders: seq<seq<File>>)
    requires InterruptedUntilLast(h) && KeepsChanges(h)
    requires InOrders(h, orders) && OneOrder(h.wikis[0].state.sources, orders)
    ensures var n := |h.runs|;
      && Step(h.wikis[0], LastFrom(h, 0), h.outcomes[n - 1], h.wikis[n])
      && (RecordedPagesLive(h.wikis[0]) && h.outcomes[n - 1].Compiled? ==> RecordedPagesLive(h.wikis[n]))
  {
    hide Step, OneOrder, InOrders, RecordedPagesLive, KeepsPages, DirectChanges, Repeats;
    var n := |h.runs|;
    OneStepFrom(h, orders, 0);
    if RecordedPagesLive(h.wikis[0]) && h.outcomes[n - 1].Compiled? {
      RunKeepsRecordedPages(h.wikis[0], LastFrom(h, 0), h.outcomes[n - 1], h.wikis[n]);
    }
  }

  /** Whatever the order of deletions, the batch and the new state are those of an undisturbed run. */
  lemma RerunReachesSameState(h: History)
    requires InterruptedUntilLast(h) && KeepsChanges(h)
    requires Completes(h.runs[|h.runs| - 1], h.outcomes[|h.outcomes| - 1])
    ensures var alone, outcome, state := LastFrom(h, 0), h.outcomes[|h.outcomes| - 1], h.wikis[0].state;
      && (forall f :: f in outcome.extracted <==> f in Batch(alone, state.sources))
      && AllExtracted(alone, Batch(alone, state.sources))
      && h.wikis[|h.runs|].state == NextState(alone, state)
  {
    hide Step, Batch, Frozen, NextSources, DirectChanges, Repeats, SamePlan, AllExtracted;
    var n := |h.runs|;
    var state, alone, last := h.wikis[0].state, LastFrom(h, 0), h.runs[n - 1];
    StateUntouched(h, n - 1);
    assert Step(h.wikis[n - 1], last, h.outcomes[n - 1], h.wikis[n]);
    CompletedState(h.wikis[n - 1], last, h.outcomes[n - 1], h.wikis[n]);
    CompletedBatch(h.wikis[n - 1], last, h.outcomes[n - 1], h.wikis[n]);
    LastInPlaceOfFirst(h);
    SameRun(last, alone, state);
    SameSources(last, alone, state);
  }

  lemma LastInPlaceOfFirst(h: History)
    requires InterruptedUntilLast(h) && KeepsChanges(h)
    ensures SamePlan(h.runs[|h.runs| - 1], LastFrom(h, 0), h.wikis[0].state)
  {
    var state, last := h.wikis[0].state, h.runs[|h.runs| - 1];
    assert h.runs[0].disk == last.disk && h.runs[0].keep == last.keep by {
      if 0 < |h.runs| - 1 {
        assert Repeats(h.runs[0], last, state);
      }
    }
    SameCover(h.runs[0], LastFrom(h, 0), state.sources);
    hide DirectChanges, Extracts, Merges, Batch, Frozen;
  }

  lemma CompletedBatch(before: Wiki, run: Run, outcome: Outcome, after: Wiki)
    requires Step(before, run, outcome, after) && Completes(run, outcome)
    ensures Succeeds(run, before.state) && forall f :: f in outcome.extracted <==> f in Batch(run, before.state.sources)
  {
    hide Batch, NextPages, UnflushedPages, OrphanedBy, Deletions, Frozen, NextSources, AllExtracted;
  }

  // ----- What heals nothing -----

  /** A run that fails brings no page back. */
  lemma FailureHealsNothing(before: Wiki, run: Run, outcome: Outcome, after: Wiki)
    requires Step(before, run, outcome, after) && outcome.Aborted?
    ensures after.state == before.state && after.pages.Keys == before.pages.Keys
    ensures forall s :: s in before.pages && before.pages[s].orphaned ==> after.pages[s].orphaned
    ensures !RecordedPagesLive(before) ==> !RecordedPagesLive(after)
  {
    hide Batch, Succeeds, DiesEarly, NextPages, UnflushedPages, NextSources, NoWork, OrphanedBy, Deletions, CandidatesStep,
      SourceHashes, Owns, IsSafeFilenameComponent, Frozen, Merges;
  }

  lemma AbortedFails(before: Wiki, run: Run, outcome: Outcome, after: Wiki)
    requires Step(before, run, outcome, after) && outcome.Aborted?
    ensures !Succeeds(run, before.state) && !NoWork(run, before.state.sources) && !run.stop.InDeletions?
  {
    hide Batch, Succeeds, NextPages, UnflushedPages, NextSources, NoWork, OrphanedBy, Deletions, CandidatesStep,
      SourceHashes, Orphaned, Merges, Frozen, AllExtracted;
  }

  lemma FailsToTheEnd(before: Wiki, run: Run, outcome: Outcome, after: Wiki)
    requires Step(before, run, outcome, after) && run.stop == Never
    requires !Succeeds(run, before.state) && !NoWork(run, before.state.sources)
    ensures outcome.Aborted?
  {
    hide Batch, Succeeds, NextPages, UnflushedPages, NextSources, NoWork, OrphanedBy, Deletions, CandidatesStep,
      SourceHashes, Orphaned, Reports;
  }

  /** The same extraction and generation fail again, and so heal nothing. */
  lemma RepeatedFailureHealsNothing(before: Wiki, run: Run, outcome: Outcome, between: Wiki,
                                    again: Run, outcome': Outcome, after: Wiki)
    requires Step(before, run, outcome, between) && !run.review && outcome.Aborted?
    requires again == run.(stop := Never, pending := again.pending) && Step(between, again, outcome', after)
    requires DirectChanges(run, before.state.sources) == DirectChanges(again, before.state.sources)
    ensures outcome'.Aborted?
    ensures !RecordedPagesLive(between) ==> !RecordedPagesLive(after)
  {
    AbortedFails(before, run, outcome, between);
    FailureHealsNothing(before, run, outcome, between);
    EqualPlans(run, again, before.state);
    hide Step, Succeeds, NoWork, RecordedPagesLive, DirectChanges, SamePlan;
    SameFirstBatch(run, again, before.state);
    SameEnd(run, again, before.state);
    FailsToTheEnd(between, again, outcome', after);
    FailureHealsNothing(between, again, outcome', after);
  }

  lemma EqualPlans(run: Run, again: Run, state: WikiState)
    requires again == run.(stop := again.stop, pending := again.pending)
    requires DirectChanges(run, state.sources) == DirectChanges(again, state.sources)
    ensures SamePlan(run, again, state) && SamePlan(again, run, state)
  {
    hide DirectChanges, Batch, Frozen, Merges, Extracts;
  }

  /**
   Nor does a run take back the page of a concept that an interrupted one published, if it does not yield it: a live
   page that no source records and no frozen concept claims stays as it is, unless the run publishes it.
   */
  lemma StrayPageStays(before: Wiki, run: Run, outcome: Outcome, after: Wiki, s: Slug)
    requires Step(before, run, outcome, after) && s in before.pages
    requires (forall g :: !Owns(before.state.sources, g, s)) && s !in Frozen(run, before.state)
    requires !Publishes(run, Batch(run, before.state.sources), Frozen(run, before.state), s)
    ensures s in after.pages && after.pages[s] == before.pages[s]
  {
    hide Batch, Frozen, Succeeds, NextSources, NoWork, Publishes, Reports, Deletions, OrphanedBy, CandidatesStep, SourceHashes,
      Owns, IsSafeFilenameComponent;
    if after.pages != before.pages {
      var order, pages :| LiveStep(before, run, outcome, after, order, pages);
      OrphanedExactly(before.state.sources, Processed(run, order), s);
      if s in OrphanedBy(before.state.sources, Processed(run, order)) {
        var i :| LastOwner(before.state.sources, Processed(run, order), i, s);
        ListsIffOwns(before.state.sources, Processed(run, order)[i], s);
        assert false;
      }
    }
  }

  // ----- An example -----

  function Concept(slug: Slug): ExtractedConcept {
    ExtractedConcept(slug, None, false, None)
  }

  /**
   Without the rerun the invariant can be broken: a run over one changed source that still yields its frozen concept
   orphans the concept's page, and dies with the concept still recorded.
   */
  lemma InterruptedRunLosesPage(f: File, s: Slug, h: Hash, h': Hash) returns (run: Run, state: WikiState)
    requires h != h' && IsSafeFilenameComponent(s)
    ensures !run.review && Succeeds(run, state) && f in Batch(run, state.sources) && Yields(run, f, s)
    ensures Owns(state.sources, f, s) && LosesPage(run, state, [], s) && !KeepsPages(run, state)
  {
    state := WikiState(map[f := SourceState(h, [s])], {s});
    run := Run(map[f := h'], change => true, map[], f => Some([Concept(s)]),
               slug => Written, false, BeforeFlush);
    OneSourceBatch(run, state.sources, f);
    assert SlugsOf(Extract(run, f).value)[0] == s;
    assert Owns(state.sources, f, s);
    UnownedAfterRunIff(run, state, s);
    assert !Empty(run, f) by {
      assert Extract(run, f).value != [];
    }
    LosesInSomeOrder(run, state, [], s);
  }

  lemma LosesInSomeOrder(run: Run, state: WikiState, order: seq<File>, s: Slug)
    requires OrderingOf(order, Deletions(run, state.sources)) && LosesPage(run, state, order, s)
    ensures !KeepsPages(run, state)
  {
    hide LosesPage, OrderingOf;
  }

  /** A run over one changed source compiles that source. */
  lemma OneSourceBatch(run: Run, sources: Sources, f: File)
    requires sources.Keys == {f} && run.disk.Keys == {f} && run.disk[f] != sources[f].hash
    requires Unfiltered(run)
    ensures Batch(run, sources) == {f} && Deletions(run, sources) == {}
  {
    assert run.keep(SourceChange(f, Changed));
    assert DirectChanges(run, sources) == {f};
  }
}
