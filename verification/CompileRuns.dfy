/**
 What holds over whole sequences of compile runs.
 */
module CompileRuns {
  import opened WikiState
  import opened Deps
  import opened Hasher
  import opened ExtractionPhase
  import opened ChangePlan
  import opened Orphan
  import opened Pipeline

  datatype History = History(wikis: seq<Wiki>, runs: seq<Run>, outcomes: seq<Outcome>) {
    /** Run `i` leads from wiki `i` to wiki `i + 1`. */
    ghost predicate Valid() {
      && |wikis| == |runs| + 1 == |outcomes| + 1
      && forall i :: 0 <= i < |runs| ==> Step(wikis[i], runs[i], outcomes[i], wikis[i + 1])
    }
  }

  // ----- Frozen concepts -----

  /** The run wrote a new state. */
  ghost predicate Completes(run: Run, outcome: Outcome) {
    outcome.Compiled? && !run.review
  }

  /** A run freezes what its empty extractions had recorded, and nothing else; nothing thaws. */
  lemma FrozenAfterRun(before: Wiki, run: Run, outcome: Outcome, after: Wiki)
    requires Step(before, run, outcome, after)
    ensures after.state.frozenSlugs == before.state.frozenSlugs +
      if Completes(run, outcome)
      then FrozenByEmpty(run, before.state.sources, Batch(run, before.state.sources)) else {}
  {
    hide Batch, Succeeds, NextPages, NextSources, NoWork, OrphanedBy, Orphaned;
  }

  /** A frozen slug's page is never regenerated: it stays as it is, or is orphaned. */
  lemma FrozenPageAfterRun(before: Wiki, run: Run, outcome: Outcome, after: Wiki, s: Slug)
    requires Step(before, run, outcome, after) && s in before.state.frozenSlugs
    ensures s in after.pages <==> s in before.pages
    ensures s in before.pages ==> after.pages[s] == before.pages[s] || after.pages[s] == Page(true)
  {
    hide Batch, FrozenByEmpty, NextSources, NoWork, OrphanedBy, Deletions, IsSafeFilenameComponent;
  }

  lemma {:induction false} FrozenForever(h: History, i: nat, j: nat, s: Slug)
    requires h.Valid() && i <= j < |h.wikis| && s in h.wikis[i].state.frozenSlugs
    ensures s in h.wikis[j].state.frozenSlugs
    ensures s in h.wikis[j].pages <==> s in h.wikis[i].pages
    ensures s in h.wikis[i].pages ==> h.wikis[j].pages[s] == h.wikis[i].pages[s] || h.wikis[j].pages[s] == Page(true)
    decreases j
  {
    hide Step;
    if i < j {
      FrozenForever(h, i, j - 1, s);
      assert Step(h.wikis[j - 1], h.runs[j - 1], h.outcomes[j - 1], h.wikis[j]);
      FrozenAfterRun(h.wikis[j - 1], h.runs[j - 1], h.outcomes[j - 1], h.wikis[j]);
      FrozenPageAfterRun(h.wikis[j - 1], h.runs[j - 1], h.outcomes[j - 1], h.wikis[j], s);
    }
  }

  /** The file lists the slug, and so does another one, or the file itself once more. */
  ghost predicate ListsWithAnother(sources: Sources, d: File, s: Slug) {
    && d in sources && s in sources[d].concepts
    && ((exists g :: g != d && g in sources && s in sources[g].concepts) || multiset(sources[d].concepts)[s] > 1)
  }

  /** A source of the batch that yielded nothing has the slug on record. */
  ghost predicate FailedOwnerIn(run: Run, sources: Sources, s: Slug) {
    exists f :: f in Batch(run, sources) && Empty(run, f) && f in sources && s in sources[f].concepts
  }

  lemma SharedIff(sources: Sources, d: File, s: Slug)
    ensures s in SharedConcepts(sources, d) <==> ListsWithAnother(sources, d, s)
  {
    assert (exists g :: g != d && Owns(sources, g, s)) <==> exists g :: g != d && g in sources && s in sources[g].concepts by {
      if g :| g != d && g in sources && s in sources[g].concepts {
        assert Owns(sources, g, s);
      }
    }
    assert d in sources ==> Lists(sources, d, s) == multiset(sources[d].concepts)[s];
    hide Owns, Lists;
  }

  /**
   Which concepts a run does not regenerate. A review run protects what a deleted source shares; a run that writes has
   dropped the deleted sources before, and protects only what was frozen already or an empty extraction freezes.
   */
  lemma ProtectedIff(run: Run, state: WikiState, s: Slug)
    ensures s in Frozen(run, state) <==>
      || s in state.frozenSlugs
      || (run.review && exists d :: d in Deletions(run, state.sources) && ListsWithAnother(state.sources, d, s))
      || (!run.review && FailedOwnerIn(run, state.sources, s))
  {
    hide Deletions, Batch, Empty;
    forall d
      ensures s in SharedConcepts(state.sources, d) <==> ListsWithAnother(state.sources, d, s)
    {
      SharedIff(state.sources, d, s);
    }
    hide SharedConcepts, ListsWithAnother;
    assert forall f :: s in Recorded(state.sources, f) <==> f in state.sources && s in state.sources[f].concepts;
    if run.review {
      if d :| d in Deletions(run, state.sources) && ListsWithAnother(state.sources, d, s) {
        assert s in SharedConcepts(state.sources, d);
      }
    }
  }

  // ----- Recorded concepts have live pages -----

  ghost predicate RecordedPagesLive(w: Wiki) {
    forall f, s :: Owns(w.state.sources, f, s) ==> s in w.pages && !w.pages[s].orphaned
  }

  /** A slug orphaned by deletions has no surviving owner. */
  lemma OrphanedHaveNoSurvivor(sources: Sources, order: seq<File>, deleted: set<File>, f: File, s: Slug)
    requires OrderingOf(order, deleted) && s in OrphanedBy(sources, order)
    ensures Owns(sources, f, s) ==> f in deleted
  {
    OrphanedExactly(sources, order, s);
    var i :| LastOwner(sources, order, i, s);
    if Owns(sources, f, s) && f != order[i] {
      assert f in order[..i];
    }
  }

  lemma EntryOwns(run: Run, state: WikiState, f: File, s: Slug)
    requires AllExtracted(run, Batch(run, state.sources)) && Owns(NextSources(run, state), f, s)
    ensures f !in Deletions(run, state.sources)
    ensures Owns(state.sources, f, s) || Publishes(run, Batch(run, state.sources), Frozen(run, state), s)
  {
    BatchSurvives(run, state.sources);
    hide Batch, Frozen, Deletions, LiveSlugs;
    if f in Batch(run, state.sources) && !Empty(run, f) {
      LiveSlugsNotFrozen(run, Frozen(run, state), SlugsOf(Extract(run, f).value), s);
      assert Yields(run, f, s);
    }
  }

  lemma CompletedRunKeepsPages(before: Wiki, run: Run, order: seq<File>, pages: Pages, after: Wiki)
    requires RecordedPagesLive(before)
    requires OrderingOf(order, Deletions(run, before.state.sources))
    requires pages == Orphaned(before.pages, OrphanedBy(before.state.sources, order))
    requires AllExtracted(run, Batch(run, before.state.sources))
    requires after.state == NextState(run, before.state) && NextPages(run, before.state, pages, after.pages)
    ensures RecordedPagesLive(after)
  {
    hide Batch, Frozen, Deletions, NextSources, OrphanedBy;
    forall f, s | Owns(after.state.sources, f, s)
      ensures s in after.pages && !after.pages[s].orphaned
    {
      EntryOwns(run, before.state, f, s);
      if !Publishes(run, Batch(run, before.state.sources), Frozen(run, before.state), s) {
        if s in OrphanedBy(before.state.sources, order) {
          OrphanedHaveNoSurvivor(before.state.sources, order, Deletions(run, before.state.sources), f, s);
        }
        assert pages[s] == before.pages[s];
        assert s !in Unowned(NextSources(run, before.state), Frozen(run, before.state));
      }
    }
  }

  // ----- Runs that do not reach the state write -----

  /** A live run fails or dies before its state is written. */
  predicate Unflushed(run: Run, outcome: Outcome) {
    !run.review && (outcome.Aborted? || outcome.Interrupted?)
  }

  /** The run gets to write its pages. */
  ghost predicate WritesPages(run: Run, state: WikiState) {
    !DiesEarly(run, state) && Succeeds(run, state)
  }

  /** The run orphans the page because the concept is frozen and no source of its draft records it. */
  ghost predicate OrphansFrozen(run: Run, state: WikiState, s: Slug) {
    && WritesPages(run, state) && run.stop != BeforeOrphaning
    && s in Unowned(NextSources(run, state), Frozen(run, state))
  }

  /** A run that does not write its state leaves this recorded concept with an orphaned page. */
  ghost predicate LosesPage(run: Run, state: WikiState, order: seq<File>, s: Slug) {
    && IsSafeFilenameComponent(s) && (exists f :: Owns(state.sources, f, s))
    && (s in OrphanedBy(state.sources, Processed(run, order)) || OrphansFrozen(run, state, s))
    && !(WritesPages(run, state) && Publishes(run, Batch(run, state.sources), Frozen(run, state), s))
  }

  /** In whatever order the deletions are processed, no recorded concept loses its page. */
  ghost predicate KeepsPages(run: Run, state: WikiState) {
    forall order, s :: OrderingOf(order, Deletions(run, state.sources)) ==> !LosesPage(run, state, order, s)
  }

  lemma UnflushedPage(before: Wiki, run: Run, outcome: Outcome, after: Wiki, order: seq<File>, pages: Pages, s: Slug)
    requires LiveStep(before, run, outcome, after, order, pages) && !outcome.Compiled?
    requires (exists f :: Owns(before.state.sources, f, s)) && s in before.pages && !before.pages[s].orphaned
    ensures after.state == before.state
    ensures s in after.pages && (after.pages[s].orphaned <==> LosesPage(run, before.state, order, s))
  {
    hide Batch, Frozen, NextSources, OrphanedBy, Deletions, Succeeds, IsSafeFilenameComponent, Publishes, Unowned, Owns,
      Processed, AllExtracted;
    SuccessExtracts(run, before.state);
    assert pages[s].orphaned <==>
      (s in OrphanedBy(before.state.sources, Processed(run, order)) && IsSafeFilenameComponent(s));
  }

  /**
   A run that fails or dies before it writes the state keeps the recorded pages live exactly when it orphans no page
   of a recorded concept: none that lost its last owner to the deletions processed, and, if it got that far, none
   frozen and left without owner in the draft. A page it wrote is live again.
   */
  lemma UnflushedRunKeepsRecordedPagesIff(before: Wiki, run: Run, outcome: Outcome, after: Wiki,
                                          order: seq<File>, pages: Pages)
    requires LiveStep(before, run, outcome, after, order, pages) && RecordedPagesLive(before)
    requires !outcome.Compiled?
    ensures RecordedPagesLive(after) <==> forall s :: !LosesPage(run, before.state, order, s)
  {
    hide LiveStep, LosesPage;
    forall f, s | Owns(before.state.sources, f, s)
      ensures after.state == before.state
      ensures s in after.pages && (after.pages[s].orphaned <==> LosesPage(run, before.state, order, s))
    {
      UnflushedPage(before, run, outcome, after, order, pages, s);
    }
    forall s
      ensures LosesPage(run, before.state, order, s) ==> exists f :: Owns(before.state.sources, f, s)
    {
      LosesRecordedPage(run, before.state, order, s);
    }
    StateUnwritten(before, run, outcome, after, order, pages);
  }

  lemma LosesRecordedPage(run: Run, state: WikiState, order: seq<File>, s: Slug)
    ensures LosesPage(run, state, order, s) ==> exists f :: Owns(state.sources, f, s)
  {}

  lemma StateUnwritten(before: Wiki, run: Run, outcome: Outcome, after: Wiki, order: seq<File>, pages: Pages)
    requires LiveStep(before, run, outcome, after, order, pages) && !outcome.Compiled?
    ensures after.state == before.state && OrderingOf(order, Deletions(run, before.state.sources))
    ensures outcome == if !DiesEarly(run, before.state) && !Succeeds(run, before.state) then Aborted else Interrupted
  {
    hide Succeeds, UnflushedPages, Deletions, OrphanedBy;
  }

  /** Every run keeps the invariant, but one that dies or fails after it has orphaned the page of a recorded concept. */
  lemma RunKeepsRecordedPages(before: Wiki, run: Run, outcome: Outcome, after: Wiki)
    requires Step(before, run, outcome, after) && RecordedPagesLive(before)
    requires Unflushed(run, outcome) ==> KeepsPages(run, before.state)
    ensures RecordedPagesLive(after)
  {
    hide Batch, NextState, NextPages, UnflushedPages, OrphanedBy, RecordedPagesLive, Deletions, NoWork, Reports, Succeeds,
      LosesPage, Frozen;
    if after.state != before.state || after.pages != before.pages {
      var order, pages :| LiveStep(before, run, outcome, after, order, pages);
      if outcome.Compiled? {
        CompletedPages(before, run, outcome, after, order, pages);
        CompletedRunKeepsPages(before, run, order, pages, after);
      } else {
        StateUnwritten(before, run, outcome, after, order, pages);
        UnflushedRunKeepsRecordedPagesIff(before, run, outcome, after, order, pages);
      }
    } else {
      SamePagesLive(before, after);
    }
  }

  lemma SamePagesLive(before: Wiki, after: Wiki)
    requires RecordedPagesLive(before) && after.state == before.state && after.pages == before.pages
    ensures RecordedPagesLive(after)
  {}

  lemma CompletedPages(before: Wiki, run: Run, outcome: Outcome, after: Wiki, order: seq<File>, pages: Pages)
    requires LiveStep(before, run, outcome, after, order, pages) && outcome.Compiled?
    ensures OrderingOf(order, Deletions(run, before.state.sources))
    ensures AllExtracted(run, Batch(run, before.state.sources)) && run.stop == Never
    ensures pages == Orphaned(before.pages, OrphanedBy(before.state.sources, order))
    ensures after.state == NextState(run, before.state) && NextPages(run, before.state, pages, after.pages)
  {
    hide Batch, Frozen, NextSources, OrphanedBy, Deletions, NextPages, Merges;
  }

  /** Some page that can be orphaned has only deleted owners. */
  ghost predicate OrphansAPage(sources: Sources, deleted: set<File>) {
    exists s :: IsSafeFilenameComponent(s) && OnlyDeletedOwners(sources, deleted, s)
  }

  ghost predicate OnlyDeletedOwners(sources: Sources, deleted: set<File>, s: Slug) {
    (exists f :: Owns(sources, f, s)) && forall f :: Owns(sources, f, s) ==> f in deleted
  }

  /**
   Without double listings the order of the deletions does not matter: a failing run keeps the recorded pages live
   exactly when no page lost all its owners.
   */
  lemma FailedRunKeepsRecordedPagesIff(before: Wiki, run: Run, outcome: Outcome, after: Wiki)
    requires Step(before, run, outcome, after) && RecordedPagesLive(before)
    requires !run.review && outcome.Aborted?
    requires forall s :: ListedOnce(before.state.sources, s)
    ensures RecordedPagesLive(after) <==> !OrphansAPage(before.state.sources, Deletions(run, before.state.sources))
  {
    hide Batch, NextState, NextPages, UnflushedPages, OrphanedBy, Deletions, Succeeds, ListedOnce, IsSafeFilenameComponent,
      RecordedPagesLive, OnlyDeletedOwners, NoWork, Reports, Owns, Orphaned, Publishes, Unowned;
    var sources, deleted := before.state.sources, Deletions(run, before.state.sources);
    var order, pages :| LiveStep(before, run, outcome, after, order, pages);
    StateUnwritten(before, run, outcome, after, order, pages);
    UnflushedRunKeepsRecordedPagesIff(before, run, outcome, after, order, pages);
    forall s
      ensures LosesPage(run, before.state, order, s) <==> IsSafeFilenameComponent(s) && OnlyDeletedOwners(sources, deleted, s)
    {
      LostToDeletions(sources, order, deleted, s);
    }
  }

  lemma LostToDeletions(sources: Sources, order: seq<File>, deleted: set<File>, s: Slug)
    requires OrderingOf(order, deleted) && ListedOnce(sources, s)
    ensures s in OrphanedBy(sources, order) <==> OnlyDeletedOwners(sources, deleted, s)
    ensures OnlyDeletedOwners(sources, deleted, s) ==> exists f :: Owns(sources, f, s)
  {
    OrphanedIffAllOwnersDeleted(sources, order, s);
  }

  /**
   From a state without sources, every recorded concept has a live page, as long as no run failed or died after it
   had orphaned one.
   */
  lemma {:induction false} RecordedPagesStayLive(h: History, j: nat)
    requires h.Valid() && j < |h.wikis| && h.wikis[0].state.sources == map[]
    requires forall i :: 0 <= i < j && Unflushed(h.runs[i], h.outcomes[i]) ==> KeepsPages(h.runs[i], h.wikis[i].state)
    ensures RecordedPagesLive(h.wikis[j])
    decreases j
  {
    hide Step, KeepsPages;
    if j > 0 {
      RecordedPagesStayLive(h, j - 1);
      assert Step(h.wikis[j - 1], h.runs[j - 1], h.outcomes[j - 1], h.wikis[j]);
      RunKeepsRecordedPages(h.wikis[j - 1], h.runs[j - 1], h.outcomes[j - 1], h.wikis[j]);
    }
  }

  // ----- Frozen concepts without owner -----

  /** A frozen concept is left without owner exactly when the run compiles every surviving owner to some concepts. */
  lemma UnownedAfterRunIff(run: Run, state: WikiState, s: Slug)
    requires AllExtracted(run, Batch(run, state.sources)) && s in Frozen(run, state)
    ensures s in Unowned(NextSources(run, state), Frozen(run, state)) <==>
      forall g :: Owns(state.sources, g, s) && g !in Deletions(run, state.sources) ==>
        g in Batch(run, state.sources) && !Empty(run, g)
  {
    BatchSurvives(run, state.sources);
    hide Batch, Frozen, Deletions, LiveSlugs, Empty;
    forall g
      ensures Owns(NextSources(run, state), g, s) <==>
        Owns(state.sources, g, s) && g !in Deletions(run, state.sources) && !(g in Batch(run, state.sources) && !Empty(run, g))
    {
      if g in Batch(run, state.sources) && !Empty(run, g) {
        LiveSlugsNotFrozen(run, Frozen(run, state), SlugsOf(Extract(run, g).value), s);
      }
    }
  }

  /** The run compiles every surviving owner of the concept to some concepts. */
  ghost predicate SurvivorsCompiled(run: Run, sources: Sources, s: Slug) {
    forall g :: Owns(sources, g, s) && g !in Deletions(run, sources) ==> g in Batch(run, sources) && !Empty(run, g)
  }

  /**
   The price of freezing and of skipped pages: a completed run orphans a live page, although a source of its batch
   yields the concept, exactly when the concept is frozen and every surviving owner was compiled to some concepts, or
   when it is not frozen, its new page is not written, and the deletions removed its last owner.
   */
  lemma YieldedPageOrphanedIff(before: Wiki, run: Run, outcome: Outcome, after: Wiki, order: seq<File>, pages: Pages,
                               f: File, s: Slug)
    requires LiveStep(before, run, outcome, after, order, pages) && outcome.Compiled?
    requires f in Batch(run, before.state.sources) && Yields(run, f, s)
    requires s in before.pages && !before.pages[s].orphaned
    ensures s in after.pages
    ensures after.pages[s].orphaned <==>
      (IsSafeFilenameComponent(s) &&
       if s in Frozen(run, before.state) then SurvivorsCompiled(run, before.state.sources, s)
       else run.generate(s) != Written && s in OrphanedBy(before.state.sources, order))
  {
    hide Batch, Frozen, NextSources, NextPages, OrphanedBy, Deletions, LiveStep, Yields, Empty,
      IsSafeFilenameComponent, Owns, Unowned, SurvivorsCompiled;
    CompletedPages(before, run, outcome, after, order, pages);
    YieldedPage(run, before.state, pages, after.pages, f, s);
    UnownedIsFrozen(run, before.state, s);
    if s in Frozen(run, before.state) {
      FrozenAndUnowned(before, run, order, s);
    }
  }

  /** A frozen concept whose last owner was deleted has no surviving owner. */
  lemma FrozenAndUnowned(before: Wiki, run: Run, order: seq<File>, s: Slug)
    requires OrderingOf(order, Deletions(run, before.state.sources)) && s in Frozen(run, before.state)
    requires AllExtracted(run, Batch(run, before.state.sources))
    ensures s in Unowned(NextSources(run, before.state), Frozen(run, before.state)) <==>
      SurvivorsCompiled(run, before.state.sources, s)
    ensures s in OrphanedBy(before.state.sources, order) ==> SurvivorsCompiled(run, before.state.sources, s)
  {
    UnownedAfterRunIff(run, before.state, s);
    hide Batch, Frozen, NextSources, OrphanedBy, Deletions, Empty, Owns, Unowned;
    if s in OrphanedBy(before.state.sources, order) {
      forall g | Owns(before.state.sources, g, s)
        ensures g in Deletions(run, before.state.sources)
      {
        OrphanedHaveNoSurvivor(before.state.sources, order, Deletions(run, before.state.sources), g, s);
      }
    }
  }

  lemma YieldedPage(run: Run, state: WikiState, before: Pages, after: Pages, f: File, s: Slug)
    requires AllExtracted(run, Batch(run, state.sources)) && NextPages(run, state, before, after)
    requires f in Batch(run, state.sources) && Yields(run, f, s) && s in before
    ensures s in after
    ensures s in Frozen(run, state) ==>
      (after[s].orphaned <==>
       before[s].orphaned || (s in Unowned(NextSources(run, state), Frozen(run, state)) && IsSafeFilenameComponent(s)))
    ensures s !in Frozen(run, state) ==>
      (after[s].orphaned <==>
       run.generate(s) != Written &&
       (before[s].orphaned || (s in Unowned(NextSources(run, state), Frozen(run, state)) && IsSafeFilenameComponent(s))))
  {
    hide Batch, Frozen, NextSources, IsSafeFilenameComponent, Yields, AllExtracted;
  }

  lemma UnownedIsFrozen(run: Run, state: WikiState, s: Slug)
    requires AllExtracted(run, Batch(run, state.sources))
    ensures s in Unowned(NextSources(run, state), Frozen(run, state)) ==> s in Frozen(run, state)
  {
    hide Batch, Frozen, NextSources, AllExtracted;
  }

  // ----- Convergence -----

  ghost predicate KeepsAll(run: Run) {
    forall c :: run.keep(c)
  }

  /** The run considers every change: no filter, nothing covered by a pending candidate. */
  ghost predicate Unfiltered(run: Run) {
    KeepsAll(run) && forall f :: !CoveredByPending(run, f)
  }

  predicate Digests(disk: Disk) {
    forall f :: f in disk ==> disk[f] != ""
  }

  /** Compiled without a result, or new or changed and left alone because a pending candidate covers it. */
  ghost predicate LeftStale(run: Run, state: WikiState, f: File) {
    if f in Batch(run, state.sources) then Empty(run, f)
    else CoveredByPending(run, f) && Classify(run.disk, state.sources, f) != Unchanged
  }

  /** After a full run, these are the sources that still differ from the disk. */
  lemma StaleAfterRun(run: Run, state: WikiState, f: File)
    requires KeepsAll(run) && Digests(run.disk)
    requires AllExtracted(run, Batch(run, state.sources))
    ensures f in run.disk ==> (Classify(run.disk, NextSources(run, state), f) != Unchanged <==> LeftStale(run, state, f))
  {
    hide LateBatch, Frozen, LiveSlugs;
    if f in run.disk && Classify(run.disk, state.sources, f) != Unchanged && !CoveredByPending(run, f) {
      assert run.keep(SourceChange(f, Classify(run.disk, state.sources, f)));
      assert f in DirectChanges(run, state.sources);
    }
  }

  lemma NothingDeletedAfterRun(run: Run, state: WikiState, f: File)
    requires KeepsAll(run) && AllExtracted(run, Batch(run, state.sources))
    ensures f in NextSources(run, state) ==> f in run.disk
  {
    hide LateBatch, FirstBatch, Frozen, LiveSlugs;
    if f in state.sources && f !in run.disk {
      assert run.keep(SourceChange(f, Deleted));
    }
  }

  lemma CompletedState(before: Wiki, run: Run, outcome: Outcome, after: Wiki)
    requires Step(before, run, outcome, after) && Completes(run, outcome)
    ensures AllExtracted(run, Batch(run, before.state.sources)) && after.state == NextState(run, before.state)
  {
    hide Batch, NextPages, NextSources, OrphanedBy, Frozen;
  }

  /**
   On the same disk, a second full compile has nothing to do exactly when every source that the first one left stale is
   covered by a pending candidate.
   */
  lemma SecondCompileHasNoWorkIff(before: Wiki, run: Run, outcome: Outcome, after: Wiki, again: Run)
    requires Step(before, run, outcome, after) && Completes(run, outcome)
    requires KeepsAll(run) && KeepsAll(again) && again.disk == run.disk && Digests(run.disk)
    ensures DirectChanges(again, after.state.sources) ==
      set f | f in run.disk && LeftStale(run, before.state, f) && !CoveredByPending(again, f)
    ensures NoWork(again, after.state.sources) <==>
      forall f :: f in run.disk && LeftStale(run, before.state, f) ==> CoveredByPending(again, f)
  {
    CompletedState(before, run, outcome, after);
    var sources := after.state.sources;
    forall f
      ensures f in DirectChanges(again, sources) <==>
        f in run.disk && LeftStale(run, before.state, f) && !CoveredByPending(again, f)
      ensures f !in Deletions(again, sources)
    {
      NothingDeletedAfterRun(run, before.state, f);
      StaleAfterRun(run, before.state, f);
      if f in run.disk {
        assert again.keep(SourceChange(f, Classify(run.disk, sources, f)));
      }
      hide LeftStale, NextSources;
    }
    hide Batch, Step, LeftStale, CoveredByPending;
    if DirectChanges(again, sources) == {} {
      assert AffectedBy(sources, {}, Deletions(again, sources)) == {};
    }
  }
}
