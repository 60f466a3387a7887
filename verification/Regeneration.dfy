/**
 Whether a regenerated page is rebuilt from all its contributors: exactly when it is, and
 the ways in which an owner is left out.
 */
module Regeneration {
  import opened Options
  import opened WikiState
  import opened Deps
  import opened Hasher
  import opened ExtractionPhase
  import opened ChangePlan
  import opened Generation
  import opened Orphan
  import opened Pending
  import opened Pipeline
  import opened CompileRuns
  import opened Interruptions

  /** `g` has the concept recorded and is not deleted in this run. */
  ghost predicate Survives(run: Run, sources: Sources, g: File, s: Slug) {
    Owns(sources, g, s) && g !in Deletions(run, sources)
  }

  ghost predicate DirectlyRecorded(run: Run, sources: Sources, s: Slug) {
    exists f :: f in DirectChanges(run, sources) && Owns(sources, f, s)
  }

  ghost predicate Gained(run: Run, sources: Sources, s: Slug) {
    exists f :: f in FirstBatch(run, sources) && Gains(run, sources, f, s)
  }

  /** A source that is compiled whatever becomes of `s`: it changed itself, or another of its concepts draws it in. */
  ghost predicate CompiledAnyway(run: Run, sources: Sources, g: File, s: Slug) {
    || g in DirectChanges(run, sources)
    || exists t :: t != s && Owns(sources, g, t) && (DirectlyRecorded(run, sources, t) || Gained(run, sources, t))
  }

  /** A surviving owner is compiled exactly when it changed or one of its concepts draws it in. */
  lemma CompiledIff(run: Run, sources: Sources, g: File, s: Slug)
    requires Survives(run, sources, g, s)
    ensures g in Batch(run, sources) <==>
      CompiledAnyway(run, sources, g, s) || DirectlyRecorded(run, sources, s) || Gained(run, sources, s)
  {
    hide DirectChanges, Deletions, Gains;
    if g in LateBatch(run, sources) {
      var f, t :| f in FirstBatch(run, sources) && Gains(run, sources, f, t) && Owns(sources, g, t);
      assert Gained(run, sources, t);
    } else if g in Batch(run, sources) && g !in DirectChanges(run, sources) {
      var f :| f in DirectChanges(run, sources) && CoOwn(sources, f, g);
      var t :| Owns(sources, f, t) && Owns(sources, g, t);
      assert DirectlyRecorded(run, sources, t);
    }
    if t :| Owns(sources, g, t) && (DirectlyRecorded(run, sources, t) || Gained(run, sources, t)) {
      DrawnIn(run, sources, g, t);
    }
  }

  lemma DrawnIn(run: Run, sources: Sources, g: File, t: Slug)
    requires Survives(run, sources, g, t) && (DirectlyRecorded(run, sources, t) || Gained(run, sources, t))
    ensures g in Batch(run, sources)
  {
    hide DirectChanges, Deletions, Gains;
    if f :| f in DirectChanges(run, sources) && Owns(sources, f, t) {
      assert CoOwn(sources, f, g);
    }
  }

  /**
   Main result: a concept's surviving owners are all compiled exactly when a directly changed source had it recorded,
   or a first-batch source gains it, or each of them is compiled anyway.
   */
  lemma RegeneratedFromAllOwnersIff(run: Run, sources: Sources, s: Slug)
    ensures (forall g :: Survives(run, sources, g, s) ==> g in Batch(run, sources)) <==>
      (DirectlyRecorded(run, sources, s) || Gained(run, sources, s) ||
       forall g :: Survives(run, sources, g, s) ==> CompiledAnyway(run, sources, g, s))
  {
    hide Batch, Survives, CompiledAnyway, DirectlyRecorded, Gained;
    forall g | Survives(run, sources, g, s)
      ensures g in Batch(run, sources) <==>
        CompiledAnyway(run, sources, g, s) || DirectlyRecorded(run, sources, s) || Gained(run, sources, s)
    {
      CompiledIff(run, sources, g, s);
    }
  }

  /** The run rewrites the page of `s` without one of its surviving owners. */
  ghost predicate LosesContributor(run: Run, state: WikiState, s: Slug) {
    && Publishes(run, Batch(run, state.sources), Frozen(run, state), s)
    && exists g :: Survives(run, state.sources, g, s) && g !in Batch(run, state.sources)
  }

  /** A source that `collectFreshSlugs` and the direct closure never ask about `s`. */
  ghost predicate YieldsUnseen(run: Run, sources: Sources, f: File, s: Slug) {
    && Yields(run, f, s) && f !in DirectChanges(run, sources)
    && ((f in FirstBatch(run, sources) && Owns(sources, f, s)) || f in LateBatch(run, sources))
  }

  /**
   When a published page loses an owner: only sources outside the direct changes yield it, affected ones that had it
   recorded or late ones, whether those had it recorded or not, and some surviving owner is not compiled anyway.
   */
  lemma LosesContributorIff(run: Run, state: WikiState, s: Slug)
    ensures LosesContributor(run, state, s) <==>
      && s !in Frozen(run, state) && run.generate(s) == Written
      && !DirectlyRecorded(run, state.sources, s) && !Gained(run, state.sources, s)
      && (exists f :: YieldsUnseen(run, state.sources, f, s))
      && exists g :: Survives(run, state.sources, g, s) && !CompiledAnyway(run, state.sources, g, s)
  {
    var sources := state.sources;
    RegeneratedFromAllOwnersIff(run, sources, s);
    if !DirectlyRecorded(run, sources, s) && !Gained(run, sources, s) {
      forall f | f in Batch(run, sources) && Yields(run, f, s)
        ensures YieldsUnseen(run, sources, f, s)
      {
        UnseenYield(run, sources, f, s);
      }
    }
    hide DirectlyRecorded, Gained, Survives, CompiledAnyway, Frozen, Yields, FirstBatch, LateBatch;
  }

  lemma UnseenYield(run: Run, sources: Sources, f: File, s: Slug)
    requires f in Batch(run, sources) && Yields(run, f, s)
    requires !DirectlyRecorded(run, sources, s) && !Gained(run, sources, s)
    ensures YieldsUnseen(run, sources, f, s)
  {
    hide DirectChanges, LateBatch, AffectedBy;
    if f in FirstBatch(run, sources) {
      assert Owns(sources, f, s) by {
        assert !Gains(run, sources, f, s);
      }
    }
  }

  // ----- Examples -----

  /** A page that `a` and the deleted `d` share is regenerated from `a` alone, where a review run would protect it. */
  lemma DeletionLosesContributor(a: File, d: File, s: Slug, h: Hash, h': Hash)
    returns (run: Run, state: WikiState)
    requires a != d && h != h' && h != "" && h' != ""
    ensures !run.review && Unfiltered(run) && Digests(run.disk)
    ensures d in Deletions(run, state.sources) && s in SharedConcepts(state.sources, d)
    ensures Publishes(run, Batch(run, state.sources), Frozen(run, state), s)
    ensures s in Frozen(run.(review := true), state)
  {
    var sources := map[a := SourceState(h, [s]), d := SourceState(h, [s])];
    state := WikiState(sources, {});
    run := Run(map[a := h'], change => true, map[], f => Some([Concept(s)]), slug => Written, false, Never);
    assert run.keep(SourceChange(a, Changed)) && run.keep(SourceChange(d, Deleted));
    assert a in Batch(run, sources);
    assert Owns(sources, a, s) && s in Recorded(sources, d);
    assert Yields(run, a, s) by {
      assert SlugsOf([Concept(s)])[0] == s;
    }
    assert [Concept(s)] != [];
    var review := run.(review := true);
    assert review.keep(SourceChange(d, Deleted));
    assert d in Deletions(review, sources);
  }

  /**
   The closure is one hop: `a` changed and shares `t` with `b`, so `b` is compiled again, and with it the page `s` that
   `b` shares with `c`; but `c` is not compiled, and the page is regenerated without it.
   */
  lemma OneHopLosesContributor(a: File, b: File, c: File, s: Slug, t: Slug, h: Hash, h': Hash)
    returns (run: Run, sources: Sources)
    requires a != b && b != c && a != c && s != t && h != h' && h != "" && h' != ""
    ensures !run.review && Unfiltered(run) && Digests(run.disk)
    ensures c in run.disk && Owns(sources, c, s) && LosesContributor(run, WikiState(sources, {}), s)
  {
    sources := map[a := SourceState(h, [t]), b := SourceState(h, [t, s]), c := SourceState(h, [s])];
    var concepts := map[a := [Concept(t)], b := [Concept(t), Concept(s)], c := [Concept(s)]];
    run := Run(map[a := h', b := h, c := h], change => true, map[],
               f => if f in concepts then Some(concepts[f]) else None, slug => Written, false, Never);
    OneHopDirect(run, sources, a, b, c, s, t, h, h');
    assert AffectedBy(sources, {a}, {}) == {b};
    assert FirstBatch(run, sources) == {a, b};
    OneHopLate(run, sources, a, b, s, t);
    assert Yields(run, b, s) by {
      assert SlugsOf(concepts[b])[1] == s;
    }
    assert concepts[a] != [] && concepts[b] != [];
    assert Survives(run, sources, c, s);
  }

  lemma OneHopDirect(run: Run, sources: Sources, a: File, b: File, c: File, s: Slug, t: Slug, h: Hash, h': Hash)
    requires a != b && b != c && a != c && s != t && h != h'
    requires sources == map[a := SourceState(h, [t]), b := SourceState(h, [t, s]), c := SourceState(h, [s])]
    requires run.disk == map[a := h', b := h, c := h] && Unfiltered(run)
    ensures DirectChanges(run, sources) == {a} && Deletions(run, sources) == {}
    ensures CoOwn(sources, a, b) && !CoOwn(sources, a, c)
  {
    assert Owns(sources, a, t) && Owns(sources, b, t);
    assert run.keep(SourceChange(a, Changed));
  }

  lemma OneHopLate(run: Run, sources: Sources, a: File, b: File, s: Slug, t: Slug)
    requires FirstBatch(run, sources) == {a, b}
    requires Recorded(sources, a) == [t] && Recorded(sources, b) == [t, s]
    requires Extract(run, a) == Some([Concept(t)]) && Extract(run, b) == Some([Concept(t), Concept(s)])
    ensures LateBatch(run, sources) == {}
  {
    hide FirstBatch, Deletions, Extract;
    forall f, slug
      ensures f in {a, b} ==> !Gains(run, sources, f, slug)
    {
      assert t in Recorded(sources, a) && t in Recorded(sources, b) && s in Recorded(sources, b) by {
        assert [t][0] == t && [t, s][0] == t && [t, s][1] == s;
      }
    }
  }

  /**
   A late source can gain a slug unseen: `a` changed and newly yields `t`, which draws in the unchanged `b`; `b` now
   yields `s` too, and its page is regenerated without the owner `c`.
   */
  lemma LateGainLosesContributor(a: File, b: File, c: File, s: Slug, t: Slug, h: Hash, h': Hash)
    returns (run: Run, sources: Sources)
    requires a != b && b != c && a != c && s != t && h != h' && h != "" && h' != ""
    ensures !run.review && Unfiltered(run) && Digests(run.disk)
    ensures b in LateBatch(run, sources) && Yields(run, b, s) && !Owns(sources, b, s)
    ensures c in run.disk && LosesContributor(run, WikiState(sources, {}), s)
  {
    sources := map[a := SourceState(h, []), b := SourceState(h, [t]), c := SourceState(h, [s])];
    var concepts := map[a := [Concept(t)], b := [Concept(t), Concept(s)], c := [Concept(s)]];
    run := Run(map[a := h', b := h, c := h], change => true, map[],
               f => if f in concepts then Some(concepts[f]) else None, slug => Written, false, Never);
    LateGainBatches(run, sources, a, b, c, s, t, h, h');
    assert Yields(run, b, s) by {
      assert SlugsOf(concepts[b])[1] == s;
    }
    assert concepts[a] != [] && concepts[b] != [];
    assert Survives(run, sources, c, s);
  }

  lemma LateGainFirst(run: Run, sources: Sources, a: File, b: File, c: File, s: Slug, t: Slug, h: Hash, h': Hash)
    requires a != b && b != c && a != c && s != t && h != h'
    requires sources == map[a := SourceState(h, []), b := SourceState(h, [t]), c := SourceState(h, [s])]
    requires run.disk == map[a := h', b := h, c := h] && Unfiltered(run)
    ensures Deletions(run, sources) == {} && FirstBatch(run, sources) == {a}
  {
    assert run.keep(SourceChange(a, Changed));
    assert DirectChanges(run, sources) == {a} && Deletions(run, sources) == {};
    assert AffectedBy(sources, {a}, {}) == {};
  }

  lemma LateGainBatches(run: Run, sources: Sources, a: File, b: File, c: File, s: Slug, t: Slug, h: Hash, h': Hash)
    requires a != b && b != c && a != c && s != t && h != h'
    requires sources == map[a := SourceState(h, []), b := SourceState(h, [t]), c := SourceState(h, [s])]
    requires run.disk == map[a := h', b := h, c := h] && Unfiltered(run) && Extract(run, a) == Some([Concept(t)])
    ensures Deletions(run, sources) == {} && FirstBatch(run, sources) == {a} && LateBatch(run, sources) == {b}
  {
    LateGainFirst(run, sources, a, b, c, s, t, h, h');
    hide FirstBatch, Deletions, Classify;
    assert t in SlugsOf([Concept(t)]) by {
      assert SlugsOf([Concept(t)])[0] == t;
    }
    assert Gains(run, sources, a, t) && Owns(sources, b, t);
    assert forall x :: Gains(run, sources, a, x) <==> x == t;
  }

  /**
   Freezing can cost a page its life: an empty extraction of the only owner freezes `s`, the next good extraction
   drops `s` from the source's entry, and the completed run orphans the page that the source has just yielded.
   */
  lemma EmptyThenYieldedOrphans(f: File, s: Slug, h: Hash, h': Hash) returns (w: History)
    requires h != h' && h != "" && h' != "" && IsSafeFilenameComponent(s)
    ensures w.Valid() && |w.runs| == 2 && forall i :: 0 <= i < 2 ==> Completes(w.runs[i], w.outcomes[i])
    ensures RecordedPagesLive(w.wikis[0]) && Owns(w.wikis[0].state.sources, f, s)
    ensures Yields(w.runs[1], f, s) && w.wikis[1].pages == w.wikis[0].pages == map[s := Page(false)]
    ensures w.wikis[2].pages == map[s := Page(true)]
  {
    var empty := Run(map[f := h'], change => true, map[], f => Some([]), slug => Written, false, Never);
    var good := empty.(extract := f => Some([Concept(s)]));
    var pages := map[s := Page(false)];
    var before := Wiki(WikiState(map[f := SourceState(h, [s])], {}), pages, []);
    var frozen := Wiki(WikiState(map[f := SourceState("", [s])], {s}), pages, []);
    var after := Wiki(WikiState(map[f := SourceState(h', [])], {s}), map[s := Page(true)], []);
    hide Step;
    EmptyFreezes(empty, before, frozen, f, s);
    YieldOrphans(good, frozen, after, f, s);
    w := History([before, frozen, after], [empty, good], [Compiled([f], []), Compiled([f], [])]);
    assert forall i :: 0 <= i < 2 ==> Step(w.wikis[i], w.runs[i], w.outcomes[i], w.wikis[i + 1]);
    assert Owns(before.state.sources, f, s);
    assert Yields(good, f, s) by {
      assert SlugsOf([Concept(s)])[0] == s;
    }
  }

  /** A run of one source that merges nothing. */
  lemma OneSourceStep(run: Run, before: Wiki, after: Wiki, f: File)
    requires !run.review && run.stop == Never && Extract(run, f).Some?
    requires Batch(run, before.state.sources) == {f} && Deletions(run, before.state.sources) == {}
    requires !NoWork(run, before.state.sources)
    requires forall s :: !Merges(run, {f}, Frozen(run, before.state), s)
    requires after.state == NextState(run, before.state)
    requires after.pages == Orphaned(before.pages, Unowned(after.state.sources, after.state.frozenSlugs))
    requires after.candidates == before.candidates && run.pending == SourceHashes(before.candidates)
    ensures Step(before, run, Compiled([f], []), after)
  {
    hide Batch, Deletions, Frozen, NextSources, Merges, IsSafeFilenameComponent, NoWork, Unowned, Extract;
    OrphanedNothing(before.pages);
    assert AfterPages(run, {f}, before.candidates, []) == before.candidates;
    assert IsGeneration(run, before.state, []);
    assert LiveStep(before, run, Compiled([f], []), after, [], before.pages);
  }

  lemma EmptyFreezes(run: Run, before: Wiki, after: Wiki, f: File, s: Slug)
    requires before.state.sources.Keys == run.disk.Keys == {f} && run.disk[f] != before.state.sources[f].hash
    requires Unfiltered(run) && !run.review && run.stop == Never && Empty(run, f)
    requires run.pending == SourceHashes(before.candidates)
    requires before.state == WikiState(map[f := SourceState(before.state.sources[f].hash, [s])], {})
    requires after == Wiki(WikiState(map[f := SourceState("", [s])], {s}), before.pages, before.candidates)
    ensures Step(before, run, Compiled([f], []), after)
  {
    OneSourceBatch(run, before.state.sources, f);
    var state := before.state;
    assert f in FirstBatch(run, state.sources) + LateBatch(run, state.sources);
    hide Batch, Deletions, FirstBatch, Step;
    assert s in Recorded(state.sources, f);
    assert Frozen(run, state) == {s};
    assert NextSources(run, state) == after.state.sources;
    assert Owns(after.state.sources, f, s);
    assert Unowned(after.state.sources, {s}) == {};
    OrphanedNothing(before.pages);
    OneSourceStep(run, before, after, f);
  }

  lemma NothingLive(run: Run, s: Slug)
    ensures LiveSlugs(run, {s}, [s]) == []
  {
    var live := LiveSlugs(run, {s}, [s]);
    if live != [] {
      LiveSlugsNotFrozen(run, {s}, [s], live[0]);
    }
  }

  /** A compile of the only owner of a frozen concept records nothing for it. */
  lemma YieldedButFrozen(run: Run, state: WikiState, f: File, s: Slug)
    requires Batch(run, state.sources) == {f} && Deletions(run, state.sources) == {} && state.sources.Keys == {f}
    requires !run.review && Extract(run, f) == Some([Concept(s)]) && state.frozenSlugs == {s} && f in run.disk
    ensures Frozen(run, state) == {s} && forall x :: !Merges(run, {f}, {s}, x)
    ensures NextSources(run, state) == map[f := SourceState(run.disk[f], [])]
  {
    hide Batch, Deletions, LiveSlugs;
    assert SlugsOf([Concept(s)]) == [s] && [Concept(s)] != [];
    assert Frozen(run, state) == {s};
    NothingLive(run, s);
    assert Entry(run, state.sources, {s}, f) == SourceState(run.disk[f], []);
    hide Entry;
  }

  lemma YieldOrphans(run: Run, before: Wiki, after: Wiki, f: File, s: Slug)
    requires before.state.sources.Keys == run.disk.Keys == {f} && run.disk[f] != before.state.sources[f].hash
    requires Unfiltered(run) && !run.review && run.stop == Never && Extract(run, f) == Some([Concept(s)])
    requires run.pending == SourceHashes(before.candidates)
    requires before.state.frozenSlugs == {s} && before.pages == map[s := Page(false)]
    requires IsSafeFilenameComponent(s)
    requires after == Wiki(WikiState(map[f := SourceState(run.disk[f], [])], {s}), map[s := Page(true)], before.candidates)
    ensures Step(before, run, Compiled([f], []), after)
  {
    OneSourceBatch(run, before.state.sources, f);
    assert f in FirstBatch(run, before.state.sources) + LateBatch(run, before.state.sources);
    YieldedButFrozen(run, before.state, f, s);
    hide Batch, Deletions, FirstBatch, Step, LiveSlugs, IsSafeFilenameComponent, Frozen, NextSources, Merges, Extract;
    OnlyPageOrphaned(after.state.sources, f, s);
    OneSourceStep(run, before, after, f);
  }

  lemma OnlyPageOrphaned(sources: Sources, f: File, s: Slug)
    requires IsSafeFilenameComponent(s) && sources.Keys == {f} && sources[f].concepts == []
    ensures Orphaned(map[s := Page(false)], Unowned(sources, {s})) == map[s := Page(true)]
  {
    hide IsSafeFilenameComponent;
  }
}
