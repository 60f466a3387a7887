/**
 When no interruption at all changes what the next compile takes for changed: a condition
 on the waiting candidates and the pages of the batch, file by file.
 */
module Exposure {
  import opened Sequences
  import opened WikiState
  import opened ExtractionPhase
  import opened Generation
  import opened ChangePlan
  import opened Orphan
  import opened Pending
  import opened Pipeline
  import opened Reruns

  /** Some pages of the batch, as a run that dies on the way leaves them. */
  ghost predicate IsPart(run: Run, state: WikiState, slugs: seq<Slug>) {
    Distinct(slugs) && forall s :: s in slugs ==> Merges(run, Batch(run, state.sources), Frozen(run, state), s)
  }

  /** The direct changes of the next run, when these pages were generated. */
  ghost function ChangesAfter(run: Run, state: WikiState, candidates: Candidates, slugs: seq<Slug>): set<File> {
    DirectChanges(
      run.(pending := SourceHashes(AfterPages(run, Batch(run, state.sources), candidates, slugs))), state.sources)
  }

  /** A page of the batch that is held and made from the file. */
  ghost predicate HeldFor(run: Run, state: WikiState, f: File, s: Slug) {
    && f in Batch(run, state.sources) && Merges(run, Batch(run, state.sources), Frozen(run, state), s)
    && GeneratedAs(run, s) == Held && Yields(run, f, s)
  }

  /** Generating a page of the batch removes these candidates, and leaves none that names the file instead. */
  ghost predicate Removable(run: Run, state: WikiState, f: File, target: Target) {
    && target.ConceptPage? && Merges(run, Batch(run, state.sources), Frozen(run, state), target.slug)
    && Touches(run, target.slug) && !HeldFor(run, state, f, target.slug)
  }

  /** The candidate would be the latest one to name the file, once all later ones that do are removed. */
  ghost predicate Exposed(run: Run, state: WikiState, candidates: Candidates, f: File, i: nat) {
    && i < |candidates| && f in candidates[i].hashes
    && forall j :: i < j < |candidates| && f in candidates[j].hashes ==>
        Removable(run, state, f, candidates[j].target) && candidates[j].target != candidates[i].target
  }

  /** Some candidate names the file, and no generation removes it without holding a page made from the file. */
  ghost predicate Lasting(run: Run, state: WikiState, candidates: Candidates, f: File) {
    exists i :: 0 <= i < |candidates| && f in candidates[i].hashes && !Removable(run, state, f, candidates[i].target)
  }

  /** A covered file keeps its cover, one that is not covered gets none. */
  ghost predicate CoverStays(run: Run, state: WikiState, candidates: Candidates, f: File)
    requires f in run.disk
  {
    if Covers(run, candidates, f) then
      && Lasting(run, state, candidates, f)
      && forall i: nat :: Exposed(run, state, candidates, f, i) ==> candidates[i].hashes[f] == run.disk[f]
    else
      && (forall s :: !HeldFor(run, state, f, s))
      && forall i: nat :: Exposed(run, state, candidates, f, i) ==> candidates[i].hashes[f] != run.disk[f]
  }

  // ----- The latest candidate that names a file -----

  lemma KeptHashes(init: Candidates, last: Candidate, p: Candidate -> bool)
    ensures SourceHashes(Keep(init + [last], p)) ==
      if p(last) then SourceHashes(Keep(init, p)) + last.hashes else SourceHashes(Keep(init, p))
  {
    assert (init + [last])[..|init|] == init && Keep(init, p) + [] == Keep(init, p);
    HashesAppend(Keep(init, p), last);
    hide SourceHashes;
  }

  /** What some candidates say of a file is what the latest of them that names it says. */
  lemma {:induction false} LatestNamed(candidates: Candidates, p: Candidate -> bool, f: File) returns (i: int)
    ensures -1 <= i < |candidates|
    ensures forall j :: i < j < |candidates| && f in candidates[j].hashes ==> !p(candidates[j])
    ensures var hashes := SourceHashes(Keep(candidates, p));
      if i == -1 then f !in hashes
      else f in candidates[i].hashes && p(candidates[i]) && f in hashes && hashes[f] == candidates[i].hashes[f]
  {
    if candidates == [] {
      i := -1;
    } else {
      hide SourceHashes, Keep;
      var init, last := candidates[..|candidates| - 1], candidates[|candidates| - 1];
      assert candidates == init + [last];
      i := LatestNamed(init, p, f);
      KeptHashes(init, last, p);
      if p(last) && f in last.hashes {
        i := |candidates| - 1;
      }
    }
  }

  lemma {:induction false} InSomeOrder(slugs: set<Slug>) returns (order: seq<Slug>)
    ensures Distinct(order) && forall s :: s in order <==> s in slugs
    decreases slugs
  {
    if slugs == {} {
      order := [];
    } else {
      var s :| s in slugs;
      order := InSomeOrder(slugs - {s});
      assert s !in order;
      order := order + [s];
    }
  }

  // ----- One generation -----

  lemma HeldInPart(run: Run, state: WikiState, slugs: seq<Slug>, f: File)
    requires IsPart(run, state, slugs)
    ensures HeldFrom(run, Batch(run, state.sources), slugs, f) <==> exists s :: s in slugs && HeldFor(run, state, f, s)
  {
    hide Batch, Frozen, Merges, GeneratedAs, Yields;
  }

  /** The cover after some pages, none of them held and made from the file: that of the latest candidate left. */
  lemma CoverOfLatest(run: Run, state: WikiState, candidates: Candidates, slugs: seq<Slug>, f: File) returns (i: int)
    requires IsPart(run, state, slugs) && !HeldFrom(run, Batch(run, state.sources), slugs, f)
    ensures -1 <= i < |candidates|
    ensures forall j :: i < j < |candidates| && f in candidates[j].hashes ==> TouchesOneOf(run, slugs, candidates[j])
    ensures i >= 0 ==> f in candidates[i].hashes && !TouchesOneOf(run, slugs, candidates[i])
    ensures CoveredAfter(run, Batch(run, state.sources), candidates, slugs, f) <==>
      (f in run.disk && run.disk[f] != "" && i >= 0 && candidates[i].hashes[f] == run.disk[f])
  {
    hide Batch, TouchesOneOf, HeldFrom, IsPart, SourceHashes;
    i := LatestNamed(candidates, (c: Candidate) => !TouchesOneOf(run, slugs, c), f);
  }

  /** What a generation removes without holding a page of the file is removable. */
  lemma TouchedIsRemovable(run: Run, state: WikiState, slugs: seq<Slug>, f: File, c: Candidate)
    requires IsPart(run, state, slugs) && !HeldFrom(run, Batch(run, state.sources), slugs, f)
    requires TouchesOneOf(run, slugs, c)
    ensures Removable(run, state, f, c.target)
  {
    HeldInPart(run, state, slugs, f);
    hide Batch, Frozen, Merges, HeldFrom, HeldFor, Touches;
  }

  lemma LatestIsExposed(run: Run, state: WikiState, candidates: Candidates, slugs: seq<Slug>, f: File, i: nat)
    requires IsPart(run, state, slugs) && !HeldFrom(run, Batch(run, state.sources), slugs, f)
    requires i < |candidates| && f in candidates[i].hashes && !TouchesOneOf(run, slugs, candidates[i])
    requires forall j :: i < j < |candidates| && f in candidates[j].hashes ==> TouchesOneOf(run, slugs, candidates[j])
    ensures Exposed(run, state, candidates, f, i)
  {
    hide IsPart, HeldFrom, Removable, Batch, Touches;
    forall j | i < j < |candidates| && f in candidates[j].hashes
      ensures Removable(run, state, f, candidates[j].target) && candidates[j].target != candidates[i].target
    {
      TouchedIsRemovable(run, state, slugs, f, candidates[j]);
    }
  }

  /** The condition is enough: whatever pages are generated, the cover stays. */
  lemma StaysAfter(run: Run, state: WikiState, candidates: Candidates, slugs: seq<Slug>, f: File)
    requires IsPart(run, state, slugs) && f in run.disk
    requires run.disk[f] != "" ==> CoverStays(run, state, candidates, f)
    ensures CoveredAfter(run, Batch(run, state.sources), candidates, slugs, f) <==> Covers(run, candidates, f)
  {
    HeldInPart(run, state, slugs, f);
    hide Batch, HeldFor, Exposed, IsPart, Removable, SourceHashes, TouchesOneOf, Untouched;
    if !HeldFrom(run, Batch(run, state.sources), slugs, f) {
      var i := CoverOfLatest(run, state, candidates, slugs, f);
      hide CoveredAfter, HeldFrom;
      if i >= 0 {
        LatestIsExposed(run, state, candidates, slugs, f, i);
      } else if Lasting(run, state, candidates, f) {
        var k :| 0 <= k < |candidates| && f in candidates[k].hashes && !Removable(run, state, f, candidates[k].target);
        TouchedIsRemovable(run, state, slugs, f, candidates[k]);
      }
    } else {
      hide HeldFrom;
    }
  }

  // ----- The generations that show it -----

  /** The pages whose candidates name the file and come after the given place. */
  ghost function LaterPages(candidates: Candidates, f: File, i: int): set<Slug> {
    set j | i < j < |candidates| && 0 <= j && f in candidates[j].hashes && candidates[j].target.ConceptPage? ::
      candidates[j].target.slug
  }

  lemma LaterPage(candidates: Candidates, f: File, i: int, j: int)
    requires -1 <= i < j < |candidates| && f in candidates[j].hashes && candidates[j].target.ConceptPage?
    ensures candidates[j].target.slug in LaterPages(candidates, f, i)
  {}

  /** All candidates after a place that name the file can be removed at once, without covering it anew. */
  lemma RemoveLater(run: Run, state: WikiState, candidates: Candidates, f: File, i: int) returns (slugs: seq<Slug>)
    requires -1 <= i < |candidates|
    requires forall j :: i < j < |candidates| && f in candidates[j].hashes ==> Removable(run, state, f, candidates[j].target)
    ensures IsPart(run, state, slugs) && !HeldFrom(run, Batch(run, state.sources), slugs, f)
    ensures forall j :: i < j < |candidates| && f in candidates[j].hashes ==> TouchesOneOf(run, slugs, candidates[j])
    ensures forall s :: s in slugs ==> s in LaterPages(candidates, f, i)
  {
    slugs := InSomeOrder(LaterPages(candidates, f, i));
    forall s | s in slugs
      ensures Removable(run, state, f, ConceptPage(s))
    {
      var j :| i < j < |candidates| && f in candidates[j].hashes && candidates[j].target == ConceptPage(s);
    }
    hide Batch, Frozen, Merges, HeldFor, Touches;
    assert IsPart(run, state, slugs);
    HeldInPart(run, state, slugs, f);
    hide HeldFrom;
    forall j | i < j < |candidates| && f in candidates[j].hashes
      ensures TouchesOneOf(run, slugs, candidates[j])
    {
      LaterPage(candidates, f, i, j);
    }
  }

  /** An exposed candidate decides the cover after some generation. */
  lemma ShowExposed(run: Run, state: WikiState, candidates: Candidates, f: File, i: nat) returns (slugs: seq<Slug>)
    requires Exposed(run, state, candidates, f, i) && f in run.disk && run.disk[f] != ""
    ensures IsPart(run, state, slugs)
    ensures CoveredAfter(run, Batch(run, state.sources), candidates, slugs, f) <==> candidates[i].hashes[f] == run.disk[f]
  {
    slugs := RemoveLater(run, state, candidates, f, i);
    var k := CoverOfLatest(run, state, candidates, slugs, f);
    hide Batch, IsPart, HeldFrom, CoveredAfter, Removable, Touches;
    assert !TouchesOneOf(run, slugs, candidates[i]);
    assert k == i;
  }

  /** If every candidate that names the file can be removed, no cover is left after some generation. */
  lemma ShowUncovered(run: Run, state: WikiState, candidates: Candidates, f: File) returns (slugs: seq<Slug>)
    requires !Lasting(run, state, candidates, f)
    ensures IsPart(run, state, slugs) && !CoveredAfter(run, Batch(run, state.sources), candidates, slugs, f)
  {
    slugs := RemoveLater(run, state, candidates, f, -1);
    var k := CoverOfLatest(run, state, candidates, slugs, f);
  }

  /** A held page covers the file it is made from. */
  lemma ShowHeld(run: Run, state: WikiState, candidates: Candidates, f: File, s: Slug)
    requires HeldFor(run, state, f, s) && f in run.disk && run.disk[f] != ""
    ensures IsPart(run, state, [s]) && CoveredAfter(run, Batch(run, state.sources), candidates, [s], f)
  {
    hide Batch, Frozen, Merges, GeneratedAs, Yields;
    assert s in [s];
  }

  // ----- The exact condition -----

  /** The next run has the same direct changes exactly when no file that is considered gains or loses its cover. */
  lemma SameChangesAfter(run: Run, state: WikiState, candidates: Candidates, slugs: seq<Slug>)
    requires run.pending == SourceHashes(candidates) && Distinct(slugs)
    ensures ChangesAfter(run, state, candidates, slugs) == DirectChanges(run, state.sources) <==>
      forall f :: Considered(run, state.sources, f) ==>
        (CoveredAfter(run, Batch(run, state.sources), candidates, slugs, f) <==> Covers(run, candidates, f))
  {
    hide Batch, AfterPages, SourceHashes;
    forall f
      ensures f in DirectChanges(run, state.sources) <==> Considered(run, state.sources, f) && !Covers(run, candidates, f)
      ensures f in ChangesAfter(run, state, candidates, slugs) <==>
        Considered(run, state.sources, f) && !CoveredAfter(run, Batch(run, state.sources), candidates, slugs, f)
    {
      CoveredAfterPages(run, Batch(run, state.sources), candidates, slugs, f);
      hide CoveredAfter;
    }
    hide DirectChanges, Considered, CoveredAfter, Covers, ChangesAfter;
  }

  /** One file, over all generations. */
  lemma CoverStaysIff(run: Run, state: WikiState, candidates: Candidates, f: File)
    requires f in run.disk
    ensures (forall slugs :: IsPart(run, state, slugs) ==>
        (CoveredAfter(run, Batch(run, state.sources), candidates, slugs, f) <==> Covers(run, candidates, f)))
      <==> (run.disk[f] != "" ==> CoverStays(run, state, candidates, f))
  {
    hide Batch, IsPart, CoveredAfter, Covers, Exposed, Lasting, HeldFor;
    if run.disk[f] != "" ==> CoverStays(run, state, candidates, f) {
      forall slugs | IsPart(run, state, slugs)
        ensures CoveredAfter(run, Batch(run, state.sources), candidates, slugs, f) <==> Covers(run, candidates, f)
      {
        StaysAfter(run, state, candidates, slugs, f);
      }
    } else {
      var slugs := ChangedCover(run, state, candidates, f);
    }
  }

  /** If the condition fails, some generation changes the cover. */
  lemma ChangedCover(run: Run, state: WikiState, candidates: Candidates, f: File) returns (slugs: seq<Slug>)
    requires f in run.disk && run.disk[f] != "" && !CoverStays(run, state, candidates, f)
    ensures IsPart(run, state, slugs)
    ensures CoveredAfter(run, Batch(run, state.sources), candidates, slugs, f) != Covers(run, candidates, f)
  {
    hide Batch, IsPart, CoveredAfter, Covers, Removable, Lasting, HeldFor;
    if Covers(run, candidates, f) {
      if !Lasting(run, state, candidates, f) {
        slugs := ShowUncovered(run, state, candidates, f);
      } else {
        var i: nat :| Exposed(run, state, candidates, f, i) && candidates[i].hashes[f] != run.disk[f];
        slugs := ShowExposed(run, state, candidates, f, i);
      }
    } else if s :| HeldFor(run, state, f, s) {
      ShowHeld(run, state, candidates, f, s);
      slugs := [s];
    } else {
      var i: nat :| Exposed(run, state, candidates, f, i) && candidates[i].hashes[f] == run.disk[f];
      slugs := ShowExposed(run, state, candidates, f, i);
    }
  }

  /** Every part of the batch's pages is what some run leaves that dies while it generates them. */
  lemma PartIsInterruption(before: Wiki, run: Run, slugs: seq<Slug>) returns (after: Wiki)
    requires run.stop == InGeneration && AllExtracted(run, Batch(run, before.state.sources))
    requires !NoWork(run, before.state.sources) && run.pending == SourceHashes(before.candidates)
    requires IsPart(run, before.state, slugs)
    ensures Step(before, run, Interrupted, after) && after.state == before.state
    ensures after.candidates == AfterPages(run, Batch(run, before.state.sources), before.candidates, slugs)
  {
    hide Batch, Frozen, Merges, AllExtracted, NoWork, Deletions, OrphanedBy, Orphaned, AfterPages, SourceHashes, Succeeds;
    var sources := before.state.sources;
    var candidates := AfterPages(run, Batch(run, sources), before.candidates, slugs);
    var order := SomeOrder(Deletions(run, sources));
    var pages := Orphaned(before.pages, OrphanedBy(sources, order));
    after := Wiki(before.state, if run.review then before.pages else pages, candidates);
    assert IsGeneration(run, before.state, slugs);
    assert CandidatesStep(run, before.state, before.candidates, candidates);
    if !run.review {
      assert LiveStep(before, run, Interrupted, after, order, pages);
    }
  }

  /**
   Main result: whatever pages of its batch a run generates before it dies, the next run on the same disk has the same
   direct changes, exactly when each considered file keeps the cover it has or has none to get: a covered one by a
   candidate that lasts and by every one that can be exposed, any other by no page held and by none of these.
   */
  lemma EveryInterruptionKeepsChangesIff(run: Run, state: WikiState, candidates: Candidates)
    requires run.pending == SourceHashes(candidates)
    ensures (forall slugs :: IsPart(run, state, slugs) ==>
        ChangesAfter(run, state, candidates, slugs) == DirectChanges(run, state.sources))
      <==> forall f :: Considered(run, state.sources, f) && run.disk[f] != "" ==> CoverStays(run, state, candidates, f)
  {
    forall slugs | IsPart(run, state, slugs)
      ensures ChangesAfter(run, state, candidates, slugs) == DirectChanges(run, state.sources) <==>
        forall f :: Considered(run, state.sources, f) ==>
          (CoveredAfter(run, Batch(run, state.sources), candidates, slugs, f) <==> Covers(run, candidates, f))
    {
      SameChangesAfter(run, state, candidates, slugs);
    }
    hide ChangesAfter, DirectChanges, IsPart, CoveredAfter, Covers, CoverStays, Batch, SourceHashes;
    forall f | Considered(run, state.sources, f)
      ensures (forall slugs :: IsPart(run, state, slugs) ==>
          (CoveredAfter(run, Batch(run, state.sources), candidates, slugs, f) <==> Covers(run, candidates, f)))
        <==> (run.disk[f] != "" ==> CoverStays(run, state, candidates, f))
    {
      CoverStaysIff(run, state, candidates, f);
    }
  }
}
