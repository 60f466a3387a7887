/**
 One compile run over the project: deletions, both extraction batches, merge, page
 writes, the new state. `Step` says what a run does to the state and the pages.
 */
module Pipeline {
  import opened Options
  import opened Sequences
  import opened WikiState
  import opened Deps
  import opened ExtractionPhase
  import opened Generation
  import opened ChangePlan
  import opened Orphan
  import opened Pending
  import opened Merge

  /** What a run reads and writes on disk. */
  datatype Wiki = Wiki(state: WikiState, pages: Pages, candidates: Candidates)

  /** How a run ends: the sources it extracted, in order, and the merged slugs. */
  datatype Outcome = NothingToCompile | Aborted | Interrupted | Compiled(extracted: seq<File>, merged: seq<Slug>)

  // ----- The second batch -----

  /** A first-batch source yields a slug its recorded list does not have. */
  predicate Gains(run: Run, sources: Sources, f: File, slug: Slug) {
    Extract(run, f).Some? && slug in SlugsOf(Extract(run, f).value) && slug !in Recorded(sources, f)
  }

  /** The owners of gained slugs that are neither in the first batch nor deleted. */
  ghost function LateBatch(run: Run, sources: Sources): set<File> {
    set g | g in sources && g !in FirstBatch(run, sources) && g !in Deletions(run, sources) &&
      exists f, s :: f in FirstBatch(run, sources) && Gains(run, sources, f, s) && Owns(sources, g, s)
  }

  ghost function Batch(run: Run, sources: Sources): set<File> {
    FirstBatch(run, sources) + LateBatch(run, sources)
  }

  predicate AllExtracted(run: Run, files: set<File>) {
    forall f :: f in files ==> Extract(run, f).Some?
  }

  ghost predicate NoWork(run: Run, sources: Sources) {
    FirstBatch(run, sources) == {} && Deletions(run, sources) == {}
  }

  // ----- The frozen concepts of a run -----

  /** The extraction of `f` succeeded without concepts. */
  predicate Empty(run: Run, f: File) {
    Extract(run, f) == Some([])
  }

  /** What the failed sources of the batch had recorded. */
  ghost function FrozenByEmpty(run: Run, sources: Sources, batch: set<File>): set<Slug> {
    set f, s | f in batch && Empty(run, f) && s in Recorded(sources, f) :: s
  }

  /** The slugs a run does not regenerate. */
  ghost function Frozen(run: Run, state: WikiState): set<Slug> {
    if run.review
    then state.frozenSlugs + set f, s | f in Deletions(run, state.sources) && s in SharedConcepts(state.sources, f) :: s
    else state.frozenSlugs + FrozenByEmpty(run, state.sources, Batch(run, state.sources))
  }

  // ----- The pages and the state after a run -----

  /** The slugs some batch source yields and the run may regenerate. */
  ghost predicate Merges(run: Run, batch: set<File>, frozen: set<Slug>, slug: Slug) {
    slug !in frozen && exists f :: f in batch && Yields(run, f, slug)
  }

  /** The slugs whose page the run writes. */
  ghost predicate Publishes(run: Run, batch: set<File>, frozen: set<Slug>, slug: Slug) {
    Merges(run, batch, frozen, slug) && run.generate(slug) == Written
  }

  ghost function Entry(run: Run, sources: Sources, frozen: set<Slug>, f: File): SourceState
    requires Extract(run, f).Some?
  {
    if Empty(run, f) then SourceState("", Recorded(sources, f))
    else SourceState(run.disk[f], LiveSlugs(run, frozen, SlugsOf(Extract(run, f).value)))
  }

  /** The slugs of a source that the run wrote. */
  function LiveSlugs(run: Run, frozen: set<Slug>, slugs: seq<Slug>): seq<Slug> {
    Keep(slugs, s => s !in frozen && run.generate(s) == Written)
  }

  /** The deleted sources are gone, the batch has new entries, the rest is unchanged. */
  ghost function NextSources(run: Run, state: WikiState): Sources
    requires AllExtracted(run, Batch(run, state.sources))
  {
    map f | f in (state.sources.Keys - Deletions(run, state.sources)) + Batch(run, state.sources) ::
      if f in Batch(run, state.sources) then Entry(run, state.sources, Frozen(run, state), f) else state.sources[f]
  }

  ghost function NextState(run: Run, state: WikiState): WikiState
    requires AllExtracted(run, Batch(run, state.sources))
  {
    WikiState(NextSources(run, state), Frozen(run, state))
  }

  /** The page of `s` after writing the merged concepts and orphaning the frozen slugs left without owner. */
  ghost function NextPage(run: Run, state: WikiState, before: Pages, s: Slug): Page
    requires AllExtracted(run, Batch(run, state.sources))
    requires s in before || Publishes(run, Batch(run, state.sources), Frozen(run, state), s)
  {
    if Publishes(run, Batch(run, state.sources), Frozen(run, state), s) then Page(false)
    else if s in Unowned(NextSources(run, state), Frozen(run, state)) && IsSafeFilenameComponent(s) then Page(true)
    else before[s]
  }

  ghost predicate NextPages(run: Run, state: WikiState, before: Pages, after: Pages)
    requires AllExtracted(run, Batch(run, state.sources))
  {
    && (forall s :: s in after <==> s in before || Publishes(run, Batch(run, state.sources), Frozen(run, state), s))
    && (forall s :: s in after ==> after[s] == NextPage(run, state, before, s))
  }

  /** The pages a run that dies after its page writes leaves behind. */
  ghost predicate UnflushedPages(run: Run, state: WikiState, before: Pages, after: Pages)
    requires AllExtracted(run, Batch(run, state.sources))
  {
    if run.stop == BeforeFlush then NextPages(run, state, before, after)
    else
      && (forall s :: s in after <==> s in before || Publishes(run, Batch(run, state.sources), Frozen(run, state), s))
      && forall s :: s in after ==> after[s] == PublishedPage(run, state, before, s)
  }

  /** The page of `s` after writing the merged concepts. */
  ghost function PublishedPage(run: Run, state: WikiState, before: Pages, s: Slug): Page
    requires s in before || Publishes(run, Batch(run, state.sources), Frozen(run, state), s)
  {
    if Publishes(run, Batch(run, state.sources), Frozen(run, state), s) then Page(false) else before[s]
  }

  // ----- One run -----

  /** The deletions that a run gets to. */
  function Processed(run: Run, order: seq<File>): seq<File> {
    if run.stop.InDeletions? && run.stop.n < |order| then order[..run.stop.n] else order
  }

  ghost predicate Succeeds(run: Run, state: WikiState) {
    && AllExtracted(run, Batch(run, state.sources))
    && forall s :: Merges(run, Batch(run, state.sources), Frozen(run, state), s) ==> run.generate(s) != Throws
  }

  /** Each batch source is extracted once and each merged slug appears once. */
  ghost predicate Reports(run: Run, state: WikiState, outcome: Outcome) {
    && outcome.Compiled?
    && Distinct(outcome.extracted) && (forall f :: f in outcome.extracted <==> f in Batch(run, state.sources))
    && Distinct(outcome.merged)
    && (forall s :: s in outcome.merged <==> Merges(run, Batch(run, state.sources), Frozen(run, state), s))
  }

  /** The process dies before the generated pages are written. */
  ghost predicate DiesEarly(run: Run, state: WikiState) {
    run.stop.InDeletions? || (run.stop == InGeneration && AllExtracted(run, Batch(run, state.sources)))
  }

  /** The pages generated, in the order in which they touch the candidates: all of them, if nothing fails meanwhile. */
  ghost predicate IsGeneration(run: Run, state: WikiState, generated: seq<Slug>) {
    && Distinct(generated)
    && (forall s :: s in generated ==> Merges(run, Batch(run, state.sources), Frozen(run, state), s))
    && (Succeeds(run, state) && !DiesEarly(run, state) ==>
      forall s :: Merges(run, Batch(run, state.sources), Frozen(run, state), s) ==> s in generated)
  }

  /** What a run does to the pending candidates, once everything is extracted. */
  ghost predicate CandidatesStep(run: Run, state: WikiState, before: Candidates, after: Candidates) {
    if run.stop.InDeletions? || !AllExtracted(run, Batch(run, state.sources)) then after == before
    else exists generated: seq<Slug> ::
      IsGeneration(run, state, generated) && after == AfterPages(run, Batch(run, state.sources), before, generated)
  }

  /** One run over the wiki that it finds; it changes candidates in review mode too. */
  ghost predicate Step(before: Wiki, run: Run, outcome: Outcome, after: Wiki) {
    && run.pending == SourceHashes(before.candidates)
    && if NoWork(run, before.state.sources) then outcome == NothingToCompile && after == before
       else
         && CandidatesStep(run, before.state, before.candidates, after.candidates)
         && if run.review then
              && after.state == before.state && after.pages == before.pages
              && if DiesEarly(run, before.state) then outcome == Interrupted
                 else if Succeeds(run, before.state) then Reports(run, before.state, outcome)
                 else outcome == Aborted
            else exists order: seq<File>, pages: Pages ::
              LiveStep(before, run, outcome, after, order, pages)
  }

  /**
   What a run that writes does to the state and the pages: deletions first, in some order, then the batch if nothing
   failed, and last the state if the run did not die on the way.
   */
  ghost predicate LiveStep(before: Wiki, run: Run, outcome: Outcome, after: Wiki, order: seq<File>, pages: Pages) {
    && OrderingOf(order, Deletions(run, before.state.sources))
    && pages == Orphaned(before.pages, OrphanedBy(before.state.sources, Processed(run, order)))
    && if DiesEarly(run, before.state) then outcome == Interrupted && after.state == before.state && after.pages == pages
       else if !Succeeds(run, before.state) then outcome == Aborted && after.state == before.state && after.pages == pages
       else if run.stop != Never then
         && outcome == Interrupted
         && after.state == before.state
         && UnflushedPages(run, before.state, pages, after.pages)
       else
         && Reports(run, before.state, outcome)
         && after.state == NextState(run, before.state)
         && NextPages(run, before.state, pages, after.pages)
  }

  lemma SuccessExtracts(run: Run, state: WikiState)
    ensures Succeeds(run, state) ==> AllExtracted(run, Batch(run, state.sources))
  {
    hide Batch, Frozen;
  }

  // ----- Extraction -----

  /** Whether owners of deleted sources still count makes no difference to the second batch. */
  lemma LateFiles(run: Run, state: WikiState, current: WikiState, files: seq<File>)
    requires forall f :: f in files <==> f in FirstBatch(run, state.sources)
    requires AllExtract(run, files)
    requires current.sources == state.sources || current.sources == state.sources - Deletions(run, state.sources)
    ensures LateAffectedBy(current, Results(run, files), FirstBatch(run, state.sources), Deletions(run, state.sources))
      == LateBatch(run, state.sources)
  {
    FirstBatchSurvives(run, state.sources);
    hide FirstBatch, Deletions;
    forall s
      ensures Fresh(current, Results(run, files), s) <==>
        exists f :: f in FirstBatch(run, state.sources) && Gains(run, state.sources, f, s)
    {
      FreshlyGained(run, state, current, files, s);
    }
    forall g
      ensures g in LateAffectedBy(current, Results(run, files), FirstBatch(run, state.sources), Deletions(run, state.sources))
        <==> g in LateBatch(run, state.sources)
    {
      LateFile(run, state, current, Results(run, files), g);
    }
  }

  lemma LateFile(run: Run, state: WikiState, current: WikiState, results: seq<ExtractionResult>, g: File)
    requires current.sources == state.sources || current.sources == state.sources - Deletions(run, state.sources)
    requires forall s :: Fresh(current, results, s) <==>
      exists f :: f in FirstBatch(run, state.sources) && Gains(run, state.sources, f, s)
    ensures g in LateAffectedBy(current, results, FirstBatch(run, state.sources), Deletions(run, state.sources))
      <==> g in LateBatch(run, state.sources)
  {
    hide FirstBatch, Deletions, Fresh, Gains;
    var sources := state.sources;
    if g !in Deletions(run, sources) {
      assert forall s :: Owns(current.sources, g, s) <==> Owns(sources, g, s);
      if f, s :| f in FirstBatch(run, sources) && Gains(run, sources, f, s) && Owns(sources, g, s) {
        assert Fresh(current, results, s) && Owns(current.sources, g, s);
      }
      if s :| Fresh(current, results, s) && Owns(current.sources, g, s) {
        var f :| f in FirstBatch(run, sources) && Gains(run, sources, f, s);
        assert Owns(sources, g, s);
      }
    }
  }

  lemma FirstBatchSurvives(run: Run, sources: Sources)
    ensures FirstBatch(run, sources) !! Deletions(run, sources)
  {}

  lemma FreshlyGained(run: Run, state: WikiState, current: WikiState, files: seq<File>, s: Slug)
    requires forall f :: f in files <==> f in FirstBatch(run, state.sources)
    requires AllExtract(run, files)
    requires forall f :: f in files ==> Recorded(current.sources, f) == Recorded(state.sources, f)
    ensures Fresh(current, Results(run, files), s) <==>
      exists f :: f in FirstBatch(run, state.sources) && Gains(run, state.sources, f, s)
  {
    hide FirstBatch, Extract;
    var results := Results(run, files);
    if Fresh(current, results, s) {
      var r :| r in results && s in SlugsOf(r.concepts) && s !in Recorded(current.sources, r.sourceFile);
      var i :| 0 <= i < |results| && results[i] == r;
      assert files[i] in files && Gains(run, state.sources, files[i], s);
    }
    if f :| f in FirstBatch(run, state.sources) && Gains(run, state.sources, f, s) {
      var i :| 0 <= i < |files| && files[i] == f;
      assert results[i] in results;
    }
  }

  // ----- What the merge lists -----

  lemma {:induction false} ToConcat(a: seq<Contribution>, b: seq<Contribution>, s: Slug)
    ensures To(a + b, s) == To(a, s) + To(b, s)
    decreases |b|
  {
    if b == [] {
      assert a + b == a;
    } else {
      ToConcat(a, b[..|b| - 1], s);
      assert (a + b)[..|a + b| - 1] == a + b[..|b| - 1];
    }
  }

  lemma {:induction false} ToIn(file: File, concepts: seq<ExtractedConcept>, s: Slug)
    ensures forall c :: c in To(ContributionsIn(file, concepts), s) ==> c.file == file
    ensures To(ContributionsIn(file, concepts), s) != [] <==> s in SlugsOf(concepts)
  {
    if concepts != [] {
      var init, last := concepts[..|concepts| - 1], concepts[|concepts| - 1];
      ToIn(file, init, s);
      var before, c := ContributionsIn(file, init), Contribution(file, last);
      assert ContributionsIn(file, concepts) == before + [c];
      ToStep(before, c);
      LastSlug(init, last, s);
      assert concepts == init + [last];
      hide To, ContributionsIn, SlugsOf;
    }
  }

  lemma LastSlug(init: seq<ExtractedConcept>, last: ExtractedConcept, s: Slug)
    ensures s in SlugsOf(init + [last]) <==> s in SlugsOf(init) || s == last.slug
  {
    assert SlugsOf(init + [last]) == SlugsOf(init) + [last.slug];
  }

  ghost predicate ExtractedFrom(extractions: seq<ExtractionResult>, s: Slug, f: File) {
    exists r :: r in extractions && r.sourceFile == f && s in SlugsOf(r.concepts)
  }

  lemma ExtractedFromStep(init: seq<ExtractionResult>, last: ExtractionResult, s: Slug, f: File)
    ensures ExtractedFrom(init + [last], s, f) <==>
      ExtractedFrom(init, s, f) || (last.sourceFile == f && s in SlugsOf(last.concepts))
  {
    assert last in init + [last];
    if ExtractedFrom(init, s, f) {
      var r :| r in init && r.sourceFile == f && s in SlugsOf(r.concepts);
      assert r in init + [last];
    }
  }

  lemma FilesOfIn(file: File, concepts: seq<ExtractedConcept>, s: Slug, f: File)
    ensures f in Files(To(ContributionsIn(file, concepts), s)) <==> file == f && s in SlugsOf(concepts)
  {
    hide ContributionsIn;
    ToIn(file, concepts, s);
    var cs := To(ContributionsIn(file, concepts), s);
    if cs != [] {
      assert cs[0] in cs && Files(cs)[0] == file;
    }
    if f in Files(cs) {
      var i :| 0 <= i < |cs| && Files(cs)[i] == f;
      assert cs[i] in cs;
    }
  }

  lemma FilesConcatenate(a: seq<Contribution>, b: seq<Contribution>)
    ensures Files(a + b) == Files(a) + Files(b)
  {}

  /** The files that contribute to a slug are those whose extraction yields it. */
  lemma {:induction false} ToFiles(extractions: seq<ExtractionResult>, s: Slug, f: File)
    ensures f in Files(To(Contributions(extractions), s)) <==> ExtractedFrom(extractions, s, f)
  {
    hide To, Files, ExtractedFrom, ContributionsIn, SlugsOf;
    if extractions == [] {
      assert Contributions(extractions) == [];
      ToNothing(s, f);
    } else {
      var init, last := extractions[..|extractions| - 1], extractions[|extractions| - 1];
      ToFiles(init, s, f);
      ToConcat(Contributions(init), ContributionsIn(last.sourceFile, last.concepts), s);
      FilesConcatenate(To(Contributions(init), s), To(ContributionsIn(last.sourceFile, last.concepts), s));
      FilesOfIn(last.sourceFile, last.concepts, s, f);
      ExtractedFromStep(init, last, s, f);
      assert extractions == init + [last];
    }
  }

  lemma ToNothing(s: Slug, f: File)
    ensures f !in Files(To([], s)) && !ExtractedFrom([], s, f)
  {}

  lemma YieldingFiles(run: Run, files: seq<File>, s: Slug, f: File)
    requires AllExtract(run, files)
    ensures f in Files(To(Contributions(Results(run, files)), s)) <==> f in files && Yields(run, f, s)
  {
    hide Extract;
    var results := Results(run, files);
    ToFiles(results, s, f);
    if f in files {
      var i :| 0 <= i < |files| && files[i] == f;
      assert results[i] in results;
    }
  }

  /** The entry of a merged slug names the sources that yield it. */
  ghost predicate MergedFrom(run: Run, files: seq<File>, m: MergedConcept) {
    forall f :: f in m.sourceFiles <==> f in files && Yields(run, f, m.slug)
  }

  function Slugs(merged: seq<MergedConcept>): (slugs: seq<Slug>)
    ensures |slugs| == |merged|
  {
    seq(|merged|, i requires 0 <= i < |merged| => merged[i].slug)
  }

  /** The merged concepts of a batch: each slug that may be regenerated once, with the sources that yield it. */
  ghost predicate MergesBatch(run: Run, files: seq<File>, frozen: set<Slug>, merged: seq<MergedConcept>) {
    && Distinct(Slugs(merged))
    && (forall s :: s in Slugs(merged) <==> Merges(run, AsSet(files), frozen, s))
    && (forall m :: m in merged ==> MergedFrom(run, files, m))
  }

  lemma MergeListsBatch(run: Run, files: seq<File>, frozen: set<Slug>, merged: seq<MergedConcept>)
    requires AllExtract(run, files)
    requires var cs := Contributions(Results(run, files));
      && |merged| == |SlugOrder(cs, frozen)| && Distinct(SlugOrder(cs, frozen))
      && (forall s :: s in SlugOrder(cs, frozen) <==> s !in frozen && To(cs, s) != [])
      && forall i :: 0 <= i < |merged| ==>
        var s := SlugOrder(cs, frozen)[i];
        To(cs, s) != [] && merged[i] == MergedConcept(s, Fold(To(cs, s)), Files(To(cs, s)))
    ensures MergesBatch(run, files, frozen, merged)
  {
    hide Extract, Fold, Contributions, SlugOrder, To;
    var cs := Contributions(Results(run, files));
    assert Slugs(merged) == SlugOrder(cs, frozen);
    forall s, f
      ensures f in Files(To(cs, s)) <==> f in files && Yields(run, f, s)
    {
      YieldingFiles(run, files, s, f);
    }
    forall s
      ensures To(cs, s) != [] <==> exists f :: f in AsSet(files) && Yields(run, f, s)
    {
      if To(cs, s) != [] {
        assert Files(To(cs, s))[0] in Files(To(cs, s));
        assert Files(To(cs, s))[0] in AsSet(files);
      }
      if f :| f in files && Yields(run, f, s) {
        assert f in Files(To(cs, s));
      }
    }
  }

  method MergeBatch(run: Run, extractions: seq<ExtractionResult>, frozen: set<Slug>, ghost files: seq<File>)
    returns (merged: seq<MergedConcept>)
    requires AllExtract(run, files) && extractions == Results(run, files)
    ensures MergesBatch(run, files, frozen, merged)
  {
    hide MergesBatch, AllExtract, Results, SlugOrder, To, Fold, Contributions;
    merged := MergeExtractions(extractions, frozen);
    MergeListsBatch(run, files, frozen, merged);
  }

  /** The digest of every source with concepts, for the candidates made from it. */
  method BuildExtractionSourceStates(run: Run, extractions: seq<ExtractionResult>, ghost files: seq<File>)
    returns (hashes: map<File, Hash>)
    requires AllExtract(run, files) && extractions == Results(run, files)
    ensures hashes == map f | f in run.disk && f in files && !Empty(run, f) :: run.disk[f]
  {
    hashes := map[];
    for i := 0 to |extractions|
      invariant hashes == map f | f in run.disk && f in files[..i] && !Empty(run, f) :: run.disk[f]
    {
      var result := extractions[i];
      assert files[..i + 1] == files[..i] + [files[i]];
      if result.concepts != [] {
        hashes := hashes[result.sourceFile := run.disk[result.sourceFile]];
      }
    }
    assert files[..|files|] == files;
  }

  function PickStatesForSources(hashes: map<File, Hash>, sourceFiles: seq<File>): map<File, Hash> {
    map f | f in hashes && f in sourceFiles :: hashes[f]
  }

  lemma PickedStates(run: Run, files: seq<File>, hashes: map<File, Hash>, m: MergedConcept)
    requires AllExtract(run, files) && MergedFrom(run, files, m)
    requires hashes == map f | f in run.disk && f in files && !Empty(run, f) :: run.disk[f]
    ensures Candidate(ConceptPage(m.slug), PickStatesForSources(hashes, m.sourceFiles)) ==
      CandidateFor(run, AsSet(files), m.slug)
  {
    var picked, held := PickStatesForSources(hashes, m.sourceFiles), CandidateFor(run, AsSet(files), m.slug).hashes;
    forall f
      ensures f in picked <==> f in held
    {
      assert f in m.sourceFiles <==> f in files && Yields(run, f, m.slug);
      assert Yields(run, f, m.slug) ==> f in run.disk && !Empty(run, f);
    }
  }

  /** One page: a held one becomes a candidate, a live one deletes those there were for its concept. */
  method GenerateMergedPage(store: WikiStore, run: Run, m: MergedConcept, hashes: map<File, Hash>, ghost files: seq<File>)
    returns (outcome: PageOutcome)
    requires AllExtract(run, files) && MergedFrom(run, files, m)
    requires hashes == map f | f in run.disk && f in files && !Empty(run, f) :: run.disk[f]
    modifies store`candidates
    ensures outcome == GeneratedAs(run, m.slug)
    ensures store.candidates == AfterPage(run, AsSet(files), old(store.candidates), m.slug)
  {
    hide MergedFrom, AllExtract, Without, CandidateFor;
    PickedStates(run, files, hashes, m);
    outcome := GeneratedAs(run, m.slug);
    match outcome
    case Throws =>
    case Invalid =>
    case Held => store.WriteCandidate(m.slug, PickStatesForSources(hashes, m.sourceFiles));
    case Skipped => store.DeleteCandidateBySlug(m.slug);
    case Written => store.DeleteCandidateBySlug(m.slug);
  }

  ghost predicate NoneThrows(run: Run, merged: seq<MergedConcept>) {
    forall m :: m in merged ==> run.generate(m.slug) != Throws
  }

  /** The pages generated as live ones. */
  ghost predicate AreWritten(run: Run, merged: seq<MergedConcept>, written: seq<MergedConcept>) {
    forall m :: m in written <==> m in merged && GeneratedAs(run, m.slug) == Written
  }

  lemma OneMorePage(run: Run, merged: seq<MergedConcept>, i: nat, written: seq<MergedConcept>)
    requires i < |merged|
    ensures NoneThrows(run, merged[..i + 1]) <==> NoneThrows(run, merged[..i]) && GeneratedAs(run, merged[i].slug) != Throws
    ensures AreWritten(run, merged[..i], written) ==>
      AreWritten(run, merged[..i + 1], if GeneratedAs(run, merged[i].slug) == Written then written + [merged[i]] else written)
  {
    assert merged[..i + 1] == merged[..i] + [merged[i]];
  }

  /**
   Merge the extractions and generate every page; a page that throws fails the run. `drains` says which pages still run
   to their end after that, or at all if the process dies meanwhile.
   */
  method GeneratePages(store: WikiStore, run: Run, extractions: seq<ExtractionResult>, frozen: set<Slug>,
                       drains: Slug -> bool, ghost files: seq<File>)
    returns (ok: bool, merged: seq<MergedConcept>, written: seq<MergedConcept>, ghost generated: seq<Slug>)
    requires AllExtract(run, files) && extractions == Results(run, files)
    modifies store`candidates
    ensures MergesBatch(run, files, frozen, merged)
    ensures run.stop != InGeneration ==> (ok <==> NoneThrows(run, merged))
    ensures run.stop != InGeneration && ok ==> AreWritten(run, merged, written)
    ensures store.candidates == AfterPages(run, AsSet(files), old(store.candidates), generated)
    ensures Distinct(generated) && forall s :: s in generated ==> s in Slugs(merged)
    ensures run.stop != InGeneration && ok ==> generated == Slugs(merged)
  {
    hide MergesBatch, AllExtract, Results, MergedFrom, AfterPage, AfterPages, NoneThrows, AreWritten, Empty, Distinct, AsSet;
    merged := MergeBatch(run, extractions, frozen, files);
    MergedEntries(run, files, frozen, merged);
    var hashes := BuildExtractionSourceStates(run, extractions, files);
    ok, written, generated := true, [], [];
    NoPages(run, AsSet(files), store.candidates);
    NothingGenerated(run);
    for i := 0 to |merged|
      invariant run.stop != InGeneration ==> (ok <==> NoneThrows(run, merged[..i]))
      invariant run.stop != InGeneration && ok ==> AreWritten(run, merged[..i], written)
      invariant store.candidates == AfterPages(run, AsSet(files), old(store.candidates), generated)
      invariant Distinct(generated) && forall s :: s in generated ==> s in Slugs(merged)[..i]
      invariant run.stop != InGeneration && ok ==> generated == Slugs(merged)[..i]
    {
      OneMorePage(run, merged, i, written);
      assert Slugs(merged)[..i + 1] == Slugs(merged)[..i] + [merged[i].slug];
      if (ok && run.stop != InGeneration) || drains(merged[i].slug) {
        AfterOneMore(run, AsSet(files), old(store.candidates), generated, merged[i].slug);
        NotYetGenerated(Slugs(merged), i, generated);
        var outcome := GenerateMergedPage(store, run, merged[i], hashes, files);
        generated := generated + [merged[i].slug];
        match outcome
        case Throws => ok := false;
        case Invalid =>
        case Held =>
        case Skipped =>
        case Written => written := written + [merged[i]];
      }
    }
    assert merged[..|merged|] == merged && Slugs(merged)[..|merged|] == Slugs(merged);
  }

  lemma NothingGenerated(run: Run)
    ensures NoneThrows(run, []) && AreWritten(run, [], []) && Distinct<Slug>([])
  {}

  lemma NotYetGenerated(slugs: seq<Slug>, i: nat, generated: seq<Slug>)
    requires Distinct(slugs) && i < |slugs|
    requires Distinct(generated) && forall s :: s in generated ==> s in slugs[..i]
    ensures Distinct(generated + [slugs[i]])
  {
    assert slugs[i] !in slugs[..i];
  }

  lemma MergedEntries(run: Run, files: seq<File>, frozen: set<Slug>, merged: seq<MergedConcept>)
    requires MergesBatch(run, files, frozen, merged)
    ensures Distinct(Slugs(merged)) && forall m :: m in merged ==> MergedFrom(run, files, m)
  {}

  // ----- Recording the compiled sources -----

  type LiveSlugsBySource = map<File, seq<Slug>>

  function LiveSlugsOf(live: LiveSlugsBySource, f: File): seq<Slug> {
    if f in live then live[f] else []
  }

  ghost predicate WroteFrom(written: seq<MergedConcept>, f: File, s: Slug) {
    exists m :: m in written && m.slug == s && f in m.sourceFiles
  }

  method BuildLiveSlugsForSource(written: seq<MergedConcept>) returns (live: LiveSlugsBySource)
    ensures forall f, s :: s in LiveSlugsOf(live, f) <==> WroteFrom(written, f, s)
  {
    live := map[];
    for i := 0 to |written|
      invariant forall f, s :: s in LiveSlugsOf(live, f) <==> WroteFrom(written[..i], f, s)
    {
      var page := written[i];
      ghost var before := live;
      for k := 0 to |page.sourceFiles|
        invariant forall f, s :: s in LiveSlugsOf(live, f) <==>
          (s in LiveSlugsOf(before, f) || (s == page.slug && f in page.sourceFiles[..k]))
      {
        var sourceFile := page.sourceFiles[k];
        live := live[sourceFile := LiveSlugsOf(live, sourceFile) + [page.slug]];
      }
      assert page.sourceFiles[..|page.sourceFiles|] == page.sourceFiles;
      assert written[..i + 1] == written[..i] + [page];
      WroteFromStep(written[..i], page);
    }
    assert written[..|written|] == written;
  }

  lemma WroteFromStep(written: seq<MergedConcept>, page: MergedConcept)
    ensures forall f, s :: WroteFrom(written + [page], f, s) <==>
      WroteFrom(written, f, s) || (s == page.slug && f in page.sourceFiles)
  {
    forall f, s
      ensures WroteFrom(written + [page], f, s) <==> WroteFrom(written, f, s) || (s == page.slug && f in page.sourceFiles)
    {
      assert page in written + [page];
      if WroteFrom(written, f, s) {
        var m :| m in written && m.slug == s && f in m.sourceFiles;
        assert m in written + [page];
      }
    }
  }

  /** A batch source that yields concepts gets a new entry with what was written of it. */
  ghost function Persisted(run: Run, sources: Sources, frozen: set<Slug>, files: set<File>): Sources
    requires AllExtracted(run, files)
  {
    map f | f in sources.Keys + (set g | g in files && !Empty(run, g)) ::
      if f in files && !Empty(run, f) then Entry(run, sources, frozen, f) else sources[f]
  }

  method PersistExtractionStates(draft: CompileStateDraft, run: Run, extractions: seq<ExtractionResult>,
                                 written: seq<MergedConcept>, ghost files: seq<File>, ghost frozen: set<Slug>)
    requires AllExtract(run, files) && extractions == Results(run, files)
    requires forall f, s :: f in files && Yields(run, f, s) ==>
      (WroteFrom(written, f, s) <==> s !in frozen && run.generate(s) == Written)
    modifies draft
    ensures AllExtracted(run, AsSet(files))
    ensures draft.state == old(draft.state).(sources := Persisted(run, old(draft.state.sources), frozen, AsSet(files)))
  {
    var live := BuildLiveSlugsForSource(written);
    assert AllExtracted(run, AsSet(files));
    ghost var sources := draft.state.sources;
    assert Persisted(run, sources, frozen, AsSet(files[..0])) == sources;
    for i := 0 to |extractions|
      invariant AllExtracted(run, AsSet(files[..i]))
      invariant draft.state == old(draft.state).(sources := Persisted(run, sources, frozen, AsSet(files[..i])))
    {
      var result := extractions[i];
      assert files[i] in files;
      assert AsSet(files[..i + 1]) == AsSet(files[..i]) + {files[i]};
      PersistedStep(run, sources, frozen, AsSet(files[..i]), files[i]);
      if result.concepts != [] {
        var concepts := Keep(SlugsOf(result.concepts), s => s in LiveSlugsOf(live, result.sourceFile));
        LiveConcepts(run, frozen, SlugsOf(result.concepts), LiveSlugsOf(live, files[i]));
        draft.SetSource(result.sourceFile, SourceState(run.disk[result.sourceFile], concepts));
      }
    }
    assert files[..|files|] == files;
  }

  lemma PersistedStep(run: Run, sources: Sources, frozen: set<Slug>, files: set<File>, f: File)
    requires AllExtracted(run, files) && Extract(run, f).Some?
    ensures Persisted(run, sources, frozen, files + {f}) ==
      if Empty(run, f) then Persisted(run, sources, frozen, files)
      else Persisted(run, sources, frozen, files)[f := Entry(run, sources, frozen, f)]
  {
    hide Entry;
  }

  lemma {:induction false} LiveConcepts(run: Run, frozen: set<Slug>, slugs: seq<Slug>, live: seq<Slug>)
    requires forall s :: s in slugs ==> (s in live <==> s !in frozen && run.generate(s) == Written)
    ensures Keep(slugs, s => s in live) == LiveSlugs(run, frozen, slugs)
  {
    KeepAgrees(slugs, s => s in live, s => s !in frozen && run.generate(s) == Written);
  }

  // ----- The batch of a run -----

  /** The sources of the batch, each once. */
  ghost predicate BatchFiles(run: Run, sources: Sources, files: seq<File>) {
    Distinct(files) && AsSet(files) == Batch(run, sources)
  }

  lemma FirstFiles(run: Run, sources: Sources, changes: seq<SourceChange>)
    requires IsPlan(run, sources, changes)
    ensures Distinct(ChangedFiles(Keep(changes, Compiles)))
    ensures forall f :: f in ChangedFiles(Keep(changes, Compiles)) <==> f in FirstBatch(run, sources)
  {
    hide FirstBatch, Deletions, Keep;
    var toCompile := Keep(changes, Compiles);
    KeepMembers(changes, Compiles);
    forall f
      ensures f in ChangedFiles(toCompile) <==> f in FilesWith(changes, {New, Changed})
    {
      if f in ChangedFiles(toCompile) {
        var i :| 0 <= i < |toCompile| && ChangedFiles(toCompile)[i] == f;
        assert toCompile[i] in toCompile;
      }
      if f in FilesWith(changes, {New, Changed}) {
        var c :| c in changes && c.status in {New, Changed} && c.file == f;
        var i :| 0 <= i < |toCompile| && toCompile[i] == c;
        assert ChangedFiles(toCompile)[i] == f;
      }
    }
  }

  lemma DeletedFiles(run: Run, sources: Sources, changes: seq<SourceChange>)
    requires IsPlan(run, sources, changes)
    ensures OrderingOf(ChangedFiles(Keep(changes, IsDeletion)), Deletions(run, sources))
  {
    hide FirstBatch, Deletions, Keep;
    var deleted := Keep(changes, IsDeletion);
    KeepMembers(changes, IsDeletion);
    forall f
      ensures f in ChangedFiles(deleted) <==> f in FilesWith(changes, {Deleted})
    {
      if f in ChangedFiles(deleted) {
        var i :| 0 <= i < |deleted| && ChangedFiles(deleted)[i] == f;
        assert deleted[i] in deleted;
      }
      if f in FilesWith(changes, {Deleted}) {
        var c :| c in changes && c.status in {Deleted} && c.file == f;
        var i :| 0 <= i < |deleted| && deleted[i] == c;
        assert ChangedFiles(deleted)[i] == f;
      }
    }
  }

  predicate IsDeletion(c: SourceChange) {
    c.status == Deleted
  }

  /** In a run that writes, the deleted sources have left the draft before anything is extracted. */
  ghost predicate AfterDeletions(run: Run, state: WikiState, current: WikiState) {
    current == if run.review then state else state.(sources := state.sources - Deletions(run, state.sources))
  }

  lemma ResultsConcat(run: Run, a: seq<File>, b: seq<File>)
    requires AllExtract(run, a) && AllExtract(run, b)
    ensures AllExtract(run, a + b) && Results(run, a + b) == Results(run, a) + Results(run, b)
  {}

  lemma BothBatches(run: Run, sources: Sources, first: seq<File>, late: seq<File>)
    requires Distinct(first) && forall f :: f in first <==> f in FirstBatch(run, sources)
    requires Distinct(late) && AsSet(late) == LateBatch(run, sources)
    ensures BatchFiles(run, sources, first + late)
    ensures AllExtract(run, first) && AllExtract(run, late) <==> AllExtracted(run, Batch(run, sources))
  {
    hide FirstBatch, Extract;
    assert AsSet(first) == FirstBatch(run, sources);
    assert AsSet(first + late) == AsSet(first) + AsSet(late);
    assert forall i :: 0 <= i < |late| ==> late[i] in AsSet(late);
    assert forall i :: 0 <= i < |first| ==> first[i] in AsSet(first);
    assert forall i :: 0 <= i < |late| ==> late[i] !in first;
  }

  method ExtractBatch(run: Run, toCompile: seq<SourceChange>, current: WikiState, changes: seq<SourceChange>,
                      ghost state: WikiState)
    returns (r: Option<seq<ExtractionResult>>, ghost files: seq<File>)
    requires IsPlan(run, state.sources, changes) && toCompile == Keep(changes, Compiles)
    requires AfterDeletions(run, state, current)
    ensures r.Some? <==> AllExtracted(run, Batch(run, state.sources))
    ensures r.Some? ==> BatchFiles(run, state.sources, files) && AllExtract(run, files) && r.value == Results(run, files)
  {
    hide FirstBatch, Deletions, Keep, AllExtract, AllExtracted, LateAffectedBy, LateBatch, BatchFiles;
    FirstFiles(run, state.sources, changes);
    ghost var first := ChangedFiles(toCompile);
    r := RunExtractionPhases(run, toCompile, current, changes);
    files := [];
    if AllExtract(run, first) {
      ghost var late :| IsLateBatch(run, toCompile, current, changes, late) &&
        r == if AllExtract(run, late) then Some(Results(run, first) + Results(run, late)) else None;
      files := first + late;
      LateFiles(run, state, current, first);
      BothBatches(run, state.sources, first, late);
      if r.Some? {
        ResultsConcat(run, first, late);
      }
    } else {
      FirstFails(run, state.sources, first);
    }
  }

  lemma FirstFails(run: Run, sources: Sources, first: seq<File>)
    requires forall f :: f in first <==> f in FirstBatch(run, sources)
    requires !AllExtract(run, first)
    ensures !AllExtracted(run, Batch(run, sources))
  {
    hide FirstBatch, Extract;
    var i :| 0 <= i < |first| && Extract(run, first[i]).None?;
    assert first[i] in Batch(run, sources);
  }

  // ----- The frozen concepts -----

  lemma FrozenBeforeExtraction(run: Run, state: WikiState, current: WikiState, changes: seq<SourceChange>,
                               frozen: set<Slug>)
    requires IsPlan(run, state.sources, changes) && AfterDeletions(run, state, current)
    requires forall s :: s in frozen <==> s in current.frozenSlugs || FrozenByDeletion(current, changes, s)
    ensures frozen == if run.review then Frozen(run, state) else state.frozenSlugs
  {
    hide FirstBatch, Deletions, Batch, SharedConcepts;
    if !run.review {
      forall s
        ensures !FrozenByDeletion(current, changes, s)
      {
        DeletedShareNothing(state.sources, Deletions(run, state.sources));
      }
    }
  }

  lemma DeletedShareNothing(sources: Sources, deleted: set<File>)
    ensures forall f :: f in deleted ==> SharedConcepts(sources - deleted, f) == {}
  {}

  lemma FailedIffEmpty(run: Run, files: seq<File>, f: File)
    requires AllExtract(run, files)
    ensures Failed(Results(run, files), f) <==> f in AsSet(files) && Empty(run, f)
  {
    hide Extract;
    var results := Results(run, files);
    if f in files {
      var i :| 0 <= i < |files| && files[i] == f;
      assert results[i] in results;
    }
  }

  lemma FrozenAfterExtraction(run: Run, state: WikiState, sources: Sources, files: seq<File>, frozen: set<Slug>)
    requires !run.review && sources == state.sources - Deletions(run, state.sources)
    requires AllExtract(run, files) && BatchFiles(run, state.sources, files)
    requires forall s :: s in frozen <==> s in state.frozenSlugs || FrozenByFailure(sources, Results(run, files), s)
    ensures frozen == Frozen(run, state)
  {
    BatchSurvives(run, state.sources);
    hide Deletions, Batch, Failed, Results, AllExtract, Empty;
    forall f
      ensures Failed(Results(run, files), f) <==> f in Batch(run, state.sources) && Empty(run, f)
    {
      FailedIffEmpty(run, files, f);
    }
    forall s
      ensures FrozenByFailure(sources, Results(run, files), s) <==>
        s in FrozenByEmpty(run, state.sources, Batch(run, state.sources))
    {
      assert forall f :: f in Batch(run, state.sources) ==> Recorded(sources, f) == Recorded(state.sources, f);
    }
  }

  lemma BatchSurvives(run: Run, sources: Sources)
    ensures Batch(run, sources) !! Deletions(run, sources)
  {
    FirstBatchSurvives(run, sources);
    hide FirstBatch, Deletions;
  }

  // ----- The new state -----

  lemma NextSourcesReached(run: Run, state: WikiState, files: seq<File>)
    requires AllExtract(run, files) && BatchFiles(run, state.sources, files)
    ensures AllExtracted(run, Batch(run, state.sources))
    ensures Persisted(run, WithRetries(state.sources - Deletions(run, state.sources), Results(run, files)),
                      Frozen(run, state), AsSet(files)) == NextSources(run, state)
  {
    var survivors := state.sources - Deletions(run, state.sources);
    BatchSurvives(run, state.sources);
    hide Deletions, Batch, Frozen, LiveSlugs;
    assert AllExtracted(run, Batch(run, state.sources)) by {
      assert forall i :: 0 <= i < |files| ==> files[i] in AsSet(files);
    }
    hide Extract;
    forall f
      ensures f in WithRetries(survivors, Results(run, files)) <==>
        f in survivors || (f in AsSet(files) && Empty(run, f))
      ensures f in AsSet(files) && Empty(run, f) ==>
        WithRetries(survivors, Results(run, files))[f] == SourceState("", Recorded(state.sources, f))
      ensures f in survivors && !(f in AsSet(files) && Empty(run, f)) ==>
        WithRetries(survivors, Results(run, files))[f] == survivors[f]
    {
      FailedIffEmpty(run, files, f);
      assert f in AsSet(files) ==> Recorded(survivors, f) == Recorded(state.sources, f);
    }
    hide WithRetries, Results, AllExtract;
  }

  /** What a compiled source records is never frozen, so no frozen slug has only compiled owners. */
  lemma FrozenNeverThaws(run: Run, state: WikiState, files: seq<File>, s: Slug)
    requires AllExtract(run, files) && BatchFiles(run, state.sources, files)
    requires AllExtracted(run, Batch(run, state.sources)) && s in Frozen(run, state)
    ensures !Thaws(NextSources(run, state), Results(run, files), s)
  {
    if Thaws(NextSources(run, state), Results(run, files), s) {
      hide Batch, Deletions, Frozen;
      var f :| Owns(NextSources(run, state), f, s);
      var r :| r in Results(run, files) && r.sourceFile == f && r.concepts != [];
      var i :| 0 <= i < |files| && Results(run, files)[i] == r;
      assert f in AsSet(files);
      LiveSlugsNotFrozen(run, Frozen(run, state), SlugsOf(Extract(run, f).value), s);
      assert false;
    }
  }

  lemma {:induction false} LiveSlugsNotFrozen(run: Run, frozen: set<Slug>, slugs: seq<Slug>, s: Slug)
    ensures s in LiveSlugs(run, frozen, slugs) <==> s in slugs && s !in frozen && run.generate(s) == Written
  {
    KeepMembers(slugs, s => s !in frozen && run.generate(s) == Written);
  }

  // ----- The new pages -----

  function PageWrites(written: seq<MergedConcept>): map<Slug, Page> {
    map s | s in Slugs(written) :: Page(false)
  }

  lemma SlugOf(merged: seq<MergedConcept>, m: MergedConcept)
    requires m in merged
    ensures m.slug in Slugs(merged)
  {
    var i :| 0 <= i < |merged| && merged[i] == m;
    assert Slugs(merged)[i] == m.slug;
  }

  lemma WrittenSlugs(run: Run, merged: seq<MergedConcept>, written: seq<MergedConcept>, s: Slug)
    requires forall m :: m in written <==> m in merged && run.generate(m.slug) == Written
    ensures s in Slugs(written) <==> s in Slugs(merged) && run.generate(s) == Written
  {
    if s in Slugs(written) {
      var i :| 0 <= i < |written| && Slugs(written)[i] == s;
      assert written[i] in written;
      SlugOf(merged, written[i]);
    }
    if s in Slugs(merged) && run.generate(s) == Written {
      var i :| 0 <= i < |merged| && Slugs(merged)[i] == s;
      assert merged[i] in merged;
      SlugOf(written, merged[i]);
    }
  }

  lemma WroteFromBatch(run: Run, files: seq<File>, frozen: set<Slug>, merged: seq<MergedConcept>,
                       written: seq<MergedConcept>, f: File, s: Slug)
    requires MergesBatch(run, files, frozen, merged) && f in files && Yields(run, f, s)
    requires forall m :: m in written <==> m in merged && run.generate(m.slug) == Written
    ensures WroteFrom(written, f, s) <==> s !in frozen && run.generate(s) == Written
  {
    hide Yields;
    if WroteFrom(written, f, s) {
      var m :| m in written && m.slug == s && f in m.sourceFiles;
      SlugOf(merged, m);
    }
    if s !in frozen && run.generate(s) == Written {
      assert f in AsSet(files);
      assert s in Slugs(merged);
      var i :| 0 <= i < |merged| && Slugs(merged)[i] == s;
      assert merged[i] in merged && MergedFrom(run, files, merged[i]);
      assert merged[i] in written;
    }
  }

  lemma NextPagesReached(run: Run, state: WikiState, before: Pages, written: seq<MergedConcept>)
    requires AllExtracted(run, Batch(run, state.sources))
    requires forall s :: s in Slugs(written) <==> Publishes(run, Batch(run, state.sources), Frozen(run, state), s)
    ensures NextPages(run, state, before,
      Orphaned(before + PageWrites(written), Unowned(NextSources(run, state), Frozen(run, state))))
  {
    hide Batch, Frozen, NextSources, Slugs, IsSafeFilenameComponent, Publishes, Unowned, AllExtracted;
    forall s
      ensures Publishes(run, Batch(run, state.sources), Frozen(run, state), s) ==>
        s !in Unowned(NextSources(run, state), Frozen(run, state))
    {
      PublishedNotFrozen(run, state, s);
    }
  }

  lemma PublishedNotFrozen(run: Run, state: WikiState, s: Slug)
    requires AllExtracted(run, Batch(run, state.sources))
    ensures Publishes(run, Batch(run, state.sources), Frozen(run, state), s) ==>
      s !in Unowned(NextSources(run, state), Frozen(run, state))
  {
    hide Batch, Frozen, NextSources, AllExtracted;
  }

  lemma PublishedPagesReached(run: Run, state: WikiState, before: Pages, written: seq<MergedConcept>)
    requires AllExtracted(run, Batch(run, state.sources)) && run.stop == BeforeOrphaning
    requires forall s :: s in Slugs(written) <==> Publishes(run, Batch(run, state.sources), Frozen(run, state), s)
    ensures UnflushedPages(run, state, before, before + PageWrites(written))
  {
    hide Batch, Frozen, Slugs, Publishes;
  }

  // ----- The whole run -----

  /** Write the pages, record the sources, orphan what nobody owns any more and flush the state, unless the run dies. */
  method Commit(store: WikiStore, run: Run, draft: CompileStateDraft, extractions: seq<ExtractionResult>,
                written: seq<MergedConcept>, frozen: set<Slug>, ghost state: WikiState, ghost files: seq<File>)
    returns (flushed: bool)
    requires !run.stop.InDeletions? && run.stop != InGeneration
    requires AllExtract(run, files) && BatchFiles(run, state.sources, files) && extractions == Results(run, files)
    requires AllExtracted(run, Batch(run, state.sources)) && frozen == Frozen(run, state)
    requires draft.state.sources == WithRetries(state.sources - Deletions(run, state.sources), Results(run, files))
    requires forall f, s :: f in files && Yields(run, f, s) ==>
      (WroteFrom(written, f, s) <==> s !in frozen && run.generate(s) == Written)
    requires forall s :: s in Slugs(written) <==> Publishes(run, Batch(run, state.sources), frozen, s)
    modifies store`pages, store`state, draft
    ensures flushed <==> run.stop == Never
    ensures store.state == if flushed then NextState(run, state) else old(store.state)
    ensures if flushed then NextPages(run, state, old(store.pages), store.pages)
      else UnflushedPages(run, state, old(store.pages), store.pages)
  {
    hide AllExtract, AllExtracted, BatchFiles, Results, Batch, Frozen, Deletions, WithRetries, Persisted, NextSources,
      NextPages, Publishes, Yields, WroteFrom, Slugs, Orphaned, Thaws, Unowned, PageWrites;
    store.ApplyWrites(PageWrites(written));
    PersistExtractionStates(draft, run, extractions, written, files, frozen);
    NextSourcesReached(run, state, files);
    assert draft.state.sources == NextSources(run, state);
    if run.stop == BeforeOrphaning {
      PublishedPagesReached(run, state, old(store.pages), written);
      return false;
    }
    if frozen != {} {
      OrphanUnownedFrozenPages(store, draft, frozen);
    } else {
      NothingUnowned(store.pages, draft.state.sources);
    }
    NextPagesReached(run, state, old(store.pages), written);
    PersistFrozenSlugs(draft, frozen, extractions);
    forall s | s in frozen
      ensures !Thaws(NextSources(run, state), Results(run, files), s)
    {
      FrozenNeverThaws(run, state, files, s);
    }
    assert draft.state.frozenSlugs == frozen;
    if run.stop == BeforeFlush {
      return false;
    }
    store.Flush(draft);
    flushed := true;
  }

  lemma NothingUnowned(pages: Pages, sources: Sources)
    ensures Orphaned(pages, Unowned(sources, {})) == pages
  {}

  lemma Survivors(run: Run, state: WikiState, current: WikiState)
    requires !run.review && AfterDeletions(run, state, current)
    ensures current.sources == state.sources - Deletions(run, state.sources)
  {}

  /** The merged concepts decide success and the written pages. */
  lemma BatchOutcome(run: Run, state: WikiState, files: seq<File>, merged: seq<MergedConcept>)
    requires AllExtracted(run, Batch(run, state.sources)) && BatchFiles(run, state.sources, files)
    requires MergesBatch(run, files, Frozen(run, state), merged)
    ensures Succeeds(run, state) <==> forall m :: m in merged ==> run.generate(m.slug) != Throws
    ensures Reports(run, state, Compiled(files, Slugs(merged)))
  {
    hide Batch, Frozen, AllExtracted, MergedFrom, Merges;
    assert forall f :: f in files <==> f in AsSet(files);
    forall m | m in merged
      ensures Merges(run, Batch(run, state.sources), Frozen(run, state), m.slug)
    {
      SlugOf(merged, m);
    }
    forall s | Merges(run, Batch(run, state.sources), Frozen(run, state), s)
      ensures exists m :: m in merged && m.slug == s
    {
      var i :| 0 <= i < |merged| && Slugs(merged)[i] == s;
      assert merged[i] in merged;
    }
  }

  lemma BatchWrites(run: Run, state: WikiState, files: seq<File>, merged: seq<MergedConcept>, written: seq<MergedConcept>)
    requires BatchFiles(run, state.sources, files) && MergesBatch(run, files, Frozen(run, state), merged)
    requires forall m :: m in written <==> m in merged && run.generate(m.slug) == Written
    ensures forall f, s :: f in files && Yields(run, f, s) ==>
      (WroteFrom(written, f, s) <==> s !in Frozen(run, state) && run.generate(s) == Written)
    ensures forall s :: s in Slugs(written) <==> Publishes(run, Batch(run, state.sources), Frozen(run, state), s)
  {
    forall f, s | f in files && Yields(run, f, s)
      ensures WroteFrom(written, f, s) <==> s !in Frozen(run, state) && run.generate(s) == Written
    {
      WroteFromBatch(run, files, Frozen(run, state), merged, written, f, s);
    }
    hide Batch, Frozen, MergedFrom, Merges;
    forall s
      ensures s in Slugs(written) <==> Publishes(run, Batch(run, state.sources), Frozen(run, state), s)
    {
      WrittenSlugs(run, merged, written, s);
    }
  }

  /** Extraction, merge, page writes and the new state; a failure leaves everything as the deletions left it. */
  method CompileBatch(store: WikiStore, run: Run, draft: CompileStateDraft, changes: seq<SourceChange>,
                      toCompile: seq<SourceChange>, drains: Slug -> bool, ghost state: WikiState)
    returns (r: Outcome)
    requires IsPlan(run, state.sources, changes) && toCompile == Keep(changes, Compiles)
    requires AfterDeletions(run, state, draft.state)
    requires !run.stop.InDeletions?
    modifies store, draft
    ensures CandidatesStep(run, state, old(store.candidates), store.candidates)
    ensures if DiesEarly(run, state) then r == Interrupted
      else if !Succeeds(run, state) then r == Aborted
      else if run.review || run.stop == Never then Reports(run, state, r)
      else r == Interrupted
    ensures run.review || DiesEarly(run, state) || !Succeeds(run, state) ==>
      store.pages == old(store.pages) && store.state == old(store.state)
    ensures !run.review && !DiesEarly(run, state) && Succeeds(run, state) ==>
      if run.stop == Never then
        store.state == NextState(run, state) && NextPages(run, state, old(store.pages), store.pages)
      else
        store.state == old(store.state) && UnflushedPages(run, state, old(store.pages), store.pages)
  {
    hide IsPlan, AfterDeletions, Batch, Frozen, AllExtract, AllExtracted, Results, BatchFiles, MergesBatch, Keep,
      NextPages, UnflushedPages, NextSources, Deletions, WithRetries, Publishes, Yields, WroteFrom, Slugs, FrozenByDeletion, FrozenByFailure;
    var frozen := FindFrozenSlugs(draft.state, changes);
    FrozenBeforeExtraction(run, state, draft.state, changes, frozen);
    ghost var files;
    var extracted;
    extracted, files := ExtractBatch(run, toCompile, draft.state, changes, state);
    if extracted.None? {
      return Aborted;
    }
    if !run.review {
      Survivors(run, state, draft.state);
      ghost var survivors := draft.state.sources;
      frozen := FreezeFailedExtractions(draft, extracted.value, frozen);
      FrozenAfterExtraction(run, state, survivors, files, frozen);
    }
    ghost var candidates := store.candidates;
    var ok, merged, written;
    ghost var generated;
    ok, merged, written, generated := GeneratePages(store, run, extracted.value, frozen, drains, files);
    BatchOutcome(run, state, files, merged);
    BatchCandidates(run, state, files, merged, candidates, generated);
    if run.stop == InGeneration {
      return Interrupted;
    }
    if !ok {
      return Aborted;
    }
    r := Compiled(ExtractedFiles(extracted.value), Slugs(merged));
    ExtractedFilesOf(run, files);
    if !run.review {
      BatchWrites(run, state, files, merged, written);
      var flushed := Commit(store, run, draft, extracted.value, written, frozen, state, files);
      if !flushed {
        r := Interrupted;
      }
    }
  }

  lemma BatchCandidates(run: Run, state: WikiState, files: seq<File>, merged: seq<MergedConcept>, before: Candidates,
                        generated: seq<Slug>)
    requires AllExtracted(run, Batch(run, state.sources)) && BatchFiles(run, state.sources, files)
    requires MergesBatch(run, files, Frozen(run, state), merged) && !run.stop.InDeletions?
    requires Distinct(generated) && forall s :: s in generated ==> s in Slugs(merged)
    requires Succeeds(run, state) && run.stop != InGeneration ==> generated == Slugs(merged)
    ensures CandidatesStep(run, state, before, AfterPages(run, AsSet(files), before, generated))
  {
    hide Batch, Frozen, AllExtracted, MergedFrom, Merges, AfterPages, Succeeds;
    assert IsGeneration(run, state, generated);
  }

  function ExtractedFiles(extractions: seq<ExtractionResult>): seq<File> {
    seq(|extractions|, i requires 0 <= i < |extractions| => extractions[i].sourceFile)
  }

  lemma ExtractedFilesOf(run: Run, files: seq<File>)
    requires AllExtract(run, files)
    ensures ExtractedFiles(Results(run, files)) == files
  {}

  /** A run with the given inputs; the pending hashes are collected from the candidates that it finds. */
  method RunCompilePipeline(store: WikiStore, inputs: Run, drains: Slug -> bool) returns (r: Outcome)
    modifies store
    ensures Step(Wiki(old(store.state), old(store.pages), old(store.candidates)),
                 inputs.(pending := SourceHashes(old(store.candidates))), r,
                 Wiki(store.state, store.pages, store.candidates))
  {
    hide IsPlan, FirstBatch, Deletions, Succeeds, NextPages, UnflushedPages, Keep, Orphaned, OrphanedBy, Reports,
      CandidatesStep, DiesEarly, SourceHashes;
    var pending := CollectPendingSourceHashes(store.candidates);
    var run := inputs.(pending := pending);
    ghost var found := Wiki(store.state, store.pages, store.candidates);
    var draft := new CompileStateDraft.Load(store.state);
    ghost var before := store.state;
    var changes := PlanChanges(run, draft.state);
    var toCompile, deleted := Keep(changes, Compiles), ChangedFiles(Keep(changes, IsDeletion));
    FirstFiles(run, before.sources, changes);
    DeletedFiles(run, before.sources, changes);
    WorkIffChanges(run, before.sources, toCompile, deleted);
    if toCompile == [] && deleted == [] {
      return NothingToCompile;
    }
    if !run.review {
      MarkDeletedAsOrphaned(store, Processed(run, deleted), draft);
      assert (set f | f in deleted) == Deletions(run, before.sources);
    }
    ghost var pages := store.pages;
    if run.stop.InDeletions? {
      DiesInDeletions(run, before, store.candidates);
      assert !run.review ==> LiveStep(found, run, Interrupted, Wiki(store.state, store.pages, store.candidates), deleted, pages);
      return Interrupted;
    }
    r := CompileBatch(store, run, draft, changes, toCompile, drains, before);
    if !run.review {
      assert LiveStep(found, run, r, Wiki(store.state, store.pages, store.candidates), deleted, pages);
    }
  }

  lemma DiesInDeletions(run: Run, state: WikiState, candidates: Candidates)
    requires run.stop.InDeletions?
    ensures DiesEarly(run, state) && CandidatesStep(run, state, candidates, candidates)
  {}

  lemma WorkIffChanges(run: Run, sources: Sources, toCompile: seq<SourceChange>, deleted: seq<File>)
    requires forall f :: f in ChangedFiles(toCompile) <==> f in FirstBatch(run, sources)
    requires OrderingOf(deleted, Deletions(run, sources))
    ensures NoWork(run, sources) <==> toCompile == [] && deleted == []
  {
    hide FirstBatch, Deletions;
    if toCompile != [] {
      assert ChangedFiles(toCompile)[0] in ChangedFiles(toCompile);
    }
    if deleted != [] {
      assert deleted[0] in deleted;
    }
  }
}
