/**
 Semantic dependencies between sources that share concepts. Objects are iterated in an
 arbitrary order; the results are stated as sets, so they hold for every order.
 */
module Deps {
  import opened Sequences
  import opened WikiState

  // ----- The reverse index -----

  type ConceptMap = map<Slug, seq<File>>

  function Mentions(conceptMap: ConceptMap, slug: Slug, file: File): nat {
    if slug in conceptMap then multiset(conceptMap[slug])[file] else 0
  }

  /** `conceptMap` names a file under a slug as often as the file lists it. */
  ghost predicate Indexes(conceptMap: ConceptMap, sources: Sources) {
    && (forall slug :: slug in conceptMap ==> conceptMap[slug] != [])
    && (forall slug, file :: Mentions(conceptMap, slug, file) == Lists(sources, file, slug))
  }

  method BuildConceptToSourcesMap(sources: Sources) returns (conceptMap: ConceptMap)
    ensures Indexes(conceptMap, sources)
  {
    conceptMap := map[];
    var todo := sources.Keys;
    ghost var done: Sources := map[];
    while todo != {}
      invariant todo <= sources.Keys
      invariant done == map f | f in sources && f !in todo :: sources[f]
      invariant Indexes(conceptMap, done)
    {
      var file :| file in todo;
      conceptMap := IndexFile(conceptMap, done, file, sources[file]);
      todo := todo - {file};
      done := done[file := sources[file]];
    }
    assert done == sources;
  }

  method IndexFile(conceptMap: ConceptMap, ghost done: Sources, file: File, entry: SourceState)
    returns (r: ConceptMap)
    requires Indexes(conceptMap, done) && file !in done
    ensures Indexes(r, done[file := entry])
  {
    r := conceptMap;
    for i := 0 to |entry.concepts|
      invariant Indexes(r, done[file := entry.(concepts := entry.concepts[..i])])
    {
      var slug := entry.concepts[i];
      ghost var before := r;
      r := r[slug := (if slug in r then r[slug] else []) + [file]];
      IndexOne(before, done, file, entry, i);
    }
    assert entry.concepts[..|entry.concepts|] == entry.concepts;
  }

  lemma CountAppend<T>(xs: seq<T>, x: T, y: T)
    ensures multiset(xs + [x])[y] == multiset(xs)[y] + (if x == y then 1 else 0)
  {}

  /** One more mention and one more listing of the same pair. */
  lemma IndexCount(before: ConceptMap, done: Sources, file: File, entry: SourceState, i: nat, s: Slug, f: File)
    requires i < |entry.concepts|
    requires Mentions(before, s, f) == Lists(done[file := entry.(concepts := entry.concepts[..i])], f, s)
    ensures var slug := entry.concepts[i];
      Mentions(before[slug := (if slug in before then before[slug] else []) + [file]], s, f)
        == Lists(done[file := entry.(concepts := entry.concepts[..i + 1])], f, s)
  {
    var slug := entry.concepts[i];
    assert entry.concepts[..i + 1] == entry.concepts[..i] + [slug];
    CountAppend(if slug in before then before[slug] else [], file, f);
    CountAppend(entry.concepts[..i], slug, s);
  }

  lemma IndexOne(before: ConceptMap, done: Sources, file: File, entry: SourceState, i: nat)
    requires i < |entry.concepts|
    requires Indexes(before, done[file := entry.(concepts := entry.concepts[..i])])
    ensures var slug := entry.concepts[i];
      Indexes(before[slug := (if slug in before then before[slug] else []) + [file]],
              done[file := entry.(concepts := entry.concepts[..i + 1])])
  {
    hide Mentions, Lists;
    var slug := entry.concepts[i];
    var after := before[slug := (if slug in before then before[slug] else []) + [file]];
    forall s, f
      ensures Mentions(after, s, f) == Lists(done[file := entry.(concepts := entry.concepts[..i + 1])], f, s)
    {
      IndexCount(before, done, file, entry, i, s, f);
    }
  }

  /** `slug` is listed by another source than `file`, or by `file` more than once. */
  ghost predicate Shared(sources: Sources, file: File, slug: Slug) {
    Lists(sources, file, slug) > 1 || exists g :: g != file && Owns(sources, g, slug)
  }

  lemma ListsIffOwns(sources: Sources, file: File, slug: Slug)
    ensures Lists(sources, file, slug) > 0 <==> Owns(sources, file, slug)
  {}

  /** Counting contributors decides sharing. */
  lemma ContributorsDecide(conceptMap: ConceptMap, sources: Sources, file: File, slug: Slug)
    requires Indexes(conceptMap, sources) && Owns(sources, file, slug)
    ensures slug in conceptMap && (|conceptMap[slug]| > 1 <==> Shared(sources, file, slug))
  {
    assert Mentions(conceptMap, slug, file) == Lists(sources, file, slug) > 0;
    var xs := conceptMap[slug];
    assert xs != [];
    if |xs| == 1 {
      assert xs == [xs[0]];
      forall g | g != file
        ensures !Owns(sources, g, slug)
      {
        assert Mentions(conceptMap, slug, g) == Lists(sources, g, slug);
      }
    } else {
      assert xs == [xs[0], xs[1]] + xs[2..];
      assert multiset(xs) == multiset([xs[0], xs[1]]) + multiset(xs[2..]);
      if xs[0] == xs[1] == file {
        assert multiset([xs[0], xs[1]])[file] == 2;
      } else {
        var g := if xs[0] != file then xs[0] else xs[1];
        assert Mentions(conceptMap, slug, g) == Lists(sources, g, slug);
        assert g in multiset(xs) && g != file && Owns(sources, g, slug);
      }
    }
  }

  /** The index answers ownership. */
  lemma IndexedOwners(conceptMap: ConceptMap, sources: Sources, slug: Slug)
    requires Indexes(conceptMap, sources)
    ensures slug in conceptMap <==> exists f :: Owns(sources, f, slug)
    ensures slug in conceptMap ==> forall f :: f in conceptMap[slug] <==> Owns(sources, f, slug)
  {
    forall f
      ensures (slug in conceptMap && f in conceptMap[slug]) <==> Owns(sources, f, slug)
    {
      assert Mentions(conceptMap, slug, f) == Lists(sources, f, slug);
    }
    if slug in conceptMap {
      assert conceptMap[slug][0] in conceptMap[slug];
    }
  }

  // ----- Affected sources -----

  ghost function FilesWith(changes: seq<SourceChange>, statuses: set<Status>): set<File> {
    set c | c in changes && c.status in statuses :: c.file
  }

  method FilesByStatus(changes: seq<SourceChange>, statuses: set<Status>) returns (files: seq<File>)
    ensures Distinct(files) && (set f | f in files) == FilesWith(changes, statuses)
  {
    files := [];
    for i := 0 to |changes|
      invariant Distinct(files)
      invariant forall f :: f in files <==> exists k :: 0 <= k < i && changes[k].status in statuses && changes[k].file == f
    {
      if changes[i].status in statuses {
        files := Add(files, changes[i].file);
      }
    }
  }

  ghost predicate CoOwn(sources: Sources, f: File, g: File) {
    exists slug :: Owns(sources, f, slug) && Owns(sources, g, slug)
  }

  /** The co-owners of changed files that are themselves neither changed nor deleted. */
  ghost function AffectedBy(sources: Sources, changed: set<File>, deleted: set<File>): set<File> {
    set g | g in sources && g !in changed && g !in deleted && exists f :: f in changed && CoOwn(sources, f, g)
  }

  /** Add the co-owners of one source's concepts. */
  method CollectSharedContributors(sourceFile: File, state: WikiState, conceptMap: ConceptMap,
                                   changed: seq<File>, deleted: seq<File>, out: seq<File>) returns (r: seq<File>)
    requires Indexes(conceptMap, state.sources) && sourceFile in changed
    ensures Distinct(out) ==> Distinct(r)
    ensures forall g :: g in r <==>
      (g in out || (g !in changed && g !in deleted && CoOwn(state.sources, sourceFile, g)))
  {
    r := out;
    if sourceFile !in state.sources {
      return;
    }
    var concepts := state.sources[sourceFile].concepts;
    for i := 0 to |concepts|
      invariant Distinct(out) ==> Distinct(r)
      invariant forall g :: g in r <==>
        (g in out || (g !in changed && g !in deleted && exists k :: 0 <= k < i && Owns(state.sources, g, concepts[k])))
    {
      ghost var before := r;
      var slug := concepts[i];
      IndexedOwners(conceptMap, state.sources, slug);
      assert Owns(state.sources, sourceFile, slug);
      if slug in conceptMap && |conceptMap[slug]| >= 2 {
        var contributors := conceptMap[slug];
        for j := 0 to |contributors|
          invariant Distinct(out) ==> Distinct(r)
          invariant forall g :: g in r <==>
            (g in before || (g !in changed && g !in deleted && g in contributors[..j]))
        {
          var contributor := contributors[j];
          if !(contributor in changed || contributor in deleted || contributor in r) {
            r := Add(r, contributor);
          }
        }
        assert contributors[..|contributors|] == contributors;
      } else {
        // a single contributor is the changed source itself
        assert conceptMap[slug] == [sourceFile];
      }
      assert forall g :: g in r <==> (g in before || (g !in changed && g !in deleted && Owns(state.sources, g, slug)));
    }
  }

  method FindAffectedSources(state: WikiState, directChanges: seq<SourceChange>) returns (affected: seq<File>)
    ensures Distinct(affected)
    ensures (set f | f in affected) ==
      AffectedBy(state.sources, FilesWith(directChanges, {New, Changed}), FilesWith(directChanges, {Deleted}))
  {
    var changedFiles := FilesByStatus(directChanges, {New, Changed});
    var deletedFiles := FilesByStatus(directChanges, {Deleted});
    var conceptMap := BuildConceptToSourcesMap(state.sources);
    affected := [];
    for i := 0 to |changedFiles|
      invariant Distinct(affected)
      invariant forall g :: g in affected <==>
        g !in changedFiles && g !in deletedFiles &&
        exists k :: 0 <= k < i && CoOwn(state.sources, changedFiles[k], g)
    {
      affected := CollectSharedContributors(changedFiles[i], state, conceptMap, changedFiles, deletedFiles, affected);
    }
    assert forall f :: f in changedFiles <==> f in FilesWith(directChanges, {New, Changed});
    assert forall f :: f in deletedFiles <==> f in FilesWith(directChanges, {Deleted});
  }

  /** Slugs a first-batch source yields that its recorded list does not have. */
  ghost predicate Fresh(state: WikiState, extractions: seq<ExtractionResult>, slug: Slug) {
    exists r :: r in extractions && slug in SlugsOf(r.concepts) && slug !in Recorded(state.sources, r.sourceFile)
  }

  method CollectFreshSlugs(extractions: seq<ExtractionResult>, state: WikiState) returns (freshSlugs: set<Slug>)
    ensures forall s :: s in freshSlugs <==> Fresh(state, extractions, s)
  {
    freshSlugs := {};
    for i := 0 to |extractions|
      invariant forall s :: s in freshSlugs <==> Fresh(state, extractions[..i], s)
    {
      var result := extractions[i];
      var recorded := Recorded(state.sources, result.sourceFile);
      ghost var before := freshSlugs;
      for k := 0 to |result.concepts|
        invariant forall s :: s in freshSlugs <==> (s in before || (s in SlugsOf(result.concepts)[..k] && s !in recorded))
      {
        var slug := result.concepts[k].slug;
        assert SlugsOf(result.concepts)[..k + 1] == SlugsOf(result.concepts)[..k] + [slug];
        if slug !in recorded {
          freshSlugs := freshSlugs + {slug};
        }
      }
      assert SlugsOf(result.concepts)[..|result.concepts|] == SlugsOf(result.concepts);
      FreshAppend(state, extractions[..i], result);
      assert extractions[..i + 1] == extractions[..i] + [result];
    }
    assert extractions[..|extractions|] == extractions;
  }

  lemma FreshAppend(state: WikiState, extractions: seq<ExtractionResult>, result: ExtractionResult)
    ensures forall s :: Fresh(state, extractions + [result], s) <==>
      (Fresh(state, extractions, s) || (s in SlugsOf(result.concepts) && s !in Recorded(state.sources, result.sourceFile)))
  {
    forall s
      ensures Fresh(state, extractions + [result], s) <==>
        (Fresh(state, extractions, s) || (s in SlugsOf(result.concepts) && s !in Recorded(state.sources, result.sourceFile)))
    {
      assert result in extractions + [result];
      if Fresh(state, extractions, s) {
        var r :| r in extractions && s in SlugsOf(r.concepts) && s !in Recorded(state.sources, r.sourceFile);
        assert r in extractions + [result];
      }
    }
  }

  /** Owners of a set of slugs outside two exclusion lists. */
  method FindSlugOwners(slugs: set<Slug>, conceptMap: ConceptMap, ghost sources: Sources,
                        compiling: seq<File>, deleted: seq<File>) returns (affected: seq<File>)
    requires Indexes(conceptMap, sources)
    ensures Distinct(affected)
    ensures forall g :: g in affected <==>
      (g !in compiling && g !in deleted && exists s :: s in slugs && Owns(sources, g, s))
  {
    affected := [];
    var todo := slugs;
    while todo != {}
      invariant todo <= slugs && Distinct(affected)
      invariant forall g :: g in affected <==>
        (g !in compiling && g !in deleted && exists s :: s in slugs - todo && Owns(sources, g, s))
    {
      var slug :| slug in todo;
      ghost var before := affected;
      IndexedOwners(conceptMap, sources, slug);
      if slug in conceptMap {
        var owners := conceptMap[slug];
        for j := 0 to |owners|
          invariant Distinct(affected)
          invariant forall g :: g in affected <==>
            (g in before || (g !in compiling && g !in deleted && g in owners[..j]))
        {
          if !(owners[j] in compiling || owners[j] in deleted) {
            affected := Add(affected, owners[j]);
          }
        }
        assert owners[..|owners|] == owners;
      }
      assert forall g :: g in affected <==>
        (g in before || (g !in compiling && g !in deleted && Owns(sources, g, slug)));
      assert slugs - (todo - {slug}) == (slugs - todo) + {slug};
      todo := todo - {slug};
    }
  }

  /** The owners of freshly gained slugs that are neither compiling nor deleted. */
  ghost function LateAffectedBy(state: WikiState, extractions: seq<ExtractionResult>,
                                compiling: set<File>, deleted: set<File>): set<File> {
    set g | g in state.sources && g !in compiling && g !in deleted &&
      exists s :: Fresh(state, extractions, s) && Owns(state.sources, g, s)
  }

  method FindLateAffectedSources(extractions: seq<ExtractionResult>, state: WikiState, allChanges: seq<SourceChange>)
    returns (affected: seq<File>)
    ensures Distinct(affected)
    ensures (set f | f in affected) ==
      LateAffectedBy(state, extractions, FilesWith(allChanges, {New, Changed}), FilesWith(allChanges, {Deleted}))
  {
    var compilingFiles := FilesByStatus(allChanges, {New, Changed});
    var deletedFiles := FilesByStatus(allChanges, {Deleted});
    var conceptMap := BuildConceptToSourcesMap(state.sources);
    var freshSlugs := CollectFreshSlugs(extractions, state);
    affected := FindSlugOwners(freshSlugs, conceptMap, state.sources, compilingFiles, deletedFiles);
    assert forall f :: f in compilingFiles <==> f in FilesWith(allChanges, {New, Changed});
    assert forall f :: f in deletedFiles <==> f in FilesWith(allChanges, {Deleted});
  }

  // ----- Shared and frozen concepts -----

  ghost function SharedConcepts(sources: Sources, file: File): set<Slug> {
    set s | s in Recorded(sources, file) && Shared(sources, file, s)
  }

  method FindSharedConcepts(sourceFile: File, state: WikiState) returns (shared: set<Slug>)
    ensures shared == SharedConcepts(state.sources, sourceFile)
  {
    shared := {};
    if sourceFile !in state.sources {
      return;
    }
    var conceptMap := BuildConceptToSourcesMap(state.sources);
    var concepts := state.sources[sourceFile].concepts;
    for i := 0 to |concepts|
      invariant forall s :: s in shared <==> s in concepts[..i] && Shared(state.sources, sourceFile, s)
    {
      ContributorsDecide(conceptMap, state.sources, sourceFile, concepts[i]);
      if concepts[i] in conceptMap && |conceptMap[concepts[i]]| > 1 {
        shared := shared + {concepts[i]};
      }
    }
    assert concepts[..|concepts|] == concepts;
  }

  /** The slugs that deletions in `changes` freeze in `state`. */
  ghost predicate FrozenByDeletion(state: WikiState, changes: seq<SourceChange>, slug: Slug) {
    exists f :: f in FilesWith(changes, {Deleted}) && slug in SharedConcepts(state.sources, f)
  }

  method FindFrozenSlugs(state: WikiState, changes: seq<SourceChange>) returns (frozen: set<Slug>)
    ensures forall s :: s in frozen <==> s in state.frozenSlugs || FrozenByDeletion(state, changes, s)
  {
    frozen := state.frozenSlugs;
    var deletedFiles := FilesByStatus(changes, {Deleted});
    var conceptMap := BuildConceptToSourcesMap(state.sources);
    for i := 0 to |deletedFiles|
      invariant forall s :: s in frozen <==>
        (s in state.frozenSlugs || exists k :: 0 <= k < i && s in SharedConcepts(state.sources, deletedFiles[k]))
    {
      var file := deletedFiles[i];
      ghost var before := frozen;
      if file in state.sources {
        var concepts := state.sources[file].concepts;
        for k := 0 to |concepts|
          invariant forall s :: s in frozen <==> (s in before || (s in concepts[..k] && Shared(state.sources, file, s)))
        {
          ContributorsDecide(conceptMap, state.sources, file, concepts[k]);
          if concepts[k] in conceptMap && |conceptMap[concepts[k]]| > 1 {
            frozen := frozen + {concepts[k]};
          }
        }
        assert concepts[..|concepts|] == concepts;
      }
      assert forall s :: s in frozen <==> (s in before || s in SharedConcepts(state.sources, file));
    }
    assert forall f :: f in deletedFiles <==> f in FilesWith(changes, {Deleted});
    forall s
      ensures (exists k :: 0 <= k < |deletedFiles| && s in SharedConcepts(state.sources, deletedFiles[k]))
        <==> FrozenByDeletion(state, changes, s)
    {
      if FrozenByDeletion(state, changes, s) {
        var f :| f in FilesWith(changes, {Deleted}) && s in SharedConcepts(state.sources, f);
        assert f in deletedFiles;
      }
    }
  }

  // ----- Failed extractions and thawing -----

  ghost predicate Failed(results: seq<ExtractionResult>, file: File) {
    exists r :: r in results && r.sourceFile == file && r.concepts == []
  }

  /** Every failed source gets a blank hash and keeps its concepts. */
  ghost function WithRetries(sources: Sources, results: seq<ExtractionResult>): Sources {
    map f | f in sources.Keys + set r | r in results && r.concepts == [] :: r.sourceFile
      :: if Failed(results, f) then SourceState("", Recorded(sources, f)) else sources[f]
  }

  ghost predicate FrozenByFailure(sources: Sources, results: seq<ExtractionResult>, slug: Slug) {
    exists f :: Failed(results, f) && slug in Recorded(sources, f)
  }

  method FreezeFailedExtractions(draft: CompileStateDraft, results: seq<ExtractionResult>, frozen: set<Slug>)
    returns (frozen': set<Slug>)
    modifies draft
    ensures draft.state == old(draft.state).(sources := WithRetries(old(draft.state.sources), results))
    ensures forall s :: s in frozen' <==> s in frozen || FrozenByFailure(old(draft.state.sources), results, s)
  {
    frozen' := frozen;
    ghost var sources := draft.state.sources;
    assert WithRetries(sources, []) == sources;
    for i := 0 to |results|
      invariant draft.state == old(draft.state).(sources := WithRetries(sources, results[..i]))
      invariant forall s :: s in frozen' <==> s in frozen || FrozenByFailure(sources, results[..i], s)
    {
      var result := results[i];
      ghost var done := results[..i];
      assert results[..i + 1] == done + [result];
      RetryStep(sources, done, result);
      if result.concepts == [] {
        var oldConcepts := Recorded(draft.state.sources, result.sourceFile);
        frozen' := frozen' + (set s | s in oldConcepts);
        draft.SetSource(result.sourceFile, SourceState("", oldConcepts));
      }
    }
    assert results[..|results|] == results;
  }

  lemma FailedStep(done: seq<ExtractionResult>, result: ExtractionResult)
    ensures forall f :: Failed(done + [result], f) <==> Failed(done, f) || (result.concepts == [] && result.sourceFile == f)
  {
    forall f
      ensures Failed(done + [result], f) <==> Failed(done, f) || (result.concepts == [] && result.sourceFile == f)
    {
      assert result in done + [result];
      if Failed(done, f) {
        var r :| r in done && r.sourceFile == f && r.concepts == [];
        assert r in done + [result];
      }
    }
  }

  /** The entries with the failed sources turned blank, file by file. */
  lemma Retried(sources: Sources, rs: seq<ExtractionResult>, f: File)
    ensures f in WithRetries(sources, rs) <==> f in sources || Failed(rs, f)
    ensures Failed(rs, f) ==> WithRetries(sources, rs)[f] == SourceState("", Recorded(sources, f))
    ensures f in sources && !Failed(rs, f) ==> WithRetries(sources, rs)[f] == sources[f]
    ensures Recorded(WithRetries(sources, rs), f) == Recorded(sources, f)
  {}

  lemma FrozenStep(sources: Sources, done: seq<ExtractionResult>, result: ExtractionResult, s: Slug)
    ensures FrozenByFailure(sources, done + [result], s) <==>
      FrozenByFailure(sources, done, s) || (result.concepts == [] && s in Recorded(sources, result.sourceFile))
  {
    FailedStep(done, result);
    hide Failed, Recorded;
  }

  lemma RetryStep(sources: Sources, done: seq<ExtractionResult>, result: ExtractionResult)
    ensures Recorded(WithRetries(sources, done), result.sourceFile) == Recorded(sources, result.sourceFile)
    ensures WithRetries(sources, done + [result]) ==
      if result.concepts == []
      then WithRetries(sources, done)[result.sourceFile := SourceState("", Recorded(sources, result.sourceFile))]
      else WithRetries(sources, done)
    ensures forall s :: FrozenByFailure(sources, done + [result], s) <==>
      FrozenByFailure(sources, done, s) || (result.concepts == [] && s in Recorded(sources, result.sourceFile))
  {
    hide Failed, WithRetries, Recorded, FrozenByFailure;
    FailedStep(done, result);
    Retried(sources, done, result.sourceFile);
    forall f
      ensures f in WithRetries(sources, done + [result]) <==>
        f in WithRetries(sources, done) || (result.concepts == [] && f == result.sourceFile)
      ensures f in WithRetries(sources, done + [result]) && f in WithRetries(sources, done) && f != result.sourceFile ==>
        WithRetries(sources, done + [result])[f] == WithRetries(sources, done)[f]
      ensures f in WithRetries(sources, done + [result]) && f == result.sourceFile ==>
        WithRetries(sources, done + [result])[f] ==
          if result.concepts == [] then SourceState("", Recorded(sources, f)) else WithRetries(sources, done)[f]
    {
      Retried(sources, done, f);
      Retried(sources, done + [result], f);
    }
    forall s
      ensures FrozenByFailure(sources, done + [result], s) <==>
        FrozenByFailure(sources, done, s) || (result.concepts == [] && s in Recorded(sources, result.sourceFile))
    {
      FrozenStep(sources, done, result, s);
    }
  }

  /** A frozen slug thaws when all its current owners were compiled with concepts and it was extracted. */
  ghost predicate Thaws(sources: Sources, results: seq<ExtractionResult>, slug: Slug) {
    && (exists f :: Owns(sources, f, slug))
    && (forall f :: Owns(sources, f, slug) ==> exists r :: r in results && r.sourceFile == f && r.concepts != [])
    && (exists r :: r in results && slug in SlugsOf(r.concepts))
  }

  method PersistFrozenSlugs(draft: CompileStateDraft, frozen: set<Slug>, results: seq<ExtractionResult>)
    modifies draft
    ensures draft.state.sources == old(draft.state.sources)
    ensures forall s :: s in draft.state.frozenSlugs <==> s in frozen && !Thaws(draft.state.sources, results, s)
  {
    var sources := draft.state.sources;
    var conceptMap := BuildConceptToSourcesMap(sources);
    var extractedBy: set<Slug> := {};
    var compiledFiles: set<File> := {};
    for i := 0 to |results|
      invariant draft.state == old(draft.state)
      invariant forall s :: s in extractedBy <==> exists k :: 0 <= k < i && s in SlugsOf(results[k].concepts)
      invariant forall f :: f in compiledFiles <==> exists k :: 0 <= k < i && results[k].sourceFile == f && results[k].concepts != []
    {
      if results[i].concepts != [] {
        extractedBy := extractedBy + (set s | s in SlugsOf(results[i].concepts));
        compiledFiles := compiledFiles + {results[i].sourceFile};
      }
    }
    var remaining: set<Slug> := {};
    var todo := frozen;
    while todo != {}
      invariant draft.state == old(draft.state)
      invariant todo <= frozen
      invariant forall s :: s in remaining <==> s in frozen - todo && !Thaws(sources, results, s)
    {
      var slug :| slug in todo;
      IndexedOwners(conceptMap, sources, slug);
      var owners := if slug in conceptMap then conceptMap[slug] else [];
      var allOwnersCompiled := |owners| > 0 && (forall f :: f in owners ==> f in compiledFiles) && slug in extractedBy;
      assert allOwnersCompiled <==> Thaws(sources, results, slug);
      if !allOwnersCompiled {
        remaining := remaining + {slug};
      }
      todo := todo - {slug};
    }
    draft.SetFrozen(remaining);
  }
}
