# llmwiki: a verified model of its kernels

llmwiki compiles source files into wiki pages with a language model, and keeps the result
up to date, linked, reviewed and packed for agents. This project models the parts of it
that decide something, with files, language model calls and hashing reduced to
parameters, and proves what those parts promise. `dafny verify dfyconfig.toml` checks all
of it.

Code that the repository writes as loops and updated objects is imperative here too
(`CompileStateDraft`, `WikiStore`, `PageClassification`, `PackDraft`, `CandidateStore`,
`ReviewStore`, `Watcher`, `ArtifactStore` are classes); each such method is proved against
a specification, and the results are lemmas about the specifications. Pure code is modelled
by functions.

## What is modelled, and the main results

**Incremental compile** (`WikiState`, `Hasher`, `Deps`, `Orphan`, `Merge`, `ExtractionPhase`,
`ChangePlan`, `Pending`, `Generation`, `Pipeline`, `Queue`, `CompileRuns`, `Interruptions`, `Reruns`, `Exposure`,
`Regeneration`).
`Pipeline.RunCompilePipeline` is one whole run, from change detection to the single flush of the state, over
an arbitrary state, set of pending candidates, disk, change filter, extraction, page generation and place
where the process dies. Its contract is the relation `Step`: which sources are extracted (each once), what the
new state, pages and candidates are, and what is left when a step fails or the run ends between two writes.
`Queue` gives the review queue after a run target by target, from the mode and the pages alone.
`CompileRuns` proves what sequences of such steps keep, `Interruptions` that runs which failed or died before
their state write leave no trace on a rerun that has the same direct changes and does again what they did without
failing, `Reruns` and `Exposure` exactly when the candidates they leave give the rerun the same direct changes,
and `Regeneration` exactly when a page is rebuilt from all its contributors.

**Refresh** (`Refresh`). The read-only plan of a stale refresh predicts the run under its own
filter, and the run repairs every scanned page up to empty extractions, exactly.

**Wikilinks** (`Text`, `Wikilinks`, `WikilinkDocs`, `WikilinkSoundness`, `WikilinkRelinking`,
`WikilinkCaret`, `WikilinkShadow`, `WikilinkReading`). The rewriter edits a body back to front, title by title, guarded against
existing links and citations. Its result is explained by disjoint spans of the original body, outside
its links and citations, exactly for the title lists described below; linking a title twice is a no-op
exactly for the titles described below. A reader of the rewritten text finds the links of the body and, for
each replaced mention, one whose target is the page's slug and whose label is its title.

**Context packs** (`ContextTrim`, `ContextBudgeting`). Trimming follows one deletion schedule to
the first pack that fits, for any size function; the reported estimate, which is part of the
text it measures, is off by one token at most, and the shipped pack reports exactly the sections that lost
something.

**Addresses** (`PrivateAddress`, `AddressSpellings`, `AddressParsing`, `AddressLiberties`, `AddressBlocks`). The parser
accepts exactly the spellings of section 2.2 of RFC 4291 and those that take one of two liberties (below),
and gives all spellings of an address one class; an IPv4 address is judged the same alone and embedded.
A text is public exactly when it reads as an address outside eighteen blocks, given by base and prefix length.

**Line numbers and citations** (`LineNumbers`, `PromptReading`, `Citations`). The files and texts that a prompt
shows can be read back from it, and the line-number parser inverts the printer through clipping, so a bare citation survives exactly when
the prompt showed the lines it names.

**Candidates and review** (`Supersede`, `ConnectorStaging`, `Review`, `ReviewProtocol`,
`ReviewEffects`). Superseding
under every pattern of failing moves, with each result and what it leaves from the inputs; approvals and rejections as a protocol under a lock, in every
interleaving, with other writers that replace a candidate in between.

**Watch** (`Watch`) and **artifacts** (`Artifacts`, `ArtifactWrites`). The debounced watch loop in
every interleaving; resolving, writing and requiring hash-pinned artifacts.

`Options`, `Sequences` and `Strings` hold shared definitions.

## Where the code does less than its comments say

Each of these is a lemma below: a family of inputs, an exact condition or a bound.

- Deletions do not freeze shared concepts in a run that writes. The deleted entries leave the draft
  (`src/compiler/index.ts:413`) before the frozen concepts are computed from that same object
  (line 416), so the rule of `src/compiler/deps.ts:122-159` only acts in review mode, and a page shared
  with a deleted source is regenerated from the survivors alone.
- Frozen concepts never thaw. A compiled source records no frozen slug, so no frozen slug has only
  compiled owners that record it, which is what `src/compiler/deps.ts:196-202` asks for.
- The batch is closed under one hop only: an affected source is extracted again, and its other shared
  pages are regenerated without their other owners. Nor does a slug that a late source newly yields draw in
  its owners.
- A run that fails or dies before its state write can have orphaned pages that the state still records: those
  that lost their last owner to its deletions, and frozen ones that its compiled owners no longer record. A
  rerun that completes heals this if it has the same direct changes and repeats what the run did without failing;
  one that fails again heals nothing.
- A compile that dies before its state write is not always run again as a whole, as
  `src/compiler/compile-state-draft.ts:4-10` promises. Generating a page changes the pending candidates at once:
  a held page makes its changed sources count as unchanged, so their other pages are never written, and a live
  page deletes candidates that covered other sources. The condition is exact, and holds whenever no page of the
  batch can be held and none has a candidate waiting.
- Freezing protects a page from regeneration, not from being orphaned: when all surviving owners of a frozen
  concept are compiled to some concepts, its page is orphaned, even if they have just yielded the concept.
- A refresh is blocked for good by a missing source that owns no scanned page and shares a concept with a source
  to recompile: the filter hides its deletion, and the compile takes it for an affected source and fails on it.
- `markOrphaned` counts listings, not owners: a source that lists a concept twice keeps its page when it
  is deleted last.
- Wikilinks: a title of two or more characters that ends in a caret can dissolve a citation mark, so that
  a later title is linked inside what the body had as a citation (the last title looked for may end in a
  caret); and relinking is not idempotent for such
  titles, nor for titles that start, but do not end, with a boundary character.
- Context packs: the walk over tiers deletes the key of an empty tier list before it looks at the budget,
  so a pack with such a list is not always trimmed to the first fit. The projection that builds packs never
  produces one.
- After a trim that fitted, the shipped text is not bounded by the request but by the request, the section list and
  the estimate's digits together.
- "::" is accepted where it stands for no group at all (eight groups besides), and octets of a dotted tail with
  any number of leading zeros, neither of which section 2.2 of RFC 4291 allows.
- Clipping a source adds the two lines of the marker to the lines that bare citations may name.
- A connector draft that supersedes nothing takes the place of any pending candidate for the same target, and
  distinct source ids can share a target, because the slug keeps only letters, digits and hyphens.
- The pin guards connector candidates only: of any other candidate an approval writes the body that it finds, also
  if that was replaced since it was inspected.
- An approval that fails after its page write leaves the candidate pending, so it can be rejected although its
  page was written.

## Model

| member | source | states |
|---|---|---|
| Wikilinks.FindTitleMatches | src/compiler/resolver.ts:93-104 | The matches returned are the ones the global, case-insensitive, left-to-right scan selects: each is the leftmost occurrence after the previous match and overlaps none. |
| Wikilinks.NextMatchLeftmost | src/compiler/resolver.ts:93-104 | The next match is an occurrence up to case with no occurrence before it, and none is missed when there is no match. |
| Wikilinks.AddWikilinks | src/compiler/resolver.ts:117-134 | The in-place, back-to-front edits of all titles but the page's own give the text of `LinkTitles`, the specification that the results below are about. |
| WikilinkSoundness.InsideTransfers | src/compiler/resolver.ts:66-83 | Guards read on the rewritten text agree with the original body: a position outside every link and citation of the text lies outside those of the body. |
| WikilinkSoundness.AddWikilinksSound | src/compiler/resolver.ts:66-134 | For every body and every bracket-free index in which no other page's title that ends in a caret (after another character) is followed by another title to look for: the result is the body with disjoint spans replaced by links, each span equal up to case to the linked title, which is not the page's own, and none starting inside a link or citation of the body. |
| WikilinkSoundness.CollapsingLinksRestoresBody | src/compiler/resolver.ts:66-134 | For every bracket-free index, caret titles or not: with every link of the explanation put back as its title the pieces of the result are the original body up to case. `WikilinkReading` reads the same off the result's text. |
| WikilinkReading.ResultReadsAs | src/compiler/resolver.ts:116-134 | Read as text, with the target of a link up to its first bar and the label after it: the result holds the characters and links of the body, except that some mentions of other pages' titles are links whose target is that page's slug and whose label is its title. For every bracket-free index whose slugs have no bar. |
| WikilinkReading.ResultDisplaysBody | src/compiler/resolver.ts:116-134 | With every link shown as its label, the text of the result reads as the body does, up to case. |
| WikilinkReading.ResultKeepsLinks | src/compiler/resolver.ts:66-134 | The links that a reader finds in the result are those that it finds in the body, each as often, and the inserted ones. |
| WikilinkCaret.CaretTitleIsUnsound | src/compiler/resolver.ts:76-134 | For every other page's title that ends in a caret, holds no earlier title as a word and is followed by another title: a body exists whose rewriting no choice of spans outside links and citations explains. |
| WikilinkCaret.SoundExactly | src/compiler/resolver.ts:66-134 | The exact condition: every body is rewritten soundly if and only if no caret title is followed by another title. For every index of at most two titles besides the page's own, and every longer one unless each caret title that another title follows has an earlier title as a word. |
| WikilinkShadow.ShadowedCaretIsSound | src/compiler/resolver.ts:66-134 | A caret title that others follow leaves every body sound if the title linked just before it is a word of it, settles in one pass and cannot overlap itself, and the rest of the index has no such title. |
| WikilinkShadow.SoundExactlyUnshadowed | src/compiler/resolver.ts:66-134 | A wider exact condition, on the titles that are left when each one shadowed by the title kept before it is dropped: every body is rewritten soundly if and only if no caret title among them is followed by another. For every index with at most two such titles, and every longer one unless each caret title that another of them follows has an earlier one as a word. |
| WikilinkShadow.CaretsLastNotNecessary | src/compiler/resolver.ts:66-134 | So the condition on the whole list is not necessary: an index with a caret title between two other titles that rewrites every body soundly. |
| WikilinkRelinking.StaysUnlinkable | src/compiler/resolver.ts:66-114 | A mention that was left unlinked stays unlinkable when an earlier mention in the text is replaced. |
| WikilinkRelinking.FixedIffSettled | src/compiler/resolver.ts:116-134 | A pass leaves a text alone exactly when none of the matches of its scan is at a linkable position. |
| WikilinkRelinking.UnchangedIff | src/compiler/resolver.ts:117-134 | No title is left out: a body stays as it is if and only if it has no match at a linkable position of any title but the page's own. |
| WikilinkRelinking.MentionsLeftAreIneligible | src/compiler/resolver.ts:66-134 | A pass misses no mention: after it, every mention of a title that settles in one pass lies in a link or a citation, touches a character that is neither white space nor one of the fifteen listed ones, or is overlapped by a mention before it. |
| WikilinkRelinking.RelinkingIsNoOp | src/compiler/resolver.ts:66-134 | Linking a title twice equals linking it once, on every body, for a title that does not start with a boundary character unless it also ends with one and does not end in a caret. |
| WikilinkRelinking.RelinkingExactly | src/compiler/resolver.ts:66-134 | That condition on the title is exact: relinking is a no-op on every body if and only if it holds. |
| WikilinkRelinking.BoundaryStartUnsettled | src/compiler/resolver.ts:86-134 | A body on which relinking a title that starts, but does not end, with a boundary character changes the text again. |
| WikilinkRelinking.CaretTitleUnsettled | src/compiler/resolver.ts:76-134 | A body on which relinking a title that ends in a caret changes the text again. |
| WikiState.CompileStateDraft.Load | src/compiler/compile-state-draft.ts:40-42 | The draft starts as the state on disk. |
| WikiState.CompileStateDraft.SetSource | src/compiler/compile-state-draft.ts:58-60 | Exactly one source entry is replaced, in place. |
| WikiState.CompileStateDraft.RemoveSource | src/compiler/compile-state-draft.ts:63-65 | Exactly one source entry is removed, in place. |
| WikiState.CompileStateDraft.SetFrozen | src/compiler/compile-state-draft.ts:68-70 | Exactly the frozen set is replaced, in place. |
| Hasher.DetectChanges | src/compiler/hasher.ts:32-49 | Every file on disk or in the state is listed once, with the status that its digest and recorded hash give it. |
| Hasher.DetectionByStatus | src/compiler/hasher.ts:32-49 | New, changed, unchanged and deleted, each exactly by presence on disk, presence in the state and equality of the digest with the recorded hash; no file is listed twice. |
| Hasher.FindDeletedFiles | src/compiler/hasher.ts:92-100 | The recorded files that are not on disk, each once. |
| Deps.BuildConceptToSourcesMap | src/compiler/deps.ts:32-49 | A file is named under a slug as often as it lists the slug, and no slug has an empty list. |
| Deps.ContributorsDecide | src/compiler/deps.ts:138-156 | Counting a slug's contributors decides whether another source, or a second listing, shares it. |
| Deps.FilesByStatus | src/compiler/deps.ts:52-60 | The files with one of the statuses, each once. |
| Deps.CollectSharedContributors | src/compiler/deps.ts:66-85 | Adds exactly the co-owners of the source's recorded concepts that are neither changed nor deleted. |
| Deps.FindAffectedSources | src/compiler/deps.ts:102-120 | Exactly the sources that co-own a recorded concept with a changed one and are themselves neither changed nor deleted, each once. |
| Deps.CollectFreshSlugs | src/compiler/deps.ts:214-229 | Exactly the extracted slugs that the extracting source had not recorded. |
| Deps.FindSlugOwners | src/compiler/deps.ts:235-252 | Exactly the owners of some of the slugs outside both exclusion lists, each once. |
| Deps.FindLateAffectedSources | src/compiler/deps.ts:265-276 | Exactly the owners of freshly gained slugs that are neither compiling nor deleted, each once. |
| Deps.FindSharedConcepts | src/compiler/deps.ts:286-304 | The recorded concepts that another source, or a second listing of the same source, shares. |
| Deps.FindFrozenSlugs | src/compiler/deps.ts:132-159 | The persisted frozen slugs and those that a deleted source of the given state shares. |
| Deps.FreezeFailedExtractions | src/compiler/deps.ts:316-334 | Every source whose extraction came back empty keeps its concepts under a blank hash, and those concepts are frozen; nothing else changes. |
| Deps.PersistFrozenSlugs | src/compiler/deps.ts:171-207 | A frozen slug stays unless all its current owners were compiled with concepts and it was extracted. |
| Orphan.MarkOrphaned | src/compiler/orphan.ts:36-62 | Orphans exactly the pages of the concepts that the source alone lists, once, and drops its entry from the draft. |
| Orphan.SafeNameIsOneComponent | src/profile/identity.ts:46-48 | The names whose pages can be orphaned: not empty, not hidden, and split by no separator, space or null. |
| Orphan.MarkDeletedAsOrphaned | src/compiler/index.ts:490-498 | The pages after the whole deletion loop, each step reading the draft that the previous one changed; exactly the deleted entries are gone. |
| Orphan.OrphanedExactly | src/compiler/orphan.ts:36-62 | For every order of deletion: a slug is orphaned exactly when some deletion removes its last owner and that owner lists it once. |
| Orphan.OrphanedIffAllOwnersDeleted | src/compiler/orphan.ts:36-62 | Without duplicate listings, a slug is orphaned exactly when it has owners and all of them are deleted; a survivor keeps the page. |
| Orphan.OrphaningIgnoresOrder | src/compiler/index.ts:490-498 | Without duplicate listings, every order of the same deletions orphans the same slugs and leaves the same entries. |
| Orphan.EveryOrderOrphansExactly | src/compiler/orphan.ts:36-62 | With duplicate listings the order matters: a slug that lost all owners is orphaned in every order if and only if none of them lists it twice. |
| Orphan.OrphanUnownedFrozenPages | src/compiler/orphan.ts:74-96 | Orphans exactly the frozen pages that no source of the current draft lists. |
| Merge.ReconcileConceptMetadata | src/compiler/extraction-merge.ts:35-63 | The reconciled concept of two contributions, as the fold that the next results are about. |
| Merge.MergeExtractions | src/compiler/extraction-merge.ts:79-127 | Every slug that is extracted and not frozen appears once, in order of first appearance, with its sources in extraction order and all contributions reconciled; no frozen slug appears. |
| Merge.OrderOfFirstAppearance | src/compiler/extraction-merge.ts:79-127 | The merged concepts stand at the first contributions of their slugs, from left to right, and at all of them whose slug is not frozen. |
| Merge.FoldIsPessimistic | src/compiler/extraction-merge.ts:23-66 | Over any number of contributions: the confidence is the lowest one stated, or none; contradictions are the union by slug; two or more contributions are marked as merged. |
| Merge.FoldKeepsFirstReasons | src/compiler/extraction-merge.ts:54-64 | The reconciled references are the first contribution's own and then, in order, the first reference of every other slug with its reason; their slugs are distinct if the first contribution's are. |
| Merge.FoldIgnoresOrder | src/compiler/extraction-merge.ts:35-66 | Confidence, contradictions and contributing sources do not depend on the order of the contributions. |
| ExtractionPhase.ExtractSources | src/compiler/extraction-phase.ts:50-65 | A batch succeeds exactly when every extraction does, and then returns one result per file in input order. |
| ExtractionPhase.RunExtractionPhases | src/compiler/extraction-phase.ts:74-92 | The direct batch followed by exactly the sources that share a freshly gained concept; one failure in either batch fails the phase. |
| Pending.CollectPendingSourceHashes | src/compiler/index.ts:471-479 | For every file that a candidate names, the hash that the latest of them holds; it is what the next rows track through page generation. |
| ChangePlan.MarkUnchangedPendingSources | src/compiler/index.ts:458-468 | Exactly the new or changed files whose digest a pending candidate holds become unchanged, in place. |
| ChangePlan.AugmentWithAffectedSources | src/compiler/index.ts:369-402 | The affected files are appended as changed, in order. |
| ChangePlan.PlanChanges | src/compiler/index.ts:364-373 | Detection, filter, pending marks, affected sources and buckets together: the files to compile are the direct changes and their co-owners, each once, and the deleted ones are the recorded files that are gone and pass the filter. |
| Pipeline.LateFiles | src/compiler/index.ts:409-423 | Whether deleted sources have already left the draft makes no difference to the second batch. |
| Pipeline.ToFiles | src/compiler/extraction-merge.ts:79-127 | The sources merged into a slug are exactly those whose extraction yields it. |
| Pipeline.ExtractBatch | src/compiler/extraction-phase.ts:74-92 | No source is extracted twice, and the batch is the direct changes, their undeleted co-owners, and the undeleted owners of every slug that a first-batch source newly gains. |
| Generation.Overwritten | src/compiler/review-pipeline.ts:60-98 | Pages generated again overwrite what an earlier generation did to the candidates: the two together do what one generation does in which each page comes where it came last. |
| Generation.HashesAfterPages | src/compiler/review-pipeline.ts:60-98 | After any pages are generated, a source of a held one is covered at its current digest, and any other file exactly as the candidates for pages that were not generated have it. |
| Pipeline.BuildExtractionSourceStates | src/compiler/source-state.ts:37-50 | The current digest of every source that yielded concepts, and of no other. |
| Pipeline.GenerateMergedPage | src/compiler/review-pipeline.ts:60-98 | One page: a held one replaces the candidates for its concept by one that holds the digests of its sources, a live one deletes them, and one that throws or is invalid leaves them; in a review run every rendered page is held. |
| Queue.CompletedRunQueues | src/compiler/review-pipeline.ts:60-98 | After a run that came to its end, from the mode and what became of each page: a merged concept has exactly one candidate, with the digests of the batch sources that yield it, if the run is a review run or the policy holds the page; none if the page is live; its earlier ones if the page is invalid. Candidates for other targets are as they were. |
| Queue.ReviewRunQueues | src/compiler/review-pipeline.ts:73-79 | A review run leaves exactly one candidate for every merged concept, with the digests of its sources, and leaves state and pages alone. |
| Queue.AnyRunQueues | src/compiler/review-pipeline.ts:60-98 | After any run, failed and dying ones included, the candidates for each target are as before or as the page asks for. |
| Pipeline.GeneratePages | src/compiler/index.ts:150-193 | One page per merged slug; the run fails exactly when generating one throws, and otherwise the written pages are those generated as live. After a failure any of the other pages may still be generated, and each that is changes the candidates. |
| Pipeline.BuildLiveSlugsForSource | src/compiler/index.ts:256-266 | A slug is live for a source exactly when a written page names both. |
| Pipeline.PersistExtractionStates | src/compiler/index.ts:238-283 | Every source that yielded concepts gets its current digest and exactly those of its slugs that were written; other entries stay. |
| Pipeline.FrozenNeverThaws | src/compiler/deps.ts:171-208 | What a compiled source records is never frozen, so no frozen slug meets the condition for thawing. |
| Pipeline.Commit | src/compiler/index.ts:441-450 | Page writes, source entries, frozen orphans, frozen set and the single flush reach the state and pages of `NextState` and `NextPages`; a run that dies before the frozen orphans or before the flush leaves the state file as it was, and exactly the pages written so far. |
| Pipeline.CompileBatch | src/compiler/index.ts:416-450 | After the deletions: a failed extraction leaves everything as it was; a failed or interrupted generation leaves pages and state file as they were, and candidates that some of the pages changed; a run that dies after its page writes leaves the pages without the state; otherwise the new state, pages and candidates are reached, or, in review mode, the candidates only. |
| Pipeline.RunCompilePipeline | src/compiler/index.ts:353-455 | A whole run over any state, pages, candidates, disk, filter, extraction, page generation and place to die is a `Step`: nothing to do, a failure after the deletions, an end between two of its writes, or each batch source extracted once and the next state and pages; and in all of these what became of the candidates. |
| CompileRuns.FrozenAfterRun | src/compiler/index.ts:413-445 | A completed run adds to the frozen set exactly what its empty extractions had recorded; deletions freeze nothing and nothing thaws. |
| CompileRuns.FrozenForever | src/compiler/deps.ts:171-208 | Over every sequence of runs: a frozen slug stays frozen, and its page is never regenerated, only possibly orphaned. |
| CompileRuns.ProtectedIff | src/compiler/deps.ts:122-159 | The concepts that a run keeps from regeneration, by listings: those frozen already; in a review run those that a deleted source lists beside another one, or twice; in a run that writes those on record for a source of the batch whose extraction came back empty. |
| CompileRuns.UnflushedRunKeepsRecordedPagesIff | src/compiler/index.ts:409-450 | A run that fails or dies before its state write keeps each recorded concept on a page that is not orphaned exactly when it orphans no such page: by the deletions it got to, or as frozen and left without owner in the draft; a page it wrote is live again. |
| CompileRuns.RunKeepsRecordedPages | src/compiler/index.ts:353-455 | Every run, completed or not, keeps that invariant, but one that does not write its state after orphaning a page in this way. |
| CompileRuns.FailedRunKeepsRecordedPagesIff | src/compiler/index.ts:409-423 | Without double listings: a failing run keeps the invariant exactly when no safe-named page lost all its recorded owners, whatever the order of the deletions. |
| CompileRuns.RecordedPagesStayLive | src/compiler/index.ts:353-455 | The invariant holds along every sequence of runs, failing and dying ones included, that starts without recorded sources and has no run that loses a page in this way. |
| CompileRuns.UnownedAfterRunIff | src/compiler/orphan.ts:74-96 | A frozen concept is left without owner exactly when the run compiles every surviving owner to some concepts. |
| CompileRuns.YieldedPageOrphanedIff | src/compiler/index.ts:409-445 | A completed run orphans a live page that a batch source has just yielded exactly when the name is safe and either the concept is frozen and every surviving owner was compiled to some concepts, or it is not frozen, its new page is not written, and the deletions removed its last owner. |
| Interruptions.AbsorbedStep | src/compiler/index.ts:409-450 | A run that failed or died before its state write leaves no trace in the state and the pages: a next run with the same direct changes that repeats it (extracts and generates again what the first one did, as far as that came and did not fail) makes the very step it would have made before, exactly when it settles the pages that only the first run's order of deletions orphaned. There are none in the same order, or if no source lists a concept twice. |
| Interruptions.AgreementRepeats | src/compiler/index.ts:409-450 | It repeats the first run, in particular, if extraction and page generation agree wherever those of the first run did not fail; what failed may end in any way. |
| Interruptions.AbsorbedCandidates | src/compiler/review-pipeline.ts:60-98 | The candidates after both runs are those that the second can leave in place of the first; pages that threw left none. |
| Interruptions.InterruptionsLeaveNoTrace | src/compiler/compile-state-draft.ts:4-10 | However often a compile fails or dies before its flush, a last run that comes to its end and repeats the others makes the single step that it would have made in place of the first, if those left candidates that keep the direct changes: same batch, state, pages and candidates, and recorded concepts have live pages if they had before. All runs process the deletions in one order, or no source lists a concept twice. |
| Interruptions.RerunReachesSameState | src/compiler/compile-state-draft.ts:4-10 | Under the same condition on the candidates, whatever the orders of deletion: the last run extracts the same batch and reaches the same state as in place of the first. |
| Interruptions.RepeatedFailureHealsNothing | src/compiler/index.ts:409-423 | A failure that repeats heals nothing: with the same extraction and page generation the rerun fails again, and a recorded concept without a live page stays so. |
| Interruptions.StrayPageStays | src/compiler/index.ts:441-450 | What a rerun does not repeat stays: a live page of a concept that no source records and that is not frozen, such as one that a dying run published, is left as it is by every run that does not publish it. |
| Reruns.SameChangesIff | src/compiler/index.ts:458-468 | The exact condition: the rerun has the direct changes of the run before it if and only if none of these is covered by what that run left of the candidates, and no new or changed file that passes the filter and was covered has lost its cover. Covered means: source of a page that was held, or covered by a candidate for a page that was not generated. |
| Reruns.UntouchedCandidatesKeepChanges | src/compiler/review-pipeline.ts:60-98 | What can be checked beforehand: if no page that the batch of the last run yields can be held and none has a candidate waiting, the condition holds for every history of failed and interrupted runs. |
| Exposure.EveryInterruptionKeepsChangesIff | src/compiler/review-pipeline.ts:60-98 | The same for every death at once, as an exact condition on the batch and the waiting candidates: whatever pages are generated before the run dies, the next one has the same direct changes, if and only if each covered file is named by a candidate that no page of the batch removes without being held from the file, and has its digest in every candidate that removals can expose, and each other file has no held page and its digest in none of these. |
| Exposure.PartIsInterruption | src/compiler/index.ts:150-193 | Every set of pages of the batch, in every order, is what some run leaves that dies while it generates them. |
| Reruns.HeldPageHidesChange | src/compiler/compile-state-draft.ts:4-10 | The promise of a rerun fails: a changed source yields a page that is held and one that is not, and the run dies during generation. Every later run on the same disk has nothing to do, also once the held page is approved, and the other page is never written. |
| Reruns.LivePageUncovers | src/compiler/candidates.ts:265-273 | It fails without a review policy too: generating a live page deletes the candidate that covered another source, so the run after the interruption compiles a larger batch. |
| Reruns.OtherOrderLosesPage | src/compiler/orphan.ts:36-62 | With a double listing, two orders of the same deletions of which the first orphans a page that a rerun in the second does not bring back. |
| Interruptions.InterruptedRunLosesPage | src/compiler/index.ts:441-450 | A state and run that break the invariant: the run orphans the page of a frozen concept that its changed source still yields, and dies with the concept still recorded. |
| CompileRuns.SecondCompileHasNoWorkIff | src/compiler/index.ts:364-376 | On an unchanged disk, a second full compile re-extracts directly exactly the sources that the first one left stale and that no candidate covers now: those whose extraction came back empty, and the new or changed ones that a candidate covered then and that were not drawn in. It has no work exactly when there is none. |
| Regeneration.CompiledIff | src/compiler/deps.ts:102-120 | A surviving owner of a concept is compiled exactly when it changed, or a directly changed source had one of its concepts recorded, or a first-batch source gains one of them. |
| Regeneration.RegeneratedFromAllOwnersIff | src/compiler/deps.ts:87-120 | All surviving owners of a concept are compiled exactly when a directly changed source had it recorded, or a first-batch source gains it, or each owner is compiled for another reason. |
| Regeneration.LosesContributorIff | src/compiler/deps.ts:87-120 | A published page loses an owner exactly when only sources outside the direct changes yield its concept (affected ones that had it recorded, or late ones, recorded or not) and some surviving owner is not compiled for another reason. |
| Regeneration.OneHopLosesContributor | src/compiler/deps.ts:102-120 | The closure is one hop: a state in which an affected source's other shared page is regenerated without a live owner. |
| Regeneration.LateGainLosesContributor | src/compiler/deps.ts:214-229 | The fresh slugs are those of the first batch: a state in which a late source newly yields a slug, whose page is regenerated without its live owner. |
| Regeneration.DeletionLosesContributor | src/compiler/index.ts:409-416 | A state in which a live run regenerates a page shared with a deleted source from the surviving source alone, where a review run would not. |
| Regeneration.EmptyThenYieldedOrphans | src/compiler/index.ts:441-445 | Two completed runs: an empty extraction freezes the concept, and the next good one orphans the page that it has just yielded. |
| Refresh.OwnersAreRecorded | src/compiler/refresh-plan.ts:66-74 | The owners of a page are exactly the recorded sources that list it, each with whether it is missing or drifted. |
| Refresh.PageClassification.ClassifyOnePage | src/compiler/refresh-plan.ts:99-166 | The page joins exactly the list of its action, and its drifted and missing owners join the owner sets. |
| Refresh.ClassifyPages | src/compiler/refresh-plan.ts:86-102 | Each scanned page is in one list at most, and the owner sets are the drifted and the missing owners of scanned pages. |
| Refresh.KnownAffectedFor | src/compiler/refresh-plan.ts:176-186 | The co-owners that a compile seeded with these owners pulls in. |
| Refresh.ResolveStaleRefresh | src/compiler/refresh-plan.ts:143-168 | The plan's owner sets, affected sources, skipped new sources and filter, from a snapshot listed in any order. |
| Refresh.NewSourcesSkipped | src/compiler/refresh-plan.ts:188-214 | A refresh neither compiles nor records a source that was not recorded before. |
| Refresh.PlanPredictsRun | src/compiler/refresh-plan.ts:143-214 | With no covering candidate: the changed owners are the run's direct changes, the deleted owners its deletions, and changed owners plus known affected its first batch. |
| Refresh.AffectedMissingIff | src/compiler/refresh-plan.ts:178-214 | A missing source is among the known affected ones exactly when it owns no scanned page and shares a concept with a drifted owner of one. |
| Refresh.FirstBatchOnDiskIff | src/compiler/refresh-plan.ts:178-214 | The sources that a refresh compiles first are all on disk exactly when there is no such source. |
| Refresh.BlockedRefreshAborts | src/compiler/extraction-phase.ts:98-117 | With such a source the refresh fails and leaves the state as it was, so the next one fails too. |
| Refresh.RefreshRepairsExactly | src/compiler/refresh-plan.ts:86-214 | After a completed refresh, the owners of a scanned page that are still missing or drifted are exactly its recorded owners whose extraction came back empty. |
| Refresh.PlanActsOnStalePages | src/compiler/refresh-plan.ts:105-133 | A page is acted on exactly when some owner is missing or drifted, and is computed as orphaned only if all are missing. |
| Refresh.ActionByOwners | src/compiler/refresh-plan.ts:105-133 | Each list by the owners on disk: recompiled if one of them changed, whatever else is gone; kept if none changed and some owner is gone; computed as orphaned if all are gone. |
| Refresh.ActionInRun | src/compiler/refresh-plan.ts:105-133 | A scanned page is listed as recompiled exactly when one of its owners is a direct change of the run; a kept one loses an owner to the run's deletions, and a page computed as orphaned all of them. |
| Refresh.RefreshActsOnUnfreshPages | src/freshness/index.ts:38-53 | Among pages not marked orphaned, the plan recompiles or keeps exactly those that every reading surface computes as stale, recomputes as orphaned exactly those computed as orphaned, and leaves the fresh ones. |
| Refresh.RefreshMakesFresh | src/compiler/refresh-plan.ts:1-9 | After a completed refresh without empty extractions, every scanned page that is not marked orphaned computes as fresh, or has no recorded source left. |
| ContextTrim.PackDraft.Clone | src/context/budget.ts:108-110 | The loops work on a copy with the pack's value. |
| ContextTrim.PackDraft.TrimNeighbors | src/context/budget.ts:99-127 | Neighbors are dropped from the end until the pack fits or none is left; the section is reported exactly when one was dropped. |
| ContextTrim.PackDraft.TrimPageItems | src/context/budget.ts:136-162 | The loops over source windows and over chunks follow the schedule within their section, bottom-ranked page first. |
| ContextTrim.PackDraft.TrimTiersAt | src/context/budget.ts:177-185 | One page of the tier walk, with the key of an emptied list deleted. |
| ContextTrim.PackDraft.TrimContentTiers | src/context/budget.ts:102-127 | The tier walk follows the schedule, except that a pack that already fits still loses the key of an empty list on its lowest page with tiers. |
| ContextTrim.PackDraft.TrimPrimary | src/context/budget.ts:103-127 | Pages are dropped from the end until the pack fits or none is left. |
| ContextTrim.TrimToBudget | src/context/budget.ts:93-105 | The five loops together, for any size function; the reported sections are exactly those whose loop deleted something, in the documented order, and those that lost something unless an empty tier key is lost early. |
| ContextTrim.FirstFitBySection | src/context/budget.ts:99-103 | Trimming section by section follows one schedule over all sections. |
| ContextTrim.TrimmedIsFirstFit | src/context/budget.ts:93-199 | A pack without empty tier lists is trimmed to the first pack of the schedule that fits, or to the fully drained one. |
| ContextTrim.TrimmedIsFirstFitIff | src/context/budget.ts:172-187 | In general this holds if and only if the pack does not both fit after the chunks and end in an empty tier list. |
| ContextTrim.FirstFitIsEarliest | src/context/budget.ts:74-92 | The result is reached after the least number of deletions for which the pack fits. |
| ContextTrim.ScheduleCuts | src/context/budget.ts:74-92 | After any number of deletions: only list ends are missing, a section is touched only when all earlier ones are drained, and a page loses items only when all lower-ranked pages have none left in that section. |
| ContextTrim.TrimmedIsCut | src/context/budget.ts:93-199 | The trimmed pack is such a cut of the original. |
| ContextTrim.StagesAreLost | src/context/budget.ts:93-105 | The sections whose loops deleted something are those that hold less than before, for a pack that loses no empty tier key early. |
| ContextTrim.ApplyContentTiers | src/context/content-tiers.ts:54-77 | Each page gets the tiers that its record resolves, keeps what it had if there are none, so that no empty list is produced, and nothing else of it changes. |
| ContextBudgeting.AnnotateGraphNeighbors | src/context/build.ts:338-363 | The loop over edges marks exactly the ranked pages at an end of an edge between two ranked pages. |
| ContextBudgeting.ReconciledExactly | src/context/build.ts:372-390 | After trimming, a page carries the graph-neighbor reason exactly when an edge links it to the pages that were kept; its other reasons stay. |
| ContextBudgeting.ReconcileOnlyDrops | src/context/build.ts:338-390 | Reconciling a cut of an annotated draft never adds a reason. |
| ContextBudgeting.ShippedText | src/context/build.ts:557-592 | The shipped text is the measured one plus the digit that the estimate may gain, minus the character that the truncated flag saves when the estimate alone sets it. |
| ContextBudgeting.EstimateWithinOneToken | src/context/build.ts:557-592 | For every pack, with the sections that the trim reports: the estimate is within one token of the shipped pack's, and the truncated flag is set exactly when a section was trimmed or the estimate exceeds the request. |
| ContextBudgeting.ShippedIsFirstFit | src/context/build.ts:557-592 | A draft without empty tier lists is shipped, up to graph-neighbor reasons, after the least number of deletions that brings its text down to four characters for each token requested, or after all of them. |
| ContextBudgeting.EstimateIsCeiling | src/context/budget.ts:40-45 | The estimate is the least number of tokens that hold the text at four characters each. |
| ContextBudgeting.BudgetTextIsLength | src/context/build.ts:575-597 | What the budget block adds to the measured text is the length of its values written as JSON. |
| ContextBudgeting.ShippedReportsLosses | src/context/build.ts:557-592 | By the sizes of draft and shipped pack alone: `trimmedSections` lists in the documented order exactly the sections that hold less than in the draft, `truncated` is set whenever one does, and every shipped page carries the reason exactly if an edge links it to another shipped page. For every draft that loses no empty tier key early. |
| ContextBudgeting.FittedTrimExceedsByBudgetBlock | src/context/build.ts:557-592 | After a trim that fitted, the shipped text exceeds the request only by the section list and the estimate's digits. |
| AddressSpellings.ExpandSpelling | src/connectors/private-address.ts:64-90 | Every spelling of section 2.2 of RFC 4291 (full or with any run of groups compressed, leading zeros in fields, either case, dotted tail) and every one that takes a liberty, with or without zone, expands to its eight hextets. |
| AddressSpellings.SpellingsAgree | src/connectors/private-address.ts:31-40 | Every spelling, also in brackets, gets the class of its hextets. |
| AddressParsing.ExpandsExactly | src/connectors/private-address.ts:64-90 | A text expands to eight hextets if and only if it spells them in the parser's grammar, with any zone. |
| AddressLiberties.ExpandsRfcAndLiberties | src/connectors/private-address.ts:64-90 | A text expands exactly when it is a spelling of section 2.2 of RFC 4291, or stands "::" for no group, or has leading zeros in an octet of a dotted tail; what takes a liberty is no spelling of the RFC in any reading. |
| AddressLiberties.ReadingIsUnique | src/connectors/private-address.ts:64-90 | A text has at most one reading as address and zone. |
| AddressLiberties.LeadingZerosInOctets | src/connectors/private-address.ts:77-83 | Leading zeros in the octets of a dotted tail: no spelling of section 2.2 of RFC 4291, yet the text expands as it does with the octets in standard form. |
| AddressLiberties.ZeroBeforeQuad | src/connectors/private-address.ts:46-48 | A zero before a dotted address leaves its parts, but not its standard form: every dotted tail has such spellings. |
| AddressLiberties.DoubleColonForNoGroup | src/connectors/private-address.ts:64-75 | Eight fields with a "::" besides are not a spelling of section 2.2 of RFC 4291, yet they expand to their values. |
| AddressSpellings.ReplaceText | src/connectors/private-address.ts:77-83 | Replacing a dotted tail gives the spelling of the same address without one. |
| AddressSpellings.MappedIsJudgedByIpv4 | src/connectors/private-address.ts:102-105 | The mapped form (section 2.5.5.2 of RFC 4291) of every IPv4 address has the class of that address. |
| AddressSpellings.CompatibleIsJudgedByIpv4 | src/connectors/private-address.ts:107-122 | The compatible form (section 2.5.5.1 of RFC 4291) of every IPv4 address has the class of that address. |
| AddressSpellings.Nat64IsJudgedByIpv4 | src/connectors/private-address.ts:107-117 | The NAT64 form (section 2.1 of RFC 6052) of every IPv4 address has the class of that address. |
| AddressSpellings.SixToFourIsJudgedByIpv4 | src/connectors/private-address.ts:107-112 | The 6to4 form (section 2 of RFC 3056) of every IPv4 address, with any rest, has the class of that address. |
| AddressSpellings.EmbeddedIpv4JudgedAlike | src/connectors/private-address.ts:31-40 | A dotted IPv4 text and every spelling of every IPv6 address that embeds it in one of these forms are classified alike. |
| AddressSpellings.PrivateIpv4Blocks | src/connectors/private-address.ts:15-62 | The range table is the union of twelve address blocks given by base address and size. |
| AddressBlocks.PrivateIpv6Blocks | src/connectors/private-address.ts:92-100 | By the 128-bit number: the range test holds exactly on ::/128, ::1/128, fc00::/7, fe80::/10, ff00::/8 and 2001:db8::/32. |
| AddressBlocks.PrivateIpv6Exactly | src/connectors/private-address.ts:92-122 | An IPv6 address is private exactly when its number lies in one of these blocks or it embeds (mapped, compatible, NAT64, 6to4) an IPv4 address that lies in one of the twelve. |
| AddressBlocks.PublicExactly | src/connectors/private-address.ts:31-40 | For any text at all: it is public exactly when it reads as an address of either kind, alone or embedded in no private block; what cannot be read is private. |
| LineNumbers.ShownWithinBudget | src/compiler/prompt-budget.ts:59-79 | What the prompt shows of each source: the whole if all texts together fit in the budget, else its first characters up to an equal share (at least one), with the marker exactly if something is missing. In total never more than the larger of the budget and the number of sources. |
| PromptReading.PromptReadsBack | src/compiler/prompt-budget.ts:113-117 | Read back from the combined text, under each header the numbered lines without their numbers: exactly the files and texts that are shown, for any contents and any file names without a line break. |
| LineNumbers.ParseNumbered | src/compiler/citation-normalize.ts:29-50 | The number pattern reads back the number that the printer put before any line. |
| LineNumbers.NumberedLineReads | src/compiler/citation-normalize.ts:29-50 | Every line of spaces, digits, spaces and a bar, with anything behind it, reads as the number of its digits. |
| LineNumbers.OnlyNumberedLinesRead | src/compiler/citation-normalize.ts:29-50 | And no other line does. |
| LineNumbers.MaxLineNumber | src/compiler/citation-normalize.ts:36-46 | The running maximum is the highest number on any line. |
| LineNumbers.LinesOfNumbered | src/compiler/prompt-budget.ts:85-91 | The printed text splits back into one numbered line per source line. |
| LineNumbers.HighestOfSlices | src/compiler/prompt-budget.ts:85-117 | The highest number in the combined text is the line count of the longest source shown, whatever the headers and texts. |
| LineNumbers.ClippedLines | src/compiler/prompt-budget.ts:75-79 | A clipped source shows the lines of its kept text and two more, the marker's. |
| Citations.BareIsEntry | src/compiler/citation-normalize.ts:20-27 | Every text that the pattern takes for a bare line range, trimmed, is a list of digit runs and ranges with spaces around the commas. |
| Citations.BareEntrySurvivesIff | src/compiler/citation-normalize.ts:57-109 | On a page with one source, every bare entry (any spaces around its commas and ends, any leading zeros) is repaired exactly when all its segments are forward and within the lines, and dropped otherwise. |
| Citations.BareEntryIsAmbiguous | src/compiler/citation-normalize.ts:81-109 | On a page with several sources (or none) every bare entry is dropped. |
| Citations.SourceEntryStays | src/compiler/citation-normalize.ts:89-93 | An entry whose file is one of the page's sources stays as it is, trimmed, whatever follows the first colon or hash. |
| Citations.OtherEntryStays | src/compiler/citation-normalize.ts:106-108 | An entry that is no list of bare segments stays as it is, whether or not it names a source. |
| Citations.BlankEntryIsDropped | src/compiler/citation-normalize.ts:86-87 | A blank entry is dropped. |
| Citations.CitationSurvivesIffShown | src/compiler/citation-normalize.ts:36-109 | Printer and parser together: a bare citation survives exactly when all its segments lie within the lines that the prompt showed of the source. |
| Citations.CitableLines | src/compiler/prompt-budget.ts:59-82 | How many lines that is: all of a source within the budget, else those of the kept text and the marker's two, whether or not the source has them. |
| Supersede.CandidateStore.TryArchiveCandidate | src/connectors/run.ts:360-366 | Both areas after one move, for each way a move can end, among them a copy that was not unlinked and an empty copy. |
| Supersede.CandidateStore.RestoreArchivedCandidates | src/connectors/run.ts:369-377 | No id leaves both areas, other pending records stay, and when every move succeeds the listed records are back. |
| Supersede.CandidateStore.ArchiveCandidatesWithUndo | src/connectors/run.ts:347-357 | It succeeds exactly if every move does. Under any pattern of failures no id leaves both areas; success moves exactly the listed records, and a compensated failure leaves the pending area as it was. |
| ConnectorStaging.WriteCandidate | src/compiler/candidates.ts:147-158 | The record takes the place of all pending candidates for its target, under the id of the earliest; when a deletion throws, exactly the duplicates before it are gone. |
| ConnectorStaging.WriteFreshCandidate | src/compiler/candidates.ts:161-169 | One record is added under a fresh id. |
| ConnectorStaging.StagePreparedDraft | src/connectors/run.ts:295-322 | The result from the inputs, both ways: a no-op exactly if the key's content is already pending and preflight and audit succeed; unavailable exactly if it is not and there is no profile or an archiving move fails after the preflight; superseded or staged exactly if all succeeds, by whether the key has earlier candidates; else it throws. And the queue it leaves: unchanged, compensated, superseded or staged, by how far it came. |
| ConnectorStaging.AloneInQueue | src/connectors/run.ts:313-321 | After staging, also if it died while deleting duplicates, the draft is the only readable pending candidate of its idempotency key. |
| ConnectorStaging.RestagingIsNoopIff | src/connectors/run.ts:309-321 | After that, another draft of the key counts as already staged exactly if it has the same content. |
| ConnectorStaging.FirstStagingKeepsOthersIff | src/compiler/candidates.ts:127-158 | A first staging keeps all other pending records if and only if none is pending for the same target; no id leaves both areas if and only if all candidates for that target but the reused one are archived. |
| ConnectorStaging.EarliestIsReused | src/compiler/candidates.ts:127-158 | The draft takes the id of the first listed candidate for its target, and the fresh id if there is none. |
| ConnectorStaging.SlugsCollide | src/connectors/run.ts:417-420 | Source ids that differ only outside the slug alphabet get one slug, so their drafts share a target under different keys. |
| ConnectorStaging.SlugOfTwoWords | src/connectors/run.ts:417-420 | Two words with any other characters in between become the words with one hyphen, one word with such characters on one side stays alone, and none at all becomes `source`. |
| Review.ReviewStore.ApproveUnderLock | src/commands/review-approve.ts:85-119 | The store and result of one approval, for every refusal and every point at which an exception strikes. |
| Review.ReviewStore.RouteApprovedPageWrite | src/commands/review-approve.ts:144-264 | The page is written in full or not at all. |
| Review.ReviewStore.PersistCandidateSourceStates | src/commands/review-approve.ts:276-285 | The slug is added to the listed sources in order, up to where an exception strikes. |
| Review.ReviewStore.AddApprovedSlugToSourceState | src/commands/review-approve.ts:292-307 | The slug joins the recorded concepts of one source, without duplicates, under the candidate's hash. |
| Review.ReviewStore.RejectUnderLock | src/commands/review-reject.ts:33-42 | Both areas and the result of one rejection, for each way the move can end; a candidate that is gone changes nothing. |
| Review.RejectKeepsRecordIff | src/compiler/candidates.ts:275-284 | A rejection leaves the record in one of the areas unless it was copied from a failed read, succeeds and consumes the candidate exactly when the move is done, and touches no page, no source state and no other record in either area. |
| ReviewEffects.ApprovalAnswers | src/commands/review-approve.ts:85-119 | The answer of an approval from what it finds, both ways: gone, pin mismatch, written (approved, or failed after the write by the place of the exception); an approval that wrote no page left everything as it was, and only an approved candidate leaves the queue. |
| ReviewEffects.PageIsLastWritten | src/commands/review-approve.ts:85-264 | After any work in any order: each page has the body that the last approval which wrote it found, and one that none wrote is as it was. |
| ReviewEffects.HashIsLastApproved | src/commands/review-approve.ts:266-307 | After any work in any order: each source is recorded under the hash that the last approval which updated it held for it, and one that none updated under the hash it had. |
| ReviewProtocol.RunsAreSerial | src/commands/review-helpers.ts:35-58 | In every interleaving of any number of approvals, rejections and writers that replace a candidate, at most one process acts at a time, each acts once at most, and the store is that of doing the logged work one after the other. |
| ReviewProtocol.PreCheckIsExact | src/commands/review-helpers.ts:35-58 | The check without the lock turns a review command away exactly when acting at that moment would find no candidate, and changes nothing. |
| ReviewProtocol.FoundIsLastWritten | src/commands/review-approve.ts:85-117 | What an approval or rejection finds under an id that is still pending is the record from the start or the one that the last replacement wrote. |
| ReviewProtocol.ConsumedOnce | src/commands/review-approve.ts:85-117 | A candidate that was approved or rejected is gone for all later work. |
| ReviewProtocol.RejectedWrittenOnlyByFailedTail | src/commands/review-approve.ts:85-117 | The page of a rejected candidate was written only by approvals that failed after the write, all before the rejection. |
| ReviewProtocol.CrashFreeRejectedNeverWritten | src/commands/review-approve.ts:85-117 | Without exceptions, a rejected candidate never had its page written by an approval. |
| ReviewProtocol.FailedTailThenRejected | src/commands/review-approve.ts:104-117 | For every pending candidate that its pin admits: an approval that fails while refreshing, then a rejection, leaves the page written and the candidate rejected. |
| ReviewProtocol.WrittenBodyMatchesPin | src/commands/review-approve.ts:119-131 | Whoever replaced the record since it was inspected: an approval writes the body that it finds, and of a connector candidate only a body whose hash is the supplied pin. |
| ReviewProtocol.ReplacedBodyWrittenIff | src/commands/review-approve.ts:85-131 | A record replaced between inspection and approval, under the hash of the inspected body: it is approved exactly when it is no connector candidate or has a body with that hash; otherwise nothing changes. |
| ReviewProtocol.ConceptsAreEarlierAndApproved | src/commands/review-approve.ts:266-307 | The recorded concepts of a source are the earlier ones and exactly the slugs that approvals recorded for it, also when some failed on the way. |
| ReviewProtocol.ConceptsOfCrashFreeWork | src/commands/review-approve.ts:266-307 | Without exceptions these are, in any order and mixed with rejections, exactly the approved default slugs that list the source. |
| Watch.Watcher.ScheduleCompile | src/commands/watch.ts:72-80 | A file event clears the timer and arms exactly one other. |
| Watch.Watcher.TriggerCompile | src/commands/watch.ts:58-70 | The callback starts a compile, or queues one while another runs. |
| Watch.Watcher.TimerFires | src/commands/watch.ts:72-80 | A timer that fires is spent and runs the callback. |
| Watch.Watcher.CompileEnds | src/commands/watch.ts:63-69 | When a compile ends, failed or not, a queued one starts at once. |
| Watch.WatchIsSafe | src/commands/watch.ts:45-80 | In every interleaving of events, timers and compile ends: at most one compile runs, at most one timer is armed, no more compiles start than events arrived, and when idle some compile started after each event, by the steps of the run alone. |
| Watch.WatchDrains | src/commands/watch.ts:45-80 | When events stop, the loop makes at most four more steps, and as long as it is not idle it can make one. |
| Artifacts.HealthyIff | src/artifacts/resolve.ts:103-137 | A ref is healthy exactly when its type is declared, the bytes have the pinned hash and meet the contract, and the manifest is honest about identity, kind, length and hash. |
| Artifacts.HealthFromFiles | src/artifacts/resolve.ts:103-137 | Each other health by the two files: dangling, unreadable, store unavailable, hash mismatch and schema invalid, each exactly when; what is left is tampered. |
| Artifacts.HealthyBodyIsUnique | src/artifacts/resolve.ts:70-81 | A ref resolves healthy to one body at most, in whatever store and under whatever profile. |
| Artifacts.ByteChangeIsDenied | src/artifacts/resolve.ts:70-137 | Any change to the bytes of a healthy artifact turns the gate's verdict to a denial, never a park. |
| Artifacts.EnforceArtifactPreconditions | src/artifacts/enforce-precondition.ts:92-115 | The denied fields if there are any, else the parked ones, else a pass. |
| Artifacts.GatePassesIff | src/artifacts/enforce-precondition.ts:55-115 | The gate passes exactly when every required field pins a healthy artifact of the required type, and denies exactly when some field carries no ref of the required type or one that its files refute, whatever is parked. |
| Artifacts.GateNamesFields | src/artifacts/enforce-precondition.ts:89-115 | A denial names exactly the fields whose requirement is refused, and a park exactly those that cannot be verified, by the two files on disk. |
| Artifacts.VerdictFromFiles | src/artifacts/enforce-precondition.ts:49-61 | The verdict from the two files: denied for an unknown type, a missing file, a manifest of another artifact, or a readable body of another length or hash or against the contract; parked if the manifest or the body is unreadable, the manifest malformed, or the body over the limit as its manifest says. |
| ArtifactWrites.AlreadyAppliedIff | src/artifacts/apply.ts:119-128 | The applied-once check succeeds exactly when the ref already resolves healthy, and then to this very body. |
| ArtifactWrites.ArtifactStore.ApplyArtifactLocked | src/artifacts/apply.ts:147-170 | A write is denied, refused or turned away exactly for its contract, its grant and its targets, and then changes nothing; else it is applied if the process lives. An applied one writes exactly this artifact, and no file if it was there; a crash at any step, after recovery, leaves the whole write or none of it. |
| ArtifactWrites.ArtifactStore.ApplyThenRecover | src/artifacts/apply.ts:147-170 | A write and the recovery at the next start: no batch stays open, and the files hold the whole write or none of it. |
| ArtifactWrites.WrittenRefIsHealthy | src/artifacts/apply.ts:147-170 | The returned ref resolves healthy under the same profile and meets a requirement of its type. |
| ArtifactWrites.RewriteBreaksOldRefs | src/artifacts/resolve.ts:70-81 | Writing another body under the same key makes every ref to the old one a hash mismatch that the gate denies. |
| ArtifactWrites.WriteKeepsOtherVerdicts | src/artifacts/apply.ts:147-170 | A write changes no verdict about another artifact. |

## Left out

- CLI, rendering, templates, workflows, viewer, MCP and SDK surfaces: wiring around the kernels.
- Language model calls, prompts and embeddings: extraction is an arbitrary partial function of the file, page
  generation an arbitrary outcome per slug.
- Page contents in the compile: of a page only whether it is orphaned. That a write beyond the size or path
  floor is skipped counts as a page that is not written; for orphan writes the skip is not modelled.
- Seed pages, index, MOC, interlink resolution over all pages, embeddings refresh and logs: what they write is
  not modelled, nor candidates for seed pages, which hold no source hashes. That they can throw before the state write is (a run that dies there); one that throws after it
  leaves the state and pages of a completed run.
- A process that dies inside one journalled batch of page writes: the journal undoes the batch before the next
  run reads anything, so the model lets runs die between batches only.
- The write-back of linked pages (`rewritePage`), which goes through a replacement string with special
  characters; link results are about `addWikilinks`.
- `compiledAt` and other time stamps; the typed mirror of the state file; reading corrupt state.
- Slugs are given per concept: `slugify` is not part of this model. Iteration over objects is in arbitrary
  order, and results hold for every order.
- Concurrency inside a batch: results come in input order as the code guarantees; which extractions were
  skipped after a failure does not show in the state.
- Candidates in the compile are their target and source hashes. They are listed by time stamp, so one written
  again is the latest; a page that throws while it deletes or writes candidates counts as one that did not touch them.
- After a page threw, the concurrency limiter goes on with the queued ones, which may touch candidates after the run
  has released the lock, and so during a following run of a watch loop. The model lets any of them take effect, but
  before the failed run ends.
- Case folding is a function on characters that fixes and never produces boundary characters and carets; text is
  a sequence of characters rather than of UTF-16 units.
- JSON text is measured by an additive length: an arbitrary measure for the lists of a pack, exact for its budget
  block. Reasons of a ranked page are a set, since the code keeps them sorted and distinct.
- `normalizeCitations` over a whole body: the split of a marker into entries is not part of this model; one entry is.
- Random candidate ids are taken to be fresh.
- The lock, the journal and its recovery are contracts: mutual exclusion, and an open batch undone from its
  pre-state. DNS, HTTP, path confinement and symbolic links are not modelled.
- SHA-256 is an arbitrary function, taken to be injective where two bodies are compared by their hash.
- Parsing of artifact refs and of profile contracts: refs are given per field, the content contract is a predicate.
- Rule candidates, session adapters, connector configuration, rate limits: easy members next to the above.
- WikilinkReading.ResultReadsAs: its links are pairs of double brackets with no bracket in between; the repository's
  own patterns start at the first double bracket and take the slug of the target, which is not part of this model. An
  index with a bar in a slug is left out: there the target of a link ends early.
- WikilinkCaret.SoundExactly: of an index in which each caret title that another title follows has an earlier title
  as a word, it does not say whether every body is rewritten soundly. `WikilinkShadow.SoundExactlyUnshadowed` drops
  the titles shadowed by the one kept before them first.
- WikilinkShadow.SoundExactlyUnshadowed: open where, among the titles left, each caret title that another follows has
  an earlier one as a word: titles in between can make new word boundaries for it, and overlapping mentions can hide
  the earlier title.
- Review.ReviewStore.RouteApprovedPageWrite: validation, the write plan and the choice between typed and default
  routing are one flag, because each of them only decides whether the page is written.
- Refresh.ResolveStaleRefresh: page lists are in scan order and the other outputs sets, where the code sorts.
- Citations.CitationSurvivesIffShown: takes the source's file name to hold no line break and not to be a bare line
  range itself; names of sources end in `.md`.
- ContextBudgeting.FittedTrimExceedsByBudgetBlock: requires that dropping a reason does not lengthen the JSON text,
  which holds for JSON but not for an arbitrary measure.
