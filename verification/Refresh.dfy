/**
 The plan of a stale refresh: which pages are out of date, which of their owners drifted
 or vanished, and the filter that narrows a compile run to those owners.
 */
module Refresh {
  import opened Options
  import opened Sequences
  import opened WikiState
  import opened Deps
  import opened Hasher
  import opened ExtractionPhase
  import opened ChangePlan
  import opened Orphan
  import opened Pipeline
  import opened CompileRuns

  /** One recorded source: its hash at the last compile and its digest now, if it still exists. */
  datatype SourceFreshness = SourceFreshness(file: File, recordedHash: Hash, currentHash: Option<Hash>, concepts: seq<Slug>)

  datatype Owner = Owner(file: File, live: bool, changed: bool)

  datatype ScannedPage = ScannedPage(slug: Slug, orphaned: bool)

  function FreshnessOf(sources: Sources, disk: Disk, f: File): SourceFreshness
    requires f in sources
  {
    SourceFreshness(f, sources[f].hash, if f in disk then Some(disk[f]) else None, sources[f].concepts)
  }

  /** The snapshot lists every recorded source once, in any order. */
  ghost predicate IsSnapshot(snapshot: seq<SourceFreshness>, sources: Sources, disk: Disk) {
    && Distinct(snapshot)
    && forall x :: x in snapshot <==> x.file in sources && x == FreshnessOf(sources, disk, x.file)
  }

  // ----- Owners -----

  function AsOwner(x: SourceFreshness): Owner {
    Owner(x.file, x.currentHash.Some?, x.currentHash.Some? && x.currentHash.value != x.recordedHash)
  }

  function OwnersOf(slug: Slug, snapshot: seq<SourceFreshness>): seq<Owner> {
    var xs := Keep(snapshot, (x: SourceFreshness) => slug in x.concepts);
    seq(|xs|, i requires 0 <= i < |xs| => AsOwner(xs[i]))
  }

  predicate Missing(disk: Disk, f: File) {
    f !in disk
  }

  predicate Drifted(sources: Sources, disk: Disk, f: File) {
    f in sources && f in disk && disk[f] != sources[f].hash
  }

  /** The owners are exactly the recorded sources that list the slug, with what the disk says of them. */
  ghost predicate AreOwners(owners: seq<Owner>, sources: Sources, disk: Disk, slug: Slug) {
    forall o :: o in owners <==>
      Owns(sources, o.file, slug) && o == Owner(o.file, !Missing(disk, o.file), Drifted(sources, disk, o.file))
  }

  lemma OwnersAreRecorded(snapshot: seq<SourceFreshness>, sources: Sources, disk: Disk, slug: Slug)
    requires IsSnapshot(snapshot, sources, disk)
    ensures AreOwners(OwnersOf(slug, snapshot), sources, disk, slug)
  {
    hide Keep;
    var p := (x: SourceFreshness) => slug in x.concepts;
    KeepMembers(snapshot, p);
    var xs, owners := Keep(snapshot, p), OwnersOf(slug, snapshot);
    forall o
      ensures o in owners <==>
        Owns(sources, o.file, slug) && o == Owner(o.file, !Missing(disk, o.file), Drifted(sources, disk, o.file))
    {
      if o in owners {
        var i :| 0 <= i < |owners| && owners[i] == o;
        assert xs[i] in xs;
      }
      if Owns(sources, o.file, slug) && o == Owner(o.file, !Missing(disk, o.file), Drifted(sources, disk, o.file)) {
        var x := FreshnessOf(sources, disk, o.file);
        assert x in xs;
        var i :| 0 <= i < |xs| && xs[i] == x;
        assert owners[i] == o;
      }
    }
  }

  // ----- Classifying pages -----

  /** What a refresh does about a page. */
  datatype PageAction = Untracked | AlreadyOrphaned | ComputedOrphaned | Recompiled | SharedKept | UpToDate

  ghost function Action(sources: Sources, disk: Disk, page: ScannedPage): PageAction {
    if !exists f :: Owns(sources, f, page.slug) then (if page.orphaned then AlreadyOrphaned else Untracked)
    else if forall f :: Owns(sources, f, page.slug) ==> Missing(disk, f) then ComputedOrphaned
    else if exists f :: Owns(sources, f, page.slug) && Drifted(sources, disk, f) then Recompiled
    else if exists f :: Owns(sources, f, page.slug) && Missing(disk, f) then SharedKept
    else UpToDate
  }

  ghost function SlugsActedOn(sources: Sources, disk: Disk, pages: seq<ScannedPage>, action: PageAction): seq<Slug> {
    if pages == [] then []
    else
      var page := pages[|pages| - 1];
      SlugsActedOn(sources, disk, pages[..|pages| - 1], action) +
        if Action(sources, disk, page) == action then [page.slug] else []
  }

  /** The recorded sources that drifted and own a page of the list. */
  ghost function DriftedOwners(sources: Sources, disk: Disk, pages: seq<ScannedPage>): set<File> {
    set f | f in sources && Drifted(sources, disk, f) && exists page :: page in pages && Owns(sources, f, page.slug)
  }

  ghost function MissingOwners(sources: Sources, disk: Disk, pages: seq<ScannedPage>): set<File> {
    set f | f in sources && Missing(disk, f) && exists page :: page in pages && Owns(sources, f, page.slug)
  }

  ghost function DriftedOwnersOf(sources: Sources, disk: Disk, slug: Slug): set<File> {
    set f | f in sources && Owns(sources, f, slug) && Drifted(sources, disk, f)
  }

  ghost function MissingOwnersOf(sources: Sources, disk: Disk, slug: Slug): set<File> {
    set f | f in sources && Owns(sources, f, slug) && Missing(disk, f)
  }

  /** The owners of a page: all, the missing ones, the live ones and those of them that drifted. */
  method OwnersByFate(slug: Slug, snapshot: seq<SourceFreshness>, ghost sources: Sources, ghost disk: Disk)
    returns (owners: seq<Owner>, deleted: seq<Owner>, live: seq<Owner>, changedLive: seq<Owner>)
    requires IsSnapshot(snapshot, sources, disk)
    ensures FilesOf(deleted) == MissingOwnersOf(sources, disk, slug)
    ensures FilesOf(changedLive) == DriftedOwnersOf(sources, disk, slug)
    ensures owners == [] <==> !exists f :: Owns(sources, f, slug)
    ensures live == [] <==> forall f :: Owns(sources, f, slug) ==> Missing(disk, f)
    ensures changedLive == [] <==> !exists f :: Owns(sources, f, slug) && Drifted(sources, disk, f)
    ensures deleted == [] <==> !exists f :: Owns(sources, f, slug) && Missing(disk, f)
  {
    hide OwnersOf, IsSnapshot, Keep;
    OwnersAreRecorded(snapshot, sources, disk, slug);
    owners := OwnersOf(slug, snapshot);
    deleted := Keep(owners, (o: Owner) => !o.live);
    live := Keep(owners, (o: Owner) => o.live);
    changedLive := Keep(live, (o: Owner) => o.changed);
    KeepMembers(owners, (o: Owner) => !o.live);
    KeepMembers(owners, (o: Owner) => o.live);
    KeepMembers(live, (o: Owner) => o.changed);
    OwnerLists(owners, deleted, live, changedLive, sources, disk, slug);
  }

  class PageClassification {
    var recompiledPages: seq<Slug>
    var sharedKeptPages: seq<Slug>
    var computedOrphanedPages: seq<Slug>
    var alreadyOrphanedPages: seq<Slug>
    var changedOwners: set<File>
    var deletedOwners: set<File>

    constructor ()
      ensures recompiledPages == sharedKeptPages == computedOrphanedPages == alreadyOrphanedPages == []
      ensures changedOwners == deletedOwners == {}
    {
      recompiledPages, sharedKeptPages, computedOrphanedPages, alreadyOrphanedPages := [], [], [], [];
      changedOwners, deletedOwners := {}, {};
    }

    /** Each page is in the list of its action; the owners are those a compile must act on. */
    ghost predicate Classifies(sources: Sources, disk: Disk, pages: seq<ScannedPage>)
      reads this
    {
      && recompiledPages == SlugsActedOn(sources, disk, pages, Recompiled)
      && sharedKeptPages == SlugsActedOn(sources, disk, pages, SharedKept)
      && computedOrphanedPages == SlugsActedOn(sources, disk, pages, ComputedOrphaned)
      && alreadyOrphanedPages == SlugsActedOn(sources, disk, pages, AlreadyOrphaned)
      && changedOwners == DriftedOwners(sources, disk, pages)
      && deletedOwners == MissingOwners(sources, disk, pages)
    }

    method ClassifyOnePage(slug: Slug, orphaned: bool, snapshot: seq<SourceFreshness>,
                           ghost sources: Sources, ghost disk: Disk, ghost before: seq<ScannedPage>)
      requires IsSnapshot(snapshot, sources, disk) && Classifies(sources, disk, before)
      modifies this
      ensures Classifies(sources, disk, before + [ScannedPage(slug, orphaned)])
    {
      hide IsSnapshot, Owns, Missing, Drifted, DriftedOwners, MissingOwners, SlugsActedOn, FilesOf;
      ghost var page := ScannedPage(slug, orphaned);
      ActedOnStep(sources, disk, before, page);
      OwnersStep(sources, disk, before, page);
      var owners, deleted, live, changedLive := OwnersByFate(slug, snapshot, sources, disk);
      NoneDrifted(sources, disk, slug);
      if owners == [] {
        if orphaned {
          alreadyOrphanedPages := alreadyOrphanedPages + [slug];
        }
        return;
      }
      if live == [] {
        computedOrphanedPages := computedOrphanedPages + [slug];
        deletedOwners := deletedOwners + FilesOf(deleted);
      } else if changedLive != [] {
        recompiledPages := recompiledPages + [slug];
        changedOwners := changedOwners + FilesOf(changedLive);
        deletedOwners := deletedOwners + FilesOf(deleted);
      } else if deleted != [] {
        sharedKeptPages := sharedKeptPages + [slug];
        deletedOwners := deletedOwners + FilesOf(deleted);
      }
    }
  }

  function FilesOf(owners: seq<Owner>): set<File> {
    set o | o in owners :: o.file
  }

  /** The owner lists of one page decide its action. */
  lemma OwnerLists(owners: seq<Owner>, deleted: seq<Owner>, live: seq<Owner>, changedLive: seq<Owner>,
                   sources: Sources, disk: Disk, slug: Slug)
    requires AreOwners(owners, sources, disk, slug)
    requires forall o :: o in deleted <==> o in owners && !o.live
    requires forall o :: o in live <==> o in owners && o.live
    requires forall o :: o in changedLive <==> o in live && o.changed
    ensures FilesOf(deleted) == MissingOwnersOf(sources, disk, slug)
    ensures FilesOf(changedLive) == DriftedOwnersOf(sources, disk, slug)
    ensures owners == [] <==> !exists f :: Owns(sources, f, slug)
    ensures live == [] <==> forall f :: Owns(sources, f, slug) ==> Missing(disk, f)
    ensures changedLive == [] <==> !exists f :: Owns(sources, f, slug) && Drifted(sources, disk, f)
    ensures deleted == [] <==> !exists f :: Owns(sources, f, slug) && Missing(disk, f)
  {
    forall f | Owns(sources, f, slug)
      ensures Owner(f, !Missing(disk, f), Drifted(sources, disk, f)) in owners
    {
      var o := Owner(f, !Missing(disk, f), Drifted(sources, disk, f));
      assert o.file == f;
    }
    assert owners != [] ==> owners[0] in owners;
    assert live != [] ==> live[0] in live;
    assert changedLive != [] ==> changedLive[0] in changedLive;
    assert deleted != [] ==> deleted[0] in deleted;
  }

  lemma ActedOnStep(sources: Sources, disk: Disk, pages: seq<ScannedPage>, page: ScannedPage)
    ensures forall action ::
      SlugsActedOn(sources, disk, pages + [page], action) == SlugsActedOn(sources, disk, pages, action) +
        (if Action(sources, disk, page) == action then [page.slug] else [])
  {
    assert (pages + [page])[..|pages|] == pages;
  }

  lemma OwnersStep(sources: Sources, disk: Disk, pages: seq<ScannedPage>, page: ScannedPage)
    ensures DriftedOwners(sources, disk, pages + [page]) ==
      DriftedOwners(sources, disk, pages) + DriftedOwnersOf(sources, disk, page.slug)
    ensures MissingOwners(sources, disk, pages + [page]) ==
      MissingOwners(sources, disk, pages) + MissingOwnersOf(sources, disk, page.slug)
  {
    assert forall p :: p in pages + [page] <==> p in pages || p == page;
  }

  lemma NoneDrifted(sources: Sources, disk: Disk, slug: Slug)
    ensures !(exists f :: Owns(sources, f, slug) && Drifted(sources, disk, f)) ==> DriftedOwnersOf(sources, disk, slug) == {}
    ensures !(exists f :: Owns(sources, f, slug) && Missing(disk, f)) ==> MissingOwnersOf(sources, disk, slug) == {}
    ensures (forall f :: Owns(sources, f, slug) ==> Missing(disk, f)) ==> DriftedOwnersOf(sources, disk, slug) == {}
    ensures !(exists f :: Owns(sources, f, slug)) ==>
      DriftedOwnersOf(sources, disk, slug) == MissingOwnersOf(sources, disk, slug) == {}
  {}

  method ClassifyPages(pages: seq<ScannedPage>, snapshot: seq<SourceFreshness>, ghost sources: Sources, ghost disk: Disk)
    returns (c: PageClassification)
    requires IsSnapshot(snapshot, sources, disk)
    ensures c.Classifies(sources, disk, pages)
  {
    c := new PageClassification();
    for i := 0 to |pages|
      invariant c.Classifies(sources, disk, pages[..i])
    {
      c.ClassifyOnePage(pages[i].slug, pages[i].orphaned, snapshot, sources, disk, pages[..i]);
      assert pages[..i] + [ScannedPage(pages[i].slug, pages[i].orphaned)] == pages[..i + 1];
    }
    assert pages[..|pages|] == pages;
  }

  // ----- The plan -----

  datatype RefreshPlan = RefreshPlan(changedOwners: set<File>, deletedOwners: set<File>, knownAffected: set<File>,
                                     newSkipped: set<File>, changeFilter: SourceChange -> bool)

  /** Keeps a change only if its file is a selected owner. */
  function MakeChangeFilter(changed: set<File>, deleted: set<File>): SourceChange -> bool {
    (c: SourceChange) => c.file in changed + deleted
  }

  /** The seed that a compile under the plan's filter starts from, in some order. */
  method KnownAffectedFor(state: WikiState, changed: set<File>, deleted: set<File>) returns (affected: seq<File>)
    ensures AsSet(affected) == AffectedBy(state.sources, changed, deleted)
  {
    var seed: seq<SourceChange> := [];
    var todo := changed;
    while todo != {}
      invariant todo <= changed
      invariant forall c :: c in seed <==> c.file in changed - todo && c.status == Changed
    {
      var f :| f in todo;
      seed := seed + [SourceChange(f, Changed)];
      todo := todo - {f};
    }
    todo := deleted;
    while todo != {}
      invariant todo <= deleted
      invariant forall c :: c in seed <==>
        (c.file in changed && c.status == Changed) || (c.file in deleted - todo && c.status == Deleted)
    {
      var f :| f in todo;
      seed := seed + [SourceChange(f, Deleted)];
      todo := todo - {f};
    }
    affected := FindAffectedSources(state, seed);
    assert FilesWith(seed, {New, Changed}) == changed by {
      assert forall f :: f in changed ==> SourceChange(f, Changed) in seed;
    }
    assert FilesWith(seed, {Deleted}) == deleted by {
      assert forall f :: f in deleted ==> SourceChange(f, Deleted) in seed;
    }
  }

  ghost predicate IsRefreshPlan(plan: RefreshPlan, sources: Sources, disk: Disk, pages: seq<ScannedPage>) {
    && plan.changedOwners == DriftedOwners(sources, disk, pages)
    && plan.deletedOwners == MissingOwners(sources, disk, pages)
    && plan.knownAffected == AffectedBy(sources, plan.changedOwners, plan.deletedOwners)
    && plan.changeFilter == MakeChangeFilter(plan.changedOwners, plan.deletedOwners)
  }

  /** The files of a readable source directory that are not recorded. */
  function ListNewSkipped(listing: Option<set<File>>, state: WikiState): set<File> {
    if listing.None? then {} else listing.value - state.sources.Keys
  }

  method ResolveStaleRefresh(state: WikiState, snapshot: seq<SourceFreshness>, pages: seq<ScannedPage>,
                             listing: Option<set<File>>, ghost disk: Disk)
    returns (plan: RefreshPlan, c: PageClassification)
    requires IsSnapshot(snapshot, state.sources, disk) && (listing.Some? ==> listing.value == disk.Keys)
    ensures IsRefreshPlan(plan, state.sources, disk, pages)
    ensures plan.newSkipped == if listing.Some? then disk.Keys - state.sources.Keys else {}
    ensures c.Classifies(state.sources, disk, pages)
  {
    c := ClassifyPages(pages, snapshot, state.sources, disk);
    var affected := KnownAffectedFor(state, c.changedOwners, c.deletedOwners);
    plan := RefreshPlan(c.changedOwners, c.deletedOwners, AsSet(affected), ListNewSkipped(listing, state),
                        MakeChangeFilter(c.changedOwners, c.deletedOwners));
  }

  // ----- The plan against the run -----

  /** A compile run under the plan's filter, with no pending candidate that covers a source. */
  ghost predicate RunsPlan(plan: RefreshPlan, run: Run) {
    run.keep == plan.changeFilter && forall f :: !CoveredByPending(run, f)
  }

  /** The plan names exactly what the run compiles first and what it deletes. */
  lemma PlanPredictsRun(plan: RefreshPlan, sources: Sources, pages: seq<ScannedPage>, run: Run)
    requires IsRefreshPlan(plan, sources, run.disk, pages) && RunsPlan(plan, run)
    ensures DirectChanges(run, sources) == plan.changedOwners
    ensures Deletions(run, sources) == plan.deletedOwners
    ensures FirstBatch(run, sources) == plan.changedOwners + plan.knownAffected
  {
    hide AffectedBy;
  }

  /** New sources are skipped: a refresh neither compiles nor records a file that was not recorded before. */
  lemma NewSourcesSkipped(plan: RefreshPlan, before: Wiki, pages: seq<ScannedPage>, run: Run, outcome: Outcome, after: Wiki)
    requires IsRefreshPlan(plan, before.state.sources, run.disk, pages) && RunsPlan(plan, run)
    requires Step(before, run, outcome, after)
    ensures Batch(run, before.state.sources) <= before.state.sources.Keys
    ensures after.state.sources.Keys <= before.state.sources.Keys
  {
    PlanPredictsRun(plan, before.state.sources, pages, run);
    assert plan.changedOwners + plan.knownAffected <= before.state.sources.Keys;
    hide FirstBatch, Deletions, IsRefreshPlan, Frozen, OrphanedBy, NextPages, UnflushedPages, Reports, Succeeds, Entry;
  }

  /** A missing source outside every scanned page that shares a concept with a source to recompile. */
  ghost predicate Blocks(sources: Sources, disk: Disk, pages: seq<ScannedPage>, g: File) {
    && g in sources && Missing(disk, g) && !OwnsScanned(sources, pages, g)
    && exists f :: f in DriftedOwners(sources, disk, pages) && CoOwn(sources, f, g)
  }

  ghost predicate OwnsScanned(sources: Sources, pages: seq<ScannedPage>, g: File) {
    exists page :: page in pages && Owns(sources, g, page.slug)
  }

  /** The filter hides the deletion of such a source, so the plan takes it for an affected one, and nothing else missing. */
  lemma AffectedMissingIff(plan: RefreshPlan, sources: Sources, disk: Disk, pages: seq<ScannedPage>, g: File)
    requires IsRefreshPlan(plan, sources, disk, pages)
    ensures g in plan.knownAffected && Missing(disk, g) <==> Blocks(sources, disk, pages, g)
  {
    hide CoOwn, Owns;
  }

  /** The sources that a refresh compiles first are all on disk exactly when no missing source blocks it. */
  lemma FirstBatchOnDiskIff(plan: RefreshPlan, sources: Sources, pages: seq<ScannedPage>, run: Run)
    requires IsRefreshPlan(plan, sources, run.disk, pages) && RunsPlan(plan, run)
    ensures (forall g :: g in FirstBatch(run, sources) ==> !Missing(run.disk, g)) <==>
      !exists g :: Blocks(sources, run.disk, pages, g)
  {
    hide Blocks;
    PlanPredictsRun(plan, sources, pages, run);
    assert forall g :: g in plan.changedOwners ==> !Missing(run.disk, g);
    hide FirstBatch, DirectChanges, Deletions, IsRefreshPlan;
    forall g
      ensures g in plan.knownAffected && Missing(run.disk, g) <==> Blocks(sources, run.disk, pages, g)
    {
      AffectedMissingIff(plan, sources, run.disk, pages, g);
    }
  }

  /** A blocked refresh fails and leaves the state as it was, so the next one is blocked too. */
  lemma BlockedRefreshAborts(plan: RefreshPlan, before: Wiki, pages: seq<ScannedPage>, run: Run, outcome: Outcome,
                             after: Wiki, g: File)
    requires IsRefreshPlan(plan, before.state.sources, run.disk, pages) && RunsPlan(plan, run)
    requires Step(before, run, outcome, after) && Blocks(before.state.sources, run.disk, pages, g)
    ensures outcome == if run.stop.InDeletions? then Interrupted else Aborted
    ensures after.state == before.state && Blocks(after.state.sources, run.disk, pages, g)
  {
    var sources := before.state.sources;
    hide Blocks;
    AffectedMissingIff(plan, sources, run.disk, pages, g);
    PlanPredictsRun(plan, sources, pages, run);
    assert g in FirstBatch(run, sources) && Extract(run, g).None?;
    hide FirstBatch, LateBatch, Deletions, Extract, OrphanedBy, IsRefreshPlan, Reports;
  }

  predicate Scanned(pages: seq<ScannedPage>, s: Slug) {
    exists page :: page in pages && page.slug == s
  }

  ghost predicate StaleOwner(sources: Sources, disk: Disk, f: File, s: Slug) {
    Owns(sources, f, s) && (Missing(disk, f) || Drifted(sources, disk, f))
  }

  /**
   After a completed refresh, the owners of a scanned page that are still missing or drifted are exactly the recorded
   owners whose extraction came back empty.
   */
  lemma RefreshRepairsExactly(plan: RefreshPlan, before: Wiki, pages: seq<ScannedPage>, run: Run, outcome: Outcome,
                              after: Wiki, f: File, s: Slug)
    requires IsRefreshPlan(plan, before.state.sources, run.disk, pages) && RunsPlan(plan, run) && Digests(run.disk)
    requires Step(before, run, outcome, after) && Completes(run, outcome)
    requires Scanned(pages, s)
    ensures StaleOwner(after.state.sources, run.disk, f, s) <==>
      f in Batch(run, before.state.sources) && Empty(run, f) && Owns(before.state.sources, f, s)
  {
    PlanPredictsRun(plan, before.state.sources, pages, run);
    BatchSurvives(run, before.state.sources);
    assert DirectChanges(run, before.state.sources) <= Batch(run, before.state.sources);
    hide FirstBatch, LateBatch, DirectChanges, Frozen, OrphanedBy, NextPages, Reports, Deletions, IsRefreshPlan;
    assert after.state == NextState(run, before.state);
    if f in Batch(run, before.state.sources) {
      RecompiledOwner(run, before.state, f, s);
    } else {
      KeptOwner(plan, before.state, pages, run, f, s);
    }
  }

  lemma RecompiledOwner(run: Run, state: WikiState, f: File, s: Slug)
    requires Digests(run.disk) && AllExtracted(run, Batch(run, state.sources)) && f in Batch(run, state.sources)
    ensures StaleOwner(NextSources(run, state), run.disk, f, s) <==> Empty(run, f) && Owns(state.sources, f, s)
  {
    hide Batch, Frozen, Deletions, LiveSlugs;
  }

  lemma KeptOwner(plan: RefreshPlan, state: WikiState, pages: seq<ScannedPage>, run: Run, f: File, s: Slug)
    requires AllExtracted(run, Batch(run, state.sources)) && f !in Batch(run, state.sources) && Scanned(pages, s)
    requires DriftedOwners(state.sources, run.disk, pages) <= Batch(run, state.sources)
    requires MissingOwners(state.sources, run.disk, pages) == Deletions(run, state.sources)
    ensures !StaleOwner(NextSources(run, state), run.disk, f, s)
  {
    hide Batch, Frozen, Deletions;
    var page :| page in pages && page.slug == s;
    if Owns(NextSources(run, state), f, s) {
      assert Owns(state.sources, f, page.slug);
      assert f !in MissingOwners(state.sources, run.disk, pages);
      assert f !in DriftedOwners(state.sources, run.disk, pages);
    }
  }

  /** A page that the refresh does not list has no owner to act on, and the lists share no page. */
  lemma PlanActsOnStalePages(sources: Sources, disk: Disk, pages: seq<ScannedPage>, page: ScannedPage)
    requires page in pages
    ensures Action(sources, disk, page) in {Recompiled, SharedKept, ComputedOrphaned} <==>
      exists f :: StaleOwner(sources, disk, f, page.slug)
    ensures Action(sources, disk, page) == ComputedOrphaned ==>
      forall f :: Owns(sources, f, page.slug) ==> f in MissingOwners(sources, disk, pages)
  {
    assert forall f :: Owns(sources, f, page.slug) && Drifted(sources, disk, f) ==> StaleOwner(sources, disk, f, page.slug);
    assert forall f :: Owns(sources, f, page.slug) && Missing(disk, f) ==> StaleOwner(sources, disk, f, page.slug);
    if exists f :: Owns(sources, f, page.slug) {
      var f :| Owns(sources, f, page.slug);
    }
    if exists f :: StaleOwner(sources, disk, f, page.slug) {
      var f :| StaleOwner(sources, disk, f, page.slug);
    }
  }

  predicate OwnerOnDisk(sources: Sources, disk: Disk, f: File, s: Slug) {
    f in sources && s in sources[f].concepts && f in disk
  }

  predicate OwnerGone(sources: Sources, disk: Disk, f: File, s: Slug) {
    f in sources && s in sources[f].concepts && f !in disk
  }

  predicate SameAsRecorded(sources: Sources, disk: Disk, f: File) {
    f in sources && f in disk && disk[f] == sources[f].hash
  }

  /**
   Each list by the page's owners. A page is recompiled when an owner on disk has changed, whatever else is gone; its
   content is kept when some owner is gone and those on disk are as they were recorded; it becomes an orphan when every
   owner is gone.
   */
  lemma ActionByOwners(sources: Sources, disk: Disk, page: ScannedPage)
    ensures var s := page.slug;
      && (Action(sources, disk, page) == Recompiled <==>
        exists f :: OwnerOnDisk(sources, disk, f, s) && !SameAsRecorded(sources, disk, f))
      && (Action(sources, disk, page) == SharedKept <==>
        && (exists f :: OwnerOnDisk(sources, disk, f, s)) && (exists f :: OwnerGone(sources, disk, f, s))
        && forall f :: OwnerOnDisk(sources, disk, f, s) ==> SameAsRecorded(sources, disk, f))
      && (Action(sources, disk, page) == ComputedOrphaned <==>
        (exists f :: OwnerGone(sources, disk, f, s)) && !exists f :: OwnerOnDisk(sources, disk, f, s))
      && (Action(sources, disk, page) == AlreadyOrphaned <==>
        page.orphaned && !(exists f :: OwnerGone(sources, disk, f, s)) && !exists f :: OwnerOnDisk(sources, disk, f, s))
  {
    var s := page.slug;
    forall f
      ensures Owns(sources, f, s) && Missing(disk, f) <==> OwnerGone(sources, disk, f, s)
      ensures Owns(sources, f, s) && !Missing(disk, f) <==> OwnerOnDisk(sources, disk, f, s)
      ensures Owns(sources, f, s) && Drifted(sources, disk, f) <==>
        OwnerOnDisk(sources, disk, f, s) && !SameAsRecorded(sources, disk, f)
    {}
    hide Owns, Missing, Drifted, OwnerGone, OwnerOnDisk, SameAsRecorded;
  }

  /** What the run does for a scanned page: a recompiled page has an owner in the first batch that changed, a kept one none. */
  lemma ActionInRun(plan: RefreshPlan, sources: Sources, pages: seq<ScannedPage>, run: Run, page: ScannedPage)
    requires IsRefreshPlan(plan, sources, run.disk, pages) && RunsPlan(plan, run) && page in pages
    ensures Action(sources, run.disk, page) == Recompiled <==>
      exists f :: f in DirectChanges(run, sources) && Owns(sources, f, page.slug)
    ensures Action(sources, run.disk, page) == SharedKept ==>
      exists f :: f in Deletions(run, sources) && Owns(sources, f, page.slug)
    ensures Action(sources, run.disk, page) == ComputedOrphaned ==>
      forall f :: Owns(sources, f, page.slug) ==> f in Deletions(run, sources)
  {
    PlanPredictsRun(plan, sources, pages, run);
    hide DirectChanges, Deletions, RunsPlan;
    forall f | Owns(sources, f, page.slug)
      ensures f in plan.changedOwners <==> Drifted(sources, run.disk, f)
      ensures f in plan.deletedOwners <==> Missing(run.disk, f)
    {}
    hide Owns, Missing, IsRefreshPlan, Drifted;
    DriftedIsPresent(sources, run.disk);
  }

  lemma DriftedIsPresent(sources: Sources, disk: Disk)
    ensures forall f :: Drifted(sources, disk, f) ==> !Missing(disk, f)
  {}

  // ----- Freshness, as every reading surface computes it -----

  datatype Freshness = Fresh | Stale | OrphanedPage | Unverified

  ghost function ComputeFreshness(sources: Sources, disk: Disk, page: ScannedPage): Freshness {
    if page.orphaned then OrphanedPage
    else if !exists f :: Owns(sources, f, page.slug) then Unverified
    else if forall f :: Owns(sources, f, page.slug) ==> Missing(disk, f) then OrphanedPage
    else if exists f :: Owns(sources, f, page.slug) && Missing(disk, f) then Stale
    else if exists f :: Owns(sources, f, page.slug) && Drifted(sources, disk, f) then Stale
    else Fresh
  }

  /** Of the pages not marked orphaned, a refresh recompiles or keeps exactly the stale ones, and leaves the fresh ones. */
  lemma RefreshActsOnUnfreshPages(sources: Sources, disk: Disk, page: ScannedPage)
    requires !page.orphaned
    ensures Action(sources, disk, page) in {Recompiled, SharedKept} <==> ComputeFreshness(sources, disk, page) == Stale
    ensures Action(sources, disk, page) == ComputedOrphaned <==> ComputeFreshness(sources, disk, page) == OrphanedPage
    ensures Action(sources, disk, page) == UpToDate <==> ComputeFreshness(sources, disk, page) == Fresh
  {
    hide Owns, Missing, Drifted;
  }

  /**
   After a completed refresh without empty extractions, every scanned page that is not marked orphaned is fresh, or has
   no recorded source any more.
   */
  lemma RefreshMakesFresh(plan: RefreshPlan, before: Wiki, pages: seq<ScannedPage>, run: Run, outcome: Outcome,
                          after: Wiki, page: ScannedPage)
    requires IsRefreshPlan(plan, before.state.sources, run.disk, pages) && RunsPlan(plan, run) && Digests(run.disk)
    requires Step(before, run, outcome, after) && Completes(run, outcome)
    requires forall f :: f in Batch(run, before.state.sources) ==> !Empty(run, f)
    requires Scanned(pages, page.slug) && !page.orphaned
    ensures ComputeFreshness(after.state.sources, run.disk, page) in {Fresh, Unverified}
  {
    hide Step, Batch, IsRefreshPlan, RunsPlan, Completes, Empty, StaleOwner, Scanned, Digests, ComputeFreshness;
    forall f
      ensures !StaleOwner(after.state.sources, run.disk, f, page.slug)
    {
      RefreshRepairsExactly(plan, before, pages, run, outcome, after, f, page.slug);
    }
    FreshWithoutStaleOwner(after.state.sources, run.disk, page);
  }

  lemma FreshWithoutStaleOwner(sources: Sources, disk: Disk, page: ScannedPage)
    requires !page.orphaned && forall f :: !StaleOwner(sources, disk, f, page.slug)
    ensures ComputeFreshness(sources, disk, page) in {Fresh, Unverified}
  {
    hide Missing, Drifted;
    assert forall f :: Owns(sources, f, page.slug) && Missing(disk, f) ==> StaleOwner(sources, disk, f, page.slug);
    assert forall f :: Owns(sources, f, page.slug) && Drifted(sources, disk, f) ==>
      StaleOwner(sources, disk, f, page.slug);
  }
}
