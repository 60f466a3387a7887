/**
 From detected changes to the batches a compile run acts on: the caller's filter, the
 sources a pending candidate already covers, the affected sources, the buckets.
 */
module ChangePlan {
  import opened Sequences
  import opened WikiState
  import opened Deps
  import opened Hasher
  import opened ExtractionPhase

  /** A candidate pending review already holds the current content of this file. */
  predicate CoveredByPending(run: Run, file: File) {
    file in run.disk && file in run.pending && run.pending[file] != "" && run.pending[file] == run.disk[file]
  }

  /** New or changed files that pass the filter and are not covered by a pending candidate. */
  ghost function DirectChanges(run: Run, sources: Sources): set<File> {
    set f | f in run.disk && Classify(run.disk, sources, f) != Unchanged &&
      run.keep(SourceChange(f, Classify(run.disk, sources, f))) && !CoveredByPending(run, f)
  }

  /** Recorded files that are gone from disk and pass the filter. */
  ghost function Deletions(run: Run, sources: Sources): set<File> {
    set f | f in sources && f !in run.disk && run.keep(SourceChange(f, Deleted))
  }

  /** The direct changes and their co-owners. */
  ghost function FirstBatch(run: Run, sources: Sources): set<File> {
    DirectChanges(run, sources) + AffectedBy(sources, DirectChanges(run, sources), Deletions(run, sources))
  }

  // ----- Filtering changes -----

  /** No two changes of the list name one file. */
  ghost predicate DistinctFiles(changes: seq<SourceChange>) {
    forall i, j :: 0 <= i < j < |changes| ==> changes[i].file != changes[j].file
  }

  lemma {:induction false} KeepDistinctFiles(changes: seq<SourceChange>, p: SourceChange -> bool)
    requires DistinctFiles(changes)
    ensures DistinctFiles(Keep(changes, p))
  {
    if changes != [] {
      var init, last := changes[..|changes| - 1], changes[|changes| - 1];
      KeepDistinctFiles(init, p);
      KeepMembers(init, p);
      var kept := Keep(init, p);
      assert forall c :: c in init ==> c.file != last.file;
      assert forall i :: 0 <= i < |kept| ==> kept[i] in kept;
    }
  }

  // ----- The steps -----

  function ApplyChangeFilter(detected: seq<SourceChange>, keep: SourceChange -> bool): seq<SourceChange> {
    Keep(detected, keep)
  }

  /** A new or changed source that a pending candidate covers counts as unchanged. */
  function MarkPending(run: Run, c: SourceChange): SourceChange {
    if (c.status == New || c.status == Changed) && CoveredByPending(run, c.file) then c.(status := Unchanged) else c
  }

  method MarkUnchangedPendingSources(run: Run, changes: seq<SourceChange>) returns (r: seq<SourceChange>)
    ensures |r| == |changes| && forall i :: 0 <= i < |r| ==> r[i] == MarkPending(run, changes[i])
  {
    r := changes;
    for i := 0 to |changes|
      invariant |r| == |changes|
      invariant forall k :: 0 <= k < |r| ==> r[k] == if k < i then MarkPending(run, changes[k]) else changes[k]
    {
      if r[i].status == New || r[i].status == Changed {
        if CoveredByPending(run, r[i].file) {
          r := r[i := r[i].(status := Unchanged)];
        }
      }
    }
  }

  method AugmentWithAffectedSources(changes: seq<SourceChange>, affected: seq<File>) returns (r: seq<SourceChange>)
    ensures r == changes + seq(|affected|, i requires 0 <= i < |affected| => SourceChange(affected[i], Changed))
  {
    r := changes;
    for i := 0 to |affected|
      invariant r == changes + seq(i, k requires 0 <= k < i => SourceChange(affected[k], Changed))
    {
      r := r + [SourceChange(affected[i], Changed)];
    }
  }

  predicate Compiles(c: SourceChange) {
    c.status == New || c.status == Changed
  }

  /** The buckets hold each first-batch file once, and each deleted file. */
  ghost predicate IsPlan(run: Run, sources: Sources, changes: seq<SourceChange>) {
    && FilesWith(changes, {New, Changed}) == FirstBatch(run, sources)
    && FilesWith(changes, {Deleted}) == Deletions(run, sources)
    && DistinctFiles(Keep(changes, Compiles))
  }

  method PlanChanges(run: Run, state: WikiState) returns (changes: seq<SourceChange>)
    ensures IsPlan(run, state.sources, changes)
  {
    var detected := DetectChanges(run.disk, state);
    var kept := ApplyChangeFilter(detected, run.keep);
    var marked := MarkUnchangedPendingSources(run, kept);
    MarkedChanges(run, state.sources, detected, kept, marked);
    var affected := FindAffectedSources(state, marked);
    PlannedAffected(run, state.sources, affected);
    changes := AugmentWithAffectedSources(marked, affected);
    AugmentedChanges(marked, affected, changes);
  }

  lemma PlannedAffected(run: Run, sources: Sources, affected: seq<File>)
    requires (set f | f in affected) == AffectedBy(sources, DirectChanges(run, sources), Deletions(run, sources))
    ensures forall f :: f in affected ==> f !in DirectChanges(run, sources)
    ensures DirectChanges(run, sources) + (set f | f in affected) == FirstBatch(run, sources)
  {
    hide DirectChanges, Deletions;
    forall f | f in affected
      ensures f !in DirectChanges(run, sources)
    {
      assert f in set g | g in affected;
      assert f in AffectedBy(sources, DirectChanges(run, sources), Deletions(run, sources));
    }
  }

  lemma DetectionDistinct(disk: Disk, sources: Sources, detected: seq<SourceChange>)
    requires IsDetection(disk, sources, detected)
    ensures DistinctFiles(detected)
  {
    forall i, j | 0 <= i < j < |detected|
      ensures detected[i].file != detected[j].file
    {
      assert detected[i] in detected && detected[j] in detected && detected[i] != detected[j];
    }
  }

  lemma MarkedMembers(run: Run, kept: seq<SourceChange>, marked: seq<SourceChange>, m: SourceChange)
    requires |marked| == |kept| && forall i :: 0 <= i < |kept| ==> marked[i] == MarkPending(run, kept[i])
    ensures m in marked <==> exists c :: c in kept && m == MarkPending(run, c)
  {
    if c :| c in kept && m == MarkPending(run, c) {
      var i :| 0 <= i < |kept| && kept[i] == c;
      assert marked[i] == m;
    }
    if m in marked {
      var i :| 0 <= i < |marked| && marked[i] == m;
      assert kept[i] in kept;
    }
  }

  lemma MarkedChanges(run: Run, sources: Sources, detected: seq<SourceChange>, kept: seq<SourceChange>,
                      marked: seq<SourceChange>)
    requires IsDetection(run.disk, sources, detected) && kept == Keep(detected, run.keep)
    requires |marked| == |kept| && forall i :: 0 <= i < |kept| ==> marked[i] == MarkPending(run, kept[i])
    ensures DistinctFiles(marked)
    ensures FilesWith(marked, {New, Changed}) == DirectChanges(run, sources)
    ensures FilesWith(marked, {Deleted}) == Deletions(run, sources)
  {
    DetectionDistinct(run.disk, sources, detected);
    KeepDistinctFiles(detected, run.keep);
    KeepMembers(detected, run.keep);
    forall f, status
      ensures SourceChange(f, status) in marked <==>
        exists c :: c in kept && SourceChange(f, status) == MarkPending(run, c)
    {
      MarkedMembers(run, kept, marked, SourceChange(f, status));
    }
    forall f
      ensures f in FilesWith(marked, {New, Changed}) <==> f in DirectChanges(run, sources)
      ensures f in FilesWith(marked, {Deleted}) <==> f in Deletions(run, sources)
    {
      MarkedFile(run, sources, kept, marked, f);
    }
  }

  lemma MarkedFile(run: Run, sources: Sources, kept: seq<SourceChange>, marked: seq<SourceChange>, f: File)
    requires forall c :: c in kept <==>
      (c.file in run.disk || c.file in sources) && c.status == StatusOf(run.disk, sources, c.file) && run.keep(c)
    requires forall f, status :: SourceChange(f, status) in marked <==>
      exists c :: c in kept && SourceChange(f, status) == MarkPending(run, c)
    ensures f in FilesWith(marked, {New, Changed}) <==> f in DirectChanges(run, sources)
    ensures f in FilesWith(marked, {Deleted}) <==> f in Deletions(run, sources)
  {
    var c := SourceChange(f, StatusOf(run.disk, sources, f));
    var m := MarkPending(run, c);
    assert c in kept ==> SourceChange(f, m.status) in marked;
    forall status
      ensures SourceChange(f, status) in marked ==> c in kept && status == m.status
    {}
  }

  lemma AugmentedChanges(marked: seq<SourceChange>, affected: seq<File>, changes: seq<SourceChange>)
    requires DistinctFiles(marked) && Distinct(affected)
    requires forall f :: f in affected ==> f !in FilesWith(marked, {New, Changed})
    requires changes == marked + seq(|affected|, i requires 0 <= i < |affected| => SourceChange(affected[i], Changed))
    ensures FilesWith(changes, {New, Changed}) == FilesWith(marked, {New, Changed}) + set f | f in affected
    ensures FilesWith(changes, {Deleted}) == FilesWith(marked, {Deleted})
    ensures DistinctFiles(Keep(changes, Compiles))
  {
    var extra := seq(|affected|, i requires 0 <= i < |affected| => SourceChange(affected[i], Changed));
    AugmentedFiles(marked, affected, extra);
    KeepDistinctFiles(marked, Compiles);
    KeepMembers(marked, Compiles);
    KeepConcat(marked, extra, Compiles);
    KeepAll(extra, Compiles);
    var kept := Keep(marked, Compiles);
    forall i | 0 <= i < |kept|
      ensures kept[i].file !in affected
    {
      assert kept[i] in kept;
      assert kept[i].file in FilesWith(marked, {New, Changed});
    }
  }

  lemma AugmentedFiles(marked: seq<SourceChange>, affected: seq<File>, extra: seq<SourceChange>)
    requires |extra| == |affected| && forall i :: 0 <= i < |extra| ==> extra[i] == SourceChange(affected[i], Changed)
    ensures FilesWith(marked + extra, {New, Changed}) == FilesWith(marked, {New, Changed}) + set f | f in affected
    ensures FilesWith(marked + extra, {Deleted}) == FilesWith(marked, {Deleted})
  {
    forall f
      ensures f in FilesWith(extra, {New, Changed}) <==> f in affected
    {
      if f in affected {
        var i :| 0 <= i < |affected| && affected[i] == f;
        assert extra[i] in extra;
      }
    }
    FilesConcat(marked, extra, {New, Changed});
    FilesConcat(marked, extra, {Deleted});
  }

  lemma FilesConcat(a: seq<SourceChange>, b: seq<SourceChange>, statuses: set<Status>)
    ensures FilesWith(a + b, statuses) == FilesWith(a, statuses) + FilesWith(b, statuses)
  {
    assert forall c :: c in a + b <==> c in a || c in b;
  }
}
