/**
 The extraction phase: the direct batch, then the unchanged sources that share a
 freshly gained concept. The model's extraction is an arbitrary partial function of
 the file; reading a file that is not on disk fails.
 */
module ExtractionPhase {
  import opened Options
  import opened Sequences
  import opened WikiState
  import opened Deps
  import opened Hasher

  /**
   Generating one merged page throws, makes an invalid page, has the page held for review, or makes a live page, which
   the write floor may skip.
   */
  datatype PageOutcome = Throws | Invalid | Held | Skipped | Written

  /**
   Where a run dies: at the end (never), once `n` deletions are processed, before the generated pages are written, or
   after that with the pages of frozen concepts or only the state still to be written.
   */
  datatype Stop = Never | InDeletions(n: nat) | InGeneration | BeforeOrphaning | BeforeFlush

  /** The inputs of one compile run; `pending` is what it collects from the pending candidates. */
  datatype Run = Run(
    disk: Disk,
    keep: SourceChange -> bool,
    pending: map<File, Hash>,
    extract: File -> Option<seq<ExtractedConcept>>,
    generate: Slug -> PageOutcome,
    review: bool,
    stop: Stop)

  function Extract(run: Run, file: File): Option<seq<ExtractedConcept>> {
    if file in run.disk then run.extract(file) else None
  }

  predicate Yields(run: Run, f: File, slug: Slug) {
    Extract(run, f).Some? && slug in SlugsOf(Extract(run, f).value)
  }

  predicate AllExtract(run: Run, files: seq<File>) {
    forall i :: 0 <= i < |files| ==> Extract(run, files[i]).Some?
  }

  function Results(run: Run, files: seq<File>): (rs: seq<ExtractionResult>)
    requires AllExtract(run, files)
    ensures |rs| == |files|
  {
    seq(|files|, i requires 0 <= i < |files| => ExtractionResult(files[i], Extract(run, files[i]).value))
  }

  /** Extract a batch in input order; after a failure the rest is skipped and the batch fails. */
  method ExtractSources(run: Run, files: seq<File>) returns (r: Option<seq<ExtractionResult>>)
    ensures r.Some? <==> AllExtract(run, files)
    ensures r.Some? ==> r.value == Results(run, files)
  {
    var aborted := false;
    var done: seq<ExtractionResult> := [];
    for i := 0 to |files|
      invariant aborted <==> !AllExtract(run, files[..i])
      invariant !aborted ==> done == Results(run, files[..i])
    {
      assert files[..i + 1] == files[..i] + [files[i]];
      if !aborted {
        var concepts := Extract(run, files[i]);
        if concepts.None? {
          aborted := true;
          assert files[..i + 1][i] == files[i];
        } else {
          done := done + [ExtractionResult(files[i], concepts.value)];
        }
      }
    }
    assert files[..|files|] == files;
    r := if aborted then None else Some(done);
  }

  function ChangedFiles(changes: seq<SourceChange>): seq<File> {
    seq(|changes|, i requires 0 <= i < |changes| => changes[i].file)
  }

  /** The second batch, once each, in some order. */
  ghost predicate IsLateBatch(run: Run, toCompile: seq<SourceChange>, state: WikiState, allChanges: seq<SourceChange>,
                              late: seq<File>)
    requires AllExtract(run, ChangedFiles(toCompile))
  {
    Distinct(late) && AsSet(late) == LateAffectedBy(state, Results(run, ChangedFiles(toCompile)),
      FilesWith(allChanges, {New, Changed}), FilesWith(allChanges, {Deleted}))
  }

  /** Both batches; the phase fails if an extraction of either one fails. */
  method RunExtractionPhases(run: Run, toCompile: seq<SourceChange>, state: WikiState, allChanges: seq<SourceChange>)
    returns (r: Option<seq<ExtractionResult>>)
    ensures !AllExtract(run, ChangedFiles(toCompile)) ==> r.None?
    ensures AllExtract(run, ChangedFiles(toCompile)) ==>
      exists late :: IsLateBatch(run, toCompile, state, allChanges, late) &&
        r == if AllExtract(run, late) then Some(Results(run, ChangedFiles(toCompile)) + Results(run, late)) else None
  {
    var first := ExtractSources(run, ChangedFiles(toCompile));
    if first.None? {
      return None;
    }
    var lateAffected := FindLateAffectedSources(first.value, state, allChanges);
    assert IsLateBatch(run, toCompile, state, allChanges, lateAffected);
    var second := ExtractSources(run, lateAffected);
    if second.None? {
      return None;
    }
    var extractions := first.value;
    for i := 0 to |second.value|
      invariant extractions == first.value + second.value[..i]
    {
      extractions := extractions + [second.value[i]];
    }
    assert second.value[..|second.value|] == second.value;
    r := Some(extractions);
  }
}
