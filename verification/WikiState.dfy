/**
 The compile state: which concepts each source was compiled to, under which hash, and
 the frozen concepts. A source entry's time stamp is not modelled.
 */
module WikiState {
  import opened Options

  type File = string
  type Slug = string
  type Hash = string

  datatype SourceState = SourceState(hash: Hash, concepts: seq<Slug>)

  type Sources = map<File, SourceState>

  datatype WikiState = WikiState(sources: Sources, frozenSlugs: set<Slug>)

  datatype Status = New | Changed | Unchanged | Deleted

  datatype SourceChange = SourceChange(file: File, status: Status)

  /** Of a concept that one source yields, what the compile keeps; `slug` is its slugified name. */
  datatype ExtractedConcept = ExtractedConcept(
    slug: Slug, confidence: Option<real>, merged: bool, contradictedBy: Option<seq<ContradictionRef>>)

  datatype ContradictionRef = ContradictionRef(slug: Slug, reason: string)

  datatype ExtractionResult = ExtractionResult(sourceFile: File, concepts: seq<ExtractedConcept>)

  /** How often `file` lists `slug`. */
  function Lists(sources: Sources, file: File, slug: Slug): nat {
    if file in sources then multiset(sources[file].concepts)[slug] else 0
  }

  predicate Owns(sources: Sources, file: File, slug: Slug) {
    file in sources && slug in sources[file].concepts
  }

  /** The concepts last recorded for a file, none when the file is unknown. */
  function Recorded(sources: Sources, file: File): seq<Slug> {
    if file in sources then sources[file].concepts else []
  }

  function SlugsOf(concepts: seq<ExtractedConcept>): (slugs: seq<Slug>)
    ensures |slugs| == |concepts| && forall i :: 0 <= i < |slugs| ==> slugs[i] == concepts[i].slug
  {
    seq(|concepts|, i requires 0 <= i < |concepts| => concepts[i].slug)
  }

  /** The in-memory draft of the state for one compile run. */
  class CompileStateDraft {
    var state: WikiState

    constructor Load(onDisk: WikiState)
      ensures state == onDisk
    {
      state := onDisk;
    }

    method SetSource(file: File, entry: SourceState)
      modifies this
      ensures state == old(state).(sources := old(state).sources[file := entry])
    {
      state := state.(sources := state.sources[file := entry]);
    }

    method RemoveSource(file: File)
      modifies this
      ensures state == old(state).(sources := old(state).sources - {file})
    {
      state := state.(sources := state.sources - {file});
    }

    method SetFrozen(slugs: set<Slug>)
      modifies this
      ensures state == old(state).(frozenSlugs := slugs)
    {
      state := state.(frozenSlugs := slugs);
    }
  }
}
