/**
 Approving and rejecting review candidates: what one command does while it holds the lock.
 */
module Review {
  import opened Options
  import opened Sequences
  import Supersede
  import opened WikiState

  type Id = string

  type Digest = string -> string

  datatype SourceEntry = SourceEntry(file: File, hash: Hash)

  /** `typed` says that `directory` is an entity type of a profile. */
  datatype Candidate = Candidate(slug: Slug, directory: string, typed: bool, connector: bool, body: string,
                                 sourceStates: seq<SourceEntry>)

  datatype PageId = PageId(directory: string, slug: Slug)

  /** An archived file that holds no record, such as a torn copy, is `None`. */
  type Archive = map<Id, Option<Candidate>>

  datatype Store = Store(pending: map<Id, Candidate>, archive: Archive, pages: map<PageId, string>, sources: Sources)

  /** Where an exception strikes, if at all; `InPersist(k)` after `k` sources were updated. */
  datatype Fault = NoFault | InWrite | InPersist(k: nat) | InRefresh | InDelete

  /** `refused` says that validation or the write planner turns the page down, `move` how a move to the archive ends. */
  datatype Surroundings = Surroundings(refused: bool, fault: Fault, move: Supersede.MoveOutcome)

  datatype Result =
    | Gone
    | PinMismatch
    | NotWritten
    | Approved
    | TailFailed(persisted: nat)
    | Rejected
    | NotArchived
    | Replaced

  // ----- One approval -----

  /** A connector candidate needs the operator's pin to match its body now. */
  predicate ConnectorPinMatches(digest: Digest, c: Candidate, pin: Option<string>) {
    !c.connector || (pin.Some? && digest(c.body) == pin.value)
  }

  function Deduplicated(xs: seq<Slug>): (r: seq<Slug>)
    ensures Distinct(r) && forall x :: x in r <==> x in xs
  {
    if xs == [] then [] else Add(Deduplicated(xs[..|xs| - 1]), xs[|xs| - 1])
  }

  function WithApprovedSlug(sources: Sources, file: File, slug: Slug, hash: Hash): Sources {
    sources[file := SourceState(hash, Deduplicated(Recorded(sources, file) + [slug]))]
  }

  function WithApprovedSlugs(sources: Sources, slug: Slug, entries: seq<SourceEntry>): Sources {
    if entries == [] then sources
    else
      var last := entries[|entries| - 1];
      WithApprovedSlug(WithApprovedSlugs(sources, slug, entries[..|entries| - 1]), last.file, slug, last.hash)
  }

  lemma NoApprovedSlugs(sources: Sources, slug: Slug, entries: seq<SourceEntry>)
    requires entries == []
    ensures WithApprovedSlugs(sources, slug, entries) == sources
  {}

  lemma OneMoreSource(sources: Sources, slug: Slug, entries: seq<SourceEntry>, n: nat)
    requires n < |entries|
    ensures WithApprovedSlugs(sources, slug, entries[..n + 1]) ==
      WithApprovedSlug(WithApprovedSlugs(sources, slug, entries[..n]), entries[n].file, slug, entries[n].hash)
  {
    assert entries[..n + 1][..n] == entries[..n];
  }

  /** How many sources an approval updates before it is done or an exception strikes. */
  function PersistedCount(c: Candidate, fault: Fault): (n: nat)
    ensures n <= |c.sourceStates|
  {
    if c.typed then 0
    else if fault.InPersist? && fault.k < |c.sourceStates| then fault.k
    else |c.sourceStates|
  }

  /** The tail after the page write fails. */
  predicate TailFails(c: Candidate, fault: Fault) {
    fault in {InRefresh, InDelete} || (fault.InPersist? && !c.typed && fault.k < |c.sourceStates|)
  }

  function Approve(digest: Digest, s: Store, id: Id, pin: Option<string>, w: Surroundings): (Store, Result) {
    if id !in s.pending then (s, Gone)
    else
      var c := s.pending[id];
      if !ConnectorPinMatches(digest, c, pin) then (s, PinMismatch)
      else if w.refused || w.fault == InWrite then (s, NotWritten)
      else
        var n := PersistedCount(c, w.fault);
        var written := s.(pages := s.pages[PageId(c.directory, c.slug) := c.body],
                          sources := WithApprovedSlugs(s.sources, c.slug, c.sourceStates[..n]));
        if TailFails(c, w.fault) then (written, TailFailed(n))
        else (written.(pending := s.pending - {id}), Approved)
  }

  function Reject(s: Store, id: Id, w: Surroundings): (Store, Result) {
    if id !in s.pending then (s, Gone)
    else
      var moved := s.(archive := WithCopy(s.archive, id, s.pending[id], w.move));
      if Supersede.Succeeds(w.move) then (moved.(pending := s.pending - {id}), Rejected) else (moved, NotArchived)
  }

  /** A compile or a connector writes a candidate again under the id it already has. */
  function Replace(s: Store, id: Id, c: Candidate): (Store, Result) {
    if id !in s.pending then (s, Gone) else (s.(pending := s.pending[id := c]), Replaced)
  }

  /** The archive after a move, which may have left a copy, or an empty or torn one. */
  function WithCopy(archive: Archive, id: Id, c: Candidate, move: Supersede.MoveOutcome): Archive {
    match move
    case NothingWritten => archive
    case CopiedEmpty => archive[id := None]
    case TornWrite => archive[id := None]
    case Renamed => archive[id := Some(c)]
    case Copied => archive[id := Some(c)]
    case NotUnlinked => archive[id := Some(c)]
  }

  /** A rejection keeps the record in one of the areas, but for a copy from a failed read. */
  lemma RejectKeepsRecordIff(s: Store, id: Id, w: Surroundings)
    requires id in s.pending
    ensures var after := Reject(s, id, w).0;
      ((id in after.pending && after.pending[id] == s.pending[id]) ||
       (id in after.archive && after.archive[id] == Some(s.pending[id]))) <==> w.move != Supersede.CopiedEmpty
    ensures Reject(s, id, w).1 == Rejected <==> id !in Reject(s, id, w).0.pending
    ensures Reject(s, id, w).1 == Rejected <==> w.move in {Supersede.Renamed, Supersede.Copied, Supersede.CopiedEmpty}
    ensures var after := Reject(s, id, w).0;
      forall x :: x != id ==>
        && (x in after.pending <==> x in s.pending) && (x in s.pending ==> after.pending[x] == s.pending[x])
        && (x in after.archive <==> x in s.archive) && (x in s.archive ==> after.archive[x] == s.archive[x])
    ensures Reject(s, id, w).0.pages == s.pages && Reject(s, id, w).0.sources == s.sources
  {}

  // ----- The commands -----

  class ReviewStore {
    var pending: map<Id, Candidate>
    var archive: Archive
    var pages: map<PageId, string>
    var sources: Sources

    function Value(): Store
      reads this
    {
      Store(pending, archive, pages, sources)
    }

    constructor (s: Store)
      ensures Value() == s
    {
      pending, archive, pages, sources := s.pending, s.archive, s.pages, s.sources;
    }

    method ApproveUnderLock(digest: Digest, id: Id, pin: Option<string>, w: Surroundings) returns (r: Result)
      modifies this
      ensures (Value(), r) == Approve(digest, old(Value()), id, pin, w)
    {
      hide WithApprovedSlugs, ConnectorPinMatches;
      ghost var earlier := sources;
      if id !in pending {
        return Gone;
      }
      var candidate := pending[id];
      if !ConnectorPinMatches(digest, candidate, pin) {
        return PinMismatch;
      }
      var written := RouteApprovedPageWrite(candidate, w);
      if !written {
        return NotWritten;
      }
      var persisted, failed := 0, false;
      NoApprovedSlugs(earlier, candidate.slug, candidate.sourceStates[..0]);
      if !candidate.typed {
        persisted, failed := PersistCandidateSourceStates(candidate, w.fault);
      }
      if failed || w.fault == InRefresh || w.fault == InDelete {
        return TailFailed(persisted);
      }
      pending := pending - {id};
      r := Approved;
    }

    method RouteApprovedPageWrite(c: Candidate, w: Surroundings) returns (written: bool)
      modifies this`pages
      ensures written == !(w.refused || w.fault == InWrite)
      ensures pages == if written then old(pages)[PageId(c.directory, c.slug) := c.body] else old(pages)
    {
      written := !(w.refused || w.fault == InWrite);
      if written {
        pages := pages[PageId(c.directory, c.slug) := c.body];
      }
    }

    /** Add the approved slug to each contributing source, one after the other. */
    method PersistCandidateSourceStates(c: Candidate, fault: Fault) returns (persisted: nat, failed: bool)
      requires !c.typed
      modifies this`sources
      ensures persisted == PersistedCount(c, fault)
      ensures failed <==> fault.InPersist? && fault.k < |c.sourceStates|
      ensures sources == WithApprovedSlugs(old(sources), c.slug, c.sourceStates[..persisted])
    {
      hide WithApprovedSlugs, WithApprovedSlug;
      persisted := 0;
      NoApprovedSlugs(sources, c.slug, c.sourceStates[..0]);
      while persisted < |c.sourceStates|
        invariant persisted <= |c.sourceStates|
        invariant fault.InPersist? ==> persisted <= fault.k
        invariant sources == WithApprovedSlugs(old(sources), c.slug, c.sourceStates[..persisted])
      {
        if fault == InPersist(persisted) {
          return persisted, true;
        }
        OneMoreSource(old(sources), c.slug, c.sourceStates, persisted);
        AddApprovedSlugToSourceState(c.sourceStates[persisted].file, c.slug, c.sourceStates[persisted].hash);
        persisted := persisted + 1;
      }
      failed := false;
    }

    method AddApprovedSlugToSourceState(file: File, slug: Slug, hash: Hash)
      modifies this`sources
      ensures sources == WithApprovedSlug(old(sources), file, slug, hash)
    {
      var concepts := if file in sources then sources[file].concepts else [];
      sources := sources[file := SourceState(hash, Deduplicated(concepts + [slug]))];
    }

    method RejectUnderLock(id: Id, w: Surroundings) returns (r: Result)
      modifies this
      ensures (Value(), r) == Reject(old(Value()), id, w)
    {
      if id !in pending {
        return Gone;
      }
      archive := WithCopy(archive, id, pending[id], w.move);
      if !Supersede.Succeeds(w.move) {
        return NotArchived;
      }
      pending := pending - {id};
      r := Rejected;
    }
  }
}
