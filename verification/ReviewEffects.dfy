/**
 What any sequence of review work leaves: of every page and every recorded source, the last
 approval that wrote it decides, and what no approval wrote is as it was.
 */
module ReviewEffects {
  import opened Options
  import opened Review
  import opened ReviewProtocol
  import opened WikiState

  // ----- One approval -----

  /** The candidate is there, its pin matches if it needs one, and the write planner takes the page. */
  predicate IsWritten(digest: Digest, s: Store, id: Id, pin: Option<string>, w: Surroundings) {
    && id in s.pending && !w.refused && w.fault != InWrite
    && (s.pending[id].connector ==> pin == Some(digest(s.pending[id].body)))
  }

  /** The exception strikes after the page write; sources are only updated for candidates of no profile type. */
  predicate DiesInTail(c: Candidate, fault: Fault) {
    match fault
    case InRefresh => true
    case InDelete => true
    case InPersist(k) => !c.typed && k < |c.sourceStates|
    case _ => false
  }

  /** What an approval answers, from what it finds; an approval that wrote no page left everything as it was. */
  lemma ApprovalAnswers(digest: Digest, s: Store, id: Id, pin: Option<string>, w: Surroundings)
    ensures var (after, r) := Approve(digest, s, id, pin, w);
      && (r == Gone <==> id !in s.pending)
      && (r == PinMismatch <==>
        id in s.pending && s.pending[id].connector && pin != Some(digest(s.pending[id].body)))
      && (Writes(r) <==> IsWritten(digest, s, id, pin, w))
      && (r.TailFailed? <==> IsWritten(digest, s, id, pin, w) && DiesInTail(s.pending[id], w.fault))
      && (!Writes(r) ==> after == s)
      && (r == Approved <==> id in s.pending && id !in after.pending)
      && after.archive == s.archive && after.pending.Keys + {id} == s.pending.Keys + {id}
  {}

  // ----- Pages -----

  /** Work `i` wrote this page. */
  ghost predicate WritesPage(digest: Digest, s: Store, works: seq<Work>, i: nat, page: PageId) {
    && i < |works| && FoundAt(digest, s, works, i).Some? && Writes(ResultAt(digest, s, works, i))
    && var c := FoundAt(digest, s, works, i).value;
      PageId(c.directory, c.slug) == page
  }

  ghost predicate WritesPageLast(digest: Digest, s: Store, works: seq<Work>, i: nat, page: PageId) {
    WritesPage(digest, s, works, i, page) && forall j: nat :: i < j ==> !WritesPage(digest, s, works, j, page)
  }

  /** The page's body, if it has one. */
  function BodyOf(s: Store, page: PageId): Option<string> {
    if page in s.pages then Some(s.pages[page]) else None
  }

  /** What work at the end of a sequence finds and answers, and that earlier work is as it was. */
  lemma WorkAtEnd(digest: Digest, s: Store, init: seq<Work>, last: Work)
    ensures var works, before := init + [last], Replay(digest, s, init);
      && Replay(digest, s, works) == Perform(digest, before, last).0
      && ResultAt(digest, s, works, |init|) == Perform(digest, before, last).1
      && FoundAt(digest, s, works, |init|) == Found(before, last.command.id)
      && forall i: nat :: i < |init| ==>
        ResultAt(digest, s, works, i) == ResultAt(digest, s, init, i) && FoundAt(digest, s, works, i) == FoundAt(digest, s, init, i)
  {
    var works := init + [last];
    assert works[..|init|] == init;
    forall i: nat | i < |init|
      ensures works[..i] == init[..i]
    {}
  }

  lemma PerformWritesPage(digest: Digest, s: Store, work: Work, page: PageId)
    ensures var (after, r) := Perform(digest, s, work);
      BodyOf(after, page) ==
        if Writes(r) && Found(s, work.command.id).Some? && var c := s.pending[work.command.id]; PageId(c.directory, c.slug) == page
        then Some(s.pending[work.command.id].body)
        else BodyOf(s, page)
  {
    hide WithApprovedSlugs, PersistedCount;
  }

  lemma PageStep(digest: Digest, s: Store, init: seq<Work>, last: Work, page: PageId)
    ensures var works, n := init + [last], |init|;
      && (forall i: nat :: i != n ==> WritesPage(digest, s, works, i, page) == WritesPage(digest, s, init, i, page))
      && (forall i: nat :: i < n ==> FoundAt(digest, s, works, i) == FoundAt(digest, s, init, i))
      && (WritesPage(digest, s, works, n, page) ==>
        BodyOf(Replay(digest, s, works), page) == Some(FoundAt(digest, s, works, n).value.body))
      && (!WritesPage(digest, s, works, n, page) ==>
        BodyOf(Replay(digest, s, works), page) == BodyOf(Replay(digest, s, init), page))
  {
    WorkAtEnd(digest, s, init, last);
    PerformWritesPage(digest, Replay(digest, s, init), last, page);
    hide Replay, ResultAt, FoundAt, Perform, BodyOf;
  }

  /** A page has the body that the last approval which wrote it found; one that none wrote is as it was. */
  lemma {:induction false} PageIsLastWritten(digest: Digest, s: Store, works: seq<Work>, page: PageId)
    ensures (forall i: nat :: !WritesPage(digest, s, works, i, page)) ==>
      BodyOf(Replay(digest, s, works), page) == BodyOf(s, page)
    ensures forall i: nat :: WritesPageLast(digest, s, works, i, page) ==>
      i < |works| && BodyOf(Replay(digest, s, works), page) == Some(FoundAt(digest, s, works, i).value.body)
    decreases |works|
  {
    if works != [] {
      var init, last := works[..|works| - 1], works[|works| - 1];
      assert works == init + [last];
      PageIsLastWritten(digest, s, init, page);
      PageStep(digest, s, init, last, page);
      hide Replay, ResultAt, FoundAt, Perform, BodyOf, WritesPage;
      WritesPageIn(digest, s, works, page);
      forall i: nat | i < |init| && WritesPageLast(digest, s, works, i, page)
        ensures WritesPageLast(digest, s, init, i, page)
      {}
    }
  }

  lemma WritesPageIn(digest: Digest, s: Store, works: seq<Work>, page: PageId)
    ensures forall i: nat :: WritesPage(digest, s, works, i, page) ==> i < |works|
  {}

  // ----- Recorded sources -----

  /** Work `i` updated this source. */
  ghost predicate Updates(digest: Digest, s: Store, works: seq<Work>, i: nat, file: File) {
    && i < |works| && FoundAt(digest, s, works, i).Some? && Writes(ResultAt(digest, s, works, i))
    && ListedBefore(Listed(digest, s, works, i), |Listed(digest, s, works, i)|, file)
  }

  ghost predicate UpdatesLast(digest: Digest, s: Store, works: seq<Work>, i: nat, file: File) {
    Updates(digest, s, works, i, file) && forall j: nat :: i < j ==> !Updates(digest, s, works, j, file)
  }

  /** The sources that work `i` updates when it writes: those before the exception, and none for a typed candidate. */
  function Listed(digest: Digest, s: Store, works: seq<Work>, i: nat): seq<SourceEntry>
    requires i < |works| && FoundAt(digest, s, works, i).Some?
  {
    UpdatedEntries(FoundAt(digest, s, works, i).value, works[i].surroundings.fault)
  }

  function UpdatedEntries(c: Candidate, fault: Fault): seq<SourceEntry> {
    if c.typed then [] else if fault.InPersist? && fault.k <= |c.sourceStates| then c.sourceStates[..fault.k] else c.sourceStates
  }

  /** The hash of the last entry for the file. */
  function LastHash(entries: seq<SourceEntry>, file: File): Option<Hash> {
    if entries == [] then None
    else
      var last := entries[|entries| - 1];
      if last.file == file then Some(last.hash) else LastHash(entries[..|entries| - 1], file)
  }

  function HashOf(sources: Sources, file: File): Option<Hash> {
    if file in sources then Some(sources[file].hash) else None
  }

  lemma OneHashSet(sources: Sources, file: File, slug: Slug, hash: Hash, f: File)
    ensures HashOf(WithApprovedSlug(sources, file, slug, hash), f) == if f == file then Some(hash) else HashOf(sources, f)
  {}

  lemma {:induction false} SlugsSetHash(sources: Sources, slug: Slug, entries: seq<SourceEntry>, file: File)
    ensures HashOf(WithApprovedSlugs(sources, slug, entries), file) ==
      if LastHash(entries, file).Some? then LastHash(entries, file) else HashOf(sources, file)
    decreases |entries|
  {
    hide HashOf, WithApprovedSlug;
    if entries != [] {
      var init, last := entries[..|entries| - 1], entries[|entries| - 1];
      SlugsSetHash(sources, slug, init, file);
      OneHashSet(WithApprovedSlugs(sources, slug, init), last.file, slug, last.hash, file);
    }
  }

  lemma {:induction false} LastHashIff(entries: seq<SourceEntry>, file: File)
    ensures LastHash(entries, file).Some? <==> ListedBefore(entries, |entries|, file)
    decreases |entries|
  {
    if entries != [] {
      var init, last := entries[..|entries| - 1], entries[|entries| - 1];
      LastHashIff(init, file);
      assert entries == init + [last];
      EntryAdded(init, last, file);
    }
  }

  lemma EntryAdded(init: seq<SourceEntry>, last: SourceEntry, file: File)
    ensures ListedBefore(init + [last], |init| + 1, file) <==> ListedBefore(init, |init|, file) || last.file == file
  {
    var entries := init + [last];
    assert forall k :: 0 <= k < |init| ==> entries[k] == init[k];
    assert entries[|init|] == last;
  }

  /** The entries that an approval persists. */
  lemma PersistedEntries(c: Candidate, fault: Fault)
    ensures c.sourceStates[..PersistedCount(c, fault)] == UpdatedEntries(c, fault)
  {}

  lemma ApprovalSetsSources(digest: Digest, s: Store, id: Id, pin: Option<string>, w: Surroundings)
    requires id in s.pending
    ensures var ((after, r), c) := (Approve(digest, s, id, pin, w), s.pending[id]);
      after.sources == if Writes(r) then WithApprovedSlugs(s.sources, c.slug, UpdatedEntries(c, w.fault)) else s.sources
  {
    hide WithApprovedSlugs, ConnectorPinMatches, UpdatedEntries, PersistedCount;
    PersistedEntries(s.pending[id], w.fault);
  }

  lemma PerformSetsHash(digest: Digest, s: Store, work: Work, file: File)
    ensures var (after, r) := Perform(digest, s, work);
      HashOf(after.sources, file) ==
        if Writes(r) && Found(s, work.command.id).Some? &&
           LastHash(UpdatedEntries(s.pending[work.command.id], work.surroundings.fault), file).Some?
        then LastHash(UpdatedEntries(s.pending[work.command.id], work.surroundings.fault), file)
        else HashOf(s.sources, file)
  {
    hide WithApprovedSlugs, LastHash, UpdatedEntries, Approve, HashOf;
    if work.command.ApproveCommand? && work.command.id in s.pending {
      var c := s.pending[work.command.id];
      ApprovalSetsSources(digest, s, work.command.id, work.command.pin, work.surroundings);
      SlugsSetHash(s.sources, c.slug, UpdatedEntries(c, work.surroundings.fault), file);
    } else {
      NotApproved(digest, s, work);
    }
  }

  lemma NotApproved(digest: Digest, s: Store, work: Work)
    requires !work.command.ApproveCommand? || work.command.id !in s.pending
    ensures var (after, r) := Perform(digest, s, work);
      after.sources == s.sources && !Writes(r)
  {}

  lemma UpdateStep(digest: Digest, s: Store, init: seq<Work>, last: Work, file: File)
    ensures var works, n := init + [last], |init|;
      && (forall i: nat :: i != n ==> Updates(digest, s, works, i, file) == Updates(digest, s, init, i, file))
      && (forall i: nat :: Updates(digest, s, init, i, file) ==> Listed(digest, s, works, i) == Listed(digest, s, init, i))
      && (Updates(digest, s, works, n, file) ==>
        HashOf(Replay(digest, s, works).sources, file) == LastHash(Listed(digest, s, works, n), file))
      && (!Updates(digest, s, works, n, file) ==>
        HashOf(Replay(digest, s, works).sources, file) == HashOf(Replay(digest, s, init).sources, file))
  {
    WorkAtEnd(digest, s, init, last);
    var before := Replay(digest, s, init);
    PerformSetsHash(digest, before, last, file);
    if last.command.id in before.pending {
      LastHashIff(UpdatedEntries(before.pending[last.command.id], last.surroundings.fault), file);
    }
    hide Replay, ResultAt, FoundAt, Perform, HashOf, LastHash, UpdatedEntries, ListedBefore;
  }

  /**
   A source is recorded under the hash that the last approval which updated it held for it, so that it counts as
   unchanged as long as its digest is that one; what no approval updated has the hash it had.
   */
  lemma {:induction false} HashIsLastApproved(digest: Digest, s: Store, works: seq<Work>, file: File)
    ensures (forall i: nat :: !Updates(digest, s, works, i, file)) ==>
      HashOf(Replay(digest, s, works).sources, file) == HashOf(s.sources, file)
    ensures forall i: nat :: UpdatesLast(digest, s, works, i, file) ==>
      HashOf(Replay(digest, s, works).sources, file) == LastHash(Listed(digest, s, works, i), file)
    decreases |works|
  {
    if works != [] {
      var init, last := works[..|works| - 1], works[|works| - 1];
      assert works == init + [last];
      HashIsLastApproved(digest, s, init, file);
      UpdateStep(digest, s, init, last, file);
      hide Replay, ResultAt, FoundAt, Perform, HashOf, LastHash, UpdatedEntries, ListedBefore, Updates, Listed;
      UpdatesIn(digest, s, works, file);
      forall i: nat | i < |init| && UpdatesLast(digest, s, works, i, file)
        ensures UpdatesLast(digest, s, init, i, file)
      {}
    }
  }

  lemma UpdatesIn(digest: Digest, s: Store, works: seq<Work>, file: File)
    ensures forall i: nat :: Updates(digest, s, works, i, file) ==> i < |works|
  {}
}
