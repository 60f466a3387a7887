/**
 One connector run over the candidate store: skip, supersede or stage, with every failure
 compensated. Staging canonicalizes by target when nothing was superseded.
 */
module ConnectorStaging {
  import opened Options
  import opened Sequences
  import opened Supersede

  datatype PreparedDraft = PreparedDraft(target: Target, idempotencyKey: string, contentHash: string, body: string)

  /**
   What else a run meets: the audit log, the profile, the staging checks, the readable candidates in order of their
   time stamps, the deletion of a duplicate that throws, if any, and the id a new candidate would get.
   */
  datatype Surroundings = Surroundings(preflight: bool, profile: bool, stages: bool, appends: bool,
                                       listing: seq<Id>, deletion: Option<nat>, newId: Id)

  datatype ConnectorResult =
    | Noop(candidateIds: seq<Id>)
    | Unavailable
    | Threw
    | Staged(id: Id)
    | Superseded(archivedIds: seq<Id>, id: Id)

  /** The readable pending candidates of an idempotency key. */
  function KeyIds(pending: Area, key: string): set<Id> {
    set id | id in pending && pending[id].Record? && pending[id].candidate.idempotencyKey == Some(key)
  }

  /** Every readable pending candidate once. */
  ghost predicate IsListing(listing: seq<Id>, pending: Area) {
    Distinct(listing) && forall id :: id in listing <==> id in pending && pending[id].Record?
  }

  /** The readable pending candidates for a target, in the order of the listing. */
  function SameTarget(pending: Area, listing: seq<Id>, target: Target): seq<Id> {
    Keep(listing, (id: Id) => id in TargetIds(pending, target))
  }

  lemma SameTargetIds(pending: Area, listing: seq<Id>, target: Target)
    requires IsListing(listing, pending)
    ensures Distinct(SameTarget(pending, listing, target))
    ensures AsSet(SameTarget(pending, listing, target)) == TargetIds(pending, target)
  {
    KeepMembers(listing, (id: Id) => id in TargetIds(pending, target));
    KeepDistinct(listing, (id: Id) => id in TargetIds(pending, target));
  }

  /** The readable pending candidates for a target. */
  function TargetIds(pending: Area, target: Target): set<Id> {
    set id | id in pending && pending[id].Record? && pending[id].candidate.target == target
  }

  /** Some pending candidate of the key already holds this content. */
  predicate AlreadyStaged(pending: Area, draft: PreparedDraft) {
    exists id :: id in KeyIds(pending, draft.idempotencyKey) && pending[id].candidate.contentHash == draft.contentHash
  }

  function NewRecord(draft: PreparedDraft): Stored {
    Record(Candidate(draft.target, Some(draft.idempotencyKey), draft.contentHash, draft.body))
  }

  /** A set as a list, in any order. */
  method Listing(ids: set<Id>) returns (r: seq<Id>)
    ensures Distinct(r) && AsSet(r) == ids
  {
    r := [];
    var todo := ids;
    while todo != {}
      invariant todo <= ids && Distinct(r) && forall id :: id in r <==> id in ids - todo
    {
      var id :| id in todo;
      assert id !in r;
      r := r + [id];
      todo := todo - {id};
    }
  }

  /** The queue after a candidate took the place of every candidate for its target, under the id of the earliest. */
  ghost predicate Canonicalized(pending: Area, pending': Area, draft: PreparedDraft, listing: seq<Id>, newId: Id, id: Id) {
    var same := SameTarget(pending, listing, draft.target);
    && id == (if same == [] then newId else same[0])
    && pending' == (pending - AsSet(same))[id := NewRecord(draft)]
  }

  /** The queue after the deletion of a duplicate threw: `n` duplicates are gone, the rest is still there. */
  ghost predicate PartlyCanonicalized(pending: Area, pending': Area, draft: PreparedDraft, listing: seq<Id>, n: nat) {
    var same := SameTarget(pending, listing, draft.target);
    n + 1 < |same| && pending' == (pending - AsSet(same[..n + 1]))[same[0] := NewRecord(draft)]
  }

  /** Write a candidate under the canonical id of its target and delete the duplicates, unless a deletion throws. */
  method WriteCandidate(store: CandidateStore, draft: PreparedDraft, listing: seq<Id>, deletion: Option<nat>, newId: Id)
    returns (ok: bool, id: Id)
    requires IsListing(listing, store.pending)
    modifies store
    ensures store.archive == old(store.archive) && store.moves == old(store.moves)
    ensures ok <==> !(deletion.Some? && deletion.value + 1 < |SameTarget(old(store.pending), listing, draft.target)|)
    ensures if ok then Canonicalized(old(store.pending), store.pending, draft, listing, newId, id)
      else PartlyCanonicalized(old(store.pending), store.pending, draft, listing, deletion.value)
  {
    ghost var before := store.pending;
    SameTargetIds(store.pending, listing, draft.target);
    var matching := SameTarget(store.pending, listing, draft.target);
    hide Keep, SameTarget, IsListing;
    id := if matching == [] then newId else matching[0];
    store.pending := store.pending[id := NewRecord(draft)];
    if matching == [] {
      assert AsSet(matching) == {};
      return true, id;
    }
    assert AsSet(matching[..1]) == {id};
    for i := 1 to |matching|
      invariant store.archive == old(store.archive) && store.moves == old(store.moves)
      invariant deletion.Some? ==> i <= deletion.value + 1
      invariant store.pending == (before - AsSet(matching[..i]))[id := NewRecord(draft)]
    {
      if deletion == Some(i - 1) {
        return false, id;
      }
      assert matching[i] != id;
      assert AsSet(matching[..i + 1]) == AsSet(matching[..i]) + {matching[i]};
      store.pending := store.pending - {matching[i]};
    }
    assert matching[..|matching|] == matching;
    ok := true;
  }

  /** Write a candidate under a fresh id, without canonicalizing. */
  method WriteFreshCandidate(store: CandidateStore, draft: PreparedDraft, newId: Id) returns (id: Id)
    modifies store
    ensures store.archive == old(store.archive) && store.moves == old(store.moves)
    ensures id == newId && store.pending == old(store.pending)[newId := NewRecord(draft)]
  {
    id := newId;
    store.pending := store.pending[id := NewRecord(draft)];
  }

  /** The state of the store around a run. */
  datatype Snapshot = Snapshot(pending: Area, archive: Area)

  /** The moves back after a failure: no candidate has left both areas, others stay, and a compensated queue is as it was. */
  ghost predicate FailsSafely(outcomes: nat -> MoveOutcome, start: nat, undo: nat, end: nat, before: Snapshot,
                              after: Snapshot, key: string) {
    && Holds(before.pending, before.archive, after.pending, after.archive)
    && SameBeside(before.pending, after.pending, KeyIds(before.pending, key))
    && SameBeside(before.archive, after.archive, KeyIds(before.pending, key))
    && (Compensated(outcomes, start, undo, end) ==> after.pending == before.pending)
  }

  /** Only these ids differ. */
  ghost predicate SameBeside(area: Area, area': Area, ids: set<Id>) {
    forall id :: id !in ids ==> (id in area <==> id in area') && (id in area ==> area'[id] == area[id])
  }

  /** A run that superseded: the earlier candidates of the key are in the archive, the new one is alone in the queue. */
  ghost predicate Supersedes(outcomes: nat -> MoveOutcome, start: nat, end: nat, before: Snapshot, after: Snapshot,
                             draft: PreparedDraft, id: Id) {
    var earlier := KeyIds(before.pending, draft.idempotencyKey);
    && after.pending == (before.pending - earlier)[id := NewRecord(draft)]
    && (forall x :: x in earlier ==> x in after.archive)
    && (Faithful(outcomes, start, end) ==> forall x :: x in earlier ==> after.archive[x] == before.pending[x])
    && SameBeside(before.archive, after.archive, earlier)
    && Holds(before.pending, before.archive, after.pending, after.archive)
  }

  /** A run that staged without superseding. */
  ghost predicate Stages(before: Snapshot, after: Snapshot, draft: PreparedDraft, run: Surroundings) {
    && KeyIds(before.pending, draft.idempotencyKey) == {} && after.archive == before.archive
    && exists id :: Canonicalized(before.pending, after.pending, draft, run.listing, run.newId, id)
  }

  /** A run that staged without superseding and died while deleting duplicates. */
  ghost predicate PartlyStages(before: Snapshot, after: Snapshot, draft: PreparedDraft, run: Surroundings) {
    && KeyIds(before.pending, draft.idempotencyKey) == {} && after.archive == before.archive
    && run.deletion.Some? && PartlyCanonicalized(before.pending, after.pending, draft, run.listing, run.deletion.value)
  }

  /** All that a run needs before it may touch the queue. */
  predicate MayStage(before: Snapshot, draft: PreparedDraft, run: Surroundings) {
    !AlreadyStaged(before.pending, draft) && run.profile && run.preflight
  }

  /** Every earlier candidate of the key is archived; the moves are the next ones, one for each. */
  ghost predicate Archives(outcomes: nat -> MoveOutcome, start: nat, before: Snapshot, draft: PreparedDraft) {
    AllSucceed(outcomes, start, start + |KeyIds(before.pending, draft.idempotencyKey)|)
  }

  /** Deleting a duplicate throws while the queue is canonicalized, which a superseding run does not do. */
  predicate DuplicateStays(before: Snapshot, draft: PreparedDraft, run: Surroundings) {
    && KeyIds(before.pending, draft.idempotencyKey) == {}
    && run.deletion.Some? && run.deletion.value + 1 < |SameTarget(before.pending, run.listing, draft.target)|
  }

  /** The result that follows from what the run meets. */
  ghost predicate Answers(outcomes: nat -> MoveOutcome, start: nat, before: Snapshot, draft: PreparedDraft,
                          run: Surroundings, r: ConnectorResult) {
    var stages := MayStage(before, draft, run) && Archives(outcomes, start, before, draft) && run.stages && run.appends;
    var earlier := KeyIds(before.pending, draft.idempotencyKey);
    && (r.Noop? <==> AlreadyStaged(before.pending, draft) && run.preflight && run.appends)
    && (r.Unavailable? <==>
        !AlreadyStaged(before.pending, draft) &&
        (!run.profile || (run.preflight && !Archives(outcomes, start, before, draft))))
    && (r.Staged? <==> stages && earlier == {} && !DuplicateStays(before, draft, run))
    && (r.Superseded? <==> stages && earlier != {})
  }

  /** What the run leaves: it depends on how far it comes, and not on the audit event at its end. */
  ghost predicate Leaves(outcomes: nat -> MoveOutcome, start: nat, undo: nat, end: nat, before: Snapshot, after: Snapshot,
                         draft: PreparedDraft, run: Surroundings) {
    if !MayStage(before, draft, run) then after == before && end == start
    else if !Archives(outcomes, start, before, draft) || !run.stages then
      FailsSafely(outcomes, start, undo, end, before, after, draft.idempotencyKey)
    else if KeyIds(before.pending, draft.idempotencyKey) != {} then
      Supersedes(outcomes, start, end, before, after, draft, run.newId)
    else if DuplicateStays(before, draft, run) then PartlyStages(before, after, draft, run)
    else Stages(before, after, draft, run)
  }

  method StagePreparedDraft(store: CandidateStore, draft: PreparedDraft, run: Surroundings)
    returns (r: ConnectorResult, ghost undo: nat)
    requires run.newId !in store.pending && run.newId !in store.archive && IsListing(run.listing, store.pending)
    modifies store
    ensures Answers(store.outcomes, old(store.moves), Snapshot(old(store.pending), old(store.archive)), draft, run, r)
    ensures Leaves(store.outcomes, old(store.moves), undo, store.moves, Snapshot(old(store.pending), old(store.archive)),
                   Snapshot(store.pending, store.archive), draft, run)
    ensures match r
      case Noop(ids) => AsSet(ids) == KeyIds(old(store.pending), draft.idempotencyKey)
      case Staged(id) => Canonicalized(old(store.pending), store.pending, draft, run.listing, run.newId, id)
      case Superseded(archivedIds, id) =>
        id == run.newId && AsSet(archivedIds) == KeyIds(old(store.pending), draft.idempotencyKey)
      case _ => true
  {
    hide Holds, Archived, Compensated, SameOutside, Restored, Canonicalized, PartlyCanonicalized, Faithful, Clean, NewRecord,
      KeyIds, AlreadyStaged, SameBeside, FailsSafely, Supersedes, AllSucceed, SameTarget, Stages, PartlyStages;
    undo := store.moves;
    var existing := Listing(KeyIds(store.pending, draft.idempotencyKey));
    ghost var before := Snapshot(store.pending, store.archive);
    ghost var start := store.moves;
    DistinctSize(existing);
    var staged := IsAlreadyStaged(store, existing, draft);
    if staged {
      r := if run.preflight && run.appends then Noop(existing) else Threw;
      return;
    }
    if !run.profile {
      return Unavailable, undo;
    }
    if !run.preflight {
      return Threw, undo;
    }
    ExistingPending(before.pending, draft.idempotencyKey, existing);
    var archived;
    archived, undo := store.ArchiveCandidatesWithUndo(existing);
    if !archived {
      NotArchived(store.outcomes, start, undo, store.moves, before, Snapshot(store.pending, store.archive),
                  draft.idempotencyKey, existing);
      return Unavailable, undo;
    }
    ghost var halfway := Snapshot(store.pending, store.archive);
    if !run.stages {
      store.RestoreArchivedCandidates(existing);
      NotStaged(store.outcomes, start, undo, store.moves, before, halfway, Snapshot(store.pending, store.archive),
                draft.idempotencyKey, existing);
      return Threw, undo;
    }
    var id;
    if |existing| > 0 {
      id := WriteFreshCandidate(store, draft, run.newId);
      SupersededBy(store.outcomes, start, undo, before, halfway, draft, run.newId, existing);
    } else {
      NothingToSupersede(before, halfway, existing);
      var written;
      written, id := WriteCandidate(store, draft, run.listing, run.deletion, run.newId);
      if !written {
        // nothing was archived, so there is nothing to move back
        PartlyStaged(before, Snapshot(store.pending, store.archive), draft, run);
        return Threw, undo;
      }
      StagedAs(before, Snapshot(store.pending, store.archive), draft, run, id);
    }
    if !run.appends {
      return Threw, undo;
    }
    r := if |existing| > 0 then Superseded(existing, id) else Staged(id);
  }

  lemma {:induction false} DistinctSize(ids: seq<Id>)
    requires Distinct(ids)
    ensures |AsSet(ids)| == |ids|
  {
    if ids != [] {
      var init, last := ids[..|ids| - 1], ids[|ids| - 1];
      DistinctSize(init);
      assert last !in AsSet(init);
      assert AsSet(ids) == AsSet(init) + {last};
    }
  }

  lemma StagedAs(before: Snapshot, after: Snapshot, draft: PreparedDraft, run: Surroundings, id: Id)
    requires KeyIds(before.pending, draft.idempotencyKey) == {} && after.archive == before.archive
    requires Canonicalized(before.pending, after.pending, draft, run.listing, run.newId, id)
    ensures Stages(before, after, draft, run)
  {}

  lemma PartlyStaged(before: Snapshot, after: Snapshot, draft: PreparedDraft, run: Surroundings)
    requires KeyIds(before.pending, draft.idempotencyKey) == {} && after.archive == before.archive && run.deletion.Some?
    requires PartlyCanonicalized(before.pending, after.pending, draft, run.listing, run.deletion.value)
    ensures PartlyStages(before, after, draft, run)
  {}

  /** Some listed candidate already holds the draft's content. */
  method IsAlreadyStaged(store: CandidateStore, existing: seq<Id>, draft: PreparedDraft) returns (r: bool)
    requires AsSet(existing) == KeyIds(store.pending, draft.idempotencyKey)
    ensures r == AlreadyStaged(store.pending, draft)
  {
    var key := draft.idempotencyKey;
    assert forall id :: id in existing <==> id in KeyIds(store.pending, key);
    assert forall k :: 0 <= k < |existing| ==> existing[k] in KeyIds(store.pending, key);
    r := false;
    for i := 0 to |existing|
      invariant r == exists k :: 0 <= k < i && store.pending[existing[k]].candidate.contentHash == draft.contentHash
    {
      if store.pending[existing[i]].candidate.contentHash == draft.contentHash {
        r := true;
      }
    }
  }

  lemma ExistingPending(pending: Area, key: string, existing: seq<Id>)
    requires AsSet(existing) == KeyIds(pending, key)
    ensures forall id :: id in existing ==> id in pending
  {
    assert forall id :: id in existing <==> id in AsSet(existing);
  }

  lemma NotArchived(outcomes: nat -> MoveOutcome, start: nat, undo: nat, end: nat, before: Snapshot, after: Snapshot,
                    key: string, existing: seq<Id>)
    requires AsSet(existing) == KeyIds(before.pending, key)
    requires Holds(before.pending, before.archive, after.pending, after.archive)
    requires SameOutside(before.pending, after.pending, existing) && SameOutside(before.archive, after.archive, existing)
    requires Compensated(outcomes, start, undo, end) ==> after.pending == before.pending
    ensures FailsSafely(outcomes, start, undo, end, before, after, key)
  {
    assert forall id :: id in existing <==> id in AsSet(existing);
  }

  lemma NotStaged(outcomes: nat -> MoveOutcome, start: nat, undo: nat, end: nat, before: Snapshot, halfway: Snapshot,
                  after: Snapshot, key: string, existing: seq<Id>)
    requires AsSet(existing) == KeyIds(before.pending, key)
    requires Holds(before.pending, before.archive, halfway.pending, halfway.archive)
    requires Holds(halfway.pending, halfway.archive, after.pending, after.archive)
    requires SameOutside(before.pending, halfway.pending, existing) && SameOutside(halfway.pending, after.pending, existing)
    requires SameOutside(before.archive, halfway.archive, existing) && SameOutside(halfway.archive, after.archive, existing)
    requires Archived(outcomes, start, undo, before.pending, halfway.pending, halfway.archive, existing)
    requires Clean(outcomes, undo, end) ==>
      Restored(halfway.pending, halfway.archive, after.pending, after.archive, existing)
    ensures FailsSafely(outcomes, start, undo, end, before, after, key)
  {
    HoldsTransitive(before.pending, before.archive, halfway.pending, halfway.archive, after.pending, after.archive);
    assert forall id :: id in existing <==> id in AsSet(existing);
    if Compensated(outcomes, start, undo, end) {
      ExistingPending(before.pending, key, existing);
      Undone(outcomes, start, undo, before.pending, halfway.pending, halfway.archive, after.pending, after.archive, existing);
    }
  }

  lemma SupersededBy(outcomes: nat -> MoveOutcome, start: nat, end: nat, before: Snapshot, halfway: Snapshot,
                     draft: PreparedDraft, id: Id, existing: seq<Id>)
    requires AsSet(existing) == KeyIds(before.pending, draft.idempotencyKey)
    requires Archived(outcomes, start, end, before.pending, halfway.pending, halfway.archive, existing)
    requires Holds(before.pending, before.archive, halfway.pending, halfway.archive)
    requires SameOutside(before.archive, halfway.archive, existing)
    ensures Supersedes(outcomes, start, end, before,
      Snapshot(halfway.pending[id := NewRecord(draft)], halfway.archive), draft, id)
  {
    assert forall x :: x in existing <==> x in AsSet(existing);
  }

  lemma NothingToSupersede(before: Snapshot, halfway: Snapshot, existing: seq<Id>)
    requires existing == []
    requires SameOutside(before.pending, halfway.pending, existing) && SameOutside(before.archive, halfway.archive, existing)
    ensures halfway == before
  {}

  // ----- What staging means for the queue -----

  /** A readable record of this idempotency key waits under the id. */
  predicate WaitsForKey(pending: Area, id: Id, key: string) {
    id in pending && pending[id].Record? && pending[id].candidate.idempotencyKey == Some(key)
  }

  /** A readable record for this target waits under the id. */
  predicate WaitsForTarget(pending: Area, id: Id, target: Target) {
    id in pending && pending[id].Record? && pending[id].candidate.target == target
  }

  /** After a superseding or a first staging, the draft is the only readable pending candidate of its key. */
  lemma AloneInQueue(outcomes: nat -> MoveOutcome, start: nat, end: nat, before: Snapshot, after: Snapshot,
                     draft: PreparedDraft, run: Surroundings, id: Id)
    requires id !in KeyIds(before.pending, draft.idempotencyKey)
    requires
      || Supersedes(outcomes, start, end, before, after, draft, id)
      || (KeyIds(before.pending, draft.idempotencyKey) == {} &&
          Canonicalized(before.pending, after.pending, draft, run.listing, run.newId, id))
      || (PartlyStages(before, after, draft, run) && id == SameTarget(before.pending, run.listing, draft.target)[0])
    ensures forall x :: WaitsForKey(after.pending, x, draft.idempotencyKey) <==> x == id
    ensures after.pending[id] ==
      Record(Candidate(draft.target, Some(draft.idempotencyKey), draft.contentHash, draft.body))
  {
    hide Holds, Faithful, SameTarget;
    assert forall x :: WaitsForKey(after.pending, x, draft.idempotencyKey) <==> x in KeyIds(after.pending, draft.idempotencyKey);
    assert KeyIds(after.pending, draft.idempotencyKey) == {id};
  }

  /** Staged again, a draft of the key is a no-op exactly if its content is the one that waits. */
  lemma RestagingIsNoopIff(pending: Area, id: Id, draft: PreparedDraft, again: PreparedDraft)
    requires forall x :: WaitsForKey(pending, x, draft.idempotencyKey) <==> x == id
    requires id in pending && pending[id] == NewRecord(draft) && again.idempotencyKey == draft.idempotencyKey
    ensures AlreadyStaged(pending, again) <==> again.contentHash == draft.contentHash
  {
    assert KeyIds(pending, again.idempotencyKey) == {id} by {
      assert forall x :: x in KeyIds(pending, again.idempotencyKey) <==> WaitsForKey(pending, x, draft.idempotencyKey);
    }
  }

  /**
   A first staging replaces whatever was pending for the same target, whoever staged it: the other pending records are
   kept exactly when there is none, and no id leaves both areas exactly when all but the reused one are archived.
   */
  lemma FirstStagingKeepsOthersIff(before: Snapshot, after: Snapshot, draft: PreparedDraft, listing: seq<Id>,
                                   newId: Id, id: Id)
    requires newId !in before.pending && after.archive == before.archive && IsListing(listing, before.pending)
    requires Canonicalized(before.pending, after.pending, draft, listing, newId, id)
    requires KeyIds(before.pending, draft.idempotencyKey) == {}
    ensures (forall x :: x in before.pending ==> x in after.pending && after.pending[x] == before.pending[x])
      <==> forall x :: !WaitsForTarget(before.pending, x, draft.target)
    ensures Holds(before.pending, before.archive, after.pending, after.archive)
      <==> forall x :: WaitsForTarget(before.pending, x, draft.target) ==> x == id || x in before.archive
    ensures forall x :: WaitsForTarget(after.pending, x, draft.target) <==> x == id
  {
    assert forall x :: x in TargetIds(before.pending, draft.target) <==> WaitsForTarget(before.pending, x, draft.target);
    SameTargetIds(before.pending, listing, draft.target);
    hide Keep, SameTarget, IsListing;
    var matching, same := SameTarget(before.pending, listing, draft.target), TargetIds(before.pending, draft.target);
    assert matching != [] ==> matching[0] in AsSet(matching);
    if same != {} {
      assert id in same && id !in KeyIds(before.pending, draft.idempotencyKey);
      assert after.pending[id] == NewRecord(draft) != before.pending[id];
    }
  }

  /** The id is the first one listed that waits for the target. */
  ghost predicate FirstWaiting(pending: Area, listing: seq<Id>, target: Target, id: Id) {
    exists k :: 0 <= k < |listing| && listing[k] == id && WaitsForTarget(pending, id, target) &&
      forall j :: 0 <= j < k ==> !WaitsForTarget(pending, listing[j], target)
  }

  /** Of several candidates for the target the first one listed gives its id to the draft, and its place is the only one. */
  lemma EarliestIsReused(before: Snapshot, after: Snapshot, draft: PreparedDraft, listing: seq<Id>, newId: Id, id: Id)
    requires IsListing(listing, before.pending)
    requires Canonicalized(before.pending, after.pending, draft, listing, newId, id)
    ensures (forall k :: 0 <= k < |listing| ==> !WaitsForTarget(before.pending, listing[k], draft.target)) ==> id == newId
    ensures forall k :: 0 <= k < |listing| && WaitsForTarget(before.pending, listing[k], draft.target) ==>
      FirstWaiting(before.pending, listing, draft.target, id)
  {
    var p := (x: Id) => x in TargetIds(before.pending, draft.target);
    FirstKept(listing, p);
    KeepMembers(listing, p);
    assert forall x :: p(x) <==> WaitsForTarget(before.pending, x, draft.target);
    hide Keep, IsListing;
  }

  lemma {:induction false} FirstKept(xs: seq<Id>, p: Id -> bool)
    ensures Keep(xs, p) != [] ==>
      exists k :: 0 <= k < |xs| && xs[k] == Keep(xs, p)[0] && p(xs[k]) && forall j :: 0 <= j < k ==> !p(xs[j])
  {
    if xs != [] {
      var init, last := xs[..|xs| - 1], xs[|xs| - 1];
      FirstKept(init, p);
      if Keep(init, p) == [] {
        NoneKeptBefore(init, p);
        assert p(last) ==> xs[|xs| - 1] == Keep(xs, p)[0];
      } else {
        var k :| 0 <= k < |init| && init[k] == Keep(init, p)[0] && p(init[k]) && forall j :: 0 <= j < k ==> !p(init[j]);
        assert xs[k] == Keep(xs, p)[0];
      }
    }
  }

  lemma NoneKeptBefore(xs: seq<Id>, p: Id -> bool)
    requires Keep(xs, p) == []
    ensures forall j :: 0 <= j < |xs| ==> !p(xs[j])
  {
    KeepMembers(xs, p);
    forall j | 0 <= j < |xs|
      ensures !p(xs[j])
    {
      assert xs[j] in xs;
    }
  }

  // ----- The slug that a source id gets -----

  predicate SlugChar(c: char) {
    'a' <= c <= 'z' || '0' <= c <= '9' || c == '-'
  }

  /** Each run of other characters becomes one hyphen; `run` says that one has just been written. */
  function Hyphenated(s: string, run: bool): string {
    if s == [] then []
    else if SlugChar(s[0]) then [s[0]] + Hyphenated(s[1..], false)
    else (if run then [] else ['-']) + Hyphenated(s[1..], true)
  }

  function DropHyphens(s: string): string {
    var t := if s != [] && s[0] == '-' then s[1..] else s;
    if t != [] && t[|t| - 1] == '-' then t[..|t| - 1] else t
  }

  /** The slug of a lower-cased canonical source id. */
  function HostSlug(connectorId: string, lowered: string): string {
    var suffix := DropHyphens(Hyphenated(lowered, false));
    connectorId + ['-'] + if suffix == [] then "source" else suffix
  }

  /** A lower-case letter, a digit or the hyphen, by code. */
  predicate InAlphabet(c: char) {
    var n := c as int;
    0x30 <= n <= 0x39 || 0x61 <= n <= 0x7a || n == 0x2d
  }

  lemma SlugCharsListed(c: char)
    ensures SlugChar(c) <==> InAlphabet(c)
  {}

  /** Only letters, digits and hyphens, with no hyphen at either end. */
  predicate IsWord(s: string) {
    && (forall i :: 0 <= i < |s| ==> InAlphabet(s[i]))
    && (s != [] ==> s[0] != '-' && s[|s| - 1] != '-')
  }

  predicate IsBreak(s: string) {
    s != [] && forall i :: 0 <= i < |s| ==> !InAlphabet(s[i])
  }

  lemma {:induction false} WordStays(s: string, rest: string, run: bool)
    requires forall i :: 0 <= i < |s| ==> InAlphabet(s[i])
    ensures Hyphenated(s + rest, run) == s + Hyphenated(rest, run && s == [])
  {
    hide InAlphabet, SlugChar;
    if s == [] {
      assert s + rest == rest;
    } else {
      SlugCharsListed(s[0]);
      WordStays(s[1..], rest, false);
      assert (s + rest)[1..] == s[1..] + rest;
      assert s == [s[0]] + s[1..];
    }
  }

  lemma {:induction false} BreakIsOneHyphen(s: string, rest: string, run: bool)
    requires forall i :: 0 <= i < |s| ==> !InAlphabet(s[i])
    ensures Hyphenated(s + rest, run) ==
      (if s == [] || run then [] else ['-']) + Hyphenated(rest, run || s != [])
  {
    hide InAlphabet, SlugChar;
    if s == [] {
      assert s + rest == rest;
    } else {
      SlugCharsListed(s[0]);
      BreakIsOneHyphen(s[1..], rest, true);
      assert (s + rest)[1..] == s[1..] + rest;
    }
  }

  /** The slug of a text of two words with other characters in between, or on one side if a word is missing. */
  lemma SlugOfTwoWords(connectorId: string, a: string, between: string, b: string)
    requires IsWord(a) && IsBreak(between) && IsWord(b)
    ensures HostSlug(connectorId, a + between + b) == connectorId + "-" +
      if a == [] && b == [] then "source" else if a == [] then b else if b == [] then a else a + "-" + b
  {
    hide InAlphabet, SlugChar, Hyphenated;
    assert a + between + b == a + (between + b);
    WordStays(a, between + b, false);
    BreakIsOneHyphen(between, b, false);
    WordStays(b, [], true);
    assert b + [] == b;
    NothingHyphenated(b == []);
    assert Hyphenated(a + between + b, false) == a + (['-'] + b);
    DropOuterHyphens(a, b);
  }

  lemma NothingHyphenated(run: bool)
    ensures Hyphenated([], run) == []
  {}

  lemma DropOuterHyphens(a: string, b: string)
    requires a != [] ==> a[0] != '-'
    requires b != [] ==> b[|b| - 1] != '-'
    ensures DropHyphens(a + (['-'] + b)) ==
      if a == [] then b else if b == [] then a else a + (['-'] + b)
  {
    var s := a + (['-'] + b);
    if a == [] {
      assert s[1..] == b;
    } else if b == [] {
      assert s[..|s| - 1] == a;
    }
  }

  /** Ids that differ only in characters outside the slug alphabet get one slug, so their drafts share a target. */
  lemma {:induction false} SlugsCollide(connectorId: string, s: string, t: string)
    requires |s| == |t| && forall i :: 0 <= i < |s| ==> s[i] == t[i] || (!InAlphabet(s[i]) && !InAlphabet(t[i]))
    ensures HostSlug(connectorId, s) == HostSlug(connectorId, t)
  {
    hide InAlphabet, SlugChar;
    forall i | 0 <= i < |s|
      ensures s[i] == t[i] || (!SlugChar(s[i]) && !SlugChar(t[i]))
    {
      SlugCharsListed(s[i]);
      SlugCharsListed(t[i]);
    }
    HyphenatedAlike(s, t, false);
  }

  lemma {:induction false} HyphenatedAlike(s: string, t: string, run: bool)
    requires |s| == |t| && forall i :: 0 <= i < |s| ==> s[i] == t[i] || (!SlugChar(s[i]) && !SlugChar(t[i]))
    ensures Hyphenated(s, run) == Hyphenated(t, run)
  {
    if s != [] {
      HyphenatedAlike(s[1..], t[1..], !SlugChar(s[0]));
    }
  }
}
