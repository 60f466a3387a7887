/**
 Staging a connector's draft as a review candidate: an earlier candidate with the same
 idempotency key is archived first, and every failure is compensated by moving it back.
 */
module Supersede {
  import opened Options
  import opened Sequences

  type Id = string

  /** Where the approved page lands. */
  datatype Target = Target(directory: string, slug: string)

  /** What a candidate file holds: a record, or text that is not one. */
  datatype Stored = Record(candidate: Candidate) | Unreadable

  datatype Candidate = Candidate(target: Target, idempotencyKey: Option<string>, contentHash: string, body: string)

  type Area = map<Id, Stored>

  /**
   How a move ends: renamed; copied and unlinked; copied from a failed read, which writes an empty file and unlinks the
   source; or thrown before writing, in the middle of writing, or when unlinking after a full copy.
   */
  datatype MoveOutcome = Renamed | Copied | CopiedEmpty | NothingWritten | TornWrite | NotUnlinked

  predicate Succeeds(o: MoveOutcome) {
    o in {Renamed, Copied, CopiedEmpty}
  }

  class CandidateStore {
    var pending: Area
    var archive: Area
    /** The moves made so far; move `k` ends as `outcomes(k)`. */
    var moves: nat
    const outcomes: nat -> MoveOutcome

    constructor (pending: Area, archive: Area, outcomes: nat -> MoveOutcome)
      ensures this.pending == pending && this.archive == archive && moves == 0 && this.outcomes == outcomes
    {
      this.pending, this.archive, moves, this.outcomes := pending, archive, 0, outcomes;
    }

    /** Move a file from the pending area to the archive; false also stands for a thrown error. */
    method TryArchiveCandidate(id: Id) returns (ok: bool)
      modifies this
      ensures moves == old(moves) + 1
      ensures ok == (id in old(pending) && Succeeds(outcomes(old(moves))))
      ensures pending == LeftBehind(old(pending), id, outcomes(old(moves)))
      ensures archive == Arrived(old(pending), old(archive), id, outcomes(old(moves)))
    {
      var o := outcomes(moves);
      moves := moves + 1;
      if id !in pending {
        return false;
      }
      archive := Arrived(pending, archive, id, o);
      pending := LeftBehind(pending, id, o);
      ok := Succeeds(o);
    }

    /** Move archived candidates back; errors are swallowed. */
    method RestoreArchivedCandidates(ids: seq<Id>)
      requires Distinct(ids)
      modifies this
      ensures moves == old(moves) + |ids|
      ensures Holds(old(pending), old(archive), pending, archive)
      ensures SameOutside(old(pending), pending, ids) && SameOutside(old(archive), archive, ids)
      ensures Clean(outcomes, old(moves), moves) ==> Restored(old(pending), old(archive), pending, archive, ids)
    {
      hide Holds, Restored, SameOutside, LeftBehind, Arrived;
      NothingRestored(pending, archive);
      for i := 0 to |ids|
        invariant moves == old(moves) + i
        invariant Holds(old(pending), old(archive), pending, archive)
        invariant SameOutside(old(pending), pending, ids[..i]) && SameOutside(old(archive), archive, ids[..i])
        invariant Clean(outcomes, old(moves), moves) ==> Restored(old(pending), old(archive), pending, archive, ids[..i])
      {
        var id, o := ids[i], outcomes(moves);
        assert ids[..i + 1] == ids[..i] + [id];
        assert id !in ids[..i];
        MoveHolds(old(pending), old(archive), archive, pending, id, o);
        ArrivalOutside(old(pending), archive, pending, ids[..i], id, o);
        DepartureOutside(old(archive), archive, ids[..i], id, o);
        if Clean(outcomes, old(moves), moves + 1) {
          RestoredStep(old(pending), old(archive), pending, archive, ids[..i], id, o);
        }
        moves := moves + 1;
        if id in archive {
          pending, archive := Arrived(archive, pending, id, o), LeftBehind(archive, id, o);
        }
      }
      assert ids[..|ids|] == ids;
    }

    /** Archive superseded candidates; on a failure move the archived ones back, with moves from `undo` on. */
    method ArchiveCandidatesWithUndo(ids: seq<Id>) returns (ok: bool, ghost undo: nat)
      requires Distinct(ids) && forall id :: id in ids ==> id in pending
      modifies this
      ensures old(moves) <= undo <= moves
      ensures Holds(old(pending), old(archive), pending, archive)
      ensures SameOutside(old(pending), pending, ids) && SameOutside(old(archive), archive, ids)
      ensures ok <==> AllSucceed(outcomes, old(moves), old(moves) + |ids|)
      ensures ok ==> moves == old(moves) + |ids|
      ensures ok ==> undo == moves && Archived(outcomes, old(moves), moves, old(pending), pending, archive, ids)
      ensures !ok && Compensated(outcomes, old(moves), undo, moves) ==> pending == old(pending)
    {
      hide Holds, Archived, Faithful, Clean, Compensated, Restored, LeftBehind, Arrived, SameOutside, AllSucceed;
      ghost var start := moves;
      NothingArchived(outcomes, start, pending, archive);
      for i := 0 to |ids|
        invariant moves == start + i && AllSucceed(outcomes, start, moves)
        invariant Holds(old(pending), old(archive), pending, archive)
        invariant Archived(outcomes, start, moves, old(pending), pending, archive, ids[..i])
        invariant SameOutside(old(archive), archive, ids[..i])
      {
        ArrivalOutside(old(archive), pending, archive, ids[..i], ids[i], outcomes(moves));
        MoreSucceed(outcomes, start, start + i, start + |ids|);
        assert ids[..i + 1] == ids[..i] + [ids[i]];
        MoveHolds(old(pending), old(archive), pending, archive, ids[i], outcomes(moves));
        ArchivedStep(outcomes, start, moves, old(pending), pending, archive, ids[..i], ids[i]);
        StillPending(old(pending), pending, ids, i, outcomes, start, moves, archive);
        var archived := TryArchiveCandidate(ids[i]);
        if !archived {
          undo := moves;
          ghost var halfway, kept := pending, archive;
          RestoreArchivedCandidates(ids[..i]);
          WidenOutside(old(archive), kept, archive, ids, i);
          FailedBatch(outcomes, start, undo, moves, old(pending), old(archive), halfway, kept, pending, archive, ids, i);
          return false, undo;
        }
      }
      assert ids[..|ids|] == ids;
      undo := moves;
      ArchivedOutside(outcomes, start, moves, old(pending), pending, archive, ids);
      ok := true;
    }
  }

  /** The listed files have left the pending area for the archive, with their records if no move lost one. */
  ghost predicate Archived(outcomes: nat -> MoveOutcome, start: nat, end: nat, pending0: Area, pending: Area, archive: Area,
                           ids: seq<Id>) {
    && pending == pending0 - AsSet(ids)
    && (forall id :: id in ids ==> id in archive)
    && (Faithful(outcomes, start, end) ==> forall id :: id in ids && id in pending0 ==> archive[id] == pending0[id])
  }

  /** No archiving move lost a record and every restoring move succeeded. */
  ghost predicate Compensated(outcomes: nat -> MoveOutcome, start: nat, undo: nat, end: nat) {
    Faithful(outcomes, start, undo) && Clean(outcomes, undo, end)
  }

  /** The area that a file is moved from. */
  function LeftBehind(from: Area, id: Id, o: MoveOutcome): Area {
    if Succeeds(o) then from - {id} else from
  }

  /** The area that a file is moved to. */
  function Arrived(from: Area, to: Area, id: Id, o: MoveOutcome): Area {
    if id !in from then to
    else match o
      case Renamed => to[id := from[id]]
      case Copied => to[id := from[id]]
      case CopiedEmpty => to[id := Unreadable]
      case NothingWritten => to
      case TornWrite => to[id := Unreadable]
      case NotUnlinked => to[id := from[id]]
  }

  /** The files of an area under some ids. */
  function Taken(area: Area, ids: seq<Id>): Area {
    map id | id in area && id in ids :: area[id]
  }

  /** No id has left both areas. */
  ghost predicate Holds(pending: Area, archive: Area, pending': Area, archive': Area) {
    forall id :: id in pending || id in archive ==> id in pending' || id in archive'
  }

  /** Only the listed ids differ. */
  ghost predicate SameOutside(area: Area, area': Area, ids: seq<Id>) {
    forall id :: id !in ids ==> (id in area <==> id in area') && (id in area ==> area'[id] == area[id])
  }

  /** The listed files are back in the pending area. */
  ghost predicate Restored(pending: Area, archive: Area, pending': Area, archive': Area, ids: seq<Id>) {
    pending' == pending + Taken(archive, ids) && archive' == archive - AsSet(ids)
  }

  lemma NothingRestored(pending: Area, archive: Area)
    ensures Restored(pending, archive, pending, archive, []) && Holds(pending, archive, pending, archive)
    ensures SameOutside(pending, pending, []) && SameOutside(archive, archive, [])
  {}

  lemma MoveHolds(pending0: Area, archive0: Area, from: Area, to: Area, id: Id, o: MoveOutcome)
    requires Holds(pending0, archive0, to, from) || Holds(pending0, archive0, from, to)
    ensures var left, arrived := LeftBehind(from, id, o), Arrived(from, to, id, o);
      Holds(pending0, archive0, arrived, left) && Holds(pending0, archive0, left, arrived)
  {
    var left, arrived := LeftBehind(from, id, o), Arrived(from, to, id, o);
    forall x | x in from || x in to
      ensures x in left || x in arrived
    {}
  }

  lemma ArrivalOutside(pending0: Area, archive: Area, pending: Area, done: seq<Id>, id: Id, o: MoveOutcome)
    requires SameOutside(pending0, pending, done)
    ensures SameOutside(pending0, Arrived(archive, pending, id, o), done + [id])
    ensures SameOutside(pending0, pending, done + [id])
  {}

  lemma DepartureOutside(archive0: Area, archive: Area, done: seq<Id>, id: Id, o: MoveOutcome)
    requires SameOutside(archive0, archive, done)
    ensures SameOutside(archive0, LeftBehind(archive, id, o), done + [id])
    ensures SameOutside(archive0, archive, done + [id])
  {}

  lemma WidenOutside(archive0: Area, halfway: Area, archive: Area, ids: seq<Id>, i: nat)
    requires i < |ids| && SameOutside(archive0, halfway, ids[..i + 1]) && SameOutside(halfway, archive, ids[..i])
    ensures SameOutside(archive0, archive, ids)
  {}

  lemma RestoredStep(pending0: Area, archive0: Area, pending: Area, archive: Area, done: seq<Id>, id: Id, o: MoveOutcome)
    requires Restored(pending0, archive0, pending, archive, done) && id !in done && o in {Renamed, Copied}
    ensures if id in archive
      then Restored(pending0, archive0, Arrived(archive, pending, id, o), LeftBehind(archive, id, o), done + [id])
      else Restored(pending0, archive0, pending, archive, done + [id])
  {
    assert forall x :: x in done + [id] <==> x in done || x == id;
    assert AsSet(done + [id]) == AsSet(done) + {id};
    assert id in archive <==> id in archive0;
    if id in archive0 {
      assert Taken(archive0, done + [id]) == Taken(archive0, done)[id := archive0[id]];
    } else {
      assert Taken(archive0, done + [id]) == Taken(archive0, done);
    }
  }

  /** The moves from `a` to `b` report success. */
  ghost predicate AllSucceed(outcomes: nat -> MoveOutcome, a: nat, b: nat) {
    forall k :: a <= k < b ==> Succeeds(outcomes(k))
  }

  /** The moves from `a` to `b` all did what they should. */
  ghost predicate Clean(outcomes: nat -> MoveOutcome, a: nat, b: nat) {
    forall k :: a <= k < b ==> outcomes(k) in {Renamed, Copied}
  }

  /** None of the moves from `a` to `b` lost the record it moved. */
  ghost predicate Faithful(outcomes: nat -> MoveOutcome, a: nat, b: nat) {
    forall k :: a <= k < b ==> outcomes(k) != CopiedEmpty
  }

  // ----- The archiving loop -----

  lemma NothingArchived(outcomes: nat -> MoveOutcome, start: nat, pending: Area, archive: Area)
    ensures Archived(outcomes, start, start, pending, pending, archive, []) && Holds(pending, archive, pending, archive)
    ensures SameOutside(archive, archive, []) && AllSucceed(outcomes, start, start)
  {}

  lemma MoreSucceed(outcomes: nat -> MoveOutcome, start: nat, now: nat, end: nat)
    requires start <= now < end && AllSucceed(outcomes, start, now)
    ensures AllSucceed(outcomes, start, now + 1) <==> Succeeds(outcomes(now))
    ensures !Succeeds(outcomes(now)) ==> !AllSucceed(outcomes, start, end)
  {}

  lemma ArchivedStep(outcomes: nat -> MoveOutcome, start: nat, now: nat, pending0: Area, pending: Area, archive: Area,
                     done: seq<Id>, id: Id)
    requires start <= now && id !in done && id in pending0
    requires Archived(outcomes, start, now, pending0, pending, archive, done)
    ensures var o := outcomes(now);
      && LeftBehind(pending, id, o) == (if Succeeds(o) then pending0 - AsSet(done + [id]) else pending)
      && Archived(outcomes, start, now + 1, pending0, pending, Arrived(pending, archive, id, o), done)
      && (Succeeds(o) ==>
          Archived(outcomes, start, now + 1, pending0, LeftBehind(pending, id, o), Arrived(pending, archive, id, o), done + [id]))
  {
    assert AsSet(done + [id]) == AsSet(done) + {id};
  }

  lemma StillPending(pending0: Area, pending: Area, ids: seq<Id>, i: nat,
                     outcomes: nat -> MoveOutcome, start: nat, now: nat, archive: Area)
    requires i < |ids| && Distinct(ids) && ids[i] in pending0
    requires Archived(outcomes, start, now, pending0, pending, archive, ids[..i])
    ensures ids[i] in pending && ids[i] !in ids[..i] && Distinct(ids[..i])
  {}

  /** What a failed batch leaves after the moves back. */
  lemma FailedBatch(outcomes: nat -> MoveOutcome, start: nat, undo: nat, end: nat, pending0: Area, archive0: Area,
                    halfway: Area, kept: Area, pending: Area, archive: Area, ids: seq<Id>, i: nat)
    requires i < |ids| && Archived(outcomes, start, undo, pending0, halfway, kept, ids[..i])
    requires forall id :: id in ids ==> id in pending0
    requires Holds(pending0, archive0, halfway, kept) && Holds(halfway, kept, pending, archive)
    requires SameOutside(halfway, pending, ids[..i])
    requires Clean(outcomes, undo, end) ==> Restored(halfway, kept, pending, archive, ids[..i])
    ensures Holds(pending0, archive0, pending, archive) && SameOutside(pending0, pending, ids)
    ensures Compensated(outcomes, start, undo, end) ==> pending == pending0
  {
    hide Holds, Archived, SameOutside, Restored, Clean, Faithful;
    UndoneOutside(outcomes, start, undo, pending0, halfway, kept, pending, ids, i);
    HoldsTransitive(pending0, archive0, halfway, kept, pending, archive);
    if Compensated(outcomes, start, undo, end) {
      Undone(outcomes, start, undo, pending0, halfway, kept, pending, archive, ids[..i]);
    }
  }

  lemma ArchivedOutside(outcomes: nat -> MoveOutcome, start: nat, now: nat, pending0: Area, pending: Area, archive: Area,
                        ids: seq<Id>)
    requires Archived(outcomes, start, now, pending0, pending, archive, ids)
    ensures SameOutside(pending0, pending, ids)
  {}

  lemma UndoneOutside(outcomes: nat -> MoveOutcome, start: nat, undo: nat, pending0: Area, halfway: Area, kept: Area,
                      pending: Area, ids: seq<Id>, i: nat)
    requires i < |ids| && Archived(outcomes, start, undo, pending0, halfway, kept, ids[..i])
    requires SameOutside(halfway, pending, ids[..i])
    ensures SameOutside(pending0, pending, ids)
  {}

  lemma HoldsTransitive(p0: Area, a0: Area, p1: Area, a1: Area, p2: Area, a2: Area)
    requires Holds(p0, a0, p1, a1) && Holds(p1, a1, p2, a2)
    ensures Holds(p0, a0, p2, a2)
  {}

  /** Moving back what was archived restores the pending area. */
  lemma Undone(outcomes: nat -> MoveOutcome, start: nat, undo: nat, pending0: Area, halfway: Area, kept: Area,
               pending: Area, archive: Area, done: seq<Id>)
    requires Archived(outcomes, start, undo, pending0, halfway, kept, done) && Faithful(outcomes, start, undo)
    requires forall id :: id in done ==> id in pending0
    requires Restored(halfway, kept, pending, archive, done)
    ensures pending == pending0
  {}
}
