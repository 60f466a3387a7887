/**
 Any number of approvals and rejections at once, and of writers that replace a candidate.
 Each review command checks the candidate without the lock; every command takes the lock
 or gives up, acts on a fresh read, and releases the lock.
 */
module ReviewProtocol {
  import opened Options
  import opened Review
  import opened WikiState

  datatype Command =
    | ApproveCommand(id: Id, pin: Option<string>)
    | RejectCommand(id: Id)
    | ReplaceCommand(id: Id, record: Candidate)

  /** What a process did under the lock. */
  datatype Work = Work(process: nat, command: Command, surroundings: Surroundings)

  function Perform(digest: Digest, s: Store, work: Work): (Store, Result) {
    match work.command
    case ApproveCommand(id, pin) => Approve(digest, s, id, pin, work.surroundings)
    case RejectCommand(id) => Reject(s, id, work.surroundings)
    case ReplaceCommand(id, record) => Replace(s, id, record)
  }

  /** The store after doing some work one after the other. */
  function Replay(digest: Digest, s: Store, works: seq<Work>): Store {
    if works == [] then s
    else Perform(digest, Replay(digest, s, works[..|works| - 1]), works[|works| - 1]).0
  }

  function ResultAt(digest: Digest, s: Store, works: seq<Work>, i: nat): Result
    requires i < |works|
  {
    Perform(digest, Replay(digest, s, works[..i]), works[i]).1
  }

  // ----- The protocol -----

  datatype Phase = Start | Checked | Holding | Acted | Done

  datatype System = System(store: Store, lock: Option<nat>, phases: seq<Phase>, log: seq<Work>)

  datatype Action = PreCheck | Acquire | GiveUp | Act(surroundings: Surroundings) | Release

  /** Only the review commands look for the candidate before they take the lock. */
  predicate PassesPreCheck(command: Command, s: Store) {
    command.ReplaceCommand? || command.id in s.pending
  }

  ghost predicate Step(digest: Digest, commands: seq<Command>, s: System, p: nat, action: Action, s': System) {
    && p < |commands| == |s.phases|
    && match action
      case PreCheck =>
        s.phases[p] == Start &&
        s' == s.(phases := s.phases[p := if PassesPreCheck(commands[p], s.store) then Checked else Done])
      case Acquire =>
        s.phases[p] == Checked && s.lock.None? && s' == s.(phases := s.phases[p := Holding], lock := Some(p))
      case GiveUp =>
        s.phases[p] == Checked && s.lock.Some? && s' == s.(phases := s.phases[p := Done])
      case Act(surroundings) =>
        var work := Work(p, commands[p], surroundings);
        s.phases[p] == Holding &&
        s' == s.(phases := s.phases[p := Acted], store := Perform(digest, s.store, work).0, log := s.log + [work])
      case Release =>
        s.phases[p] == Acted && s' == s.(phases := s.phases[p := Done], lock := None)
  }

  /** The check without the lock turns a review command away exactly when acting at that moment would find nothing. */
  lemma PreCheckIsExact(digest: Digest, commands: seq<Command>, s: System, p: nat, s': System, w: Surroundings)
    requires Step(digest, commands, s, p, PreCheck, s') && !commands[p].ReplaceCommand?
    ensures s'.phases[p] == Done <==> Perform(digest, s.store, Work(p, commands[p], w)).1 == Gone
    ensures s'.store == s.store && s'.lock == s.lock && s'.log == s.log
  {}

  datatype Run = Run(commands: seq<Command>, systems: seq<System>, steps: seq<(nat, Action)>) {
    ghost predicate Valid(digest: Digest) {
      && |systems| == |steps| + 1
      && |systems[0].phases| == |commands|
      && (forall p :: 0 <= p < |commands| ==> systems[0].phases[p] == Start)
      && systems[0].lock.None? && systems[0].log == []
      && forall i :: 0 <= i < |steps| ==> Step(digest, commands, systems[i], steps[i].0, steps[i].1, systems[i + 1])
    }
  }

  predicate Holds(phase: Phase) {
    phase in {Holding, Acted}
  }

  /** Each process of the log has acted, once, on its own command. */
  ghost predicate LogOk(commands: seq<Command>, s: System) {
    && (forall i :: 0 <= i < |s.log| ==>
        s.log[i].process < |commands| == |s.phases| && s.log[i].command == commands[s.log[i].process] &&
        s.phases[s.log[i].process] in {Acted, Done})
    && forall i, j :: 0 <= i < j < |s.log| ==> s.log[i].process != s.log[j].process
  }

  /** Only the lock's holder is between taking and releasing it, and the store is what the log replays. */
  ghost predicate Inv(digest: Digest, commands: seq<Command>, s0: Store, s: System) {
    && |s.phases| == |commands|
    && (forall p :: 0 <= p < |commands| ==> (Holds(s.phases[p]) <==> s.lock == Some(p)))
    && LogOk(commands, s)
    && s.store == Replay(digest, s0, s.log)
  }

  lemma StepKeepsInv(digest: Digest, commands: seq<Command>, s0: Store, s: System, p: nat, action: Action, s': System)
    requires Inv(digest, commands, s0, s) && Step(digest, commands, s, p, action, s')
    ensures Inv(digest, commands, s0, s')
  {
    hide Perform, Replay;
    if action.Act? {
      var work := Work(p, commands[p], action.surroundings);
      assert p < |s'.phases| && s'.log == s.log + [work];
      ReplayOne(digest, s0, s.log, work);
      ActLogged(commands, s, p, work, s');
    } else {
      LogKept(commands, s, p, s'.phases[p], s');
    }
  }

  lemma ReplayOne(digest: Digest, s0: Store, works: seq<Work>, work: Work)
    ensures Replay(digest, s0, works + [work]) == Perform(digest, Replay(digest, s0, works), work).0
  {
    hide Perform;
    assert (works + [work])[..|works|] == works;
  }

  /** Work joins the log when its process acts, which it has not done before. */
  lemma ActLogged(commands: seq<Command>, s: System, p: nat, work: Work, s': System)
    requires LogOk(commands, s) && p < |commands| == |s.phases| && s.phases[p] == Holding
    requires work.process == p && work.command == commands[p]
    requires s'.phases == s.phases[p := Acted] && s'.log == s.log + [work]
    ensures LogOk(commands, s')
  {
    assert forall i :: 0 <= i < |s.log| ==> s'.log[i] == s.log[i] && s.log[i].process != p;
  }

  /** A process that is in the log stays in a phase after acting. */
  lemma LogKept(commands: seq<Command>, s: System, p: nat, phase: Phase, s': System)
    requires LogOk(commands, s) && p < |commands| == |s.phases| && s'.log == s.log
    requires s'.phases == s.phases[p := phase] && (s.phases[p] in {Acted, Done} ==> phase in {Acted, Done})
    ensures LogOk(commands, s')
  {}

  /** In every interleaving the store is that of doing the logged work one after the other, and each process acts once. */
  lemma {:induction false} RunsAreSerial(digest: Digest, run: Run, i: nat)
    requires run.Valid(digest) && i < |run.systems|
    ensures Inv(digest, run.commands, run.systems[0].store, run.systems[i])
  {
    if i > 0 {
      RunsAreSerial(digest, run, i - 1);
      StepKeepsInv(digest, run.commands, run.systems[0].store, run.systems[i - 1], run.steps[i - 1].0,
                   run.steps[i - 1].1, run.systems[i]);
    }
  }

  // ----- What a log of work does -----

  predicate Consumes(r: Result) {
    r in {Approved, Rejected}
  }

  predicate Writes(r: Result) {
    r == Approved || r.TailFailed?
  }

  lemma PerformPending(digest: Digest, s: Store, work: Work)
    ensures var (s', r) := Perform(digest, s, work);
      && s'.pending == (if Consumes(r) then s.pending - {work.command.id}
                        else if r == Replaced && work.command.ReplaceCommand? then s.pending[work.command.id := work.command.record]
                        else s.pending)
      && (work.command.id !in s.pending <==> r == Gone)
  {}

  /** The ids of pending candidates only leave. */
  lemma {:induction false} PendingShrinks(digest: Digest, s: Store, works: seq<Work>, i: nat)
    requires i <= |works|
    ensures Replay(digest, s, works).pending.Keys <= Replay(digest, s, works[..i]).pending.Keys
    decreases |works|
  {
    if works != [] {
      var init := works[..|works| - 1];
      PendingShrinks(digest, s, init, if i < |works| then i else |init|);
      PerformPending(digest, Replay(digest, s, init), works[|works| - 1]);
      if i < |works| {
        assert init[..i] == works[..i];
      } else {
        assert works[..i] == works;
      }
    }
  }

  /** The record that work `i` finds under its id. */
  function FoundAt(digest: Digest, s: Store, works: seq<Work>, i: nat): Option<Candidate>
    requires i < |works|
  {
    Found(Replay(digest, s, works[..i]), works[i].command.id)
  }

  function Found(s: Store, id: Id): Option<Candidate> {
    if id in s.pending then Some(s.pending[id]) else None
  }

  /** Whoever wrote it: the record of an id that is still pending is the one from the start or the last replacement. */
  lemma {:induction false} FoundIsLastWritten(digest: Digest, s: Store, works: seq<Work>, id: Id)
    requires id in Replay(digest, s, works).pending
    ensures id in s.pending
    ensures Replay(digest, s, works).pending[id] == LastWritten(s.pending[id], works, id)
    decreases |works|
  {
    if works != [] {
      var init, last := works[..|works| - 1], works[|works| - 1];
      PerformPending(digest, Replay(digest, s, init), last);
      FoundIsLastWritten(digest, s, init, id);
      hide Replay, LastWritten;
      assert LastWritten(s.pending[id], works, id) ==
        if last.command.ReplaceCommand? && last.command.id == id then last.command.record
        else LastWritten(s.pending[id], init, id) by {
        LastWrittenStep(s.pending[id], works, id);
      }
      assert Replay(digest, s, works) == Perform(digest, Replay(digest, s, init), last).0 by {
        assert works == init + [last];
        ReplayOne(digest, s, init, last);
      }
    }
  }

  function LastWritten(c: Candidate, works: seq<Work>, id: Id): Candidate {
    if works == [] then c
    else
      var last := works[|works| - 1].command;
      if last.ReplaceCommand? && last.id == id then last.record else LastWritten(c, works[..|works| - 1], id)
  }

  lemma LastWrittenStep(c: Candidate, works: seq<Work>, id: Id)
    requires works != []
    ensures var last := works[|works| - 1].command;
      LastWritten(c, works, id) ==
      if last.ReplaceCommand? && last.id == id then last.record else LastWritten(c, works[..|works| - 1], id)
  {}

  /** After work that consumed a candidate, it is gone for all later work. */
  lemma ConsumedOnce(digest: Digest, s: Store, works: seq<Work>, i: nat, j: nat)
    requires i < j < |works| && works[i].command.id == works[j].command.id
    requires Consumes(ResultAt(digest, s, works, i))
    ensures ResultAt(digest, s, works, j) == Gone
  {
    var id := works[i].command.id;
    PerformPending(digest, Replay(digest, s, works[..i]), works[i]);
    assert works[..i + 1][..i] == works[..i];
    assert works[..j][..i + 1] == works[..i + 1];
    PendingShrinks(digest, s, works[..j], i + 1);
    assert id !in Replay(digest, s, works[..i + 1]).pending;
    PerformPending(digest, Replay(digest, s, works[..j]), works[j]);
  }

  /**
   The page of a rejected candidate was written only by approvals that failed after the write, and all before the
   rejection.
   */
  lemma RejectedWrittenOnlyByFailedTail(digest: Digest, s: Store, works: seq<Work>, i: nat, j: nat)
    requires i < |works| && j < |works| && works[i].command.id == works[j].command.id
    ensures Writes(ResultAt(digest, s, works, i)) && ResultAt(digest, s, works, j) == Rejected ==>
      ResultAt(digest, s, works, i).TailFailed? && i < j
  {
    hide Perform, Replay;
    if Writes(ResultAt(digest, s, works, i)) && ResultAt(digest, s, works, j) == Rejected {
      if j < i {
        ConsumedOnce(digest, s, works, j, i);
      } else if i < j && ResultAt(digest, s, works, i) == Approved {
        ConsumedOnce(digest, s, works, i, j);
      }
    }
  }

  /** The work wrote the page of the record it found, and under a matching pin if that needs one. */
  ghost predicate WritesPinned(digest: Digest, found: Option<Candidate>, after: Store, command: Command) {
    && command.ApproveCommand? && found.Some?
    && var c := found.value;
      && PageId(c.directory, c.slug) in after.pages && after.pages[PageId(c.directory, c.slug)] == c.body
      && (c.connector ==> command.pin == Some(digest(after.pages[PageId(c.directory, c.slug)])))
  }

  /**
   An approval writes the body that it finds, whoever replaced the record since it was inspected; of a connector
   candidate it writes only a body with the pinned hash.
   */
  lemma WrittenBodyMatchesPin(digest: Digest, s: Store, works: seq<Work>, i: nat)
    requires i < |works|
    ensures Writes(ResultAt(digest, s, works, i)) ==>
      WritesPinned(digest, FoundAt(digest, s, works, i), Replay(digest, s, works[..i + 1]), works[i].command)
  {
    assert works[..i + 1][..i] == works[..i];
    hide WithApprovedSlugs;
  }

  /**
   A body that is replaced between inspection and approval: the approval under the inspected body's hash goes through
   exactly when the new record is no connector candidate or its body has that hash.
   */
  lemma ReplacedBodyWrittenIff(digest: Digest, s: Store, works: seq<Work>, id: Id, inspected: Candidate, k: nat, i: nat)
    requires k < i < |works| && works[k].command.ReplaceCommand? && works[k].command.id == id
    requires forall m :: k < m < i ==> !(works[m].command.ReplaceCommand? && works[m].command.id == id)
    requires id in Replay(digest, s, works[..i]).pending
    requires works[i].command == ApproveCommand(id, Some(digest(inspected.body)))
    requires works[i].surroundings == Surroundings(false, NoFault, works[i].surroundings.move)
    ensures var c, r := works[k].command.record, ResultAt(digest, s, works, i);
      && FoundAt(digest, s, works, i) == Some(c)
      && r == (if !c.connector || digest(c.body) == digest(inspected.body) then Approved else PinMismatch)
      && (r == PinMismatch ==> Replay(digest, s, works[..i + 1]) == Replay(digest, s, works[..i]))
  {
    FoundIsLastWritten(digest, s, works[..i], id);
    assert works[..i + 1][..i] == works[..i];
    ReplacedLast(s.pending[id], works, id, k, i);
    hide WithApprovedSlugs, PersistedCount;
  }

  lemma {:induction false} ReplacedLast(c: Candidate, works: seq<Work>, id: Id, k: nat, i: nat)
    requires k < i <= |works| && works[k].command.ReplaceCommand? && works[k].command.id == id
    requires forall m :: k < m < i ==> !(works[m].command.ReplaceCommand? && works[m].command.id == id)
    ensures LastWritten(c, works[..i], id) == works[k].command.record
    decreases i
  {
    assert works[..i][..i - 1] == works[..i - 1];
    if k + 1 < i {
      ReplacedLast(c, works, id, k, i - 1);
    }
  }

  // ----- The recorded concepts -----

  /** Work `i` recorded the slug of the candidate that it found for the file. */
  ghost predicate RecordsFor(digest: Digest, s: Store, works: seq<Work>, i: nat, file: File, slug: Slug) {
    && i < |works| && FoundAt(digest, s, works, i).Some?
    && Writes(ResultAt(digest, s, works, i))
    && var c := FoundAt(digest, s, works, i).value;
      c.slug == slug && ListedBefore(c.sourceStates, PersistedCount(c, works[i].surroundings.fault), file)
  }

  predicate ListedBefore(entries: seq<SourceEntry>, n: nat, file: File) {
    exists k :: 0 <= k < n && k < |entries| && entries[k].file == file
  }

  lemma OneSlugRecorded(sources: Sources, f: File, slug: Slug, hash: Hash, file: File, x: Slug)
    ensures x in Recorded(WithApprovedSlug(sources, f, slug, hash), file) <==>
      x in Recorded(sources, file) || (x == slug && f == file)
  {}

  lemma ListedBeforeNext(entries: seq<SourceEntry>, n: nat, file: File)
    requires n < |entries|
    ensures ListedBefore(entries, n + 1, file) <==> ListedBefore(entries, n, file) || entries[n].file == file
  {}

  lemma {:induction false} ApprovedSlugsRecorded(sources: Sources, slug: Slug, entries: seq<SourceEntry>, n: nat, file: File,
                                                 x: Slug)
    requires n <= |entries|
    ensures x in Recorded(WithApprovedSlugs(sources, slug, entries[..n]), file) <==>
      x in Recorded(sources, file) || (x == slug && ListedBefore(entries, n, file))
  {
    hide WithApprovedSlugs, WithApprovedSlug, Recorded;
    if n == 0 {
      NoApprovedSlugs(sources, slug, entries[..n]);
    } else {
      ApprovedSlugsRecorded(sources, slug, entries, n - 1, file, x);
      OneMoreSource(sources, slug, entries, n - 1);
      OneSlugRecorded(WithApprovedSlugs(sources, slug, entries[..n - 1]), entries[n - 1].file, slug, entries[n - 1].hash, file, x);
      ListedBeforeNext(entries, n - 1, file);
    }
  }

  /** One piece of work adds its slug to the sources it persisted, and nothing else. */
  lemma WorkRecords(digest: Digest, s: Store, work: Work, file: File, x: Slug)
    ensures var (s', r) := Perform(digest, s, work);
      x in Recorded(s'.sources, file) <==>
        || x in Recorded(s.sources, file)
        || (Writes(r) && work.command.id in s.pending && var c := s.pending[work.command.id];
            x == c.slug && ListedBefore(c.sourceStates, PersistedCount(c, work.surroundings.fault), file))
  {
    hide WithApprovedSlugs, ListedBefore, Recorded;
    if work.command.id in s.pending {
      var c := s.pending[work.command.id];
      ApprovedSlugsRecorded(s.sources, c.slug, c.sourceStates, PersistedCount(c, work.surroundings.fault), file, x);
    }
  }

  /** The last piece of work records for the file. */
  ghost predicate LastRecords(digest: Digest, before: Store, last: Work, file: File, slug: Slug) {
    && last.command.id in before.pending && Writes(Perform(digest, before, last).1)
    && var c := before.pending[last.command.id];
      slug == c.slug && ListedBefore(c.sourceStates, PersistedCount(c, last.surroundings.fault), file)
  }

  lemma RecordsForStep(digest: Digest, s: Store, init: seq<Work>, last: Work, i: nat, file: File, x: Slug)
    ensures RecordsFor(digest, s, init + [last], i, file, x) <==>
      (i < |init| && RecordsFor(digest, s, init, i, file, x)) ||
      (i == |init| && LastRecords(digest, Replay(digest, s, init), last, file, x))
  {
    hide Perform, Replay, PersistedCount, ListedBefore;
    assert (init + [last])[..|init|] == init;
    if i < |init| {
      assert (init + [last])[..i] == init[..i];
    }
  }

  lemma WorkRecordsLast(digest: Digest, s: Store, init: seq<Work>, last: Work, file: File, x: Slug)
    ensures var before := Replay(digest, s, init);
      x in Recorded(Perform(digest, before, last).0.sources, file) <==>
        x in Recorded(before.sources, file) || LastRecords(digest, before, last, file, x)
  {
    var before := Replay(digest, s, init);
    WorkRecords(digest, before, last, file, x);
    hide Perform, Replay, Recorded, PersistedCount, ListedBefore;
  }

  /** The recorded concepts of a source are the earlier ones and exactly the slugs recorded for it by some approval. */
  lemma {:induction false} ConceptsAreEarlierAndApproved(digest: Digest, s: Store, works: seq<Work>, file: File, x: Slug)
    ensures x in Recorded(Replay(digest, s, works).sources, file) <==>
      x in Recorded(s.sources, file) || exists i: nat :: RecordsFor(digest, s, works, i, file, x)
    decreases |works|
  {
    hide Perform, Recorded, RecordsFor, LastRecords;
    if works == [] {
      NothingRecorded(digest, s, works, file, x);
    } else {
      var init, last := works[..|works| - 1], works[|works| - 1];
      assert works == init + [last];
      ConceptsAreEarlierAndApproved(digest, s, init, file, x);
      WorkRecordsLast(digest, s, init, last, file, x);
      forall i: nat
        ensures RecordsFor(digest, s, works, i, file, x) <==>
          (i < |init| && RecordsFor(digest, s, init, i, file, x)) ||
          (i == |init| && LastRecords(digest, Replay(digest, s, init), last, file, x))
      {
        RecordsForStep(digest, s, init, last, i, file, x);
      }
      if i: nat :| RecordsFor(digest, s, init, i, file, x) {
        RecordsInRange(digest, s, init, i, file, x);
        assert RecordsFor(digest, s, works, i, file, x);
      }
      assert RecordsFor(digest, s, works, |init|, file, x) <==>
        LastRecords(digest, Replay(digest, s, init), last, file, x);
    }
  }

  lemma NothingRecorded(digest: Digest, s: Store, works: seq<Work>, file: File, x: Slug)
    requires works == []
    ensures !exists i: nat :: RecordsFor(digest, s, works, i, file, x)
  {}

  lemma RecordsInRange(digest: Digest, s: Store, works: seq<Work>, i: nat, file: File, x: Slug)
    requires RecordsFor(digest, s, works, i, file, x)
    ensures i < |works|
  {}

  /** Work `i` approved a default candidate that, as it found it, has this slug and lists the file. */
  ghost predicate ApprovesFor(digest: Digest, s: Store, works: seq<Work>, i: nat, file: File, slug: Slug) {
    && i < |works| && FoundAt(digest, s, works, i).Some?
    && ResultAt(digest, s, works, i) == Approved
    && var c := FoundAt(digest, s, works, i).value;
      !c.typed && c.slug == slug && exists e :: e in c.sourceStates && e.file == file
  }

  /** Without exceptions, whatever was approved in whatever order, exactly the approved slugs are added. */
  lemma ConceptsOfCrashFreeWork(digest: Digest, s: Store, works: seq<Work>, file: File, x: Slug)
    requires forall i :: 0 <= i < |works| ==> works[i].surroundings.fault == NoFault
    ensures x in Recorded(Replay(digest, s, works).sources, file) <==>
      x in Recorded(s.sources, file) || exists i: nat :: ApprovesFor(digest, s, works, i, file, x)
  {
    ConceptsAreEarlierAndApproved(digest, s, works, file, x);
    hide Recorded, Replay;
    forall i: nat
      ensures RecordsFor(digest, s, works, i, file, x) <==> ApprovesFor(digest, s, works, i, file, x)
    {
      if i < |works| && FoundAt(digest, s, works, i).Some? {
        var c := FoundAt(digest, s, works, i).value;
        ListedAnywhere(c.sourceStates, file);
      }
    }
  }

  lemma ListedAnywhere(entries: seq<SourceEntry>, file: File)
    ensures ListedBefore(entries, |entries|, file) <==> exists e :: e in entries && e.file == file
  {
    if e :| e in entries && e.file == file {
      var k :| 0 <= k < |entries| && entries[k] == e;
    }
    if k :| 0 <= k < |entries| && entries[k].file == file {
      assert entries[k] in entries;
    }
  }

  /** In every crash-free interleaving a rejected candidate's page was never written by an approval. */
  lemma CrashFreeRejectedNeverWritten(digest: Digest, run: Run, t: nat, i: nat, j: nat)
    requires run.Valid(digest) && t < |run.systems|
    requires i < |run.systems[t].log| && j < |run.systems[t].log|
    requires run.systems[t].log[i].command.id == run.systems[t].log[j].command.id
    requires forall k :: 0 <= k < |run.systems[t].log| ==> run.systems[t].log[k].surroundings.fault == NoFault
    requires ResultAt(digest, run.systems[0].store, run.systems[t].log, j) == Rejected
    ensures run.systems[t].store == Replay(digest, run.systems[0].store, run.systems[t].log)
    ensures !Writes(ResultAt(digest, run.systems[0].store, run.systems[t].log, i))
  {
    RunsAreSerial(digest, run, t);
    var s, works := run.systems[0].store, run.systems[t].log;
    if Writes(ResultAt(digest, s, works, i)) {
      RejectedWrittenOnlyByFailedTail(digest, s, works, i, j);
      assert false;
    }
  }

  /** An approval that fails while refreshing leaves its page written and the candidate pending, so it can be rejected. */
  lemma FailedTailThenRejected(digest: Digest, s: Store, id: Id, pin: Option<string>)
    requires id in s.pending && ConnectorPinMatches(digest, s.pending[id], pin)
    ensures var works := [Work(0, ApproveCommand(id, pin), Surroundings(false, InRefresh, Supersede.Renamed)),
                          Work(1, RejectCommand(id), Surroundings(false, NoFault, Supersede.Renamed))];
      && Writes(ResultAt(digest, s, works, 0)) && ResultAt(digest, s, works, 1) == Rejected
      && var c, after := s.pending[id], Replay(digest, s, works);
        PageId(c.directory, c.slug) in after.pages && after.pages[PageId(c.directory, c.slug)] == c.body
  {
    var approve := Work(0, ApproveCommand(id, pin), Surroundings(false, InRefresh, Supersede.Renamed));
    var reject := Work(1, RejectCommand(id), Surroundings(false, NoFault, Supersede.Renamed));
    var works := [approve, reject];
    assert works[..0] == [] && works[..1] == [approve] && [approve][..0] == [];
    hide WithApprovedSlugs, PersistedCount;
    assert Replay(digest, s, [approve]) == Perform(digest, s, approve).0;
    assert Replay(digest, s, works) == Perform(digest, Replay(digest, s, [approve]), reject).0;
  }
}
