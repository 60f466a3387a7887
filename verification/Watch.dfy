/**
 The watch loop: file events arm a debounce timer, its callback compiles or queues one more
 compile. File events, timer callbacks and compile completions interleave in any order.
 */
module Watch {
  import opened Options

  type Timer = nat

  /**
   What the event loop and the handlers share. `armed`, `running` and the counters describe the surroundings: the timers
   that can still fire, the compiles in progress, and when the last event and the last compile start happened.
   */
  datatype Loop = Loop(
    compiling: bool, pendingRecompile: bool, debounceTimer: Option<Timer>,
    armed: set<Timer>, nextTimer: Timer, running: nat,
    now: nat, lastEvent: nat, lastStart: nat, events: nat, starts: nat)

  const START := Loop(false, false, None, {}, 0, 0, 0, 0, 0, 0, 0)

  function Started(s: Loop): Loop {
    s.(compiling := true, running := s.running + 1, lastStart := s.now, starts := s.starts + 1)
  }

  /** The callback up to its first wait. */
  function Triggered(s: Loop): Loop {
    if s.compiling then s.(pendingRecompile := true) else Started(s)
  }

  /** A file event clears the timer and arms another. */
  function OnEvent(s: Loop): Loop {
    var cleared := if s.debounceTimer.Some? then s.armed - {s.debounceTimer.value} else s.armed;
    s.(debounceTimer := Some(s.nextTimer), armed := cleared + {s.nextTimer}, nextTimer := s.nextTimer + 1,
       now := s.now + 1, lastEvent := s.now + 1, events := s.events + 1)
  }

  function OnTimer(s: Loop, t: Timer): Loop {
    Triggered(s.(armed := s.armed - {t}, now := s.now + 1))
  }

  /** A compile, failed or not, comes to its end; a queued one starts at once. */
  function OnCompileEnd(s: Loop): Loop
    requires s.running > 0
  {
    var ended := s.(compiling := false, running := s.running - 1, now := s.now + 1);
    if ended.pendingRecompile then Triggered(ended.(pendingRecompile := false)) else ended
  }

  // ----- The handlers -----

  class Watcher {
    var compiling: bool
    var pendingRecompile: bool
    var debounceTimer: Option<Timer>
    /** The surroundings, kept here to say what the handlers ask of them. */
    var outside: Loop

    function Value(): Loop
      reads this
    {
      outside.(compiling := compiling, pendingRecompile := pendingRecompile, debounceTimer := debounceTimer)
    }

    constructor ()
      ensures Value() == START
    {
      compiling, pendingRecompile, debounceTimer, outside := false, false, None, START;
    }

    method ScheduleCompile()
      modifies this
      ensures Value() == OnEvent(old(Value()))
    {
      outside := outside.(now := outside.now + 1, lastEvent := outside.now + 1, events := outside.events + 1);
      if debounceTimer.Some? {
        ClearTimeout(debounceTimer.value);
      }
      var timer := SetTimeout();
      debounceTimer := Some(timer);
    }

    method ClearTimeout(t: Timer)
      modifies this`outside
      ensures outside == old(outside).(armed := old(outside).armed - {t})
    {
      outside := outside.(armed := outside.armed - {t});
    }

    method SetTimeout() returns (t: Timer)
      modifies this`outside
      ensures t == old(outside).nextTimer
      ensures outside == old(outside).(armed := old(outside).armed + {t}, nextTimer := t + 1)
    {
      t := outside.nextTimer;
      outside := outside.(armed := outside.armed + {t}, nextTimer := t + 1);
    }

    method TimerFires(t: Timer)
      modifies this
      ensures Value() == OnTimer(old(Value()), t)
    {
      outside := outside.(armed := outside.armed - {t}, now := outside.now + 1);
      TriggerCompile();
    }

    method TriggerCompile()
      modifies this
      ensures Value() == Triggered(old(Value()))
    {
      if compiling {
        pendingRecompile := true;
        return;
      }
      compiling := true;
      outside := outside.(running := outside.running + 1, lastStart := outside.now, starts := outside.starts + 1);
    }

    method CompileEnds()
      requires Value().running > 0
      modifies this
      ensures Value() == OnCompileEnd(old(Value()))
    {
      outside := outside.(running := outside.running - 1, now := outside.now + 1);
      compiling := false;
      if pendingRecompile {
        pendingRecompile := false;
        TriggerCompile();
      }
    }
  }

  // ----- Every interleaving -----

  datatype Action = FileEvent | TimerFired(timer: Timer) | CompileEnded

  ghost predicate Step(s: Loop, action: Action, s': Loop) {
    match action
    case FileEvent => s' == OnEvent(s)
    case TimerFired(t) => t in s.armed && s' == OnTimer(s, t)
    case CompileEnded => s.running > 0 && s' == OnCompileEnd(s)
  }

  ghost predicate Run(states: seq<Loop>, actions: seq<Action>) {
    && |states| == |actions| + 1
    && forall i :: 0 <= i < |actions| ==> Step(states[i], actions[i], states[i + 1])
  }

  /** At most one compile and one timer; an event not yet seen by a compile has a timer or a queued compile. */
  ghost predicate Inv(s: Loop) {
    && (s.compiling <==> s.running == 1) && s.running <= 1
    && (s.pendingRecompile ==> s.compiling)
    && (s.armed != {} ==> s.debounceTimer.Some? && s.armed == {s.debounceTimer.value})
    && (s.debounceTimer.Some? ==> s.debounceTimer.value < s.nextTimer)
    && s.lastEvent <= s.now && s.lastStart <= s.now
    && (s.armed != {} || s.pendingRecompile || s.events == 0 || s.lastEvent < s.lastStart)
    && s.starts + (if s.armed != {} then 1 else 0) + (if s.pendingRecompile then 1 else 0) <= s.events
  }

  lemma StepKeepsInv(s: Loop, action: Action, s': Loop)
    requires Inv(s) && Step(s, action, s')
    ensures Inv(s')
  {
    match action
    case FileEvent =>
    case TimerFired(t) => assert s.armed - {t} == {};
    case CompileEnded =>
  }

  lemma {:induction false} RunKeepsInv(states: seq<Loop>, actions: seq<Action>, i: nat)
    requires Run(states, actions) && Inv(states[0]) && i < |states|
    ensures Inv(states[i])
  {
    if i > 0 {
      RunKeepsInv(states, actions, i - 1);
      StepKeepsInv(states[i - 1], actions[i - 1], states[i]);
    }
  }

  predicate Idle(s: Loop) {
    s.running == 0 && s.armed == {}
  }

  // ----- Starts and events, read off a run -----

  /** Step `m` starts a compile: one more is in progress, or still as many although one has ended. */
  ghost predicate StartsAt(states: seq<Loop>, actions: seq<Action>, m: nat) {
    && m < |actions| && m + 1 < |states|
    && match actions[m]
      case FileEvent => false
      case TimerFired(_) => states[m + 1].running > states[m].running
      case CompileEnded => states[m + 1].running == states[m].running
  }

  ghost function StartCount(states: seq<Loop>, actions: seq<Action>, i: nat): nat {
    if i == 0 then 0 else StartCount(states, actions, i - 1) + if StartsAt(states, actions, i - 1) then 1 else 0
  }

  function EventCount(actions: seq<Action>, i: nat): nat
    requires i <= |actions|
  {
    if i == 0 then 0 else EventCount(actions, i - 1) + if actions[i - 1] == FileEvent then 1 else 0
  }

  /** The counters of the model say what the run shows. */
  ghost predicate CountersAgree(states: seq<Loop>, actions: seq<Action>, i: nat)
    requires i < |states| && i <= |actions|
  {
    var s := states[i];
    && s.now == i && s.events == EventCount(actions, i) && s.starts == StartCount(states, actions, i)
    && (forall k :: 0 <= k < i && actions[k] == FileEvent ==> k < s.lastEvent)
    && (s.lastStart == 0 || (s.lastStart <= i && StartsAt(states, actions, s.lastStart - 1)))
  }

  lemma {:induction false} RunCounts(states: seq<Loop>, actions: seq<Action>, i: nat)
    requires Run(states, actions) && states[0] == START && i < |states|
    ensures CountersAgree(states, actions, i)
  {
    if i > 0 {
      RunCounts(states, actions, i - 1);
      RunKeepsInv(states, actions, i - 1);
      assert Step(states[i - 1], actions[i - 1], states[i]);
    }
  }

  /** Some events have come before step `i`. */
  predicate EventBefore(actions: seq<Action>, i: nat, k: nat) {
    k < i <= |actions| && actions[k] == FileEvent
  }

  lemma {:induction false} NoEvents(actions: seq<Action>, i: nat)
    requires i <= |actions| && EventCount(actions, i) == 0
    ensures forall k: nat :: !EventBefore(actions, i, k)
  {
    if i > 0 {
      NoEvents(actions, i - 1);
      forall k: nat
        ensures !EventBefore(actions, i, k)
      {
        assert k < i - 1 ==> !EventBefore(actions, i - 1, k);
      }
    }
  }

  /**
   In every interleaving at most one compile runs and no more compiles start than events arrived; and whenever the watcher
   is idle, some compile started after each event.
   */
  lemma WatchIsSafe(states: seq<Loop>, actions: seq<Action>, i: nat)
    requires Run(states, actions) && states[0] == START && i < |states|
    ensures states[i].running <= 1 && |states[i].armed| <= 1
    ensures StartCount(states, actions, i) <= EventCount(actions, i)
    ensures Idle(states[i]) ==>
      forall k: nat :: EventBefore(actions, i, k) ==> exists m: nat :: k < m < i && StartsAt(states, actions, m)
  {
    RunKeepsInv(states, actions, i);
    RunCounts(states, actions, i);
    hide StartsAt, StartCount, EventCount, Run;
    if states[i].events == 0 {
      NoEvents(actions, i);
    } else if Idle(states[i]) {
      assert StartsAt(states, actions, states[i].lastStart - 1);
    }
    var s := states[i];
    if s.armed != {} {
      assert s.armed == {s.debounceTimer.value};
    }
  }

  /** How many steps the loop can still make without an event. */
  function Outstanding(s: Loop): nat {
    (if s.armed != {} then 2 else 0) + s.running + if s.pendingRecompile then 1 else 0
  }

  lemma StepDrains(s: Loop, action: Action, s': Loop)
    requires Inv(s) && Step(s, action, s') && action != FileEvent
    ensures Outstanding(s') < Outstanding(s)
  {
    if action.TimerFired? {
      assert s.armed - {action.timer} == {};
    }
  }

  lemma {:induction false} RunDrains(states: seq<Loop>, actions: seq<Action>, i: nat, j: nat)
    requires Run(states, actions) && Inv(states[0]) && i <= j < |states|
    requires forall k :: i <= k < j ==> actions[k] != FileEvent
    ensures Outstanding(states[j]) + (j - i) <= Outstanding(states[i])
    decreases j
  {
    if i < j {
      RunDrains(states, actions, i, j - 1);
      RunKeepsInv(states, actions, j - 1);
      StepDrains(states[j - 1], actions[j - 1], states[j]);
    }
  }

  /**
   When events stop, the loop goes idle within four steps whatever their order: it cannot make a fifth, and as long as it
   is not idle it can make one.
   */
  lemma WatchDrains(states: seq<Loop>, actions: seq<Action>, i: nat, j: nat)
    requires Run(states, actions) && states[0] == START && i <= j < |states|
    requires forall k :: i <= k < j ==> actions[k] != FileEvent
    ensures j - i <= 4
    ensures Idle(states[j]) || exists action, s' :: action != FileEvent && Step(states[j], action, s')
  {
    RunKeepsInv(states, actions, i);
    RunKeepsInv(states, actions, j);
    RunDrains(states, actions, i, j);
    var s := states[j];
    if s.running > 0 {
      assert Step(s, CompileEnded, OnCompileEnd(s));
    } else if s.armed != {} {
      var t :| t in s.armed;
      assert Step(s, TimerFired(t), OnTimer(s, t));
    }
  }
}
