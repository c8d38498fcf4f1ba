/**
 Connections watched by the heartbeat service: the calls one session makes on
 the connection monitor become tasks of the service.
 */
module Monitoring {
  import opened ActivityLog
  import opened Tracker
  import opened HeartBeatSystem
  import opened Frames
  import opened Protocol
  import opened Sessions

  function TaskFor<E>(call: MonitorCall, e: E): Task<E> {
    match call
    case MonitorAdd => Perform(Add(e))
    case MonitorUpdate => Perform(Update(e))
    case MonitorDel => Perform(Del(e))
  }

  function TasksFor<E>(calls: seq<MonitorCall>, e: E): (r: seq<Task<E>>)
    ensures |r| == |calls|
    ensures forall i :: 0 <= i < |r| ==> r[i] == TaskFor(calls[i], e)
  {
    if calls == [] then [] else TasksFor(calls[..|calls| - 1], e) + [TaskFor(calls[|calls| - 1], e)]
  }

  predicate About<E(==)>(task: Task<E>, e: E) {
    task == Perform(Add(e)) || task == Perform(Update(e)) || task == Perform(Del(e))
  }

  function TasksAbout<E(==)>(tasks: seq<Task<E>>, e: E): seq<Task<E>> {
    if tasks == [] then []
    else
      var n := |tasks| - 1;
      TasksAbout(tasks[..n], e) + if About(tasks[n], e) then [tasks[n]] else []
  }

  // ----------------------------------------------------- one session, one add

  lemma {:induction false} AddsAreAbout<E>(tasks: seq<Task<E>>, e: E)
    ensures AddsPosted(TasksAbout(tasks, e), e) == AddsPosted(tasks, e)
  {
    if tasks == [] {
    } else {
      var n := |tasks| - 1;
      var before := TasksAbout(tasks[..n], e);
      AddsAreAbout(tasks[..n], e);
      assert (before + [tasks[n]])[..|before|] == before && before + [] == before;
    }
  }

  lemma {:induction false} FewerTasksFewerAdds<E>(a: seq<Task<E>>, b: seq<Task<E>>, e: E)
    requires a <= b
    ensures AddsPosted(a, e) <= AddsPosted(b, e)
  {
    if a == b {
    } else {
      FewerTasksFewerAdds(a, b[..|b| - 1], e);
    }
  }

  lemma {:induction false} OnlyTheFirstAdds<E>(tasks: seq<Task<E>>, e: E)
    requires forall i :: 0 < i < |tasks| ==> tasks[i] != Perform(Add(e))
    ensures AddsPosted(tasks, e) <= 1
  {
    if |tasks| <= 1 {
      assert tasks != [] ==> tasks[..0] == [];
    } else {
      OnlyTheFirstAdds(tasks[..|tasks| - 1], e);
    }
  }

  /** A monitored session that has been opened, handed chunks and, perhaps, closed. */
  function Watched(chunks: seq<seq<Byte>>, closed: bool): Session {
    var s := ReadEach(After(NEW_SESSION, Opened, true), chunks, true);
    if closed then After(s, Closed, true) else s
  }

  /** A session asks for one add, then one update for each message, then, once closed, one deletion. */
  lemma {:induction false} SessionTasks<E>(chunks: seq<seq<Byte>>, closed: bool, e: E)
    ensures var tasks, n := TasksFor(Watched(chunks, closed).monitor, e), |Decode(Flatten(chunks)).msgs|;
            && |tasks| == n + (if closed then 2 else 1) && tasks[0] == Perform(Add(e))
            && (forall i :: 1 <= i <= n ==> tasks[i] == Perform(Update(e)))
            && (closed ==> tasks[n + 1] == Perform(Del(e)))
  {
    hide Decode, Updates;
    MonitorSeesOneSession(NEW_SESSION, chunks);
    OpenSessionIsWatched(NEW_SESSION, chunks);
    var n := |Decode(Flatten(chunks)).msgs|;
    assert Watched(chunks, closed).monitor == [MonitorAdd] + Updates(n) + if closed then [MonitorDel] else [];
  }

  /** What the service has been asked about e is what one session of e has told the monitor so far. */
  ghost predicate AskedBy<E>(posted: seq<Task<E>>, e: E, chunks: seq<seq<Byte>>, closed: bool) {
    TasksAbout(posted, e) <= TasksFor(Watched(chunks, closed).monitor, e)
  }

  lemma {:induction false} SessionAddsOnce<E>(posted: seq<Task<E>>, e: E, chunks: seq<seq<Byte>>, closed: bool)
    requires AskedBy(posted, e, chunks, closed)
    ensures AddsPosted(posted, e) <= 1
  {
    hide TasksAbout, Watched;
    SessionTasks(chunks, closed, e);
    var tasks := TasksFor(Watched(chunks, closed).monitor, e);
    OnlyTheFirstAdds(tasks, e);
    FewerTasksFewerAdds(TasksAbout(posted, e), tasks, e);
    AddsAreAbout(posted, e);
  }

  /** A connection that was deleted, expired, evicted or removed in bulk is never watched again. */
  lemma {:induction false} ConnectionStaysGone<E(!new)>(
      limits: Limits, clock: int, actions: seq<Action<E>>, s: System<E>, late: nat,
      e: E, chunks: seq<seq<Byte>>, closed: bool, i: nat)
    requires Leads(Boot(limits, clock), actions, s, late) && AskedBy(s.posted, e, chunks, closed)
    requires i < |s.log| && s.log[i].element == e && !s.log[i].kind.IsTouch()
    ensures !InByLog(s.log, e) && forall j :: i < j < |s.log| ==> s.log[j].element != e
  {
    hide Leads, AskedBy, Boot;
    SessionAddsOnce(s.posted, e, chunks, closed);
    NoResurrection(limits, clock, actions, s, late, e, i);
  }

  // ------------------------------------------------ every event has its cause

  predicate AsksForAll<E>(task: Task<E>) {
    task.StopService? || task.op.RemoveAll?
  }

  /** Everything but an expiry was asked for, or is an eviction under a limit. */
  ghost predicate Caused<E>(ev: Event<E>, posted: seq<Task<E>>, limits: Limits) {
    match ev.kind
    case Added => Perform(Add(ev.element)) in posted
    case Touched => Perform(Update(ev.element)) in posted
    case Deleted => Perform(Del(ev.element)) in posted
    case Expired => limits.timeoutOn
    case Evicted => limits.limitOn
    case _ => exists task :: task in posted && AsksForAll(task)
  }

  ghost predicate AllCaused<E>(log: seq<Event<E>>, posted: seq<Task<E>>, limits: Limits) {
    forall i :: 0 <= i < |log| ==> Caused(log[i], posted, limits)
  }

  lemma {:induction false} StepIsCaused<E>(t: State<E>, op: Op<E>, now: int, ev: Event<E>)
    requires WellFormed(op) && ev in Step(t, op, now).events
    ensures match ev.kind
            case Added => op == Add(ev.element)
            case Touched => op == Update(ev.element)
            case Deleted => op == Del(ev.element)
            case Expired => t.limits.timeoutOn
            case Evicted => t.limits.limitOn
            case _ => op.RemoveAll?
  {
  }

  lemma {:induction false} DoKeepsCauses<E(!new)>(s: System<E>, a: Action<E>, late: nat)
    requires Inv(s) && Enabled(s, a, late) && AllCaused(s.log, s.posted, s.service.tracker.limits)
    ensures AllCaused(Do(s, a).log, Do(s, a).posted, s.service.tracker.limits)
  {
    hide Explains, ClockOrdered, Step;
    match a
    case Start =>
    case PostTask(task) =>
      forall i | 0 <= i < |s.log|
        ensures Caused(s.log[i], s.posted + [task], s.service.tracker.limits)
      {
        assert Caused(s.log[i], s.posted, s.service.tracker.limits);
      }
    case Advance(to) =>
    case RunTask =>
      FrontIsPosted(s);
      var task := s.service.tasks[0];
      assert task in s.posted by {
        assert task == s.posted[|s.posted| - |s.service.tasks|];
      }
      var op := OpOf(task);
      EventsAreCaused(s, op, task);
    case Timer => TimerEventsAreCaused(s);
    case Join =>
  }

  lemma {:induction false} EventsAreCaused<E>(s: System<E>, op: Op<E>, task: Task<E>)
    requires task in s.posted && WellFormed(op) && !op.Tick?
    requires task == Perform(op) || (task == StopService && op == RemoveAll(Cleared))
    requires AllCaused(s.log, s.posted, s.service.tracker.limits)
    ensures AllCaused(s.log + Step(s.service.tracker, op, Seconds(s.clock)).events, s.posted, s.service.tracker.limits)
  {
    hide Step;
    var events := Step(s.service.tracker, op, Seconds(s.clock)).events;
    forall i | 0 <= i < |events|
      ensures Caused(events[i], s.posted, s.service.tracker.limits)
    {
      StepIsCaused(s.service.tracker, op, Seconds(s.clock), events[i]);
      assert op.RemoveAll? ==> AsksForAll(task);
    }
  }

  lemma {:induction false} TimerEventsAreCaused<E>(s: System<E>)
    requires AllCaused(s.log, s.posted, s.service.tracker.limits)
    ensures var t := s.service.tracker;
            AllCaused(s.log + Step(t, Tick, Seconds(s.clock)).events, s.posted, t.limits)
  {
    hide Step;
    var events := Step(s.service.tracker, Tick, Seconds(s.clock)).events;
    forall i | 0 <= i < |events|
      ensures Caused(events[i], s.posted, s.service.tracker.limits)
    {
      StepIsCaused(s.service.tracker, Tick, Seconds(s.clock), events[i]);
    }
  }

  lemma {:induction false} BehaviourIsCaused<E(!new)>(
      before: System<E>, actions: seq<Action<E>>, after: System<E>, late: nat)
    requires Inv(before) && Leads(before, actions, after, late)
    requires AllCaused(before.log, before.posted, before.service.tracker.limits)
    ensures AllCaused(after.log, after.posted, before.service.tracker.limits)
    decreases |actions|
  {
    hide Inv, AllCaused, Do;
    if actions == [] {
    } else {
      DoKeepsInv(before, actions[0], late);
      DoKeepsCauses(before, actions[0], late);
      BehaviourIsCaused(Do(before, actions[0]), actions[1..], after, late);
    }
  }

  // ------------------------------------------------- silence closes in time

  lemma {:induction false} PostedAbout<E>(posted: seq<Task<E>>, e: E, task: Task<E>)
    requires task in posted && About(task, e)
    ensures task in TasksAbout(posted, e)
  {
    if posted == [] {
    } else if task == posted[|posted| - 1] {
    } else {
      var n := |posted| - 1;
      assert task in posted[..n];
      PostedAbout(posted[..n], e, task);
    }
  }

  lemma {:induction false} OpenSessionDeletesNothing<E>(posted: seq<Task<E>>, e: E, chunks: seq<seq<Byte>>)
    requires AskedBy(posted, e, chunks, false)
    ensures Perform(Del(e)) !in posted
  {
    hide Watched, TasksAbout;
    SessionTasks(chunks, false, e);
    var tasks := TasksFor(Watched(chunks, false).monitor, e);
    assert forall i :: 0 <= i < |tasks| ==> tasks[i] != Perform(Del(e));
    if Perform(Del(e)) in posted {
      PostedAbout(posted, e, Perform(Del(e)));
    }
  }

  /**
   With the timeout on, a connection last heard of in second log[t].at leaves
   the watch in time.  It expired, not before its timeout; or it was evicted,
   under a limit; or all were removed on request; or its session has closed.
   */
  lemma {:induction false} SilentConnectionIsClosed<E(!new)>(
      limits: Limits, clock: int, actions: seq<Action<E>>, s: System<E>, late: nat,
      chunks: seq<seq<Byte>>, closed: bool, t: nat)
    requires Leads(Boot(limits, clock), actions, s, late) && Running(s) && limits.timeoutOn
    requires t < |s.log| && s.log[t].kind.IsTouch() && AskedBy(s.posted, s.log[t].element, chunks, closed)
    requires forall i :: t < i < |s.log| && s.log[i].element == s.log[t].element ==> !s.log[i].kind.IsTouch()
    requires s.clock >= (s.log[t].at + Patience(limits)) * MICROS + late
    ensures !InByLog(s.log, s.log[t].element)
    ensures exists j :: t < j < |s.log| && s.log[j].element == s.log[t].element &&
              s.log[j].at * MICROS < (s.log[t].at + Patience(limits)) * MICROS + late &&
              match s.log[j].kind
              case Expired => s.log[t].at + limits.timeout <= s.log[j].at
              case Evicted => limits.limitOn
              case Deleted => closed
              case kind => kind.IsBulk() && exists task :: task in s.posted && AsksForAll(task)
  {
    hide Leads, AskedBy, Boot, Inv, InByLog;
    var e := s.log[t].element;
    RemovalBound(limits, clock, actions, s, late, t);
    var j :| t < j < |s.log| && s.log[j].element == e &&
      s.log[j].at * MICROS < (s.log[t].at + Patience(limits)) * MICROS + late &&
      (s.log[j].kind == Expired ==> s.log[t].at + limits.timeout <= s.log[j].at);
    ReachableIsCaused(limits, clock, actions, s, late);
    assert Caused(s.log[j], s.posted, limits);
    if s.log[j].kind == Deleted && !closed {
      OpenSessionDeletesNothing(s.posted, e, chunks);
    }
  }

  lemma {:induction false} ReachableIsCaused<E(!new)>(
      limits: Limits, clock: int, actions: seq<Action<E>>, s: System<E>, late: nat)
    requires Leads(Boot(limits, clock), actions, s, late)
    ensures AllCaused(s.log, s.posted, limits)
  {
    hide Leads, Inv, Timely;
    BootIsSound<E>(limits, clock, late);
    BehaviourIsCaused(Boot(limits, clock), actions, s, late);
  }

  // ------------------------------------------- a closed session is forgotten

  lemma {:induction false} AboutAppend<E>(a: seq<Task<E>>, b: seq<Task<E>>, e: E)
    ensures TasksAbout(a + b, e) == TasksAbout(a, e) + TasksAbout(b, e)
  {
    if b == [] {
      assert a + b == a;
    } else {
      var n := |b| - 1;
      assert (a + b)[..|a + b| - 1] == a + b[..n];
      AboutAppend(a, b[..n], e);
    }
  }

  lemma {:induction false} AboutOne<E>(task: Task<E>, e: E)
    ensures TasksAbout([task], e) == if About(task, e) then [task] else []
  {
    assert [task][..0] == [];
  }

  /** If the latest task run about e was a deletion, e is not live. */
  ghost predicate Forgotten<E(!new)>(s: System<E>, n: nat, e: E)
    requires n <= |s.posted|
  {
    var ran := TasksAbout(s.posted[..n], e);
    ran != [] && ran[|ran| - 1] == Perform(Del(e)) ==> !InByLog(s.log, e)
  }

  lemma {:induction false} UntouchedStaysOut<E>(log: seq<Event<E>>, events: seq<Event<E>>, e: E)
    requires !InByLog(log, e)
    requires forall ev :: ev in events && ev.element == e ==> !ev.kind.IsTouch()
    ensures !InByLog(log + events, e)
  {
    var longer := log + events;
    var t := Last(longer, e);
    if t >= |log| {
      assert longer[t] in events;
    } else if t >= 0 {
      LastIsUnique(log, longer, e, t);
    }
  }

  lemma {:induction false} TaskForgets<E(!new)>(s: System<E>, late: nat, n: nat, e: E)
    requires Inv(s) && Enabled(s, RunTask, late) && RunUpTo(s, n) && n < |s.posted| && Forgotten(s, n, e)
    ensures Forgotten(Do(s, RunTask), n + 1, e)
  {
    hide Step, TasksAbout, Explains, ClockOrdered, InByLog;
    var task, now := s.posted[n], Seconds(s.clock);
    var out := Step(s.service.tracker, OpOf(task), now);
    assert s.posted[..n + 1] == s.posted[..n] + [task];
    AboutAppend(s.posted[..n], [task], e);
    AboutOne(task, e);
    FrontIsPosted(s);
    if task == Perform(Del(e)) {
      DelRemoves(s.log, s.service.tracker, e, now);
      assert s.log + [] == s.log;
    } else if !About(task, e) && !InByLog(s.log, e) {
      forall ev | ev in out.events && ev.element == e
        ensures !ev.kind.IsTouch()
      {
        StepIsCaused(s.service.tracker, OpOf(task), now, ev);
      }
      UntouchedStaysOut(s.log, out.events, e);
    }
  }

  lemma {:induction false} DoKeepsForgotten<E(!new)>(s: System<E>, a: Action<E>, late: nat, n: nat, e: E)
    requires Inv(s) && Enabled(s, a, late) && RunUpTo(s, n) && Forgotten(s, n, e)
    ensures RunUpTo(Do(s, a), if a.RunTask? then n + 1 else n)
    ensures Forgotten(Do(s, a), if a.RunTask? then n + 1 else n, e)
  {
    hide Inv, Step, InByLog;
    DoRunsUpTo(s, a, late, n);
    match a
    case PostTask(task) => assert (s.posted + [task])[..n] == s.posted[..n];
    case RunTask => TaskForgets(s, late, n, e);
    case Timer =>
      if !InByLog(s.log, e) {
        TickTouchesNothing(s.service.tracker, Seconds(s.clock));
        UntouchedStaysOut(s.log, Step(s.service.tracker, Tick, Seconds(s.clock)).events, e);
      }
    case _ =>
  }

  lemma {:induction false} TickTouchesNothing<E>(t: State<E>, now: int)
    ensures forall ev :: ev in Step(t, Tick, now).events ==> !ev.kind.IsTouch()
  {
  }

  lemma {:induction false} BehaviourKeepsForgotten<E(!new)>(
      before: System<E>, actions: seq<Action<E>>, after: System<E>, late: nat, n: nat, e: E)
    requires Inv(before) && Leads(before, actions, after, late) && RunUpTo(before, n) && Forgotten(before, n, e)
    ensures RunUpTo(after, n + Times(actions, RunTask)) && Forgotten(after, n + Times(actions, RunTask), e)
    decreases |actions|
  {
    hide Inv, RunUpTo, Forgotten, Do;
    if actions == [] {
    } else {
      DoKeepsInv(before, actions[0], late);
      DoKeepsForgotten(before, actions[0], late, n, e);
      BehaviourKeepsForgotten(
        Do(before, actions[0]), actions[1..], after, late, if actions[0].RunTask? then n + 1 else n, e);
    }
  }

  lemma {:induction false} BootIsForgotten<E(!new)>(limits: Limits, clock: int, e: E)
    ensures RunUpTo(Boot<E>(limits, clock), 0) && Forgotten(Boot(limits, clock), 0, e)
  {
  }

  /** Once all that a closed session told the monitor has been run, its connection is no longer watched. */
  lemma {:induction false} ClosedSessionIsForgotten<E(!new)>(
      limits: Limits, clock: int, actions: seq<Action<E>>, s: System<E>, late: nat, e: E, chunks: seq<seq<Byte>>)
    requires Leads(Boot(limits, clock), actions, s, late)
    requires TasksAbout(s.posted, e) == TasksFor(Watched(chunks, true).monitor, e)
    requires TasksAbout(s.service.tasks, e) == []
    ensures !InByLog(s.log, e)
  {
    hide Leads, Inv, Timely, TasksAbout, Watched, InByLog, Boot, Times, TasksFor, Decode;
    BootIsSound<E>(limits, clock, late);
    BootIsForgotten(limits, clock, e);
    BehaviourKeepsForgotten(Boot(limits, clock), actions, s, late, 0, e);
    var n := Times(actions, RunTask);
    assert s.posted == s.posted[..n] + s.posted[n..];
    AboutAppend(s.posted[..n], s.posted[n..], e);
    SessionTasks(chunks, true, e);
  }
}
