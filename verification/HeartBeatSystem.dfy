/**
 The heartbeat service as a step relation: tasks posted by any thread, run in
 post order on the one service thread, interleaved with a timer that re-arms
 itself.  The clock counts microseconds; elements are stamped in whole seconds.
 */
module HeartBeatSystem {
  import opened ActivityLog
  import opened Tracker

  const MICROS: int := 1_000_000
  const TICK_SECONDS: int := 10

  datatype Task<E> = Perform(op: Op<E>) | StopService

  /** The service's own fields. */
  datatype Service<E> = Service(
    tracker: State<E>, tasks: seq<Task<E>>, deadline: int, started: bool, stopped: bool)

  function Seconds(clock: int): int {
    clock / MICROS
  }

  function StartAt<E>(s: Service<E>, clock: int): Service<E> {
    if s.started then s else s.(deadline := clock + TICK_SECONDS * MICROS, started := true)
  }

  /** What stop does once the service thread has ended. */
  function Joined<E>(s: Service<E>): Service<E> {
    s.(started := false)
  }

  function Post<E>(s: Service<E>, task: Task<E>): Service<E> {
    s.(tasks := s.tasks + [task])
  }

  /** What running a task asks of the manager. */
  function OpOf<E>(task: Task<E>): (op: Op<E>)
    ensures task == Perform(op) || (task == StopService && op == RemoveAll(Cleared))
  {
    match task case Perform(op) => op case StopService => RemoveAll(Cleared)
  }

  function RunFront<E(==)>(s: Service<E>, clock: int): (Service<E>, Outcome<E>)
    requires s.tasks != []
  {
    var op := OpOf(s.tasks[0]);
    var out := Step(s.tracker, op, Seconds(clock));
    (s.(tracker := out.next, tasks := s.tasks[1..], stopped := s.stopped || s.tasks[0].StopService?), out)
  }

  /** Re-arm from the previous deadline, then call time. */
  function FireTimer<E(==)>(s: Service<E>, clock: int): (Service<E>, Outcome<E>) {
    var out := Step(s.tracker, Tick, Seconds(clock));
    (s.(tracker := out.next, deadline := s.deadline + TICK_SECONDS * MICROS), out)
  }

  // -------------------------------------------------------------- behaviours

  /** The service with its clock, everything ever posted, and the history of its tracker. */
  datatype System<E> = System(
    service: Service<E>, clock: int, posted: seq<Task<E>>, log: seq<Event<E>>, crashed: bool)

  datatype Action<E> = Start | PostTask(task: Task<E>) | Advance(to: int) | RunTask | Timer | Join

  function Boot<E>(limits: Limits, clock: int): System<E> {
    System(Service(Initial(limits), [], 0, false, false), clock, [], [], false)
  }

  predicate Running<E>(s: System<E>) {
    s.service.started && !s.service.stopped && !s.crashed
  }

  predicate Postable<E>(task: Task<E>) {
    task.Perform? ==> WellFormed(task.op) && !task.op.Tick?
  }

  /** late bounds how long after its deadline the timer handler may run. */
  predicate Enabled<E>(s: System<E>, a: Action<E>, late: nat) {
    match a
    case Start => true
    case PostTask(task) => Postable(task)
    case Advance(to) => s.clock <= to && (Running(s) ==> to <= s.service.deadline + late)
    case RunTask => Running(s) && s.service.tasks != []
    case Timer => Running(s) && s.service.deadline <= s.clock
    case Join => s.service.started && s.service.stopped
  }

  function Do<E(==)>(s: System<E>, a: Action<E>): System<E>
    requires a.RunTask? ==> s.service.tasks != []
  {
    match a
    case Start => s.(service := StartAt(s.service, s.clock))
    case PostTask(task) => s.(service := Post(s.service, task), posted := s.posted + [task])
    case Advance(to) => s.(clock := to)
    case RunTask => Happened(s, RunFront(s.service, s.clock))
    case Timer => Happened(s, FireTimer(s.service, s.clock))
    case Join => s.(service := Joined(s.service))
  }

  function Happened<E>(s: System<E>, r: (Service<E>, Outcome<E>)): System<E> {
    s.(service := r.0, log := s.log + r.1.events, crashed := s.crashed || r.1.status == NullDereference)
  }

  /** after is reached from before by the actions, each enabled when taken. */
  ghost predicate Leads<E>(before: System<E>, actions: seq<Action<E>>, after: System<E>, late: nat)
    decreases |actions|
  {
    if actions == [] then after == before
    else
      Enabled(before, actions[0], late) && Leads(Do(before, actions[0]), actions[1..], after, late)
  }

  // -------------------------------------------------------------- invariant

  /**
   The longest an element may stay untouched before the timer must have seen
   it, in seconds.  Stamps are whole seconds, so a zero timeout counts as one.
   */
  function Patience(limits: Limits): int {
    (if limits.timeout == 0 then 1 else limits.timeout) + TICK_SECONDS
  }

  /** The next timer run comes in time for every live element. */
  ghost predicate TimerInTime<E>(s: System<E>) {
    forall i :: 0 <= i < |s.service.tracker.live| ==>
      s.service.deadline < (s.service.tracker.live[i].time + Patience(s.service.tracker.limits)) * MICROS
  }

  /** The j-th event, unless an add, came soon enough after the touch before it. */
  ghost predicate InTime<E>(limits: Limits, log: seq<Event<E>>, j: nat, late: nat)
    requires j < |log|
  {
    log[j].kind != Added ==>
      var t := Last(log[..j], log[j].element);
      t >= 0 && log[j].at * MICROS < (log[t].at + Patience(limits)) * MICROS + late
  }

  ghost predicate AllInTime<E>(limits: Limits, log: seq<Event<E>>, late: nat) {
    limits.timeoutOn ==> forall j :: 0 <= j < |log| ==> InTime(limits, log, j, late)
  }

  function AddsPosted<E(==)>(tasks: seq<Task<E>>, e: E): nat {
    if tasks == [] then 0
    else AddsPosted(tasks[..|tasks| - 1], e) + if tasks[|tasks| - 1] == Perform(Add(e)) then 1 else 0
  }

  /** What is known of the history, the queue and the flags. */
  ghost predicate Inv<E(!new)>(s: System<E>) {
    && Explains(s.log, s.service.tracker) && ClockOrdered(s.log)
    && (s.log != [] ==> s.log[|s.log| - 1].at <= Seconds(s.clock))
    && (forall i :: 0 <= i < |s.posted| ==> Postable(s.posted[i]))
    && |s.service.tasks| <= |s.posted|
    && s.service.tasks == s.posted[|s.posted| - |s.service.tasks|..]
    && (!s.service.started ==> s.log == [] || s.service.stopped)
    && (s.service.stopped ==> s.service.tracker.live == [])
  }

  /** What is known of the timer. */
  ghost predicate Timely<E>(s: System<E>, late: nat) {
    && (Running(s) ==>
          && s.service.deadline <= s.clock + TICK_SECONDS * MICROS
          && s.clock <= s.service.deadline + late)
    && (s.service.tracker.limits.timeoutOn ==> TimerInTime(s))
    && AllInTime(s.service.tracker.limits, s.log, late)
  }

  // ------------------------------------------------------- it is preserved

  lemma {:induction false} AppendNow<E>(log: seq<Event<E>>, events: seq<Event<E>>, now: int)
    requires ClockOrdered(log) && (log != [] ==> log[|log| - 1].at <= now)
    requires forall i :: 0 <= i < |events| ==> events[i].at == now
    ensures ClockOrdered(log + events)
    ensures var longer := log + events; longer != [] ==> longer[|longer| - 1].at <= now
  {
  }

  lemma {:induction false} FrontIsPosted<E(!new)>(s: System<E>)
    requires Inv(s) && s.service.tasks != []
    ensures Postable(s.service.tasks[0])
  {
    assert s.service.tasks[0] == s.posted[|s.posted| - |s.service.tasks|];
  }

  /** One tracker step taken by the service thread. */
  lemma {:induction false} HappenedKeepsHistory<E(!new)>(s: System<E>, op: Op<E>)
    requires Inv(s) && WellFormed(op)
    ensures var out := Step(s.service.tracker, op, Seconds(s.clock));
            var log := s.log + out.events;
            && Explains(log, out.next) && ClockOrdered(log)
            && (log != [] ==> log[|log| - 1].at <= Seconds(s.clock))
            && out.next.limits == s.service.tracker.limits
  {
    hide Explains, Step, ClockOrdered;
    var now := Seconds(s.clock);
    StepIsExplained(s.log, s.service.tracker, op, now);
    StepStampsNow(s.service.tracker, op, now);
    AppendNow(s.log, Step(s.service.tracker, op, now).events, now);
  }

  lemma {:induction false} SecondsGrow(a: int, b: int)
    requires a <= b
    ensures Seconds(a) <= Seconds(b)
    ensures Seconds(a) * MICROS <= a < (Seconds(a) + 1) * MICROS
  {
  }

  lemma {:induction false} DoKeepsInv<E(!new)>(s: System<E>, a: Action<E>, late: nat)
    requires Inv(s) && Enabled(s, a, late)
    ensures Inv(Do(s, a)) && Do(s, a).service.tracker.limits == s.service.tracker.limits
  {
    hide Explains, ClockOrdered, Step;
    match a
    case Start =>
    case PostTask(task) =>
      var s', n := Do(s, a), |s.service.tasks|;
      assert s'.service.tasks == s'.posted[|s'.posted| - |s'.service.tasks|..];
    case Advance(to) => SecondsGrow(s.clock, to);
    case RunTask =>
      FrontIsPosted(s);
      RunTaskKeepsInv(s);
    case Timer => HappenedKeepsHistory(s, Tick);
    case Join =>
  }

  lemma {:induction false} RunTaskKeepsInv<E(!new)>(s: System<E>)
    requires Inv(s) && Running(s) && s.service.tasks != [] && Postable(s.service.tasks[0])
    ensures Inv(Do(s, RunTask)) && Do(s, RunTask).service.tracker.limits == s.service.tracker.limits
  {
    hide Explains, ClockOrdered;
    var op := OpOf(s.service.tasks[0]);
    HappenedKeepsHistory(s, op);
    var s' := Do(s, RunTask);
    assert s'.service.tasks == s'.posted[|s'.posted| - |s'.service.tasks|..];
  }

  /** A step other than a tick only keeps entries or stamps them now. */
  lemma {:induction false} StepEntries<E>(t: State<E>, op: Op<E>, now: int)
    requires !op.Tick? && WellFormed(op)
    ensures forall x :: x in Step(t, op, now).next.live ==> x in t.live || x.time == now
  {
  }

  /** Whatever a step does to an element it touches, it does last. */
  lemma {:induction false} StepTouchesLast<E>(t: State<E>, op: Op<E>, now: int)
    requires WellFormed(op)
    ensures var events := Step(t, op, now).events;
            forall i :: 0 <= i < |events| && events[i].kind.IsTouch() ==> i == |events| - 1
  {
  }

  lemma {:induction false} OldEvent<E>(limits: Limits, log: seq<Event<E>>, events: seq<Event<E>>, j: nat, late: nat)
    requires j < |log| && InTime(limits, log, j, late)
    ensures InTime(limits, log + events, j, late)
  {
    assert (log + events)[..j] == log[..j];
  }

  /** An element that a step removes or touches was live before it, with the same latest touch. */
  lemma {:induction false} StepLeavesLast<E(!new)>(limits: Limits, log: seq<Event<E>>, events: seq<Event<E>>, j: nat)
    requires Legal(limits, log + events) && j < |events| && events[j].kind != Added
    requires forall i :: 0 <= i < |events| && events[i].kind.IsTouch() ==> i == |events| - 1
    ensures var e := events[j].element;
            InByLog(log, e) && Last((log + events)[..|log| + j], e) == Last(log, e)
  {
    hide Legal, Live;
    var longer, e, n := log + events, events[j].element, |log| + j;
    LegalAt(limits, longer, n);
    LegalByLog(limits, longer[..n], longer[n]);
    var t := Last(longer[..n], e);
    assert longer[..n][t] == longer[t];
    assert forall i :: |log| <= i < n ==> longer[i] == events[i - |log|];
    LastIsUnique(log, longer[..n], e, t);
  }

  lemma {:induction false} LastIsUnique<E>(log: seq<Event<E>>, longer: seq<Event<E>>, e: E, t: nat)
    requires log <= longer && t < |log| && Last(longer, e) == t
    ensures Last(log, e) == t
  {
    assert longer[t] == log[t];
  }

  /** While the service runs, every event of a step comes in time, as live elements have not been untouched too long. */
  lemma {:induction false} StepIsInTime<E(!new)>(s: System<E>, op: Op<E>, late: nat)
    requires Inv(s) && Timely(s, late) && Running(s) && WellFormed(op)
    ensures var t := s.service.tracker;
            AllInTime(t.limits, s.log + Step(t, op, Seconds(s.clock)).events, late)
  {
    hide Inv, Timely, Step, InTime;
    var t := s.service.tracker;
    var events := Step(t, op, Seconds(s.clock)).events;
    TimelySoFar(s, late);
    if t.limits.timeoutOn {
      forall j | 0 <= j < |s.log + events|
        ensures InTime(t.limits, s.log + events, j, late)
      {
        if j < |s.log| {
          OldEvent(t.limits, s.log, events, j, late);
        } else {
          NewEvent(s, op, events, j - |s.log|, late);
        }
      }
    }
  }

  lemma {:induction false} NewEvent<E(!new)>(s: System<E>, op: Op<E>, events: seq<Event<E>>, j: nat, late: nat)
    requires Inv(s) && Timely(s, late) && Running(s) && s.service.tracker.limits.timeoutOn && WellFormed(op)
    requires events == Step(s.service.tracker, op, Seconds(s.clock)).events && j < |events|
    ensures InTime(s.service.tracker.limits, s.log + events, |s.log| + j, late)
  {
    hide Inv, Timely, Step, Legal;
    var now := Seconds(s.clock);
    if events[j].kind != Added {
      StepHistoryIsLegal(s, op);
      StepStampsNow(s.service.tracker, op, now);
      StepTouchesLast(s.service.tracker, op, now);
      SecondsGrow(s.clock, s.clock);
      StepLeavesLast(s.service.tracker.limits, s.log, events, j);
      LiveIsDetected(s, events[j].element, late);
    }
  }

  lemma {:induction false} StepHistoryIsLegal<E(!new)>(s: System<E>, op: Op<E>)
    requires Inv(s) && WellFormed(op)
    ensures Legal(s.service.tracker.limits, s.log + Step(s.service.tracker, op, Seconds(s.clock)).events)
  {
    hide ClockOrdered, Step, Legal, Live;
    HappenedKeepsHistory(s, op);
  }

  lemma {:induction false} TimelySoFar<E>(s: System<E>, late: nat)
    requires Timely(s, late)
    ensures AllInTime(s.service.tracker.limits, s.log, late)
  {
  }

  lemma {:induction false} TaskIsTimely<E(!new)>(s: System<E>, late: nat)
    requires Inv(s) && Timely(s, late) && Running(s) && s.service.tasks != [] && Postable(s.service.tasks[0])
    ensures Timely(Do(s, RunTask), late)
  {
    hide Explains, ClockOrdered, Step, AllInTime;
    var now := Seconds(s.clock);
    var op := OpOf(s.service.tasks[0]);
    var out := Step(s.service.tracker, op, now);
    StepEntries(s.service.tracker, op, now);
    HappenedKeepsHistory(s, op);
    StepIsInTime(s, op, late);
    SecondsGrow(s.clock, s.clock);
    forall i | 0 <= i < |out.next.live| && s.service.tracker.limits.timeoutOn
      ensures s.service.deadline < (out.next.live[i].time + Patience(s.service.tracker.limits)) * MICROS
    {
      assert out.next.live[i] in out.next.live;
    }
  }

  lemma {:induction false} TimerIsTimely<E(!new)>(s: System<E>, late: nat)
    requires Inv(s) && Timely(s, late) && Running(s) && s.service.deadline <= s.clock
    ensures Timely(Do(s, Timer), late)
  {
    hide Explains, ClockOrdered, Step, AllInTime;
    HappenedKeepsHistory(s, Tick);
    StepIsInTime(s, Tick, late);
    SecondsGrow(s.clock, s.clock);
    if s.service.tracker.limits.timeoutOn {
      SurvivorsAreFresh(s);
    }
  }

  lemma {:induction false} SurvivorsAreFresh<E(!new)>(s: System<E>)
    requires Inv(s) && s.service.tracker.limits.timeoutOn
    ensures var t := s.service.tracker;
            forall x :: x in Step(t, Tick, Seconds(s.clock)).next.live ==> Seconds(s.clock) < x.time + t.limits.timeout
  {
    var t, now := s.service.tracker, Seconds(s.clock);
    LiveIsSorted(s.log);
    var k := KeptByTick(t.live, now, t.limits.timeout);
    forall x | x in t.live[..k]
      ensures now < x.time + t.limits.timeout
    {
      assert t.live[k - 1].time <= x.time;
    }
  }

  /** Safety form of the detection bound: no live element has been untouched for too long. */
  lemma {:induction false} LiveIsDetected<E(!new)>(s: System<E>, e: E, late: nat)
    requires Inv(s) && Timely(s, late) && Running(s) && s.service.tracker.limits.timeoutOn
    requires InByLog(s.log, e)
    ensures s.clock < (s.log[Last(s.log, e)].at + Patience(s.service.tracker.limits)) * MICROS + late
  {
    LiveIsRecency(s.log);
    var live := s.service.tracker.live;
    assert Has(live, e);
    var i := IndexOf(live, e);
    assert live[i].time == s.log[Last(s.log, e)].at;
  }

  lemma {:induction false} DoIsTimely<E(!new)>(s: System<E>, a: Action<E>, late: nat)
    requires Inv(s) && Timely(s, late) && Enabled(s, a, late)
    ensures Timely(Do(s, a), late)
  {
    hide Explains, ClockOrdered, Step, AllInTime;
    match a
    case Start =>
      if !s.service.started && s.log == [] {
        EmptyLogIsEmpty(s);
      }
    case PostTask(task) =>
    case Advance(to) =>
    case RunTask =>
      FrontIsPosted(s);
      TaskIsTimely(s, late);
    case Timer => TimerIsTimely(s, late);
    case Join =>
  }

  lemma {:induction false} EmptyLogIsEmpty<E(!new)>(s: System<E>)
    requires Inv(s) && s.log == []
    ensures s.service.tracker.live == []
  {
  }

  // ------------------------------------------------------ whole behaviours

  lemma {:induction false} BehaviourIsSound<E(!new)>(
      before: System<E>, actions: seq<Action<E>>, after: System<E>, late: nat)
    requires Inv(before) && Timely(before, late) && Leads(before, actions, after, late)
    ensures Inv(after) && Timely(after, late) && after.service.tracker.limits == before.service.tracker.limits
    decreases |actions|
  {
    hide Inv, Timely, Do;
    if actions == [] {
    } else {
      DoKeepsInv(before, actions[0], late);
      DoIsTimely(before, actions[0], late);
      BehaviourIsSound(Do(before, actions[0]), actions[1..], after, late);
    }
  }

  lemma {:induction false} BootIsSound<E(!new)>(limits: Limits, clock: int, late: nat)
    ensures Inv(Boot<E>(limits, clock)) && Timely(Boot<E>(limits, clock), late)
  {
  }

  lemma {:induction false} ReachableIsSound<E(!new)>(
      limits: Limits, clock: int, actions: seq<Action<E>>, s: System<E>, late: nat)
    requires Leads(Boot(limits, clock), actions, s, late)
    ensures Inv(s) && Timely(s, late) && s.service.tracker.limits == limits
  {
    hide Inv, Timely;
    BootIsSound<E>(limits, clock, late);
    BehaviourIsSound(Boot(limits, clock), actions, s, late);
  }

  /**
   An element last touched in second log[t].at has left the tracker within one
   timer period, plus the timer's lateness, after its timeout, in whatever way;
   and if it expired, not before its timeout.
   */
  lemma {:induction false} RemovalBound<E(!new)>(
      limits: Limits, clock: int, actions: seq<Action<E>>, s: System<E>, late: nat, t: nat)
    requires Leads(Boot(limits, clock), actions, s, late) && Running(s) && limits.timeoutOn
    requires t < |s.log| && s.log[t].kind.IsTouch()
    requires forall i :: t < i < |s.log| && s.log[i].element == s.log[t].element ==> !s.log[i].kind.IsTouch()
    requires s.clock >= (s.log[t].at + Patience(limits)) * MICROS + late
    ensures !InByLog(s.log, s.log[t].element)
    ensures exists j :: t < j < |s.log| && s.log[j].element == s.log[t].element &&
              s.log[j].at * MICROS < (s.log[t].at + Patience(limits)) * MICROS + late &&
              (s.log[j].kind == Expired ==> s.log[t].at + limits.timeout <= s.log[j].at)
  {
    hide Leads, Inv, Timely, Legal, Live, LegalNext;
    ReachableIsSound(limits, clock, actions, s, late);
    var e := s.log[t].element;
    var j := Last(s.log, e);
    if InByLog(s.log, e) {
      LiveIsDetected(s, e, late);
    }
    assert t < j && !s.log[j].kind.IsTouch();
    InvIsLegal(s);
    LegalAt(limits, s.log, j);
    LegalByLog(limits, s.log[..j], s.log[j]);
    if s.log[j].kind == Expired {
      ExpiryIsNeverEarly(limits, s.log[..j], s.log[j]);
    }
    var u := Last(s.log[..j], e);
    assert s.log[..j][t] == s.log[t] && s.log[..j][u] == s.log[u];
    TimelySoFar(s, late);
    assert InTime(limits, s.log, j, late);
  }

  /**
   An element last touched in second log[t].at, and since neither deleted,
   evicted nor removed in bulk, is called back not before its timeout and
   within one timer period, plus the timer's lateness, after it.
   */
  lemma {:induction false} DetectionBound<E(!new)>(
      limits: Limits, clock: int, actions: seq<Action<E>>, s: System<E>, late: nat, t: nat)
    requires Leads(Boot(limits, clock), actions, s, late) && Running(s) && limits.timeoutOn
    requires t < |s.log| && s.log[t].kind.IsTouch()
    requires forall i :: t < i < |s.log| && s.log[i].element == s.log[t].element ==> s.log[i].kind == Expired
    requires s.clock >= (s.log[t].at + Patience(limits)) * MICROS + late
    ensures exists j :: t < j < |s.log| && s.log[j].kind == Expired && s.log[j].element == s.log[t].element &&
              s.log[t].at + limits.timeout <= s.log[j].at &&
              s.log[j].at * MICROS < (s.log[t].at + Patience(limits)) * MICROS + late
  {
    hide Leads, InByLog;
    RemovalBound(limits, clock, actions, s, late, t);
  }

  lemma {:induction false} InvIsLegal<E(!new)>(s: System<E>)
    requires Inv(s)
    ensures Legal(s.service.tracker.limits, s.log) && s.service.tracker.live == Live(s.log)
  {
  }

  /** Once stopped, the service may be started again, but no task and no timer ever runs. */
  lemma {:induction false} StoppedForGood<E>(before: System<E>, actions: seq<Action<E>>, after: System<E>, late: nat)
    requires before.service.stopped && Leads(before, actions, after, late)
    ensures after.service.stopped && after.log == before.log && after.service.tracker == before.service.tracker
    ensures before.service.tasks <= after.service.tasks
    decreases |actions|
  {
    if actions == [] {
    } else {
      StoppedForGood(Do(before, actions[0]), actions[1..], after, late);
    }
  }

  // ------------------------------------------------- every task, once, in order

  function Times<E(==)>(actions: seq<Action<E>>, a: Action<E>): nat {
    if actions == [] then 0 else (if actions[0] == a then 1 else 0) + Times(actions[1..], a)
  }

  /** The tasks posted, in order. */
  function Posts<E>(actions: seq<Action<E>>): seq<Task<E>> {
    if actions == [] then []
    else (if actions[0].PostTask? then [actions[0].task] else []) + Posts(actions[1..])
  }

  /** The call that an action makes on the manager when n tasks have been run before. */
  function CallOf<E>(clock: int, posted: seq<Task<E>>, n: nat, a: Action<E>): seq<Call<E>> {
    if a.Timer? then [Call(Tick, Seconds(clock))]
    else if a.RunTask? && n < |posted| then [Call(OpOf(posted[n]), Seconds(clock))]
    else []
  }

  /** All calls made on the manager: the i-th RunTask asks for what the i-th task posted says, each timer for a tick. */
  function CallsMade<E>(clock: int, posted: seq<Task<E>>, n: nat, actions: seq<Action<E>>): seq<Call<E>>
    decreases |actions|
  {
    if actions == [] then []
    else
      var a := actions[0];
      CallOf(clock, posted, n, a) +
      CallsMade(if a.Advance? then a.to else clock, posted, if a.RunTask? then n + 1 else n, actions[1..])
  }

  /** The tracker stands where a run of the manager leaves it. */
  ghost predicate AsRun<E(!new)>(s: System<E>, run: Run<E>) {
    s.service.tracker == run.state && s.log == run.log && s.crashed == run.crashed
  }

  /** The queue is what has been posted but for the first n, which have been run. */
  ghost predicate RunUpTo<E>(s: System<E>, n: nat) {
    && n <= |s.posted| && s.service.tasks == s.posted[n..]
    && (s.service.stopped <==> StopService in s.posted[..n])
  }

  lemma {:induction false} OneMoreCall<E>(limits: Limits, calls: seq<Call<E>>, call: Call<E>)
    ensures RunOf(limits, calls + [call]) ==
              var prior := RunOf(limits, calls);
              if prior.crashed then prior
              else
                var out := Step(prior.state, call.op, call.now);
                Run(out.next, prior.log + out.events, out.status == NullDereference)
  {
    assert (calls + [call])[..|calls|] == calls;
  }

  lemma {:induction false} DoMakesItsCall<E(!new)>(
      s: System<E>, a: Action<E>, late: nat, limits: Limits, calls: seq<Call<E>>, n: nat)
    requires Enabled(s, a, late) && RunUpTo(s, n) && AsRun(s, RunOf(limits, calls))
    ensures AsRun(Do(s, a), RunOf(limits, calls + CallOf(s.clock, s.posted, n, a)))
  {
    hide Step, RunOf;
    var call := CallOf(s.clock, s.posted, n, a);
    if call == [] {
      assert calls + call == calls;
    } else {
      OneMoreCall(limits, calls, call[0]);
    }
  }

  lemma {:induction false} DoRunsUpTo<E>(s: System<E>, a: Action<E>, late: nat, n: nat)
    requires Enabled(s, a, late) && RunUpTo(s, n)
    ensures RunUpTo(Do(s, a), if a.RunTask? then n + 1 else n)
    ensures Do(s, a).posted == s.posted + if a.PostTask? then [a.task] else []
    ensures Do(s, a).clock == if a.Advance? then a.to else s.clock
  {
    hide Step;
    match a
    case PostTask(task) => assert (s.posted + [task])[..n] == s.posted[..n];
    case RunTask => assert s.posted[..n + 1] == s.posted[..n] + [s.posted[n]];
    case _ =>
  }

  lemma {:induction false} BehaviourContinuesRun<E(!new)>(
      before: System<E>, actions: seq<Action<E>>, after: System<E>, late: nat,
      limits: Limits, calls: seq<Call<E>>, n: nat)
    requires Leads(before, actions, after, late) && RunUpTo(before, n) && AsRun(before, RunOf(limits, calls))
    ensures after.posted == before.posted + Posts(actions) && RunUpTo(after, n + Times(actions, RunTask))
    ensures AsRun(after, RunOf(limits, calls + CallsMade(before.clock, after.posted, n, actions)))
    decreases |actions|
  {
    hide AsRun, RunUpTo, RunOf, Do, CallOf, CallsMade, Posts, Times;
    ActionsUnfold(before.clock, after.posted, n, actions);
    if actions == [] {
      assert calls + [] == calls && before.posted + [] == before.posted;
    } else {
      var a := actions[0];
      var next, n' := Do(before, a), if a.RunTask? then n + 1 else n;
      var call := CallOf(before.clock, before.posted, n, a);
      DoMakesItsCall(before, a, late, limits, calls, n);
      DoRunsUpTo(before, a, late, n);
      BehaviourContinuesRun(next, actions[1..], after, late, limits, calls + call, n');
      LaterPosts(before, a, late, n, after.posted);
      var rest := CallsMade(next.clock, after.posted, n', actions[1..]);
      assert calls + call + rest == calls + (call + rest);
    }
  }

  lemma {:induction false} ActionsUnfold<E>(clock: int, posted: seq<Task<E>>, n: nat, actions: seq<Action<E>>)
    ensures actions == [] ==>
              CallsMade(clock, posted, n, actions) == [] && Posts(actions) == [] && Times(actions, RunTask) == 0
    ensures actions != [] ==>
              var a, rest := actions[0], actions[1..];
              && Posts(actions) == (if a.PostTask? then [a.task] else []) + Posts(rest)
              && Times(actions, RunTask) == (if a.RunTask? then 1 else 0) + Times(rest, RunTask)
              && CallsMade(clock, posted, n, actions) ==
                   CallOf(clock, posted, n, a) +
                   CallsMade(if a.Advance? then a.to else clock, posted, if a.RunTask? then n + 1 else n, rest)
  {
  }

  lemma {:induction false} LaterPosts<E>(s: System<E>, a: Action<E>, late: nat, n: nat, posted: seq<Task<E>>)
    requires Enabled(s, a, late) && RunUpTo(s, n) && s.posted <= posted
    ensures CallOf(s.clock, posted, n, a) == CallOf(s.clock, s.posted, n, a)
  {
  }

  /**
   In every interleaving each task posted is run once, in post order, the rest
   of them still waiting, and the manager goes through the run of calls that
   tasks and timer make: whatever holds of its runs holds of the service.
   */
  lemma {:induction false} BehaviourIsARun<E(!new)>(
      limits: Limits, clock: int, actions: seq<Action<E>>, s: System<E>, late: nat)
    requires Leads(Boot(limits, clock), actions, s, late)
    ensures s.posted == Posts(actions)
    ensures var n := Times(actions, RunTask);
            && n <= |s.posted| && s.service.tasks == s.posted[n..]
            && (s.service.stopped <==> StopService in s.posted[..n])
    ensures var run := RunOf(limits, CallsMade(clock, s.posted, 0, actions));
            s.service.tracker == run.state && s.log == run.log && s.crashed == run.crashed
  {
    BehaviourContinuesRun(Boot(limits, clock), actions, s, late, limits, [], 0);
    assert [] + CallsMade(clock, s.posted, 0, actions) == CallsMade(clock, s.posted, 0, actions);
    assert [] + Posts(actions) == Posts(actions);
  }

  /** The operations called for other than by the timer. */
  function Requests<E>(calls: seq<Call<E>>): seq<Op<E>> {
    if calls == [] then [] else (if calls[0].op.Tick? then [] else [calls[0].op]) + Requests(calls[1..])
  }

  lemma {:induction false} RequestsFront<E>(call: seq<Call<E>>, rest: seq<Call<E>>)
    requires |call| <= 1
    ensures Requests(call + rest) == (if call == [] || call[0].op.Tick? then [] else [call[0].op]) + Requests(rest)
  {
    if call == [] {
      assert call + rest == rest;
    } else {
      assert (call + rest)[1..] == rest;
    }
  }

  /** Timer or no timer, the requests made on the manager are what the tasks posted say, one by one. */
  lemma {:induction false} RequestsAreThePosts<E>(clock: int, posted: seq<Task<E>>, n: nat, actions: seq<Action<E>>)
    requires n + Times(actions, RunTask) <= |posted|
    requires forall i :: 0 <= i < |posted| ==> Postable(posted[i])
    ensures var ops := Requests(CallsMade(clock, posted, n, actions));
            && |ops| == Times(actions, RunTask)
            && forall i :: 0 <= i < |ops| ==>
                 posted[n + i] == Perform(ops[i]) || (posted[n + i].StopService? && ops[i] == RemoveAll(Cleared))
    decreases |actions|
  {
    hide Requests, CallsMade, Times;
    ActionsUnfold(clock, posted, n, actions);
    if actions == [] {
      NoRequests<E>();
    } else {
      var a := actions[0];
      var clock', n' := if a.Advance? then a.to else clock, if a.RunTask? then n + 1 else n;
      RequestsAreThePosts(clock', posted, n', actions[1..]);
      RequestsFront(CallOf(clock, posted, n, a), CallsMade(clock', posted, n', actions[1..]));
    }
  }

  lemma {:induction false} NoRequests<E>()
    ensures Requests<E>([]) == []
  {
  }

  // ------------------------------------------------------------- the timer

  lemma {:induction false} TimerNeverDrifts<E>(before: System<E>, actions: seq<Action<E>>, after: System<E>, late: nat)
    requires before.service.started && Leads(before, actions, after, late) && !after.service.stopped
    ensures after.service.started
    ensures after.service.deadline == before.service.deadline + Times(actions, Timer) * TICK_SECONDS * MICROS
    decreases |actions|
  {
    if actions == [] {
    } else {
      if actions[0] == Join {
        StoppedForGood(before, actions, after, late);
      }
      TimerNeverDrifts(Do(before, actions[0]), actions[1..], after, late);
    }
  }

  /** However late its handler is called, the timer runs once for each full period since the start, give or take one. */
  lemma {:induction false} TimerKeepsPace<E(!new)>(
      limits: Limits, clock: int, first: seq<Action<E>>, before: System<E>,
      actions: seq<Action<E>>, s: System<E>, late: nat)
    requires Leads(Boot(limits, clock), first, before, late) && !before.service.started
    requires Leads(Do(before, Start), actions, s, late) && !s.service.stopped && !s.crashed
    ensures var n, period := Times(actions, Timer), TICK_SECONDS * MICROS;
            && s.service.started && s.service.deadline == before.clock + (n + 1) * period
            && n * period <= s.clock - before.clock <= (n + 1) * period + late
  {
    hide Leads, Inv, Boot;
    ReachableIsSound(limits, clock, first, before, late);
    DoKeepsInv(before, Start, late);
    DoIsTimely(before, Start, late);
    BehaviourIsSound(Do(before, Start), actions, s, late);
    TimerNeverDrifts(Do(before, Start), actions, s, late);
  }

  // ---------------------------------------------------------- no resurrection

  lemma {:induction false} CountAppend<E>(a: seq<Event<E>>, b: seq<Event<E>>, kind: Kind, e: E)
    ensures Count(a + b, kind, e) == Count(a, kind, e) + Count(b, kind, e)
  {
    if b == [] {
      assert a + b == a;
    } else {
      var n := |b| - 1;
      assert (a + b)[..|a + b| - 1] == a + b[..n];
      CountAppend(a, b[..n], kind, e);
    }
  }

  lemma {:induction false} AddsFront<E>(tasks: seq<Task<E>>, e: E)
    requires tasks != []
    ensures AddsPosted(tasks, e) == AddsPosted(tasks[1..], e) + if tasks[0] == Perform(Add(e)) then 1 else 0
  {
    if |tasks| == 1 {
    } else {
      var prior := tasks[..|tasks| - 1];
      AddsFront(prior, e);
      assert tasks[1..][..|tasks| - 2] == prior[1..];
    }
  }

  lemma {:induction false} NothingAdded<E>(events: seq<Event<E>>, e: E)
    requires forall i :: 0 <= i < |events| ==> events[i].kind != Added || events[i].element != e
    ensures Count(events, Added, e) == 0
  {
    if events == [] {
    } else {
      NothingAdded(events[..|events| - 1], e);
    }
  }

  lemma {:induction false} StepAddsOnRequest<E>(t: State<E>, op: Op<E>, now: int, e: E)
    requires WellFormed(op)
    ensures Count(Step(t, op, now).events, Added, e) <= if op == Add(e) then 1 else 0
  {
    var events := Step(t, op, now).events;
    if op == Add(e) {
      if |events| == 2 {
        NothingAdded(events[..1], e);
      } else {
        assert |events| <= 1;
      }
    } else {
      NothingAdded(events, e);
    }
  }

  /** Every successful add was asked for by a task that has left the queue. */
  ghost predicate AddsAccounted<E>(s: System<E>, e: E) {
    Count(s.log, Added, e) + AddsPosted(s.service.tasks, e) <= AddsPosted(s.posted, e)
  }

  lemma {:induction false} DoKeepsAccounts<E(!new)>(s: System<E>, a: Action<E>, late: nat, e: E)
    requires Inv(s) && AddsAccounted(s, e) && Enabled(s, a, late)
    ensures AddsAccounted(Do(s, a), e)
  {
    hide Explains, ClockOrdered, Step;
    match a
    case Start =>
    case PostTask(task) =>
      assert (s.service.tasks + [task])[..|s.service.tasks|] == s.service.tasks;
      assert (s.posted + [task])[..|s.posted|] == s.posted;
    case Advance(to) =>
    case RunTask =>
      FrontIsPosted(s);
      AddsFront(s.service.tasks, e);
      var op := OpOf(s.service.tasks[0]);
      StepAddsOnRequest(s.service.tracker, op, Seconds(s.clock), e);
      CountAppend(s.log, Step(s.service.tracker, op, Seconds(s.clock)).events, Added, e);
    case Timer =>
      StepAddsOnRequest(s.service.tracker, Tick, Seconds(s.clock), e);
      CountAppend(s.log, Step(s.service.tracker, Tick, Seconds(s.clock)).events, Added, e);
    case Join =>
  }

  lemma {:induction false} BehaviourKeepsAccounts<E(!new)>(
      before: System<E>, actions: seq<Action<E>>, after: System<E>, late: nat, e: E)
    requires Inv(before) && AddsAccounted(before, e) && Leads(before, actions, after, late)
    ensures AddsAccounted(after, e)
    decreases |actions|
  {
    hide Inv, AddsAccounted, Do;
    if actions == [] {
    } else {
      DoKeepsInv(before, actions[0], late);
      DoKeepsAccounts(before, actions[0], late, e);
      BehaviourKeepsAccounts(Do(before, actions[0]), actions[1..], after, late, e);
    }
  }

  lemma {:induction false} BootIsAccounted<E>(limits: Limits, clock: int, e: E)
    ensures AddsAccounted(Boot(limits, clock), e)
  {
  }

  lemma {:induction false} AccountsBoundAdds<E>(s: System<E>, e: E)
    requires AddsAccounted(s, e)
    ensures Count(s.log, Added, e) <= AddsPosted(s.posted, e)
  {
  }

  /** However tasks and timer interleave, an element whose add was posted once never returns after its removal. */
  lemma {:induction false} NoResurrection<E(!new)>(
      limits: Limits, clock: int, actions: seq<Action<E>>, s: System<E>, late: nat, e: E, i: nat)
    requires Leads(Boot(limits, clock), actions, s, late) && AddsPosted(s.posted, e) <= 1
    requires i < |s.log| && s.log[i].element == e && !s.log[i].kind.IsTouch()
    ensures !InByLog(s.log, e) && forall j :: i < j < |s.log| ==> s.log[j].element != e
  {
    hide Inv, Timely, Legal, Leads, AddsAccounted, Boot;
    BootIsSound<E>(limits, clock, late);
    BootIsAccounted(limits, clock, e);
    BehaviourKeepsAccounts(Boot(limits, clock), actions, s, late, e);
    ReachableIsSound(limits, clock, actions, s, late);
    InvIsLegal(s);
    AccountsBoundAdds(s, e);
    forall j | i < j < |s.log|
      ensures s.log[j].element != e
    {
      RemovedOnceForAll(limits, s.log, e, i, j);
    }
  }

  /** What is left in the queue for an element that is gone fails and changes nothing. */
  lemma {:induction false} LateTasksAreRefused<E(!new)>(s: System<E>, e: E, now: int)
    requires Inv(s) && !InByLog(s.log, e)
    ensures Step(s.service.tracker, Update(e), now) == Outcome(s.service.tracker, Refused, [])
    ensures Step(s.service.tracker, Del(e), now) == Outcome(s.service.tracker, Refused, [])
  {
    InvIsLegal(s);
    LiveIsRecency(s.log);
  }
}
