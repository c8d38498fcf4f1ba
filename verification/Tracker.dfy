/**
 The element manager as a state machine on values, and what holds over each of
 its runs.  The class in ElementMgr.dfy implements these steps on a hash map
 and an intrusive list.  Proofs hide the definitions they do not need.
 */
module Tracker {
  import opened Sequences
  import opened ActivityLog

  /** count is the manager's own counter, which bulk removals leave alone. */
  datatype State<E> = State(live: seq<Entry<E>>, count: int, limits: Limits)

  datatype Op<E> = Add(e: E) | Update(e: E) | Del(e: E) | Tick | RemoveAll(kind: Kind)

  /** NullDereference: the code reads through the null that popping an empty list returned. */
  datatype Status = Done | Refused | NullDereference

  datatype Outcome<E> = Outcome(next: State<E>, status: Status, events: seq<Event<E>>)

  function Initial<E>(limits: Limits): State<E> {
    State([], 0, limits)
  }

  /** How many live elements a tick keeps: everything in front of the stale tail. */
  function KeptByTick<E>(live: seq<Entry<E>>, now: int, timeout: nat): (k: nat)
    ensures k <= |live|
    ensures forall i :: k <= i < |live| ==> now >= live[i].time + timeout
    ensures k > 0 ==> now < live[k - 1].time + timeout
  {
    if live != [] && now >= live[|live| - 1].time + timeout
    then KeptByTick(live[..|live| - 1], now, timeout)
    else |live|
  }

  /** Removing from the back down to k elements. */
  function FromBack<E>(kind: Kind, live: seq<Entry<E>>, k: nat, now: int): (evs: seq<Event<E>>)
    requires k <= |live|
    ensures |evs| == |live| - k
    ensures forall i :: 0 <= i < |evs| ==> evs[i] == Event(kind, live[|live| - 1 - i].element, now)
  {
    if |live| == k then []
    else [Event(kind, live[|live| - 1].element, now)] + FromBack(kind, live[..|live| - 1], k, now)
  }

  /** Removing everything from the front. */
  function FromFront<E>(kind: Kind, live: seq<Entry<E>>, now: int): (evs: seq<Event<E>>)
    ensures |evs| == |live|
    ensures forall i :: 0 <= i < |evs| ==> evs[i] == Event(kind, live[i].element, now)
  {
    if live == [] then []
    else [Event(kind, live[0].element, now)] + FromFront(kind, live[1..], now)
  }

  function KeepFirst<E>(s: State<E>, k: nat): (r: State<E>)
    requires k <= |s.live|
    ensures |r.live| == k
    ensures forall i :: 0 <= i < k ==> r.live[i] == s.live[i]
    ensures r.count == s.count - (|s.live| - k)
    ensures r.limits == s.limits
  {
    s.(live := s.live[..k], count := s.count - (|s.live| - k))
  }

  lemma {:induction false} KeepFirstTwice<E>(s: State<E>, k: nat, m: nat)
    requires m <= k <= |s.live|
    ensures KeepFirst(KeepFirst(s, k), m) == KeepFirst(s, m)
  {
    assert s.live[..k][..m] == s.live[..m];
  }

  function AddStep<E(==)>(s: State<E>, e: E, now: int): Outcome<E> {
    if Has(s.live, e) then Outcome(s, Refused, [])
    else
      var added := Event(Added, e, now);
      if s.limits.limitOn && s.count + 1 > s.limits.limit then
        if s.live == [] then Outcome(s, NullDereference, [])
        else
          var rest := s.live[..|s.live| - 1];
          Outcome(s.(live := [Entry(e, now)] + rest), Done,
                  [Event(Evicted, s.live[|s.live| - 1].element, now), added])
      else
        Outcome(s.(live := [Entry(e, now)] + s.live, count := s.count + 1), Done, [added])
  }

  function Step<E(==)>(s: State<E>, op: Op<E>, now: int): Outcome<E> {
    match op
    case Add(e) => AddStep(s, e, now)
    case Update(e) =>
      if Has(s.live, e)
      then Outcome(s.(live := [Entry(e, now)] + Without(s.live, e)), Done, [Event(Touched, e, now)])
      else Outcome(s, Refused, [])
    case Del(e) =>
      if Has(s.live, e)
      then Outcome(s.(live := Without(s.live, e), count := s.count - 1), Done, [Event(Deleted, e, now)])
      else Outcome(s, Refused, [])
    case Tick =>
      if s.limits.timeoutOn then
        var k := KeptByTick(s.live, now, s.limits.timeout);
        Outcome(KeepFirst(s, k), Done, FromBack(Expired, s.live, k, now))
      else Outcome(s, Done, [])
    case RemoveAll(kind) =>
      Outcome(s.(live := []), Done, FromFront(kind, s.live, now))
  }

  /** The elements handed to the callback, in order. */
  function Reported<E>(events: seq<Event<E>>): seq<E> {
    if events == [] then []
    else
      var ev := events[|events| - 1];
      Reported(events[..|events| - 1]) + if ev.kind.IsReported() then [ev.element] else []
  }

  /** The calls made for one step's events: none when no callback is set. */
  function Fired<E>(callbackSet: bool, events: seq<Event<E>>): seq<E> {
    if callbackSet then Reported(events) else []
  }

  predicate WellFormed<E>(op: Op<E>) {
    op.RemoveAll? ==> op.kind.IsBulk()
  }

  // ------------------------------------------------- one step and its history

  /** s is the state that history log explains. */
  ghost predicate Explains<E(!new)>(log: seq<Event<E>>, s: State<E>) {
    && s.live == Live(log)
    && s.count == |s.live| + Bulk(log)
    && Legal(s.limits, log)
  }

  /** A legal removal of the n-th live element. */
  lemma {:induction false} RemoveAt<E(!new)>(log: seq<Event<E>>, s: State<E>, n: nat, ev: Event<E>)
    requires Explains(log, s)
    requires n < |s.live| && s.live[n].element == ev.element && !ev.kind.IsTouch()
    requires LegalNext(s.limits, s.live, Bulk(log), ev)
    ensures Explains(log + [ev],
                     s.(live := Drop(s.live, n), count := if ev.kind.IsBulk() then s.count else s.count - 1))
    ensures Without(s.live, ev.element) == Drop(s.live, n)
  {
    LiveIsRecency(log);
    LiveSnoc(log, ev);
    LegalSnoc(s.limits, log, ev);
    assert IndexOf(s.live, ev.element) == n;
  }

  lemma {:induction false} ExpireLast<E(!new)>(log: seq<Event<E>>, s: State<E>, now: int)
    requires Explains(log, s) && s.limits.timeoutOn && s.live != []
    requires s.live[|s.live| - 1].time + s.limits.timeout <= now
    ensures var n := |s.live| - 1;
            var log' := log + [Event(Expired, s.live[n].element, now)];
            Explains(log', KeepFirst(s, n))
  {
    hide Explains;
    var n := |s.live| - 1;
    RemoveAt(log, s, n, Event(Expired, s.live[n].element, now));
    assert Drop(s.live, n) == s.live[..n];
  }

  lemma {:induction false} RemoveFirst<E(!new)>(kind: Kind, log: seq<Event<E>>, s: State<E>, now: int)
    requires Explains(log, s) && kind.IsBulk() && s.live != []
    ensures var log' := log + [Event(kind, s.live[0].element, now)];
            Explains(log', s.(live := s.live[1..]))
  {
    hide Explains;
    RemoveAt(log, s, 0, Event(kind, s.live[0].element, now));
    assert Drop(s.live, 0) == s.live[1..];
  }

  lemma {:induction false} DrainFromBack<E(!new)>(log: seq<Event<E>>, s: State<E>, k: nat, now: int)
    requires Explains(log, s) && s.limits.timeoutOn && k <= |s.live|
    requires forall i :: k <= i < |s.live| ==> s.live[i].time + s.limits.timeout <= now
    ensures Explains(log + FromBack(Expired, s.live, k, now), KeepFirst(s, k))
    decreases |s.live|
  {
    hide Explains, FromBack;
    FromBackUnfolds(Expired, log, s.live, k, now);
    if |s.live| == k {
      assert KeepFirst(s, k) == s;
    } else {
      var n := |s.live| - 1;
      ExpireLast(log, s, now);
      DrainFromBack(log + [Event(Expired, s.live[n].element, now)], KeepFirst(s, n), k, now);
      KeepFirstTwice(s, n, k);
    }
  }

  lemma {:induction false} FromFrontUnfolds<E>(kind: Kind, log: seq<Event<E>>, live: seq<Entry<E>>, now: int)
    ensures log + FromFront(kind, live, now) ==
              if live == [] then log
              else log + [Event(kind, live[0].element, now)] + FromFront(kind, live[1..], now)
  {
  }

  lemma {:induction false} FromBackUnfolds<E>(kind: Kind, log: seq<Event<E>>, live: seq<Entry<E>>, k: nat, now: int)
    requires k <= |live|
    ensures log + FromBack(kind, live, k, now) ==
              if |live| == k then log
              else
                var n := |live| - 1;
                log + [Event(kind, live[n].element, now)] + FromBack(kind, live[..n], k, now)
  {
  }

  lemma {:induction false} DrainFromFront<E(!new)>(kind: Kind, log: seq<Event<E>>, s: State<E>, now: int)
    requires Explains(log, s) && kind.IsBulk()
    ensures Explains(log + FromFront(kind, s.live, now), s.(live := []))
    decreases |s.live|
  {
    hide Explains, FromFront;
    FromFrontUnfolds(kind, log, s.live, now);
    if s.live == [] {
    } else {
      RemoveFirst(kind, log, s, now);
      DrainFromFront(kind, log + [Event(kind, s.live[0].element, now)], s.(live := s.live[1..]), now);
    }
  }

  lemma {:induction false} TouchStep<E(!new)>(log: seq<Event<E>>, s: State<E>, ev: Event<E>)
    requires Explains(log, s) && ev.kind.IsTouch()
    requires LegalNext(s.limits, s.live, Bulk(log), ev)
    ensures var live := [Entry(ev.element, ev.at)] + Without(s.live, ev.element);
            Explains(log + [ev], s.(live := live, count := if ev.kind == Added then s.count + 1 else s.count))
  {
    LiveSnoc(log, ev);
    LegalSnoc(s.limits, log, ev);
  }

  /** Every step appends events that legally explain exactly what it did. */
  lemma {:induction false} StepIsExplained<E(!new)>(log: seq<Event<E>>, s: State<E>, op: Op<E>, now: int)
    requires Explains(log, s) && WellFormed(op)
    ensures var out := Step(s, op, now);
            Explains(log + out.events, out.next) && out.next.limits == s.limits
  {
    hide Explains, Bulk;
    assert log + [] == log;
    match op
    case Add(e) => AddIsExplained(log, s, e, now);
    case Update(e) =>
      if Has(s.live, e) {
        TouchStep(log, s, Event(Touched, e, now));
      }
    case Del(e) =>
      if Has(s.live, e) {
        RemoveAt(log, s, IndexOf(s.live, e), Event(Deleted, e, now));
      }
    case Tick =>
      if s.limits.timeoutOn {
        DrainFromBack(log, s, KeptByTick(s.live, now, s.limits.timeout), now);
      }
    case RemoveAll(kind) => DrainFromFront(kind, log, s, now);
  }

  lemma {:induction false} AddIsExplained<E(!new)>(log: seq<Event<E>>, s: State<E>, e: E, now: int)
    requires Explains(log, s)
    ensures var out := AddStep(s, e, now);
            Explains(log + out.events, out.next)
  {
    assert log + [] == log;
    if !Has(s.live, e) {
      if s.limits.limitOn && s.count + 1 > s.limits.limit {
        if s.live != [] {
          EvictingAddIsExplained(log, s, e, now);
        }
      } else {
        TouchStep(log, s, Event(Added, e, now));
      }
    }
  }

  lemma {:induction false} EvictLast<E(!new)>(log: seq<Event<E>>, s: State<E>, now: int)
    requires Explains(log, s)
    requires s.limits.limitOn && s.count + 1 > s.limits.limit && s.live != []
    ensures var n := |s.live| - 1;
            var log' := log + [Event(Evicted, s.live[n].element, now)];
            && Explains(log', KeepFirst(s, n))
            && |s.live| - 1 + Bulk(log') < s.limits.limit
  {
    var n := |s.live| - 1;
    var evicted := Event(Evicted, s.live[n].element, now);
    LegalIsBounded(s.limits, log);
    assert s.count <= s.limits.limit && LegalNext(s.limits, s.live, Bulk(log), evicted);
    hide Explains;
    RemoveAt(log, s, n, evicted);
    assert Drop(s.live, n) == s.live[..n];
    LegalSnoc(s.limits, log, evicted);
  }

  lemma {:induction false} EvictingAddIsExplained<E(!new)>(log: seq<Event<E>>, s: State<E>, e: E, now: int)
    requires Explains(log, s) && !Has(s.live, e)
    requires s.limits.limitOn && s.count + 1 > s.limits.limit && s.live != []
    ensures var out := AddStep(s, e, now);
            Explains(log + out.events, out.next)
  {
    hide Explains, Bulk;
    var n, added := |s.live| - 1, Event(Added, e, now);
    var evicted := Event(Evicted, s.live[n].element, now);
    var s' := KeepFirst(s, n);
    EvictLast(log, s, now);
    assert !Has(s'.live, e) && Without(s'.live, e) == s'.live;
    TouchStep(log + [evicted], s', added);
    assert log + [evicted] + [added] == log + [evicted, added];
  }

  // ------------------------------------------- what each operation comes to

  lemma {:induction false} LiveByLog<E(!new)>(log: seq<Event<E>>, s: State<E>, e: E)
    requires Explains(log, s)
    ensures Has(s.live, e) <==> InByLog(log, e)
  {
    LiveIsRecency(log);
  }

  /** ev is the latest event about its element. */
  predicate LatestIs<E(==)>(log: seq<Event<E>>, ev: Event<E>) {
    var t := Last(log, ev.element);
    t >= 0 && log[t] == ev
  }

  lemma {:induction false} LatestIsNew<E>(log: seq<Event<E>>, ev: Event<E>)
    ensures LatestIs(log + [ev], ev) && (InByLog(log + [ev], ev.element) <==> ev.kind.IsTouch())
  {
    LastSnoc(log, ev, ev.element);
  }

  /** The live list without its k-th entry. */
  function Skipping<E>(live: seq<Entry<E>>, k: nat): (r: seq<Entry<E>>)
    requires k < |live|
    ensures |r| == |live| - 1
    ensures forall i :: 0 <= i < |r| ==> r[i] == live[if i < k then i else i + 1]
  {
    live[..k] + live[k + 1..]
  }

  /**
   An update of a live element always succeeds: it is touched now, goes to the
   front, and all others stay in place.  Any other update is refused.
   */
  lemma {:induction false} UpdateTouches<E(!new)>(log: seq<Event<E>>, s: State<E>, e: E, now: int)
    requires Explains(log, s)
    ensures var out := Step(s, Update(e), now);
            if !InByLog(log, e) then out == Outcome(s, Refused, [])
            else
              && out.status == Done && out.events == [Event(Touched, e, now)]
              && out.next.count == s.count && out.next.limits == s.limits
              && (exists k :: 0 <= k < |s.live| && s.live[k].element == e &&
                    out.next.live == [Entry(e, now)] + Skipping(s.live, k))
              && LatestIs(log + out.events, Event(Touched, e, now))
  {
    hide Explains, Last;
    LiveByLog(log, s, e);
    if Has(s.live, e) {
      LatestIsNew(log, Event(Touched, e, now));
      var k := IndexOf(s.live, e);
      assert Without(s.live, e) == Skipping(s.live, k);
    }
  }

  /**
   A deletion of a live element always succeeds: it is gone, counted out, and
   all others stay in place.  Any other deletion is refused.
   */
  lemma {:induction false} DelRemoves<E(!new)>(log: seq<Event<E>>, s: State<E>, e: E, now: int)
    requires Explains(log, s)
    ensures var out := Step(s, Del(e), now);
            if !InByLog(log, e) then out == Outcome(s, Refused, [])
            else
              && out.status == Done && out.events == [Event(Deleted, e, now)] && !InByLog(log + out.events, e)
              && out.next.count == s.count - 1 && out.next.limits == s.limits
              && exists k :: 0 <= k < |s.live| && s.live[k].element == e && out.next.live == Skipping(s.live, k)
  {
    hide Explains, Last;
    LiveByLog(log, s, e);
    if Has(s.live, e) {
      LatestIsNew(log, Event(Deleted, e, now));
      var k := IndexOf(s.live, e);
      assert Without(s.live, e) == Skipping(s.live, k);
    }
  }

  /** When an add is refused, when it reads through null, and when it succeeds. */
  lemma {:induction false} AddSucceedsIff<E(!new)>(log: seq<Event<E>>, s: State<E>, e: E, now: int)
    requires Explains(log, s)
    ensures var out, usedUp := AddStep(s, e, now), s.limits.limitOn && Bulk(log) >= s.limits.limit;
            && (out.status == Refused <==> InByLog(log, e))
            && (out.status == NullDereference <==> !InByLog(log, e) && usedUp)
            && (out.status == Done <==> !InByLog(log, e) && !usedUp)
            && (out.status != Done ==> out.next == s && out.events == [])
  {
    LiveByLog(log, s, e);
    if s.limits.limitOn {
      LegalIsBounded(s.limits, log);
    }
  }

  /** A successful add goes to the front; it evicts the last one exactly at the limit, and counts one up below it. */
  lemma {:induction false} AddEvictsIff<E(!new)>(log: seq<Event<E>>, s: State<E>, e: E, now: int)
    requires Explains(log, s) && AddStep(s, e, now).status == Done
    ensures var out, n := AddStep(s, e, now), |s.live| - 1;
            && LatestIs(log + out.events, Event(Added, e, now)) && out.next.limits == s.limits
            && if s.limits.limitOn && |Live(log)| + Bulk(log) == s.limits.limit then
                 && s.live != [] && out.next.live == [Entry(e, now)] + s.live[..n] && out.next.count == s.count
                 && out.events == [Event(Evicted, s.live[n].element, now), Event(Added, e, now)]
               else
                 && out.next.live == [Entry(e, now)] + s.live && out.next.count == s.count + 1
                 && out.events == [Event(Added, e, now)]
  {
    if s.limits.limitOn {
      LegalIsBounded(s.limits, log);
    }
    AddIsLatest(log, s, e, now);
  }

  lemma {:induction false} AddIsLatest<E>(log: seq<Event<E>>, s: State<E>, e: E, now: int)
    requires AddStep(s, e, now).status == Done
    ensures LatestIs(log + AddStep(s, e, now).events, Event(Added, e, now))
  {
    hide AddStep, LatestIs;
    AddEndsInAdded(s, e, now);
    LastOfAllIsLatest(log, AddStep(s, e, now).events);
  }

  lemma {:induction false} AddEndsInAdded<E>(s: State<E>, e: E, now: int)
    requires AddStep(s, e, now).status == Done
    ensures var events := AddStep(s, e, now).events;
            events != [] && events[|events| - 1] == Event(Added, e, now)
  {
  }

  lemma {:induction false} LastOfAllIsLatest<E>(log: seq<Event<E>>, events: seq<Event<E>>)
    requires events != []
    ensures LatestIs(log + events, events[|events| - 1])
  {
    hide LatestIs;
    var n := |events| - 1;
    assert log + events == log + events[..n] + [events[n]];
    LatestIsNew(log + events[..n], events[n]);
  }

  /** Whatever the clock has done, a tick removes the longest stale tail, from the back, and nothing else. */
  lemma {:induction false} TickTakesStaleTail<E>(s: State<E>, now: int)
    ensures var out := Step(s, Tick, now);
            && out.status == Done
            && (!s.limits.timeoutOn ==> out.next == s && out.events == [])
            && (s.limits.timeoutOn ==>
                  exists k :: 0 <= k <= |s.live| &&
                       out.next == s.(live := s.live[..k], count := s.count - (|s.live| - k))
                    && (forall i :: k <= i < |s.live| ==> s.live[i].time + s.limits.timeout <= now)
                    && (k > 0 ==> now < s.live[k - 1].time + s.limits.timeout)
                    && |out.events| == |s.live| - k
                    && (forall i :: 0 <= i < |out.events| ==>
                          out.events[i] == Event(Expired, s.live[|s.live| - 1 - i].element, now)))
  {
    if s.limits.timeoutOn {
      var k := KeptByTick(s.live, now, s.limits.timeout);
      assert Step(s, Tick, now).next == s.(live := s.live[..k], count := s.count - (|s.live| - k));
    }
  }

  /** A bulk removal takes every live element, front to back, as the kind asked for, and leaves the counter alone. */
  lemma {:induction false} BulkRemovesAll<E(!new)>(log: seq<Event<E>>, s: State<E>, kind: Kind, now: int)
    requires Explains(log, s) && (kind == Cleared || kind == Collected || kind == Triggered)
    ensures var out := Step(s, RemoveAll(kind), now);
            && out.status == Done && out.next == s.(live := []) && |out.events| == |s.live|
            && (forall i :: 0 <= i < |out.events| ==> out.events[i] == Event(kind, s.live[i].element, now))
            && forall e :: !InByLog(log + out.events, e)
  {
    hide Explains, InByLog;
    var out := Step(s, RemoveAll(kind), now);
    StepIsExplained(log, s, RemoveAll(kind), now);
    forall e
      ensures !InByLog(log + out.events, e)
    {
      LiveByLog(log + out.events, out.next, e);
    }
  }

  // ------------------------------------------------------------ whole runs

  datatype Call<E> = Call(op: Op<E>, now: int)

  datatype Run<E> = Run(state: State<E>, log: seq<Event<E>>, crashed: bool)

  /** Everything up to the first null dereference. */
  function RunOf<E(==)>(limits: Limits, calls: seq<Call<E>>): Run<E> {
    if calls == [] then Run(Initial(limits), [], false)
    else
      var prior, call := RunOf(limits, calls[..|calls| - 1]), calls[|calls| - 1];
      if prior.crashed then prior
      else
        var out := Step(prior.state, call.op, call.now);
        Run(out.next, prior.log + out.events, out.status == NullDereference)
  }

  ghost predicate WellFormedCalls<E>(calls: seq<Call<E>>) {
    forall i :: 0 <= i < |calls| ==> WellFormed(calls[i].op)
  }

  ghost predicate ClockNeverGoesBack<E>(calls: seq<Call<E>>) {
    forall i, j :: 0 <= i <= j < |calls| ==> calls[i].now <= calls[j].now
  }

  /** Over every run, list and counter are what the legal history of the run says. */
  lemma {:induction false} RunIsExplained<E(!new)>(limits: Limits, calls: seq<Call<E>>)
    requires WellFormedCalls(calls)
    ensures var run := RunOf(limits, calls); Explains(run.log, run.state) && run.state.limits == limits
  {
    if calls == [] {
    } else {
      var before, call := calls[..|calls| - 1], calls[|calls| - 1];
      RunIsExplained(limits, before);
      var prior := RunOf(limits, before);
      hide Explains, Step;
      StepIsExplained(prior.log, prior.state, call.op, call.now);
    }
  }

  lemma {:induction false} StepStampsNow<E>(s: State<E>, op: Op<E>, now: int)
    ensures forall i :: 0 <= i < |Step(s, op, now).events| ==> Step(s, op, now).events[i].at == now
  {
  }

  lemma {:induction false} RunIsClockOrdered<E>(limits: Limits, calls: seq<Call<E>>)
    requires ClockNeverGoesBack(calls)
    ensures ClockOrdered(RunOf(limits, calls).log)
    ensures var log := RunOf(limits, calls).log;
            log != [] ==> calls != [] && log[|log| - 1].at <= calls[|calls| - 1].now
  {
    if calls == [] {
    } else {
      var before, call := calls[..|calls| - 1], calls[|calls| - 1];
      RunIsClockOrdered(limits, before);
      var prior := RunOf(limits, before);
      StepStampsNow(prior.state, call.op, call.now);
      hide Step;
      assert before != [] ==> before[|before| - 1].now <= call.now;
    }
  }

  /** In every reachable state the entries are sorted, newest first. */
  lemma {:induction false} RunIsSorted<E(!new)>(limits: Limits, calls: seq<Call<E>>)
    requires WellFormedCalls(calls) && ClockNeverGoesBack(calls)
    ensures SortedByTime(RunOf(limits, calls).state.live)
  {
    RunIsExplained(limits, calls);
    RunIsClockOrdered(limits, calls);
    LiveIsSorted(RunOf(limits, calls).log);
  }

  // --------------------------------------------------- limits and crashes

  /** Bulk removals eat up the limit: the room left is exactly what they have not consumed. */
  lemma {:induction false} LimitHolds<E(!new)>(limits: Limits, calls: seq<Call<E>>)
    requires WellFormedCalls(calls) && limits.limitOn
    ensures var run := RunOf(limits, calls); |run.state.live| + Bulk(run.log) <= limits.limit
  {
    RunIsExplained(limits, calls);
    LegalIsBounded(limits, RunOf(limits, calls).log);
  }

  /** The next add reads through null exactly when the limit has been used up by bulk removals. */
  lemma {:induction false} AddCrashesExactly<E(!new)>(limits: Limits, calls: seq<Call<E>>, e: E, now: int)
    requires WellFormedCalls(calls)
    ensures var run := RunOf(limits, calls);
            AddStep(run.state, e, now).status == NullDereference <==> limits.limitOn && Bulk(run.log) >= limits.limit
  {
    RunIsExplained(limits, calls);
    if limits.limitOn {
      LimitHolds(limits, calls);
    }
  }

  lemma {:induction false} BulkNeedsRemoveAll<E>(limits: Limits, calls: seq<Call<E>>)
    requires forall i :: 0 <= i < |calls| ==> !calls[i].op.RemoveAll?
    ensures Bulk(RunOf(limits, calls).log) == 0
  {
    hide Step;
    if calls == [] {
    } else {
      var before, call := calls[..|calls| - 1], calls[|calls| - 1];
      BulkNeedsRemoveAll(limits, before);
      var prior := RunOf(limits, before);
      StepIsNotBulk(prior.state, call.op, call.now);
      NoBulkAppended(prior.log, Step(prior.state, call.op, call.now).events);
    }
  }

  lemma {:induction false} StepIsNotBulk<E>(s: State<E>, op: Op<E>, now: int)
    requires !op.RemoveAll?
    ensures forall i :: 0 <= i < |Step(s, op, now).events| ==> !Step(s, op, now).events[i].kind.IsBulk()
  {
  }

  lemma {:induction false} NoBulkAppended<E>(log: seq<Event<E>>, events: seq<Event<E>>)
    requires forall i :: 0 <= i < |events| ==> !events[i].kind.IsBulk()
    ensures Bulk(log + events) == Bulk(log)
  {
    if events == [] {
      assert log + events == log;
    } else {
      var n := |events| - 1;
      NoBulkAppended(log, events[..n]);
      assert (log + events)[..|log + events| - 1] == log + events[..n];
    }
  }

  /** One add, one bulk removal and one more add: a limit of one is used up, and the second add reads through null. */
  lemma {:induction false} BulkRemovalUsesUpTheLimit()
    ensures var calls := [Call(Add(1), 0), Call(RemoveAll(Triggered), 1), Call(Add(2), 2)];
            var limits := Limits(false, 0, true, 1);
            && RunOf(limits, calls[..2]) ==
                 Run(State([], 1, limits), [Event(Added, 1, 0), Event(Triggered, 1, 1)], false)
            && RunOf(limits, calls).crashed
  {
    var a: Call<int>, b: Call<int>, c: Call<int> := Call(Add(1), 0), Call(RemoveAll(Triggered), 1), Call(Add(2), 2);
    var limits := Limits(false, 0, true, 1);
    assert [a, b, c][..2] == [a, b] && [a, b][..1] == [a] && [a][..0] == [];
    assert RunOf(limits, [a]) == Run(State([Entry(1, 0)], 1, limits), [Event(Added, 1, 0)], false);
    assert FromFront(Triggered, [Entry(1, 0)], 1) == [Event(Triggered, 1, 1)];
  }

  /** Without bulk removal a limit of one or more is never exceeded and never crashes. */
  lemma {:induction false} BoundedWithoutBulk<E(!new)>(limits: Limits, calls: seq<Call<E>>)
    requires limits.limitOn && limits.limit >= 1
    requires forall i :: 0 <= i < |calls| ==> !calls[i].op.RemoveAll?
    ensures var run := RunOf(limits, calls);
            !run.crashed && run.state.count == |run.state.live| <= limits.limit
  {
    RunIsExplained(limits, calls);
    BulkNeedsRemoveAll(limits, calls);
    LimitHolds(limits, calls);
    if calls == [] {
    } else {
      var before, call := calls[..|calls| - 1], calls[|calls| - 1];
      BoundedWithoutBulk(limits, before);
      BulkNeedsRemoveAll(limits, before);
      if call.op.Add? {
        AddCrashesExactly(limits, before, call.op.e, call.now);
      }
    }
  }

  // -------------------------------------------------------------- expiry

  /** Nothing stale stands in front of something fresh. */
  ghost predicate StaleAtBack<E>(live: seq<Entry<E>>, now: int, timeout: nat) {
    forall i, j :: 0 <= i <= j < |live| && now >= live[i].time + timeout ==> now >= live[j].time + timeout
  }

  function Fresh<E>(live: seq<Entry<E>>, now: int, timeout: nat): (r: seq<Entry<E>>)
    ensures |r| <= |live|
  {
    if live == [] then []
    else
      var last := live[|live| - 1];
      Fresh(live[..|live| - 1], now, timeout) + if now >= last.time + timeout then [] else [last]
  }

  lemma {:induction false} AllFresh<E>(live: seq<Entry<E>>, now: int, timeout: nat)
    requires forall i :: 0 <= i < |live| ==> now < live[i].time + timeout
    ensures Fresh(live, now, timeout) == live
  {
    if live == [] {
    } else {
      AllFresh(live[..|live| - 1], now, timeout);
    }
  }

  lemma {:induction false} StaleIsDropped<E>(live: seq<Entry<E>>, now: int, timeout: nat, i: nat)
    requires i < |live| && now >= live[i].time + timeout
    ensures |Fresh(live, now, timeout)| < |live|
    decreases |live|
  {
    if i == |live| - 1 {
    } else {
      StaleIsDropped(live[..|live| - 1], now, timeout, i);
    }
  }

  /** Stopping at the first fresh tail keeps exactly the fresh entries iff the stale ones are all at the back. */
  lemma {:induction false} EarlyStopIsExactIff<E>(live: seq<Entry<E>>, now: int, timeout: nat)
    ensures live[..KeptByTick(live, now, timeout)] == Fresh(live, now, timeout) <==> StaleAtBack(live, now, timeout)
  {
    hide Fresh;
    var n := |live| - 1;
    if live != [] && now >= live[n].time + timeout {
      EarlyStopIsExactIff(live[..n], now, timeout);
      StaleTailDropsOut(live, now, timeout);
    } else {
      assert live[..KeptByTick(live, now, timeout)] == live;
      if i :| 0 <= i < |live| && now >= live[i].time + timeout {
        StaleIsDropped(live, now, timeout, i);
        assert i <= n;
      } else {
        AllFresh(live, now, timeout);
      }
    }
  }

  lemma {:induction false} StaleTailDropsOut<E>(live: seq<Entry<E>>, now: int, timeout: nat)
    requires live != [] && now >= live[|live| - 1].time + timeout
    ensures var rest := live[..|live| - 1];
            && live[..KeptByTick(live, now, timeout)] == rest[..KeptByTick(rest, now, timeout)]
            && Fresh(live, now, timeout) == Fresh(rest, now, timeout)
            && (StaleAtBack(live, now, timeout) <==> StaleAtBack(rest, now, timeout))
  {
    var rest := live[..|live| - 1];
    assert forall i :: 0 <= i < |rest| ==> rest[i] == live[i];
  }

  lemma {:induction false} StaleSuffix<E>(live: seq<Entry<E>>, now: int, timeout: nat, i: nat)
    requires SortedByTime(live) && i < |live|
    ensures KeptByTick(live, now, timeout) <= i <==> live[i].time + timeout <= now
    ensures live[..KeptByTick(live, now, timeout)] == Fresh(live, now, timeout)
  {
    EarlyStopIsExactIff(live, now, timeout);
  }

  lemma {:induction false} ExpiredAre<E>(live: seq<Entry<E>>, k: nat, now: int, e: E)
    requires k <= |live|
    ensures Event(Expired, e, now) in FromBack(Expired, live, k, now) <==>
              exists i :: k <= i < |live| && live[i].element == e
  {
    var events := FromBack(Expired, live, k, now);
    if i :| k <= i < |live| && live[i].element == e {
      assert events[|live| - 1 - i] == Event(Expired, e, now);
    }
  }

  /** A tick calls time on exactly the elements untouched for the whole timeout. */
  lemma {:induction false} TickExpiresExactly<E(!new)>(log: seq<Event<E>>, s: State<E>, now: int, e: E)
    requires Explains(log, s) && ClockOrdered(log) && s.limits.timeoutOn
    ensures Event(Expired, e, now) in Step(s, Tick, now).events <==>
              InByLog(log, e) && log[Last(log, e)].at + s.limits.timeout <= now
  {
    hide Explains, ClockOrdered, KeptByTick, FromBack;
    ExpiredAre(s.live, KeptByTick(s.live, now, s.limits.timeout), now, e);
    DroppedAreStale(log, s, now, e);
  }

  lemma {:induction false} DroppedAreStale<E(!new)>(log: seq<Event<E>>, s: State<E>, now: int, e: E)
    requires Explains(log, s) && ClockOrdered(log)
    ensures (exists i :: KeptByTick(s.live, now, s.limits.timeout) <= i < |s.live| && s.live[i].element == e) <==>
              InByLog(log, e) && log[Last(log, e)].at + s.limits.timeout <= now
  {
    hide KeptByTick, Live, Legal, Bulk;
    LiveIsRecency(log);
    LiveIsSorted(log);
    var m := IndexOf(s.live, e);
    if m < |s.live| {
      StaleSuffix(s.live, now, s.limits.timeout, m);
    }
  }

  /** It calls them back in the order they were last touched and keeps the others in place. */
  lemma {:induction false} TickExpiresInOrder<E(!new)>(log: seq<Event<E>>, s: State<E>, now: int)
    requires Explains(log, s) && ClockOrdered(log) && s.limits.timeoutOn
    ensures var out := Step(s, Tick, now);
            && out.next.live == Fresh(s.live, now, s.limits.timeout)
            && (forall i, j :: 0 <= i < j < |out.events| ==>
                  Last(log, out.events[i].element) < Last(log, out.events[j].element))
  {
    LiveIsRecency(log);
    LiveIsSorted(log);
    hide Live, Legal, Bulk;
    EarlyStopIsExactIff(s.live, now, s.limits.timeout);
  }

  lemma {:induction false} RunTickExpiresExactly<E(!new)>(limits: Limits, calls: seq<Call<E>>, now: int, e: E)
    requires WellFormedCalls(calls) && ClockNeverGoesBack(calls) && limits.timeoutOn
    ensures var run := RunOf(limits, calls);
            Event(Expired, e, now) in Step(run.state, Tick, now).events <==>
              InByLog(run.log, e) && run.log[Last(run.log, e)].at + limits.timeout <= now
  {
    RunIsExplained(limits, calls);
    RunIsClockOrdered(limits, calls);
    TickExpiresExactly(RunOf(limits, calls).log, RunOf(limits, calls).state, now, e);
  }

  /** If the clock does go back, a stale element can outlive a tick behind a fresh tail. */
  lemma {:induction false} ClockGoingBackHidesStale()
    ensures var calls := [Call(Add(1), 100), Call(Add(2), 10)];
            var live := RunOf(Limits(true, 20, false, 0), calls).state.live;
            && live == [Entry(2, 10), Entry(1, 100)]
            && live[..KeptByTick(live, 60, 20)] == live
            && Fresh(live, 60, 20) == [Entry(1, 100)]
  {
    var first: Call<int>, second: Call<int> := Call(Add(1), 100), Call(Add(2), 10);
    var limits := Limits(true, 20, false, 0);
    assert [first, second][..1] == [first] && [first][..0] == [];
    assert RunOf(limits, [first]).state.live == [Entry(1, 100)];
    var live: seq<Entry<int>> := [Entry(2, 10), Entry(1, 100)];
    assert RunOf(limits, [first, second]).state.live == live;
    assert live[..1] == [Entry(2, 10)] && live[..1][..0] == [];
    assert Fresh(live[..1], 60, 20) == [];
  }

  // ----------------------------------------------------------- callbacks

  lemma {:induction false} ReportedAppend<E>(a: seq<Event<E>>, b: seq<Event<E>>)
    ensures Reported(a + b) == Reported(a) + Reported(b)
  {
    if b == [] {
      assert a + b == a;
    } else {
      var n := |b| - 1;
      assert (a + b)[..|a + b| - 1] == a + b[..n];
      ReportedAppend(a, b[..n]);
    }
  }

  /** Each expiry, eviction and triggered removal of an element is reported once, and nothing else is. */
  lemma {:induction false} ReportedOnce<E>(log: seq<Event<E>>, e: E)
    ensures multiset(Reported(log))[e] == Count(log, Expired, e) + Count(log, Evicted, e) + Count(log, Triggered, e)
  {
    if log == [] {
    } else {
      var n := |log| - 1;
      ReportedOnce(log[..n], e);
      assert multiset(Reported(log))[e] ==
             multiset(Reported(log[..n]))[e] + if log[n].kind.IsReported() && log[n].element == e then 1 else 0;
    }
  }

  /** The callbacks made over a run, collected call by call as each operation makes them. */
  function CallbacksOf<E(==)>(limits: Limits, calls: seq<Call<E>>, callbackSet: bool): seq<E> {
    if calls == [] then []
    else
      var before, call := calls[..|calls| - 1], calls[|calls| - 1];
      var prior := RunOf(limits, before);
      CallbacksOf(limits, before, callbackSet) +
      if prior.crashed then [] else Fired(callbackSet, Step(prior.state, call.op, call.now).events)
  }

  /** With a callback set the calls made are what the history reports, in order; without one there are none. */
  lemma {:induction false} CallbacksAreReported<E>(limits: Limits, calls: seq<Call<E>>, callbackSet: bool)
    ensures CallbacksOf(limits, calls, callbackSet) == Fired(callbackSet, RunOf(limits, calls).log)
  {
    hide Step, Reported;
    ReportedNothing<E>();
    if calls == [] {
    } else {
      var before, call := calls[..|calls| - 1], calls[|calls| - 1];
      var prior := RunOf(limits, before);
      CallbacksAreReported(limits, before, callbackSet);
      ReportedAppend(prior.log, Step(prior.state, call.op, call.now).events);
    }
  }

  lemma {:induction false} ReportedNothing<E>()
    ensures Reported<E>([]) == []
  {
  }

  /**
   Over every run adds, removals and live elements balance, element by
   element, and an element is called back once for each time it expired, was
   evicted or was triggered, and at no other time.
   */
  lemma {:induction false} RunBalances<E(!new)>(limits: Limits, calls: seq<Call<E>>, e: E)
    requires WellFormedCalls(calls)
    ensures var run := RunOf(limits, calls);
            && Count(run.log, Added, e) == Removals(run.log, e) + (if Has(run.state.live, e) then 1 else 0)
            && multiset(CallbacksOf(limits, calls, true))[e] ==
                 Count(run.log, Expired, e) + Count(run.log, Evicted, e) + Count(run.log, Triggered, e)
            && CallbacksOf(limits, calls, false) == []
  {
    RunIsExplained(limits, calls);
    hide RunOf, Legal, Live, CallbacksOf;
    var run := RunOf(limits, calls);
    Conservation(limits, run.log, e);
    LiveIsRecency(run.log);
    ReportedOnce(run.log, e);
    CallbacksAreReported(limits, calls, true);
    CallbacksAreReported(limits, calls, false);
  }

  /** An add that makes room removes exactly the element whose latest add or update is the oldest. */
  lemma {:induction false} RunEvictsLeastRecent<E(!new)>(limits: Limits, calls: seq<Call<E>>, e: E, now: int, victim: E)
    requires WellFormedCalls(calls)
    requires Event(Evicted, victim, now) in AddStep(RunOf(limits, calls).state, e, now).events
    ensures var run := RunOf(limits, calls);
            && InByLog(run.log, victim)
            && (forall f :: InByLog(run.log, f) && f != victim ==> Last(run.log, victim) < Last(run.log, f))
            && (forall f :: Has(AddStep(run.state, e, now).next.live, f) <==>
                  f == e || (f != victim && InByLog(run.log, f)))
  {
    hide RunOf, Explains, AddStep, Recency, Has, InByLog;
    var run := RunOf(limits, calls);
    RunIsExplained(limits, calls);
    ExplainedIsRecency(run.log, run.state);
    EvictingAdd(run.state, e, now, victim);
    EvictedIsLast(run.log, run.state.live, e, now, victim);
    var after := [Entry(e, now)] + run.state.live[..|run.state.live| - 1];
    assert AddStep(run.state, e, now).next.live == after;
    assert forall f :: Has(after, f) <==> f == e || (f != victim && InByLog(run.log, f));
  }

  lemma {:induction false} ExplainedIsRecency<E(!new)>(log: seq<Event<E>>, s: State<E>)
    requires Explains(log, s)
    ensures Recency(s.live, log) && DistinctElements(s.live)
  {
    LiveIsRecency(log);
  }

  lemma {:induction false} EvictingAdd<E>(s: State<E>, e: E, now: int, victim: E)
    requires Event(Evicted, victim, now) in AddStep(s, e, now).events
    ensures var n := |s.live| - 1;
            s.live != [] && victim == s.live[n].element && AddStep(s, e, now).next.live == [Entry(e, now)] + s.live[..n]
  {
  }

  lemma {:induction false} EvictedIsLast<E(!new)>(log: seq<Event<E>>, live: seq<Entry<E>>, e: E, now: int, victim: E)
    requires Recency(live, log) && DistinctElements(live) && live != [] && victim == live[|live| - 1].element
    ensures InByLog(log, victim)
    ensures forall f :: InByLog(log, f) && f != victim ==> Last(log, victim) < Last(log, f)
    ensures forall f :: Has([Entry(e, now)] + live[..|live| - 1], f) <==> f == e || (f != victim && InByLog(log, f))
  {
    LastIsOldest(live, log);
    var n := |live| - 1;
    var after := [Entry(e, now)] + live[..n];
    hide Last, Dated, Ordered;
    assert after[0].element == e;
    forall f | InByLog(log, f) && f != victim
      ensures Has(after, f)
    {
      var i := IndexOf(live, f);
      assert Has(live, f) && after[i + 1] == live[i];
    }
    forall f | Has(after, f) && f != e
      ensures f != victim && InByLog(log, f)
    {
      var i := IndexOf(after, f);
      assert after[i] == live[i - 1] && Has(live, f);
    }
  }
}
