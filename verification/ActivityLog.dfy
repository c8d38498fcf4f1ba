/**
 What a history of tracker events says about the tracker, with no reference to
 lists, maps or counters: who is live, since when, and in which order.
 */
module ActivityLog {
  import opened Sequences

  /** One live element and the second at which it was last added or updated. */
  datatype Entry<E> = Entry(element: E, time: int)

  datatype Kind = Added | Touched | Deleted | Expired | Evicted | Cleared | Collected | Triggered {
    predicate IsTouch() {
      Added? || Touched?
    }

    predicate IsBulk() {
      Cleared? || Collected? || Triggered?
    }

    /** Removals that are reported to the callback. */
    predicate IsReported() {
      Expired? || Evicted? || Triggered?
    }
  }

  datatype Event<E> = Event(kind: Kind, element: E, at: int)

  datatype Limits = Limits(timeoutOn: bool, timeout: nat, limitOn: bool, limit: nat)

  // ---------------------------------------------------------------- replay

  function IndexOf<E(==)>(live: seq<Entry<E>>, e: E): (k: nat)
    ensures k <= |live|
    ensures k < |live| ==> live[k].element == e
    ensures forall i :: 0 <= i < k ==> live[i].element != e
  {
    if live == [] || live[0].element == e then 0 else 1 + IndexOf(live[1..], e)
  }

  predicate Has<E(==)>(live: seq<Entry<E>>, e: E) {
    exists i :: 0 <= i < |live| && live[i].element == e
  }

  function Without<E(==)>(live: seq<Entry<E>>, e: E): (r: seq<Entry<E>>) {
    var k := IndexOf(live, e);
    if k < |live| then Drop(live, k) else live
  }

  function Apply<E(==)>(live: seq<Entry<E>>, ev: Event<E>): seq<Entry<E>> {
    if ev.kind.IsTouch() then [Entry(ev.element, ev.at)] + Without(live, ev.element)
    else Without(live, ev.element)
  }

  /** The live elements after a history, most recently touched first. */
  function Live<E(==)>(log: seq<Event<E>>): seq<Entry<E>> {
    if log == [] then [] else Apply(Live(log[..|log| - 1]), log[|log| - 1])
  }

  /** The position of the latest event about e, or -1. */
  function Last<E(==)>(log: seq<Event<E>>, e: E): (r: int)
    ensures -1 <= r < |log|
    ensures r >= 0 ==> log[r].element == e
    ensures forall i :: r < i < |log| ==> log[i].element != e
  {
    if log == [] then -1
    else if log[|log| - 1].element == e then |log| - 1
    else Last(log[..|log| - 1], e)
  }

  lemma {:induction false} LiveSnoc<E>(log: seq<Event<E>>, ev: Event<E>)
    ensures Live(log + [ev]) == Apply(Live(log), ev)
  {
    assert (log + [ev])[..|log|] == log;
  }

  lemma {:induction false} LastSnoc<E>(log: seq<Event<E>>, ev: Event<E>, e: E)
    ensures Last(log + [ev], e) == if ev.element == e then |log| else Last(log, e)
  {
    assert (log + [ev])[..|log|] == log;
  }

  ghost predicate DistinctElements<E(!new)>(live: seq<Entry<E>>) {
    forall i, j :: 0 <= i < j < |live| ==> live[i].element != live[j].element
  }

  /** Every live entry was last touched at the second it carries. */
  ghost predicate Dated<E>(live: seq<Entry<E>>, log: seq<Event<E>>) {
    forall i :: 0 <= i < |live| ==>
      var t := Last(log, live[i].element);
      t >= 0 && log[t].kind.IsTouch() && log[t].at == live[i].time
  }

  /** The more recently an element was touched, the nearer it is to the front. */
  ghost predicate Ordered<E>(live: seq<Entry<E>>, log: seq<Event<E>>) {
    forall i, j :: 0 <= i < j < |live| ==> Last(log, live[i].element) > Last(log, live[j].element)
  }

  predicate InByLog<E(==)>(log: seq<Event<E>>, e: E) {
    var t := Last(log, e);
    t >= 0 && log[t].kind.IsTouch()
  }

  /** Exactly the elements whose latest event is an add or an update are live. */
  ghost predicate Complete<E(!new)>(live: seq<Entry<E>>, log: seq<Event<E>>) {
    forall e :: Has(live, e) <==> InByLog(log, e)
  }

  ghost predicate Recency<E(!new)>(live: seq<Entry<E>>, log: seq<Event<E>>) {
    Dated(live, log) && Ordered(live, log) && Complete(live, log)
  }

  lemma {:induction false} OrderedIsDistinct<E(!new)>(live: seq<Entry<E>>, log: seq<Event<E>>)
    requires Ordered(live, log)
    ensures DistinctElements(live)
  {
  }

  lemma {:induction false} WithoutSpec<E(!new)>(live: seq<Entry<E>>, e: E)
    requires DistinctElements(live)
    ensures DistinctElements(Without(live, e))
    ensures forall f :: Has(Without(live, e), f) <==> f != e && Has(live, f)
  {
    var k, r := IndexOf(live, e), Without(live, e);
    forall f | f != e && Has(live, f)
      ensures Has(r, f)
    {
      var i := IndexOf(live, f);
      assert r[if i < k then i else i - 1].element == f;
    }
  }

  lemma {:induction false} WithoutKeepsOrder<E(!new)>(live: seq<Entry<E>>, log: seq<Event<E>>, e: E)
    requires Dated(live, log) && Ordered(live, log)
    ensures Dated(Without(live, e), log) && Ordered(Without(live, e), log)
  {
  }

  lemma {:induction false} EventElsewhereKeepsOrder<E(!new)>(rest: seq<Entry<E>>, log: seq<Event<E>>, ev: Event<E>)
    requires Dated(rest, log) && Ordered(rest, log)
    requires !Has(rest, ev.element)
    ensures Dated(rest, log + [ev]) && Ordered(rest, log + [ev])
  {
    forall i | 0 <= i < |rest|
      ensures Last(log + [ev], rest[i].element) == Last(log, rest[i].element)
    {
      assert rest[i].element != ev.element;
      LastSnoc(log, ev, rest[i].element);
    }
  }

  lemma {:induction false} TouchLeads<E(!new)>(rest: seq<Entry<E>>, log: seq<Event<E>>, ev: Event<E>)
    requires Dated(rest, log + [ev]) && Ordered(rest, log + [ev])
    requires !Has(rest, ev.element) && ev.kind.IsTouch()
    ensures var after := [Entry(ev.element, ev.at)] + rest;
            Dated(after, log + [ev]) && Ordered(after, log + [ev])
  {
    hide Last;
    var after, longer := [Entry(ev.element, ev.at)] + rest, log + [ev];
    LastSnoc(log, ev, ev.element);
    forall i | 1 <= i < |after|
      ensures after[i] == rest[i - 1] && Last(longer, after[i].element) < |log|
    {
      assert rest[i - 1].element != ev.element;
      LastSnoc(log, ev, rest[i - 1].element);
    }
  }

  lemma {:induction false} InByLogSnoc<E>(log: seq<Event<E>>, ev: Event<E>, e: E)
    ensures InByLog(log + [ev], e) <==> if ev.element == e then ev.kind.IsTouch() else InByLog(log, e)
  {
    LastSnoc(log, ev, e);
  }

  lemma {:induction false} ApplyKeepsComplete<E(!new)>(live: seq<Entry<E>>, log: seq<Event<E>>, ev: Event<E>)
    requires DistinctElements(live) && Complete(live, log)
    ensures Complete(Apply(live, ev), log + [ev])
  {
    var rest, after := Without(live, ev.element), Apply(live, ev);
    WithoutSpec(live, ev.element);
    forall e
      ensures Has(after, e) <==> InByLog(log + [ev], e)
    {
      InByLogSnoc(log, ev, e);
      if e != ev.element && Has(rest, e) {
        var i := IndexOf(rest, e);
        assert after[if ev.kind.IsTouch() then i + 1 else i].element == e;
      }
      if e == ev.element && ev.kind.IsTouch() {
        assert after[0].element == e;
      }
    }
  }

  lemma {:induction false} ApplyKeepsRecency<E(!new)>(live: seq<Entry<E>>, log: seq<Event<E>>, ev: Event<E>)
    requires Recency(live, log)
    ensures Recency(Apply(live, ev), log + [ev])
  {
    var rest := Without(live, ev.element);
    OrderedIsDistinct(live, log);
    WithoutSpec(live, ev.element);
    WithoutKeepsOrder(live, log, ev.element);
    EventElsewhereKeepsOrder(rest, log, ev);
    if ev.kind.IsTouch() {
      TouchLeads(rest, log, ev);
    }
    ApplyKeepsComplete(live, log, ev);
  }

  /** Replaying a history yields exactly the elements it leaves live, in recency order. */
  lemma {:induction false} LiveIsRecency<E(!new)>(log: seq<Event<E>>)
    ensures Recency(Live(log), log) && DistinctElements(Live(log))
  {
    if log == [] {
    } else {
      var prior, ev := log[..|log| - 1], log[|log| - 1];
      assert log == prior + [ev];
      LiveIsRecency(prior);
      ApplyKeepsRecency(Live(prior), prior, ev);
    }
    OrderedIsDistinct(Live(log), log);
  }

  // ------------------------------------------------------- legal histories

  /** How many elements a history removed in bulk. */
  function Bulk<E>(log: seq<Event<E>>): nat {
    if log == [] then 0
    else Bulk(log[..|log| - 1]) + if log[|log| - 1].kind.IsBulk() then 1 else 0
  }

  /** ev may happen next when live are the live elements and bulk were removed in bulk. */
  ghost predicate LegalNext<E>(limits: Limits, live: seq<Entry<E>>, bulk: nat, ev: Event<E>) {
    match ev.kind
    case Added => !Has(live, ev.element) && (limits.limitOn ==> |live| + bulk < limits.limit)
    case Touched => Has(live, ev.element)
    case Deleted => Has(live, ev.element)
    case Expired =>
      && limits.timeoutOn && live != [] && live[|live| - 1].element == ev.element
      && live[|live| - 1].time + limits.timeout <= ev.at
    case Evicted =>
      && limits.limitOn && live != [] && live[|live| - 1].element == ev.element
      && limits.limit <= |live| + bulk
    case _ => live != [] && live[0].element == ev.element
  }

  ghost predicate Legal<E>(limits: Limits, log: seq<Event<E>>) {
    log == [] ||
    var prior := log[..|log| - 1];
    Legal(limits, prior) && LegalNext(limits, Live(prior), Bulk(prior), log[|log| - 1])
  }

  lemma {:induction false} LegalSnoc<E>(limits: Limits, log: seq<Event<E>>, ev: Event<E>)
    ensures Legal(limits, log + [ev]) <==>
              Legal(limits, log) && LegalNext(limits, Live(log), Bulk(log), ev)
    ensures Bulk(log + [ev]) == Bulk(log) + if ev.kind.IsBulk() then 1 else 0
  {
    assert (log + [ev])[..|log|] == log;
  }

  /** Each event of a legal history was legal when it happened. */
  lemma {:induction false} LegalAt<E>(limits: Limits, log: seq<Event<E>>, i: nat)
    requires Legal(limits, log) && i <= |log|
    ensures Legal(limits, log[..i])
    ensures i < |log| ==> LegalNext(limits, Live(log[..i]), Bulk(log[..i]), log[i])
    decreases |log|
  {
    if i < |log| - 1 {
      var prior := log[..|log| - 1];
      LegalAt(limits, prior, i);
      assert prior[..i] == log[..i];
    } else if i == |log| {
      assert log[..i] == log;
    }
  }

  ghost predicate ClockOrdered<E>(log: seq<Event<E>>) {
    forall i, j :: 0 <= i <= j < |log| ==> log[i].at <= log[j].at
  }

  ghost predicate SortedByTime<E>(live: seq<Entry<E>>) {
    forall i, j :: 0 <= i <= j < |live| ==> live[j].time <= live[i].time
  }

  /** A clock that never goes back leaves the live elements sorted, newest first. */
  lemma {:induction false} LiveIsSorted<E(!new)>(log: seq<Event<E>>)
    requires ClockOrdered(log)
    ensures SortedByTime(Live(log))
  {
    var live := Live(log);
    LiveIsRecency(log);
    forall i, j | 0 <= i <= j < |live|
      ensures live[j].time <= live[i].time
    {
      var newer, older := Last(log, live[i].element), Last(log, live[j].element);
      assert log[newer].at == live[i].time && log[older].at == live[j].time;
      assert older <= newer;
    }
  }

  // ------------------------------------------------- what legality implies

  lemma {:induction false} ApplySize<E>(live: seq<Entry<E>>, ev: Event<E>)
    ensures |Apply(live, ev)| ==
              |live| + (if ev.kind.IsTouch() then 1 else 0) - if Has(live, ev.element) then 1 else 0
  {
    assert IndexOf(live, ev.element) < |live| <==> Has(live, ev.element);
  }

  /** Never more than the limit, less one place for every element ever removed in bulk. */
  lemma {:induction false} LegalIsBounded<E(!new)>(limits: Limits, log: seq<Event<E>>)
    requires Legal(limits, log) && limits.limitOn
    ensures |Live(log)| + Bulk(log) <= limits.limit
  {
    if log == [] {
    } else {
      var prior, ev := log[..|log| - 1], log[|log| - 1];
      LegalIsBounded(limits, prior);
      ApplySize(Live(prior), ev);
    }
  }

  /** An expired element had stayed untouched for the whole timeout. */
  lemma {:induction false} ExpiryIsNeverEarly<E(!new)>(limits: Limits, log: seq<Event<E>>, ev: Event<E>)
    requires LegalNext(limits, Live(log), Bulk(log), ev) && ev.kind == Expired
    ensures var t := Last(log, ev.element);
            t >= 0 && log[t].kind.IsTouch() && log[t].at + limits.timeout <= ev.at
  {
    LiveIsRecency(log);
  }

  /** Eviction takes the live element whose latest add or update is the oldest, and only when full. */
  lemma {:induction false} EvictionTakesTheOldest<E(!new)>(limits: Limits, log: seq<Event<E>>, ev: Event<E>)
    requires Legal(limits, log) && LegalNext(limits, Live(log), Bulk(log), ev) && ev.kind == Evicted
    ensures InByLog(log, ev.element)
    ensures forall e :: InByLog(log, e) && e != ev.element ==> Last(log, ev.element) < Last(log, e)
    ensures |Live(log)| + Bulk(log) == limits.limit
  {
    hide Legal, Live, Bulk, Recency;
    LiveIsRecency(log);
    LegalIsBounded(limits, log);
    LastIsOldest(Live(log), log);
  }

  function Count<E(==)>(log: seq<Event<E>>, kind: Kind, e: E): nat {
    if log == [] then 0
    else
      var ev := log[|log| - 1];
      Count(log[..|log| - 1], kind, e) + if ev.kind == kind && ev.element == e then 1 else 0
  }

  function Removals<E(==)>(log: seq<Event<E>>, e: E): nat {
    Count(log, Deleted, e) + Count(log, Expired, e) + Count(log, Evicted, e) +
    Count(log, Cleared, e) + Count(log, Collected, e) + Count(log, Triggered, e)
  }

  lemma {:induction false} RemovalsSnoc<E>(log: seq<Event<E>>, ev: Event<E>, e: E)
    ensures Removals(log + [ev], e) == Removals(log, e) + if ev.element == e && !ev.kind.IsTouch() then 1 else 0
    ensures Count(log + [ev], Added, e) == Count(log, Added, e) + if ev == Event(Added, e, ev.at) then 1 else 0
  {
    assert (log + [ev])[..|log|] == log;
  }

  /** The back of the list is the live element touched longest ago. */
  lemma {:induction false} LastIsOldest<E(!new)>(live: seq<Entry<E>>, log: seq<Event<E>>)
    requires Recency(live, log) && live != []
    ensures var victim := live[|live| - 1].element;
            && InByLog(log, victim)
            && forall e :: InByLog(log, e) && e != victim ==> Last(log, victim) < Last(log, e)
  {
    var n := |live| - 1;
    assert live[n].element == live[n].element;
    forall e | InByLog(log, e) && e != live[n].element
      ensures Last(log, live[n].element) < Last(log, e)
    {
      var i := IndexOf(live, e);
      assert Has(live, e) && live[i].element == e;
    }
  }

  /** What legality says about the element concerned, in terms of the history alone. */
  lemma {:induction false} LegalByLog<E(!new)>(limits: Limits, log: seq<Event<E>>, ev: Event<E>)
    requires LegalNext(limits, Live(log), Bulk(log), ev)
    ensures ev.kind == Added <==> !InByLog(log, ev.element)
  {
    LiveIsRecency(log);
    var live := Live(log);
    assert ev.kind != Added ==> Has(live, ev.element);
  }

  /** Every successful add of an element is matched by one removal, or the element is live. */
  lemma {:induction false} Conservation<E(!new)>(limits: Limits, log: seq<Event<E>>, e: E)
    requires Legal(limits, log)
    ensures Count(log, Added, e) == Removals(log, e) + if InByLog(log, e) then 1 else 0
  {
    if log == [] {
    } else {
      var prior, ev := log[..|log| - 1], log[|log| - 1];
      Conservation(limits, prior, e);
      assert log == prior + [ev];
      LegalByLog(limits, prior, ev);
      RemovalsSnoc(prior, ev, e);
      InByLogSnoc(prior, ev, e);
    }
  }

  lemma {:induction false} CountGrows<E>(log: seq<Event<E>>, i: nat, kind: Kind, e: E)
    requires i <= |log|
    ensures Count(log[..i], kind, e) <= Count(log, kind, e)
    ensures i < |log| && log[i].kind == kind && log[i].element == e ==>
              Count(log[..i], kind, e) < Count(log, kind, e)
    decreases |log|
  {
    if i < |log| {
      var prior := log[..|log| - 1];
      if i < |prior| {
        CountGrows(prior, i, kind, e);
        assert prior[..i] == log[..i];
      }
    } else {
      assert log[..i] == log;
    }
  }

  /** After its removal an element is silent until it is added again. */
  lemma {:induction false} NoReturnWithoutAdd<E(!new)>(limits: Limits, log: seq<Event<E>>, e: E, i: nat, j: nat)
    requires Legal(limits, log)
    requires i < j < |log| && log[i].element == e && !log[i].kind.IsTouch()
    requires forall k :: i < k <= j && log[k].element == e ==> log[k].kind != Added
    ensures log[j].element != e
    decreases j
  {
    hide Legal, Live;
    if log[j].element == e {
      var t := Last(log[..j], e);
      assert i <= t && log[..j][t] == log[t];
      if t > i {
        NoReturnWithoutAdd(limits, log, e, i, t);
      } else {
        LegalAt(limits, log, j);
        LegalByLog(limits, log[..j], log[j]);
      }
    }
  }

  lemma {:induction false} RemovalsCounted<E>(log: seq<Event<E>>, i: nat)
    requires i < |log| && !log[i].kind.IsTouch()
    ensures Removals(log, log[i].element) > 0
    decreases |log|
  {
    var prior := log[..|log| - 1];
    assert log == prior + [log[|log| - 1]];
    RemovalsSnoc(prior, log[|log| - 1], log[i].element);
    if i < |prior| {
      RemovalsCounted(prior, i);
    }
  }

  /** An element that was added at most once is silent for good once removed. */
  lemma {:induction false} RemovedOnceForAll<E(!new)>(limits: Limits, log: seq<Event<E>>, e: E, i: nat, j: nat)
    requires Legal(limits, log) && Count(log, Added, e) <= 1
    requires i < j < |log| && log[i].element == e && !log[i].kind.IsTouch()
    ensures log[j].element != e
  {
    forall k | i < k <= j && log[k].element == e
      ensures log[k].kind != Added
    {
      LegalAt(limits, log, k);
      Conservation(limits, log[..k], e);
      RemovalsCounted(log[..k], i);
      CountGrows(log, k, Added, e);
    }
    NoReturnWithoutAdd(limits, log, e, i, j);
  }
}
