/**
 The element manager itself: a hash map from element to list node, the
 intrusive list, and a counter, updated in place.  Each method performs the
 step of module Tracker named in its contract.
 */
module ElementMgr {
  import opened Sequences
  import opened HeartBeatList
  import opened ActivityLog
  import opened Tracker

  class ElementMgr<E(==, !new)> {
    var elements: map<E, Node<Entry<E>>>
    const busyList: HeartBeatList<Entry<E>>
    var elementCount: nat
    var callbackSet: bool
    var timeoutFlag: bool
    var timeout: nat
    var maxLimitFlag: bool
    var maxLimit: nat

    /** The entries held by the list, front to back. */
    ghost var Entries: seq<Entry<E>>

    /** Map and list are in bijection, so removal through the map finds the right node. */
    ghost predicate Valid()
      reads this, busyList, busyList.Nodes
    {
      && busyList.Valid()
      && |Entries| <= elementCount
      && DataIs(busyList.Nodes)
      && Indexes(elements, busyList.Nodes, Entries)
    }

    ghost function View(): State<E>
      reads this
    {
      State(Entries, elementCount, Limits(timeoutFlag, timeout, maxLimitFlag, maxLimit))
    }

    twostate predicate Performed(op: Op<E>, now: int, status: Status, fired: seq<E>)
      reads this, busyList, busyList.Nodes
    {
      var out := Step(old(View()), op, now);
      && Valid() && View() == out.next && status == out.status
      && callbackSet == old(callbackSet) && fired == Fired(callbackSet, out.events)
    }

    /** Every node in the list was in it before. */
    twostate predicate NoNewNodes()
      reads this, busyList
    {
      forall i :: 0 <= i < |busyList.Nodes| ==> busyList.Nodes[i] in old(busyList.Nodes)
    }

    constructor ()
      ensures Valid() && View() == Initial(Limits(false, 0, false, 0)) && !callbackSet
      ensures fresh(busyList) && busyList.Nodes == []
    {
      elements, elementCount, Entries, callbackSet := map[], 0, [], false;
      timeoutFlag, timeout, maxLimitFlag, maxLimit := false, 0, false, 0;
      busyList := new HeartBeatList();
    }

    method SetCallbackFunction(present: bool)
      requires Valid()
      modifies this`callbackSet
      ensures Valid() && View() == old(View()) && callbackSet == present
    {
      callbackSet := present;
    }

    method SetTimeout(flag: bool, seconds: nat)
      requires Valid()
      modifies this`timeoutFlag, this`timeout
      ensures Valid()
      ensures View() == old(View()).(limits := old(View()).limits.(timeoutOn := flag, timeout := seconds))
    {
      timeoutFlag, timeout := flag, seconds;
    }

    method SetMaxLimit(flag: bool, limit: nat)
      requires Valid()
      modifies this`maxLimitFlag, this`maxLimit
      ensures Valid()
      ensures View() == old(View()).(limits := old(View()).limits.(limitOn := flag, limit := limit))
    {
      maxLimitFlag, maxLimit := flag, limit;
    }

    method Back() returns (node: Node?<Entry<E>>)
      requires Valid()
      ensures IsBackOf(node, Entries)
    {
      node := busyList.Back();
    }

    /** Pop the back node, forget its element and count it out. */
    method DropBack() returns (node: Node?<Entry<E>>)
      requires Valid()
      modifies this`elements, this`elementCount, this`Entries, busyList, busyList.Nodes`front, busyList.Nodes`next
      ensures Valid() && NoNewNodes() && IsBackOf(node, old(Entries)) && BackDropped()
    {
      hide Linked, Indexes, Distinct;
      ghost var n := |Entries| - 1;
      NodesAreDistinct(busyList);
      node := busyList.PopBack();
      if node != null {
        DropIndexed(elements, old(busyList.Nodes), Entries, n);
        elements := elements - {node.data.element};
        elementCount := elementCount - 1;
        Entries := Entries[..n];
      }
    }

    twostate predicate BackDropped()
      reads this
    {
      View() == if old(Entries) == [] then old(View()) else KeepFirst(old(View()), |old(Entries)| - 1)
    }

    /** All but the first k entries of s0 have been found stale, removed and called back. */
    ghost predicate ExpiredDownTo(s0: State<E>, k: nat, now: int, fired: seq<E>)
      reads this
    {
      && k <= |s0.live| && View() == KeepFirst(s0, k) && StaleFrom(s0, k, now)
      && fired == Fired(callbackSet, FromBack(Expired, s0.live, k, now))
    }

    lemma {:induction false} NothingExpired(now: int)
      ensures ExpiredDownTo(View(), |Entries|, now, [])
    {
    }

    lemma {:induction false} ExpiringOneMore(s0: State<E>, k: nat, now: int, fired: seq<E>)
      requires 0 < k && ExpiredDownTo(s0, k, now, fired)
      requires now >= Entries[k - 1].time + timeout
      ensures StaleFrom(s0, k - 1, now)
      ensures KeepFirst(View(), k - 1) == KeepFirst(s0, k - 1)
      ensures Fired(callbackSet, FromBack(Expired, s0.live, k - 1, now)) ==
                if callbackSet then fired + [Entries[k - 1].element] else []
    {
      KeepFirstTwice(s0, k, k - 1);
      FromBackSnoc(Expired, s0.live, k - 1, now);
    }

    /** The loop of the timeout handler, run when the timeout is enabled. */
    method ExpireStale(now: int) returns (status: Status, fired: seq<E>, ghost k: nat)
      requires Valid()
      modifies this`elements, this`elementCount, this`Entries, busyList, busyList.Nodes`front, busyList.Nodes`next
      ensures Valid() && NoNewNodes() && ExpiredDownTo(old(View()), k, now, fired) && status == Done
      ensures k > 0 ==> now < Entries[k - 1].time + timeout
    {
      hide Valid, HeartBeatList.Valid, FromBack, Reported, StaleFrom, KeepFirst;
      ghost var s0 := View();
      k := |Entries|;
      fired := [];
      NothingExpired(now);
      var node := Back();
      while node != null
        invariant Valid() && NoNewNodes() && IsBackOf(node, Entries) && k == |Entries|
        invariant ExpiredDownTo(s0, k, now, fired)
        decreases k
      {
        if now >= node.data.time + timeout {
          ExpiringOneMore(s0, k, now, fired);
          if callbackSet {
            fired := fired + [node.data.element];
          }
          k := k - 1;
          var popped := DropBack();
          if popped == null {
            return Refused, fired, k;
          }
          node := Back();
        } else {
          break;
        }
      }
      status := Done;
    }

    method HandleTimeout(now: int) returns (status: Status, fired: seq<E>)
      requires Valid()
      modifies this`elements, this`elementCount, this`Entries, busyList, busyList.Nodes`front, busyList.Nodes`next
      ensures Performed(Tick, now, status, fired)
      ensures NoNewNodes()
    {
      if timeoutFlag {
        ghost var k;
        status, fired, k := ExpireStale(now);
        TickStopsAt(old(View()), k, now);
      } else {
        status, fired := Done, [];
      }
    }

    /** Nodes come from the pool; none is taken from elsewhere. */
    twostate predicate NodesAreOurs()
      reads this, busyList
    {
      forall i :: 0 <= i < |busyList.Nodes| ==>
        busyList.Nodes[i] in old(busyList.Nodes) || fresh(busyList.Nodes[i])
    }

    /** Put a detached node at the front of the list and into the map. */
    method PushNode(node: Node<Entry<E>>)
      requires Valid() && node !in busyList.Nodes && node.data.element !in elements
      modifies this`elements, this`elementCount, this`Entries, busyList
      modifies busyList.Nodes`front, busyList.Nodes`next, node`front, node`next
      ensures Valid() && busyList.Nodes == [node] + old(busyList.Nodes)
      ensures View() == old(View()).(live := [node.data] + old(Entries), count := old(elementCount) + 1)
    {
      hide Linked, Indexes, Distinct;
      PushIndexed(elements, busyList.Nodes, Entries, node, node.data);
      elements := elements[node.data.element := node];
      var _ := busyList.PushFront(node);
      elementCount := elementCount + 1;
      Entries := [node.data] + Entries;
    }

    method AddElement(e: E, now: int) returns (status: Status, fired: seq<E>)
      requires Valid()
      modifies this`elements, this`elementCount, this`Entries, busyList, busyList.Nodes`front, busyList.Nodes`next
      ensures Performed(Add(e), now, status, fired) && NodesAreOurs()
    {
      hide Valid, Reported;
      MapIsLive(e);
      AddReports(View(), e, now);
      fired := [];
      if e in elements {
        return Refused, [];
      }
      if maxLimitFlag {
        if elementCount + 1 > maxLimit {
          var node := DropBack();
          if node == null {
            return NullDereference, [];
          }
          if callbackSet {
            fired := [node.data.element];
          }
        }
      }
      MapIsLive(e);
      var node := new Node(Entry(e, now));
      PushNode(node);
      status := Done;
    }

    /** Take the node of e out of the list, leaving map and counter to the caller. */
    method Unlink(e: E) returns (node: Node<Entry<E>>, r: int)
      requires Valid() && e in elements
      modifies this`Entries, busyList, busyList.Nodes`front, busyList.Nodes`next
      ensures r == 0 && node == elements[e] && node in old(busyList.Nodes) && node !in busyList.Nodes
      ensures busyList.Valid() && node.data.element == e && NoNewNodes()
      ensures Entries == Without(old(Entries), e) && |Entries| == |old(Entries)| - 1 < elementCount
      ensures Indexes(elements - {e}, busyList.Nodes, Entries) && DataIs(busyList.Nodes)
    {
      hide Linked, Indexes, Distinct;
      MapIsLive(e);
      ghost var nodes, k := busyList.Nodes, IndexOf(Entries, e);
      FoundAt(elements, nodes, Entries, e);
      NodesAreDistinct(busyList);
      node := elements[e];
      NeighboursAreMembers(busyList, node);
      DropIndexed(elements, nodes, Entries, k);
      r := busyList.Erase(node);
      DropIsUnique(nodes, busyList.Nodes, k);
      Entries := Drop(Entries, k);
    }

    method UpdateElement(e: E, now: int) returns (status: Status)
      requires Valid()
      modifies this`elements, this`elementCount, this`Entries, busyList, busyList.Nodes
      ensures Performed(Update(e), now, status, []) && NoNewNodes()
    {
      hide Valid, HeartBeatList.Valid, Indexes, Distinct, Reported, Has, Without, DataIs;
      MapIsLive(e);
      SingleReports(Event(Touched, e, now));
      if e !in elements {
        return Refused;
      }
      var node, r := Unlink(e);
      if r != 0 {
        return Refused;
      }
      node.data := node.data.(time := now);
      Relink(node);
      status := Done;
    }

    /** Put a node back at the front of the list when the map still points to it. */
    method Relink(node: Node<Entry<E>>)
      requires node.data.element in elements && elements[node.data.element] == node && node !in busyList.Nodes
      requires busyList.Valid() && DataIs(busyList.Nodes) && |Entries| < elementCount
      requires Indexes(elements - {node.data.element}, busyList.Nodes, Entries)
      modifies this`Entries, busyList, busyList.Nodes`front, busyList.Nodes`next, node`front, node`next
      ensures Valid() && busyList.Nodes == [node] + old(busyList.Nodes)
      ensures Entries == [node.data] + old(Entries)
    {
      hide Linked, Indexes, Distinct;
      var e := node.data.element;
      PushIndexed(elements - {e}, busyList.Nodes, Entries, node, node.data);
      assert (elements - {e})[e := node] == elements;
      var _ := busyList.PushFront(node);
      Entries := [node.data] + Entries;
    }

    method DelElement(e: E, now: int) returns (status: Status)
      requires Valid()
      modifies this`elements, this`elementCount, this`Entries, busyList, busyList.Nodes`front, busyList.Nodes`next
      ensures Performed(Del(e), now, status, []) && NoNewNodes()
    {
      hide HeartBeatList.Valid, Indexes, Distinct, Reported, Has, Without, DataIs;
      MapIsLive(e);
      SingleReports(Event(Deleted, e, now));
      if e !in elements {
        return Refused;
      }
      var node, r := Unlink(e);
      if r != 0 {
        return Refused;
      }
      elements := elements - {e};
      elementCount := elementCount - 1;
      status := Done;
    }

    /** The loop shared by the three bulk removals: pop from the front until nothing is left. */
    method PopAll() returns (popped: seq<E>)
      requires Valid()
      modifies busyList, busyList.Nodes`front, busyList.Nodes`next
      ensures busyList.Valid() && busyList.Nodes == [] && popped == ElementsOf(Entries)
    {
      hide HeartBeatList.Valid, Indexes;
      popped := [];
      ghost var nodes := busyList.Nodes;
      var node := PopNext(nodes, 0);
      while node != null
        invariant Draining(nodes, node, |popped|) && IsPrefixOf(popped, Entries)
        decreases |nodes| - |popped|
      {
        popped := popped + [node.data.element];
        node := PopNext(nodes, |popped|);
      }
    }

    /** Empties list and map; the counter keeps its value. */
    method Forget()
      requires busyList.Valid() && busyList.Nodes == []
      modifies this`elements, this`Entries
      ensures Valid() && View() == old(View()).(live := [])
    {
      hide HeartBeatList.Valid;
      elements := map[];
      Entries := [];
    }

    method ClearElement(ghost now: int)
      requires Valid()
      modifies this`elements, this`Entries, busyList, busyList.Nodes`front, busyList.Nodes`next
      ensures Performed(RemoveAll(Cleared), now, Done, []) && busyList.Nodes == []
    {
      hide Valid, Reported, FromFront;
      FrontReports(Cleared, Entries, now);
      var _ := PopAll();
      Forget();
    }

    method GetAllElementAndClear(ghost now: int) returns (collected: seq<E>)
      requires Valid()
      modifies this`elements, this`Entries, busyList, busyList.Nodes`front, busyList.Nodes`next
      ensures Performed(RemoveAll(Collected), now, Done, []) && busyList.Nodes == []
      ensures collected == ElementsOf(old(Entries))
    {
      hide Valid, Reported, FromFront;
      FrontReports(Collected, Entries, now);
      collected := PopAll();
      Forget();
    }

    method TriggerAllTimeout(ghost now: int) returns (fired: seq<E>)
      requires Valid()
      modifies this`elements, this`Entries, busyList, busyList.Nodes`front, busyList.Nodes`next
      ensures Performed(RemoveAll(Triggered), now, Done, fired) && busyList.Nodes == []
    {
      hide Valid, Reported, FromFront;
      FrontReports(Triggered, Entries, now);
      fired := PopAll();
      if !callbackSet {
        fired := [];
      }
      Forget();
    }

    /** Pop the front of what is left of nodes after its first k members. */
    method PopNext(ghost nodes: seq<Node<Entry<E>>>, ghost k: nat) returns (node: Node?<Entry<E>>)
      requires busyList.Valid() && k <= |nodes| && busyList.Nodes == nodes[k..] && DataIs(nodes)
      modifies busyList, busyList.Nodes`front, busyList.Nodes`next
      ensures Draining(nodes, node, k)
    {
      hide HeartBeatList.Valid;
      node := busyList.PopFront();
    }

    ghost predicate DataIs(nodes: seq<Node<Entry<E>>>)
      reads this`Entries, nodes`data
    {
      |nodes| == |Entries| && forall i :: 0 <= i < |nodes| ==> nodes[i].data == Entries[i]
    }

    /** node, the k-th of nodes, has just been popped and the later ones are left. */
    ghost predicate Draining(nodes: seq<Node<Entry<E>>>, node: Node?<Entry<E>>, k: nat)
      reads this, busyList, busyList.Nodes, nodes
    {
      && busyList.Valid() && k <= |nodes| && DataIs(nodes) && node == At(nodes, k)
      && busyList.Nodes == if k == |nodes| then [] else nodes[k + 1..]
    }

    lemma {:induction false} MapIsLive(e: E)
      requires Valid()
      ensures e in elements <==> Has(Entries, e)
    {
    }
  }

  ghost predicate IsBackOf<E>(node: Node?<Entry<E>>, live: seq<Entry<E>>)
    reads node
  {
    if live == [] then node == null else node != null && node.data == live[|live| - 1]
  }

  /** elements maps exactly the live elements, each to the node at its own place in the list. */
  ghost predicate Indexes<E(!new)>(elements: map<E, Node<Entry<E>>>, nodes: seq<Node<Entry<E>>>, live: seq<Entry<E>>) {
    && |nodes| == |live|
    && (forall i :: 0 <= i < |live| ==> live[i].element in elements && elements[live[i].element] == nodes[i])
    && (forall e :: e in elements ==> Has(live, e))
  }

  /** Forgetting the element of the k-th node keeps map and list in bijection. */
  lemma {:induction false} DropIndexed<E(!new)>(
      elements: map<E, Node<Entry<E>>>, nodes: seq<Node<Entry<E>>>, live: seq<Entry<E>>, k: nat)
    requires Indexes(elements, nodes, live) && Distinct(nodes) && k < |nodes|
    ensures Indexes(elements - {live[k].element}, Drop(nodes, k), Drop(live, k))
    ensures k == |nodes| - 1 ==> Drop(nodes, k) == nodes[..k] && Drop(live, k) == live[..k]
  {
    var rest := Drop(live, k);
    forall e | e in elements && e != live[k].element
      ensures Has(rest, e)
    {
      var i :| 0 <= i < |live| && live[i].element == e;
      assert rest[if i < k then i else i - 1] == live[i];
    }
  }

  lemma {:induction false} PushIndexed<E(!new)>(
      elements: map<E, Node<Entry<E>>>, nodes: seq<Node<Entry<E>>>, live: seq<Entry<E>>,
      node: Node<Entry<E>>, entry: Entry<E>)
    requires Indexes(elements, nodes, live) && entry.element !in elements
    ensures Indexes(elements[entry.element := node], [node] + nodes, [entry] + live)
  {
    var grown := [entry] + live;
    assert grown[0] == entry;
    forall e | e in elements
      ensures Has(grown, e)
    {
      var i :| 0 <= i < |live| && live[i].element == e;
      assert grown[i + 1] == live[i];
    }
  }

  lemma {:induction false} SingleReports<E>(ev: Event<E>)
    requires !ev.kind.IsReported()
    ensures Reported([ev]) == [] && Reported<E>([]) == []
  {
    assert [ev][..0] == [];
  }

  function ElementsOf<E>(live: seq<Entry<E>>): (r: seq<E>)
    ensures |r| == |live|
    ensures forall i :: 0 <= i < |r| ==> r[i] == live[i].element
  {
    if live == [] then [] else ElementsOf(live[..|live| - 1]) + [live[|live| - 1].element]
  }

  ghost predicate IsPrefixOf<E>(seen: seq<E>, live: seq<Entry<E>>) {
    |seen| <= |live| && forall i :: 0 <= i < |seen| ==> seen[i] == live[i].element
  }

  /** Of the three bulk removals only the triggered one reports, and it reports everything in order. */
  lemma {:induction false} FrontReports<E>(kind: Kind, live: seq<Entry<E>>, now: int)
    ensures Reported(FromFront(kind, live, now)) == if kind.IsReported() then ElementsOf(live) else []
    decreases |live|
  {
    hide FromFront;
    if live == [] {
    } else {
      var n := |live| - 1;
      FrontReports(kind, live[..n], now);
      assert FromFront(kind, live, now)[..n] == FromFront(kind, live[..n], now);
    }
  }

  lemma {:induction false} FoundAt<E(!new)>(
      elements: map<E, Node<Entry<E>>>, nodes: seq<Node<Entry<E>>>, live: seq<Entry<E>>, e: E)
    requires Indexes(elements, nodes, live) && e in elements
    ensures var k := IndexOf(live, e);
            k < |live| && live[k].element == e && nodes[k] == elements[e] && elements[e] in nodes
  {
    assert Has(live, e);
  }

  lemma {:induction false} DropIsUnique<E>(nodes: seq<Node<E>>, rest: seq<Node<E>>, k: nat)
    requires Distinct(nodes) && k < |nodes|
    requires exists m :: 0 <= m < |nodes| && nodes[m] == nodes[k] && rest == Drop(nodes, m)
    ensures rest == Drop(nodes, k) && nodes[k] !in rest
  {
  }

  /** An add reports the evicted element and nothing else. */
  lemma {:induction false} AddReports<E>(s: State<E>, e: E, now: int)
    ensures var out := AddStep(s, e, now);
            Reported(out.events) ==
              if out.events != [] && out.events[0].kind == Evicted then [out.events[0].element] else []
  {
    var events := AddStep(s, e, now).events;
    if |events| == 2 {
      var first := events[..1];
      assert first[..0] == [] && Reported(first) == [first[0].element];
    }
  }

  lemma {:induction false} FromBackSnoc<E>(kind: Kind, live: seq<Entry<E>>, k: nat, now: int)
    requires k < |live| && kind.IsReported()
    ensures Reported(FromBack(kind, live, k, now)) == Reported(FromBack(kind, live, k + 1, now)) + [live[k].element]
  {
    assert FromBack(kind, live, k, now) == FromBack(kind, live, k + 1, now) + [Event(kind, live[k].element, now)];
  }

  ghost predicate StaleFrom<E>(s: State<E>, k: nat, now: int) {
    forall i :: k <= i < |s.live| ==> now >= s.live[i].time + s.limits.timeout
  }

  lemma {:induction false} TickStopsAt<E>(s: State<E>, k: nat, now: int)
    requires k <= |s.live| && s.limits.timeoutOn
    requires StaleFrom(s, k, now)
    requires k > 0 ==> now < s.live[k - 1].time + s.limits.timeout
    ensures Step(s, Tick, now) ==
              Outcome(KeepFirst(s, k), Done, FromBack(Expired, s.live, k, now))
  {
    assert KeptByTick(s.live, now, s.limits.timeout) == k;
  }
}
