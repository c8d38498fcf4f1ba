/**
 The intrusive doubly linked list behind the heartbeat tracker.  Nodes are
 allocated by the caller and relinked in place; the ghost sequence Nodes is
 the list read from header to tail.
 */
module HeartBeatList {
  import opened Sequences

  class Node<T> {
    var front: Node?<T>
    var next: Node?<T>
    var data: T

    constructor (data: T)
      ensures this.data == data && Detached()
    {
      this.front, this.next, this.data := null, null, data;
    }

    ghost predicate Detached()
      reads this
    {
      front == null && next == null
    }
  }

  ghost predicate Distinct<T>(nodes: seq<Node<T>>) {
    forall i, j :: 0 <= i < j < |nodes| ==> nodes[i] != nodes[j]
  }

  /** The links of nodes form exactly one chain running from header to tail. */
  ghost predicate Linked<T>(nodes: seq<Node<T>>, header: Node?<T>, tail: Node?<T>)
    reads nodes
  {
    && Distinct(nodes)
    && header == At(nodes, 0) && tail == At(nodes, |nodes| - 1)
    && (forall i {:trigger nodes[i].front} :: 0 <= i < |nodes| ==>
          nodes[i].front == At(nodes, i - 1))
    && (forall i {:trigger nodes[i].next} :: 0 <= i < |nodes| ==>
          nodes[i].next == At(nodes, i + 1))
  }

  /** The member of nodes found at i, or null beyond either end. */
  function At<T>(nodes: seq<Node<T>>, i: int): Node?<T> {
    if 0 <= i < |nodes| then nodes[i] else null
  }

  /** Bypassing the k-th node of a chain leaves the chain without that node. */
  lemma BypassedIsLinked<T>(nodes: seq<Node<T>>, k: nat, header: Node?<T>, tail: Node?<T>)
    requires k < |nodes| && Distinct(nodes)
    requires forall i {:trigger nodes[i].front} :: 0 <= i < |nodes| && i != k ==>
               nodes[i].front == At(nodes, if i == k + 1 then i - 2 else i - 1)
    requires forall i {:trigger nodes[i].next} :: 0 <= i < |nodes| && i != k ==>
               nodes[i].next == At(nodes, if i == k - 1 then i + 2 else i + 1)
    requires header == At(nodes, if k == 0 then 1 else 0)
    requires tail == At(nodes, if k == |nodes| - 1 then k - 1 else |nodes| - 1)
    ensures Linked(Drop(nodes, k), header, tail)
  {
  }

  class HeartBeatList<T> {
    var header: Node?<T>
    var tail: Node?<T>
    ghost var Nodes: seq<Node<T>>

    ghost predicate Valid()
      reads this, Nodes
    {
      Linked(Nodes, header, tail)
    }

    constructor ()
      ensures Valid() && Nodes == []
    {
      header, tail, Nodes := null, null, [];
    }

    method PushFront(node: Node?<T>) returns (r: int)
      requires Valid() && (node != null ==> node !in Nodes)
      modifies this, Nodes`front, Nodes`next, Just(node)`front, Just(node)`next
      ensures Valid() && r == (if node == null then -1 else 0)
      ensures Nodes == (if node == null then [] else [node]) + old(Nodes)
    {
      if node == null {
        return -1;
      }
      node.front := null;
      node.next := null;
      if header == null {
        header := node;
        tail := node;
      } else {
        node.next := header;
        header.front := node;
        header := node;
      }
      Nodes := [node] + Nodes;
      r := 0;
    }

    method PushBack(node: Node?<T>) returns (r: int)
      requires Valid() && (node != null ==> node !in Nodes)
      modifies this, Nodes`front, Nodes`next, Just(node)`front, Just(node)`next
      ensures Valid() && r == (if node == null then -1 else 0)
      ensures Nodes == old(Nodes) + (if node == null then [] else [node])
    {
      if node == null {
        return -1;
      }
      node.front := null;
      node.next := null;
      if tail == null {
        header := node;
        tail := node;
      } else {
        tail.next := node;
        node.front := tail;
        tail := node;
      }
      Nodes := Nodes + [node];
      r := 0;
    }

    method PopFront() returns (r: Node?<T>)
      requires Valid()
      modifies this, Nodes`front, Nodes`next
      ensures Valid()
      ensures old(Nodes) == [] ==> r == null && Nodes == []
      ensures old(Nodes) != [] ==> r == old(Nodes)[0] && Nodes == old(Nodes)[1..] && r.Detached()
    {
      if header == null {
        r := null;
      } else if header == tail {
        assert Nodes[0] == Nodes[|Nodes| - 1];
        r := header;
        header := null;
        tail := null;
        Nodes := Nodes[1..];
      } else {
        r := header;
        header := header.next;
        r.next := null;
        header.front := null;
        Nodes := Nodes[1..];
      }
    }

    method PopBack() returns (r: Node?<T>)
      requires Valid()
      modifies this, Nodes`front, Nodes`next
      ensures Valid()
      ensures old(Nodes) == [] ==> r == null && Nodes == []
      ensures old(Nodes) != [] ==>
                var last := |old(Nodes)| - 1;
                r == old(Nodes)[last] && Nodes == old(Nodes)[..last] && r.Detached()
    {
      if tail == null {
        r := null;
      } else if header == tail {
        assert Nodes[0] == Nodes[|Nodes| - 1];
        r := tail;
        header := null;
        tail := null;
        Nodes := [];
      } else {
        r := tail;
        tail := tail.front;
        r.front := null;
        tail.next := null;
        Nodes := Nodes[..|Nodes| - 1];
      }
    }

    method Front() returns (r: Node?<T>)
      requires Valid()
      ensures r == if Nodes == [] then null else Nodes[0]
    {
      r := header;
    }

    method Back() returns (r: Node?<T>)
      requires Valid()
      ensures r == if Nodes == [] then null else Nodes[|Nodes| - 1]
    {
      r := tail;
    }

    method Empty() returns (r: bool)
      requires Valid()
      ensures r <==> Nodes == []
    {
      r := header == null;
    }

    /**
     Unlink node.  The list is told apart from others only by its two ends, so
     a node strictly inside some other chain is unlinked from that chain and
     reported as found, unless this list is empty.
     */
    method Erase(node: Node?<T>) returns (r: int)
      requires Valid()
      requires node != null && node !in Nodes ==>
                 node.front !in Nodes + [node] && node.next !in Nodes + [node]
      modifies this, Nodes`front, Nodes`next, Just(node)`front, Just(node)`next
      modifies Before(node)`next, After(node)`front
      ensures Valid()
      ensures r == 0 <==>
                node != null && (node in old(Nodes) ||
                                 (old(Nodes) != [] && old(node.front) != null && old(node.next) != null))
      ensures r == 0 || r == -1
      ensures r == -1 ==> header == old(header) && tail == old(tail) && Nodes == old(Nodes)
      ensures r == -1 ==>
                forall n: Node<T> :: old(allocated(n)) ==> n.front == old(n.front) && n.next == old(n.next)
      ensures r == 0 ==> node.Detached()
      ensures node == null || node !in old(Nodes) ==>
                Nodes == old(Nodes)
      ensures node != null && node in old(Nodes) ==>
                exists k :: 0 <= k < |old(Nodes)| && old(Nodes)[k] == node && Nodes == Drop(old(Nodes), k)
      ensures r == 0 && node !in old(Nodes) ==>
                old(node.front).next == old(node.next) && old(node.next).front == old(node.front)
    {
      if node == null || header == null {
        return -1;
      }
      ghost var k := if node in Nodes then IndexIn(Nodes, node) else 0;
      ghost var mine := node in Nodes;
      r := -1;
      if node.front == null && node.next == null {
        if header == tail && header == node {
          header := null;
          tail := null;
          r := 0;
        }
      } else if node.front == null && node.next != null {
        if header == node {
          header := header.next;
          header.front := null;
          node.next := null;
          r := 0;
        }
      }
      if node.front != null && node.next == null {
        if tail == node {
          tail := tail.front;
          tail.next := null;
          node.front := null;
          r := 0;
        }
      } else if node.front != null && node.next != null {
        var nodeFront := node.front;
        var nodeNext := node.next;
        node.front := null;
        node.next := null;
        nodeFront.next := nodeNext;
        nodeNext.front := nodeFront;
        r := 0;
      }
      if r == 0 && mine {
        BypassedIsLinked(Nodes, k, header, tail);
        Nodes := Drop(Nodes, k);
      }
    }
  }

  ghost function Just<T>(node: Node?<T>): set<Node<T>> {
    if node == null then {} else {node}
  }

  ghost function Before<T>(node: Node?<T>): set<Node<T>>
    reads Just(node)
  {
    if node == null then {} else Just(node.front)
  }

  ghost function After<T>(node: Node?<T>): set<Node<T>>
    reads Just(node)
  {
    if node == null then {} else Just(node.next)
  }

  ghost function IndexIn<T>(nodes: seq<Node<T>>, node: Node<T>): (k: nat)
    requires node in nodes
    ensures k < |nodes| && nodes[k] == node
  {
    var k :| 0 <= k < |nodes| && nodes[k] == node; k
  }

  /** Asked of a nonempty list, erase unlinks a node strictly inside another list and reports it found. */
  method EraseInsideAnother<T>(mine: HeartBeatList<T>, owner: HeartBeatList<T>, k: nat, node: Node<T>) returns (r: int)
    requires mine.Valid() && owner.Valid() && mine != owner && mine.Nodes != []
    requires forall n :: n in owner.Nodes ==> n !in mine.Nodes
    requires 0 < k < |owner.Nodes| - 1 && owner.Nodes[k] == node
    modifies mine, mine.Nodes`front, mine.Nodes`next, owner.Nodes`front, owner.Nodes`next
    ensures r == 0 && mine.Valid() && mine.Nodes == old(mine.Nodes) && node.Detached()
    ensures owner.header == old(owner.header) && owner.tail == old(owner.tail) && owner.Nodes == old(owner.Nodes)
    ensures Linked(Drop(owner.Nodes, k), owner.header, owner.tail) && !owner.Valid()
  {
    hide Linked, Distinct;
    ghost var nodes := owner.Nodes;
    InnerLinks(nodes, k, owner.header, owner.tail);
    NotItsNeighbour(nodes, k);
    assert node == nodes[k] && node.front == nodes[k - 1] && node.next == nodes[k + 1];
    r := mine.Erase(node);
    forall i | 0 <= i < |nodes| && i != k
      ensures nodes[i].front == At(nodes, if i == k + 1 then i - 2 else i - 1)
      ensures nodes[i].next == At(nodes, if i == k - 1 then i + 2 else i + 1)
    {
      assert nodes[i] in owner.Nodes && nodes[i] !in mine.Nodes;
      assert nodes[i].front == old(nodes[i].front) || i == k + 1;
      assert nodes[i].next == old(nodes[i].next) || i == k - 1;
    }
    BypassedIsLinked(nodes, k, owner.header, owner.tail);
    NotLinked(nodes, k, owner.header, owner.tail);
  }

  lemma InnerLinks<T>(nodes: seq<Node<T>>, k: nat, header: Node?<T>, tail: Node?<T>)
    requires 0 < k < |nodes| - 1 && Linked(nodes, header, tail)
    ensures Distinct(nodes) && header == nodes[0] && tail == nodes[|nodes| - 1]
    ensures forall i {:trigger nodes[i].front} :: 0 <= i < |nodes| ==> nodes[i].front == At(nodes, i - 1)
    ensures forall i {:trigger nodes[i].next} :: 0 <= i < |nodes| ==> nodes[i].next == At(nodes, i + 1)
  {
  }

  /** Each of three neighbours differs from every other node of the chain. */
  lemma NotItsNeighbour<T>(nodes: seq<Node<T>>, k: nat)
    requires 0 < k < |nodes| - 1 && Distinct(nodes)
    ensures forall i :: 0 <= i < |nodes| ==>
              && (i != k - 1 ==> nodes[i] != nodes[k - 1])
              && (i != k ==> nodes[i] != nodes[k])
              && (i != k + 1 ==> nodes[i] != nodes[k + 1])
  {
  }

  lemma NotLinked<T>(nodes: seq<Node<T>>, k: nat, header: Node?<T>, tail: Node?<T>)
    requires 0 < k < |nodes| - 1 && nodes[k].Detached()
    ensures !Linked(nodes, header, tail)
  {
    assert nodes[k].next != At(nodes, k + 1);
  }

  method ListOf<T>(node: Node<T>) returns (list: HeartBeatList<T>)
    modifies node`front, node`next
    ensures fresh(list) && list.Valid() && list.Nodes == [node]
  {
    list := new HeartBeatList();
    var _ := list.PushBack(node);
  }

  method ListOfThree<T>(first: Node<T>, node: Node<T>, last: Node<T>) returns (list: HeartBeatList<T>)
    requires first != node && node != last && first != last
    modifies {first, node, last}`front, {first, node, last}`next
    ensures fresh(list) && list.Valid() && list.Nodes == [first, node, last]
  {
    list := ListOf(first);
    var _ := list.PushBack(node);
    var _ := list.PushBack(last);
  }

  /** Three nodes in one list, one in another: the middle one is erased through the wrong list. */
  method ErasedThroughTheWrongList()
    returns (mine: HeartBeatList<int>, owner: HeartBeatList<int>, node: Node<int>, r: int)
    ensures r == 0 && mine.Valid() && |mine.Nodes| == 1 && node !in mine.Nodes && node.Detached()
    ensures |owner.Nodes| == 3 && node == owner.Nodes[1] && !owner.Valid()
    ensures Linked([owner.Nodes[0], owner.Nodes[2]], owner.header, owner.tail)
  {
    hide Linked, Distinct;
    var own := new Node(0);
    var first := new Node(1);
    node := new Node(2);
    var last := new Node(3);
    mine := ListOf(own);
    owner := ListOfThree(first, node, last);
    r := EraseInsideAnother(mine, owner, 1, node);
    assert Drop(owner.Nodes, 1) == [owner.Nodes[0], owner.Nodes[2]];
  }

  lemma NodesAreDistinct<T>(list: HeartBeatList<T>)
    requires list.Valid()
    ensures Distinct(list.Nodes)
  {
  }

  /** The neighbours of a member are members. */
  lemma NeighboursAreMembers<T>(list: HeartBeatList<T>, node: Node<T>)
    requires list.Valid() && node in list.Nodes
    ensures Before(node) <= (set n | n in list.Nodes) && After(node) <= (set n | n in list.Nodes)
  {
    var k: int := IndexIn(list.Nodes, node);
    assert list.Nodes[k].front == At(list.Nodes, k - 1) && list.Nodes[k].next == At(list.Nodes, k + 1);
  }
}
