/**
 Sender, socket and receiver together: framed messages are queued, written one
 buffer at a time, carried as bytes in pieces of any size, and parsed again.
 */
module Pipeline {
  import opened Frames
  import opened Protocol
  import opened Sessions
  import opened SendQueue

  const READ_BUFFER: nat := 8192

  /**
   sent: every message given to async_send so far.  tasks: writes posted and
   not yet run.  onWire: how much of the write in flight has left.  wire: all
   bytes that have left.  got: how many of them the receiver has read.
   */
  datatype Pipe = Pipe(
    sent: seq<Send>, tasks: seq<Buffer>, sender: Sender, onWire: nat, wire: seq<Byte>, got: nat, session: Session)

  datatype Action = AsyncSend(m: Send) | RunWrite | Transmit(n: nat) | WriteDone | Receive(n: nat)

  function Empty(connected: bool): Pipe {
    Pipe([], [], Idle(connected), 0, [], 0, NEW_SESSION)
  }

  predicate Enabled(p: Pipe, a: Action) {
    match a
    case AsyncSend(m) => m.Fits()
    case RunWrite => p.tasks != []
    case Transmit(n) => p.sender.inFlight != [] && 0 < n && p.onWire + n <= |p.sender.inFlight[0]|
    case WriteDone => p.sender.inFlight != [] && p.onWire == |p.sender.inFlight[0]| && p.sender.queue != []
    case Receive(n) => 0 < n <= READ_BUFFER && p.got + n <= |p.wire|
  }

  function Step(p: Pipe, a: Action): Pipe
    requires Enabled(p, a)
  {
    match a
    case AsyncSend(m) => p.(sent := p.sent + [m], tasks := p.tasks + [m.Frame()])
    case RunWrite => p.(tasks := p.tasks[1..], sender := Do(p.sender, Accept(p.tasks[0])))
    case Transmit(n) =>
      p.(wire := p.wire + p.sender.inFlight[0][p.onWire..p.onWire + n], onWire := p.onWire + n)
    case WriteDone => p.(sender := Do(p.sender, Complete(false, p.onWire)), onWire := 0)
    case Receive(n) => p.(got := p.got + n, session := Read(p.session, p.wire[p.got..p.got + n], false))
  }

  ghost predicate Leads(before: Pipe, actions: seq<Action>, after: Pipe)
    decreases |actions|
  {
    if actions == [] then after == before
    else Enabled(before, actions[0]) && Leads(Step(before, actions[0]), actions[1..], after)
  }

  // -------------------------------------------------------------- invariant

  function Waiting(p: Pipe): seq<Byte> {
    Flatten(p.sender.queue + p.tasks)
  }

  ghost predicate QueueInOrder(p: Pipe) {
    && (p.sender.writing <==> p.sender.queue != [])
    && p.sender.inFlight == (if p.sender.writing then [p.sender.queue[0]] else [])
    && p.onWire <= if p.sender.writing then |p.sender.queue[0]| else 0
  }

  ghost predicate Inv(p: Pipe) {
    && QueueInOrder(p) && AllFit(p.sent)
    && p.onWire <= |Waiting(p)|
    && p.wire + Waiting(p)[p.onWire..] == Stream(p.sent)
    && p.got <= |p.wire|
    && p.session == Read(NEW_SESSION, p.wire[..p.got], false)
  }

  lemma {:induction false} FlattenSnoc(buffers: seq<Buffer>, b: Buffer)
    ensures Flatten(buffers + [b]) == Flatten(buffers) + b
  {
    assert (buffers + [b])[..|buffers|] == buffers;
  }

  lemma {:induction false} FlattenOne(b: Buffer)
    ensures Flatten([b]) == b + Flatten([])
  {
  }

  lemma {:induction false} FlattenFront(buffers: seq<Buffer>)
    requires buffers != []
    ensures Flatten(buffers) == buffers[0] + Flatten(buffers[1..])
  {
    hide Flatten;
    var n := |buffers| - 1;
    var prior, last := buffers[..n], buffers[n];
    if n == 0 {
      assert buffers == [last] && buffers[1..] == [];
      FlattenOne(last);
    } else {
      FlattenFront(prior);
      assert buffers == prior + [last] && buffers[1..] == prior[1..] + [last];
      FlattenSnoc(prior, last);
      FlattenSnoc(prior[1..], last);
    }
  }

  lemma {:induction false} StreamSnoc(sends: seq<Send>, m: Send)
    ensures Stream(sends + [m]) == Stream(sends) + m.Frame()
  {
    if sends == [] {
      assert [] + [m] == [m] && m.Frame() + [] == m.Frame();
    } else {
      assert (sends + [m])[1..] == sends[1..] + [m];
      StreamSnoc(sends[1..], m);
    }
  }

  lemma {:induction false} SendKeepsInv(p: Pipe, m: Send)
    requires Inv(p) && m.Fits()
    ensures Inv(Step(p, AsyncSend(m)))
  {
    hide Flatten, Stream, Read;
    StreamSnoc(p.sent, m);
    FlattenSnoc(p.sender.queue + p.tasks, m.Frame());
    assert p.sender.queue + (p.tasks + [m.Frame()]) == p.sender.queue + p.tasks + [m.Frame()];
  }

  lemma {:induction false} WriteKeepsInv(p: Pipe)
    requires Inv(p) && p.tasks != []
    ensures Inv(Step(p, RunWrite))
  {
    hide Flatten, Stream, Read;
    assert p.sender.queue + [p.tasks[0]] + p.tasks[1..] == p.sender.queue + p.tasks;
  }

  lemma {:induction false} TransmitKeepsInv(p: Pipe, n: nat)
    requires Inv(p) && Enabled(p, Transmit(n))
    ensures Inv(Step(p, Transmit(n)))
  {
    hide Flatten, Stream, Read;
    var all := p.sender.queue + p.tasks;
    FlattenFront(all);
    var w, front := Waiting(p), p.sender.queue[0];
    var piece := front[p.onWire..p.onWire + n];
    assert w[p.onWire..] == piece + w[p.onWire + n..];
    assert p.wire + piece + w[p.onWire + n..] == p.wire + (piece + w[p.onWire + n..]);
    assert (p.wire + piece)[..p.got] == p.wire[..p.got];
  }

  lemma {:induction false} DoneKeepsInv(p: Pipe)
    requires Inv(p) && Enabled(p, WriteDone)
    ensures Inv(Step(p, WriteDone))
  {
    hide Flatten, Stream, Read;
    var all := p.sender.queue + p.tasks;
    FlattenFront(all);
    assert all[1..] == p.sender.queue[1..] + p.tasks;
  }

  lemma {:induction false} ReceiveKeepsInv(p: Pipe, n: nat)
    requires Inv(p) && Enabled(p, Receive(n))
    ensures Inv(Step(p, Receive(n)))
  {
    hide Flatten, Stream, Read;
    ReadInChunks(NEW_SESSION, p.wire[..p.got], p.wire[p.got..p.got + n], false);
    assert p.wire[..p.got] + p.wire[p.got..p.got + n] == p.wire[..p.got + n];
  }

  lemma {:induction false} StepKeepsInv(p: Pipe, a: Action)
    requires Inv(p) && Enabled(p, a)
    ensures Inv(Step(p, a))
  {
    match a
    case AsyncSend(m) => SendKeepsInv(p, m);
    case RunWrite => WriteKeepsInv(p);
    case Transmit(n) => TransmitKeepsInv(p, n);
    case WriteDone => DoneKeepsInv(p);
    case Receive(n) => ReceiveKeepsInv(p, n);
  }

  lemma {:induction false} LeadsKeepsInv(before: Pipe, actions: seq<Action>, after: Pipe)
    requires Inv(before) && Leads(before, actions, after)
    ensures Inv(after)
    decreases |actions|
  {
    hide Inv, Step;
    if actions == [] {
    } else {
      StepKeepsInv(before, actions[0]);
      LeadsKeepsInv(Step(before, actions[0]), actions[1..], after);
    }
  }

  lemma {:induction false} ReachableIsSound(connected: bool, actions: seq<Action>, p: Pipe)
    requires Leads(Empty(connected), actions, p)
    ensures Inv(p)
  {
    LeadsKeepsInv(Empty(connected), actions, p);
  }

  // --------------------------------------------------------------- delivery

  predicate Quiet(p: Pipe) {
    p.tasks == [] && p.sender.queue == [] && p.got == |p.wire|
  }

  /** At all times the posted messages are the first ones sent, unchanged and in order. */
  lemma {:induction false} DeliveredInOrder(connected: bool, actions: seq<Action>, p: Pipe)
    requires Leads(Empty(connected), actions, p)
    ensures p.session.posted <= Notices(Messages(p.sent))
  {
    hide Leads, Stream, Flatten, Decode;
    ReachableIsSound(connected, actions, p);
    var s := Stream(p.sent);
    assert s[..p.got] == p.wire[..p.got];
    assert [] + p.wire[..p.got] == p.wire[..p.got];
    PrefixDecodes(p.sent, p.got);
  }

  /** Once everything has been read, everything has been posted, but for one last message without a body. */
  lemma {:induction false} QuietMeansDelivered(connected: bool, actions: seq<Action>, p: Pipe)
    requires Leads(Empty(connected), actions, p) && Quiet(p)
    ensures p.session.posted == Notices(Messages(Deliverable(p.sent)))
  {
    hide Inv, Leads, Quiet;
    ReachableIsSound(connected, actions, p);
    QuietIsDelivered(p);
  }

  lemma {:induction false} QuietIsDelivered(p: Pipe)
    requires Inv(p) && Quiet(p)
    ensures p.session.posted == Notices(Messages(Deliverable(p.sent)))
  {
    hide Stream, Decode;
    assert Waiting(p) == [] && p.wire[..p.got] == p.wire && p.wire + [] == p.wire;
    assert [] + p.wire == p.wire;
    StreamDecodes(p.sent);
  }

  /** Message i has been posted exactly when its frame, and a byte beyond its header, has been read. */
  lemma {:induction false} PostedExactly(connected: bool, actions: seq<Action>, p: Pipe, i: nat)
    requires Leads(Empty(connected), actions, p) && i < |p.sent|
    ensures i < |p.session.posted| <==>
              |Stream(p.sent[..i + 1])| <= p.got && |Stream(p.sent[..i])| + HEAD_SIZE < p.got
  {
    hide Leads, Stream, Flatten, Decode;
    ReachableIsSound(connected, actions, p);
    assert Stream(p.sent)[..p.got] == p.wire[..p.got];
    assert [] + p.wire[..p.got] == p.wire[..p.got];
    DeliveredExactly(p.sent, p.got, i);
  }

  /** Unless all is delivered, some step of writer, socket or receiver can be taken: no buffer is stranded. */
  lemma {:induction false} NeverStuck(connected: bool, actions: seq<Action>, p: Pipe)
    requires Leads(Empty(connected), actions, p) && !Quiet(p)
    ensures exists a: Action :: !a.AsyncSend? && Enabled(p, a)
  {
    hide Inv, Leads, Quiet;
    ReachableIsSound(connected, actions, p);
    var a := NextStep(p);
  }

  lemma {:induction false} NextStep(p: Pipe) returns (a: Action)
    requires Inv(p) && !Quiet(p)
    ensures !a.AsyncSend? && Enabled(p, a)
  {
    hide Stream, Flatten, Decode;
    if p.tasks != [] {
      a := RunWrite;
    } else if p.got < |p.wire| {
      a := Receive(1);
    } else if p.onWire < |p.sender.inFlight[0]| {
      a := Transmit(1);
    } else {
      a := WriteDone;
    }
  }

  /** Work left: bytes to transmit count twice, as they are still to be received. */
  function Work(p: Pipe): int {
    2 * (|Waiting(p)| - p.onWire) + (|p.wire| - p.got) + 2 * |p.tasks| + |p.sender.queue|
  }

  lemma {:induction false} WriteShortens(p: Pipe)
    requires Inv(p) && p.tasks != []
    ensures Work(Step(p, RunWrite)) == Work(p) - 1
  {
    hide Flatten, Stream, Read;
    assert p.sender.queue + [p.tasks[0]] + p.tasks[1..] == p.sender.queue + p.tasks;
  }

  lemma {:induction false} DoneShortens(p: Pipe)
    requires Inv(p) && Enabled(p, WriteDone)
    ensures Work(Step(p, WriteDone)) == Work(p) - 1
  {
    hide Flatten, Stream, Read;
    FlattenFront(p.sender.queue + p.tasks);
    assert (p.sender.queue + p.tasks)[1..] == p.sender.queue[1..] + p.tasks;
  }

  lemma {:induction false} StepShortens(p: Pipe, a: Action)
    requires Inv(p) && Enabled(p, a) && !a.AsyncSend?
    ensures Work(Step(p, a)) < Work(p)
  {
    match a
    case RunWrite => WriteShortens(p);
    case Transmit(n) =>
    case WriteDone => DoneShortens(p);
    case Receive(n) =>
  }

  ghost predicate SendFree(actions: seq<Action>) {
    forall i :: 0 <= i < |actions| ==> !actions[i].AsyncSend?
  }

  /** Between sends only so many steps can be taken, so the pipe always runs dry. */
  lemma {:induction false} RunsDry(before: Pipe, actions: seq<Action>, after: Pipe)
    requires Inv(before) && Leads(before, actions, after) && SendFree(actions)
    ensures |actions| <= Work(before)
    decreases |actions|
  {
    hide Step, Work;
    WorkIsNotNegative(before);
    if actions == [] {
    } else {
      StepKeepsInv(before, actions[0]);
      StepShortens(before, actions[0]);
      RunsDry(Step(before, actions[0]), actions[1..], after);
    }
  }

  lemma {:induction false} Drain(p: Pipe) returns (actions: seq<Action>, q: Pipe)
    requires Inv(p)
    ensures Inv(q) && Quiet(q) && q.sent == p.sent
    ensures SendFree(actions) && Leads(p, actions, q)
    decreases Work(p)
  {
    hide Inv, Quiet, Work, Step;
    if Quiet(p) {
      actions, q := [], p;
    } else {
      var a := NextStep(p);
      StepKeepsInv(p, a);
      StepShortens(p, a);
      WorkIsNotNegative(p);
      OnlySendsAdd(p, a);
      var rest;
      rest, q := Drain(Step(p, a));
      actions := [a] + rest;
      assert actions[1..] == rest;
    }
  }

  lemma {:induction false} OnlySendsAdd(p: Pipe, a: Action)
    requires Enabled(p, a) && !a.AsyncSend?
    ensures Step(p, a).sent == p.sent
  {
  }

  /**
   Wherever a run stands, it can go on without further sends until all is
   quiet, within the work left, and then everything sent has been posted, but
   for one last message without a body.
   */
  lemma {:induction false} EverythingArrives(connected: bool, actions: seq<Action>, p: Pipe)
    requires Leads(Empty(connected), actions, p)
    ensures exists more, q ::
              && SendFree(more) && |more| <= Work(p) && Leads(p, more, q)
              && Quiet(q) && q.session.posted == Notices(Messages(Deliverable(p.sent)))
  {
    hide Inv, Leads, Quiet, Work, Deliverable;
    ReachableIsSound(connected, actions, p);
    var more, q := Drain(p);
    RunsDry(p, more, q);
    QuietIsDelivered(q);
  }

  lemma {:induction false} WorkIsNotNegative(p: Pipe)
    requires Inv(p)
    ensures Work(p) >= 0
  {
  }
}
