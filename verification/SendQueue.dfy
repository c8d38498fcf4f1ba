/**
 The connection's send side: accepted buffers wait in a queue and are handed
 to the socket one at a time.
 */
module SendQueue {
  import opened Wrappers
  import opened Frames

  type Buffer = seq<Byte>

  /** inFlight lists the socket writes begun and not completed; closes counts the close requests. */
  datatype Sender = Sender(
    queue: seq<Buffer>, writing: bool, total: int, inFlight: seq<Buffer>, connected: bool, closes: nat)

  datatype Op = Accept(data: Buffer) | Complete(failed: bool, transferred: nat)

  /** What the socket promises about a completion: a write was begun, and success means all of it. */
  predicate Possible(s: Sender, op: Op) {
    op.Complete? ==>
      s.inFlight != [] && op.transferred <= |s.inFlight[0]| && (!op.failed ==> op.transferred == |s.inFlight[0]|)
  }

  function StartSending(s: Sender): Sender {
    if s.queue != [] then s.(writing := true, inFlight := s.inFlight + [s.queue[0]]) else s
  }

  function Do(s: Sender, op: Op): Sender
    requires Possible(s, op) && (op.Complete? ==> s.queue != [])
  {
    match op
    case Accept(data) =>
      var s' := s.(total := s.total + |data|, queue := s.queue + [data]);
      if s.writing then s' else StartSending(s')
    case Complete(failed, transferred) =>
      var s' := s.(
        writing := false, total := s.total - transferred, queue := s.queue[1..], inFlight := s.inFlight[1..]);
      if failed then (if s.connected then s'.(closes := s.closes + 1) else s') else StartSending(s')
  }

  function Idle(connected: bool): Sender {
    Sender([], false, 0, [], connected, 0)
  }

  // ------------------------------------------------------------- whole runs

  /** A write that has ended, with the number of its bytes that went out. */
  datatype Ended = Ended(data: Buffer, transferred: nat, failed: bool)

  datatype Run = Run(sender: Sender, accepted: seq<Buffer>, ended: seq<Ended>)

  function Bytes(buffers: seq<Buffer>): nat {
    if buffers == [] then 0 else Bytes(buffers[..|buffers| - 1]) + |buffers[|buffers| - 1]|
  }

  /** Bytes that failed writes never sent. */
  function Lost(ended: seq<Ended>): int {
    if ended == [] then 0
    else
      var last := ended[|ended| - 1];
      Lost(ended[..|ended| - 1]) + |last.data| - last.transferred
  }

  function DataOf(ended: seq<Ended>): (r: seq<Buffer>)
    ensures |r| == |ended|
    ensures forall i :: 0 <= i < |r| ==> r[i] == ended[i].data
  {
    if ended == [] then [] else DataOf(ended[..|ended| - 1]) + [ended[|ended| - 1].data]
  }

  /** Order kept, one write at a time and it is the front, and exact byte accounts. */
  ghost predicate Sound(r: Run) {
    && r.accepted == DataOf(r.ended) + r.sender.queue
    && (r.sender.writing ==> r.sender.queue != [])
    && r.sender.inFlight == (if r.sender.writing then [r.sender.queue[0]] else [])
    && r.sender.total == Bytes(r.sender.queue) + Lost(r.ended)
    && (forall i :: 0 <= i < |r.ended| ==> HonestEnd(r.ended[i]))
  }

  predicate HonestEnd(w: Ended) {
    w.transferred <= |w.data| && (!w.failed ==> w.transferred == |w.data|)
  }

  lemma {:induction false} BytesSnoc(buffers: seq<Buffer>, b: Buffer)
    ensures Bytes(buffers + [b]) == Bytes(buffers) + |b|
  {
    assert (buffers + [b])[..|buffers|] == buffers;
  }

  lemma {:induction false} BytesFront(buffers: seq<Buffer>)
    requires buffers != []
    ensures Bytes(buffers) == |buffers[0]| + Bytes(buffers[1..])
  {
    var n := |buffers| - 1;
    if n == 0 {
    } else {
      BytesFront(buffers[..n]);
      assert buffers[1..][..n - 1] == buffers[..n][1..];
    }
  }

  lemma {:induction false} LostSnoc(ended: seq<Ended>, w: Ended)
    ensures Lost(ended + [w]) == Lost(ended) + |w.data| - w.transferred
  {
    assert (ended + [w])[..|ended|] == ended;
  }

  lemma {:induction false} LostIsNotNegative(ended: seq<Ended>)
    requires forall i :: 0 <= i < |ended| ==> HonestEnd(ended[i])
    ensures Lost(ended) >= 0
    ensures (forall i :: 0 <= i < |ended| ==> !ended[i].failed) ==> Lost(ended) == 0
  {
    if ended == [] {
    } else {
      LostIsNotNegative(ended[..|ended| - 1]);
      assert HonestEnd(ended[|ended| - 1]);
    }
  }

  function Next(r: Run, op: Op): Run
    requires Possible(r.sender, op) && (op.Complete? ==> r.sender.queue != [])
  {
    match op
    case Accept(data) => Run(Do(r.sender, op), r.accepted + [data], r.ended)
    case Complete(failed, transferred) =>
      Run(Do(r.sender, op), r.accepted, r.ended + [Ended(r.sender.queue[0], transferred, failed)])
  }

  lemma {:induction false} NextIsSound(r: Run, op: Op)
    requires Sound(r) && Possible(r.sender, op)
    ensures op.Complete? ==> r.sender.queue != []
    ensures Sound(Next(r, op)) && Next(r, op).sender == Do(r.sender, op)
  {
    match op
    case Accept(data) => AcceptIsSound(r, data);
    case Complete(failed, transferred) => CompleteIsSound(r, failed, transferred);
  }

  lemma {:induction false} AcceptIsSound(r: Run, data: Buffer)
    requires Sound(r)
    ensures Sound(Next(r, Accept(data)))
  {
    hide DataOf, Bytes, Lost;
    BytesSnoc(r.sender.queue, data);
    assert DataOf(r.ended) + r.sender.queue + [data] == DataOf(r.ended) + (r.sender.queue + [data]);
  }

  lemma {:induction false} CompleteIsSound(r: Run, failed: bool, transferred: nat)
    requires Sound(r) && Possible(r.sender, Complete(failed, transferred))
    ensures r.sender.queue != [] && Sound(Next(r, Complete(failed, transferred)))
  {
    hide DataOf, Bytes, Lost;
    var front, rest := r.sender.queue[0], r.sender.queue[1..];
    var w := Ended(front, transferred, failed);
    BytesFront(r.sender.queue);
    LostSnoc(r.ended, w);
    assert DataOf(r.ended + [w]) == DataOf(r.ended) + [front];
    assert DataOf(r.ended) + r.sender.queue == DataOf(r.ended) + [front] + rest;
    var s := Next(r, Complete(failed, transferred)).sender;
    assert s.queue == rest && r.sender.inFlight[1..] == [];
  }

  /** The run of ops from an idle sender, as long as the socket keeps its promise. */
  ghost function RunOf(connected: bool, ops: seq<Op>): (o: Option<Run>)
    ensures o.Some? ==> Sound(o.value)
  {
    if ops == [] then Some(Run(Idle(connected), [], []))
    else
      var prior, op := RunOf(connected, ops[..|ops| - 1]), ops[|ops| - 1];
      if prior.None? || !Possible(prior.value.sender, op) then None
      else
        NextIsSound(prior.value, op);
        Some(Next(prior.value, op))
  }

  function AcceptedIn(ops: seq<Op>): seq<Buffer> {
    if ops == [] then []
    else AcceptedIn(ops[..|ops| - 1]) + if ops[|ops| - 1].Accept? then [ops[|ops| - 1].data] else []
  }

  /** At every handler boundary: what was accepted is what has ended followed by the queue, in order. */
  lemma {:induction false} OrderIsKept(connected: bool, ops: seq<Op>)
    requires RunOf(connected, ops).Some?
    ensures var r := RunOf(connected, ops).value;
            && AcceptedIn(ops) == DataOf(r.ended) + r.sender.queue
            && (r.sender.inFlight == [] || (r.sender.queue != [] && r.sender.inFlight == [r.sender.queue[0]]))
            && (r.sender.inFlight != [] <==> r.sender.writing)
  {
    hide Sound;
    AcceptedIsRecorded(connected, ops);
    SoundRun(RunOf(connected, ops).value);
  }

  lemma {:induction false} AcceptedIsRecorded(connected: bool, ops: seq<Op>)
    requires RunOf(connected, ops).Some?
    ensures RunOf(connected, ops).value.accepted == AcceptedIn(ops)
  {
    if ops == [] {
    } else {
      AcceptedIsRecorded(connected, ops[..|ops| - 1]);
    }
  }

  lemma {:induction false} SoundRun(r: Run)
    requires Sound(r)
    ensures r.accepted == DataOf(r.ended) + r.sender.queue
    ensures r.sender.inFlight == [] || (r.sender.queue != [] && r.sender.inFlight == [r.sender.queue[0]])
    ensures r.sender.inFlight != [] <==> r.sender.writing
  {
  }

  /** The counter never underflows, and counts exactly the queued bytes until a write fails. */
  lemma {:induction false} BytesAreAccounted(connected: bool, ops: seq<Op>)
    requires RunOf(connected, ops).Some?
    ensures var r := RunOf(connected, ops).value;
            && r.sender.total == Bytes(r.sender.queue) + Lost(r.ended) && Lost(r.ended) >= 0
            && ((forall i :: 0 <= i < |r.ended| ==> !r.ended[i].failed) ==> r.sender.total == Bytes(r.sender.queue))
  {
    LostIsNotNegative(RunOf(connected, ops).value.ended);
  }

  /** Queued buffers wait with no write begun exactly when the last thing that happened was a failed write. */
  lemma {:induction false} StrandedExactly(connected: bool, ops: seq<Op>)
    requires RunOf(connected, ops).Some?
    ensures var s := RunOf(connected, ops).value.sender;
            && (s.queue == [] ==> !s.writing)
            && (s.queue != [] ==>
                  (!s.writing <==> ops != [] && ops[|ops| - 1].Complete? && ops[|ops| - 1].failed))
  {
    hide Sound;
    if ops != [] {
      LastStep(connected, ops);
    }
  }

  function FailuresIn(ops: seq<Op>): nat {
    if ops == [] then 0
    else
      var last := ops[|ops| - 1];
      FailuresIn(ops[..|ops| - 1]) + if last.Complete? && last.failed then 1 else 0
  }

  /** On a connected socket every failed write, and nothing else, asks for the connection to be closed. */
  lemma {:induction false} ClosesAreFailures(connected: bool, ops: seq<Op>)
    requires RunOf(connected, ops).Some?
    ensures var s := RunOf(connected, ops).value.sender;
            s.connected == connected && s.closes == if connected then FailuresIn(ops) else 0
  {
    hide Sound;
    if ops == [] {
    } else {
      LastStep(connected, ops);
      ClosesAreFailures(connected, ops[..|ops| - 1]);
    }
  }

  lemma {:induction false} LastStep(connected: bool, ops: seq<Op>)
    requires ops != [] && RunOf(connected, ops).Some?
    ensures var prior, op := RunOf(connected, ops[..|ops| - 1]), ops[|ops| - 1];
            && prior.Some? && Possible(prior.value.sender, op) && (op.Complete? ==> prior.value.sender.queue != [])
            && RunOf(connected, ops).value == Next(prior.value, op)
  {
    hide DataOf, Bytes, Lost;
    NextIsSound(RunOf(connected, ops[..|ops| - 1]).value, ops[|ops| - 1]);
  }

  // ------------------------------------------------------------- the object

  class Connecter {
    var writeQueue: seq<Buffer>
    var isWriting: bool
    var totalWaitWrite: nat
    var connected: bool
    var inFlight: seq<Buffer>
    var closes: nat

    ghost function View(): Sender
      reads this
    {
      Sender(writeQueue, isWriting, totalWaitWrite, inFlight, connected, closes)
    }

    /** The object stands where some run of accepted buffers and completions leaves it. */
    ghost predicate Valid(r: Run)
      reads this
    {
      Sound(r) && r.sender == View()
    }

    constructor ()
      ensures View() == Idle(false) && Valid(Run(Idle(false), [], []))
    {
      writeQueue, isWriting, totalWaitWrite, connected, inFlight, closes := [], false, 0, false, [], 0;
    }

    /** The connection stands. */
    method RemoteOpen(ghost r: Run)
      requires Valid(r)
      modifies this`connected
      ensures View() == old(View()).(connected := true) && Valid(r.(sender := r.sender.(connected := true)))
    {
      connected := true;
    }

    method SetWriteState(writing: bool)
      modifies this`isWriting
      ensures isWriting == writing
    {
      isWriting := writing;
    }

    method StartSendingBuffer()
      modifies this`isWriting, this`inFlight
      ensures View() == StartSending(old(View()))
    {
      if writeQueue != [] {
        SetWriteState(true);
        inFlight := inFlight + [writeQueue[0]];
      }
    }

    method SyncWrite(data: Buffer, ghost r: Run)
      requires Valid(r)
      modifies this`totalWaitWrite, this`writeQueue, this`isWriting, this`inFlight
      ensures View() == Do(old(View()), Accept(data)) && Valid(Next(r, Accept(data)))
    {
      hide Sound, Next;
      NextIsSound(r, Accept(data));
      totalWaitWrite := totalWaitWrite + |data|;
      writeQueue := writeQueue + [data];
      if !isWriting {
        StartSendingBuffer();
      }
    }

    /** The socket reports the end of the write it was given. */
    method WriteComplete(failed: bool, transferred: nat, ghost r: Run)
      requires Valid(r) && Possible(View(), Complete(failed, transferred))
      modifies this`totalWaitWrite, this`writeQueue, this`isWriting, this`inFlight, this`closes
      ensures writeQueue == old(writeQueue)[1..]
      ensures Valid(Next(r, Complete(failed, transferred)))
      ensures View() == Do(old(View()), Complete(failed, transferred))
    {
      hide Sound, Next;
      CompletionIsCovered(r, failed, transferred);
      NextIsSound(r, Complete(failed, transferred));
      SetWriteState(false);
      inFlight := inFlight[1..];
      totalWaitWrite := totalWaitWrite - transferred;
      writeQueue := writeQueue[1..];
      if failed {
        if connected {
          closes := closes + 1;
        }
        return;
      }
      StartSendingBuffer();
    }
  }

  lemma {:induction false} CompletionIsCovered(r: Run, failed: bool, transferred: nat)
    requires Sound(r) && Possible(r.sender, Complete(failed, transferred))
    ensures r.sender.queue != [] && transferred <= r.sender.total
  {
    BytesFront(r.sender.queue);
    LostIsNotNegative(r.ended);
  }
}
