/**
 The wire format: an eight-byte header, then the body.  Decode is the
 reference reading of a byte stream; the printers and the incremental parser
 are both measured against it.
 */
module Frames {
  newtype Byte = x: int | 0 <= x < 0x100
  newtype U16 = x: int | 0 <= x < 0x1_0000
  newtype U32 = x: int | 0 <= x < 0x1_0000_0000

  const HEAD_SIZE: nat := 8

  datatype Head = Head(len: U32, cmd: U16, res: U16)

  datatype Msg = Msg(cmd: U16, res: U16, body: seq<Byte>)

  function Put16(x: U16): (b: seq<Byte>)
    ensures |b| == 2
  {
    [(x as int % 0x100) as Byte, (x as int / 0x100) as Byte]
  }

  function Get16(b: seq<Byte>): U16
    requires |b| == 2
  {
    (b[0] as int + 0x100 * b[1] as int) as U16
  }

  function Put32(x: U32): (b: seq<Byte>)
    ensures |b| == 4
  {
    Put16((x as int % 0x1_0000) as U16) + Put16((x as int / 0x1_0000) as U16)
  }

  function Get32(b: seq<Byte>): U32
    requires |b| == 4
  {
    (Get16(b[..2]) as int + 0x1_0000 * Get16(b[2..]) as int) as U32
  }

  /** The header as it lies in memory, low byte first. */
  function PutHead(h: Head): (b: seq<Byte>)
    ensures |b| == HEAD_SIZE
  {
    Put32(h.len) + Put16(h.cmd) + Put16(h.res)
  }

  function GetHead(b: seq<Byte>): Head
    requires |b| == HEAD_SIZE
  {
    Head(Get32(b[..4]), Get16(b[4..6]), Get16(b[6..]))
  }

  lemma {:induction false} Put16RoundTrip(x: U16, b: seq<Byte>)
    requires |b| == 2
    ensures Get16(Put16(x)) == x && Put16(Get16(b)) == b
  {
  }

  lemma {:induction false} Put32RoundTrip(x: U32, b: seq<Byte>)
    requires |b| == 4
    ensures Get32(Put32(x)) == x && Put32(Get32(b)) == b
  {
    hide Put16, Get16;
    var lo, hi := (x as int % 0x1_0000) as U16, (x as int / 0x1_0000) as U16;
    Put16RoundTrip(lo, b[..2]);
    Put16RoundTrip(hi, b[2..]);
    assert Put32(x)[..2] == Put16(lo) && Put32(x)[2..] == Put16(hi);
    assert b == b[..2] + b[2..];
  }

  /** The header encoding is a bijection on eight-byte strings. */
  lemma {:induction false} HeadRoundTrip(h: Head, b: seq<Byte>)
    requires |b| == HEAD_SIZE
    ensures GetHead(PutHead(h)) == h && PutHead(GetHead(b)) == b
  {
    hide Put16, Get16, Put32, Get32;
    Put32RoundTrip(h.len, b[..4]);
    Put16RoundTrip(h.cmd, b[4..6]);
    Put16RoundTrip(h.res, b[6..]);
    var p := PutHead(h);
    assert p[..4] == Put32(h.len) && p[4..6] == Put16(h.cmd) && p[6..] == Put16(h.res);
    assert b == b[..4] + b[4..6] + b[6..];
  }

  /** Four bytes of length, two of command, two of result, each low byte first. */
  lemma {:induction false} HeadLayout(h: Head)
    ensures var b := PutHead(h);
            && h.len as int == b[0] as int + 0x100 * b[1] as int + 0x1_0000 * b[2] as int + 0x100_0000 * b[3] as int
            && h.cmd as int == b[4] as int + 0x100 * b[5] as int
            && h.res as int == b[6] as int + 0x100 * b[7] as int
  {
    var x := h.len as int;
    assert x == x % 0x1_0000 + 0x1_0000 * (x / 0x1_0000);
  }

  // ---------------------------------------------------------------- printing

  /** The length field keeps only the low 32 bits of the body size. */
  function LenField(size: nat): U32 {
    (size % 0x1_0000_0000) as U32
  }

  function MakeMsg(cmd: U16, data: seq<Byte>): seq<Byte> {
    PutHead(Head(LenField(|data|), cmd, 0)) + data
  }

  // ---------------------------------------------------------------- decoding

  datatype Decoded = Decoded(msgs: seq<Msg>, rest: seq<Byte>)

  /** The end of the first frame of s, whose header is complete. */
  function FrameEnd(s: seq<Byte>): nat
    requires |s| >= HEAD_SIZE
  {
    HEAD_SIZE + GetHead(s[..HEAD_SIZE]).len as nat
  }

  /** A first frame is ready once its body is complete and a byte beyond its header has arrived. */
  predicate FrameReady(s: seq<Byte>) {
    |s| > HEAD_SIZE && FrameEnd(s) <= |s|
  }

  function FirstMsg(s: seq<Byte>): Msg
    requires FrameReady(s)
  {
    var h := GetHead(s[..HEAD_SIZE]);
    Msg(h.cmd, h.res, s[HEAD_SIZE..FrameEnd(s)])
  }

  function Decode(s: seq<Byte>): Decoded
    decreases |s|
  {
    if FrameReady(s) then
      var d := Decode(s[FrameEnd(s)..]);
      Decoded([FirstMsg(s)] + d.msgs, d.rest)
    else Decoded([], s)
  }

  lemma {:induction false} FrameReadyStays(a: seq<Byte>, b: seq<Byte>)
    requires FrameReady(a)
    ensures FrameReady(a + b) && FrameEnd(a + b) == FrameEnd(a) && FirstMsg(a + b) == FirstMsg(a)
    ensures (a + b)[FrameEnd(a)..] == a[FrameEnd(a)..] + b
  {
    assert (a + b)[..HEAD_SIZE] == a[..HEAD_SIZE];
    assert (a + b)[HEAD_SIZE..FrameEnd(a)] == a[HEAD_SIZE..FrameEnd(a)];
  }

  /** Reading a, keeping what is left, then reading b, is reading a followed by b. */
  lemma {:induction false} DecodeInChunks(a: seq<Byte>, b: seq<Byte>)
    ensures var d := Decode(a);
            var e := Decode(d.rest + b);
            Decode(a + b) == Decoded(d.msgs + e.msgs, e.rest)
    decreases |a|
  {
    hide GetHead, FirstMsg;
    if FrameReady(a) {
      FrameReadyStays(a, b);
      var tail := a[FrameEnd(a)..];
      DecodeInChunks(tail, b);
      var d, e := Decode(tail), Decode(Decode(tail).rest + b);
      assert Decode(a) == Decoded([FirstMsg(a)] + d.msgs, d.rest);
      assert [FirstMsg(a)] + d.msgs + e.msgs == [FirstMsg(a)] + (d.msgs + e.msgs);
    } else {
      assert Decode(a) == Decoded([], a);
    }
  }

  lemma {:induction false} RestIsNotReady(s: seq<Byte>)
    ensures !FrameReady(Decode(s).rest) && Decode(Decode(s).rest) == Decoded([], Decode(s).rest)
    decreases |s|
  {
    if !FrameReady(s) {
    } else {
      RestIsNotReady(s[FrameEnd(s)..]);
    }
  }

  /** Nothing is lost: the messages' frames, in order, followed by what is left, are the input. */
  lemma {:induction false} DecodeLosesNothing(s: seq<Byte>)
    ensures s == Reprint(Decode(s).msgs) + Decode(s).rest
    decreases |s|
  {
    hide GetHead, FirstMsg, FrameEnd, PrintAgain;
    if !FrameReady(s) {
    } else {
      var d := Decode(s[FrameEnd(s)..]);
      DecodeLosesNothing(s[FrameEnd(s)..]);
      FirstFrameReprints(s);
      assert Decode(s).msgs[1..] == d.msgs;
      assert PrintAgain(FirstMsg(s)) + (Reprint(d.msgs) + d.rest) == PrintAgain(FirstMsg(s)) + Reprint(d.msgs) + d.rest;
    }
  }

  lemma {:induction false} FirstFrameReprints(s: seq<Byte>)
    requires FrameReady(s)
    ensures s == PrintAgain(FirstMsg(s)) + s[FrameEnd(s)..]
  {
    HeadRoundTrip(GetHead(s[..HEAD_SIZE]), s[..HEAD_SIZE]);
    assert s == s[..HEAD_SIZE] + s[HEAD_SIZE..FrameEnd(s)] + s[FrameEnd(s)..];
  }

  function PrintAgain(m: Msg): seq<Byte> {
    PutHead(Head(LenField(|m.body|), m.cmd, m.res)) + m.body
  }

  function Reprint(msgs: seq<Msg>): seq<Byte> {
    if msgs == [] then [] else PrintAgain(msgs[0]) + Reprint(msgs[1..])
  }

  // --------------------------------------------------------- sending streams

  datatype Send = Send(cmd: U16, body: seq<Byte>) {
    function Frame(): seq<Byte> {
      MakeMsg(cmd, body)
    }

    function AsMsg(): Msg {
      Msg(cmd, 0, body)
    }

    predicate Fits() {
      |body| < 0x1_0000_0000
    }
  }

  function Stream(sends: seq<Send>): seq<Byte> {
    if sends == [] then [] else sends[0].Frame() + Stream(sends[1..])
  }

  function Messages(sends: seq<Send>): (r: seq<Msg>)
    ensures |r| == |sends|
    ensures forall i :: 0 <= i < |r| ==> r[i] == sends[i].AsMsg()
  {
    if sends == [] then [] else [sends[0].AsMsg()] + Messages(sends[1..])
  }

  ghost predicate AllFit(sends: seq<Send>) {
    forall i :: 0 <= i < |sends| ==> sends[i].Fits()
  }

  lemma {:induction false} FrameReads(m: Send, tail: seq<Byte>)
    requires m.Fits()
    ensures var s := m.Frame() + tail;
            && |s| >= HEAD_SIZE && FrameEnd(s) == |m.Frame()| && s[FrameEnd(s)..] == tail
            && (FrameReady(s) <==> |s| > HEAD_SIZE)
            && (FrameReady(s) ==> FirstMsg(s) == m.AsMsg())
  {
    var s, h := m.Frame() + tail, Head(LenField(|m.body|), m.cmd, 0);
    assert s[..HEAD_SIZE] == PutHead(h);
    HeadRoundTrip(h, PutHead(h));
    assert s[HEAD_SIZE..FrameEnd(s)] == m.body;
  }

  lemma {:induction false} NothingDecodes()
    ensures Decode([]) == Decoded([], [])
  {
  }

  /** All that is sent, but for a last message without a body. */
  function Deliverable(sends: seq<Send>): seq<Send> {
    var n := |sends| - 1;
    if sends != [] && sends[n].body == [] then sends[..n] else sends
  }

  /** The header of such a last message. */
  function HeldBack(sends: seq<Send>): seq<Byte> {
    var n := |sends| - 1;
    if sends != [] && sends[n].body == [] then sends[n].Frame() else []
  }

  lemma {:induction false} DeliverableCons(sends: seq<Send>)
    requires |sends| > 1
    ensures Deliverable(sends) == [sends[0]] + Deliverable(sends[1..])
    ensures HeldBack(sends) == HeldBack(sends[1..])
    ensures Messages(Deliverable(sends)) == [sends[0].AsMsg()] + Messages(Deliverable(sends[1..]))
  {
    var rest := Deliverable(sends[1..]);
    assert ([sends[0]] + rest)[1..] == rest;
  }

  /** A whole stream decodes to everything sent, but for a last message without a body, whose header waits. */
  lemma {:induction false} StreamDecodes(sends: seq<Send>)
    requires AllFit(sends)
    ensures Decode(Stream(sends)) == Decoded(Messages(Deliverable(sends)), HeldBack(sends))
    decreases |sends|
  {
    NothingDecodes();
    if |sends| == 1 {
      OneFrameDecodes(sends[0]);
      assert sends == [sends[0]];
    } else if |sends| > 1 {
      hide Decode, Deliverable, HeldBack, MakeMsg;
      FrameThenTail(sends[0], Stream(sends[1..]));
      NotTheLast(sends[0], sends[1..]);
      StreamDecodes(sends[1..]);
      DeliverableCons(sends);
    }
  }

  lemma {:induction false} OneFrameDecodes(m: Send)
    requires m.Fits()
    ensures Stream([m]) == m.Frame()
    ensures Decode(Stream([m])) == Decoded(Messages(Deliverable([m])), HeldBack([m]))
  {
    hide MakeMsg;
    NothingDecodes();
    FrameThenTail(m, []);
    assert m.Frame() + [] == m.Frame() && [m][..0] == [];
  }

  /** Reading a stream takes its first frame off, unless that is a bare header and the end of the stream. */
  lemma {:induction false} FrameThenTail(m: Send, tail: seq<Byte>)
    requires m.Fits()
    ensures Decode(m.Frame() + tail) ==
              if m.body == [] && tail == [] then Decoded([], m.Frame() + tail)
              else Decoded([m.AsMsg()] + Decode(tail).msgs, Decode(tail).rest)
  {
    hide GetHead, FirstMsg, PutHead;
    FrameReads(m, tail);
  }

  lemma {:induction false} NotTheLast(m: Send, tail: seq<Send>)
    requires tail != []
    ensures Stream(tail) != []
  {
  }

  /** Whatever part of a stream has been read, the messages out of it are the first ones sent, in order. */
  lemma {:induction false} PrefixDecodes(sends: seq<Send>, n: nat)
    requires AllFit(sends) && n <= |Stream(sends)|
    ensures Decode(Stream(sends)[..n]).msgs <= Messages(sends)
  {
    hide Decode, Stream, Messages;
    var s := Stream(sends);
    DecodeInChunks(s[..n], s[n..]);
    assert s[..n] + s[n..] == s;
    StreamDecodes(sends);
    if sends != [] {
      MessagesPrefix(sends, |sends| - 1);
    }
  }

  lemma {:induction false} MessagesPrefix(sends: seq<Send>, k: nat)
    requires k <= |sends|
    ensures Messages(sends[..k]) == Messages(sends)[..k]
  {
  }

  /** Cutting the stream inside the first frame yields nothing yet. */
  lemma {:induction false} CutFrameWaits(m: Send, tail: seq<Byte>, n: nat)
    requires m.Fits() && n <= |m.Frame() + tail|
    requires n < |m.Frame()| || n <= HEAD_SIZE
    ensures !FrameReady((m.Frame() + tail)[..n])
  {
    var s := m.Frame() + tail;
    if n > HEAD_SIZE {
      FrameReads(m, tail);
      assert s[..n][..HEAD_SIZE] == s[..HEAD_SIZE];
    }
  }

  /** The i-th message is out exactly when its frame has been read and at least one byte beyond its header. */
  lemma {:induction false} DeliveredExactly(sends: seq<Send>, n: nat, i: nat)
    requires AllFit(sends) && n <= |Stream(sends)| && i < |sends|
    ensures i < |Decode(Stream(sends)[..n]).msgs| <==>
              |Stream(sends[..i + 1])| <= n && |Stream(sends[..i])| + HEAD_SIZE < n
    decreases |sends|
  {
    hide GetHead, FirstMsg, PutHead;
    var m, tail, s := sends[0], sends[1..], Stream(sends);
    var size := |m.Frame()|;
    assert Stream(sends[..1]) == m.Frame() by {
      assert sends[..1] == [m] && m.Frame() + [] == m.Frame();
    }
    assert i > 0 ==> |Stream(sends[..i])| >= size by {
      if i > 0 {
        StreamFront(sends, i);
      }
    }
    StreamFront(sends, i + 1);
    if n < size || n <= HEAD_SIZE {
      CutFrameWaits(m, Stream(tail), n);
    } else {
      assert s[..n] == m.Frame() + Stream(tail)[..n - size];
      FrameReads(m, Stream(tail)[..n - size]);
      if i > 0 {
        StreamFront(sends, i);
        DeliveredExactly(tail, n - size, i - 1);
      }
    }
  }

  lemma {:induction false} StreamFront(sends: seq<Send>, i: nat)
    requires 0 < i <= |sends|
    ensures |Stream(sends[..i])| == |sends[0].Frame()| + |Stream(sends[1..][..i - 1])|
  {
    assert sends[..i][1..] == sends[1..][..i - 1];
  }

  /** One message without a body: all its bytes have been read and nothing has come out. */
  lemma {:induction false} BareHeaderWaits(cmd: U16)
    ensures Decode(Stream([Send(cmd, [])])) == Decoded([], PutHead(Head(0, cmd, 0)))
  {
    OneFrameDecodes(Send(cmd, []));
    assert [Send(cmd, [])][..0] == [];
  }

  /** A body of exactly 2^32 bytes is announced as empty. */
  lemma {:induction false} FourGigabytesReadAsNothing(cmd: U16, next: Byte)
    ensures var data := seq(0x1_0000_0000, _ => 0 as Byte);
            var d := Decode(MakeMsg(cmd, data) + [next]);
            d.msgs != [] && d.msgs[0] == Msg(cmd, 0, []) && |data| > 0
  {
    var data := seq(0x1_0000_0000, _ => 0 as Byte);
    var h, s := Head(0, cmd, 0), MakeMsg(cmd, data) + [next];
    assert s[..HEAD_SIZE] == PutHead(h);
    HeadRoundTrip(h, PutHead(h));
  }

  /** A frame is read back as sent exactly when its body size fits the 32-bit length field. */
  lemma {:induction false} FrameRoundTripIff(cmd: U16, data: seq<Byte>, next: Byte)
    ensures var d := Decode(MakeMsg(cmd, data) + [next]);
            (d.msgs != [] && d.msgs[0] == Msg(cmd, 0, data)) <==> |data| < 0x1_0000_0000
  {
    if |data| < 0x1_0000_0000 {
      FrameReads(Send(cmd, data), [next]);
    } else {
      var h, s := Head(LenField(|data|), cmd, 0), MakeMsg(cmd, data) + [next];
      assert s[..HEAD_SIZE] == PutHead(h);
      HeadRoundTrip(h, PutHead(h));
    }
  }
}
