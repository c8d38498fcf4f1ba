/**
 The connection protocol object: an incremental parser that may be handed any
 number of bytes at a time, and the notices it posts.
 */
module Protocol {
  import opened Frames

  /** A task posted to the io service: a message, or the notice that the connection broke. */
  datatype Notice = Received(msg: Msg) | Broken

  /** A call forwarded to the connection monitor. */
  datatype MonitorCall = MonitorAdd | MonitorUpdate | MonitorDel

  function Notices(msgs: seq<Msg>): (r: seq<Notice>)
    ensures |r| == |msgs|
    ensures forall i :: 0 <= i < |r| ==> r[i] == Received(msgs[i])
  {
    if msgs == [] then [] else Notices(msgs[..|msgs| - 1]) + [Received(msgs[|msgs| - 1])]
  }

  function Updates(n: nat): (r: seq<MonitorCall>)
    ensures |r| == n
    ensures forall i :: 0 <= i < n ==> r[i] == MonitorUpdate
  {
    if n == 0 then [] else Updates(n - 1) + [MonitorUpdate]
  }

  /** The session as a value: the bytes since the last message boundary and everything posted. */
  datatype Session = Session(pending: seq<Byte>, broken: bool, posted: seq<Notice>, monitor: seq<MonitorCall>)

  const NEW_SESSION := Session([], false, [], [])

  function Told(s: Session, monitored: bool, calls: seq<MonitorCall>): Session {
    if monitored then s.(monitor := s.monitor + calls) else s
  }

  function Reset(s: Session): Session {
    s.(pending := [], broken := false)
  }

  function Break(s: Session): Session {
    if s.broken then s else s.(broken := true, posted := s.posted + [Broken])
  }

  function Read(s: Session, data: seq<Byte>, monitored: bool): Session {
    var d := Decode(s.pending + data);
    Told(s.(pending := d.rest, posted := s.posted + Notices(d.msgs)), monitored, Updates(|d.msgs|))
  }

  class Protocol {
    const head: array<Byte>
    var msgSize: nat
    var body: seq<Byte>
    var isBroken: bool
    var posted: seq<Notice>
    var monitorCalls: seq<MonitorCall>
    var readsAsked: nat

    ghost predicate Valid()
      reads this, head
    {
      && head.Length == HEAD_SIZE
      && (msgSize < HEAD_SIZE ==> body == [])
      && (msgSize >= HEAD_SIZE ==>
            && msgSize == HEAD_SIZE + |body|
            && (|body| < HeadNow().len as nat || |body| == HeadNow().len as nat == 0))
    }

    /** The header struct as its bytes stand, stale or not. */
    function HeadNow(): Head
      requires head.Length == HEAD_SIZE
      reads head
    {
      GetHead(head[..])
    }

    predicate HeadIsRead()
      reads this
    {
      msgSize >= HEAD_SIZE
    }

    predicate BodyIsRead()
      requires head.Length == HEAD_SIZE
      reads this, head
    {
      HeadNow().len as nat == |body|
    }

    /** The bytes received since the last message boundary. */
    ghost function Pending(): seq<Byte>
      requires Valid()
      reads this, head
    {
      if msgSize < HEAD_SIZE then head[..msgSize] else head[..] + body
    }

    ghost function View(): Session
      requires Valid()
      reads this, head
    {
      Session(Pending(), isBroken, posted, monitorCalls)
    }

    constructor ()
      ensures Valid() && View() == NEW_SESSION && fresh(head)
    {
      head := new Byte[HEAD_SIZE](_ => 0);
      msgSize, body, isBroken, posted, monitorCalls, readsAsked := 0, [], false, [], [], 0;
    }

    method ResetSession()
      requires Valid()
      modifies this`msgSize, this`isBroken, this`body
      ensures Valid() && View() == Reset(old(View()))
    {
      msgSize := 0;
      isBroken := false;
      body := [];
    }

    /** Ask the connection for its next chunk. */
    method AskRead()
      requires Valid()
      modifies this`readsAsked
      ensures Valid() && View() == old(View()) && readsAsked == old(readsAsked) + 1
    {
      readsAsked := readsAsked + 1;
    }

    /** Copy header bytes into place. */
    method ReadHead(data: seq<Byte>, pos: nat) returns (tmp: nat)
      requires Valid() && pos < |data| && msgSize < HEAD_SIZE
      modifies this`msgSize, head
      ensures Valid() && 0 < tmp && pos + tmp <= |data|
      ensures Pending() == old(Pending()) + data[pos..pos + tmp]
    {
      tmp := HEAD_SIZE - msgSize;
      if tmp > |data| - pos {
        tmp := |data| - pos;
      }
      ghost var before := Pending();
      forall i | 0 <= i < tmp {
        head[msgSize + i] := data[pos + i];
      }
      msgSize := msgSize + tmp;
      assert head[..msgSize] == before + data[pos..pos + tmp];
      assert msgSize == HEAD_SIZE ==> head[..] == head[..msgSize] + [];
    }

    /** Append body bytes; the subtraction does not underflow. */
    method ReadBody(data: seq<Byte>, pos: nat) returns (tmp: nat)
      requires Valid() && pos < |data| && msgSize >= HEAD_SIZE
      modifies this`msgSize, this`body
      ensures pos + tmp <= |data| && body == old(body) + data[pos..pos + tmp]
      ensures msgSize == HEAD_SIZE + |body| && |body| <= HeadNow().len as nat
      ensures |body| < HeadNow().len as nat ==> pos + tmp == |data|
      ensures tmp == 0 ==> HeadNow().len as nat == |body|
    {
      tmp := HEAD_SIZE + HeadNow().len as nat - msgSize;
      if tmp > |data| - pos {
        tmp := |data| - pos;
      }
      body := body + data[pos..pos + tmp];
      msgSize := msgSize + tmp;
    }

    /** Post the finished message and start over on a cleared header. */
    method Deliver(passive: bool, monitored: bool)
      requires head.Length == HEAD_SIZE && msgSize == HEAD_SIZE + |body| && BodyIsRead()
      modifies this`posted, this`monitorCalls, this`msgSize, this`body, head
      ensures Valid() && Pending() == [] && !HeadIsRead()
      ensures posted == old(posted) + [Received(Msg(old(HeadNow()).cmd, old(HeadNow()).res, old(body)))]
      ensures monitorCalls == old(monitorCalls) + if passive && monitored then [MonitorUpdate] else []
    {
      if passive {
        if monitored {
          monitorCalls := monitorCalls + [MonitorUpdate];
        }
      }
      posted := posted + [Received(Msg(HeadNow().cmd, HeadNow().res, body))];
      forall i | 0 <= i < HEAD_SIZE {
        head[i] := 0;
      }
      msgSize := 0;
      body := [];
    }

    /** The body branch of the read loop: at most one message comes out, and it is the next of the stream. */
    method TakeBody(data: seq<Byte>, pos: nat, passive: bool, monitored: bool)
      returns (tmp: nat, ghost out: seq<Msg>)
      requires Valid() && pos < |data| && HeadIsRead()
      modifies this`posted, this`monitorCalls, this`msgSize, this`body, head
      ensures Valid() && pos + tmp <= |data| && (tmp == 0 ==> !HeadIsRead())
      ensures posted == old(posted) + Notices(out)
      ensures monitorCalls == old(monitorCalls) + if passive && monitored then Updates(|out|) else []
      ensures Decode(old(Pending()) + data[pos..]) == Continued(out, Decode(Pending() + data[pos + tmp..]))
    {
      hide GetHead, Decode;
      ghost var s := Pending() + data[pos..];
      tmp := ReadBody(data, pos);
      ghost var left := data[pos + tmp..];
      assert data[pos..] == data[pos..pos + tmp] + left;
      assert s == head[..] + body + left;
      out := [];
      if BodyIsRead() {
        NextMessage(head[..], body, left, s);
        out := [Msg(HeadNow().cmd, HeadNow().res, body)];
        Deliver(passive, monitored);
        assert Notices(out) == [Received(out[0])] && Updates(1) == [MonitorUpdate];
        assert Pending() + left == left;
      } else {
        assert Pending() + left == s;
      }
    }

    method OnRead(data: seq<Byte>, passive: bool, monitored: bool) returns (r: int)
      requires Valid()
      modifies this`posted, this`monitorCalls, this`msgSize, this`body, this`readsAsked, head
      ensures Valid() && View() == Read(old(View()), data, passive && monitored)
      ensures r == 0 && readsAsked == old(readsAsked) + 1
    {
      hide Valid, Pending, GetHead, Decode, Notices, Updates, Continued;
      NothingYet();
      var pos := 0;
      ghost var all, done := Pending() + data, [];
      assert data[pos..] == data;
      while pos < |data|
        invariant Valid() && pos <= |data|
        invariant posted == old(posted) + Notices(done)
        invariant monitorCalls == old(monitorCalls) + if passive && monitored then Updates(|done|) else []
        invariant Decode(all) == Continued(done, Decode(Pending() + data[pos..]))
        invariant readsAsked == old(readsAsked)
        decreases |data| - pos, HeadIsRead()
      {
        ghost var s := Pending() + data[pos..];
        if !HeadIsRead() {
          var tmp := ReadHead(data, pos);
          pos := pos + tmp;
          assert Pending() + data[pos..] == s;
        } else {
          var tmp;
          ghost var out;
          tmp, out := TakeBody(data, pos, passive, monitored);
          pos := pos + tmp;
          ContinuedMore(done, out, Decode(Pending() + data[pos..]));
          done := done + out;
        }
      }
      assert Pending() + data[pos..] == Pending();
      WaitingDecodes(done);
      AskRead();
      r := 0;
    }

    lemma WaitingDecodes(done: seq<Msg>)
      requires Valid()
      ensures Continued(done, Decode(Pending())) == Decoded(done, Pending())
    {
      if msgSize >= HEAD_SIZE {
        assert Pending()[..HEAD_SIZE] == head[..];
      }
    }

    method OnRemoteOpen(passive: bool, monitored: bool)
      requires Valid()
      modifies this`monitorCalls, this`msgSize, this`isBroken, this`body, this`readsAsked
      ensures Valid() && View() == Told(Reset(old(View())), passive && monitored, [MonitorAdd])
      ensures readsAsked == old(readsAsked) + 1
    {
      if passive {
        if monitored {
          monitorCalls := monitorCalls + [MonitorAdd];
        }
      }
      ResetSession();
      AskRead();
    }

    method OnConnect(error: bool)
      requires Valid()
      modifies this`posted, this`msgSize, this`isBroken, this`body, this`readsAsked
      ensures Valid() && View() == if error then Break(old(View())) else Reset(old(View()))
      ensures readsAsked == old(readsAsked) + if error then 0 else 1
    {
      if error {
        PostBroken();
      } else {
        ResetSession();
        AskRead();
      }
    }

    method OnClosed(passive: bool, monitored: bool)
      requires Valid()
      modifies this`posted, this`monitorCalls, this`isBroken
      ensures Valid() && View() == Break(Told(old(View()), passive && monitored, [MonitorDel]))
    {
      if passive {
        if monitored {
          monitorCalls := monitorCalls + [MonitorDel];
        }
      }
      PostBroken();
    }

    method PostBroken()
      requires Valid()
      modifies this`posted, this`isBroken
      ensures Valid() && View() == Break(old(View()))
    {
      if isBroken {
        return;
      }
      isBroken := true;
      posted := posted + [Broken];
    }
  }

  function Continued(done: seq<Msg>, d: Decoded): Decoded {
    Decoded(done + d.msgs, d.rest)
  }

  lemma {:induction false} NothingYet()
    ensures Notices([]) == [] && Updates(0) == []
    ensures forall d :: Continued([], d) == d
  {
    assert forall d: Decoded :: [] + d.msgs == d.msgs;
  }

  lemma {:induction false} ContinuedMore(done: seq<Msg>, out: seq<Msg>, d: Decoded)
    ensures Continued(done, Continued(out, d)) == Continued(done + out, d)
    ensures Notices(done + out) == Notices(done) + Notices(out)
    ensures Updates(|done + out|) == Updates(|done|) + Updates(|out|)
  {
    assert done + (out + d.msgs) == done + out + d.msgs;
  }

  /** A complete frame with more to come, or with a body, is the next message of the stream. */
  lemma {:induction false} NextMessage(head: seq<Byte>, body: seq<Byte>, left: seq<Byte>, s: seq<Byte>)
    requires |head| == HEAD_SIZE && GetHead(head).len as nat == |body|
    requires s == head + body + left && |s| > HEAD_SIZE
    ensures Decode(s) ==
              Decoded([Msg(GetHead(head).cmd, GetHead(head).res, body)] + Decode(left).msgs, Decode(left).rest)
  {
    assert s[..HEAD_SIZE] == head && s[HEAD_SIZE..HEAD_SIZE + |body|] == body;
    assert s[HEAD_SIZE + |body|..] == left;
  }
}
