/**
 What the protocol promises over whole sessions, whatever the chunking of the
 bytes and however often the connection is begun, closed and begun again.
 */
module Sessions {
  import opened Frames
  import opened Protocol

  lemma {:induction false} NoticesAppend(a: seq<Msg>, b: seq<Msg>)
    ensures Notices(a + b) == Notices(a) + Notices(b)
  {
  }

  lemma {:induction false} UpdatesAppend(m: nat, n: nat)
    ensures Updates(m) + Updates(n) == Updates(m + n)
  {
  }

  lemma {:induction false} PostedAppend(s: Session, a: seq<Msg>, b: seq<Msg>)
    ensures s.posted + Notices(a) + Notices(b) == s.posted + Notices(a + b)
    ensures s.monitor + Updates(|a|) + Updates(|b|) == s.monitor + Updates(|a + b|)
  {
    hide Notices, Updates;
    NoticesAppend(a, b);
    UpdatesAppend(|a|, |b|);
  }

  /** Two reads are one read of both chunks, in every session state. */
  lemma {:induction false} ReadInChunks(s: Session, a: seq<Byte>, b: seq<Byte>, monitored: bool)
    ensures Read(Read(s, a, monitored), b, monitored) == Read(s, a + b, monitored)
  {
    hide Decode, Notices, Updates;
    DecodeInChunks(s.pending + a, b);
    assert s.pending + (a + b) == s.pending + a + b;
    var d := Decode(s.pending + a);
    var e := Decode(d.rest + b);
    PostedAppend(s, d.msgs, e.msgs);
  }

  /** The parser is between chunks: nothing it holds is ready to be posted. */
  predicate Waiting(s: Session) {
    !FrameReady(s.pending)
  }

  function Flatten(chunks: seq<seq<Byte>>): seq<Byte> {
    if chunks == [] then [] else Flatten(chunks[..|chunks| - 1]) + chunks[|chunks| - 1]
  }

  function ReadEach(s: Session, chunks: seq<seq<Byte>>, monitored: bool): Session {
    if chunks == [] then s
    else Read(ReadEach(s, chunks[..|chunks| - 1], monitored), chunks[|chunks| - 1], monitored)
  }

  /** Any chunking of the bytes posts the same and leaves the same state. */
  lemma {:induction false} AnyChunking(s: Session, chunks: seq<seq<Byte>>, monitored: bool)
    requires Waiting(s)
    ensures ReadEach(s, chunks, monitored) == Read(s, Flatten(chunks), monitored)
    ensures Waiting(ReadEach(s, chunks, monitored))
  {
    if chunks == [] {
      assert s.pending + [] == s.pending;
      assert s.posted + [] == s.posted && s.monitor + [] == s.monitor;
    } else {
      var n := |chunks| - 1;
      AnyChunking(s, chunks[..n], monitored);
      ReadInChunks(s, Flatten(chunks[..n]), chunks[n], monitored);
      RestIsNotReady(s.pending + Flatten(chunks));
    }
  }

  // ------------------------------------------------------ sessions and breaks

  datatype Happening = Opened | Connected | ConnectFailed | Closed | Got(data: seq<Byte>) {
    predicate Resets() {
      Opened? || Connected?
    }

    predicate Breaks() {
      ConnectFailed? || Closed?
    }
  }

  function After(s: Session, h: Happening, monitored: bool): Session {
    match h
    case Opened => Told(Reset(s), monitored, [MonitorAdd])
    case Connected => Reset(s)
    case ConnectFailed => Break(s)
    case Closed => Break(Told(s, monitored, [MonitorDel]))
    case Got(data) => Read(s, data, monitored)
  }

  function AfterAll(s: Session, hs: seq<Happening>, monitored: bool): Session {
    if hs == [] then s else After(AfterAll(s, hs[..|hs| - 1], monitored), hs[|hs| - 1], monitored)
  }

  function Breaks(posted: seq<Notice>): nat {
    if posted == [] then 0 else Breaks(posted[..|posted| - 1]) + if posted[|posted| - 1].Broken? then 1 else 0
  }

  lemma {:induction false} BreaksAppend(a: seq<Notice>, b: seq<Notice>)
    ensures Breaks(a + b) == Breaks(a) + Breaks(b)
  {
    if b == [] {
      assert a + b == a;
    } else {
      var n := |b| - 1;
      assert (a + b)[..|a + b| - 1] == a + b[..n];
      BreaksAppend(a, b[..n]);
    }
  }

  lemma {:induction false} MessagesAreNoBreaks(msgs: seq<Msg>)
    ensures Breaks(Notices(msgs)) == 0
  {
    if msgs == [] {
    } else {
      var n := |msgs| - 1;
      MessagesAreNoBreaks(msgs[..n]);
      assert Notices(msgs)[..n] == Notices(msgs[..n]);
    }
  }

  lemma {:induction false} BreakStep(t: Session, h: Happening, monitored: bool)
    requires !h.Resets()
    ensures var u := After(t, h, monitored);
            && t.posted <= u.posted && (u.broken <==> t.broken || h.Breaks())
            && Breaks(u.posted) == Breaks(t.posted) + if u.broken && !t.broken then 1 else 0
  {
    hide Decode, Notices, Breaks;
    match h
    case Got(data) =>
      var msgs := Decode(t.pending + data).msgs;
      BreaksAppend(t.posted, Notices(msgs));
      MessagesAreNoBreaks(msgs);
    case _ =>
      BreaksAppend(t.posted, [Broken]);
      OneBreak();
  }

  lemma {:induction false} OneBreak()
    ensures Breaks([Broken]) == 1
  {
  }

  /** Until the next reset a session posts one break notice if it breaks at all, and only ever appends. */
  lemma {:induction false} BreakNoticeOnce(s: Session, hs: seq<Happening>, monitored: bool)
    requires forall i :: 0 <= i < |hs| ==> !hs[i].Resets()
    ensures var s0 := Reset(s);
            var s1 := AfterAll(s0, hs, monitored);
            && s0.posted <= s1.posted
            && (s1.broken <==> exists i :: 0 <= i < |hs| && hs[i].Breaks())
            && Breaks(s1.posted) == Breaks(s0.posted) + if s1.broken then 1 else 0
  {
    hide After, Breaks;
    if hs == [] {
    } else {
      var before, h := hs[..|hs| - 1], hs[|hs| - 1];
      BreakNoticeOnce(s, before, monitored);
      BreakStep(AfterAll(Reset(s), before, monitored), h, monitored);
      assert forall i :: 0 <= i < |before| ==> before[i] == hs[i];
    }
  }

  lemma {:induction false} PostsOnlyAppend(s0: Session, hs: seq<Happening>, k: nat, monitored: bool)
    requires k <= |hs| && forall i :: k <= i < |hs| ==> !hs[i].Resets()
    ensures AfterAll(s0, hs[..k], monitored).posted <= AfterAll(s0, hs, monitored).posted
  {
    hide After, Breaks;
    if k == |hs| {
      assert hs[..k] == hs;
    } else {
      var n := |hs| - 1;
      assert hs[..n][..k] == hs[..k];
      PostsOnlyAppend(s0, hs[..n], k, monitored);
      BreakStep(AfterAll(s0, hs[..n], monitored), hs[n], monitored);
    }
  }

  /** The notice comes right behind everything posted before the break, and ahead of everything after it. */
  lemma {:induction false} BreakNoticeInPlace(s: Session, hs: seq<Happening>, k: nat, monitored: bool)
    requires forall i :: 0 <= i < |hs| ==> !hs[i].Resets()
    requires k < |hs| && hs[k].Breaks() && forall i :: 0 <= i < k ==> !hs[i].Breaks()
    ensures AfterAll(Reset(s), hs[..k], monitored).posted + [Broken] <= AfterAll(Reset(s), hs, monitored).posted
  {
    var before := hs[..k];
    BreakNoticeOnce(s, before, monitored);
    hide Decode, Breaks, AfterAll;
    FirstBreak(AfterAll(Reset(s), before, monitored), hs[k], monitored);
    AfterOneMore(Reset(s), hs, k, monitored);
    PostsOnlyAppend(Reset(s), hs, k + 1, monitored);
  }

  lemma {:induction false} FirstBreak(t: Session, h: Happening, monitored: bool)
    requires h.Breaks() && !t.broken
    ensures After(t, h, monitored).posted == t.posted + [Broken]
  {
  }

  lemma {:induction false} AfterOneMore(s0: Session, hs: seq<Happening>, k: nat, monitored: bool)
    requires k < |hs|
    ensures AfterAll(s0, hs[..k + 1], monitored) == After(AfterAll(s0, hs[..k], monitored), hs[k], monitored)
  {
    assert hs[..k + 1][..k] == hs[..k];
  }

  /** After a reset the parser behaves like a new one, whatever it held before. */
  lemma {:induction false} ResetForgets(s: Session, hs: seq<Happening>, monitored: bool)
    ensures var anew := AfterAll(NEW_SESSION, hs, monitored);
            AfterAll(Reset(s), hs, monitored) ==
              Session(anew.pending, anew.broken, s.posted + anew.posted, s.monitor + anew.monitor)
  {
    hide Decode;
    if hs == [] {
      assert s.posted + [] == s.posted && s.monitor + [] == s.monitor;
    } else {
      var before, h := hs[..|hs| - 1], hs[|hs| - 1];
      ResetForgets(s, before, monitored);
      var anew := AfterAll(NEW_SESSION, before, monitored);
      AfterShifts(s, anew, h, monitored);
    }
  }

  /** Being opened, or connected, starts a session on a new parser, behind all that was posted before. */
  lemma {:induction false} SessionsBeginAnew(s: Session, h: Happening, hs: seq<Happening>, monitored: bool)
    requires h.Opened? || h.Connected?
    ensures var anew := AfterAll(NEW_SESSION, hs, monitored);
            var added := if h.Opened? && monitored then [MonitorAdd] else [];
            AfterAll(After(s, h, monitored), hs, monitored) ==
              Session(anew.pending, anew.broken, s.posted + anew.posted, s.monitor + added + anew.monitor)
  {
    hide Decode;
    var s0 := After(s, h, monitored);
    assert s0 == Reset(s0);
    ResetForgets(s0, hs, monitored);
    assert s.monitor + [] == s.monitor;
  }

  /** What was posted earlier has no influence on what happens next. */
  lemma {:induction false} AfterShifts(s: Session, t: Session, h: Happening, monitored: bool)
    ensures var u := After(t, h, monitored);
            After(Session(t.pending, t.broken, s.posted + t.posted, s.monitor + t.monitor), h, monitored) ==
              Session(u.pending, u.broken, s.posted + u.posted, s.monitor + u.monitor)
  {
    hide Decode, Notices, Updates;
    match h
    case Got(data) =>
      var d := Decode(t.pending + data);
      assert s.posted + t.posted + Notices(d.msgs) == s.posted + (t.posted + Notices(d.msgs));
      assert s.monitor + t.monitor + Updates(|d.msgs|) == s.monitor + (t.monitor + Updates(|d.msgs|));
    case Opened => assert s.monitor + t.monitor + [MonitorAdd] == s.monitor + (t.monitor + [MonitorAdd]);
    case Connected =>
    case ConnectFailed => assert s.posted + t.posted + [Broken] == s.posted + (t.posted + [Broken]);
    case Closed =>
      assert s.posted + t.posted + [Broken] == s.posted + (t.posted + [Broken]);
      assert s.monitor + t.monitor + [MonitorDel] == s.monitor + (t.monitor + [MonitorDel]);
  }

  /** While it lasts, a monitored session adds its connection once and updates it once for each message. */
  lemma {:induction false} OpenSessionIsWatched(s: Session, chunks: seq<seq<Byte>>)
    ensures var read := ReadEach(After(s, Opened, true), chunks, true);
            var msgs := Decode(Flatten(chunks)).msgs;
            && read.monitor == s.monitor + [MonitorAdd] + Updates(|msgs|)
            && read.posted == s.posted + Notices(msgs) && !read.broken
  {
    var begun := After(s, Opened, true);
    AnyChunking(begun, chunks, true);
    assert begun.pending + Flatten(chunks) == Flatten(chunks);
  }

  /** One monitored session adds its connection once, updates it once for each message, and removes it last. */
  lemma {:induction false} MonitorSeesOneSession(s: Session, chunks: seq<seq<Byte>>)
    ensures var begun := After(s, Opened, true);
            var msgs := Decode(Flatten(chunks)).msgs;
            var closed := After(ReadEach(begun, chunks, true), Closed, true);
            && closed.monitor == s.monitor + [MonitorAdd] + Updates(|msgs|) + [MonitorDel]
            && closed.posted == s.posted + Notices(msgs) + [Broken]
  {
    OpenSessionIsWatched(s, chunks);
  }
}
