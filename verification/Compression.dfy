/**
 The compressing printers and the reader's inverse.  The codec itself is a
 parameter: whatever zlib returns, the frame around it must describe it.
 */
module Compression {
  import opened Wrappers
  import opened Frames

  /** What the string compressor reports, and what it leaves in its output either way. */
  datatype Deflated = Deflated(ok: bool, out: seq<Byte>)

  /**
   deflate: the length-returning compressor, None when it reports no length.
   deflateInto: the string compressor.  inflate: what the decompressor leaves
   in its output, its return code being ignored by the only caller.
   */
  datatype Codec = Codec(
    deflate: seq<Byte> -> Option<seq<Byte>>, deflateInto: seq<Byte> -> Deflated, inflate: seq<Byte> -> seq<Byte>)

  const FLAG: U16 := 0x8000
  const FILTER_SIZE: nat := 65535

  /** One entry for each command but the last, which has none. */
  type FilterTable = t: seq<bool> | |t| == FILTER_SIZE witness seq(FILTER_SIZE, _ => false)

  datatype Settings = Settings(open: bool, sizeLimit: nat, filter: FilterTable)

  /** The top bit of the result field. */
  predicate Flagged(res: U16): (r: bool)
    ensures r <==> res as int / 0x8000 % 2 == 1
  {
    res >= FLAG
  }

  function SetFlag(res: U16): (r: U16)
    ensures Flagged(r) && r as int % 0x8000 == res as int % 0x8000
  {
    if Flagged(res) then res else res + FLAG
  }

  /** The first printer's lookup is out of the table's range. */
  predicate PastTable(cfg: Settings, cmd: U16, data: seq<Byte>) {
    cfg.open && |data| >= cfg.sizeLimit && cmd as nat >= FILTER_SIZE
  }

  /** The payload actually sent, when it is a compressed one. */
  function Compressed(cfg: Settings, codec: Codec, cmd: U16, data: seq<Byte>): Option<seq<Byte>>
    requires !PastTable(cfg, cmd, data)
  {
    if |data| < cfg.sizeLimit || !cfg.open || cfg.filter[cmd] then None
    else
      var out := codec.deflate(data);
      if out.Some? && out.value == [] then None else out
  }

  /** Overwrite the length and flag the result in a finished buffer. */
  function Patch(msg: seq<Byte>, len: U32): seq<Byte>
    requires |msg| >= HEAD_SIZE
  {
    var h := GetHead(msg[..HEAD_SIZE]);
    PutHead(Head(len, h.cmd, SetFlag(h.res))) + msg[HEAD_SIZE..]
  }

  /** The frame the first printer returns, unless it reads past the table. */
  function PrintedFrame(cfg: Settings, codec: Codec, cmd: U16, data: seq<Byte>): seq<Byte>
    requires !PastTable(cfg, cmd, data)
  {
    var c := Compressed(cfg, codec, cmd, data);
    if c.Some? then PutHead(Head(LenField(|c.value|), cmd, FLAG)) + c.value else MakeMsg(cmd, data)
  }

  datatype Printed = Printed(frame: seq<Byte>) | ReadsPastTable

  /** The first printer; it reads past the filter table for the last command, unless it never looks. */
  method CompressMsg(cfg: Settings, codec: Codec, cmd: U16, data: seq<Byte>) returns (r: Printed)
    ensures r.ReadsPastTable? <==> cfg.open && |data| >= cfg.sizeLimit && cmd == 0xFFFF
    ensures r.Printed? ==> r.frame == PrintedFrame(cfg, codec, cmd, data)
    ensures r.Printed? ==>
              var worth :=
                && cfg.open && |data| >= cfg.sizeLimit && !cfg.filter[cmd]
                && codec.deflate(data).Some? && codec.deflate(data).value != [];
              && |r.frame| >= HEAD_SIZE && ReadAs(r.frame).cmd == cmd
              && (Flagged(ReadAs(r.frame).res) <==> worth)
              && ReadAs(r.frame).body == (if worth then codec.deflate(data).value else data)
              && (Honest(r.frame) <==> |ReadAs(r.frame).body| < 0x1_0000_0000)
  {
    hide GetHead, PutHead;
    var h := Head(LenField(|data|), cmd, 0);
    var msg := PutHead(h);
    var plain := |data| < cfg.sizeLimit || !cfg.open;
    if !plain {
      if cmd as nat >= FILTER_SIZE {
        return ReadsPastTable;
      }
      plain := cfg.filter[cmd];
    }
    PrintedFrameIsHonest(cfg, codec, cmd, data);
    if plain {
      return Printed(msg + data);
    }
    match codec.deflate(data)
    case None => r := Printed(msg + data);
    case Some(dest) =>
      if dest == [] {
        r := Printed(msg + data);
      } else {
        msg := msg + dest;
        assert msg[..HEAD_SIZE] == PutHead(h) && msg[HEAD_SIZE..] == dest;
        HeadRoundTrip(h, PutHead(h));
        r := Printed(Patch(msg, LenField(|dest|)));
      }
  }

  /** Too small to compress, or compression is off. */
  predicate LeftAlone(cfg: Settings, src: seq<Byte>) {
    !cfg.open || |src| < cfg.sizeLimit + HEAD_SIZE
  }

  /** The frame the second printer makes of a finished one. */
  function Recompressed(cfg: Settings, codec: Codec, src: seq<Byte>): seq<Byte> {
    if LeftAlone(cfg, src) then src
    else
      var h, dest := GetHead(src[..HEAD_SIZE]), codec.deflateInto(src[HEAD_SIZE..]).out;
      PutHead(Head(LenField(|dest|), h.cmd, SetFlag(h.res))) + dest
  }

  /** The second printer ignores whether its codec succeeded, but always describes what it sends. */
  method CompressFrame(cfg: Settings, codec: Codec, src: seq<Byte>) returns (msg: seq<Byte>)
    ensures msg == Recompressed(cfg, codec, src)
    ensures LeftAlone(cfg, src) ==> msg == src
    ensures !LeftAlone(cfg, src) ==>
              && |msg| >= HEAD_SIZE && ReadAs(msg).cmd == ReadAs(src).cmd && Flagged(ReadAs(msg).res)
              && ReadAs(msg).body == codec.deflateInto(ReadAs(src).body).out
              && (Honest(msg) <==> |ReadAs(msg).body| < 0x1_0000_0000)
  {
    hide GetHead, PutHead;
    RecompressedIsHonest(cfg, codec, src);
    if !cfg.open {
      return src;
    }
    if |src| < cfg.sizeLimit + HEAD_SIZE {
      return src;
    }
    msg := src[..HEAD_SIZE];
    var dest := codec.deflateInto(src[HEAD_SIZE..]).out;
    msg := msg + dest;
    assert msg[..HEAD_SIZE] == src[..HEAD_SIZE] && msg[HEAD_SIZE..] == dest;
    msg := Patch(msg, LenField(|dest|));
  }

  function UncompressMsg(cfg: Settings, codec: Codec, res: U16, src: seq<Byte>): seq<Byte> {
    if !cfg.open then src else if Flagged(res) then codec.inflate(src) else src
  }

  /** What a reader with the given setting takes out of a message. */
  function Recovered(cfg: Settings, codec: Codec, m: Msg): seq<Byte> {
    UncompressMsg(cfg, codec, m.res, m.body)
  }

  // ------------------------------------------------------- honest frames

  /** A frame is honest when its length field counts exactly the bytes behind the header. */
  predicate Honest(frame: seq<Byte>) {
    |frame| >= HEAD_SIZE && GetHead(frame[..HEAD_SIZE]).len as nat == |frame| - HEAD_SIZE
  }

  /** The message an honest frame is read as. */
  function ReadAs(frame: seq<Byte>): Msg
    requires |frame| >= HEAD_SIZE
  {
    var h := GetHead(frame[..HEAD_SIZE]);
    Msg(h.cmd, h.res, frame[HEAD_SIZE..])
  }

  lemma {:induction false} HonestFramesAreRead(frame: seq<Byte>, tail: seq<Byte>)
    requires Honest(frame)
    ensures Decode(frame + tail) ==
              if |frame| == HEAD_SIZE && tail == [] then Decoded([], frame)
              else Decoded([ReadAs(frame)] + Decode(tail).msgs, Decode(tail).rest)
  {
    var s := frame + tail;
    assert s[..HEAD_SIZE] == frame[..HEAD_SIZE] && s[HEAD_SIZE..|frame|] == frame[HEAD_SIZE..];
    assert s[|frame|..] == tail;
  }

  lemma {:induction false} FrameParts(h: Head, payload: seq<Byte>)
    ensures var f := PutHead(h) + payload;
            f[..HEAD_SIZE] == PutHead(h) && f[HEAD_SIZE..] == payload && GetHead(f[..HEAD_SIZE]) == h
  {
    HeadRoundTrip(h, PutHead(h));
    assert (PutHead(h) + payload)[..HEAD_SIZE] == PutHead(h);
  }

  /** Length and flag always describe the payload, whatever the codec did. */
  lemma {:induction false} PrintedFrameIsHonest(cfg: Settings, codec: Codec, cmd: U16, data: seq<Byte>)
    requires !PastTable(cfg, cmd, data)
    ensures var frame, c := PrintedFrame(cfg, codec, cmd, data), Compressed(cfg, codec, cmd, data);
            && ReadAs(frame).cmd == cmd
            && (Flagged(ReadAs(frame).res) <==> c.Some?)
            && ReadAs(frame).body == (if c.Some? then c.value else data)
            && (Honest(frame) <==> |ReadAs(frame).body| < 0x1_0000_0000)
  {
    var c := Compressed(cfg, codec, cmd, data);
    if c.Some? {
      FrameParts(Head(LenField(|c.value|), cmd, FLAG), c.value);
    } else {
      FrameParts(Head(LenField(|data|), cmd, 0), data);
    }
  }

  /** The second printer replaces body and length, flags the result, and keeps the command. */
  lemma {:induction false} RecompressedIsHonest(cfg: Settings, codec: Codec, src: seq<Byte>)
    ensures !LeftAlone(cfg, src) ==>
              var frame, dest := Recompressed(cfg, codec, src), codec.deflateInto(src[HEAD_SIZE..]).out;
              && |frame| >= HEAD_SIZE
              && ReadAs(frame) == Msg(ReadAs(src).cmd, SetFlag(ReadAs(src).res), dest)
              && (Honest(frame) <==> |dest| < 0x1_0000_0000)
  {
    if !LeftAlone(cfg, src) {
      var h, dest := GetHead(src[..HEAD_SIZE]), codec.deflateInto(src[HEAD_SIZE..]).out;
      FrameParts(Head(LenField(|dest|), h.cmd, SetFlag(h.res)), dest);
    }
  }

  // ---------------------------------------------------------- round trips

  /** Print, carry in any stream, parse and uncompress: the body comes back when both ends agree on the setting. */
  lemma {:induction false} CodecRoundTrip(
      cfg: Settings, reader: Settings, codec: Codec, cmd: U16, data: seq<Byte>, tail: seq<Byte>)
    requires codec.deflate(data).Some? ==> codec.inflate(codec.deflate(data).value) == data
    requires !PastTable(cfg, cmd, data) && cfg.open == reader.open && Honest(PrintedFrame(cfg, codec, cmd, data))
    ensures var frame := PrintedFrame(cfg, codec, cmd, data);
            var d := Decode(frame + tail);
            if |frame| == HEAD_SIZE && tail == [] then data == [] && d == Decoded([], frame)
            else
              && d.msgs != [] && d.msgs[0].cmd == cmd
              && Recovered(reader, codec, d.msgs[0]) == data
              && d.msgs[1..] == Decode(tail).msgs && d.rest == Decode(tail).rest
  {
    hide Decode, GetHead, PutHead;
    PrintedFrameIsHonest(cfg, codec, cmd, data);
    HonestFramesAreRead(PrintedFrame(cfg, codec, cmd, data), tail);
  }

  /** A reader with its own setting recovers the body iff it was sent plain, or it inflates, or nothing was gained. */
  lemma {:induction false} RecoveredExactly(
      cfg: Settings, reader: Settings, codec: Codec, cmd: U16, data: seq<Byte>)
    requires codec.deflate(data).Some? ==> codec.inflate(codec.deflate(data).value) == data
    requires !PastTable(cfg, cmd, data)
    ensures var m, c := ReadAs(PrintedFrame(cfg, codec, cmd, data)), Compressed(cfg, codec, cmd, data);
            Recovered(reader, codec, m) == data <==> c.None? || reader.open || c.value == data
  {
    hide GetHead, PutHead;
    PrintedFrameIsHonest(cfg, codec, cmd, data);
  }

  lemma {:induction false} RecompressedReads(
      cfg: Settings, codec: Codec, cmd: U16, data: seq<Byte>, tail: seq<Byte>)
    ensures var frame, dest := Recompressed(cfg, codec, MakeMsg(cmd, data)), codec.deflateInto(data).out;
            var alone := !cfg.open || |data| < cfg.sizeLimit;
            && |frame| >= HEAD_SIZE
            && ReadAs(frame) == (if alone then Msg(cmd, 0, data) else Msg(cmd, FLAG, dest))
            && (Honest(frame) <==> |ReadAs(frame).body| < 0x1_0000_0000)
            && (Honest(frame) && (|frame| > HEAD_SIZE || tail != []) ==>
                  Decode(frame + tail) == Decoded([ReadAs(frame)] + Decode(tail).msgs, Decode(tail).rest))
  {
    hide Decode, PutHead, GetHead;
    var src, frame := MakeMsg(cmd, data), Recompressed(cfg, codec, MakeMsg(cmd, data));
    FrameParts(Head(LenField(|data|), cmd, 0), data);
    RecompressedIsHonest(cfg, codec, src);
    if Honest(frame) {
      HonestFramesAreRead(frame, tail);
    }
  }

  /**
   A message sent through the second printer, parsed out of any stream and
   uncompressed, comes back when it was left plain or the codec succeeded; of
   any other, what comes back is whatever the failed codec's output inflates to.
   */
  lemma {:induction false} RecompressedRoundTrip(
      cfg: Settings, codec: Codec, cmd: U16, data: seq<Byte>, tail: seq<Byte>)
    requires codec.deflateInto(data).ok ==> codec.inflate(codec.deflateInto(data).out) == data
    requires Honest(Recompressed(cfg, codec, MakeMsg(cmd, data)))
    requires tail != [] || |Recompressed(cfg, codec, MakeMsg(cmd, data))| > HEAD_SIZE
    ensures var d := Decode(Recompressed(cfg, codec, MakeMsg(cmd, data)) + tail);
            var safe := !cfg.open || |data| < cfg.sizeLimit || codec.deflateInto(data).ok;
            && d.msgs != [] && d.msgs[0].cmd == cmd && d.msgs[1..] == Decode(tail).msgs
            && (safe ==> Recovered(cfg, codec, d.msgs[0]) == data)
            && (!safe ==> Recovered(cfg, codec, d.msgs[0]) == codec.inflate(codec.deflateInto(data).out))
  {
    hide Decode, Recompressed, Honest;
    RecompressedReads(cfg, codec, cmd, data, tail);
  }

  /** A codec whose string compressor cannot even start: it reports failure and leaves no output. */
  function StillbornCodec(): Codec {
    Codec(_ => None, _ => Deflated(false, []), src => src)
  }

  /** With it every nonempty message that is large enough is lost: it arrives flagged and empty. */
  lemma {:induction false} FailedCodecLosesTheBody(cfg: Settings, cmd: U16, data: seq<Byte>, next: Byte)
    requires cfg.open && |data| >= cfg.sizeLimit && data != []
    ensures var d := Decode(Recompressed(cfg, StillbornCodec(), MakeMsg(cmd, data)) + [next]);
            && d.msgs == [Msg(cmd, FLAG, [])] && d.rest == [next]
            && Recovered(cfg, StillbornCodec(), d.msgs[0]) == [] != data
  {
    RecompressedReads(cfg, StillbornCodec(), cmd, data, [next]);
    assert Decode([next]) == Decoded([], [next]);
  }
}
