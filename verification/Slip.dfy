/** SLIP framing of lab8/tools/kflash.py: MAIXLoader.write and slip_reader (section "Protocol" of RFC 1055). */
module Slip {
  import opened Common

  type Bytes = seq<byte>

  const END: byte := 0xc0
  const ESC: byte := 0xdb
  const ESC_END: byte := 0xdc
  const ESC_ESC: byte := 0xdd

  // ---------- write ----------

  /** packet.replace(x, y) for a single byte x. */
  function Replace(s: Bytes, x: byte, y: Bytes): Bytes {
    if s == [] then [] else (if s[0] == x then y else [s[0]]) + Replace(s[1..], x, y)
  }

  /** The bytes that write sends for a packet: two replacements, one after the other. */
  function Frame(packet: Bytes): Bytes {
    [END] + Replace(Replace(packet, ESC, [ESC, ESC_ESC]), END, [ESC, ESC_END]) + [END]
  }

  function EscapeByte(b: byte): Bytes {
    if b == END then [ESC, ESC_END] else if b == ESC then [ESC, ESC_ESC] else [b]
  }

  /** Escaping in one pass, byte by byte. */
  function Escape(s: Bytes): Bytes {
    if s == [] then [] else EscapeByte(s[0]) + Escape(s[1..])
  }

  lemma {:induction false} ReplaceConcat(s: Bytes, t: Bytes, x: byte, y: Bytes)
    ensures Replace(s + t, x, y) == Replace(s, x, y) + Replace(t, x, y)
  {
    if s == [] {
      assert s + t == t;
    } else {
      assert (s + t)[1..] == s[1..] + t;
      ReplaceConcat(s[1..], t, x, y);
    }
  }

  /** The order of the two replacements is right: together they are the one-pass escape. */
  lemma {:induction false} ReplacesAreEscape(s: Bytes)
    ensures Replace(Replace(s, ESC, [ESC, ESC_ESC]), END, [ESC, ESC_END]) == Escape(s)
  {
    if s != [] {
      ReplacesAreEscape(s[1..]);
      var first := if s[0] == ESC then [ESC, ESC_ESC] else [s[0]];
      ReplaceConcat(first, Replace(s[1..], ESC, [ESC, ESC_ESC]), END, [ESC, ESC_END]);
      assert Replace([s[0]], END, [ESC, ESC_END])
             == (if s[0] == END then [ESC, ESC_END] else [s[0]]) + Replace([], END, [ESC, ESC_END]);
      assert Replace([ESC, ESC_ESC], END, [ESC, ESC_END]) == [ESC] + Replace([ESC_ESC], END, [ESC, ESC_END]);
      assert Replace([ESC_ESC], END, [ESC, ESC_END]) == [ESC_ESC] + Replace([], END, [ESC, ESC_END]);
    }
  }

  /** In the other order the escapes of END are escaped again: that is right exactly for packets without END. */
  lemma {:induction false} SwappedExactly(s: Bytes)
    ensures |Replace(Replace(s, END, [ESC, ESC_END]), ESC, [ESC, ESC_ESC])| >= |Escape(s)|
    ensures Replace(Replace(s, END, [ESC, ESC_END]), ESC, [ESC, ESC_ESC]) == Escape(s) <==> END !in s
  {
    if s != [] {
      var rest := Replace(Replace(s[1..], END, [ESC, ESC_END]), ESC, [ESC, ESC_ESC]);
      SwappedExactly(s[1..]);
      SwappedStep(s[0], s[1..]);
      assert s == [s[0]] + s[1..];
      if s[0] == END {
        assert |Replace(Replace(s, END, [ESC, ESC_END]), ESC, [ESC, ESC_ESC])| == 3 + |rest|;
      } else {
        assert Replace(Replace(s, END, [ESC, ESC_END]), ESC, [ESC, ESC_ESC]) == EscapeByte(s[0]) + rest;
        SameFront(EscapeByte(s[0]), rest, Escape(s[1..]));
      }
    }
  }

  lemma SameFront(a: Bytes, b: Bytes, c: Bytes)
    ensures a + b == a + c <==> b == c
  {
    if a + b == a + c {
      assert b == (a + b)[|a|..] && c == (a + c)[|a|..];
    }
  }

  lemma SwappedStep(b: byte, rest: Bytes)
    ensures Replace(Replace([b] + rest, END, [ESC, ESC_END]), ESC, [ESC, ESC_ESC]) ==
            (if b == END then [ESC, ESC_ESC, ESC_END] else EscapeByte(b))
              + Replace(Replace(rest, END, [ESC, ESC_END]), ESC, [ESC, ESC_ESC])
  {
    assert ([b] + rest)[1..] == rest;
    var first := if b == END then [ESC, ESC_END] else [b];
    ReplaceConcat(first, Replace(rest, END, [ESC, ESC_END]), ESC, [ESC, ESC_ESC]);
    assert Replace([b], ESC, [ESC, ESC_ESC])
           == (if b == ESC then [ESC, ESC_ESC] else [b]) + Replace([], ESC, [ESC, ESC_ESC]);
    assert Replace([ESC_END], ESC, [ESC, ESC_ESC]) == [ESC_END] + Replace([], ESC, [ESC, ESC_ESC]);
    assert Replace([ESC, ESC_END], ESC, [ESC, ESC_ESC]) == [ESC, ESC_ESC] + Replace([ESC_END], ESC, [ESC, ESC_ESC]);
  }

  /** The frame of no byte and of one byte; with `FrameOfBoth` every frame is determined by these. */
  lemma FrameOfOne(b: byte)
    ensures Frame([]) == [192, 192]
    ensures Frame([b]) == if b == 192 then [192, 219, 220, 192] else if b == 219 then [192, 219, 221, 192]
            else [192, b, 192]
  {
    ReplacesAreEscape([]);
    ReplacesAreEscape([b]);
    EscapeOne(b);
    assert Frame([b]) == [END] + EscapeByte(b) + [END];
  }

  lemma EscapeOne(b: byte)
    ensures Escape([b]) == EscapeByte(b)
  {
    assert Escape([b]) == EscapeByte(b) + Escape([]);
  }

  /** The frame of two packets put together. */
  lemma FrameOfBoth(p: Bytes, q: Bytes)
    ensures |Frame(p)| >= 2 && |Frame(q)| >= 2 && Frame(p + q) == Frame(p)[..|Frame(p)| - 1] + Frame(q)[1..]
  {
    EscapeConcat(p, q);
    Framed(p);
    Framed(q);
    Framed(p + q);
    Inside(Escape(p), Escape(q));
  }

  lemma Framed(p: Bytes)
    ensures Frame(p) == [END] + Escape(p) + [END]
  {
    ReplacesAreEscape(p);
  }

  lemma Inside(a: Bytes, b: Bytes)
    ensures [END] + (a + b) + [END] == ([END] + a + [END])[..1 + |a|] + ([END] + b + [END])[1..]
  {
  }

  lemma {:induction false} EscapeConcat(s: Bytes, t: Bytes)
    ensures Escape(s + t) == Escape(s) + Escape(t)
  {
    if s == [] {
      assert s + t == t;
    } else {
      assert (s + t)[1..] == s[1..] + t;
      EscapeConcat(s[1..], t);
    }
  }

  function Frames(packets: seq<Bytes>): Bytes {
    if packets == [] then [] else Frames(packets[..|packets| - 1]) + Frame(packets[|packets| - 1])
  }

  // ---------- slip_reader ----------

  /** partial_packet and in_escape. */
  datatype State = State(partial: Option<Bytes>, inEscape: bool)

  const IDLE := State(None, false)

  datatype Error = TimedOutHeader | TimedOutContent | InvalidHead(b: byte) | InvalidEscape(b: byte)

  datatype Outcome = Next(state: State, packet: Option<Bytes>) | Raise(error: Error)

  /** What the reader does with one byte. */
  function Step(s: State, b: byte): Outcome {
    match s.partial
    case None => if b == END then Next(State(Some([]), s.inEscape), None) else Raise(InvalidHead(b))
    case Some(p) =>
      if s.inEscape then
        if b == ESC_END then Next(State(Some(p + [END]), false), None)
        else if b == ESC_ESC then Next(State(Some(p + [ESC]), false), None)
        else Raise(InvalidEscape(b))
      else if b == ESC then Next(State(Some(p), true), None)
      else if b == END then Next(State(None, false), Some(p))
      else Next(State(Some(p + [b]), false), None)
  }

  /** The reader between bytes: an escape is only open inside a packet. */
  ghost predicate Sound(s: State) {
    s.partial.None? ==> !s.inEscape
  }

  /** The bytes of the frame that the reader is in. */
  ghost function Pending(s: State): Bytes {
    if s.partial.None? then [] else [END] + Escape(s.partial.value) + if s.inEscape then [ESC] else []
  }

  lemma {:induction false} EscapeSnoc(s: Bytes, b: byte)
    ensures Escape(s + [b]) == Escape(s) + EscapeByte(b)
  {
    if s == [] {
      assert s + [b] == [b];
      assert Escape([b]) == EscapeByte(b) + Escape([]);
    } else {
      assert (s + [b])[1..] == s[1..] + [b];
      EscapeSnoc(s[1..], b);
    }
  }

  /** The two bytes of an escape are what its byte is escaped to. */
  lemma EscapedByte(p: Bytes, b: byte)
    requires b == ESC_END || b == ESC_ESC
    ensures [END] + Escape(p) + [ESC] + [b] == [END] + Escape(p + [if b == ESC_END then END else ESC]) + []
  {
    var c := if b == ESC_END then END else ESC;
    EscapeSnoc(p, c);
    assert EscapeByte(c) == [ESC] + [b];
    assert [END] + Escape(p) + [ESC] + [b] == [END] + (Escape(p) + EscapeByte(c)) + [];
  }

  lemma PlainByte(p: Bytes, b: byte)
    requires b != END && b != ESC
    ensures [END] + Escape(p) + [] + [b] == [END] + Escape(p + [b]) + []
  {
    EscapeSnoc(p, b);
    assert [END] + Escape(p) + [] + [b] == [END] + (Escape(p) + [b]) + [];
  }

  /** A byte that the reader accepts goes into the pending frame, or completes it. */
  lemma StepKeeps(s: State, b: byte)
    requires Sound(s) && Step(s, b).Next?
    ensures var o := Step(s, b);
            && Sound(o.state)
            && Pending(s) + [b] == (if o.packet.Some? then Frame(o.packet.value) else []) + Pending(o.state)
  {
    if s.partial.Some? {
      var p := s.partial.value;
      if s.inEscape {
        EscapedByte(p, b);
      } else if b == END {
        ReplacesAreEscape(p);
      } else if b != ESC {
        PlainByte(p, b);
      }
    }
  }

  // ---------- whole streams ----------

  /** Everything the reader yields and where it stops. */
  datatype Run = Going(state: State, packets: seq<Bytes>) | Stopped(packets: seq<Bytes>, error: Error)

  function Feed(r: Run, b: byte): Run {
    match r
    case Stopped(_, _) => r
    case Going(s, packets) =>
      match Step(s, b)
      case Raise(e) => Stopped(packets, e)
      case Next(s', packet) => Going(s', if packet.Some? then packets + [packet.value] else packets)
  }

  function FeedAll(r: Run, stream: Bytes): Run {
    if stream == [] then r else Feed(FeedAll(r, stream[..|stream| - 1]), stream[|stream| - 1])
  }

  lemma {:induction false} FeedConcat(r: Run, a: Bytes, b: Bytes)
    ensures FeedAll(r, a + b) == FeedAll(FeedAll(r, a), b)
    decreases |b|
  {
    if b == [] {
      assert a + b == a;
    } else {
      var n := |b| - 1;
      assert (a + b)[..|a + b| - 1] == a + b[..n];
      FeedConcat(r, a, b[..n]);
    }
  }

  lemma StreamStep(seen: Bytes, s: State, packets: seq<Bytes>, b: byte)
    requires Sound(s) && seen == Frames(packets) + Pending(s) && Step(s, b).Next?
    ensures var r := Feed(Going(s, packets), b);
            r.Going? && Sound(r.state) && seen + [b] == Frames(r.packets) + Pending(r.state)
  {
    StepKeeps(s, b);
    var o := Step(s, b);
    var f, p, p' := Frames(packets), Pending(s), Pending(o.state);
    assert f + p + [b] == f + (p + [b]);
    if o.packet.Some? {
      var all := packets + [o.packet.value];
      assert all[..|all| - 1] == packets;
      var last := Frame(o.packet.value);
      assert Frames(all) == f + last;
      assert f + (last + p') == (f + last) + p';
    } else {
      assert [] + p' == p';
    }
  }

  /** As long as no error stops it, the reader has yielded exactly the packets whose frames make up the
      stream, but for the pending frame. */
  lemma {:induction false} StreamIsFrames(stream: Bytes)
    ensures var r := FeedAll(Going(IDLE, []), stream);
            r.Going? ==> Sound(r.state) && stream == Frames(r.packets) + Pending(r.state)
  {
    if stream != [] {
      var n := |stream| - 1;
      StreamIsFrames(stream[..n]);
      var before := FeedAll(Going(IDLE, []), stream[..n]);
      assert stream == stream[..n] + [stream[n]];
      if before.Going? && Step(before.state, stream[n]).Next? {
        StreamStep(stream[..n], before.state, before.packets, stream[n]);
      }
    }
  }

  lemma {:induction false} EscapedByteIsRead(packets: seq<Bytes>, p: Bytes, b: byte)
    ensures FeedAll(Going(State(Some(p), false), packets), EscapeByte(b)) == Going(State(Some(p + [b]), false), packets)
  {
    var r := Going(State(Some(p), false), packets);
    if b == END || b == ESC {
      var e := EscapeByte(b);
      assert e[..1] == [ESC] && [ESC][..0] == [];
      assert FeedAll(r, [ESC]) == Feed(FeedAll(r, []), ESC);
      assert FeedAll(r, e) == Feed(FeedAll(r, e[..1]), e[1]);
    } else {
      assert [b][..0] == [];
      assert FeedAll(r, [b]) == Feed(FeedAll(r, []), b);
    }
  }

  lemma {:induction false} EscapedBytesAreRead(packets: seq<Bytes>, p: Bytes, s: Bytes)
    ensures FeedAll(Going(State(Some(p), false), packets), Escape(s)) == Going(State(Some(p + s), false), packets)
    decreases |s|
  {
    if s == [] {
      assert p + s == p;
    } else {
      EscapedByteIsRead(packets, p, s[0]);
      FeedConcat(Going(State(Some(p), false), packets), EscapeByte(s[0]), Escape(s[1..]));
      EscapedBytesAreRead(packets, p + [s[0]], s[1..]);
      Regroup(p, s);
    }
  }

  lemma Regroup(p: Bytes, s: Bytes)
    requires s != []
    ensures p + [s[0]] + s[1..] == p + s
  {
  }

  lemma FrameIsRead(packets: seq<Bytes>, packet: Bytes)
    ensures FeedAll(Going(IDLE, packets), Frame(packet)) == Going(IDLE, packets + [packet])
  {
    ReplacesAreEscape(packet);
    var r := Going(IDLE, packets);
    FeedConcat(r, [END] + Escape(packet), [END]);
    FeedConcat(r, [END], Escape(packet));
    OneByte(r, END);
    EscapedBytesAreRead(packets, [], packet);
    assert [] + packet == packet;
    OneByte(Going(State(Some(packet), false), packets), END);
  }

  lemma OneByte(r: Run, b: byte)
    ensures FeedAll(r, [b]) == Feed(r, b)
  {
    assert [b][..0] == [];
    assert FeedAll(r, [b]) == Feed(FeedAll(r, []), b);
  }

  lemma {:induction false} FramesAreRead(packets: seq<Bytes>)
    ensures FeedAll(Going(IDLE, []), Frames(packets)) == Going(IDLE, packets)
    decreases |packets|
  {
    if packets != [] {
      var front, last, stream := LastFrame(packets);
      FramesAreRead(front);
      OneMoreFrame(stream, front, last);
    }
  }

  lemma LastFrame(packets: seq<Bytes>) returns (front: seq<Bytes>, last: Bytes, stream: Bytes)
    requires packets != []
    ensures packets == front + [last] && stream == Frames(front) && Frames(packets) == stream + Frame(last)
  {
    front, last := packets[..|packets| - 1], packets[|packets| - 1];
    stream := Frames(front);
  }

  lemma OneMoreFrame(stream: Bytes, packets: seq<Bytes>, packet: Bytes)
    requires FeedAll(Going(IDLE, []), stream) == Going(IDLE, packets)
    ensures FeedAll(Going(IDLE, []), stream + Frame(packet)) == Going(IDLE, packets + [packet])
  {
    FeedConcat(Going(IDLE, []), stream, Frame(packet));
    FrameIsRead(packets, packet);
  }

  /** A stream is read without an error and to the end of a packet exactly when it is a sequence of frames, and
      then it is the sequence of frames of the packets that were read. */
  lemma AcceptedExactly(stream: Bytes, packets: seq<Bytes>)
    ensures FeedAll(Going(IDLE, []), stream) == Going(IDLE, packets) <==> stream == Frames(packets)
  {
    if FeedAll(Going(IDLE, []), stream) == Going(IDLE, packets) {
      StreamIsFrames(stream);
      assert Frames(packets) + [] == Frames(packets);
    }
    if stream == Frames(packets) {
      FramesAreRead(packets);
    }
  }

  /** Bytes that finish the pending frame. */
  function Finish(s: State): Bytes {
    if s.partial.None? then [] else if s.inEscape then [ESC_END, END] else [END]
  }

  lemma FinishEnds(s: State, packets: seq<Bytes>)
    requires Sound(s)
    ensures var r := FeedAll(Going(s, packets), Finish(s));
            r.Going? && r.state == IDLE
  {
    var r, f := Going(s, packets), Finish(s);
    if s.partial.Some? && s.inEscape {
      assert f[..1] == [ESC_END] && [ESC_END][..0] == [];
      OneByte(r, ESC_END);
      assert FeedAll(r, f) == Feed(FeedAll(r, f[..1]), END);
    } else if s.partial.Some? {
      OneByte(r, END);
    }
  }

  /** The stream can be continued to a sequence of frames. */
  ghost predicate Continues(stream: Bytes) {
    exists rest, packets :: stream + rest == Frames(packets)
  }

  /** The reader raises no error on a stream exactly when the stream is the beginning of some sequence of frames. */
  lemma RefusedExactly(stream: Bytes)
    ensures FeedAll(Going(IDLE, []), stream).Going? <==> Continues(stream)
  {
    var r := FeedAll(Going(IDLE, []), stream);
    if r.Going? {
      StreamIsFrames(stream);
      FinishEnds(r.state, r.packets);
      var rest := Finish(r.state);
      FeedConcat(Going(IDLE, []), stream, rest);
      var packets := FeedAll(Going(IDLE, []), stream + rest).packets;
      AcceptedExactly(stream + rest, packets);
      assert stream + rest == Frames(packets);
    }
    if Continues(stream) {
      var rest, packets :| stream + rest == Frames(packets);
      AcceptedExactly(stream + rest, packets);
      FeedConcat(Going(IDLE, []), stream, rest);
      if r.Stopped? {
        Stays(r, rest);
      }
    }
  }

  /** So a byte is refused exactly when the bytes before it begin a sequence of frames and no such sequence goes on
      with it, and the error names it. */
  lemma ByteRefusedExactly(stream: Bytes, b: byte)
    requires Continues(stream)
    ensures FeedAll(Going(IDLE, []), stream + [b]).Stopped? <==> !Continues(stream + [b])
    ensures var r := FeedAll(Going(IDLE, []), stream + [b]);
            r.Stopped? ==> r.error == InvalidHead(b) || r.error == InvalidEscape(b)
  {
    RefusedExactly(stream);
    RefusedExactly(stream + [b]);
    FeedConcat(Going(IDLE, []), stream, [b]);
    OneByte(FeedAll(Going(IDLE, []), stream), b);
  }

  // ---------- the reader over reads of any length ----------

  class SlipReader {
    var partial: Option<Bytes>
    var inEscape: bool

    ghost function Snap(): State
      reads this
    {
      State(partial, inEscape)
    }

    constructor ()
      ensures Snap() == IDLE
    {
      partial, inEscape := None, false;
    }

    /** One turn of the outer loop, on the bytes of one read: the packets yielded, and the error raised if any. */
    method Read(bytes: Bytes) returns (packets: seq<Bytes>, error: Option<Error>)
      modifies this
      ensures bytes == [] ==> packets == []
                              && error == Some(if old(partial).None? then TimedOutHeader else TimedOutContent)
      ensures bytes != [] ==> FeedAll(Going(old(Snap()), []), bytes) ==
                              match error
                              case None => Going(Snap(), packets)
                              case Some(e) => Stopped(packets, e)
    {
      packets, error := [], None;
      if bytes == [] {
        return [], Some(if partial.None? then TimedOutHeader else TimedOutContent);
      }
      var i: nat := 0;
      while i < |bytes|
        invariant i <= |bytes| && error.None?
        invariant FeedAll(Going(old(Snap()), []), bytes[..i]) == Going(Snap(), packets)
      {
        ghost var before, yielded := Snap(), packets;
        var b := bytes[i];
        if partial.None? {
          if b == END {
            partial := Some([]);
          } else {
            error := Some(InvalidHead(b));
          }
        } else if inEscape {
          inEscape := false;
          if b == ESC_END {
            partial := Some(partial.value + [END]);
          } else if b == ESC_ESC {
            partial := Some(partial.value + [ESC]);
          } else {
            error := Some(InvalidEscape(b));
          }
        } else if b == ESC {
          inEscape := true;
        } else if b == END {
          packets := packets + [partial.value];
          partial := None;
        } else {
          partial := Some(partial.value + [b]);
        }
        assert bytes[..i + 1][..i] == bytes[..i];
        assert FeedAll(Going(old(Snap()), []), bytes[..i + 1]) == Feed(Going(before, yielded), b);
        if error.Some? {
          Stays(Stopped(packets, error.value), bytes[i + 1..]);
          FeedConcat(Going(old(Snap()), []), bytes[..i + 1], bytes[i + 1..]);
          assert bytes == bytes[..i + 1] + bytes[i + 1..];
          return;
        }
        i := i + 1;
      }
      assert bytes[..i] == bytes;
    }
  }

  /** Once it has raised, the generator does nothing more. */
  lemma {:induction false} Stays(r: Run, stream: Bytes)
    requires r.Stopped?
    ensures FeedAll(r, stream) == r
  {
    if stream != [] {
      Stays(r, stream[..|stream| - 1]);
    }
  }

  /** For every list of packets and every split of their frames into non-empty reads, the reader yields
      exactly those packets and is ready for the next. */
  method ReadBack(packets: seq<Bytes>, pieces: seq<Bytes>) returns (got: seq<Bytes>, ended: State)
    requires Concat(pieces) == Frames(packets) && forall i :: 0 <= i < |pieces| ==> pieces[i] != []
    ensures got == packets && ended == IDLE
  {
    var reader := new SlipReader();
    got := [];
    FramesAreRead(packets);
    var i: nat := 0;
    while i < |pieces|
      invariant i <= |pieces|
      invariant FeedAll(Going(IDLE, []), Concat(pieces[..i])) == Going(reader.Snap(), got)
    {
      assert pieces[..i + 1][..i] == pieces[..i];
      ghost var before := got;
      FeedConcat(Going(IDLE, []), Concat(pieces[..i]), pieces[i]);
      ReadsGoOn(pieces, i);
      YieldsAdd(reader.Snap(), got, pieces[i]);
      assert FeedAll(Going(IDLE, []), Concat(pieces[..i + 1])).Going?;
      var more, error := reader.Read(pieces[i]);
      got := got + more;
      i := i + 1;
    }
    assert pieces[..i] == pieces;
    ended := State(reader.partial, reader.inEscape);
  }

  /** A prefix of an accepted stream raises nothing. */
  lemma ReadsGoOn(pieces: seq<Bytes>, i: nat)
    requires i < |pieces| && FeedAll(Going(IDLE, []), Concat(pieces)).Going?
    ensures FeedAll(Going(IDLE, []), Concat(pieces[..i + 1])).Going?
  {
    ConcatSplit(pieces, i + 1);
    var a, b := Concat(pieces[..i + 1]), Concat(pieces[i + 1..]);
    FeedConcat(Going(IDLE, []), a, b);
    if FeedAll(Going(IDLE, []), a).Stopped? {
      Stays(FeedAll(Going(IDLE, []), a), b);
    }
  }

  lemma {:induction false} ConcatSplit(pieces: seq<Bytes>, k: nat)
    requires k <= |pieces|
    ensures Concat(pieces) == Concat(pieces[..k]) + Concat(pieces[k..])
    decreases |pieces| - k
  {
    if k == |pieces| {
      assert pieces[..k] == pieces && pieces[k..] == [];
    } else {
      var n := |pieces| - 1;
      ConcatSplit(pieces[..n], k);
      assert pieces[..n][..k] == pieces[..k] && pieces[..n][k..] == pieces[k..][..n - k];
      assert pieces[k..][|pieces[k..]| - 1] == pieces[n];
    }
  }

  /** Packets yielded before do not change what a read yields. */
  lemma {:induction false} YieldsAdd(s: State, before: seq<Bytes>, stream: Bytes)
    ensures FeedAll(Going(s, before), stream) ==
            match FeedAll(Going(s, []), stream)
            case Going(s', more) => Going(s', before + more)
            case Stopped(more, e) => Stopped(before + more, e)
  {
    if stream == [] {
      assert before + [] == before;
    } else {
      var n := |stream| - 1;
      YieldsAdd(s, before, stream[..n]);
      var r := FeedAll(Going(s, []), stream[..n]);
      if r.Going? {
        var o := Step(r.state, stream[n]);
        if o.Next? && o.packet.Some? {
          assert before + r.packets + [o.packet.value] == before + (r.packets + [o.packet.value]);
        }
      }
    }
  }
}
