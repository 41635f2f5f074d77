/**
 * Reference meaning of the backend framer (src/duplex/backend-framer.ts): a byte-at-a-time automaton and, above
 * it, a filter on lists of frames. A message is a type byte, an int32 length that counts itself, and a payload
 * (PostgreSQL documentation, Frontend/Backend Protocol, Message Formats).
 */
module BackendStream {
  import opened Bytes
  import opened Wrappers
  import RowDescription

  const READY_FOR_QUERY: byte := 0x5a
  const ERROR_RESPONSE: byte := 0x45
  const ROW_DESCRIPTION: byte := 0x54
  const COPY_IN_RESPONSE: byte := 0x47
  const MAX_MESSAGE_LENGTH: nat := 1_073_741_824

  /** A callback of the framer. */
  datatype Event = ErrorSeen | ReadyForQuery(status: byte)

  /** Where the automaton is within a frame. */
  datatype Phase =
    | Between(held: Option<byte>)               // at a frame boundary, perhaps holding a suppressed ReadyForQuery
    | Header(ty: byte, hdr: seq<byte>, dropping: bool)
    | StatusByte                                // ReadyForQuery, all but its status byte read
    | Forwarding(remaining: nat)                // payload that is passed on as it comes
    | Dropping(remaining: nat)                  // payload of the dropped CopyInResponse
    | Collecting(frame: seq<byte>, remaining: nat)  // RowDescription being gathered for the rewrite
    | EmptyRowDescription                       // RowDescription without payload, gathered and not yet passed on

  datatype Stream =
    | Stream(suppress: bool, rewrite: bool, armed: bool, phase: Phase, out: seq<byte>, trace: seq<Event>)
    | Broken(out: seq<byte>, trace: seq<Event>)   // a frame declared an impossible length

  const EMPTY_ROW_DESCRIPTION: seq<byte> := [ROW_DESCRIPTION, 0, 0, 0, 4]

  function RfqFrame(status: byte): seq<byte> {
    [READY_FOR_QUERY, 0, 0, 0, 5, status]
  }

  function Start(suppress: bool, rewrite: bool, armed: bool, out: seq<byte>, trace: seq<Event>): Stream {
    Stream(suppress, rewrite, armed, Between(None), out, trace)
  }

  /** Passes on a gathered RowDescription that has no payload. */
  function Settle(s: Stream): (t: Stream)
    ensures s.Stream? <==> t.Stream?
    ensures s.Stream? ==> !t.phase.EmptyRowDescription?
  {
    if s.Stream? && s.phase.EmptyRowDescription? then
      s.(phase := Between(None), out := s.out + EMPTY_ROW_DESCRIPTION)
    else s
  }

  /** `n` payload bytes are left: the frame ends when none are. */
  function Rest(n: nat, phase: Phase): Phase {
    if n == 0 then Between(None) else phase
  }

  /** Reads one byte. */
  function Step(s: Stream, b: byte): Stream {
    var s := Settle(s);
    if s.Broken? then s else
    match s.phase
    case Between(_) =>
      var drops := s.armed && b == COPY_IN_RESPONSE;
      s.(phase := Header(b, [], drops), armed := s.armed && !drops)
    case Header(ty, hdr, dropping) =>
      if |hdr| < 3 then s.(phase := Header(ty, hdr + [b], dropping))
      else if |hdr| == 3 then HeaderDone(s, ty, hdr + [b], dropping)
      else s
    case StatusByte =>
      var s := s.(trace := s.trace + [ReadyForQuery(b)]);
      if s.suppress then s.(phase := Between(Some(b)))
      else s.(phase := Between(None), out := s.out + RfqFrame(b))
    case Forwarding(n) =>
      s.(out := s.out + [b], phase := if n <= 1 then Between(None) else Forwarding(n - 1))
    case Dropping(n) =>
      s.(phase := if n <= 1 then Between(None) else Dropping(n - 1))
    case Collecting(frame, n) =>
      if n <= 1 then s.(phase := Between(None), out := s.out + RowDescription.Rewritten(frame + [b]))
      else s.(phase := Collecting(frame + [b], n - 1))
    case EmptyRowDescription => s
  }

  predicate GoodLength(length: nat) {
    4 <= length <= MAX_MESSAGE_LENGTH
  }

  /** All five header bytes are known. */
  function HeaderDone(s: Stream, ty: byte, hdr: seq<byte>, dropping: bool): Stream
    requires s.Stream? && |hdr| == 4
  {
    var length := U32At(hdr, 0);
    if !GoodLength(length) then Broken(s.out, s.trace) else
    var s := if ty == ERROR_RESPONSE then s.(trace := s.trace + [ErrorSeen]) else s;
    var n := length - 4;
    if ty == READY_FOR_QUERY && n == 1 then s.(phase := StatusByte)
    else s.(phase := PayloadPhase(s.rewrite, ty, hdr, n, dropping),
            out := if ForwardsHeader(s.rewrite, ty, dropping) then s.out + [ty] + hdr else s.out)
  }

  /** What `n` payload bytes are: dropped, gathered for the rewrite, or forwarded. */
  function PayloadPhase(rewrite: bool, ty: byte, hdr: seq<byte>, n: nat, dropping: bool): Phase {
    if dropping then Rest(n, Dropping(n))
    else if ty == ROW_DESCRIPTION && rewrite then
      if n == 0 then EmptyRowDescription else Collecting([ty] + hdr, n)
    else Rest(n, Forwarding(n))
  }

  predicate ForwardsHeader(rewrite: bool, ty: byte, dropping: bool) {
    !dropping && !(ty == ROW_DESCRIPTION && rewrite)
  }

  /** Reads a byte string. */
  function Run(s: Stream, bytes: seq<byte>): Stream
    decreases |bytes|
  {
    if bytes == [] then s else Run(Step(s, bytes[0]), bytes[1..])
  }

  /** The shortest chunk that can hold a whole frame. */
  const WHOLE_FRAME: nat := 5

  /**
   * Reads one chunk as the framer does. A RowDescription without payload that ends the chunk is passed on with it if
   * all of its five bytes can be there, and only with the next byte otherwise.
   */
  function ReadChunk(s: Stream, chunk: seq<byte>): Stream {
    if |chunk| >= WHOLE_FRAME then Settle(Run(s, chunk)) else Run(s, chunk)
  }

  function ReadChunks(s: Stream, chunks: seq<seq<byte>>): Stream {
    if chunks == [] then s else ReadChunk(ReadChunks(s, chunks[..|chunks| - 1]), chunks[|chunks| - 1])
  }

  // ---- Laws of the automaton ----

  lemma {:induction false} RunAppend(s: Stream, a: seq<byte>, b: seq<byte>)
    ensures Run(s, a + b) == Run(Run(s, a), b)
    decreases |a|
  {
    if a == [] {
      assert a + b == b;
    } else {
      assert (a + b)[1..] == a[1..] + b;
      RunAppend(Step(s, a[0]), a[1..], b);
    }
  }

  /** However a byte string is cut, reading the pieces one after the other is reading the whole. */
  lemma {:induction false} RunChunks(s: Stream, chunks: seq<seq<byte>>, last: seq<byte>)
    ensures Run(s, Flatten(chunks + [last])) == Run(Run(s, Flatten(chunks)), last)
  {
    FlattenSnoc(chunks, last);
    RunAppend(s, Flatten(chunks), last);
  }

  /** The size of the last chunk that is not empty. */
  function LastSize(chunks: seq<seq<byte>>): nat {
    if chunks == [] then 0
    else if chunks[|chunks| - 1] != [] then |chunks[|chunks| - 1]|
    else LastSize(chunks[..|chunks| - 1])
  }

  /** Only a RowDescription without payload at the very end depends on the chunks, and only on the last one. */
  lemma {:induction false} OnlyTheEndDependsOnChunks(s: Stream, chunks: seq<seq<byte>>)
    ensures var t := Run(s, Flatten(chunks));
      ReadChunks(s, chunks) == if LastSize(chunks) >= WHOLE_FRAME then Settle(t) else t
  {
    hide Step, Settle;
    if chunks != [] {
      var init, last := chunks[..|chunks| - 1], chunks[|chunks| - 1];
      assert chunks == init + [last];
      OnlyTheEndDependsOnChunks(s, init);
      RunChunks(s, init, last);
      if last != [] {
        RunSettled(Run(s, Flatten(init)), last);
      }
    }
  }

  lemma {:induction false} RunBroken(s: Stream, bytes: seq<byte>)
    requires s.Broken?
    ensures Run(s, bytes) == s
    decreases |bytes|
  {
    if bytes != [] {
      RunBroken(s, bytes[1..]);
    }
  }

  /** Settling is invisible as soon as one more byte arrives. */
  lemma {:induction false} RunSettled(s: Stream, bytes: seq<byte>)
    requires bytes != []
    ensures Run(Settle(s), bytes) == Run(s, bytes)
  {
    assert Step(Settle(s), bytes[0]) == Step(s, bytes[0]);
  }

  /** `s` with earlier output and callbacks put before its own. */
  function Shift(s: Stream, out: seq<byte>, trace: seq<Event>): Stream {
    s.(out := out + s.out, trace := trace + s.trace)
  }

  lemma {:induction false} StepShift(s: Stream, b: byte, out: seq<byte>, trace: seq<Event>)
    ensures Step(Shift(s, out, trace), b) == Shift(Step(s, b), out, trace)
  {
    hide RowDescription.Rewritten, U32At;
    var t := Settle(s);
    assert Settle(Shift(s, out, trace)) == Shift(t, out, trace) by {
      assert out + (s.out + EMPTY_ROW_DESCRIPTION) == out + s.out + EMPTY_ROW_DESCRIPTION;
    }
    if t.Stream? {
      match t.phase {
        case Header(ty, hdr, dropping) =>
          if |hdr| == 3 {
            HeaderDoneShift(t, ty, hdr + [b], dropping, out, trace);
          }
        case StatusByte =>
          assert out + t.out + RfqFrame(b) == out + (t.out + RfqFrame(b));
          assert trace + t.trace + [ReadyForQuery(b)] == trace + (t.trace + [ReadyForQuery(b)]);
        case Forwarding(n) =>
          assert out + t.out + [b] == out + (t.out + [b]);
        case Collecting(frame, n) =>
          var r := RowDescription.Rewritten(frame + [b]);
          assert out + t.out + r == out + (t.out + r);
        case _ =>
      }
    }
  }

  lemma {:induction false} HeaderDoneShift(s: Stream, ty: byte, hdr: seq<byte>, dropping: bool, out: seq<byte>,
                                           trace: seq<Event>)
    requires s.Stream? && |hdr| == 4
    ensures HeaderDone(Shift(s, out, trace), ty, hdr, dropping) == Shift(HeaderDone(s, ty, hdr, dropping), out, trace)
  {
    hide U32At;
    assert trace + s.trace + [ErrorSeen] == trace + (s.trace + [ErrorSeen]);
    assert out + s.out + [ty] + hdr == out + (s.out + [ty] + hdr);
  }

  /** What a stream appends does not depend on what was output before. */
  lemma {:induction false} RunShift(s: Stream, bytes: seq<byte>, out: seq<byte>, trace: seq<Event>)
    ensures Run(Shift(s, out, trace), bytes) == Shift(Run(s, bytes), out, trace)
    decreases |bytes|
  {
    hide Step, Shift;
    if bytes != [] {
      StepShift(s, bytes[0], out, trace);
      RunShift(Step(s, bytes[0]), bytes[1..], out, trace);
    }
  }

  // ---- Runs of bytes within one phase ----

  lemma {:induction false} RunHeader(s: Stream, bytes: seq<byte>)
    requires s.Stream? && s.phase.Header? && |s.phase.hdr| + |bytes| < 4
    ensures Run(s, bytes) == s.(phase := s.phase.(hdr := s.phase.hdr + bytes))
    decreases |bytes|
  {
    if bytes == [] {
      assert s.phase.hdr + bytes == s.phase.hdr;
    } else {
      assert s.phase.hdr + bytes == s.phase.hdr + [bytes[0]] + bytes[1..];
      RunHeader(Step(s, bytes[0]), bytes[1..]);
    }
  }

  lemma {:induction false} RunWholeHeader(s: Stream, bytes: seq<byte>)
    requires s.Stream? && s.phase.Header? && bytes != [] && |s.phase.hdr| + |bytes| == 4
    ensures Run(s, bytes) == HeaderDone(s, s.phase.ty, s.phase.hdr + bytes, s.phase.dropping)
  {
    var init, last := bytes[..|bytes| - 1], bytes[|bytes| - 1];
    var t := s.(phase := s.phase.(hdr := s.phase.hdr + init));
    RunHeader(s, init);
    RunAppend(s, init, [last]);
    assert init + [last] == bytes;
    assert Run(t, [last]) == Step(t, last);
    assert s.phase.hdr + init + [last] == s.phase.hdr + bytes;
    HeaderDoneIgnoresPhase(s, t, s.phase.ty, s.phase.hdr + bytes, s.phase.dropping);
  }

  lemma {:induction false} HeaderDoneIgnoresPhase(s: Stream, t: Stream, ty: byte, hdr: seq<byte>, dropping: bool)
    requires s.Stream? && t.Stream? && |hdr| == 4 && t == s.(phase := t.phase)
    ensures HeaderDone(s, ty, hdr, dropping) == HeaderDone(t, ty, hdr, dropping)
  {
  }

  lemma {:induction false} RunForwarding(s: Stream, bytes: seq<byte>)
    requires s.Stream? && s.phase.Forwarding? && 0 < |bytes| <= s.phase.remaining
    ensures var n := s.phase.remaining - |bytes|;
            Run(s, bytes) == s.(out := s.out + bytes, phase := Rest(n, Forwarding(n)))
    decreases |bytes|
  {
    var t := Step(s, bytes[0]);
    assert s.out + bytes == s.out + [bytes[0]] + bytes[1..];
    if |bytes| > 1 {
      RunForwarding(t, bytes[1..]);
    }
  }

  lemma {:induction false} RunDropping(s: Stream, bytes: seq<byte>)
    requires s.Stream? && s.phase.Dropping? && 0 < |bytes| <= s.phase.remaining
    ensures var n := s.phase.remaining - |bytes|; Run(s, bytes) == s.(phase := Rest(n, Dropping(n)))
    decreases |bytes|
  {
    if |bytes| > 1 {
      RunDropping(Step(s, bytes[0]), bytes[1..]);
    }
  }

  lemma {:induction false} RunCollecting(s: Stream, bytes: seq<byte>)
    requires s.Stream? && s.phase.Collecting? && 0 < |bytes| <= s.phase.remaining
    ensures var frame, n := s.phase.frame + bytes, s.phase.remaining - |bytes|;
            Run(s, bytes) == if n == 0 then s.(out := s.out + RowDescription.Rewritten(frame), phase := Between(None))
                             else s.(phase := Collecting(frame, n))
    decreases |bytes|
  {
    hide RowDescription.Rewritten;
    assert s.phase.frame + bytes == s.phase.frame + [bytes[0]] + bytes[1..];
    if |bytes| > 1 {
      RunCollecting(Step(s, bytes[0]), bytes[1..]);
    } else {
      assert s.phase.frame + bytes == s.phase.frame + [bytes[0]];
    }
  }

  // ---- Whole frames ----

  datatype Frame = Frame(ty: byte, payload: seq<byte>)

  // The message types and the length limit are spelled out from here on: a frame is what the protocol says.

  predicate Legal(f: Frame) {
    |f.payload| + 4 <= 1_073_741_824
  }

  function Encode(f: Frame): seq<byte>
    requires Legal(f)
  {
    [f.ty] + U32Bytes(|f.payload| + 4) + f.payload
  }

  predicate IsRfq(f: Frame) {
    f.ty == 0x5a && |f.payload| == 1
  }

  /** The frame as it is passed on: RowDescriptions are rewritten when rewriting is on. */
  function Render(rewrite: bool, f: Frame): seq<byte>
    requires Legal(f)
  {
    if rewrite && f.ty == 0x54 then RowDescription.Rewritten(Encode(f)) else Encode(f)
  }

  /** The callbacks a frame causes. */
  function Events(f: Frame): seq<Event> {
    if f.ty == 0x45 then [ErrorSeen]
    else if IsRfq(f) then [ReadyForQuery(f.payload[0])]
    else []
  }

  /** Effect of one whole frame read at a boundary. */
  function FrameStep(s: Stream, f: Frame): Stream
    requires s.Stream? && Legal(f)
  {
    var s := s.(trace := s.trace + Events(f));
    if IsRfq(f) then
      if s.suppress then s.(phase := Between(Some(f.payload[0])))
      else s.(phase := Between(None), out := s.out + Encode(f))
    else if s.armed && f.ty == COPY_IN_RESPONSE then s.(phase := Between(None), armed := false)
    else s.(phase := Between(None), out := s.out + Render(s.rewrite, f))
  }

  /** Reading the bytes of a frame at a boundary has the frame's effect, up to settling. */
  lemma {:induction false} RunFrame(s: Stream, f: Frame)
    requires s.Stream? && s.phase.Between? && Legal(f)
    ensures Settle(Run(s, Encode(f))) == FrameStep(s, f)
    ensures Run(s, Encode(f)) != FrameStep(s, f) ==> s.rewrite && f.ty == ROW_DESCRIPTION && f.payload == []
  {
    hide HeaderDone, FrameStep, U32At;
    var hdr := U32Bytes(|f.payload| + 4);
    var s1 := Step(s, f.ty);
    assert Run(s, [f.ty]) == s1;
    assert s1.phase.hdr + hdr == hdr;
    var s2 := HeaderDone(s1, f.ty, hdr, s1.phase.dropping);
    assert Run(s, Encode(f)) == Run(s2, f.payload) by {
      hide Step;
      RunWholeHeader(s1, hdr);
      RunAppend(s, [f.ty], hdr);
      RunAppend(s, [f.ty] + hdr, f.payload);
    }
    RunFramePayload(s, s1, s2, f);
  }

  lemma {:induction false} RunFramePayload(s: Stream, s1: Stream, s2: Stream, f: Frame)
    requires s.Stream? && s.phase.Between? && Legal(f)
    requires s1 == Step(s, f.ty)
    requires s2 == HeaderDone(s1, f.ty, U32Bytes(|f.payload| + 4), s1.phase.dropping)
    ensures Settle(Run(s2, f.payload)) == FrameStep(s, f)
    ensures Run(s2, f.payload) != FrameStep(s, f) ==> s.rewrite && f.ty == ROW_DESCRIPTION && f.payload == []
  {
    hide RowDescription.Rewritten, U32At;
    var hdr := U32Bytes(|f.payload| + 4);
    assert Encode(f) == [f.ty] + hdr + f.payload;
    assert s.out + [f.ty] + hdr + f.payload == s.out + Encode(f);
    assert s.trace + [] == s.trace;
    if IsRfq(f) {
      assert Run(s2, f.payload) == Step(s2, f.payload[0]);
      assert Encode(f) == RfqFrame(f.payload[0]);
    } else if f.payload == [] {
      EmptyFrameUnchanged(f);
    } else if s1.phase.dropping {
      RunDropping(s2, f.payload);
    } else if f.ty == ROW_DESCRIPTION && s.rewrite {
      RunCollecting(s2, f.payload);
    } else {
      RunForwarding(s2, f.payload);
    }
  }

  lemma {:induction false} EmptyFrameUnchanged(f: Frame)
    requires f.payload == []
    ensures RowDescription.Rewritten(Encode(f)) == Encode(f)
    ensures Encode(f) == [f.ty] + [0, 0, 0, 4]
  {
    assert U32Bytes(4) == [0, 0, 0, 4];
    assert |Encode(f)| == 5;
  }
}
