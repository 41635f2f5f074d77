/**
 * Frame-level meaning of one protocol response (src/duplex/index.ts, RfqMode): which frames of the backend's
 * response reach the client, and in what form.
 */
module BackendFilter {
  import opened Bytes
  import opened Wrappers
  import opened BackendStream

  /** How ReadyForQuery frames of a response are treated. */
  datatype RfqMode = Passthrough | Suppress | FlushBoundary | CopyIn

  predicate Suppresses(mode: RfqMode) {
    mode.Suppress? || mode.FlushBoundary?
  }

  predicate AllLegal(frames: seq<Frame>) {
    forall i :: 0 <= i < |frames| ==> Legal(frames[i])
  }

  /** The bytes of a list of frames. */
  function EncodeAll(frames: seq<Frame>): seq<byte>
    requires AllLegal(frames)
  {
    if frames == [] then []
    else EncodeAll(frames[..|frames| - 1]) + Encode(frames[|frames| - 1])
  }

  predicate HasType(frames: seq<Frame>, ty: byte) {
    exists i :: 0 <= i < |frames| && frames[i].ty == ty
  }

  /**
   * Whether frame `i` of a complete response is passed on: all but ReadyForQuery frames, which are suppressed or wait
   * for the end, and the first CopyInResponse (0x47) of a captured COPY. A flush boundary keeps the last ReadyForQuery
   * after an ErrorResponse (0x45) only.
   */
  predicate Keeps(mode: RfqMode, frames: seq<Frame>, i: nat)
    requires i < |frames|
  {
    if IsRfq(frames[i]) then
      match mode
      case Passthrough | CopyIn => true
      case Suppress => i == |frames| - 1
      case FlushBoundary => i == |frames| - 1 && HasType(frames, 0x45)
    else if frames[i].ty == 0x47 && mode.CopyIn? then
      HasType(frames[..i], 0x47)
    else true
  }

  /** What is passed on of the first `n` frames of a complete response. */
  function FilterUpTo(mode: RfqMode, rewrite: bool, frames: seq<Frame>, n: nat): seq<byte>
    requires AllLegal(frames) && n <= |frames|
  {
    if n == 0 then []
    else FilterUpTo(mode, rewrite, frames, n - 1)
         + if Keeps(mode, frames, n - 1) then Render(rewrite, frames[n - 1]) else []
  }

  /** What the client receives for a complete response. */
  function Filter(mode: RfqMode, rewrite: bool, frames: seq<Frame>): seq<byte>
    requires AllLegal(frames)
  {
    FilterUpTo(mode, rewrite, frames, |frames|)
  }

  /** The callbacks of a list of frames. */
  function EventsOf(frames: seq<Frame>): seq<Event> {
    if frames == [] then [] else EventsOf(frames[..|frames| - 1]) + Events(frames[|frames| - 1])
  }

  // ---- The end of a stream ----

  datatype Ended = Complete(out: seq<byte>) | Incomplete

  /** Ends a stream: a held ReadyForQuery is passed on unless it is to be dropped. */
  function Finish(s: Stream, dropHeld: bool): Ended {
    if s.Stream? && s.phase.Between? then
      Complete(if !dropHeld && s.suppress && s.phase.held.Some? then s.out + RfqFrame(s.phase.held.value) else s.out)
    else Incomplete
  }

  function StartOf(mode: RfqMode, rewrite: bool, out: seq<byte>, trace: seq<Event>): Stream {
    Start(Suppresses(mode), rewrite, mode.CopyIn?, out, trace)
  }

  // ---- The automaton on frames ----

  function AfterFrames(s: Stream, frames: seq<Frame>): (t: Stream)
    requires s.Stream? && AllLegal(frames)
    ensures t.Stream?
  {
    if frames == [] then s else FrameStep(AfterFrames(s, frames[..|frames| - 1]), frames[|frames| - 1])
  }

  /** Reading the bytes of a frame list is reading the frames, up to settling. */
  lemma {:induction false} RunFrames(s: Stream, frames: seq<Frame>)
    requires s.Stream? && s.phase.Between? && AllLegal(frames)
    ensures AfterFrames(s, frames).phase.Between?
    ensures Settle(Run(s, EncodeAll(frames))) == AfterFrames(s, frames)
    ensures Run(s, EncodeAll(frames)) != AfterFrames(s, frames) ==>
              s.rewrite && frames != [] && frames[|frames| - 1] == Frame(0x54, [])
    ensures AfterFrames(s, frames).rewrite == s.rewrite
  {
    if frames != [] {
      var init, last := frames[..|frames| - 1], frames[|frames| - 1];
      RunFrames(s, init);
      RunAppend(s, EncodeAll(init), Encode(last));
      RunSettled(Run(s, EncodeAll(init)), Encode(last));
      RunFrame(AfterFrames(s, init), last);
    }
  }

  /** What the automaton has passed on after the first `n` frames: held frames are not out yet. */
  function During(mode: RfqMode, rewrite: bool, frames: seq<Frame>): seq<byte>
    requires AllLegal(frames)
  {
    if frames == [] then [] else
    var init, last := frames[..|frames| - 1], frames[|frames| - 1];
    During(mode, rewrite, init)
    + if KeptAtOnce(mode, HasType(init, COPY_IN_RESPONSE), last) then Render(rewrite, last) else []
  }

  /** Whether a frame is passed on when it is read, given whether a CopyInResponse came before it. */
  predicate KeptAtOnce(mode: RfqMode, copyInSeen: bool, f: Frame) {
    if IsRfq(f) then !Suppresses(mode) else !(f.ty == COPY_IN_RESPONSE && mode.CopyIn? && !copyInSeen)
  }

  function Held(mode: RfqMode, frames: seq<Frame>): Option<byte> {
    if Suppresses(mode) && frames != [] && IsRfq(frames[|frames| - 1])
    then Some(frames[|frames| - 1].payload[0]) else None
  }

  lemma {:induction false} HasTypeSnoc(frames: seq<Frame>, ty: byte)
    requires frames != []
    ensures HasType(frames, ty) <==> HasType(frames[..|frames| - 1], ty) || frames[|frames| - 1].ty == ty
  {
    var init := frames[..|frames| - 1];
    if HasType(init, ty) {
      var i :| 0 <= i < |init| && init[i].ty == ty;
      assert frames[i].ty == ty;
    }
    if HasType(frames, ty) && frames[|frames| - 1].ty != ty {
      var i :| 0 <= i < |frames| && frames[i].ty == ty;
      assert init[i].ty == ty;
    }
  }

  lemma {:induction false} FrameStepIs(mode: RfqMode, rewrite: bool, copyInSeen: bool, held: Option<byte>,
                    out: seq<byte>, trace: seq<Event>, f: Frame)
    requires Legal(f)
    ensures FrameStep(Stream(Suppresses(mode), rewrite, mode.CopyIn? && !copyInSeen, Between(held), out, trace), f)
         == Stream(Suppresses(mode), rewrite, mode.CopyIn? && !copyInSeen && f.ty != COPY_IN_RESPONSE,
                   Between(if Suppresses(mode) && IsRfq(f) then Some(f.payload[0]) else None),
                   out + if KeptAtOnce(mode, copyInSeen, f) then Render(rewrite, f) else [], trace + Events(f))
  {
    hide RowDescription.Rewritten, Encode;
    assert out + [] == out;
    RenderRfq(rewrite, f);
  }

  lemma {:induction false} AfterFramesIs(mode: RfqMode, rewrite: bool, out: seq<byte>, trace: seq<Event>,
                                         frames: seq<Frame>)
    requires AllLegal(frames)
    ensures AfterFrames(StartOf(mode, rewrite, out, trace), frames)
         == Stream(Suppresses(mode), rewrite, mode.CopyIn? && !HasType(frames, COPY_IN_RESPONSE),
                   Between(Held(mode, frames)), out + During(mode, rewrite, frames), trace + EventsOf(frames))
  {
    hide Render, KeptAtOnce, Suppresses, FrameStep, HasType, Events;
    if frames != [] {
      var init, last := frames[..|frames| - 1], frames[|frames| - 1];
      AfterFramesIs(mode, rewrite, out, trace, init);
      HasTypeSnoc(frames, COPY_IN_RESPONSE);
      var d, seen := During(mode, rewrite, init), HasType(init, COPY_IN_RESPONSE);
      FrameStepIs(mode, rewrite, seen, Held(mode, init), out + d, trace + EventsOf(init), last);
      assert trace + EventsOf(init) + Events(last) == trace + (EventsOf(init) + Events(last));
      var r := if KeptAtOnce(mode, seen, last) then Render(rewrite, last) else [];
      assert out + d + r == out + (d + r);
    } else {
      assert out + [] == out && trace + [] == trace;
      assert !HasType(frames, COPY_IN_RESPONSE) by { NoTypeInEmpty(COPY_IN_RESPONSE); }
    }
  }

  lemma {:induction false} NoTypeInEmpty(ty: byte)
    ensures !HasType([], ty)
  {
  }

  lemma {:induction false} RenderRfq(rewrite: bool, f: Frame)
    requires Legal(f)
    ensures IsRfq(f) ==> Render(rewrite, f) == Encode(f) == RfqFrame(f.payload[0])
  {
    if IsRfq(f) {
      assert U32Bytes(5) == [0, 0, 0, 5];
      assert Encode(f) == RfqFrame(f.payload[0]);
    }
  }

  /** A response prefix that is not the whole response has no last frame to keep. */
  lemma {:induction false} FilterPrefix(mode: RfqMode, rewrite: bool, frames: seq<Frame>, n: nat)
    requires AllLegal(frames) && n < |frames|
    ensures FilterUpTo(mode, rewrite, frames, n) == During(mode, rewrite, frames[..n])
  {
    hide Render;
    if n > 0 {
      FilterPrefix(mode, rewrite, frames, n - 1);
      assert frames[..n][..n - 1] == frames[..n - 1];
    }
  }

  lemma {:induction false} FilterIs(mode: RfqMode, rewrite: bool, frames: seq<Frame>)
    requires AllLegal(frames)
    ensures var held := Held(mode, frames);
            Filter(mode, rewrite, frames) == During(mode, rewrite, frames)
              + if held.Some? && (mode.FlushBoundary? ==> HasType(frames, 0x45))
                then RfqFrame(held.value) else []
  {
    hide Render, Encode;
    if frames != [] {
      var n := |frames|;
      FilterPrefix(mode, rewrite, frames, n - 1);
      RenderRfq(rewrite, frames[n - 1]);
    }
  }

  lemma {:induction false} ErrorSeenIffErrorFrame(frames: seq<Frame>)
    ensures ErrorSeen in EventsOf(frames) <==> HasType(frames, 0x45)
  {
    if frames != [] {
      ErrorSeenIffErrorFrame(frames[..|frames| - 1]);
      HasTypeSnoc(frames, 0x45);
    }
  }

  /** The rule for ending a call: a flush boundary drops the held ReadyForQuery unless an error was seen. */
  predicate DropsHeld(mode: RfqMode, errSeen: bool) {
    mode.FlushBoundary? && !errSeen
  }

  /**
   * Main result. A response made of complete frames, read by the automaton and then finished, gives the client
   * exactly the filtered response; only a final RowDescription without payload, under rewriting, stays incomplete.
   */
  lemma {:induction false} ResponseIsFiltered(mode: RfqMode, rewrite: bool, frames: seq<Frame>, out: seq<byte>,
                                              trace: seq<Event>)
    requires AllLegal(frames)
    ensures var s := Settle(Run(StartOf(mode, rewrite, out, trace), EncodeAll(frames)));
            && s.Stream? && s.phase.Between? && s.trace == trace + EventsOf(frames)
            && Finish(s, DropsHeld(mode, HasType(frames, 0x45)))
               == Complete(out + Filter(mode, rewrite, frames))
    ensures Run(StartOf(mode, rewrite, out, trace), EncodeAll(frames))
            != Settle(Run(StartOf(mode, rewrite, out, trace), EncodeAll(frames))) ==>
              rewrite && frames != [] && frames[|frames| - 1] == Frame(0x54, [])
  {
    RunFrames(StartOf(mode, rewrite, out, trace), frames);
    AfterFramesIs(mode, rewrite, out, trace, frames);
    FilterIs(mode, rewrite, frames);
    FinishHeld(mode, rewrite, frames, out, trace);
  }

  lemma {:induction false} FinishHeld(mode: RfqMode, rewrite: bool, frames: seq<Frame>, out: seq<byte>,
                                      trace: seq<Event>)
    requires AllLegal(frames)
    ensures var held := Held(mode, frames);
            var kept := held.Some? && (mode.FlushBoundary? ==> HasType(frames, 0x45));
            forall armed, d, tr ::
              Finish(Stream(Suppresses(mode), rewrite, armed, Between(held), out + d, tr),
                     DropsHeld(mode, HasType(frames, 0x45)))
              == Complete(out + (d + if kept then RfqFrame(held.value) else []))
  {
    hide HasType;
    var held := Held(mode, frames);
    forall d: seq<byte> ensures held.Some? ==> out + d + RfqFrame(held.value) == out + (d + RfqFrame(held.value)) {}
  }

  // ---- A RowDescription without payload at the end ----

  /** The automaton waits at the end of a response exactly if it ends in a RowDescription without payload. */
  lemma {:induction false} WaitsIffEmptyRowDescription(mode: RfqMode, rewrite: bool, frames: seq<Frame>,
                                                       out: seq<byte>, trace: seq<Event>)
    requires AllLegal(frames)
    ensures var s := Run(StartOf(mode, rewrite, out, trace), EncodeAll(frames));
      && s.Stream?
      && (s.phase.EmptyRowDescription? <==>
            rewrite && frames != [] && frames[|frames| - 1] == Frame(0x54, []))
  {
    hide FrameStep, Step, Settle, Encode;
    var s := StartOf(mode, rewrite, out, trace);
    RunFrames(s, frames);
    SettledIsStream(Run(s, EncodeAll(frames)));
    if rewrite && frames != [] && frames[|frames| - 1] == Frame(0x54, []) {
      var init, last := frames[..|frames| - 1], frames[|frames| - 1];
      RunFrames(s, init);
      RunAppend(s, EncodeAll(init), Encode(last));
      EncodedNotEmpty(last);
      RunSettled(Run(s, EncodeAll(init)), Encode(last));
      RunEmptyRowDescription(AfterFrames(s, init));
    }
  }

  lemma {:induction false} SettledIsStream(s: Stream)
    ensures Settle(s).Stream? ==> s.Stream?
    ensures s.Stream? && s.phase.EmptyRowDescription? ==> s != Settle(s)
  {
  }

  lemma {:induction false} EncodedNotEmpty(f: Frame)
    requires Legal(f)
    ensures Encode(f) != []
  {
  }

  lemma {:induction false} RunEmptyRowDescription(s: Stream)
    requires s.Stream? && s.phase.Between? && s.rewrite
    ensures var t := Run(s, Encode(Frame(0x54, []))); t.Stream? && t.phase.EmptyRowDescription?
  {
    hide U32At;
    var s1, hdr := Step(s, ROW_DESCRIPTION), U32Bytes(4);
    assert Encode(Frame(0x54, [])) == [ROW_DESCRIPTION] + hdr;
    RunAppend(s, [ROW_DESCRIPTION], hdr);
    assert Run(s, [ROW_DESCRIPTION]) == s1;
    assert s1.phase.hdr + hdr == hdr;
    RunWholeHeader(s1, hdr);
  }

  /** Whether a response that ends so can be finished depends on nothing but the size of its last chunk. */
  lemma {:induction false} LastChunkDecides(mode: RfqMode, frames: seq<Frame>, chunks: seq<seq<byte>>, drop: bool)
    requires AllLegal(frames) && frames != [] && frames[|frames| - 1] == Frame(0x54, [])
    requires Flatten(chunks) == EncodeAll(frames)
    ensures Finish(ReadChunks(StartOf(mode, true, [], []), chunks), drop).Complete? <==> LastSize(chunks) >= WHOLE_FRAME
  {
    hide Run, ReadChunks, LastSize;
    var s := StartOf(mode, true, [], []);
    OnlyTheEndDependsOnChunks(s, chunks);
    WaitsIffEmptyRowDescription(mode, true, frames, [], []);
  }

  /** A single RowDescription without payload in one piece reaches the client, all five bytes of it. */
  lemma {:induction false} EmptyRowDescriptionInOnePiece(mode: RfqMode, drop: bool)
    ensures Finish(ReadChunks(StartOf(mode, true, [], []), [EMPTY_ROW_DESCRIPTION]), drop)
         == Complete(EMPTY_ROW_DESCRIPTION)
  {
    hide Run, ReadChunks;
    EmptyRowDescriptionEncoded();
    LoneEmptyRowDescription([EMPTY_ROW_DESCRIPTION]);
    var s := StartOf(mode, true, [], []);
    OnlyTheEndDependsOnChunks(s, [EMPTY_ROW_DESCRIPTION]);
    RunFrame(s, Frame(0x54, []));
    EmptyFrameUnchanged(Frame(0x54, []));
    assert [] + EMPTY_ROW_DESCRIPTION == EMPTY_ROW_DESCRIPTION;
  }

  /** The same five bytes cut anywhere cannot be finished. */
  lemma {:induction false} EmptyRowDescriptionCut(mode: RfqMode, drop: bool, k: nat)
    requires 0 < k < WHOLE_FRAME
    ensures var chunks := [EMPTY_ROW_DESCRIPTION[..k], EMPTY_ROW_DESCRIPTION[k..]];
      Finish(ReadChunks(StartOf(mode, true, [], []), chunks), drop) == Incomplete
  {
    hide Run, ReadChunks;
    var head, tail := EMPTY_ROW_DESCRIPTION[..k], EMPTY_ROW_DESCRIPTION[k..];
    FlattenPair(head, tail);
    assert head + tail == EMPTY_ROW_DESCRIPTION;
    LoneEmptyRowDescription([head, tail]);
    LastOfPair(head, tail);
    LastChunkDecides(mode, [Frame(0x54, [])], [head, tail], drop);
  }

  lemma {:induction false} LastOfPair(a: seq<byte>, b: seq<byte>)
    requires b != []
    ensures LastSize([a, b]) == |b|
  {
  }

  lemma {:induction false} FlattenPair(a: seq<byte>, b: seq<byte>)
    ensures Flatten([a, b]) == a + b
  {
    FlattenSnoc([a], b);
    assert [a] + [b] == [a, b] && [a][1..] == [];
    assert Flatten([a]) == a + [] == a;
  }

  lemma {:induction false} EmptyRowDescriptionEncoded()
    ensures Encode(Frame(0x54, [])) == EMPTY_ROW_DESCRIPTION
  {
    EmptyFrameUnchanged(Frame(0x54, []));
  }

  lemma {:induction false} LoneEmptyRowDescription(chunks: seq<seq<byte>>)
    requires Flatten(chunks) == EMPTY_ROW_DESCRIPTION || chunks == [EMPTY_ROW_DESCRIPTION]
    ensures Flatten(chunks) == EncodeAll([Frame(0x54, [])]) == EMPTY_ROW_DESCRIPTION
  {
    EmptyRowDescriptionEncoded();
    var frames := [Frame(0x54, [])];
    assert frames[..0] == [] && EncodeAll(frames[..0]) == [];
    if chunks == [EMPTY_ROW_DESCRIPTION] {
      assert chunks[1..] == [];
    }
  }
}
