/**
 * The framer itself (src/duplex/backend-framer.ts): whole frames are taken in one slice and passed on lazily,
 * frames that span chunks go through scratch arrays. It is proved against the automaton of BackendStream.
 */
module BackendFramer {
  import opened Bytes
  import opened Wrappers
  import opened BackendStream
  import opened BackendFilter
  import RowDescription

  datatype Result = Done | Malformed(length: nat) | Incomplete

  /** `a` is `b`, or `b` still waits to pass on an empty RowDescription that `a` has passed on. */
  predicate Agrees(a: Stream, b: Stream) {
    a == b || a == Settle(b)
  }

  lemma {:induction false} AgreeingRuns(a: Stream, b: Stream, bytes: seq<byte>)
    requires Agrees(a, b) && bytes != []
    ensures Run(a, bytes) == Run(b, bytes)
  {
    RunSettled(b, bytes);
  }

  lemma {:induction false} SettlingAgrees(a: Stream, b: Stream)
    requires Agrees(a, b)
    ensures Agrees(Settle(a), b)
  {
  }

  lemma {:induction false} OneByte(chunk: seq<byte>, a: nat)
    requires a < |chunk|
    ensures chunk[a..a + 1] == [chunk[a]]
  {
  }

  lemma {:induction false} FrameStepCases(s: Stream, f: Frame)
    requires s.Stream? && Legal(f)
    ensures var t := FrameStep(s, f);
            && (s.armed && f.ty == COPY_IN_RESPONSE ==>
                  t == s.(phase := Between(None), armed := false))
            && (IsRfq(f) ==>
                  t == s.(trace := s.trace + [ReadyForQuery(f.payload[0])],
                          phase := Between(if s.suppress then Some(f.payload[0]) else None),
                          out := s.out + if s.suppress then [] else Encode(f)))
            && (!(s.armed && f.ty == COPY_IN_RESPONSE) && !IsRfq(f) ==>
                  t == s.(trace := s.trace + if f.ty == ERROR_RESPONSE then [ErrorSeen] else [],
                          phase := Between(None), out := s.out + Render(s.rewrite, f)))
  {
    assert s.trace + [] == s.trace && s.out + [] == s.out;
  }

  lemma {:induction false} HeaderDoneCases(s: Stream, ty: byte, hdr: seq<byte>, dropping: bool)
    requires s.Stream? && |hdr| == 4 && GoodLength(U32At(hdr, 0))
    ensures var s1 := s.(trace := if ty == ERROR_RESPONSE then s.trace + [ErrorSeen] else s.trace);
            var n := U32At(hdr, 0) - 4;
            HeaderDone(s, ty, hdr, dropping) ==
              if ty == READY_FOR_QUERY && n == 1 then s1.(phase := StatusByte)
              else s1.(phase := PayloadPhase(s.rewrite, ty, hdr, n, dropping),
                       out := if ForwardsHeader(s.rewrite, ty, dropping) then s.out + [ty] + hdr else s.out)
  {
  }

  lemma {:induction false} HeaderIsOver(s: Stream, ty: byte, hdr: seq<byte>, dropping: bool)
    requires s.Stream? && |hdr| == 4
    ensures var t := HeaderDone(s, ty, hdr, dropping); t.Stream? ==> !t.phase.Header?
  {
  }

  lemma {:induction false} PayloadNeverWaits(s: Stream, part: seq<byte>)
    requires s.Stream? && part != []
    requires match s.phase
             case Forwarding(n) => |part| <= n
             case Dropping(n) => |part| <= n
             case Collecting(_, n) => |part| <= n
             case _ => false
    ensures var t := Run(s, part); t.Stream? && !t.phase.EmptyRowDescription? && !t.phase.Header?
  {
    hide Run;
    match s.phase {
      case Forwarding(_) => RunForwarding(s, part);
      case Dropping(_) => RunDropping(s, part);
      case Collecting(_, _) => RunCollecting(s, part);
    }
  }

  lemma {:induction false} RenderOfSlice(rewrite: bool, chunk: seq<byte>, offset: nat, totalLen: nat)
    requires FrameFits(chunk, offset, totalLen)
    ensures var f, frame := FrameAt(chunk, offset, totalLen), chunk[offset..offset + totalLen];
            && Legal(f) && Encode(f) == frame
            && Render(rewrite, f) == if f.ty == ROW_DESCRIPTION && rewrite
                                        && RowDescription.NeedsRewrite(chunk, offset, offset + totalLen)
                                     then RowDescription.Rewritten(frame) else frame
  {
    hide RowDescription.NeedsRewrite, RowDescription.Rewritten, U32At;
    FrameAtBytes(chunk, offset, totalLen);
    RowDescription.GateOfSlice(chunk, offset, offset + totalLen);
    RowDescription.GateIffRewriteChanges(chunk[offset..offset + totalLen]);
  }

  lemma {:induction false} RunNothing(s: Stream)
    ensures Run(s, []) == s
  {
  }

  lemma {:induction false} BadLength(s: Stream, ty: byte, hdr: seq<byte>, dropping: bool)
    requires s.Stream? && |hdr| == 4 && !GoodLength(U32At(hdr, 0))
    ensures HeaderDone(s, ty, hdr, dropping) == Broken(s.out, s.trace)
  {
  }

  /** The frame of `totalLen` bytes at `offset`. */
  function FrameAt(chunk: seq<byte>, offset: nat, totalLen: nat): Frame
    requires 5 <= totalLen && offset + totalLen <= |chunk|
  {
    Frame(chunk[offset], chunk[offset + 5..offset + totalLen])
  }

  predicate FrameFits(chunk: seq<byte>, offset: nat, totalLen: nat) {
    && 5 <= totalLen && offset + totalLen <= |chunk|
    && totalLen == 1 + U32At(chunk, offset + 1) && GoodLength(totalLen - 1)
  }

  lemma {:induction false} FrameAtBytes(chunk: seq<byte>, offset: nat, totalLen: nat)
    requires FrameFits(chunk, offset, totalLen)
    ensures Legal(FrameAt(chunk, offset, totalLen))
    ensures Encode(FrameAt(chunk, offset, totalLen)) == chunk[offset..offset + totalLen]
  {
    var hdr := chunk[offset + 1..offset + 5];
    assert U32At(hdr, 0) == U32At(chunk, offset + 1);
    U32BytesUnique(hdr);
    assert chunk[offset..offset + totalLen] == [chunk[offset]] + hdr + chunk[offset + 5..offset + totalLen];
  }

  lemma {:induction false} Splice(chunk: seq<byte>, a: nat, b: nat)
    requires a <= b <= |chunk|
    ensures chunk[..b] == chunk[..a] + chunk[a..b]
  {
  }

  /** Reading on from agreeing states keeps them in agreement. */
  lemma {:induction false} PieceRead(before: Stream, s0: Stream, chunk: seq<byte>, a: nat, b: nat)
    requires a < b <= |chunk| && Agrees(before, Run(s0, chunk[..a]))
    ensures Run(before, chunk[a..b]) == Run(s0, chunk[..b])
  {
    hide Run, Settle;
    Splice(chunk, a, b);
    RunAppend(s0, chunk[..a], chunk[a..b]);
    assert |chunk[a..b]| > 0;
    AgreeingRuns(before, Run(s0, chunk[..a]), chunk[a..b]);
  }

  lemma {:induction false} WholeFrameRead(before: Stream, s0: Stream, chunk: seq<byte>, a: nat, totalLen: nat)
    requires FrameFits(chunk, a, totalLen)
    requires before.Stream? && before.phase.Between? && Agrees(before, Run(s0, chunk[..a]))
    ensures Legal(FrameAt(chunk, a, totalLen))
    ensures Agrees(FrameStep(before, FrameAt(chunk, a, totalLen)), Run(s0, chunk[..a + totalLen]))
  {
    hide Run, FrameStep;
    FrameAtBytes(chunk, a, totalLen);
    PieceRead(before, s0, chunk, a, a + totalLen);
    RunFrame(before, FrameAt(chunk, a, totalLen));
  }

  lemma {:induction false} BrokenStays(before: Stream, s0: Stream, chunk: seq<byte>, a: nat, b: nat)
    requires a < b <= |chunk| && Agrees(before, Run(s0, chunk[..a]))
    requires Run(before, chunk[a..b]).Broken?
    ensures Run(s0, chunk) == Run(before, chunk[a..b])
  {
    hide Run;
    PieceRead(before, s0, chunk, a, b);
    assert chunk == chunk[..b] + chunk[b..];
    RunAppend(s0, chunk[..b], chunk[b..]);
    RunBroken(Run(s0, chunk[..b]), chunk[b..]);
  }

  lemma {:induction false} BadHeaderAtBoundary(before: Stream, s0: Stream, chunk: seq<byte>, a: nat)
    requires a + 5 <= |chunk| && Agrees(before, Run(s0, chunk[..a]))
    requires before.Stream? && before.phase.Between? && !GoodLength(U32At(chunk, a + 1))
    ensures Run(s0, chunk) == Broken(before.out, before.trace)
  {
    var s1, hdr := Step(before, chunk[a]), chunk[a + 1..a + 5];
    assert U32At(hdr, 0) == U32At(chunk, a + 1);
    assert chunk[a..a + 5] == [chunk[a]] + hdr;
    assert Run(before, [chunk[a]]) == s1;
    assert Run(before, chunk[a..a + 5]) == Broken(before.out, before.trace) by {
      RunAppend(before, [chunk[a]], hdr);
      assert s1.phase.hdr + hdr == hdr;
      RunWholeHeader(s1, hdr);
    }
    BrokenStays(before, s0, chunk, a, a + 5);
  }

  /** The automaton does not end the chunk with a RowDescription that waits to be passed on. */
  predicate EndsInside(s0: Stream, chunk: seq<byte>) {
    var t := Run(s0, chunk);
    t.Stream? ==> !t.phase.EmptyRowDescription?
  }

  /** A frame that does not fit into the rest of the chunk leaves the automaton inside that frame. */
  lemma {:induction false} SlowFrameEndsInside(before: Stream, s0: Stream, chunk: seq<byte>, a: nat)
    requires a < |chunk| && Agrees(before, Run(s0, chunk[..a])) && before.Stream? && before.phase.Between?
    requires a + 5 <= |chunk| ==> GoodLength(U32At(chunk, a + 1)) && a + 1 + U32At(chunk, a + 1) > |chunk|
    ensures EndsInside(s0, chunk)
  {
    hide Run;
    var rest := chunk[a..];
    PieceRead(before, s0, chunk, a, |chunk|);
    assert chunk[a..|chunk|] == rest && chunk[..|chunk|] == chunk;
    assert |rest| >= 5 ==> U32At(rest, 1) == U32At(chunk, a + 1);
    PartialFrame(before, rest);
  }

  /** A frame that has begun and has not ended leaves the automaton inside it. */
  lemma {:induction false} PartialFrame(s: Stream, bytes: seq<byte>)
    requires s.Stream? && s.phase.Between? && bytes != []
    requires |bytes| >= 5 ==> GoodLength(U32At(bytes, 1)) && 1 + U32At(bytes, 1) > |bytes|
    ensures var t := Run(s, bytes); t.Stream? ==> !t.phase.EmptyRowDescription? && !t.phase.Between?
  {
    hide Run, HeaderDone;
    var s1 := Step(s, bytes[0]);
    var tail := bytes[1..];
    assert bytes == [bytes[0]] + tail;
    RunOne(s, bytes[0]);
    RunAppend(s, [bytes[0]], tail);
    if |tail| < 4 {
      RunHeader(s1, tail);
    } else {
      var hdr, payload := tail[..4], tail[4..];
      assert tail == hdr + payload && s1.phase.hdr + hdr == hdr;
      assert U32At(hdr, 0) == U32At(bytes, 1);
      RunWholeHeader(s1, hdr);
      RunAppend(s1, hdr, payload);
      PartialPayload(s1, bytes[0], hdr, payload);
    }
  }

  lemma {:induction false} RunOne(s: Stream, b: byte)
    ensures Run(s, [b]) == Step(s, b)
  {
  }

  lemma {:induction false} PartialPayload(s: Stream, ty: byte, hdr: seq<byte>, payload: seq<byte>)
    requires s.Stream? && s.phase.Header? && |hdr| == 4 && GoodLength(U32At(hdr, 0))
    requires |payload| < U32At(hdr, 0) - 4
    ensures var t := Run(HeaderDone(s, ty, hdr, s.phase.dropping), payload);
      t.Stream? ==> !t.phase.EmptyRowDescription? && !t.phase.Between?
  {
    hide Run, U32At;
    HeaderDoneCases(s, ty, hdr, s.phase.dropping);
    var t := HeaderDone(s, ty, hdr, s.phase.dropping);
    if payload == [] {
      RunNothing(t);
    } else if t.phase.Forwarding? {
      RunForwarding(t, payload);
    } else if t.phase.Dropping? {
      RunDropping(t, payload);
    } else {
      RunCollecting(t, payload);
    }
  }

  /** Copies `src` into `dst` at `at`. */
  method Blit(dst: array<byte>, at: nat, src: seq<byte>)
    requires at + |src| <= dst.Length
    modifies dst
    ensures dst[..] == old(dst[..at]) + src + old(dst[at + |src|..])
  {
    for i := 0 to |src|
      invariant dst[..] == old(dst[..at]) + src[..i] + old(dst[at + i..])
    {
      dst[at + i] := src[i];
    }
  }

  /** The bytes of `chunk` that are owed to the client but not yet passed on. */
  function Pending(chunk: seq<byte>, passthroughStart: int, offset: nat): seq<byte>
    requires offset <= |chunk| && passthroughStart <= offset
  {
    if passthroughStart < 0 then [] else chunk[passthroughStart..offset]
  }

  lemma {:induction false} PendingGrows(out: seq<byte>, chunk: seq<byte>, start: int, offset: nat, totalLen: nat)
    requires start <= offset && offset + totalLen <= |chunk|
    ensures out + Pending(chunk, if start < 0 then offset else start, offset + totalLen)
         == out + Pending(chunk, start, offset) + chunk[offset..offset + totalLen]
  {
  }

  class BackendMessageFramer {
    var suppressIntermediateReadyForQuery: bool
    const rewriteSystemCatalogCharOids: bool
    const headerScratch: array<byte>
    const heldRfq: array<byte>
    var messageType: Option<byte>
    var headerBytesRead: nat
    var payloadBytesRemaining: nat
    var rfqBytesRead: nat
    var rfqFrame: bool
    var rowDescBuffer: array?<byte>
    var rowDescOffset: nat
    var dropNextCopyInResponse: bool
    var droppingMessage: bool
    /** Everything handed to the chunk callback so far, and the other callbacks in order. */
    var output: seq<byte>
    var events: seq<Event>

    ghost predicate Shape()
      reads this
    {
      && headerScratch.Length == 4 && heldRfq.Length == 6 && headerScratch != heldRfq
      && rowDescBuffer != headerScratch && rowDescBuffer != heldRfq
    }

    ghost function Footprint(): set<object>
      reads this
    {
      {this, headerScratch, heldRfq} + if rowDescBuffer == null then {} else {rowDescBuffer}
    }

    /** The scratch arrays agree with the counters that say how much of them is live. */
    ghost predicate Valid()
      reads this, Footprint()
    {
      && Shape()
      && (messageType.None? ==>
            && rowDescBuffer == null && !droppingMessage
            && (rfqBytesRead == 0 || (rfqBytesRead == 6 && suppressIntermediateReadyForQuery
                                      && heldRfq[..5] == [READY_FOR_QUERY, 0, 0, 0, 5])))
      && (messageType.Some? && headerBytesRead < 4 ==>
            && rowDescBuffer == null
            && (if messageType.value == READY_FOR_QUERY
                then rfqBytesRead == 1 + headerBytesRead && !droppingMessage
                     && heldRfq[..rfqBytesRead] == [READY_FOR_QUERY] + headerScratch[..headerBytesRead]
                else rfqBytesRead == 0))
      && (messageType.Some? && headerBytesRead >= 4 ==>
            && headerBytesRead == 4
            && (rfqFrame ==> rfqBytesRead == 5 && heldRfq[..5] == [READY_FOR_QUERY, 0, 0, 0, 5]
                             && payloadBytesRemaining == 1 && rowDescBuffer == null && !droppingMessage)
            && (!rfqFrame ==> rfqBytesRead == 0)
            && (droppingMessage ==> rowDescBuffer == null)
            && (rowDescBuffer == null ==> payloadBytesRemaining > 0)
            && (rowDescBuffer != null ==>
                  && 5 <= rowDescOffset && rowDescBuffer.Length == rowDescOffset + payloadBytesRemaining
                  && (payloadBytesRemaining == 0 ==> rowDescBuffer[..] == EMPTY_ROW_DESCRIPTION)))
    }

    ghost function PhaseOf(): Phase
      requires Valid()
      reads this, Footprint()
    {
      if messageType.None? then Between(if rfqBytesRead == 6 then Some(heldRfq[5]) else None)
      else if headerBytesRead < 4 then Header(messageType.value, headerScratch[..headerBytesRead], droppingMessage)
      else if rfqFrame then StatusByte
      else if droppingMessage then Dropping(payloadBytesRemaining)
      else if rowDescBuffer == null then Forwarding(payloadBytesRemaining)
      else if payloadBytesRemaining == 0 then EmptyRowDescription
      else Collecting(rowDescBuffer[..rowDescOffset], payloadBytesRemaining)
    }

    /** The automaton state this framer is in, once the `pending` bytes are passed on. */
    ghost function View(pending: seq<byte>): (s: Stream)
      requires Valid()
      reads this, Footprint()
      ensures s.Stream? && (messageType.None? <==> s.phase.Between?)
    {
      Stream(suppressIntermediateReadyForQuery, rewriteSystemCatalogCharOids, dropNextCopyInResponse, PhaseOf(),
             output + pending, events)
    }

    ghost function State(): (s: Stream)
      requires Valid()
      reads this, Footprint()
      ensures s.Stream? && (messageType.None? <==> s.phase.Between?)
    {
      View([])
    }

    constructor (suppress: bool, rewrite: bool)
      ensures Valid() && fresh(Footprint())
      ensures State() == Start(suppress, rewrite, false, [], [])
    {
      suppressIntermediateReadyForQuery := suppress;
      rewriteSystemCatalogCharOids := rewrite;
      headerScratch := new byte[4];
      heldRfq := new byte[6];
      messageType, headerBytesRead, payloadBytesRemaining := None, 0, 0;
      rfqBytesRead, rfqFrame := 0, false;
      rowDescBuffer, rowDescOffset := null, 0;
      dropNextCopyInResponse, droppingMessage := false, false;
      output, events := [], [];
    }

    /** Starts a new protocol stream, whatever the previous one left behind. */
    method Reset(suppress: bool, dropFirstCopyInResponse: bool)
      requires Shape()
      modifies this
      ensures Valid() && Footprint() <= old(Footprint())
      ensures output == old(output) && events == old(events)
      ensures State() == Start(suppress, rewriteSystemCatalogCharOids, dropFirstCopyInResponse, output, events)
    {
      suppressIntermediateReadyForQuery := suppress;
      messageType := None;
      headerBytesRead, payloadBytesRemaining, rfqBytesRead := 0, 0, 0;
      rfqFrame := false;
      rowDescBuffer, rowDescOffset := null, 0;
      dropNextCopyInResponse := dropFirstCopyInResponse;
      droppingMessage := false;
      assert output + [] == output;
    }

    /** An empty RowDescription waits for the next byte to be passed on. */
    ghost predicate Waiting()
      requires Valid()
      reads this, Footprint()
    {
      PhaseOf().EmptyRowDescription?
    }

    /** A frame in progress at `offset` of a chunk came in with an earlier chunk. */
    ghost predicate Carried(offset: nat, length: nat)
      requires Valid()
      reads this, Footprint()
    {
      && (messageType.Some? && headerBytesRead < 4 ==> offset == 0 || offset == length)
      && (Waiting() ==> offset < WHOLE_FRAME)
    }

    /** Which of two agreeing states the framer is in at the end of a chunk. */
    lemma {:induction false} WhichChunk(s0: Stream, chunk: seq<byte>)
      requires Valid() && Agrees(State(), Run(s0, chunk))
      requires EndsInside(s0, chunk) || Carried(|chunk|, |chunk|)
      requires (|chunk| >= WHOLE_FRAME && messageType.None?) || State() == Run(s0, chunk)
      ensures State() == ReadChunk(s0, chunk)
    {
      hide Run;
    }

    /** A lazily forwarded run of frames is open only between frames, with nothing held. */
    ghost predicate LazyOk(passthroughStart: int, offset: nat)
      reads this
    {
      passthroughStart <= offset && (passthroughStart >= 0 ==> messageType.None? && rfqBytesRead == 0)
    }

    /**
     * Reads one chunk. If no impossible length is met, the state afterwards is the automaton's after the same chunk;
     * if one is met, so does the automaton, the callbacks are the same, and the output is what the automaton passed
     * on except for `lost`, the unsent tail of the frames just read.
     */
    method Write(chunk: seq<byte>) returns (r: Result, ghost lost: seq<byte>)
      requires Valid()
      modifies Footprint()
      ensures Shape() && fresh(Footprint() - old(Footprint()))
      ensures !r.Incomplete?
      ensures r.Malformed? <==> Run(old(State()), chunk).Broken?
      ensures r.Done? ==> Valid() && State() == ReadChunk(old(State()), chunk)
      ensures r.Malformed? ==> !GoodLength(r.length)
                               && Run(old(State()), chunk) == Broken(output + lost, events)
    {
      hide Run, FrameStep, Settle, U32At;
      hide PhaseOf;
      lost := [];
      ghost var s0 := State();
      RunNothing(s0);
      var offset: nat := 0;
      var passthroughStart: int := -1;
      assert chunk[..0] == [];
      while offset < |chunk|
        invariant offset <= |chunk|
        invariant Valid() && fresh(Footprint() - old(Footprint()))
        invariant LazyOk(passthroughStart, offset)
        invariant Agrees(View(Pending(chunk, passthroughStart, offset)), Run(s0, chunk[..offset]))
        invariant EndsInside(s0, chunk) || Carried(offset, |chunk|)
        invariant offset == |chunk| ==> (offset >= WHOLE_FRAME && messageType.None?)
                                        || View(Pending(chunk, passthroughStart, offset)) == Run(s0, chunk[..offset])
        decreases |chunk| - offset,
                  if messageType.Some? && headerBytesRead == 4 && payloadBytesRemaining == 0 then 1 else 0
      {
        ghost var before := View(Pending(chunk, passthroughStart, offset));
        ghost var offset0 := offset;
        if messageType.None? {
          var available := |chunk| - offset;
          if available >= 5 {
            var messageLength := U32At(chunk, offset + 1);
            if !GoodLength(messageLength) {
              lost := Pending(chunk, passthroughStart, offset);
              BadHeaderAtBoundary(before, s0, chunk, offset);
              return Malformed(messageLength), lost;
            }
            var totalLen := 1 + messageLength;
            if available >= totalLen {
              passthroughStart := TakeFrame(chunk, offset, totalLen, passthroughStart);
              offset := offset + totalLen;
              WholeFrameRead(before, s0, chunk, offset0, totalLen);
              continue;
            }
          }
          SlowFrameEndsInside(before, s0, chunk, offset);
          passthroughStart := FlushPassthrough(chunk, passthroughStart, offset);
          BeginFrame(chunk[offset]);
          offset := offset + 1;
          OneByte(chunk, offset0);
        } else {
          var ok, next := ContinueFrame(chunk, offset);
          if !ok {
            BrokenStays(before, s0, chunk, offset, next);
            return Malformed(U32At(headerScratch[..], 0)), [];
          }
          offset := next;
          SettlingAgrees(before, Run(s0, chunk[..offset0]));
        }
        if offset0 < offset {
          PieceRead(before, s0, chunk, offset0, offset);
        }
      }
      assert chunk[..offset] == chunk;
      passthroughStart := FlushPassthrough(chunk, passthroughStart, offset);
      WhichChunk(s0, chunk);
      r := Done;
    }

    /** Reads on in the frame that is in progress; `ok` is false when its header declares an impossible length. */
    method ContinueFrame(chunk: seq<byte>, offset: nat) returns (ok: bool, next: nat)
      requires Valid() && messageType.Some? && offset < |chunk|
      modifies Footprint()
      ensures Shape() && fresh(Footprint() - old(Footprint())) && offset <= next <= |chunk|
      ensures ok && offset < next ==> Valid() && State() == Run(old(State()), chunk[offset..next])
      ensures ok && offset == next ==> Valid() && messageType.None? && State() == Settle(old(State()))
                                       && old(headerBytesRead == 4 && payloadBytesRemaining == 0)
      ensures ok && messageType.Some? && headerBytesRead < 4 ==> next == |chunk|
      ensures ok && Waiting() ==> old(headerBytesRead) < 4 && next <= offset + 4
      ensures !ok ==> offset < next && Run(old(State()), chunk[offset..next]) == Broken(output, events)
                      && !GoodLength(U32At(headerScratch[..], 0))
    {
      hide Run, Settle, U32At, PhaseOf;
      if headerBytesRead < 4 {
        ok, next := ReadHeader(chunk, offset);
      } else if rfqFrame {
        ReadStatusByte(chunk[offset]);
        ok, next := true, offset + 1;
        assert chunk[offset..next] == [chunk[offset]];
      } else {
        next := ReadPayload(chunk, offset);
        ok := true;
      }
    }

    method FlushPassthrough(chunk: seq<byte>, passthroughStart: int, end: nat) returns (cleared: int)
      requires Valid() && end <= |chunk| && LazyOk(passthroughStart, end)
      modifies this
      ensures cleared == -1
      ensures Valid() && Footprint() == old(Footprint())
      ensures messageType == old(messageType)
      ensures State() == old(View(Pending(chunk, passthroughStart, end)))
    {
      cleared := -1;
      assert output + [] == output;
      if passthroughStart >= 0 && end > passthroughStart {
        output := output + chunk[passthroughStart..end];
        assert output + [] == output;
      }
    }

    /** Reads the type byte of a frame that is not wholly in this chunk. */
    method BeginFrame(ty: byte)
      requires Valid() && messageType.None?
      modifies this, heldRfq
      ensures Valid() && Footprint() == old(Footprint())
      ensures messageType.Some?
      ensures State() == Run(old(State()), [ty])
    {
      messageType := Some(ty);
      headerBytesRead, payloadBytesRemaining := 0, 0;
      if ty == COPY_IN_RESPONSE && dropNextCopyInResponse {
        dropNextCopyInResponse, droppingMessage := false, true;
      }
      rfqBytesRead := if ty == READY_FOR_QUERY then 1 else 0;
      if rfqBytesRead == 1 {
        heldRfq[0] := ty;
      }
    }

    /** Takes a whole frame out of the chunk, forwarding it lazily if it needs no treatment. */
    method TakeFrame(chunk: seq<byte>, offset: nat, totalLen: nat, start: int) returns (passthroughStart: int)
      requires Valid() && messageType.None? && FrameFits(chunk, offset, totalLen) && LazyOk(start, offset)
      modifies this, heldRfq
      ensures Valid() && Footprint() == old(Footprint())
      ensures messageType.None? && LazyOk(passthroughStart, offset + totalLen)
      ensures Legal(FrameAt(chunk, offset, totalLen))
      ensures View(Pending(chunk, passthroughStart, offset + totalLen))
           == FrameStep(old(View(Pending(chunk, start, offset))), FrameAt(chunk, offset, totalLen))
    {
      hide RowDescription.NeedsRewrite, RowDescription.Rewritten, U32At, FrameStep, Events, Encode, Render;
      hide PhaseOf, Valid;
      passthroughStart := start;
      ghost var f := FrameAt(chunk, offset, totalLen);
      ghost var s := View(Pending(chunk, start, offset));
      FrameAtBytes(chunk, offset, totalLen);
      FrameStepCases(s, f);
      var msgType := chunk[offset];
      NoteError(msgType);
      if msgType == COPY_IN_RESPONSE && dropNextCopyInResponse {
        passthroughStart := TakeDropped(chunk, offset, start);
        return;
      }
      if msgType == READY_FOR_QUERY && totalLen == 6 {
        RenderRfq(rewriteSystemCatalogCharOids, f);
        passthroughStart := TakeReadyForQuery(chunk, offset, start);
        return;
      }
      RenderOfSlice(rewriteSystemCatalogCharOids, chunk, offset, totalLen);
      passthroughStart := TakeOther(chunk, offset, totalLen, start);
    }

    /** A whole frame that is rewritten if it is a RowDescription that needs it, and otherwise forwarded lazily. */
    method TakeOther(chunk: seq<byte>, offset: nat, totalLen: nat, start: int) returns (passthroughStart: int)
      requires Valid() && messageType.None? && LazyOk(start, offset) && offset + totalLen <= |chunk| && totalLen > 0
      modifies this
      ensures Valid() && Footprint() == old(Footprint())
      ensures messageType.None? && LazyOk(passthroughStart, offset + totalLen)
      ensures old(View(Pending(chunk, start, offset))).Stream?
      ensures var frame := chunk[offset..offset + totalLen];
              View(Pending(chunk, passthroughStart, offset + totalLen))
              == old(View(Pending(chunk, start, offset))).(
                   phase := Between(None),
                   out := old(output) + Pending(chunk, start, offset)
                          + if chunk[offset] == ROW_DESCRIPTION && rewriteSystemCatalogCharOids
                               && RowDescription.NeedsRewrite(chunk, offset, offset + totalLen)
                            then RowDescription.Rewritten(frame) else frame)
    {
      hide RowDescription.NeedsRewrite, RowDescription.Rewritten, PhaseOf;
      passthroughStart := start;
      var rewritten := false;
      if chunk[offset] == ROW_DESCRIPTION && rewriteSystemCatalogCharOids {
        rewritten := RowDescription.RowDescriptionNeedsRewrite(chunk, offset, offset + totalLen);
      }
      if rewritten {
        passthroughStart := FlushPassthrough(chunk, passthroughStart, offset);
        DropStaleHeldReadyForQuery();
        TakeRowDescription(chunk[offset..offset + totalLen]);
      } else {
        DropStaleHeldReadyForQuery();
        if passthroughStart < 0 {
          passthroughStart := offset;
        }
        PendingGrows(output, chunk, start, offset, totalLen);
      }
    }

    method NoteError(msgType: byte)
      requires Valid()
      modifies this`events
      ensures Valid() && Footprint() == old(Footprint())
      ensures old(State()).Stream?
      ensures State() == old(State()).(trace := old(events) + if msgType == ERROR_RESPONSE then [ErrorSeen] else [])
    {
      assert events + [] == events;
      if msgType == ERROR_RESPONSE {
        events := events + [ErrorSeen];
      }
    }

    /** The CopyInResponse the client has already been sent: skipped. */
    method TakeDropped(chunk: seq<byte>, offset: nat, start: int) returns (passthroughStart: int)
      requires Valid() && messageType.None? && LazyOk(start, offset) && offset <= |chunk|
      modifies this
      ensures Valid() && Footprint() == old(Footprint()) && messageType.None? && passthroughStart == -1
      ensures old(View(Pending(chunk, start, offset))).Stream?
      ensures State() == old(View(Pending(chunk, start, offset))).(phase := Between(None), armed := false)
    {
      passthroughStart := FlushPassthrough(chunk, start, offset);
      DropStaleHeldReadyForQuery();
      dropNextCopyInResponse := false;
    }

    /** A whole ReadyForQuery: held if suppressing, else passed on. */
    method TakeReadyForQuery(chunk: seq<byte>, offset: nat, start: int) returns (passthroughStart: int)
      requires Valid() && messageType.None? && LazyOk(start, offset) && offset + 6 <= |chunk|
      requires chunk[offset..offset + 6] == RfqFrame(chunk[offset + 5])
      modifies this, heldRfq
      ensures Valid() && Footprint() == old(Footprint()) && messageType.None? && passthroughStart == -1
      ensures old(View(Pending(chunk, start, offset))).Stream?
      ensures State() == old(View(Pending(chunk, start, offset))).(
                trace := old(events) + [ReadyForQuery(chunk[offset + 5])],
                phase := Between(if suppressIntermediateReadyForQuery then Some(chunk[offset + 5]) else None),
                out := old(output) + Pending(chunk, start, offset)
                       + if suppressIntermediateReadyForQuery then [] else chunk[offset..offset + 6])
    {
      passthroughStart := FlushPassthrough(chunk, start, offset);
      DropStaleHeldReadyForQuery();
      assert output + [] == output;
      Blit(heldRfq, 0, chunk[offset..offset + 6]);
      assert heldRfq[..] == chunk[offset..offset + 6];
      rfqBytesRead := 6;
      events := events + [ReadyForQuery(heldRfq[5])];
      if !suppressIntermediateReadyForQuery {
        output := output + heldRfq[..6];
        rfqBytesRead := 0;
      }
      assert output + [] == output;
    }

    /** A whole RowDescription that needs the rewrite: a private copy is rewritten and passed on. */
    method TakeRowDescription(frame: seq<byte>)
      requires Valid() && messageType.None?
      modifies this`output
      ensures Valid() && Footprint() == old(Footprint())
      ensures old(State()).Stream?
      ensures State() == old(State()).(out := old(output) + RowDescription.Rewritten(frame))
    {
      var buf := new byte[|frame|];
      Blit(buf, 0, frame);
      assert buf[..] == frame;
      EmitRewrittenRowDescription(buf);
      assert output + [] == output;
    }

    method DropStaleHeldReadyForQuery()
      requires Valid() && messageType.None?
      modifies this`rfqBytesRead
      ensures Valid() && rfqBytesRead == 0
      ensures old(State()).Stream? && State() == old(State()).(phase := Between(None))
    {
      if suppressIntermediateReadyForQuery && rfqBytesRead == 6 {
        rfqBytesRead := 0;
      }
    }

    method EmitRewrittenRowDescription(buf: array<byte>)
      modifies this`output, buf
      ensures output == old(output) + RowDescription.Rewritten(old(buf[..]))
    {
      RowDescription.RewriteRowDescriptionInPlace(buf);
      output := output + buf[..];
    }

    /** Reads header bytes; `ok` is false when the header declares an impossible length. */
    method ReadHeader(chunk: seq<byte>, offset: nat) returns (ok: bool, next: nat)
      requires Valid() && messageType.Some? && headerBytesRead < 4 && offset < |chunk|
      modifies this, headerScratch, heldRfq
      ensures Shape() && fresh(Footprint() - old(Footprint()))
      ensures offset < next <= |chunk|
      ensures ok ==> Valid() && State() == Run(old(State()), chunk[offset..next])
      ensures next <= offset + 4 && (ok && messageType.Some? && headerBytesRead < 4 ==> next == |chunk|)
      ensures !ok ==> Run(old(State()), chunk[offset..next]) == Broken(output, events)
      ensures !ok ==> !GoodLength(U32At(headerScratch[..], 0))
    {
      hide Run, HeaderDone, U32At;
      ghost var s := State();
      var bytesToCopy := Min(4 - headerBytesRead, |chunk| - offset);
      var headerChunk := chunk[offset..offset + bytesToCopy];
      next := offset + bytesToCopy;
      CopyHeaderBytes(headerChunk);
      if headerBytesRead < 4 {
        RunHeader(s, headerChunk);
        return true, next;
      }
      RunWholeHeader(s, headerChunk);
      assert headerScratch[..] == headerScratch[..headerBytesRead] == s.phase.hdr + headerChunk;
      assert output + [] == output;
      var messageLength := U32At(headerScratch[..], 0);
      if !GoodLength(messageLength) {
        BadLength(s, s.phase.ty, headerScratch[..], s.phase.dropping);
        assert output + [] == output;
        return false, next;
      }
      HeaderDoneIgnoresPhase(s, s.(phase := Between(None)), s.phase.ty, headerScratch[..], s.phase.dropping);
      EndHeader(messageLength);
      HeaderIsOver(s, s.phase.ty, headerScratch[..], s.phase.dropping);
      ok := true;
    }

    /** Appends header bytes to the scratch header and, for a possible ReadyForQuery, to the held frame. */
    method CopyHeaderBytes(headerChunk: seq<byte>)
      requires Valid() && messageType.Some? && headerBytesRead < 4
      requires 0 < |headerChunk| <= 4 - headerBytesRead
      modifies this`rfqBytesRead, this`headerBytesRead, headerScratch, heldRfq
      ensures headerBytesRead == old(headerBytesRead) + |headerChunk|
      ensures headerScratch[..headerBytesRead] == old(headerScratch[..headerBytesRead]) + headerChunk
      ensures headerBytesRead < 4 ==> Valid()
      ensures if messageType.value == READY_FOR_QUERY
              then rfqBytesRead == 1 + headerBytesRead
                   && heldRfq[..rfqBytesRead] == [READY_FOR_QUERY] + headerScratch[..headerBytesRead]
              else rfqBytesRead == 0
    {
      Blit(headerScratch, headerBytesRead, headerChunk);
      if messageType.value == READY_FOR_QUERY {
        Blit(heldRfq, rfqBytesRead, headerChunk);
        rfqBytesRead := rfqBytesRead + |headerChunk|;
      }
      headerBytesRead := headerBytesRead + |headerChunk|;
    }

    /** The header is complete and its length is possible: decides what the payload is. */
    method EndHeader(messageLength: nat)
      requires Shape() && messageType.Some? && headerBytesRead == 4 && rowDescBuffer == null
      requires U32At(headerScratch[..], 0) == messageLength && GoodLength(messageLength)
      requires if messageType.value == READY_FOR_QUERY
               then rfqBytesRead == 5 && !droppingMessage && heldRfq[..5] == [READY_FOR_QUERY] + headerScratch[..]
               else rfqBytesRead == 0
      modifies this
      ensures Valid() && fresh(Footprint() - old(Footprint()))
      ensures State() == HeaderDone(old(Stream(suppressIntermediateReadyForQuery, rewriteSystemCatalogCharOids,
                                               dropNextCopyInResponse, Between(None), output, events)),
                                    old(messageType.value), headerScratch[..], old(droppingMessage))
    {
      hide U32At, PayloadPhase, ForwardsHeader, HeaderDone, Valid, PhaseOf;
      ghost var s := Stream(suppressIntermediateReadyForQuery, rewriteSystemCatalogCharOids,
                            dropNextCopyInResponse, Between(None), output, events);
      HeaderDoneCases(s, messageType.value, headerScratch[..], droppingMessage);
      LengthBytes(headerScratch[..]);
      payloadBytesRemaining := messageLength - 4;
      rfqFrame := messageType.value == READY_FOR_QUERY && messageLength == 5;
      if messageType.value == ERROR_RESPONSE {
        events := events + [ErrorSeen];
      }
      BeginStatusOrPayload();
    }

    method BeginStatusOrPayload()
      requires Shape() && messageType.Some? && headerBytesRead == 4 && rowDescBuffer == null
      requires payloadBytesRemaining == 0 ==> headerScratch[..] == [0, 0, 0, 4]
      requires rfqFrame ==> messageType.value == READY_FOR_QUERY && payloadBytesRemaining == 1
      requires rfqFrame ==> rfqBytesRead == 5 && !droppingMessage && heldRfq[..5] == [READY_FOR_QUERY, 0, 0, 0, 5]
      modifies this
      ensures Valid() && fresh(Footprint() - old(Footprint()))
      ensures State() == old(
          if rfqFrame
          then Stream(suppressIntermediateReadyForQuery, rewriteSystemCatalogCharOids, dropNextCopyInResponse,
                      StatusByte, output, events)
          else Stream(suppressIntermediateReadyForQuery, rewriteSystemCatalogCharOids, dropNextCopyInResponse,
                      PayloadPhase(rewriteSystemCatalogCharOids, messageType.value, headerScratch[..],
                                   payloadBytesRemaining, droppingMessage),
                      if ForwardsHeader(rewriteSystemCatalogCharOids, messageType.value, droppingMessage)
                      then output + [messageType.value] + headerScratch[..] else output, events))
    {
      hide PayloadPhase, ForwardsHeader, Valid, PhaseOf;
      if rfqFrame {
        assert output + [] == output;
        StatusByteIsNext();
      } else {
        rfqBytesRead := 0;
        BeginPayload();
      }
    }

    lemma {:induction false} StatusByteIsNext()
      requires Shape() && messageType == Some(READY_FOR_QUERY) && headerBytesRead == 4 && rowDescBuffer == null
      requires rfqFrame && rfqBytesRead == 5 && payloadBytesRemaining == 1 && !droppingMessage
      requires heldRfq[..5] == [READY_FOR_QUERY, 0, 0, 0, 5]
      ensures Valid() && PhaseOf() == StatusByte
    {
    }

    method BeginPayload()
      requires Shape() && messageType.Some? && headerBytesRead == 4 && rowDescBuffer == null
      requires !rfqFrame && rfqBytesRead == 0
      requires payloadBytesRemaining == 0 ==> headerScratch[..] == [0, 0, 0, 4]
      modifies this
      ensures Valid() && fresh(Footprint() - old(Footprint()))
      ensures State() == old(Stream(suppressIntermediateReadyForQuery, rewriteSystemCatalogCharOids,
                                    dropNextCopyInResponse,
                                    PayloadPhase(rewriteSystemCatalogCharOids, messageType.value, headerScratch[..],
                                                 payloadBytesRemaining, droppingMessage),
                                    if ForwardsHeader(rewriteSystemCatalogCharOids, messageType.value, droppingMessage)
                                    then output + [messageType.value] + headerScratch[..] else output,
                                    events))
    {
      assert output + [] == output;
      if droppingMessage {
        if payloadBytesRemaining == 0 {
          FinishMessage();
        }
        return;
      }
      if messageType.value == ROW_DESCRIPTION && rewriteSystemCatalogCharOids {
        BeginRowDescription();
        return;
      }
      EmitPrefix();
      assert output + [] == output;
      if payloadBytesRemaining == 0 {
        FinishMessage();
      }
    }

    method EmitPrefix()
      requires Shape() && messageType.Some?
      modifies this`output
      ensures output == old(output) + [messageType.value] + headerScratch[..]
    {
      output := output + ([messageType.value] + headerScratch[..]);
    }

    /** Allocates the buffer that gathers a RowDescription. */
    method BeginRowDescription()
      requires Shape() && rowDescBuffer == null && messageType == Some(ROW_DESCRIPTION) && headerBytesRead == 4
      requires !rfqFrame && !droppingMessage && rfqBytesRead == 0
      requires payloadBytesRemaining == 0 ==> headerScratch[..] == [0, 0, 0, 4]
      modifies this`rowDescBuffer, this`rowDescOffset
      ensures Valid() && fresh(Footprint() - old(Footprint()))
      ensures State() == Stream(suppressIntermediateReadyForQuery, rewriteSystemCatalogCharOids, dropNextCopyInResponse,
                                if payloadBytesRemaining == 0 then EmptyRowDescription
                                else Collecting([ROW_DESCRIPTION] + headerScratch[..], payloadBytesRemaining),
                                output, events)
    {
      assert output + [] == output;
      var buf := new byte[5 + payloadBytesRemaining];
      buf[0] := ROW_DESCRIPTION;
      Blit(buf, 1, headerScratch[..]);
      rowDescBuffer, rowDescOffset := buf, 5;
      assert buf[..5] == [ROW_DESCRIPTION] + headerScratch[..];
      if payloadBytesRemaining == 0 {
        assert buf[..] == buf[..5];
      }
    }

    method FinishMessage()
      requires Shape() && rowDescBuffer == null
      requires suppressIntermediateReadyForQuery && rfqBytesRead != 0 ==>
                 rfqBytesRead == 6 && heldRfq[..5] == [READY_FOR_QUERY, 0, 0, 0, 5]
      modifies this
      ensures Valid() && Footprint() == old(Footprint()) && messageType.None?
      ensures State() == old(Stream(suppressIntermediateReadyForQuery, rewriteSystemCatalogCharOids,
                               dropNextCopyInResponse,
                               Between(if suppressIntermediateReadyForQuery && rfqBytesRead == 6
                                       then Some(heldRfq[5]) else None), output, events))
    {
      assert output + [] == output;
      messageType := None;
      headerBytesRead, payloadBytesRemaining := 0, 0;
      rfqFrame, droppingMessage := false, false;
      if !suppressIntermediateReadyForQuery {
        rfqBytesRead := 0;
      }
    }

    /** Reads the status byte that ends a ReadyForQuery. */
    method ReadStatusByte(b: byte)
      requires Valid() && messageType.Some? && headerBytesRead == 4 && rfqFrame
      modifies this, heldRfq
      ensures Valid() && Footprint() == old(Footprint()) && messageType.None?
      ensures State() == Run(old(State()), [b])
    {
      assert output + [] == output;
      heldRfq[5] := b;
      rfqBytesRead := 6;
      payloadBytesRemaining := 0;
      assert heldRfq[..6] == heldRfq[..5] + [b] == RfqFrame(b);
      events := events + [ReadyForQuery(heldRfq[5])];
      if !suppressIntermediateReadyForQuery {
        output := output + heldRfq[..6];
      }
      FinishMessage();
    }

    /** Reads payload bytes of any other frame; nothing is read when an empty RowDescription was waiting. */
    method ReadPayload(chunk: seq<byte>, offset: nat) returns (next: nat)
      requires Valid() && messageType.Some? && headerBytesRead == 4 && !rfqFrame && offset < |chunk|
      modifies Footprint()
      ensures Valid() && Footprint() <= old(Footprint())
      ensures offset <= next <= |chunk|
      ensures offset < next ==> State() == Run(old(State()), chunk[offset..next]) && !Waiting()
      ensures messageType.Some? ==> headerBytesRead == 4
      ensures offset == next ==> old(payloadBytesRemaining) == 0 && messageType.None? && State() == Settle(old(State()))
    {
      hide Run, Settle;
      var bytesToEmit := Min(payloadBytesRemaining, |chunk| - offset);
      next := offset + bytesToEmit;
      if bytesToEmit > 0 { PayloadNeverWaits(State(), chunk[offset..next]); }
      if droppingMessage {
        DropPayload(chunk[offset..next]);
      } else if rowDescBuffer != null {
        CollectPayload(chunk[offset..next]);
      } else {
        ForwardPayload(chunk[offset..next]);
      }
    }

    method DropPayload(part: seq<byte>)
      requires Valid() && messageType.Some? && headerBytesRead == 4 && !rfqFrame
      requires droppingMessage && 0 < |part| <= payloadBytesRemaining
      modifies this
      ensures Valid() && Footprint() == old(Footprint())
      ensures State() == Run(old(State()), part)
    {
      hide Run, Step;
      RunDropping(State(), part);
      payloadBytesRemaining := payloadBytesRemaining - |part|;
      if payloadBytesRemaining == 0 {
        FinishMessage();
      }
    }

    method ForwardPayload(part: seq<byte>)
      requires Valid() && messageType.Some? && headerBytesRead == 4 && !rfqFrame
      requires !droppingMessage && rowDescBuffer == null && 0 < |part| <= payloadBytesRemaining
      modifies this
      ensures Valid() && Footprint() == old(Footprint())
      ensures State() == Run(old(State()), part)
    {
      hide Run, Step;
      assert output + [] == output;
      RunForwarding(State(), part);
      output := output + part;
      assert output + [] == output;
      payloadBytesRemaining := payloadBytesRemaining - |part|;
      if payloadBytesRemaining == 0 {
        FinishMessage();
      }
    }

    method CollectPayload(part: seq<byte>)
      requires Valid() && messageType.Some? && headerBytesRead == 4 && !rfqFrame
      requires !droppingMessage && rowDescBuffer != null && |part| <= payloadBytesRemaining
      requires part == [] ==> payloadBytesRemaining == 0
      modifies Footprint()
      ensures Valid() && Footprint() <= old(Footprint())
      ensures part != [] ==> State() == Run(old(State()), part)
      ensures part == [] ==> messageType.None? && State() == Settle(old(State()))
    {
      hide Run, Step;
      assert output + [] == output;
      ghost var s := State();
      if part != [] { RunCollecting(s, part); }
      Blit(rowDescBuffer, rowDescOffset, part);
      rowDescOffset := rowDescOffset + |part|;
      payloadBytesRemaining := payloadBytesRemaining - |part|;
      if payloadBytesRemaining == 0 {
        assert rowDescBuffer[..rowDescOffset] == rowDescBuffer[..];
        if part == [] { EmptyRowDescriptionUnchanged(); }
        EndRowDescription();
      }
    }

    /** The frame is complete: rewrites it and passes it on. */
    method EndRowDescription()
      requires Shape() && rowDescBuffer != null && rfqBytesRead == 0
      modifies this, rowDescBuffer
      ensures Valid() && Footprint() <= old(Footprint()) && messageType.None?
      ensures State() == old(Stream(suppressIntermediateReadyForQuery, rewriteSystemCatalogCharOids,
                                    dropNextCopyInResponse, Between(None),
                                    output + RowDescription.Rewritten(rowDescBuffer[..]), events))
    {
      var buf := rowDescBuffer;
      rowDescBuffer := null;
      EmitRewrittenRowDescription(buf);
      FinishMessage();
    }

    /** Ends the stream, which must be at a frame boundary. */
    method Flush(dropHeldReadyForQuery: bool) returns (r: Result)
      requires Valid()
      modifies this
      ensures Valid() && events == old(events) && Footprint() == old(Footprint())
      ensures match Finish(old(State()), dropHeldReadyForQuery)
              case Complete(out) => r.Done? && output == out && State().phase == Between(None)
              case Incomplete => r.Incomplete? && State() == old(State())
    {
      assert output + [] == output;
      if messageType.Some? {
        return Result.Incomplete;
      }
      if dropHeldReadyForQuery {
        rfqBytesRead := 0;
      } else if suppressIntermediateReadyForQuery && rfqBytesRead == 6 {
        assert heldRfq[..6] == heldRfq[..5] + [heldRfq[5]] == RfqFrame(heldRfq[5]);
        output := output + heldRfq[..6];
        rfqBytesRead := 0;
      }
      r := Done;
    }
  }

  lemma {:induction false} EmptyRowDescriptionUnchanged()
    ensures RowDescription.Rewritten(EMPTY_ROW_DESCRIPTION) == EMPTY_ROW_DESCRIPTION
  {
    EmptyFrameUnchanged(Frame(ROW_DESCRIPTION, []));
  }

  function Min(a: nat, b: nat): nat {
    if a <= b then a else b
  }

  lemma {:induction false} LengthBytes(hdr: seq<byte>)
    requires |hdr| == 4
    ensures U32At(hdr, 0) == 4 ==> hdr == [0, 0, 0, 4]
    ensures U32At(hdr, 0) == 5 ==> hdr == [0, 0, 0, 5]
  {
    U32BytesUnique(hdr);
    assert U32Bytes(4) == [0, 0, 0, 4] && U32Bytes(5) == [0, 0, 0, 5];
  }
}
