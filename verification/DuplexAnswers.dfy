/** What the client of the duplex gets back (src/duplex/index.ts): for calls, for COPY conversations, at the end. */
module DuplexAnswers {
  import opened Bytes
  import opened Wrappers
  import opened BackendStream
  import opened BackendFilter
  import opened DuplexProtocol
  import opened DuplexLedger
  import CopyIn

  // ---- Frames of the duplex itself ----

  /** A field of an ErrorResponse. */
  function Field(ty: char, value: seq<byte>): seq<byte>
    requires ty < 128 as char
  {
    [ty as byte] + value + [0]
  }

  /** The bytes of an ASCII string. */
  function Ascii(s: string): (t: seq<byte>)
    ensures |t| == |s|
  {
    seq(|s|, i requires 0 <= i < |s| => if s[i] < 128 as char then s[i] as byte else 0x3f)
  }

  /** An ErrorResponse: severity, in both forms, code and message, each in its field, and the end of the fields. */
  function ErrorResponse(code: string, message: Message): Frame {
    Frame(0x45, Field('S', Ascii("ERROR")) + Field('V', Ascii("ERROR")) + Field('C', Ascii(code)) + Field('M', message)
                + [0])
  }

  /** A ReadyForQuery with this status, or the idle one. */
  function ReadyForQueryFrame(status: Option<byte>): Frame {
    Frame(0x5a, [if status.Some? then status.value else 0x49])
  }

  /** A CopyInResponse: text format, no columns. */
  const COPY_IN_RESPONSE_FRAME: Frame := Frame(0x47, [0, 0, 0])

  function Refusal(code: string, message: Message, status: Option<byte>): seq<Frame> {
    [ErrorResponse(code, message), ReadyForQueryFrame(status)]
  }

  lemma {:induction false} FieldsSpelled(code: string, message: Message)
    requires |code| == 5
    ensures ErrorFields(Ascii(code), message) == ErrorResponse(code, message).payload
  {
    var e := Ascii("ERROR");
    assert e == [0x45, 0x52, 0x52, 0x4f, 0x52];
    assert Field('S', e) == [0x53, 0x45, 0x52, 0x52, 0x4f, 0x52, 0];
    assert Field('V', e) == [0x56, 0x45, 0x52, 0x52, 0x4f, 0x52, 0];
    assert Field('C', Ascii(code)) == [0x43] + Ascii(code) + [0];
    assert Field('M', message) == [0x4d] + message + [0];
  }

  /** A refusal is two protocol frames: one error, and one ReadyForQuery with the last status seen. */
  lemma {:induction false} RefusalFrames(code: string, message: Message, status: Option<byte>)
    requires |code| == 5
    ensures var frames := Refusal(code, message, status);
      AllLegal(frames) && EncodeAll(frames) == ErrorFrame(Ascii(code), message) + ReadyFrame(status) && IsRfq(frames[1])
  {
    var e, z := ErrorResponse(code, message), ReadyForQueryFrame(status);
    FieldsSpelled(code, message);
    assert [e, z][..1] == [e] && [e][..0] == [];
    assert U32Bytes(5) == [0, 0, 0, 5];
    assert Encode(z) == ReadyFrame(status);
    assert EncodeAll([]) + Encode(e) == Encode(e);
  }

  lemma {:induction false} Codes()
    ensures Ascii("54000") == PROGRAM_LIMIT && Ascii("0A000") == NOT_SUPPORTED
  {
  }

  /** The prompt to start copying is a frame of the protocol. */
  lemma {:induction false} PromptIsCopyInResponse()
    ensures Legal(COPY_IN_RESPONSE_FRAME) && Encode(COPY_IN_RESPONSE_FRAME) == COPY_IN_FRAME
  {
    assert U32Bytes(7) == [0, 0, 0, 7];
  }

  // ---- Queries ----

  /** A Query with this text, and whatever unit ends it. */
  function QueryFrame(text: seq<byte>, end: byte): Frame {
    Frame(0x51, text + [end])
  }

  lemma {:induction false} TextOfQuery(env: Env, text: seq<byte>, end: byte)
    requires Legal(QueryFrame(text, end))
    ensures QueryText(env, Encode(QueryFrame(text, end))) == env.decode(text)
  {
    var f := Encode(QueryFrame(text, end));
    assert f == [0x51] + U32Bytes(|text| + 5) + text + [end];
    assert f[5..|f| - 1] == text;
  }

  /** A Query is judged by its text: captured, refused, or sent on its own. */
  lemma {:induction false} QueryIsJudged(env: Env, st: State, text: seq<byte>, end: byte)
    requires st.stage.Ready? && st.capture == None && Legal(QueryFrame(text, end))
    ensures var f := Encode(QueryFrame(text, end));
      match CopyIn.Sniff(env.decode(text))
      case Capture => OnNext(env, st, f) == st.(
        capture := Some(if |f| <= env.cap then Capture([f], |f|, false) else Capture([], 0, true)),
        output := st.output + Encode(COPY_IN_RESPONSE_FRAME))
      case RejectMulti =>
        var refusal := Refusal("0A000", env.multiStatement, st.status);
        AllLegal(refusal) && OnNext(env, st, f) == st.(output := st.output + EncodeAll(refusal))
      case NotCopyIn => OnNext(env, st, f) == Serve(env, st, f, Passthrough)
  {
    hide CopyIn.Sniff, Serve, QueryText, EncodeAll, U32Bytes;
    TextOfQuery(env, text, end);
    RefusalFrames("0A000", env.multiStatement, st.status);
    PromptIsCopyInResponse();
    Codes();
    var f := Encode(QueryFrame(text, end));
    assert [] + [f] == [f];
  }

  /** A Query without payload is judged as the empty text. */
  lemma {:induction false} EmptyQueryIsJudged(env: Env, st: State)
    requires st.stage.Ready? && st.capture == None
    ensures OnNext(env, st, Encode(Frame(0x51, []))) == Serve(env, st, Encode(Frame(0x51, [])), Passthrough)
  {
    hide Serve;
    assert CopyIn.Sniff([]).NotCopyIn? by { NothingIsNoCopyIn(); }
  }

  lemma {:induction false} NothingIsNoCopyIn()
    ensures CopyIn.Sniff([]).NotCopyIn?
  {
    assert CopyIn.Strip(None, []) == [];
    assert CopyIn.Split([]) == [[]];
    assert CopyIn.Trim([]) == [];
    assert CopyIn.NonEmpty([[]]) == [];
  }

  /** A copy-in hidden among other statements reaches nobody and is answered by one error and one ReadyForQuery. */
  lemma {:induction false} MultiStatementIsRefused(env: Env, st: State, text: seq<byte>, end: byte)
    requires st.stage.Ready? && st.capture == None && Legal(QueryFrame(text, end))
    requires CopyIn.Sniff(env.decode(text)).RejectMulti?
    ensures var refusal := Refusal("0A000", env.multiStatement, st.status);
      && AllLegal(refusal)
      && OnNext(env, st, Encode(QueryFrame(text, end))) == st.(output := st.output + EncodeAll(refusal))
  {
    hide CopyIn.Sniff;
    QueryIsJudged(env, st, text, end);
  }

  // ---- COPY conversations ----

  function Steps(env: Env, st: State, frames: seq<seq<byte>>): State
    requires forall i :: 0 <= i < |frames| ==> frames[i] != []
  {
    if frames == [] then st else OnNext(env, Steps(env, st, frames[..|frames| - 1]), frames[|frames| - 1])
  }

  /** What the capture is after the frames of a conversation: all of them, or nothing once the cap is passed. */
  lemma {:induction false} CaptureAfter(env: Env, st: State, frames: seq<seq<byte>>)
    requires st.stage.Ready? && st.capture == None && CopyConversation(env, frames)
    requires forall i :: 0 <= i < |frames| ==> frames[i] != []
    ensures var r := Steps(env, st, frames);
      && r.capture.Some? && r == st.(capture := r.capture, output := st.output + COPY_IN_FRAME)
      && var c := r.capture.value;
         if |Flatten(frames)| > env.cap then c.discarding
         else c == Capture(frames, |Flatten(frames)|, false)
  {
    hide CopyIn.Sniff, Serve;
    var init, last := frames[..|frames| - 1], frames[|frames| - 1];
    assert frames == init + [last];
    FlattenSnoc(init, last);
    if init == [] {
      FlattenOne(last);
      assert frames[0] == last;
    } else {
      assert init[0] == frames[0];
      CaptureAfter(env, st, init);
      assert last[0] == COPY_DATA;
    }
  }

  lemma {:induction false} ConversationEnds(env: Env, st: State, frames: seq<seq<byte>>, last: seq<byte>)
    requires st.stage.Ready? && st.capture == None && CopyConversation(env, frames)
    requires last != [] && (last[0] == COPY_DONE || last[0] == COPY_FAIL)
    requires forall i :: 0 <= i < |frames| ==> frames[i] != []
    ensures var all := frames + [last];
      var asked := st.(output := st.output + COPY_IN_FRAME);
      var refusal := Refusal("54000", env.overCap, st.status);
      && AllLegal(refusal)
      && Steps(env, st, all) ==
           if |Flatten(all)| <= env.cap then Serve(env, asked, Flatten(all), RfqMode.CopyIn)
           else asked.(output := asked.output + EncodeAll(refusal))
  {
    hide Serve, CopyConversation, EncodeAll;
    var all := frames + [last];
    assert all[..|all| - 1] == frames;
    CaptureAfter(env, st, frames);
    FlattenSnoc(frames, last);
    RefusalFrames("54000", env.overCap, st.status);
    Codes();
    var asked := st.(output := st.output + COPY_IN_FRAME);
    assert asked.(capture := None) == asked;
    assert asked.output + ErrorFrame(PROGRAM_LIMIT, env.overCap) + ReadyFrame(st.status)
        == asked.output + (ErrorFrame(PROGRAM_LIMIT, env.overCap) + ReadyFrame(st.status));
  }

  /** A Query and CopyData frames with this data, encoded one by one. */
  function Conversation(text: seq<byte>, end: byte, data: seq<seq<byte>>): (r: seq<seq<byte>>)
    requires Legal(QueryFrame(text, end)) && forall i :: 0 <= i < |data| ==> Legal(Frame(0x64, data[i]))
    ensures |r| == 1 + |data| && forall i :: 0 <= i < |r| ==> r[i] != []
  {
    [Encode(QueryFrame(text, end))] + seq(|data|, i requires 0 <= i < |data| => Encode(Frame(0x64, data[i])))
  }

  /**
   * A whole COPY conversation: within the cap it is one call with exactly its bytes; past the cap nothing is called
   * and the answer is one error and one ReadyForQuery. Either way the client was first told to start copying.
   */
  lemma {:induction false} CopyConversationOutcome(env: Env, st: State, text: seq<byte>, end: byte,
                                                   data: seq<seq<byte>>, last: Frame)
    requires st.stage.Ready? && st.capture == None
    requires Legal(QueryFrame(text, end)) && forall i :: 0 <= i < |data| ==> Legal(Frame(0x64, data[i]))
    requires CopyIn.Sniff(env.decode(text)).Capture?
    requires Legal(last) && (last.ty == 0x63 || last.ty == 0x66)
    ensures var all := Conversation(text, end, data) + [Encode(last)];
      var asked := st.(output := st.output + Encode(COPY_IN_RESPONSE_FRAME));
      var refusal := Refusal("54000", env.overCap, st.status);
      && AllLegal(refusal)
      && Steps(env, st, all) ==
           if |Flatten(all)| <= env.cap then Serve(env, asked, Flatten(all), RfqMode.CopyIn)
           else asked.(output := asked.output + EncodeAll(refusal))
  {
    hide Serve, CopyIn.Sniff, EncodeAll, QueryText;
    TextOfQuery(env, text, end);
    PromptIsCopyInResponse();
    ConversationEnds(env, st, Conversation(text, end, data), Encode(last));
  }

  // ---- Responses ----

  /** The status of the last ReadyForQuery among the frames. */
  function LastStatus(frames: seq<Frame>): Option<byte> {
    if frames == [] then None
    else if IsRfq(frames[|frames| - 1]) then Some(frames[|frames| - 1].payload[0])
    else LastStatus(frames[..|frames| - 1])
  }

  lemma {:induction false} StatusOfFrames(status: Option<byte>, frames: seq<Frame>)
    ensures StatusAfter(status, EventsOf(frames))
         == if LastStatus(frames).Some? then LastStatus(frames) else status
  {
    if frames != [] {
      var init, last := frames[..|frames| - 1], frames[|frames| - 1];
      StatusOfFrames(status, init);
      var trace := EventsOf(init);
      assert trace + [] == trace;
      assert Events(last) != [] ==> EventsOf(frames)[..|EventsOf(frames)| - 1] == trace;
    }
  }

  /** A reply made of complete frames. */
  predicate WellFramed(reply: Reply, frames: seq<Frame>) {
    AllLegal(frames) && Flatten(reply.chunks) == EncodeAll(frames)
  }

  /** The reply ends in a RowDescription without payload that was cut off from what came before its last byte. */
  predicate CutShort(rewrite: bool, reply: Reply, frames: seq<Frame>) {
    && rewrite && frames != [] && frames[|frames| - 1] == Frame(0x54, [])
    && LastSize(reply.chunks) < WHOLE_FRAME
  }

  /** The connection has ended: an open transaction, and nothing else, is still rolled back. */
  predicate TornDownAfter(st: State, calls: seq<Call>, status: Option<byte>) {
    && st.stage.TornDown? && st.status == status
    && st.calls == if status in {Some(0x54), Some(0x45)} then calls + [Rollback] else calls
  }

  /**
   * The client gets exactly the frames that the mode keeps, however the backend cut them into chunks, and the status
   * is that of the last ReadyForQuery, kept or not. An error at a flush boundary makes one more, silent call; if that
   * is rejected, the connection ends. It also ends after an empty RowDescription cut off at the end.
   */
  lemma {:induction false} ResponseReachesClient(env: Env, st: State, batch: seq<byte>, mode: RfqMode,
                                                 frames: seq<Frame>)
    requires var reply := env.backend(st.calls + [Forward(batch, mode)]); WellFramed(reply, frames) && !reply.rejects
    ensures var calls := st.calls + [Forward(batch, mode)];
      var r := Serve(env, st, batch, mode);
      var status := if LastStatus(frames).Some? then LastStatus(frames) else st.status;
      var output := st.output + Filter(mode, env.rewrite, frames);
      if CutShort(env.rewrite, env.backend(calls), frames) then TornDownAfter(r, calls, status)
      else if !mode.FlushBoundary? || !HasType(frames, 0x45) then
        r == st.(calls := calls, status := status, output := output)
      else if env.backend(calls + [RecoverySync]).rejects then
        TornDownAfter(r, calls + [RecoverySync], status) && r.output == output
      else r == st.(calls := calls + [RecoverySync], status := status, output := output)
  {
    hide Run, ReadChunks, LastSize, HasType, Filter, EncodeAll, StatusAfter;
    var calls := st.calls + [Forward(batch, mode)];
    ResponseIsFiltered(mode, env.rewrite, frames, [], []);
    OnlyTheEndDependsOnChunks(StartOf(mode, env.rewrite, [], []), env.backend(calls).chunks);
    WaitsIffEmptyRowDescription(mode, env.rewrite, frames, [], []);
    ErrorSeenIffErrorFrame(frames);
    StatusOfFrames(st.status, frames);
    assert [] + EventsOf(frames) == EventsOf(frames);
    assert [] + Filter(mode, env.rewrite, frames) == Filter(mode, env.rewrite, frames);
  }

  /** A call that rejects ends the connection, whatever it answered before, and nothing is sent any more. */
  lemma {:induction false} RejectionEnds(env: Env, st: State, batch: seq<byte>, mode: RfqMode)
    requires env.backend(st.calls + [Forward(batch, mode)]).rejects
    ensures var r := Serve(env, st, batch, mode); TornDownAfter(r, st.calls + [Forward(batch, mode)], r.status)
  {
    hide Response, StatusAfter, Finish;
  }

  // ---- The end ----

  /** ROLLBACK is the last thing a connection does, exactly when it ends inside a transaction. */
  ghost predicate RollbackIsLast(st: State) {
    && (forall k :: 0 <= k < |st.calls| && st.calls[k].Rollback? ==> k == |st.calls| - 1 && IsOver(st))
    && (IsOver(st) ==>
          (st.status in {Some(0x54), Some(0x45)} <==> st.calls != [] && st.calls[|st.calls| - 1].Rollback?))
  }

  lemma {:induction false} EndRollsBack(st: State, stage: Stage)
    requires !IsOver(st) && RollbackIsLast(st) && (stage.Terminated? || stage.TornDown?)
    ensures RollbackIsLast(End(st, stage))
  {
  }

  lemma {:induction false} ServeRollsBack(env: Env, st: State, batch: seq<byte>, mode: RfqMode)
    requires !IsOver(st) && RollbackIsLast(st)
    ensures RollbackIsLast(Serve(env, st, batch, mode))
  {
    hide Response, Succeeds, StatusAfter, Finish;
  }

  lemma {:induction false} StepRollsBack(env: Env, st: State, frame: seq<byte>)
    requires !IsOver(st) && RollbackIsLast(st) && frame != []
    ensures RollbackIsLast(OnNext(env, st, frame))
  {
    hide Serve, CopyIn.Sniff, End;
    EndRollsBack(st, Terminated);
    EndRollsBack(st, TornDown);
    ServeRollsBack(env, st, frame, Passthrough);
    ServeRollsBack(env, st.(pipeline := []), Flatten(st.pipeline + [frame]), Suppress);
    ServeRollsBack(env, st.(pipeline := []), Flatten(st.pipeline + [frame]), FlushBoundary);
    if st.capture.Some? {
      ServeRollsBack(env, st.(capture := None), Flatten(Append(env, st.capture.value, frame).frames), RfqMode.CopyIn);
    }
  }

  lemma {:induction false} DrainRollsBack(env: Env, st: State)
    requires RollbackIsLast(st)
    ensures RollbackIsLast(Drain(env, st))
    decreases |st.pending|
  {
    hide OnNext, NextCut, End;
    if IsOver(st) {
    } else if NextCut(st.stage, st.pending).Whole? {
      var n := NextCut(st.stage, st.pending).n;
      var before := st.(pending := st.pending[n..]);
      StepRollsBack(env, before, st.pending[..n]);
      DrainRollsBack(env, OnNext(env, before, st.pending[..n]));
    } else if NextCut(st.stage, st.pending).BadLength? {
      EndRollsBack(st, TornDown);
    }
  }

  /**
   * For every stream on a new connection and every backend: an open transaction is rolled back when the connection
   * ends, at most once, and nothing is called after it.
   */
  lemma {:induction false} ConnectionsEndClean(env: Env, bytes: seq<byte>)
    ensures RollbackIsLast(Feed(env, INITIAL, bytes))
  {
    hide Drain;
    DrainRollsBack(env, INITIAL.(pending := INITIAL.pending + bytes));
  }
}
