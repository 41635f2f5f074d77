/**
 * The duplex itself (src/duplex/index.ts), proved against DuplexProtocol: a drain loop over the frontend chunk queue,
 * and a streaming call into PGlite whose response goes through the framer. Without a session lock; awaited work runs
 * to its end before the next write is taken.
 */
module PGliteDuplex {
  import opened Bytes
  import opened Wrappers
  import opened BackendStream
  import opened BackendFilter
  import opened BackendFramer
  import opened FrontendBuffer
  import opened DuplexProtocol
  import CopyIn

  // ---- Growth of a response ----

  /** A run only adds to the output and the callbacks. */
  lemma {:induction false} RunGrows(s: Stream, bytes: seq<byte>)
    ensures s.out <= Run(s, bytes).out && s.trace <= Run(s, bytes).trace
  {
    hide Run;
    var bare := s.(out := [], trace := []);
    RunShift(bare, bytes, s.out, s.trace);
    assert s.out + [] == s.out && s.trace + [] == s.trace;
    assert Shift(bare, s.out, s.trace) == s;
  }

  lemma {:induction false} SettleShift(s: Stream, out: seq<byte>, trace: seq<Event>)
    ensures Settle(Shift(s, out, trace)) == Shift(Settle(s), out, trace)
  {
    assert out + s.out + EMPTY_ROW_DESCRIPTION == out + (s.out + EMPTY_ROW_DESCRIPTION);
  }

  /** What chunks add does not depend on what was output before. */
  lemma {:induction false} ReadShift(s: Stream, chunks: seq<seq<byte>>, out: seq<byte>, trace: seq<Event>)
    ensures ReadChunks(Shift(s, out, trace), chunks) == Shift(ReadChunks(s, chunks), out, trace)
  {
    hide Run, Shift, Settle;
    if chunks != [] {
      var init, last := chunks[..|chunks| - 1], chunks[|chunks| - 1];
      ReadShift(s, init, out, trace);
      RunShift(ReadChunks(s, init), last, out, trace);
      SettleShift(Run(ReadChunks(s, init), last), out, trace);
    }
  }

  /** Reading a chunk breaks exactly when reading its bytes does, with the same callbacks. */
  lemma {:induction false} ReadIsRun(s: Stream, chunk: seq<byte>)
    ensures var t, u := Run(s, chunk), ReadChunk(s, chunk);
      (t.Broken? <==> u.Broken?) && (t.Broken? ==> u == t) && u.trace == t.trace && t.out <= u.out
  {
    hide Run;
  }

  lemma {:induction false} StatusInTwo(status: Option<byte>, a: seq<Event>, b: seq<Event>)
    ensures StatusAfter(status, a + b) == StatusAfter(StatusAfter(status, a), b)
  {
    if b == [] {
      assert a + b == a;
    } else {
      assert (a + b)[..|a + b| - 1] == a + b[..|b| - 1];
      StatusInTwo(status, a, b[..|b| - 1]);
    }
  }

  /** Once a length is impossible, what follows does not matter. */
  lemma {:induction false} BrokenForGood(s: Stream, chunks: seq<seq<byte>>, i: nat)
    requires i <= |chunks| && ReadChunks(s, chunks[..i]).Broken?
    ensures ReadChunks(s, chunks) == ReadChunks(s, chunks[..i])
    decreases |chunks|
  {
    hide Run;
    if i == |chunks| {
      assert chunks[..i] == chunks;
    } else {
      var init := chunks[..|chunks| - 1];
      assert init[..i] == chunks[..i];
      BrokenForGood(s, init, i);
      RunBroken(ReadChunks(s, init), chunks[|chunks| - 1]);
    }
  }

  /** One chunk further. */
  lemma {:induction false} NextChunk(s: Stream, chunks: seq<seq<byte>>, i: nat)
    requires i < |chunks|
    ensures ReadChunks(s, chunks[..i + 1]) == ReadChunk(ReadChunks(s, chunks[..i]), chunks[i])
    ensures ReadChunks(s, chunks[..i + 1]).Broken? ==> ReadChunks(s, chunks) == ReadChunks(s, chunks[..i + 1])
  {
    hide ReadChunk;
    assert chunks[..i + 1][..i] == chunks[..i];
    if ReadChunks(s, chunks[..i + 1]).Broken? {
      BrokenForGood(s, chunks, i + 1);
    }
  }

  /** The response as `Serve` sees it and the same response on top of earlier output. */
  lemma {:induction false} ResponseOnTop(env: Env, mode: RfqMode, reply: Reply, out: seq<byte>, trace: seq<Event>)
    ensures var s := Response(env, mode, reply);
      var t := ReadChunks(StartOf(mode, env.rewrite, out, trace), reply.chunks);
      && s.Stream? == t.Stream? && t.out == out + s.out && t.trace == trace + s.trace
      && (s.Stream? ==> t.phase == s.phase && t.suppress == s.suppress)
      && (forall drop :: match Finish(s, drop)
                         case Complete(o) => Finish(t, drop) == Ended.Complete(out + o)
                         case Incomplete => Finish(t, drop) == Ended.Incomplete)
  {
    hide ReadChunks;
    var start := StartOf(mode, env.rewrite, [], []);
    ReadShift(start, reply.chunks, out, trace);
    assert out + [] == out && trace + [] == trace;
    assert Shift(start, out, trace) == StartOf(mode, env.rewrite, out, trace);
    var s := Response(env, mode, reply);
    if s.Stream? && s.phase.Between? && s.phase.held.Some? {
      var f := RfqFrame(s.phase.held.value);
      assert out + (s.out + f) == out + s.out + f;
    }
  }

  class PGliteDuplex {
    const env: Env
    const input: FrontendMessageBuffer
    /** Its `output` is the readable side: the framer's chunk callback and the duplex itself push there. */
    const framer: BackendMessageFramer
    var phase: Stage
    var tornDown: bool
    var pipeline: seq<seq<byte>>
    var copyCapture: Option<Capture>
    var lastSeenRfqStatus: Option<byte>
    var errSeen: bool
    /** The calls made of PGlite. */
    var calls: seq<Call>

    ghost predicate Valid()
      reads this, input, framer
    {
      && input.Valid() && framer.Shape()
      && framer.rewriteSystemCatalogCharOids == env.rewrite
      && !phase.TornDown?
      && (tornDown || phase.Terminated? ==> input.Contents() == [])
    }

    ghost function Abs(): State
      requires Valid()
      reads this, input, framer
    {
      State(if tornDown then TornDown else phase, input.Contents(), pipeline, copyCapture, lastSeenRfqStatus, calls,
            framer.output)
    }

    /** The reference state, except that a call that failed may have kept back the end of its response. */
    ghost predicate Matches(st: State)
      requires Valid()
      reads this, input, framer
    {
      if tornDown then framer.output <= st.output && Abs().(output := st.output) == st else Abs() == st
    }

    /** An error was thrown; once the connection is destroyed the state will match. */
    ghost predicate Threw(st: State)
      requires Valid()
      reads this, input, framer
    {
      && !IsOver(Abs()) && framer.output <= st.output
      && End(Abs(), TornDown).(output := st.output) == st
    }

    ghost predicate Outcome(threw: bool, st: State)
      requires Valid()
      reads this, input, framer
    {
      if threw then Threw(st) else Matches(st)
    }

    constructor (env: Env)
      ensures Valid() && this.env == env && Abs() == INITIAL
      ensures fresh(input) && fresh(framer) && fresh(framer.Footprint())
    {
      this.env := env;
      input := new FrontendMessageBuffer();
      framer := new BackendMessageFramer(false, env.rewrite);
      phase, tornDown := PreStartup, false;
      pipeline, copyCapture, lastSeenRfqStatus, errSeen, calls := [], None, None, false, [];
    }

    // ---- Streaming one call ----

    /** Runs the framer's callbacks from the `from`-th on. */
    method RunCallbacks(from: nat)
      requires from <= |framer.events|
      modifies this`lastSeenRfqStatus, this`errSeen
      ensures lastSeenRfqStatus == StatusAfter(old(lastSeenRfqStatus), framer.events[from..])
      ensures errSeen <==> old(errSeen) || ErrorSeen in framer.events[from..]
    {
      var events := framer.events[from..];
      for i := 0 to |events|
        invariant lastSeenRfqStatus == StatusAfter(old(lastSeenRfqStatus), events[..i])
        invariant errSeen <==> old(errSeen) || ErrorSeen in events[..i]
      {
        assert events[..i + 1][..i] == events[..i];
        assert events[..i + 1] == events[..i] + [events[i]];
        match events[i]
        case ReadyForQuery(status) => lastSeenRfqStatus := Some(status);
        case ErrorSeen => errSeen := true;
      }
      assert events[..|events|] == events;
    }

    /** Reads the response chunk by chunk; a chunk with an impossible length ends it. */
    method Receive(chunks: seq<seq<byte>>, ghost start: Stream) returns (malformed: bool)
      requires framer.Valid() && framer.State() == start && !errSeen
      modifies this`lastSeenRfqStatus, this`errSeen, framer.Footprint()
      ensures framer.Shape() && fresh(framer.Footprint() - old(framer.Footprint()))
      ensures var s := ReadChunks(start, chunks);
        && (malformed <==> s.Broken?)
        && framer.events == s.trace && start.trace <= s.trace
        && lastSeenRfqStatus == StatusAfter(old(lastSeenRfqStatus), s.trace[|start.trace|..])
        && (errSeen <==> ErrorSeen in s.trace[|start.trace|..])
        && (if malformed then framer.output <= s.out else framer.Valid() && framer.State() == s)
    {
      hide ReadChunk, StatusAfter, StartOf;
      assert chunks[..0] == [];
      ghost var status, from := lastSeenRfqStatus, |start.trace|;
      assert start.trace[from..] == [];
      NoStatus(status);
      var i := 0;
      while i < |chunks|
        invariant 0 <= i <= |chunks|
        invariant framer.Valid() && fresh(framer.Footprint() - old(framer.Footprint()))
        invariant framer.State() == ReadChunks(start, chunks[..i])
        invariant Noted(status, start.trace)
      {
        NextChunk(start, chunks, i);
        malformed := ReceiveChunk(chunks[i], status, start.trace);
        if malformed { return; }
        i := i + 1;
      }
      assert chunks[..|chunks|] == chunks;
      return false;
    }

    /** The callbacks after `trace` are reflected in the status and the error flag. */
    ghost predicate Noted(status: Option<byte>, trace: seq<Event>)
      reads this, framer
    {
      && trace <= framer.events
      && lastSeenRfqStatus == StatusAfter(status, framer.events[|trace|..])
      && (errSeen <==> ErrorSeen in framer.events[|trace|..])
    }

    method ReceiveChunk(chunk: seq<byte>, ghost status: Option<byte>, ghost trace: seq<Event>) returns (malformed: bool)
      requires framer.Valid() && Noted(status, trace)
      modifies this`lastSeenRfqStatus, this`errSeen, framer.Footprint()
      ensures framer.Shape() && fresh(framer.Footprint() - old(framer.Footprint()))
      ensures Noted(status, trace)
      ensures var s := ReadChunk(old(framer.State()), chunk);
        && (malformed <==> s.Broken?)
        && (if malformed then framer.output <= s.out && framer.events == s.trace
            else framer.Valid() && framer.State() == s)
    {
      hide Run, StatusAfter, Settle, ReadChunk;
      var before := |framer.events|;
      ghost var s, events := framer.State(), framer.events;
      RunGrows(s, chunk);
      var r, lost := framer.Write(chunk);
      ReadIsRun(s, chunk);
      assert framer.events[|trace|..] == events[|trace|..] + framer.events[before..];
      StatusInTwo(status, events[|trace|..], framer.events[before..]);
      RunCallbacks(before);
      malformed := r.Malformed?;
    }

    /** Destroys the connection: drops what was gathered and rolls back an open transaction. */
    method Destroy()
      requires Valid() && !IsOver(Abs())
      modifies this`tornDown, this`pipeline, this`copyCapture, this`calls, input
      ensures Valid() && Abs() == End(old(Abs()), TornDown)
    {
      tornDown := true;
      pipeline, copyCapture := [], None;
      input.Clear();
      RollbackIfInTransaction();
    }

    method RollbackIfInTransaction()
      modifies this`calls
      ensures calls == if lastSeenRfqStatus == Some(STATUS_IN_TRANSACTION) || lastSeenRfqStatus == Some(STATUS_FAILED)
                       then old(calls) + [Rollback] else old(calls)
    {
      if lastSeenRfqStatus == Some(STATUS_IN_TRANSACTION) || lastSeenRfqStatus == Some(STATUS_FAILED) {
        calls := calls + [Rollback];
      }
    }

    /** Clears the backend's ignore-till-sync state; if that fails, so does the connection. */
    method RecoverySync()
      requires Valid() && !IsOver(Abs())
      modifies this`tornDown, this`pipeline, this`copyCapture, this`calls, input
      ensures Valid()
      ensures Abs() == Recover(env, old(Abs()))
    {
      calls := calls + [Call.RecoverySync];
      if env.backend(calls).rejects {
        Destroy();
      }
    }

    /** Sends a batch to PGlite and reads the reply. */
    method Exchange(message: seq<byte>, mode: RfqMode) returns (threw: bool)
      requires Valid() && !IsOver(Abs())
      modifies this`calls, this`errSeen, this`lastSeenRfqStatus, framer, framer.Footprint()
      ensures Valid() && fresh(framer.Footprint() - old(framer.Footprint()))
      ensures var replied := AfterReply(env, old(Abs()), message, mode);
        var reply := env.backend(replied.calls);
        var s := Response(env, mode, reply);
        && Abs().(output := replied.output) == replied
        && (errSeen <==> ErrorSeen in s.trace)
        && (threw <==> s.Broken? || reply.rejects)
        && (if threw then framer.output <= replied.output
            else
              && framer.Valid()
              && framer.State() == ReadChunks(StartOf(mode, env.rewrite, old(framer.output), old(framer.events)),
                                              reply.chunks))
    {
      hide Response, ReadChunks, StatusAfter;
      ghost var out, trace := framer.output, framer.events;
      errSeen := false;
      framer.Reset(mode.Suppress? || mode.FlushBoundary?, mode.CopyIn?);
      calls := calls + [Forward(message, mode)];
      var reply := env.backend(calls);
      ghost var s := Response(env, mode, reply);
      ResponseOnTop(env, mode, reply, out, trace);
      var malformed := Receive(reply.chunks, StartOf(mode, env.rewrite, out, trace));
      assert framer.events[|trace|..] == s.trace;
      threw := malformed || reply.rejects;
    }

    /** One protocol call: passes the response on as the mode says, and recovers after an error. */
    method StreamProtocol(message: seq<byte>, mode: RfqMode) returns (threw: bool)
      requires Valid() && !IsOver(Abs())
      modifies this, input, framer, framer.Footprint()
      ensures Valid() && fresh(framer.Footprint() - old(framer.Footprint()))
      ensures Outcome(threw, Serve(env, old(Abs()), message, mode))
      ensures phase == old(phase)
    {
      hide Response, ReadChunks, StatusAfter, Finish;
      ghost var st := Abs();
      ghost var replied := AfterReply(env, st, message, mode);
      ghost var reply := env.backend(replied.calls);
      ghost var s := Response(env, mode, reply);
      ResponseOnTop(env, mode, reply, framer.output, framer.events);
      FinishBetween(s);
      threw := Exchange(message, mode);
      if threw { return; }
      var r := framer.Flush(tornDown || (mode.FlushBoundary? && !errSeen));
      if r.Incomplete? { return true; }
      if mode.FlushBoundary? && errSeen {
        RecoverySync();
      }
    }

    // ---- Frames the duplex makes itself ----

    method PushSyntheticCopyInResponse()
      modifies framer`output
      ensures framer.output == old(framer.output) + COPY_IN_FRAME
    {
      framer.output := framer.output + [COPY_IN_RESPONSE, 0, 0, 0, 7, 0, 0, 0];
    }

    method PushSyntheticError(code: seq<byte>, message: Message)
      requires |code| == 5
      modifies framer`output
      ensures framer.output == old(framer.output) + ErrorFrame(code, message)
    {
      var fields := ErrorFields(code, message);
      framer.output := framer.output + ([ERROR_RESPONSE] + U32Bytes(4 + |fields|) + fields);
    }

    method PushSyntheticReadyForQuery()
      modifies framer`output
      ensures framer.output == old(framer.output) + ReadyFrame(lastSeenRfqStatus)
    {
      var status := if lastSeenRfqStatus.Some? then lastSeenRfqStatus.value else STATUS_IDLE;
      framer.output := framer.output + [READY_FOR_QUERY, 0, 0, 0, 5, status];
    }

    // ---- Frontend messages ----

    /** Joins messages into one batch. */
    method ConcatPipeline(messages: seq<seq<byte>>) returns (batch: seq<byte>)
      ensures batch == Flatten(messages)
    {
      var total := 0;
      for i := 0 to |messages|
        invariant total == |Flatten(messages[..i])|
      {
        assert messages[..i + 1] == messages[..i] + [messages[i]];
        FlattenSnoc(messages[..i], messages[i]);
        total := total + |messages[i]|;
      }
      assert messages[..|messages|] == messages;
      var buffer := new byte[total];
      var offset := 0;
      for i := 0 to |messages|
        invariant offset == |Flatten(messages[..i])| && offset + |Flatten(messages[i..])| == total
        invariant buffer[..offset] == Flatten(messages[..i])
      {
        assert messages[..i + 1] == messages[..i] + [messages[i]];
        assert messages[i..][1..] == messages[i + 1..];
        FlattenSnoc(messages[..i], messages[i]);
        ghost var done := buffer[..offset];
        Blit(buffer, offset, messages[i]);
        assert buffer[..offset + |messages[i]|] == done + messages[i];
        offset := offset + |messages[i]|;
      }
      assert messages[..|messages|] == messages;
      batch := buffer[..];
    }

    /** Gathers one more frame of a COPY conversation, or starts throwing them away. */
    method AppendCopyCapture(capture: Capture, message: seq<byte>) returns (c: Capture)
      ensures c == Append(env, capture, message)
    {
      c := capture;
      if c.discarding { return; }
      if |message| > env.cap - c.total {
        return c.(discarding := true, frames := []);
      }
      c := c.(total := c.total + |message|, frames := c.frames + [message]);
    }

    method HandleCaptured(message: seq<byte>) returns (threw: bool)
      requires Valid() && phase.Ready? && !tornDown && copyCapture.Some? && message != []
      modifies this, input, framer, framer.Footprint()
      ensures Valid() && fresh(framer.Footprint() - old(framer.Footprint()))
      ensures Outcome(threw, OnCaptured(env, old(Abs()), message))
      ensures phase == old(phase)
    {
      hide Serve;
      var capture := copyCapture.value;
      if message[0] == COPY_DATA {
        var c := AppendCopyCapture(capture, message);
        copyCapture := Some(c);
        return false;
      }
      if message[0] == COPY_DONE || message[0] == COPY_FAIL {
        copyCapture := None;
        var c := AppendCopyCapture(capture, message);
        if c.discarding {
          PushSyntheticError(PROGRAM_LIMIT, env.overCap);
          PushSyntheticReadyForQuery();
          return false;
        }
        var batch := ConcatPipeline(c.frames);
        threw := StreamProtocol(batch, RfqMode.CopyIn);
        return;
      }
      return true;
    }

    /** A Query that holds a copy-in is captured or refused; any other message is streamed on its own. */
    method HandleAlone(message: seq<byte>) returns (threw: bool)
      requires Valid() && phase.Ready? && !tornDown && message != []
      modifies this, input, framer, framer.Footprint()
      ensures Valid() && fresh(framer.Footprint() - old(framer.Footprint()))
      ensures Outcome(threw, if message[0] == QUERY then OnQuery(env, old(Abs()), message)
                             else Serve(env, old(Abs()), message, Passthrough))
      ensures phase == old(phase)
    {
      hide Serve, CopyIn.Sniff;
      if message[0] == QUERY {
        var verdict := CopyIn.SniffCopyIn(QueryText(env, message));
        if verdict.Capture? {
          var c := AppendCopyCapture(Capture([], 0, false), message);
          copyCapture := Some(c);
          PushSyntheticCopyInResponse();
          return false;
        }
        if verdict.RejectMulti? {
          PushSyntheticError(NOT_SUPPORTED, env.multiStatement);
          PushSyntheticReadyForQuery();
          return false;
        }
      }
      threw := StreamProtocol(message, Passthrough);
    }

    /** Sends the gathered pipeline as one batch. */
    method FlushPipeline(ghost st: State, ghost message: seq<byte>, mode: RfqMode) returns (threw: bool)
      requires Valid() && phase.Ready? && !tornDown
      requires Abs() == st.(pipeline := st.pipeline + [message])
      modifies this, input, framer, framer.Footprint()
      ensures Valid() && fresh(framer.Footprint() - old(framer.Footprint()))
      ensures Outcome(threw, Serve(env, st.(pipeline := []), Flatten(st.pipeline + [message]), mode))
      ensures phase == old(phase)
    {
      hide Serve;
      var batch;
      if |pipeline| == 1 {
        batch := pipeline[0];
        FlattenSingle(pipeline);
      } else {
        batch := ConcatPipeline(pipeline);
      }
      pipeline := [];
      threw := StreamProtocol(batch, mode);
    }

    method HandleMessage(message: seq<byte>) returns (threw: bool)
      requires Valid() && phase.Ready? && !tornDown && message != []
      modifies this, input, framer, framer.Footprint()
      ensures Valid() && fresh(framer.Footprint() - old(framer.Footprint()))
      ensures Outcome(threw, OnFrame(env, old(Abs()), message))
      ensures phase.Ready? || (phase.Terminated? && !threw)
    {
      hide Serve, OnCaptured, OnQuery;
      var msgType := message[0];
      if msgType == TERMINATE {
        phase := Terminated;
        input.Clear();
        pipeline, copyCapture := [], None;
        RollbackIfInTransaction();
        return false;
      }
      if copyCapture.Some? {
        threw := HandleCaptured(message);
        return;
      }
      if IsExtended(msgType) {
        pipeline := pipeline + [message];
        return false;
      }
      if msgType == SYNC || msgType == FLUSH {
        ghost var st := Abs();
        pipeline := pipeline + [message];
        threw := FlushPipeline(st, message, if msgType == SYNC then Suppress else FlushBoundary);
        return;
      }
      threw := HandleAlone(message);
    }

    // ---- The drain loop ----

    /** Frames and streams the startup packet, once it is complete. */
    method ProcessPreStartup() returns (threw: bool)
      requires Valid() && phase.PreStartup? && !tornDown
      modifies this, input, framer, framer.Footprint()
      ensures Valid() && fresh(framer.Footprint() - old(framer.Footprint()))
      ensures match NextCut(PreStartup, old(Abs()).pending)
              case NeedsMore => !threw && Abs() == old(Abs())
              case BadLength => threw && Abs() == old(Abs())
              case Whole(n) => Outcome(threw, OnNext(env, old(Abs()).(pending := old(Abs()).pending[n..]),
                                                     old(Abs()).pending[..n]))
    {
      hide Serve;
      var available := input.Length();
      if available < 4 { return false; }
      var length := input.ReadUInt32BE(0);
      if length.None? { return false; }
      if length.value < 8 { return true; }
      if length.value > MAX_MESSAGE_LENGTH { return true; }
      if available < length.value { return false; }
      var message := input.Consume(length.value);
      threw := StreamProtocol(message.value, Passthrough);
      if threw { return; }
      phase := Ready;
    }

    /** Takes the message at the head of the queue, if it is complete. */
    method TakeMessage() returns (bad: bool, message: Option<seq<byte>>)
      requires Valid() && phase.Ready? && !tornDown && |input.Contents()| >= 5
      modifies input
      ensures Valid()
      ensures match NextCut(Ready, old(Abs()).pending)
              case NeedsMore => !bad && message == None && Abs() == old(Abs())
              case BadLength => bad && Abs() == old(Abs())
              case Whole(n) => !bad && message == Some(old(Abs()).pending[..n])
                               && Abs() == old(Abs()).(pending := old(Abs()).pending[n..])
    {
      var msgLen := input.ReadUInt32BE(1);
      if msgLen.None? { return false, None; }
      if msgLen.value < 4 { return true, None; }
      if msgLen.value > MAX_MESSAGE_LENGTH { return true, None; }
      var length := 1 + msgLen.value;
      var available := input.Length();
      if available < length { return false, None; }
      message := input.Consume(length);
      bad := false;
    }

    /** What is left to do: draining from here ends where it would have ended from the start. */
    ghost predicate Toward(goal: State)
      requires Valid()
      reads this, input, framer
    {
      if IsOver(Abs()) then Matches(goal) else DuplexProtocol.Drain(env, Abs()) == goal
    }

    /** Handles complete messages until none is left. */
    method ProcessMessages(ghost goal: State) returns (threw: bool)
      requires Valid() && phase.Ready? && Toward(goal)
      modifies this, input, framer, framer.Footprint()
      ensures Valid() && fresh(framer.Footprint() - old(framer.Footprint()))
      ensures Outcome(threw, goal)
    {
      hide Serve, OnFrame, DuplexProtocol.Drain, NextCut, Matches, Threw;
      var available := input.Length();
      while available >= 5
        invariant Valid() && fresh(framer.Footprint() - old(framer.Footprint()))
        invariant !phase.PreStartup? && Toward(goal)
        invariant available == |input.Contents()|
        decreases available
      {
        ghost var st := Abs();
        DrainUnfolds(env, st);
        var bad, message := TakeMessage();
        if bad {
          ThrewNow(goal);
          return true;
        }
        if message.None? { break; }
        ghost var next := OnFrame(env, Abs(), message.value);
        threw := HandleMessage(message.value);
        OutcomeIsToward(threw, next, goal);
        if threw { return; }
        if phase.Terminated? { return; }
        available := input.Length();
      }
      ShortNeedsMore(Abs().stage, Abs().pending);
      DrainedNow(goal);
      threw := false;
    }

    /** A bad length throws before anything is changed. */
    lemma {:induction false} ThrewNow(goal: State)
      requires Valid() && !IsOver(Abs()) && goal == End(Abs(), TornDown)
      ensures Threw(goal)
    {
    }

    lemma {:induction false} OutcomeIsToward(threw: bool, next: State, goal: State)
      requires Valid() && Outcome(threw, next) && DuplexProtocol.Drain(env, next) == goal
      ensures if threw then Threw(goal) else Toward(goal)
      ensures IsOver(Abs()) ==> Outcome(threw, goal)
      ensures !threw ==> |input.Contents()| <= |next.pending|
    {
      DrainUnfolds(env, next);
    }

    lemma {:induction false} DrainedNow(goal: State)
      requires Valid() && Toward(goal) && (IsOver(Abs()) || NextCut(Abs().stage, Abs().pending).NeedsMore?)
      ensures Matches(goal)
    {
      DrainUnfolds(env, Abs());
    }

    lemma {:induction false} MatchesIsToward(goal: State, st: State)
      requires Valid() && Matches(goal) && goal == DuplexProtocol.Drain(env, st)
      ensures Toward(goal)
    {
      hide DuplexProtocol.Drain;
      DrainEarly(env, st, []);
      assert st.pending + [] == st.pending && goal.pending + [] == goal.pending;
      assert Feed(env, goal, []) == DuplexProtocol.Drain(env, goal);
    }

    /** The startup packet is one step of the drain. */
    lemma {:induction false} StartupIsToward(threw: bool, st: State, goal: State)
      requires Valid() && st.stage.PreStartup? && goal == DuplexProtocol.Drain(env, st)
      requires match NextCut(PreStartup, st.pending)
               case NeedsMore => !threw && Abs() == st
               case BadLength => threw && Abs() == st
               case Whole(n) => Outcome(threw, OnNext(env, st.(pending := st.pending[n..]), st.pending[..n]))
      ensures if threw then Threw(goal) else Toward(goal)
      ensures phase.PreStartup? && !IsOver(Abs()) && !threw ==> Matches(goal)
    {
      hide DuplexProtocol.Drain, OnFrame, Serve;
      DrainUnfolds(env, st);
      match NextCut(PreStartup, st.pending) {
        case Whole(n) =>
          OutcomeIsToward(threw, OnNext(env, st.(pending := st.pending[n..]), st.pending[..n]), goal);
        case _ =>
      }
    }

    /** Processes what has arrived; an error destroys the connection. */
    method Drain()
      requires Valid() && !IsOver(Abs())
      modifies this, input, framer, framer.Footprint()
      ensures Valid() && fresh(framer.Footprint() - old(framer.Footprint()))
      ensures Matches(DuplexProtocol.Drain(env, old(Abs())))
    {
      hide DuplexProtocol.Drain, OnNext, Matches, Threw, NextCut;
      ghost var start, goal := Abs(), DuplexProtocol.Drain(env, Abs());
      var threw := false;
      var length := input.Length();
      while length > 0
        invariant Valid() && fresh(framer.Footprint() - old(framer.Footprint()))
        invariant length == |input.Contents()| && Toward(goal)
        decreases length
      {
        if tornDown { break; }
        var before := length;
        threw := DrainOnce(start, goal);
        if threw {
          DestroyAfterError(goal);
          return;
        }
        length := input.Length();
        MatchesIsToward(goal, start);
        if length == 0 || length == before { return; }
      }
      ShortNeedsMore(Abs().stage, Abs().pending);
      DrainedNow(goal);
    }

    method DestroyAfterError(ghost goal: State)
      requires Valid() && Threw(goal)
      modifies this`tornDown, this`pipeline, this`copyCapture, this`calls, input
      ensures Valid() && Matches(goal)
    {
      Destroy();
    }

    /** One round: the startup packet, if it is still due, and then messages. */
    method DrainOnce(ghost start: State, ghost goal: State) returns (threw: bool)
      requires Valid() && !IsOver(Abs()) && Toward(goal)
      modifies this, input, framer, framer.Footprint()
      ensures Valid() && fresh(framer.Footprint() - old(framer.Footprint()))
      ensures Outcome(threw, goal) && (!threw ==> |input.Contents()| <= old(|input.Contents()|))
    {
      hide DuplexProtocol.Drain, OnNext, Matches, Threw, NextCut;
      if phase.PreStartup? {
        ghost var st := Abs();
        threw := ProcessPreStartup();
        StartupIsToward(threw, st, goal);
        if threw { return; }
      }
      if phase.Ready? {
        threw := ProcessMessages(goal);
      }
      if !threw { MatchesShrinks(goal); }
    }

    lemma {:induction false} MatchesShrinks(goal: State)
      requires Valid() && Matches(goal)
      ensures |input.Contents()| <= |goal.pending|
    {
    }

    // ---- Writes ----

    /**
     * Takes one chunk of the frontend stream. If the duplex stood for `st`, it now stands for `st` after these bytes.
     * A connection that has ended takes nothing more.
     */
    method Write(chunk: seq<byte>, ghost st: State)
      requires Valid() && Matches(st)
      modifies this, input, framer, framer.Footprint()
      ensures Valid() && fresh(framer.Footprint() - old(framer.Footprint()))
      ensures Matches(Feed(env, st, chunk))
    {
      hide DuplexProtocol.Drain;
      if phase.Terminated? || tornDown {
        OverStays(st, chunk);
        return;
      }
      input.Push(chunk);
      Drain();
    }

    /** Takes a corked batch of chunks at once. */
    method Writev(chunks: seq<seq<byte>>, ghost st: State)
      requires Valid() && Matches(st)
      modifies this, input, framer, framer.Footprint()
      ensures Valid() && fresh(framer.Footprint() - old(framer.Footprint()))
      ensures Matches(Feed(env, st, Flatten(chunks)))
    {
      hide DuplexProtocol.Drain;
      if phase.Terminated? || tornDown {
        OverStays(st, Flatten(chunks));
        return;
      }
      ghost var before := Abs();
      assert chunks[..0] == [] && before.pending + [] == before.pending;
      for i := 0 to |chunks|
        invariant Valid() && fresh(framer.Footprint() - old(framer.Footprint()))
        invariant Abs() == before.(pending := before.pending + Flatten(chunks[..i]))
      {
        assert chunks[..i + 1] == chunks[..i] + [chunks[i]];
        FlattenSnoc(chunks[..i], chunks[i]);
        input.Push(chunks[i]);
      }
      assert chunks[..|chunks|] == chunks;
      Drain();
    }

    lemma {:induction false} OverStays(st: State, bytes: seq<byte>)
      requires Valid() && Matches(st) && IsOver(Abs())
      ensures Matches(Feed(env, st, bytes))
    {
      hide DuplexProtocol.Drain;
      EndAbsorbs(env, st, bytes);
      assert st.pending == [] && st.(pending := []) == st;
    }
  }

  lemma {:induction false} ShortNeedsMore(stage: Stage, bytes: seq<byte>)
    ensures |bytes| < 5 && !stage.PreStartup? ==> NextCut(stage, bytes).NeedsMore?
    ensures bytes == [] ==> NextCut(stage, bytes).NeedsMore?
  {
  }

  lemma {:induction false} DrainUnfolds(env: Env, st: State)
    ensures DuplexProtocol.Drain(env, st) ==
      if IsOver(st) then st.(pending := []) else
      match NextCut(st.stage, st.pending)
      case NeedsMore => st
      case BadLength => End(st, TornDown)
      case Whole(n) => DuplexProtocol.Drain(env, OnNext(env, st.(pending := st.pending[n..]), st.pending[..n]))
  {
    hide OnNext, NextCut;
  }

  lemma {:induction false} FlattenSingle(messages: seq<seq<byte>>)
    requires |messages| == 1
    ensures Flatten(messages) == messages[0]
  {
    assert messages[1..] == [];
  }

  lemma {:induction false} FinishBetween(s: Stream)
    ensures forall drop :: Finish(s, drop).Complete? <==> s.Stream? && s.phase.Between?
  {
  }

  lemma {:induction false} NoStatus(status: Option<byte>)
    ensures StatusAfter(status, []) == status
  {
  }
}
