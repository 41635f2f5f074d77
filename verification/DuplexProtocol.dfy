/**
 * Reference meaning of the duplex (src/duplex/index.ts) without a session lock: what a frontend byte stream makes it
 * call, and what it answers. The backend is any function from the calls made so far to the reply of the last one.
 */
module DuplexProtocol {
  import opened Bytes
  import opened Wrappers
  import opened BackendStream
  import opened BackendFilter
  import Text
  import CopyIn

  const PARSE: byte := 0x50
  const BIND: byte := 0x42
  const DESCRIBE: byte := 0x44
  const EXECUTE: byte := 0x45
  const CLOSE: byte := 0x43
  const FLUSH: byte := 0x48
  const SYNC: byte := 0x53
  const TERMINATE: byte := 0x58
  const QUERY: byte := 0x51
  const COPY_DATA: byte := 0x64
  const COPY_DONE: byte := 0x63
  const COPY_FAIL: byte := 0x66

  const STATUS_IDLE: byte := 0x49
  const STATUS_IN_TRANSACTION: byte := 0x54
  const STATUS_FAILED: byte := 0x45

  predicate IsExtended(ty: byte) {
    ty == PARSE || ty == BIND || ty == DESCRIBE || ty == EXECUTE || ty == CLOSE
  }

  // ---- The environment ----

  /** A use of PGlite: a protocol call, the Sync that recovers it after an error, or the ROLLBACK at the end. */
  datatype Call = Forward(batch: seq<byte>, mode: RfqMode) | RecoverySync | Rollback

  /** The response in the chunks it arrives in, and whether the call rejects after them. */
  datatype Reply = Reply(chunks: seq<seq<byte>>, rejects: bool)

  type Message = s: seq<byte> | |s| < 0x1_0000

  /**
   * The backend, the UTF-8 decoder, the cap on a COPY conversation, whether RowDescriptions are rewritten, and the
   * texts of the two errors the duplex makes itself.
   */
  datatype Env = Env(backend: seq<Call> -> Reply, decode: seq<byte> -> Text.Text, cap: nat, rewrite: bool,
                     overCap: Message, multiStatement: Message)

  // ---- State ----

  datatype Stage = PreStartup | Ready | Terminated | TornDown

  /** A COPY conversation being gathered. Past the cap its frames are thrown away until it ends. */
  datatype Capture = Capture(frames: seq<seq<byte>>, total: nat, discarding: bool)

  /** `status` is that of the last ReadyForQuery seen. */
  datatype State = State(stage: Stage, pending: seq<byte>, pipeline: seq<seq<byte>>, capture: Option<Capture>,
                         status: Option<byte>, calls: seq<Call>, output: seq<byte>)

  const INITIAL: State := State(PreStartup, [], [], None, None, [], [])

  predicate IsOver(st: State) {
    st.stage.Terminated? || st.stage.TornDown?
  }

  // ---- Frames made by the duplex itself ----

  const ERROR_PREFIX: seq<byte> := [0x53, 0x45, 0x52, 0x52, 0x4f, 0x52, 0, 0x56, 0x45, 0x52, 0x52, 0x4f, 0x52, 0, 0x43]
  const PROGRAM_LIMIT: seq<byte> := [0x35, 0x34, 0x30, 0x30, 0x30]
  const NOT_SUPPORTED: seq<byte> := [0x30, 0x41, 0x30, 0x30, 0x30]

  function ErrorFields(code: seq<byte>, message: seq<byte>): seq<byte> {
    ERROR_PREFIX + code + [0, 0x4d] + message + [0, 0]
  }

  function ErrorFrame(code: seq<byte>, message: Message): seq<byte>
    requires |code| == 5
  {
    [ERROR_RESPONSE] + U32Bytes(4 + |ErrorFields(code, message)|) + ErrorFields(code, message)
  }

  const COPY_IN_FRAME: seq<byte> := [COPY_IN_RESPONSE, 0, 0, 0, 7, 0, 0, 0]

  function ReadyFrame(status: Option<byte>): seq<byte> {
    RfqFrame(if status.Some? then status.value else STATUS_IDLE)
  }

  // ---- The end of a connection ----

  predicate InTransaction(st: State) {
    st.status == Some(STATUS_IN_TRANSACTION) || st.status == Some(STATUS_FAILED)
  }

  /** Ends the connection: everything gathered is dropped and an open transaction rolled back. */
  function End(st: State, stage: Stage): State {
    st.(stage := stage, pending := [], pipeline := [], capture := None,
        calls := if InTransaction(st) then st.calls + [Rollback] else st.calls)
  }

  // ---- One protocol call ----

  function StatusAfter(status: Option<byte>, trace: seq<Event>): Option<byte> {
    if trace == [] then status
    else match trace[|trace| - 1]
      case ReadyForQuery(b) => Some(b)
      case ErrorSeen => StatusAfter(status, trace[..|trace| - 1])
  }

  /** The automaton after the whole response, read chunk by chunk. */
  function Response(env: Env, mode: RfqMode, reply: Reply): Stream {
    ReadChunks(StartOf(mode, env.rewrite, [], []), reply.chunks)
  }

  /** The call ends well: the response is made of whole frames and the call does not reject. */
  predicate Succeeds(s: Stream, reply: Reply) {
    s.Stream? && !reply.rejects && s.phase.Between?
  }

  /** After the reply to a batch has been read, before the response is ended. */
  function AfterReply(env: Env, st: State, batch: seq<byte>, mode: RfqMode): State {
    var calls := st.calls + [Forward(batch, mode)];
    var s := Response(env, mode, env.backend(calls));
    st.(calls := calls, status := StatusAfter(st.status, s.trace), output := st.output + s.out)
  }

  /** Recovers the backend, which ignores everything up to a Sync after an error at a flush boundary. */
  function Recover(env: Env, st: State): (r: State)
    ensures r.pending == st.pending || r.pending == []
  {
    var recovered := st.(calls := st.calls + [RecoverySync]);
    if env.backend(recovered.calls).rejects then End(recovered, TornDown) else recovered
  }

  /** Sends a batch and passes on the response as the mode says. */
  function Serve(env: Env, st: State, batch: seq<byte>, mode: RfqMode): (r: State)
    ensures r.pending == st.pending || r.pending == []
  {
    var replied := AfterReply(env, st, batch, mode);
    var reply := env.backend(replied.calls);
    var s := Response(env, mode, reply);
    var errSeen := ErrorSeen in s.trace;
    if !Succeeds(s, reply) then End(replied, TornDown) else
    var answered := replied.(output := st.output + Finish(s, DropsHeld(mode, errSeen)).out);
    if mode.FlushBoundary? && errSeen then Recover(env, answered) else answered
  }

  // ---- One frontend frame ----

  function QueryText(env: Env, frame: seq<byte>): Text.Text {
    if |frame| < 6 then [] else env.decode(frame[5..|frame| - 1])
  }

  function Append(env: Env, c: Capture, frame: seq<byte>): Capture {
    if c.discarding then c
    else if c.total + |frame| > env.cap then Capture([], c.total, true)
    else Capture(c.frames + [frame], c.total + |frame|, false)
  }

  /** A frame that arrives while a COPY conversation is gathered. */
  function OnCaptured(env: Env, st: State, frame: seq<byte>): (r: State)
    requires frame != [] && st.capture.Some?
    ensures r.pending == st.pending || r.pending == []
  {
    var c := Append(env, st.capture.value, frame);
    if frame[0] == COPY_DATA then st.(capture := Some(c))
    else if frame[0] == COPY_DONE || frame[0] == COPY_FAIL then
      if c.discarding then
        st.(capture := None, output := st.output + ErrorFrame(PROGRAM_LIMIT, env.overCap) + ReadyFrame(st.status))
      else Serve(env, st.(capture := None), Flatten(c.frames), CopyIn)
    else End(st, TornDown)
  }

  function OnQuery(env: Env, st: State, frame: seq<byte>): (r: State)
    ensures r.pending == st.pending || r.pending == []
  {
    match CopyIn.Sniff(QueryText(env, frame))
    case Capture => st.(capture := Some(Append(env, Capture([], 0, false), frame)), output := st.output + COPY_IN_FRAME)
    case RejectMulti =>
      st.(output := st.output + ErrorFrame(NOT_SUPPORTED, env.multiStatement) + ReadyFrame(st.status))
    case NotCopyIn => Serve(env, st, frame, Passthrough)
  }

  /** A complete frame at the ready stage. */
  function OnFrame(env: Env, st: State, frame: seq<byte>): (r: State)
    requires frame != []
    ensures r.pending == st.pending || r.pending == []
  {
    var ty := frame[0];
    if ty == TERMINATE then End(st, Terminated)
    else if st.capture.Some? then OnCaptured(env, st, frame)
    else if IsExtended(ty) then st.(pipeline := st.pipeline + [frame])
    else if ty == SYNC || ty == FLUSH then
      Serve(env, st.(pipeline := []), Flatten(st.pipeline + [frame]), if ty == SYNC then Suppress else FlushBoundary)
    else if ty == QUERY then OnQuery(env, st, frame)
    else Serve(env, st, frame, Passthrough)
  }

  /** The startup packet is passed through; the stage only advances if that succeeds. */
  function OnStartup(env: Env, st: State, frame: seq<byte>): (r: State)
    ensures r.pending == st.pending || r.pending == []
  {
    var st' := Serve(env, st, frame, Passthrough);
    if st'.stage.PreStartup? then st'.(stage := Ready) else st'
  }

  function OnNext(env: Env, st: State, frame: seq<byte>): (r: State)
    requires frame != []
    ensures r.pending == st.pending || r.pending == []
  {
    if st.stage.PreStartup? then OnStartup(env, st, frame) else OnFrame(env, st, frame)
  }

  // ---- Framing ----

  datatype Cut = NeedsMore | BadLength | Whole(n: nat)

  /** The frame at the head of the pending bytes. A startup packet has no type byte. */
  function NextCut(stage: Stage, bytes: seq<byte>): (c: Cut)
    ensures c.Whole? ==> 0 < c.n <= |bytes|
  {
    var at, least := if stage.PreStartup? then 0 else 1, if stage.PreStartup? then 8 else 4;
    if |bytes| < at + 4 then NeedsMore else
    var length := U32At(bytes, at);
    if length < least || length > MAX_MESSAGE_LENGTH then BadLength
    else if |bytes| < at + length then NeedsMore
    else Whole(at + length)
  }

  /** Processes every complete frame among the pending bytes. */
  function Drain(env: Env, st: State): (r: State)
    ensures |r.pending| <= |st.pending|
    decreases |st.pending|
  {
    if IsOver(st) then st.(pending := []) else
    match NextCut(st.stage, st.pending)
    case NeedsMore => st
    case BadLength => End(st, TornDown)
    case Whole(n) => Drain(env, OnNext(env, st.(pending := st.pending[n..]), st.pending[..n]))
  }

  /** What the arrival of `bytes` does. */
  function Feed(env: Env, st: State, bytes: seq<byte>): State {
    Drain(env, st.(pending := st.pending + bytes))
  }

  function FeedAll(env: Env, st: State, chunks: seq<seq<byte>>): State {
    if chunks == [] then st else Feed(env, FeedAll(env, st, chunks[..|chunks| - 1]), chunks[|chunks| - 1])
  }

  // ---- Chunk independence ----

  /** `a` and `b` came from states with different pending bytes: both ended alike, or neither touched them. */
  predicate SameButRest(a: State, b: State, pending: seq<byte>, rest: seq<byte>) {
    if IsOver(a) then a == b && a.pending == [] else a.pending == pending && b == a.(pending := rest)
  }

  lemma {:induction false} ServeIgnoresRest(env: Env, st: State, batch: seq<byte>, mode: RfqMode, rest: seq<byte>)
    requires !IsOver(st)
    ensures SameButRest(Serve(env, st, batch, mode), Serve(env, st.(pending := rest), batch, mode), st.pending, rest)
  {
    hide Response, Succeeds, StatusAfter, Finish;
  }

  /** A step never looks at what is still pending, and drops all of it or nothing. */
  lemma {:induction false} OnNextIgnoresRest(env: Env, st: State, frame: seq<byte>, rest: seq<byte>)
    requires frame != [] && !IsOver(st)
    ensures SameButRest(OnNext(env, st, frame), OnNext(env, st.(pending := rest), frame), st.pending, rest)
  {
    hide Serve, CopyIn.Sniff;
    ServeIgnoresRest(env, st, frame, Passthrough, rest);
    ServeIgnoresRest(env, st.(pipeline := []), Flatten(st.pipeline + [frame]), Suppress, rest);
    ServeIgnoresRest(env, st.(pipeline := []), Flatten(st.pipeline + [frame]), FlushBoundary, rest);
    if st.capture.Some? {
      var c := Append(env, st.capture.value, frame);
      ServeIgnoresRest(env, st.(capture := None), Flatten(c.frames), RfqMode.CopyIn, rest);
    }
  }

  /** A decision about the head of the pending bytes is final. */
  lemma {:induction false} CutIsFinal(stage: Stage, bytes: seq<byte>, more: seq<byte>)
    requires !NextCut(stage, bytes).NeedsMore?
    ensures NextCut(stage, bytes + more) == NextCut(stage, bytes)
  {
    var at := if stage.PreStartup? then 0 else 1;
    assert U32At(bytes + more, at) == U32At(bytes, at);
  }

  /** Draining early, before the rest has arrived, changes nothing. */
  lemma {:induction false} DrainEarly(env: Env, st: State, more: seq<byte>)
    ensures Feed(env, Drain(env, st), more) == Feed(env, st, more)
    decreases |st.pending|
  {
    hide OnNext, NextCut;
    var whole := st.(pending := st.pending + more);
    if IsOver(st) {
    } else if NextCut(st.stage, st.pending).Whole? {
      var n := NextCut(st.stage, st.pending).n;
      CutIsFinal(st.stage, st.pending, more);
      var frame, rest := st.pending[..n], st.pending[n..];
      assert whole.pending[..n] == frame && whole.pending[n..] == rest + more;
      OnNextIgnoresRest(env, st.(pending := rest), frame, rest + more);
      var a := OnNext(env, st.(pending := rest), frame);
      assert st.(pending := rest).(pending := rest + more) == whole.(pending := rest + more);
      DrainEarly(env, a, more);
      EndAbsorbs(env, a, more);
    } else if NextCut(st.stage, st.pending).BadLength? {
      CutIsFinal(st.stage, st.pending, more);
      EndAbsorbs(env, End(st, TornDown), more);
    }
  }

  /** Once the connection has ended, nothing that arrives has any effect. */
  lemma {:induction false} EndAbsorbs(env: Env, st: State, bytes: seq<byte>)
    ensures IsOver(st) ==> Feed(env, st, bytes) == st.(pending := []) == Drain(env, st)
  {
  }

  /** What has happened depends on the bytes that have arrived, not on how they were cut. */
  lemma {:induction false} ChunksDoNotMatter(env: Env, st: State, chunks: seq<seq<byte>>)
    requires chunks != []
    ensures FeedAll(env, st, chunks) == Feed(env, st, Flatten(chunks))
  {
    hide Drain;
    var init, last := chunks[..|chunks| - 1], chunks[|chunks| - 1];
    assert chunks == init + [last];
    FlattenSnoc(init, last);
    if init == [] {
      assert Flatten(init) + last == last;
      assert FeedAll(env, st, init) == st;
    } else {
      ChunksDoNotMatter(env, st, init);
      var before := st.(pending := st.pending + Flatten(init));
      DrainEarly(env, before, last);
      assert before.pending + last == st.pending + (Flatten(init) + last);
    }
  }

  /** No complete frame is left waiting. */
  lemma {:induction false} NothingIsStranded(env: Env, st: State)
    ensures var r := Drain(env, st); if IsOver(r) then r.pending == [] else NextCut(r.stage, r.pending).NeedsMore?
    decreases |st.pending|
  {
    hide OnNext, NextCut;
    if !IsOver(st) && NextCut(st.stage, st.pending).Whole? {
      var n := NextCut(st.stage, st.pending).n;
      NothingIsStranded(env, OnNext(env, st.(pending := st.pending[n..]), st.pending[..n]));
    }
  }
}
