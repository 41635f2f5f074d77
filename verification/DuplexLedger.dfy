/**
 * Where every frontend frame goes (src/duplex/index.ts, processMessages): a ledger kept beside the duplex puts each
 * frame in exactly one place, and the calls, the pipeline and the COPY capture are what the ledger says.
 */
module DuplexLedger {
  import opened Bytes
  import opened Wrappers
  import opened BackendFilter
  import opened DuplexProtocol
  import CopyIn

  datatype Place =
    | InCall(k: nat)   // part of the batch of call `k`
    | InPipeline       // waiting for a Sync or Flush
    | InCapture        // in a COPY conversation that has not ended, held or already given up
    | Refused(r: nat)  // answered by the duplex itself, with refusal `r`
    | Ending           // the Terminate frame
    | Lost             // in hand when the connection ended

  datatype Entry = Entry(frame: seq<byte>, place: Place)

  type Ledger = seq<Entry>

  /** A piece of the output. */
  datatype Answer =
    | PassedOn(bytes: seq<byte>)  // what a protocol call passed on
    | CopyPrompt                  // the synthetic CopyInResponse
    | Refusal(code: seq<byte>, message: Message, status: Option<byte>)  // a synthetic error and ReadyForQuery

  datatype Books = Books(entries: Ledger, answers: seq<Answer>)

  function AnswerBytes(a: Answer): seq<byte> {
    match a
    case PassedOn(bytes) => bytes
    case CopyPrompt => COPY_IN_FRAME
    case Refusal(code, message, status) =>
      if |code| == 5 then ErrorFrame(code, message) + ReadyFrame(status) else []
  }

  function Output(answers: seq<Answer>): seq<byte> {
    if answers == [] then [] else Output(answers[..|answers| - 1]) + AnswerBytes(answers[|answers| - 1])
  }

  function Refusals(answers: seq<Answer>): seq<Answer> {
    if answers == [] then [] else
    Refusals(answers[..|answers| - 1]) + if answers[|answers| - 1].Refusal? then [answers[|answers| - 1]] else []
  }

  /** How many calls have passed something on. */
  function Passes(answers: seq<Answer>): nat {
    if answers == [] then 0 else
    Passes(answers[..|answers| - 1]) + if answers[|answers| - 1].PassedOn? then 1 else 0
  }

  /** The calls that send a batch. */
  function Batches(calls: seq<Call>): nat {
    if calls == [] then 0 else Batches(calls[..|calls| - 1]) + if calls[|calls| - 1].Forward? then 1 else 0
  }

  /** The frames in one place, in order of arrival. */
  function In(l: Ledger, p: Place): seq<seq<byte>> {
    if l == [] then [] else In(l[..|l| - 1], p) + if l[|l| - 1].place == p then [l[|l| - 1].frame] else []
  }

  function Frames(l: Ledger): seq<seq<byte>> {
    if l == [] then [] else Frames(l[..|l| - 1]) + [l[|l| - 1].frame]
  }

  function Moved(l: Ledger, from: Place, to: Place): Ledger {
    if l == [] then [] else
    var last := l[|l| - 1];
    Moved(l[..|l| - 1], from, to) + [if last.place == from then Entry(last.frame, to) else last]
  }

  function Abandon(l: Ledger): Ledger {
    Moved(Moved(l, InPipeline, Lost), InCapture, Lost)
  }

  /** Enters the next frame, and moves what it completes. */
  function Enter(env: Env, st: State, b: Books, frame: seq<byte>): Ledger
    requires frame != []
  {
    var l, ty, k, r := b.entries, frame[0], |st.calls|, |Refusals(b.answers)|;
    if st.stage.PreStartup? then l + [Entry(frame, InCall(k))]
    else if ty == TERMINATE then l + [Entry(frame, Ending)]
    else if st.capture.Some? then
      if ty == COPY_DATA then l + [Entry(frame, InCapture)]
      else if ty == COPY_DONE || ty == COPY_FAIL then
        Moved(l + [Entry(frame, InCapture)], InCapture,
              if Append(env, st.capture.value, frame).discarding then Refused(r) else InCall(k))
      else l + [Entry(frame, Lost)]
    else if IsExtended(ty) then l + [Entry(frame, InPipeline)]
    else if ty == SYNC || ty == FLUSH then Moved(l + [Entry(frame, InPipeline)], InPipeline, InCall(k))
    else if ty == QUERY then
      match CopyIn.Sniff(QueryText(env, frame))
      case Capture => l + [Entry(frame, InCapture)]
      case RejectMulti => l + [Entry(frame, Refused(r))]
      case NotCopyIn => l + [Entry(frame, InCall(k))]
    else l + [Entry(frame, InCall(k))]
  }

  /** What the frame adds to the output. */
  function Answers(env: Env, st: State, frame: seq<byte>): seq<Answer>
    requires frame != []
  {
    var ty := frame[0];
    var passedOn := [PassedOn(Added(st.output, OnNext(env, st, frame).output))];
    if st.stage.PreStartup? then passedOn
    else if ty == TERMINATE then []
    else if st.capture.Some? then
      if ty == COPY_DONE || ty == COPY_FAIL then
        if Append(env, st.capture.value, frame).discarding then [Refusal(PROGRAM_LIMIT, env.overCap, st.status)]
        else passedOn
      else []
    else if IsExtended(ty) then []
    else if ty == QUERY then
      match CopyIn.Sniff(QueryText(env, frame))
      case Capture => [CopyPrompt]
      case RejectMulti => [Refusal(NOT_SUPPORTED, env.multiStatement, st.status)]
      case NotCopyIn => passedOn
    else passedOn
  }

  /** What `after` has beyond `before`. */
  function Added(before: seq<byte>, after: seq<byte>): seq<byte> {
    if |before| <= |after| then after[|before|..] else []
  }

  function Track(env: Env, st: State, b: Books, frame: seq<byte>): Books
    requires frame != []
  {
    Books(Closed(OnNext(env, st, frame), Enter(env, st, b, frame)), b.answers + Answers(env, st, frame))
  }

  /** When the connection ends, what was in hand is lost. */
  function Closed(st: State, e: Ledger): Ledger {
    if IsOver(st) then Abandon(e) else e
  }

  /** `Drain`, with the books. */
  function DrainTracked(env: Env, st: State, b: Books): (State, Books)
    decreases |st.pending|
  {
    if IsOver(st) then (st.(pending := []), b) else
    match NextCut(st.stage, st.pending)
    case NeedsMore => (st, b)
    case BadLength => (End(st, TornDown), b.(entries := Abandon(b.entries)))
    case Whole(n) =>
      var before := st.(pending := st.pending[n..]);
      DrainTracked(env, OnNext(env, before, st.pending[..n]), Track(env, before, b, st.pending[..n]))
  }

  // ---- What the ledger says ----

  /** A frame that PGlite gets on its own. */
  predicate Standalone(env: Env, frame: seq<byte>) {
    && frame != [] && !IsExtended(frame[0])
    && frame[0] != SYNC && frame[0] != FLUSH && frame[0] != TERMINATE
    && (frame[0] == QUERY ==> CopyIn.Sniff(QueryText(env, frame)).NotCopyIn?)
  }

  predicate AllExtended(frames: seq<seq<byte>>) {
    forall i :: 0 <= i < |frames| ==> frames[i] != [] && IsExtended(frames[i][0])
  }

  /** A copy-in Query and then nothing but CopyData. */
  predicate CopyConversation(env: Env, frames: seq<seq<byte>>) {
    && frames != [] && frames[0] != [] && frames[0][0] == QUERY
    && CopyIn.Sniff(QueryText(env, frames[0])).Capture?
    && forall i :: 1 <= i < |frames| ==> frames[i] != [] && frames[i][0] == COPY_DATA
  }

  predicate EndsWith(frames: seq<seq<byte>>, types: set<byte>) {
    frames != [] && frames[|frames| - 1] != [] && frames[|frames| - 1][0] in types
  }

  /** What a batch of each mode is made of. */
  predicate WellShaped(env: Env, k: nat, mode: RfqMode, frames: seq<seq<byte>>) {
    frames != [] &&
    var init := frames[..|frames| - 1];
    match mode
    case Passthrough => |frames| == 1 && (k == 0 || Standalone(env, frames[0]))
    case Suppress => AllExtended(init) && EndsWith(frames, {SYNC})
    case FlushBoundary => AllExtended(init) && EndsWith(frames, {FLUSH})
    case CopyIn =>
      CopyConversation(env, init) && EndsWith(frames, {COPY_DONE, COPY_FAIL}) && |Flatten(frames)| <= env.cap
  }

  /** Call `k` sends exactly the frames the ledger puts in it, in order of arrival. */
  predicate CallMatches(env: Env, calls: seq<Call>, l: Ledger, k: nat) {
    if k < |calls| && calls[k].Forward? then
      calls[k].batch == Flatten(In(l, InCall(k))) && WellShaped(env, k, calls[k].mode, In(l, InCall(k)))
    else In(l, InCall(k)) == []
  }

  predicate CaptureMatches(env: Env, capture: Option<Capture>, frames: seq<seq<byte>>) {
    match capture
    case None => frames == []
    case Some(c) =>
      && CopyConversation(env, frames)
      && (if c.discarding then c.frames == [] && |Flatten(frames)| > env.cap
          else c.frames == frames && c.total == |Flatten(frames)| <= env.cap)
  }

  /** What is refused: a Query with a copy-in among other statements, or a COPY conversation past the cap. */
  predicate RefusedShape(env: Env, refusal: Answer, frames: seq<seq<byte>>) {
    refusal.Refusal? && frames != [] &&
    var init := frames[..|frames| - 1];
    if refusal.code == NOT_SUPPORTED then
      && refusal.message == env.multiStatement
      && |frames| == 1 && frames[0] != [] && frames[0][0] == QUERY
      && CopyIn.Sniff(QueryText(env, frames[0])).RejectMulti?
    else
      && refusal.code == PROGRAM_LIMIT && refusal.message == env.overCap
      && CopyConversation(env, init) && EndsWith(frames, {COPY_DONE, COPY_FAIL}) && |Flatten(frames)| > env.cap
  }

  /** Refusal `r` of the output answers exactly the frames the ledger has for it. */
  predicate RefusalMatches(env: Env, refusals: seq<Answer>, l: Ledger, r: nat) {
    if r < |refusals| then RefusedShape(env, refusals[r], In(l, Refused(r))) else In(l, Refused(r)) == []
  }

  /** Nothing is lost while the connection lasts, and the only frame that ends it in order is a Terminate. */
  predicate EndMatches(st: State, ending: seq<seq<byte>>, lost: seq<seq<byte>>) {
    && (!IsOver(st) ==> lost == [])
    && (if st.stage.Terminated? then |ending| == 1 && ending[0] != [] && ending[0][0] == TERMINATE else ending == [])
  }

  /** Every place of the ledger holds what it says. */
  ghost predicate PlacesMatch(env: Env, st: State, b: Books) {
    && st.pipeline == In(b.entries, InPipeline) && AllExtended(st.pipeline)
    && CaptureMatches(env, st.capture, In(b.entries, InCapture))
    && (forall k: nat :: CallMatches(env, st.calls, b.entries, k))
    && (forall r: nat :: RefusalMatches(env, Refusals(b.answers), b.entries, r))
    && EndMatches(st, In(b.entries, Ending), In(b.entries, Lost))
  }

  ghost predicate Inv(env: Env, st: State, b: Books) {
    && PlacesMatch(env, st, b)
    && st.output == Output(b.answers) && Passes(b.answers) == Batches(st.calls)
    && (st.stage.PreStartup? ==> st.calls == [] && st.pipeline == [] && st.capture == None)
    && (!st.stage.PreStartup? ==> st.calls != [] || IsOver(st))
    && (IsOver(st) ==> st.pipeline == [] && st.capture == None)
  }

  // ---- Laws of the ledger ----

  lemma {:induction false} InAppend(l: Ledger, e: Entry, p: Place)
    ensures In(l + [e], p) == In(l, p) + if e.place == p then [e.frame] else []
  {
    assert (l + [e])[..|l|] == l;
  }

  lemma {:induction false} InMoved(l: Ledger, from: Place, to: Place, p: Place)
    requires from != to
    ensures p != from && p != to ==> In(Moved(l, from, to), p) == In(l, p)
    ensures In(Moved(l, from, to), from) == []
    ensures In(l, to) == [] ==> In(Moved(l, from, to), to) == In(l, from)
  {
    if l != [] {
      hide In;
      var init, last := l[..|l| - 1], l[|l| - 1];
      InMoved(init, from, to, p);
      assert l == init + [last];
      var moved := if last.place == from then Entry(last.frame, to) else last;
      assert Moved(l, from, to) == Moved(init, from, to) + [moved];
      InAppend(init, last, p);
      InAppend(init, last, from);
      InAppend(init, last, to);
      InAppend(Moved(init, from, to), moved, p);
      InAppend(Moved(init, from, to), moved, from);
      InAppend(Moved(init, from, to), moved, to);
    }
  }

  lemma {:induction false} FramesMoved(l: Ledger, from: Place, to: Place)
    ensures Frames(Moved(l, from, to)) == Frames(l)
  {
    if l != [] {
      FramesMoved(l[..|l| - 1], from, to);
      var m := Moved(l, from, to);
      assert m[..|m| - 1] == Moved(l[..|l| - 1], from, to);
    }
  }

  lemma {:induction false} FramesAppend(l: Ledger, e: Entry)
    ensures Frames(l + [e]) == Frames(l) + [e.frame]
  {
    assert (l + [e])[..|l|] == l;
  }

  /** The ledger has every frame once, in order. */
  lemma {:induction false} TrackEntersOnce(env: Env, st: State, b: Books, frame: seq<byte>)
    requires frame != []
    ensures Frames(Track(env, st, b, frame).entries) == Frames(b.entries) + [frame]
  {
    hide OnNext, Append, CopyIn.Sniff, Frames, Moved;
    var l, k, n := b.entries, |st.calls|, |Refusals(b.answers)|;
    forall p: Place { FramesAppend(l, Entry(frame, p)); }
    var e := Enter(env, st, b, frame);
    assert Frames(e) == Frames(l) + [frame] by {
      FramesMoved(l + [Entry(frame, InCapture)], InCapture, Refused(n));
      FramesMoved(l + [Entry(frame, InCapture)], InCapture, InCall(k));
      FramesMoved(l + [Entry(frame, InPipeline)], InPipeline, InCall(k));
    }
    FramesMoved(e, InPipeline, Lost);
    FramesMoved(Moved(e, InPipeline, Lost), InCapture, Lost);
  }

  lemma {:induction false} AnswersAppend(answers: seq<Answer>, a: Answer)
    ensures Output(answers + [a]) == Output(answers) + AnswerBytes(a)
    ensures Refusals(answers + [a]) == if a.Refusal? then Refusals(answers) + [a] else Refusals(answers)
    ensures Passes(answers + [a]) == Passes(answers) + if a.PassedOn? then 1 else 0
  {
    assert (answers + [a])[..|answers|] == answers;
  }

  // ---- Every step keeps the books ----

  /** Both ledgers have the same frames in this place. */
  predicate Same(l: Ledger, e: Ledger, p: Place) {
    In(e, p) == In(l, p)
  }

  /** A place that frames never leave. */
  predicate Settled(p: Place) {
    p.InCall? || p.Refused? || p.Ending?
  }

  lemma {:induction false} AbandonKeepsSettled(l: Ledger, p: Place)
    ensures In(Abandon(l), InPipeline) == [] && In(Abandon(l), InCapture) == []
    ensures Settled(p) ==> Same(l, Abandon(l), p)
  {
    InMoved(l, InPipeline, Lost, p);
    InMoved(l, InPipeline, Lost, InPipeline);
    InMoved(Moved(l, InPipeline, Lost), InCapture, Lost, p);
    InMoved(Moved(l, InPipeline, Lost), InCapture, Lost, InPipeline);
  }

  lemma {:induction false} ClosedKeeps(st: State, e: Ledger)
    ensures forall p :: Settled(p) ==> Same(e, Closed(st, e), p)
    ensures IsOver(st) ==> In(Closed(st, e), InPipeline) == [] && In(Closed(st, e), InCapture) == []
  {
    hide Abandon, Settled, In;
    AbandonKeepsSettled(e, Lost);
    forall p { AbandonKeepsSettled(e, p); }
  }

  /** A call adds one forwarded batch; what may follow it forwards nothing. */
  predicate Forwards(before: seq<Call>, after: seq<Call>, batch: seq<byte>, mode: RfqMode) {
    && |before| < |after| && before + [Forward(batch, mode)] == after[..|before| + 1]
    && forall k :: |before| < k < |after| ==> !after[k].Forward?
  }

  lemma {:induction false} ServeForwards(env: Env, st: State, batch: seq<byte>, mode: RfqMode)
    ensures Forwards(st.calls, Serve(env, st, batch, mode).calls, batch, mode)
    ensures st.output <= Serve(env, st, batch, mode).output
  {
    hide Response, Succeeds, StatusAfter, Finish;
  }

  lemma {:induction false} BatchesAfter(before: seq<Call>, after: seq<Call>)
    requires before <= after && forall k :: |before| <= k < |after| ==> !after[k].Forward?
    ensures Batches(after) == Batches(before)
  {
    if |before| < |after| {
      BatchesAfter(before, after[..|after| - 1]);
    } else {
      assert before == after;
    }
  }

  lemma {:induction false} OneMoreBatch(before: seq<Call>, after: seq<Call>, batch: seq<byte>, mode: RfqMode)
    requires Forwards(before, after, batch, mode)
    ensures Batches(after) == Batches(before) + 1
  {
    var first := before + [Forward(batch, mode)];
    assert first[..|before|] == before;
    BatchesAfter(first, after);
  }

  /** The frames that leave for a call are exactly its batch. */
  lemma {:induction false} CallsAfterServe(env: Env, before: seq<Call>, l: Ledger, after: seq<Call>, l': Ledger,
                                           batch: seq<byte>, mode: RfqMode)
    requires forall k: nat :: CallMatches(env, before, l, k)
    requires Forwards(before, after, batch, mode)
    requires forall k: nat :: k != |before| ==> Same(l, l', InCall(k))
    requires batch == Flatten(In(l', InCall(|before|))) && WellShaped(env, |before|, mode, In(l', InCall(|before|)))
    ensures forall k: nat :: CallMatches(env, after, l', k)
  {
    hide WellShaped;
    forall k: nat ensures CallMatches(env, after, l', k) {
      assert CallMatches(env, before, l, k);
      assert k != |before| ==> Same(l, l', InCall(k));
      if k < |before| {
        assert after[k] == after[..|before| + 1][k];
      } else if k == |before| {
        assert after[k] == after[..|before| + 1][k];
      }
    }
  }

  /** Calls that forward nothing do not concern the ledger. */
  lemma {:induction false} CallsAfterOther(env: Env, before: seq<Call>, l: Ledger, after: seq<Call>, l': Ledger)
    requires forall k: nat :: CallMatches(env, before, l, k)
    requires before <= after && forall k :: |before| <= k < |after| ==> !after[k].Forward?
    requires forall k: nat :: Same(l, l', InCall(k))
    ensures forall k: nat :: CallMatches(env, after, l', k)
  {
    hide WellShaped;
    forall k: nat ensures CallMatches(env, after, l', k) {
      assert CallMatches(env, before, l, k) && Same(l, l', InCall(k));
      assert k < |before| ==> after[k] == before[k];
    }
  }

  lemma {:induction false} RefusalsKept(env: Env, refusals: seq<Answer>, l: Ledger, l': Ledger)
    requires forall r: nat :: RefusalMatches(env, refusals, l, r)
    requires forall r: nat :: Same(l, l', Refused(r))
    ensures forall r: nat :: RefusalMatches(env, refusals, l', r)
  {
    hide RefusedShape;
    forall r: nat ensures RefusalMatches(env, refusals, l', r) {
      assert RefusalMatches(env, refusals, l, r) && Same(l, l', Refused(r));
    }
  }

  /** One more refusal, for the frames that go to its place. */
  lemma {:induction false} RefusalAdded(env: Env, refusals: seq<Answer>, l: Ledger, l': Ledger, refusal: Answer)
    requires forall r: nat :: RefusalMatches(env, refusals, l, r)
    requires forall r: nat :: r != |refusals| ==> Same(l, l', Refused(r))
    requires RefusedShape(env, refusal, In(l', Refused(|refusals|)))
    ensures forall r: nat :: RefusalMatches(env, refusals + [refusal], l', r)
  {
    hide RefusedShape;
    forall r: nat ensures RefusalMatches(env, refusals + [refusal], l', r) {
      assert RefusalMatches(env, refusals, l, r);
      assert r != |refusals| ==> Same(l, l', Refused(r));
    }
  }

  lemma {:induction false} ServeStage(env: Env, st: State, batch: seq<byte>, mode: RfqMode)
    requires !IsOver(st)
    ensures var r := Serve(env, st, batch, mode);
      if IsOver(r) then r.stage.TornDown? && r.pipeline == [] && r.capture == None
      else r.stage == st.stage && r.pipeline == st.pipeline && r.capture == st.capture
  {
    hide Response, Succeeds, StatusAfter, Finish;
  }

  lemma {:induction false} NothingCaptured(env: Env)
    ensures CaptureMatches(env, None, []) && AllExtended([])
  {
  }

  /** The books `b` before a step, and the ledger `e` with the next frame entered. */
  ghost predicate Entering(env: Env, st: State, b: Books, e: Ledger) {
    && !IsOver(st) && st.pipeline == In(e, InPipeline) && AllExtended(st.pipeline)
    && CaptureMatches(env, st.capture, In(e, InCapture))
    && (forall k: nat :: CallMatches(env, st.calls, b.entries, k))
    && (forall r: nat :: RefusalMatches(env, Refusals(b.answers), b.entries, r))
    && In(e, Lost) == [] && In(e, Ending) == []
    && st.output == Output(b.answers) && Passes(b.answers) == Batches(st.calls)
  }

  /** The state after a call, at the ready stage unless it is over. */
  function Advanced(r: State): State {
    if r.stage.PreStartup? then r.(stage := Ready) else r
  }

  lemma {:induction false} ServeKeepsInv(env: Env, st: State, b: Books, e: Ledger, batch: seq<byte>, mode: RfqMode)
    requires Entering(env, st, b, e)
    requires forall k: nat :: k != |st.calls| ==> Same(b.entries, e, InCall(k))
    requires forall r: nat :: Same(b.entries, e, Refused(r))
    requires batch == Flatten(In(e, InCall(|st.calls|))) && WellShaped(env, |st.calls|, mode, In(e, InCall(|st.calls|)))
    requires st.stage.PreStartup? ==> st.pipeline == [] && st.capture == None
    ensures var r := Serve(env, st, batch, mode);
      Inv(env, Advanced(r), Books(Closed(r, e), b.answers + [PassedOn(Added(st.output, r.output))]))
  {
    hide Serve, WellShaped, CallMatches, CaptureMatches, RefusalMatches, AllExtended, In, Closed, Batches;
    var r := Serve(env, st, batch, mode);
    var a := PassedOn(Added(st.output, r.output));
    ServeForwards(env, st, batch, mode);
    OneMoreBatch(st.calls, r.calls, batch, mode);
    ServeStage(env, st, batch, mode);
    AnswersAppend(b.answers, a);
    NothingCaptured(env);
    ServeKeepsPlaces(env, st, b, e, batch, mode, a);
  }

  lemma {:induction false} ServeKeepsPlaces(env: Env, st: State, b: Books, e: Ledger, batch: seq<byte>, mode: RfqMode,
                                            a: Answer)
    requires Entering(env, st, b, e) && a.PassedOn?
    requires forall k: nat :: k != |st.calls| ==> Same(b.entries, e, InCall(k))
    requires forall r: nat :: Same(b.entries, e, Refused(r))
    requires batch == Flatten(In(e, InCall(|st.calls|))) && WellShaped(env, |st.calls|, mode, In(e, InCall(|st.calls|)))
    ensures var r := Serve(env, st, batch, mode);
      PlacesMatch(env, Advanced(r), Books(Closed(r, e), b.answers + [a]))
  {
    hide Serve, WellShaped, CallMatches, CaptureMatches, RefusalMatches, AllExtended, In, Abandon, Refusals;
    var r := Serve(env, st, batch, mode);
    ServeForwards(env, st, batch, mode);
    ServeStage(env, st, batch, mode);
    AnswersAppend(b.answers, a);
    NothingCaptured(env);
    var l' := Closed(r, e);
    ClosedKeeps(r, e);
    forall k: nat | k != |st.calls| ensures Same(b.entries, l', InCall(k)) {
      assert Same(b.entries, e, InCall(k)) && Settled(InCall(k)) && Same(e, l', InCall(k));
    }
    forall n: nat ensures Same(b.entries, l', Refused(n)) {
      assert Same(b.entries, e, Refused(n)) && Settled(Refused(n)) && Same(e, l', Refused(n));
    }
    assert Settled(InCall(|st.calls|)) && Same(e, l', InCall(|st.calls|));
    assert Settled(Ending) && Same(e, l', Ending);
    CallsAfterServe(env, st.calls, b.entries, r.calls, l', batch, mode);
    RefusalsKept(env, Refusals(b.answers), b.entries, l');
  }

  /** A step that forwards nothing. */
  lemma {:induction false} QuietKeepsInv(env: Env, st: State, b: Books, r: State, b': Books)
    requires Inv(env, st, b) && st.stage.Ready? && r.stage.Ready? && r.calls == st.calls
    requires r.pipeline == In(b'.entries, InPipeline) && AllExtended(r.pipeline)
    requires CaptureMatches(env, r.capture, In(b'.entries, InCapture))
    requires forall k: nat :: Same(b.entries, b'.entries, InCall(k))
    requires forall n: nat :: RefusalMatches(env, Refusals(b'.answers), b'.entries, n)
    requires In(b'.entries, Lost) == [] && In(b'.entries, Ending) == []
    requires r.output == Output(b'.answers) && Passes(b'.answers) == Passes(b.answers)
    ensures Inv(env, r, b')
  {
    hide WellShaped, CallMatches, CaptureMatches, RefusalMatches, AllExtended, In, Batches, Refusals;
    CallsAfterOther(env, st.calls, b.entries, r.calls, b'.entries);
  }

  lemma {:induction false} EndKeepsInv(env: Env, st: State, b: Books, e: Ledger, stage: Stage)
    requires Inv(env, st, b) && !IsOver(st)
    requires forall k: nat :: Same(b.entries, e, InCall(k))
    requires forall r: nat :: Same(b.entries, e, Refused(r))
    requires match stage
             case TornDown => In(e, Ending) == []
             case Terminated => |In(e, Ending)| == 1 && In(e, Ending)[0] != [] && In(e, Ending)[0][0] == TERMINATE
             case _ => false
    ensures Inv(env, End(st, stage), Books(Abandon(e), b.answers))
  {
    hide WellShaped, CallMatches, CaptureMatches, RefusalMatches, AllExtended, In, Abandon, Refusals, Output, Passes;
    var l' := Abandon(e);
    forall k: nat ensures Same(b.entries, l', InCall(k)) {
      assert Same(b.entries, e, InCall(k));
      AbandonKeepsSettled(e, InCall(k));
    }
    forall n: nat ensures Same(b.entries, l', Refused(n)) {
      assert Same(b.entries, e, Refused(n));
      AbandonKeepsSettled(e, Refused(n));
    }
    AbandonKeepsSettled(e, Ending);
    CallsAfterOther(env, st.calls, b.entries, End(st, stage).calls, l');
    BatchesAfter(st.calls, End(st, stage).calls);
    RefusalsKept(env, Refusals(b.answers), b.entries, l');
    NothingCaptured(env);
  }

  /** Entering a frame in one place leaves the others alone. */
  lemma {:induction false} Entered(l: Ledger, frame: seq<byte>, p: Place)
    ensures In(l + [Entry(frame, p)], p) == In(l, p) + [frame]
    ensures forall q: Place :: q != p ==> Same(l, l + [Entry(frame, p)], q)
  {
    forall q: Place { InAppend(l, Entry(frame, p), q); }
    forall q: Place | q != p ensures Same(l, l + [Entry(frame, p)], q) {
      assert In(l, q) + [] == In(l, q);
    }
  }

  lemma {:induction false} MovedAway(l: Ledger, from: Place, to: Place)
    requires from != to && In(l, to) == []
    ensures In(Moved(l, from, to), from) == [] && In(Moved(l, from, to), to) == In(l, from)
    ensures forall q: Place :: q != from && q != to ==> Same(l, Moved(l, from, to), q)
  {
    InMoved(l, from, to, to);
    forall q: Place { InMoved(l, from, to, q); }
  }

  lemma {:induction false} NothingAhead(env: Env, st: State, b: Books)
    requires Inv(env, st, b)
    ensures In(b.entries, InCall(|st.calls|)) == [] && In(b.entries, Refused(|Refusals(b.answers)|)) == []
  {
    hide In, WellShaped, RefusedShape;
    assert CallMatches(env, st.calls, b.entries, |st.calls|);
    assert RefusalMatches(env, Refusals(b.answers), b.entries, |Refusals(b.answers)|);
  }

  lemma {:induction false} FlattenOne(frame: seq<byte>)
    ensures Flatten([frame]) == frame
  {
    assert [frame][1..] == [];
  }

  lemma {:induction false} StartupKeepsInv(env: Env, st: State, b: Books, frame: seq<byte>)
    requires Inv(env, st, b) && st.stage.PreStartup? && frame != []
    ensures Inv(env, OnNext(env, st, frame), Track(env, st, b, frame))
  {
    AloneIsServed(env, st, b, frame);
  }

  /** A frame that is a batch of its own. */
  lemma {:induction false} AloneIsServed(env: Env, st: State, b: Books, frame: seq<byte>)
    requires Inv(env, st, b) && frame != [] && st.capture == None && !IsOver(st)
    requires |st.calls| == 0 || Standalone(env, frame)
    requires st.stage.PreStartup? || Standalone(env, frame)
    ensures Inv(env, OnNext(env, st, frame), Track(env, st, b, frame))
  {
    hide Serve, CallMatches, RefusalMatches, In, Closed, CaptureMatches, AllExtended, CopyIn.Sniff, Refusals, Output,
         Passes;
    var k := |st.calls|;
    var e := b.entries + [Entry(frame, InCall(k))];
    var r := Serve(env, st, frame, Passthrough);
    ServeStage(env, st, frame, Passthrough);
    assert OnNext(env, st, frame) == Advanced(r);
    assert Enter(env, st, b, frame) == e && Answers(env, st, frame) == [PassedOn(Added(st.output, r.output))];
    assert Closed(OnNext(env, st, frame), e) == Closed(r, e) by { ClosedAdvanced(r, e); }
    Entered(b.entries, frame, InCall(k));
    NothingAhead(env, st, b);
    FlattenOne(frame);
    assert [] + [frame] == [frame];
    EnteredElsewhere(b.entries, e, k);
    ServeKeepsInv(env, st, b, e, frame, Passthrough);
  }

  lemma {:induction false} ClosedAdvanced(r: State, e: Ledger)
    ensures Closed(Advanced(r), e) == Closed(r, e)
  {
  }

  /** What is the same everywhere but in one call. */
  lemma {:induction false} EnteredElsewhere(l: Ledger, e: Ledger, k: nat)
    requires forall q: Place :: q != InCall(k) ==> Same(l, e, q)
    ensures In(e, InPipeline) == In(l, InPipeline) && In(e, InCapture) == In(l, InCapture)
    ensures In(e, Lost) == In(l, Lost) && In(e, Ending) == In(l, Ending)
    ensures forall n: nat :: Same(l, e, Refused(n))
    ensures forall j: nat :: j != k ==> Same(l, e, InCall(j))
  {
    hide In;
    assert Same(l, e, InPipeline) && Same(l, e, InCapture) && Same(l, e, Lost) && Same(l, e, Ending);
  }

  /** A frame that completes a batch or a conversation takes everything gathered in `from` along. */
  lemma {:induction false} BatchCompleted(l: Ledger, frame: seq<byte>, from: Place, to: Place)
    requires from != to && In(l, to) == []
    ensures var e := Moved(l + [Entry(frame, from)], from, to);
      && In(e, from) == [] && In(e, to) == In(l, from) + [frame]
      && (forall q: Place :: q != from && q != to ==> Same(l, e, q))
  {
    hide In, Moved;
    var entered := l + [Entry(frame, from)];
    Entered(l, frame, from);
    assert Same(l, entered, to);
    MovedAway(entered, from, to);
    forall q: Place | q != from && q != to ensures Same(l, Moved(entered, from, to), q) {
      assert Same(l, entered, q) && Same(entered, Moved(entered, from, to), q);
    }
  }

  lemma {:induction false} BatchKeepsInv(env: Env, st: State, b: Books, frame: seq<byte>)
    requires Inv(env, st, b) && st.stage.Ready? && st.capture == None
    requires frame != [] && (frame[0] == SYNC || frame[0] == FLUSH)
    ensures Inv(env, OnNext(env, st, frame), Track(env, st, b, frame))
  {
    hide Serve, CallMatches, RefusalMatches, In, Closed, CaptureMatches, AllExtended, Moved, WellShaped, Refusals,
         Output, Passes;
    var k, frames := |st.calls|, st.pipeline + [frame];
    var mode := if frame[0] == SYNC then Suppress else FlushBoundary;
    var e := Moved(b.entries + [Entry(frame, InPipeline)], InPipeline, InCall(k));
    var r := Serve(env, st.(pipeline := []), Flatten(frames), mode);
    ServeStage(env, st.(pipeline := []), Flatten(frames), mode);
    assert OnNext(env, st, frame) == r == Advanced(r);
    assert Enter(env, st, b, frame) == e && Answers(env, st, frame) == [PassedOn(Added(st.output, r.output))];
    NothingAhead(env, st, b);
    BatchCompleted(b.entries, frame, InPipeline, InCall(k));
    BatchShape(env, k, st.pipeline, frame);
    NothingCaptured(env);
    assert Same(b.entries, e, InCapture) && Same(b.entries, e, Lost) && Same(b.entries, e, Ending);
    ServeKeepsInv(env, st.(pipeline := []), b, e, Flatten(frames), mode);
  }

  lemma {:induction false} BatchShape(env: Env, k: nat, pipeline: seq<seq<byte>>, frame: seq<byte>)
    requires AllExtended(pipeline) && frame != [] && (frame[0] == SYNC || frame[0] == FLUSH)
    ensures WellShaped(env, k, if frame[0] == SYNC then Suppress else FlushBoundary, pipeline + [frame])
  {
    assert (pipeline + [frame])[..|pipeline|] == pipeline;
  }

  lemma {:induction false} ExtendedKeepsInv(env: Env, st: State, b: Books, frame: seq<byte>)
    requires Inv(env, st, b) && st.stage.Ready? && st.capture == None && frame != [] && IsExtended(frame[0])
    ensures Inv(env, OnNext(env, st, frame), Track(env, st, b, frame))
  {
    hide CallMatches, RefusalMatches, In, CaptureMatches, Refusals, Output, Passes;
    var e := b.entries + [Entry(frame, InPipeline)];
    Entered(b.entries, frame, InPipeline);
    assert b.answers + [] == b.answers;
    RefusalsKept(env, Refusals(b.answers), b.entries, e);
    assert Same(b.entries, e, InCapture) && Same(b.entries, e, Lost) && Same(b.entries, e, Ending);
    QuietKeepsInv(env, st, b, OnNext(env, st, frame), Books(e, b.answers));
  }

  /** A copy-in Query is captured, or thrown away at once if it alone is past the cap. */
  lemma {:induction false} CaptureKeepsInv(env: Env, st: State, b: Books, frame: seq<byte>)
    requires Inv(env, st, b) && st.stage.Ready? && st.capture == None && frame != [] && frame[0] == QUERY
    requires CopyIn.Sniff(QueryText(env, frame)).Capture?
    ensures Inv(env, OnNext(env, st, frame), Track(env, st, b, frame))
  {
    hide CallMatches, RefusalMatches, In, CopyIn.Sniff, AllExtended, Refusals, Output, Passes;
    var e := b.entries + [Entry(frame, InCapture)];
    Entered(b.entries, frame, InCapture);
    FlattenOne(frame);
    assert [] + [frame] == [frame];
    AnswersAppend(b.answers, CopyPrompt);
    RefusalsKept(env, Refusals(b.answers), b.entries, e);
    assert Same(b.entries, e, InPipeline) && Same(b.entries, e, Lost) && Same(b.entries, e, Ending);
    QuietKeepsInv(env, st, b, OnNext(env, st, frame), Books(e, b.answers + [CopyPrompt]));
  }

  lemma {:induction false} RejectIs(env: Env, st: State, b: Books, frame: seq<byte>)
    requires st.stage.Ready? && st.capture == None && frame != [] && frame[0] == QUERY
    requires CopyIn.Sniff(QueryText(env, frame)).RejectMulti?
    ensures var a := Refusal(NOT_SUPPORTED, env.multiStatement, st.status);
      && OnNext(env, st, frame) == st.(output := st.output + AnswerBytes(a))
      && Track(env, st, b, frame) ==
           Books(b.entries + [Entry(frame, Refused(|Refusals(b.answers)|))], b.answers + [a])
  {
    hide Refusals, AnswerBytes, CopyIn.Sniff;
    RefusalBytes(st.output, Refusal(NOT_SUPPORTED, env.multiStatement, st.status));
  }

  lemma {:induction false} RejectKeepsInv(env: Env, st: State, b: Books, frame: seq<byte>)
    requires Inv(env, st, b) && st.stage.Ready? && st.capture == None && frame != [] && frame[0] == QUERY
    requires CopyIn.Sniff(QueryText(env, frame)).RejectMulti?
    ensures Inv(env, OnNext(env, st, frame), Track(env, st, b, frame))
  {
    hide CallMatches, RefusalMatches, In, CopyIn.Sniff, AllExtended, CaptureMatches, Refusals, Output, Passes, OnNext,
         Track, AnswerBytes;
    var n := |Refusals(b.answers)|;
    var e := b.entries + [Entry(frame, Refused(n))];
    var a := Refusal(NOT_SUPPORTED, env.multiStatement, st.status);
    RejectIs(env, st, b, frame);
    Entered(b.entries, frame, Refused(n));
    NothingAhead(env, st, b);
    assert [] + [frame] == [frame];
    AnswersAppend(b.answers, a);
    RefusalAdded(env, Refusals(b.answers), b.entries, e, a);
    assert Same(b.entries, e, InPipeline) && Same(b.entries, e, InCapture);
    assert Same(b.entries, e, Lost) && Same(b.entries, e, Ending);
    QuietKeepsInv(env, st, b, OnNext(env, st, frame), Books(e, b.answers + [a]));
  }

  lemma {:induction false} RefusalBytes(output: seq<byte>, a: Answer)
    requires a.Refusal? && |a.code| == 5
    ensures output + ErrorFrame(a.code, a.message) + ReadyFrame(a.status) == output + AnswerBytes(a)
  {
  }

  /** One more frame of a COPY conversation. */
  lemma {:induction false} AppendKeeps(env: Env, c: Capture, frames: seq<seq<byte>>, frame: seq<byte>)
    requires CaptureMatches(env, Some(c), frames) && frame != []
    ensures var c' := Append(env, c, frame);
      && CopyConversation(env, frames)
      && (if c'.discarding then c'.frames == [] && |Flatten(frames + [frame])| > env.cap
          else c'.frames == frames + [frame] && c'.total == |Flatten(frames + [frame])| <= env.cap)
  {
    FlattenSnoc(frames, frame);
  }

  lemma {:induction false} CapturedKeepsInv(env: Env, st: State, b: Books, frame: seq<byte>)
    requires Inv(env, st, b) && st.stage.Ready? && st.capture.Some?
    requires frame != [] && frame[0] == COPY_DATA
    ensures Inv(env, OnNext(env, st, frame), Track(env, st, b, frame))
  {
    hide CallMatches, RefusalMatches, In, AllExtended, CopyIn.Sniff, Refusals, Output, Passes, Append;
    var e := b.entries + [Entry(frame, InCapture)];
    Entered(b.entries, frame, InCapture);
    AppendKeeps(env, st.capture.value, In(b.entries, InCapture), frame);
    assert b.answers + [] == b.answers;
    RefusalsKept(env, Refusals(b.answers), b.entries, e);
    assert Same(b.entries, e, InPipeline) && Same(b.entries, e, Lost) && Same(b.entries, e, Ending);
    QuietKeepsInv(env, st, b, OnNext(env, st, frame), Books(e, b.answers));
  }

  lemma {:induction false} CopyEndKeepsInv(env: Env, st: State, b: Books, frame: seq<byte>)
    requires Inv(env, st, b) && st.stage.Ready? && st.capture.Some?
    requires frame != [] && (frame[0] == COPY_DONE || frame[0] == COPY_FAIL)
    ensures Inv(env, OnNext(env, st, frame), Track(env, st, b, frame))
  {
    hide Inv, OnNext, Track;
    if Append(env, st.capture.value, frame).discarding {
      CopyRefusedKeepsInv(env, st, b, frame);
    } else {
      CopyServedKeepsInv(env, st, b, frame);
    }
  }

  /** What the end of a COPY conversation past the cap does to the duplex and to the books. */
  lemma {:induction false} CopyRefusedIs(env: Env, st: State, b: Books, frame: seq<byte>)
    requires st.stage.Ready? && st.capture.Some?
    requires frame != [] && (frame[0] == COPY_DONE || frame[0] == COPY_FAIL)
    requires Append(env, st.capture.value, frame).discarding
    ensures var a := Refusal(PROGRAM_LIMIT, env.overCap, st.status);
      && OnNext(env, st, frame) == st.(capture := None, output := st.output + AnswerBytes(a))
      && Track(env, st, b, frame) == Books(
           Moved(b.entries + [Entry(frame, InCapture)], InCapture, Refused(|Refusals(b.answers)|)), b.answers + [a])
  {
    hide Moved, Refusals, Append, AnswerBytes;
    RefusalBytes(st.output, Refusal(PROGRAM_LIMIT, env.overCap, st.status));
  }

  /** The end of a COPY conversation past the cap. */
  lemma {:induction false} CopyRefusedKeepsInv(env: Env, st: State, b: Books, frame: seq<byte>)
    requires Inv(env, st, b) && st.stage.Ready? && st.capture.Some?
    requires frame != [] && (frame[0] == COPY_DONE || frame[0] == COPY_FAIL)
    requires Append(env, st.capture.value, frame).discarding
    ensures Inv(env, OnNext(env, st, frame), Track(env, st, b, frame))
  {
    hide CallMatches, RefusalMatches, In, AllExtended, CopyConversation, Moved, Refusals, Output, Passes, Append,
         Flatten, OnNext, Track, AnswerBytes;
    var n, frames := |Refusals(b.answers)|, In(b.entries, InCapture);
    var e := Moved(b.entries + [Entry(frame, InCapture)], InCapture, Refused(n));
    var a := Refusal(PROGRAM_LIMIT, env.overCap, st.status);
    CopyRefusedIs(env, st, b, frame);
    AppendKeeps(env, st.capture.value, frames, frame);
    NothingAhead(env, st, b);
    BatchCompleted(b.entries, frame, InCapture, Refused(n));
    assert (frames + [frame])[..|frames|] == frames;
    AnswersAppend(b.answers, a);
    RefusalAdded(env, Refusals(b.answers), b.entries, e, a);
    assert Same(b.entries, e, InPipeline) && Same(b.entries, e, Lost) && Same(b.entries, e, Ending);
    QuietKeepsInv(env, st, b, OnNext(env, st, frame), Books(e, b.answers + [a]));
  }

  /** The end of a COPY conversation within the cap. */
  lemma {:induction false} CopyServedKeepsInv(env: Env, st: State, b: Books, frame: seq<byte>)
    requires Inv(env, st, b) && st.stage.Ready? && st.capture.Some?
    requires frame != [] && (frame[0] == COPY_DONE || frame[0] == COPY_FAIL)
    requires !Append(env, st.capture.value, frame).discarding
    ensures Inv(env, OnNext(env, st, frame), Track(env, st, b, frame))
  {
    hide CallMatches, RefusalMatches, In, AllExtended, CopyConversation, Moved, Refusals, Output, Passes, Append,
         Flatten, Serve, Closed;
    var k, frames := |st.calls|, In(b.entries, InCapture);
    var all := frames + [frame];
    var e := Moved(b.entries + [Entry(frame, InCapture)], InCapture, InCall(k));
    AppendKeeps(env, st.capture.value, frames, frame);
    var r := Serve(env, st.(capture := None), Flatten(all), RfqMode.CopyIn);
    ServeStage(env, st.(capture := None), Flatten(all), RfqMode.CopyIn);
    assert OnNext(env, st, frame) == r == Advanced(r);
    assert Enter(env, st, b, frame) == e && Answers(env, st, frame) == [PassedOn(Added(st.output, r.output))];
    NothingAhead(env, st, b);
    BatchCompleted(b.entries, frame, InCapture, InCall(k));
    assert all[..|all| - 1] == frames;
    assert Same(b.entries, e, InPipeline) && Same(b.entries, e, Lost) && Same(b.entries, e, Ending);
    ServeKeepsInv(env, st.(capture := None), b, e, Flatten(all), RfqMode.CopyIn);
  }

  lemma {:induction false} EndingKeepsInv(env: Env, st: State, b: Books, frame: seq<byte>)
    requires Inv(env, st, b) && st.stage.Ready? && frame != []
    requires frame[0] == TERMINATE
             || (st.capture.Some? && frame[0] != COPY_DATA && frame[0] != COPY_DONE && frame[0] != COPY_FAIL)
    ensures Inv(env, OnNext(env, st, frame), Track(env, st, b, frame))
  {
    hide CallMatches, RefusalMatches, In, AllExtended, CaptureMatches, Abandon, Refusals, Output, Passes;
    var e := Enter(env, st, b, frame);
    Entered(b.entries, frame, Ending);
    Entered(b.entries, frame, Lost);
    assert [] + [frame] == [frame] && b.answers + [] == b.answers;
    assert frame[0] != TERMINATE ==> Same(b.entries, e, Ending);
    EndKeepsInv(env, st, b, e, if frame[0] == TERMINATE then Terminated else TornDown);
  }

  lemma {:induction false} TrackKeepsInv(env: Env, st: State, b: Books, frame: seq<byte>)
    requires Inv(env, st, b) && !IsOver(st) && frame != []
    ensures Inv(env, OnNext(env, st, frame), Track(env, st, b, frame))
  {
    hide PlacesMatch, OnNext, Track, CopyIn.Sniff, Output, Passes, Batches;
    var ty := frame[0];
    if st.stage.PreStartup? {
      StartupKeepsInv(env, st, b, frame);
    } else if ty == TERMINATE {
      EndingKeepsInv(env, st, b, frame);
    } else if st.capture.Some? {
      if ty == COPY_DATA {
        CapturedKeepsInv(env, st, b, frame);
      } else if ty == COPY_DONE || ty == COPY_FAIL {
        CopyEndKeepsInv(env, st, b, frame);
      } else {
        EndingKeepsInv(env, st, b, frame);
      }
    } else if IsExtended(ty) {
      ExtendedKeepsInv(env, st, b, frame);
    } else if ty == SYNC || ty == FLUSH {
      BatchKeepsInv(env, st, b, frame);
    } else if ty == QUERY && CopyIn.Sniff(QueryText(env, frame)).Capture? {
      CaptureKeepsInv(env, st, b, frame);
    } else if ty == QUERY && CopyIn.Sniff(QueryText(env, frame)).RejectMulti? {
      RejectKeepsInv(env, st, b, frame);
    } else {
      AloneIsServed(env, st, b, frame);
    }
  }

  // ---- Whole streams ----

  lemma {:induction false} DrainKeepsBooks(env: Env, st: State, b: Books)
    requires Inv(env, st, b)
    ensures var (r, c) := DrainTracked(env, st, b);
      && r == Drain(env, st) && Inv(env, r, c)
      && Flatten(Frames(b.entries)) <= Flatten(Frames(c.entries)) <= Flatten(Frames(b.entries)) + st.pending
      && (!IsOver(r) ==> Flatten(Frames(c.entries)) + r.pending == Flatten(Frames(b.entries)) + st.pending)
    decreases |st.pending|
  {
    hide OnNext, Track, NextCut, CallMatches, RefusalMatches, CaptureMatches, In, AllExtended, Frames, Moved, Output,
         Passes, Batches, Refusals;
    var bytes := Flatten(Frames(b.entries));
    if IsOver(st) {
    } else if NextCut(st.stage, st.pending).Whole? {
      var n := NextCut(st.stage, st.pending).n;
      var before, frame := st.(pending := st.pending[n..]), st.pending[..n];
      TrackKeepsInv(env, before, b, frame);
      TrackEntersOnce(env, before, b, frame);
      FlattenSnoc(Frames(b.entries), frame);
      assert bytes + st.pending == bytes + frame + st.pending[n..];
      OnNextIgnoresRest(env, before, frame, before.pending);
      DrainKeepsBooks(env, OnNext(env, before, frame), Track(env, before, b, frame));
    } else if NextCut(st.stage, st.pending).BadLength? {
      forall p: Place ensures Same(b.entries, b.entries, p) {}
      EndKeepsInv(env, st, b, b.entries, TornDown);
      FramesMoved(b.entries, InPipeline, Lost);
      FramesMoved(Moved(b.entries, InPipeline, Lost), InCapture, Lost);
    }
  }

  /**
   * Main result, for every frontend byte stream and every backend. The frames of the ledger are the bytes that
   * arrived, all but an incomplete rest unless the connection ended. Every frame is in one place: each call sends
   * exactly the frames of its place, in order of arrival and in the shape of its mode; the pipeline and the COPY
   * capture hold the frames of theirs; each refusal answers a multi-statement copy-in or a COPY conversation past the
   * cap, one error and one ReadyForQuery for each; and no frame is lost unless the connection has ended. The output
   * is one response for each batch, the prompts and the refusals, and nothing else.
   */
  lemma {:induction false} EveryFrameIsPlacedOnce(env: Env, bytes: seq<byte>)
    ensures var (st, b) := DrainTracked(env, INITIAL.(pending := bytes), Books([], []));
      && st == Feed(env, INITIAL, bytes) && Inv(env, st, b)
      && Flatten(Frames(b.entries)) <= bytes
      && (!IsOver(st) ==> Flatten(Frames(b.entries)) + st.pending == bytes)
  {
    hide Drain, DrainTracked;
    var st := INITIAL.(pending := bytes);
    assert [] + bytes == bytes;
    forall k: nat ensures CallMatches(env, [], [], k) {}
    forall r: nat ensures RefusalMatches(env, [], [], r) {}
    DrainKeepsBooks(env, st, Books([], []));
  }
}
