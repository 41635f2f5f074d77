/** What each frontend message does at the ready stage (src/duplex/index.ts), by its type on the wire. */
module DuplexMessages {
  import opened Bytes
  import opened Wrappers
  import opened BackendStream
  import opened BackendFilter
  import opened DuplexProtocol
  import opened DuplexFraming
  import opened DuplexAnswers
  import BackendFramer
  import CopyIn

  /** Parse, Bind, Describe, Execute and Close. */
  const EXTENDED: set<byte> := {0x50, 0x42, 0x44, 0x45, 0x43}

  predicate AllOfType(frames: seq<Frame>, types: set<byte>) {
    forall i :: 0 <= i < |frames| ==> frames[i].ty in types
  }

  lemma {:induction false} EncodedType(f: Frame)
    requires Legal(f)
    ensures Encode(f)[0] == f.ty
  {
  }

  lemma {:induction false} FlatSnoc(frames: seq<seq<byte>>, frame: seq<byte>, rest: seq<byte>)
    ensures Flatten(frames + [frame]) + rest == Flatten(frames) + (frame + rest)
  {
    FlattenSnoc(frames, frame);
  }

  /**
   * Main result: extended-query messages are gathered, whatever their number, and go out as one call with the Sync
   * (0x53) or Flush (0x48) that ends them, behind what was gathered before.
   */
  lemma {:induction false} BatchIsOneCall(env: Env, st: State, frames: seq<Frame>, last: Frame)
    requires st.stage.Ready? && st.capture == None
    requires AllLegal(frames + [last]) && AllOfType(frames, EXTENDED) && last.ty in {0x53, 0x48}
    ensures InTurn(env, st, frames + [last])
         == Serve(env, st.(pipeline := []), Flatten(st.pipeline) + EncodeAll(frames + [last]),
                  if last.ty == 0x53 then Suppress else FlushBoundary)
    decreases |frames|
  {
    hide Serve, Encode, EncodeAll, Flatten;
    var all := frames + [last];
    EncodeAllCons(all);
    EncodedType(all[0]);
    if frames == [] {
      assert all[1..] == [];
      NothingEncoded();
      var batch := Encode(last);
      assert batch + [] == batch;
      FlatSnoc(st.pipeline, batch, []);
      assert Flatten(st.pipeline + [batch]) + [] == Flatten(st.pipeline + [batch]);
    } else {
      var f := frames[0];
      assert all[1..] == frames[1..] + [last];
      FlatSnoc(st.pipeline, Encode(f), EncodeAll(all[1..]));
      BatchIsOneCall(env, st.(pipeline := st.pipeline + [Encode(f)]), frames[1..], last);
    }
  }

  /** A message of any other type, Query (0x51) and Terminate (0x58) apart, is one call of its own. */
  lemma {:induction false} StandaloneIsOneCall(env: Env, st: State, f: Frame)
    requires st.stage.Ready? && st.capture == None && Legal(f) && f.ty !in EXTENDED + {0x53, 0x48, 0x51, 0x58}
    ensures var r := OnNext(env, st, Encode(f));
      r == Serve(env, st, Encode(f), Passthrough) && (!IsOver(r) ==> r.pipeline == st.pipeline)
  {
    hide Serve, Encode;
    EncodedType(f);
    ServeKeepsPipeline(env, st, Encode(f), Passthrough);
  }

  lemma {:induction false} ServeKeepsPipeline(env: Env, st: State, batch: seq<byte>, mode: RfqMode)
    ensures var r := Serve(env, st, batch, mode); !IsOver(r) ==> r.pipeline == st.pipeline
  {
    hide Response, Succeeds, StatusAfter, Finish;
  }

  /** Terminate (0x58) ends the connection in order, wherever it comes: an open transaction is rolled back. */
  lemma {:induction false} TerminateEnds(env: Env, st: State, f: Frame)
    requires st.stage.Ready? && Legal(f) && f.ty == 0x58
    ensures var r := OnNext(env, st, Encode(f));
      && r.stage.Terminated? && r.output == st.output && r.pipeline == [] && r.capture == None
      && r.calls == if st.status in {Some(0x54), Some(0x45)} then st.calls + [Rollback] else st.calls
  {
    EncodedType(f);
  }

  /** During a captured COPY, anything but CopyData, CopyDone, CopyFail and Terminate tears the connection down. */
  lemma {:induction false} OthersBreakCopy(env: Env, st: State, f: Frame)
    requires st.stage.Ready? && st.capture.Some? && Legal(f) && f.ty !in {0x64, 0x63, 0x66, 0x58}
    ensures var r := OnNext(env, st, Encode(f));
      && r.stage.TornDown? && r.output == st.output
      && r.calls == if st.status in {Some(0x54), Some(0x45)} then st.calls + [Rollback] else st.calls
  {
    EncodedType(f);
  }

  /** The first packet is one call, and the messages behind it are read only if that succeeds. */
  lemma {:induction false} StartupIsOneCall(env: Env, st: State, packet: seq<byte>)
    requires st.stage.PreStartup? && packet != []
    ensures var served := Serve(env, st, packet, Passthrough);
      OnNext(env, st, packet) == if IsOver(served) then served else served.(stage := Ready)
  {
    hide Response, Succeeds, StatusAfter, Finish;
  }

  // ---- Responses that are not whole ----

  lemma {:induction false} BadHeaderBreaks(s: Stream, bytes: seq<byte>)
    requires s.Stream? && s.phase.Between? && NextCut(Ready, bytes).BadLength?
    ensures Run(s, bytes).Broken?
  {
    hide Run;
    BackendFramer.RunNothing(s);
    assert bytes[..0] == [];
    BackendFramer.BadHeaderAtBoundary(s, s, bytes, 0);
  }

  /** If the automaton ends at a frame boundary, the bytes are whole frames. */
  lemma {:induction false} BoundaryMeansFrames(s: Stream, bytes: seq<byte>) returns (frames: seq<Frame>)
    requires s.Stream? && s.phase.Between?
    requires var t := Run(s, bytes); t.Stream? && (t.phase.Between? || t.phase.EmptyRowDescription?)
    ensures AllLegal(frames) && EncodeAll(frames) == bytes
    decreases |bytes|
  {
    hide Run, FrameStep, Encode, EncodeAll, U32At;
    if bytes == [] {
      NothingEncoded();
      return [];
    }
    match NextCut(Ready, bytes)
    case NeedsMore =>
      BackendFramer.PartialFrame(s, bytes);
      assert false;
    case BadLength =>
      BadHeaderBreaks(s, bytes);
      assert false;
    case Whole(n) =>
      BackendFramer.FrameAtBytes(bytes, 0, n);
      var f, rest := BackendFramer.FrameAt(bytes, 0, n), bytes[n..];
      assert bytes[0..n] == bytes[..n] && bytes == Encode(f) + rest;
      RunFrame(s, f);
      RunAppend(s, Encode(f), rest);
      var next := FrameStep(s, f);
      FrameEnds(s, f);
      if rest == [] {
        frames := [];
        NothingEncoded();
      } else {
        RunSettled(Run(s, Encode(f)), rest);
        frames := BoundaryMeansFrames(next, rest);
      }
      frames := [f] + frames;
      EncodeAllCons(frames);
  }

  lemma {:induction false} FrameEnds(s: Stream, f: Frame)
    requires s.Stream? && s.phase.Between? && Legal(f)
    ensures FrameStep(s, f).Stream? && FrameStep(s, f).phase.Between?
  {
  }

  /** Unless a call answers with whole frames and does not reject, it ends the connection. */
  lemma {:induction false} ResponsesAreWhole(env: Env, st: State, batch: seq<byte>, mode: RfqMode)
    requires !IsOver(st)
    ensures var reply := env.backend(st.calls + [Forward(batch, mode)]);
      Serve(env, st, batch, mode).stage.TornDown?
      || (!reply.rejects && exists frames :: WellFramed(reply, frames))
  {
    hide Run, ReadChunks, StatusAfter, Finish, EncodeAll;
    var reply := env.backend(st.calls + [Forward(batch, mode)]);
    var start := StartOf(mode, env.rewrite, [], []);
    if Succeeds(Response(env, mode, reply), reply) {
      OnlyTheEndDependsOnChunks(start, reply.chunks);
      var frames := BoundaryMeansFrames(start, Flatten(reply.chunks));
      assert WellFramed(reply, frames);
    }
  }
}
