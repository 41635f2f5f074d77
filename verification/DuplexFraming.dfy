/** Which bytes the duplex takes for a message (src/duplex/index.ts, processPreStartup and processMessages). */
module DuplexFraming {
  import opened Bytes
  import opened Wrappers
  import opened BackendStream
  import opened BackendFilter
  import opened DuplexProtocol
  import BackendFramer
  import DuplexLedger
  import CopyIn

  /** The first `n` bytes are message `f`. */
  ghost predicate StartsWithMessage(bytes: seq<byte>, f: Frame, n: nat) {
    Legal(f) && n <= |bytes| && Encode(f) == bytes[..n]
  }

  /** The first `n` bytes are a startup packet with this content. It counts its own length and has no type byte. */
  predicate StartsWithPacket(bytes: seq<byte>, content: seq<byte>, n: nat) {
    && 4 <= |content| <= 1_073_741_824 - 4
    && n <= |bytes| && U32Bytes(4 + |content|) + content == bytes[..n]
  }

  /** A message is taken off the input exactly when the input starts with the encoding of one. */
  lemma {:induction false} CutsExactlyMessages(bytes: seq<byte>, n: nat)
    ensures NextCut(Ready, bytes) == Whole(n) <==> exists f :: StartsWithMessage(bytes, f, n)
  {
    hide U32At, U32Bytes;
    if NextCut(Ready, bytes) == Whole(n) {
      BackendFramer.FrameAtBytes(bytes, 0, n);
      assert bytes[0..n] == bytes[..n];
      assert StartsWithMessage(bytes, BackendFramer.FrameAt(bytes, 0, n), n);
    }
    if f :| StartsWithMessage(bytes, f, n) {
      MessageLength(f, bytes, n);
    }
  }

  lemma {:induction false} MessageLength(f: Frame, bytes: seq<byte>, n: nat)
    requires StartsWithMessage(bytes, f, n)
    ensures n == 5 + |f.payload| && U32At(bytes, 1) == n - 1
  {
    var hdr := U32Bytes(|f.payload| + 4);
    assert Encode(f)[1..5] == hdr && |Encode(f)| == |bytes[..n]| == n;
    assert bytes[1..5] == bytes[..n][1..5];
    assert U32At(bytes, 1) == U32At(bytes[1..5], 0);
  }

  /** A startup packet is taken off the input exactly when the input starts with one. */
  lemma {:induction false} CutsExactlyPackets(bytes: seq<byte>, n: nat)
    ensures NextCut(PreStartup, bytes) == Whole(n) <==> exists content :: StartsWithPacket(bytes, content, n)
  {
    hide U32At, U32Bytes;
    if NextCut(PreStartup, bytes) == Whole(n) {
      PacketBytes(bytes, n);
      assert StartsWithPacket(bytes, bytes[4..n], n);
    }
    if content :| StartsWithPacket(bytes, content, n) {
      PacketLength(bytes, content, n);
    }
  }

  lemma {:induction false} PacketBytes(bytes: seq<byte>, n: nat)
    requires 4 <= n <= |bytes| && U32At(bytes, 0) == n
    ensures U32Bytes(n) + bytes[4..n] == bytes[..n]
  {
    var hdr := bytes[..4];
    assert U32At(hdr, 0) == U32At(bytes, 0);
    U32BytesUnique(hdr);
    assert bytes[..n] == hdr + bytes[4..n];
  }

  lemma {:induction false} PacketLength(bytes: seq<byte>, content: seq<byte>, n: nat)
    requires StartsWithPacket(bytes, content, n)
    ensures n == 4 + |content| && U32At(bytes, 0) == n
  {
    var hdr := U32Bytes(4 + |content|);
    assert (hdr + content)[..4] == hdr && |hdr + content| == |bytes[..n]| == n;
    assert bytes[..4] == bytes[..n][..4];
    assert U32At(bytes, 0) == U32At(bytes[..4], 0);
  }

  /** Messages handled one after the other, until the connection ends. */
  function InTurn(env: Env, st: State, frames: seq<Frame>): State
    requires AllLegal(frames)
    decreases |frames|
  {
    if frames == [] || IsOver(st) then st else InTurn(env, OnNext(env, st, Encode(frames[0])), frames[1..])
  }

  lemma {:induction false} EncodeAllCons(frames: seq<Frame>)
    requires AllLegal(frames) && frames != []
    ensures EncodeAll(frames) == Encode(frames[0]) + EncodeAll(frames[1..])
  {
    hide Encode;
    if |frames| > 1 {
      var init, last := frames[..|frames| - 1], frames[|frames| - 1];
      EncodeAllCons(init);
      assert frames[1..][..|frames| - 2] == init[1..];
    } else {
      assert frames[..0] == [] && frames[1..] == [];
    }
  }

  lemma {:induction false} ReadyUntilOver(env: Env, st: State, frame: seq<byte>)
    requires st.stage.Ready? && frame != []
    ensures var r := OnNext(env, st, frame); r.stage.Ready? || IsOver(r)
  {
    hide Serve, CopyIn.Sniff;
    DuplexLedger.ServeStage(env, st, frame, Passthrough);
    DuplexLedger.ServeStage(env, st.(pipeline := []), Flatten(st.pipeline + [frame]), Suppress);
    DuplexLedger.ServeStage(env, st.(pipeline := []), Flatten(st.pipeline + [frame]), FlushBoundary);
    if st.capture.Some? {
      var c := Append(env, st.capture.value, frame);
      DuplexLedger.ServeStage(env, st.(capture := None), Flatten(c.frames), RfqMode.CopyIn);
    }
  }

  /** However many messages arrive in one piece, they are handled in turn and the incomplete rest is kept. */
  lemma {:induction false} MessagesAreHandledInTurn(env: Env, st: State, frames: seq<Frame>, rest: seq<byte>)
    requires st.stage.Ready? && st.pending == [] && AllLegal(frames) && NextCut(Ready, rest).NeedsMore?
    ensures Feed(env, st, EncodeAll(frames) + rest)
         == var r := InTurn(env, st, frames); if IsOver(r) then r else r.(pending := rest)
    decreases |frames|
  {
    hide OnNext, NextCut, EncodeAll, Encode;
    if frames == [] {
      NothingEncoded();
      assert [] + rest == rest;
    } else {
      var frame, tail := Encode(frames[0]), EncodeAll(frames[1..]) + rest;
      var bytes := EncodeAll(frames) + rest;
      EncodeAllCons(frames);
      assert bytes == frame + tail && [] + bytes == bytes;
      assert StartsWithMessage(bytes, frames[0], |frame|);
      CutsExactlyMessages(bytes, |frame|);
      assert bytes[..|frame|] == frame && bytes[|frame|..] == tail;
      OnNextIgnoresRest(env, st, frame, tail);
      var a := OnNext(env, st, frame);
      ReadyUntilOver(env, st, frame);
      if IsOver(a) {
        EndAbsorbs(env, a, []);
        OverInTurn(env, a, frames[1..]);
      } else {
        assert [] + tail == tail;
        MessagesAreHandledInTurn(env, a, frames[1..], rest);
      }
    }
  }

  lemma {:induction false} NothingEncoded()
    ensures EncodeAll([]) == []
  {
  }

  lemma {:induction false} OverInTurn(env: Env, st: State, frames: seq<Frame>)
    requires IsOver(st) && AllLegal(frames)
    ensures InTurn(env, st, frames) == st
  {
  }
}
