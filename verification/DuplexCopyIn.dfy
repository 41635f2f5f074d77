/** What the copy-in scanner keeps from PGlite, for every stream and backend (src/duplex/index.ts). */
module DuplexCopyIn {
  import opened Bytes
  import opened Wrappers
  import opened BackendStream
  import opened BackendFilter
  import opened DuplexProtocol
  import opened DuplexLedger
  import opened DuplexAnswers
  import opened CopyInSql
  import CopyIn
  import CopyInLexemes
  import CopyInVerdicts

  /** A call that starts with a Query, on its own and not as a captured COPY. */
  predicate SendsQuery(call: Call) {
    call.Forward? && !call.mode.CopyIn? && call.batch != [] && call.batch[0] == 0x51
  }

  lemma {:induction false} FlattenOne(frame: seq<byte>)
    ensures Flatten([frame]) == frame
  {
    assert [frame][1..] == [] && frame + [] == frame;
  }

  lemma {:induction false} FirstOfFlat(frames: seq<seq<byte>>)
    requires frames != [] && frames[0] != []
    ensures Flatten(frames) != [] && Flatten(frames)[0] == frames[0][0]
  {
  }

  /** In the books a Query goes out on its own, and only if the scanner lets it. */
  lemma {:induction false} QueriesAreScanned(env: Env, k: nat, mode: RfqMode, frames: seq<seq<byte>>)
    requires k > 0 && WellShaped(env, k, mode, frames) && SendsQuery(Forward(Flatten(frames), mode))
    ensures CopyIn.Sniff(QueryText(env, Flatten(frames))).NotCopyIn?
  {
    hide CopyIn.Sniff, QueryText;
    if mode.Passthrough? {
      assert frames == [frames[0]];
      FlattenOne(frames[0]);
    } else {
      var init := frames[..|frames| - 1];
      assert |frames| > 1 ==> init[0] == frames[0];
      FirstOfFlat(frames);
    }
  }

  /**
   * Main result, for every frontend byte stream and every backend: apart from the startup packet and captured COPY
   * conversations, no Query that reaches PGlite has a statement that copies FROM STDIN, if the scanner divides its text
   * as PostgreSQL does.
   */
  lemma {:induction false} NoCopyInReachesPGlite(env: Env, bytes: seq<byte>, k: nat, text: seq<byte>, end: byte,
                                                 ls: seq<CopyInLexemes.Lexeme>, i: nat)
    requires var calls := Feed(env, INITIAL, bytes).calls;
      && 0 < k < |calls| && calls[k].Forward? && !calls[k].mode.CopyIn?
      && Legal(QueryFrame(text, end)) && calls[k].batch == Encode(QueryFrame(text, end))
    requires env.decode(text) == CopyInLexemes.Print(ls)
    requires PgWellFormed(None, Fresh, ls) && ReadRight(ls) && i < |CopyInVerdicts.Segments(ls)|
    ensures !CopiesFrom(CopyInVerdicts.Segments(ls)[i], "stdin")
  {
    hide Drain, DrainTracked, CopyIn.Sniff, QueryText, PgWellFormed, ReadRight, CopiesFrom, WellShaped;
    EveryFrameIsPlacedOnce(env, bytes);
    var (st, b) := DrainTracked(env, INITIAL.(pending := bytes), Books([], []));
    assert CallMatches(env, st.calls, b.entries, k);
    var frames := In(b.entries, InCall(k));
    QueriesAreScanned(env, k, st.calls[k].mode, frames);
    TextOfQuery(env, text, end);
    if CopiesFrom(CopyInVerdicts.Segments(ls)[i], "stdin") { CopyInIsNeverHidden(ls, i); }
  }
}
