/**
 * Texts on which the copy-in scanner (src/duplex/copy-in.ts) does not give its documented verdict, one lemma for each
 * way to get there.
 */
module CopyInMisreadings {
  import opened Wrappers
  import opened Text
  import opened CopyIn
  import opened CopyInLexemes
  import opened CopyInVerdicts
  import opened CopyInSql

  const SELECT: Text := Ascii("select")
  const LARGE_E: CodeUnit := 0x45
  const E_ACUTE: CodeUnit := 0xe9
  const NO_BREAK_SPACE: CodeUnit := 0xa0
  const GAP: Lexeme := Punct(SPACE)

  // ---- Simple statements ----

  predicate Simple(l: Lexeme) {
    IsName(l) || l in {Punct(OPEN), Punct(CLOSE), Punct(STAR)}
  }

  predicate AllSimple(ws: seq<Lexeme>) {
    forall i :: 0 <= i < |ws| ==> Simple(ws[i])
  }

  /** The lexemes with a space between any two. */
  function Spaced(ws: seq<Lexeme>): seq<Lexeme> {
    if |ws| <= 1 then ws else [ws[0], GAP] + Spaced(ws[1..])
  }

  function CopyFrom(target: string): seq<Lexeme> {
    [Word(Ascii("copy")), Word(Ascii("t")), Word(Ascii("from")), Word(Ascii(target))]
  }

  lemma {:induction false} SpacedMeans(ws: seq<Lexeme>)
    requires AllSimple(ws)
    ensures Meaningful(Spaced(ws)) == ws && Punct(SEMI) !in Spaced(ws)
  {
    hide IsIdentifier;
    if |ws| == 1 {
      assert ws[1..] == [];
    } else if ws != [] {
      var tail := Spaced(ws[1..]);
      SpacedMeans(ws[1..]);
      assert ([ws[0], GAP] + tail)[1..] == [GAP] + tail && ([GAP] + tail)[1..] == tail;
    }
  }

  /** Simple statements are well-formed, at the end of a text and before a semicolon. */
  lemma {:induction false} SpacedIsWellFormed(prev: Option<CodeUnit>, ctx: Context, ws: seq<Lexeme>, rest: seq<Lexeme>)
    requires AllSimple(ws) && ws != []
    requires rest != [] ==> rest[0] == Punct(SEMI)
    requires forall p, c :: rest != [] ==> PgWellFormed(p, c, rest)
    ensures PgWellFormed(prev, ctx, Spaced(ws) + rest)
    decreases |ws|
  {
    hide IsIdentifier, IsGlue, PgFits, PgLexeme, Spaced;
    assert Simple(ws[0]);
    if |ws| == 1 {
      SpacedOne(ws);
      SimpleFits(prev, ctx, ws[0], rest);
      assert (ws + rest)[1..] == rest;
    } else {
      var tail := Spaced(ws[1..]) + rest;
      SpacedIsWellFormed(Some(SPACE), After(After(ctx, ws[0]), GAP), ws[1..], rest);
      SpacedMore(ws, rest);
      GapFits(Last(PrintLexeme(ws[0])), After(ctx, ws[0]), tail);
      assert ([GAP] + tail)[1..] == tail;
      SimpleFits(prev, ctx, ws[0], [GAP] + tail);
      assert (Spaced(ws) + rest)[1..] == [GAP] + tail;
    }
  }

  lemma {:induction false} SpacedOne(ws: seq<Lexeme>)
    requires |ws| == 1
    ensures Spaced(ws) == ws
  {
  }

  lemma {:induction false} SpacedMore(ws: seq<Lexeme>, rest: seq<Lexeme>)
    requires |ws| > 1
    ensures Spaced(ws) + rest == [ws[0]] + ([GAP] + (Spaced(ws[1..]) + rest))
  {
  }

  lemma {:induction false} GapFits(prev: Option<CodeUnit>, ctx: Context, ls: seq<Lexeme>)
    requires PgWellFormed(Some(SPACE), After(ctx, GAP), ls)
    ensures PgWellFormed(prev, ctx, [GAP] + ls)
  {
    assert ([GAP] + ls)[1..] == ls;
  }

  lemma {:induction false} SimpleFits(prev: Option<CodeUnit>, ctx: Context, l: Lexeme, rest: seq<Lexeme>)
    requires Simple(l) && (rest != [] ==> rest[0] in {Punct(SEMI), GAP})
    ensures PgLexeme(l) && PgFits(prev, ctx, l, Print(rest))
  {
    if l.Word? { GlueWord(l.w); }
    assert rest != [] ==> Print(rest)[0] == rest[0].c;
  }

  lemma {:induction false} GlueWord(w: Text)
    requires IsIdentifier(w)
    ensures AllGlue(w) && !OpensDollarQuote(w) && Opener(w) == None
  {
    forall tag: Text | PgTag(tag) ensures !(OpenerOf(tag) <= w) {
      assert OpenerOf(tag)[0] == DOLLAR;
    }
  }

  lemma {:induction false} SpacedIsReadRight(ws: seq<Lexeme>)
    requires AllSimple(ws)
    ensures ReadRight(Spaced(ws))
  {
    hide IsIdentifier;
    if |ws| > 1 {
      var tail := Spaced(ws[1..]);
      SpacedIsReadRight(ws[1..]);
      assert ([ws[0], GAP] + tail)[1..] == [GAP] + tail && ([GAP] + tail)[1..] == tail;
      assert Simple(ws[0]);
    } else if |ws| == 1 {
      assert Simple(ws[0]);
      assert ws[1..] == [];
    }
  }

  lemma {:induction false} PrintAppend(a: seq<Lexeme>, b: seq<Lexeme>)
    ensures Print(a + b) == Print(a) + Print(b)
  {
    hide PrintLexeme;
    if a == [] {
      assert a + b == b;
    } else {
      assert (a + b)[1..] == a[1..] + b;
      PrintAppend(a[1..], b);
      assert PrintLexeme(a[0]) + (Print(a[1..]) + Print(b)) == PrintLexeme(a[0]) + Print(a[1..]) + Print(b);
    }
  }

  /** No quote and no line feed is printed. */
  lemma {:induction false} SpacedIsQuiet(ws: seq<Lexeme>)
    requires AllSimple(ws)
    ensures QUOTE !in Print(Spaced(ws)) && LF !in Print(Spaced(ws))
  {
    hide IsIdentifier;
    if ws != [] {
      assert Simple(ws[0]);
      SimpleIsQuiet(ws[0]);
      if |ws| > 1 {
        SpacedIsQuiet(ws[1..]);
        var tail := Spaced(ws[1..]);
        assert ([ws[0], GAP] + tail)[1..] == [GAP] + tail && ([GAP] + tail)[1..] == tail;
        assert Print(Spaced(ws)) == PrintLexeme(ws[0]) + ([SPACE] + Print(tail));
      } else {
        assert Print(ws) == PrintLexeme(ws[0]) + Print(ws[1..]) && ws[1..] == [];
      }
    }
  }

  lemma {:induction false} SimpleIsQuiet(l: Lexeme)
    requires Simple(l)
    ensures QUOTE !in PrintLexeme(l) && LF !in PrintLexeme(l)
  {
    if l.Word? {
      assert forall i :: 0 <= i < |l.w| ==> IsAsciiWord(l.w[i]);
    }
  }

  lemma {:induction false} OneStatementMore(segment: seq<Lexeme>, rest: seq<Lexeme>)
    requires Punct(SEMI) !in segment
    ensures Segments(segment + ([Punct(SEMI)] + rest)) == [segment] + Segments(rest)
  {
    if segment == [] {
      assert segment + ([Punct(SEMI)] + rest) == [Punct(SEMI)] + rest;
      assert ([Punct(SEMI)] + rest)[1..] == rest;
    } else {
      OneStatementMore(segment[1..], rest);
      assert (segment + ([Punct(SEMI)] + rest))[1..] == segment[1..] + ([Punct(SEMI)] + rest);
      assert segment == [segment[0]] + segment[1..];
      assert ([segment[1..]] + Segments(rest))[1..] == Segments(rest);
    }
  }

  /** A lower-case ASCII word is a name, and its own lower case. */
  lemma {:induction false} AsciiName(word: string)
    requires word != "" && forall i :: 0 <= i < |word| ==> 'a' <= word[i] <= 'z'
    ensures IsName(Word(Ascii(word))) && Keyword(Word(Ascii(word)), word)
  {
    forall i | 0 <= i < |word| ensures IsAsciiWord(Ascii(word)[i]) && Lower(Ascii(word))[i] == Ascii(word)[i] {
      assert 'a' <= word[i] <= 'z';
    }
    assert Lower(Ascii(word)) == Ascii(word);
  }

  lemma {:induction false} CopyFromCopies(target: string)
    requires target in {"stdin", "stdout"}
    ensures AllSimple(CopyFrom(target)) && CopiesFrom(Spaced(CopyFrom(target)), target)
  {
    hide Meaningful, Ascii, Keyword, IsIdentifier;
    var ms := CopyFrom(target);
    AsciiName("copy");
    AsciiName("t");
    AsciiName("from");
    AsciiName(target);
    assert forall i :: 0 <= i < |ms| ==> IsName(ms[i]);
    SpacedMeans(ms);
    DepthSnoc(ms[..0], ms[0]);
    DepthSnoc(ms[..1], ms[1]);
    assert ms[..1] == ms[..0] + [ms[0]] && ms[..2] == ms[..1] + [ms[1]];
    assert CopiesAt(ms, 2, target);
  }

  // ---- A carriage return ends a line comment ----

  lemma {:induction false} TriviaInFront(l: Lexeme, ls: seq<Lexeme>)
    requires IsTrivia(l)
    ensures PgVerdict([l] + ls) == PgVerdict(ls)
  {
    hide IsJsSpace;
    var r := Segments(ls);
    var q := Segments([l] + ls);
    assert ([l] + ls)[1..] == ls;
    assert l != Punct(SEMI) by { SemicolonIsSubstantial(); }
    assert q == [[l] + r[0]] + r[1..] && q[1..] == r[1..];
    assert ([l] + r[0])[1..] == r[0];
    assert Meaningful(q[0]) == Meaningful(r[0]);
    assert forall k :: 0 <= k < |r| ==> PgCopyIn(q[k]) == PgCopyIn(r[k]);
  }

  /**
   * PostgreSQL ends a line comment at a carriage return; the scanner goes on to the next line feed. It forwards
   * whatever stands on the rest of that line.
   */
  lemma {:induction false} CarriageReturnHides(body: Text, ls: seq<Lexeme>)
    requires LF !in body && CR !in body && LF !in Print(ls)
    requires PgWellFormed(Some(CR), Fresh, ls)
    ensures var text := [LineComment(body)] + ([Punct(CR)] + ls);
      PgWellFormed(None, Fresh, text) && PgVerdict(text) == PgVerdict(ls) && Sniff(Print(text)) == NotCopyIn
  {
    hide Sniff, PgVerdict;
    TriviaInFront(Punct(CR), ls);
    TriviaInFront(LineComment(body), [Punct(CR)] + ls);
    ReturnFits(body, ls);
    ReturnPrinted(body, ls);
    OnlyComment(LineComment(body + [CR] + Print(ls)));
  }

  lemma {:induction false} ReturnFits(body: Text, ls: seq<Lexeme>)
    requires LF !in body && CR !in body && PgWellFormed(Some(CR), Fresh, ls)
    ensures PgWellFormed(None, Fresh, [LineComment(body)] + ([Punct(CR)] + ls))
  {
    var after := [Punct(CR)] + ls;
    assert after[1..] == ls;
    assert PgWellFormed(Last([DASH, DASH] + body), Fresh, after);
    assert Print(after)[0] == CR;
    assert ([LineComment(body)] + after)[1..] == after;
  }

  lemma {:induction false} ReturnPrinted(body: Text, ls: seq<Lexeme>)
    ensures Print([LineComment(body)] + ([Punct(CR)] + ls)) == Print([LineComment(body + [CR] + Print(ls))])
  {
    var after := [Punct(CR)] + ls;
    var all := LineComment(body + [CR] + Print(ls));
    assert after[1..] == ls && ([LineComment(body)] + after)[1..] == after && [all][1..] == [];
    assert Print(after) == [CR] + Print(ls);
    assert [DASH, DASH] + body + ([CR] + Print(ls)) == [DASH, DASH] + (body + [CR] + Print(ls)) + [];
  }

  lemma {:induction false} OnlyComment(l: Lexeme)
    requires l.LineComment? && LF !in l.body
    ensures Sniff(Print([l])) == NotCopyIn
  {
    hide Sniff;
    assert [l][1..] == [];
    assert WellFormed(None, [l]);
    SniffsTheLexemes([l]);
    OneSegment([l]);
    OneWord(l);
  }

  /** `--`, carriage return, COPY t FROM STDIN. */
  lemma {:induction false} CommentHidesCopyIn()
    ensures var text := [LineComment([])] + ([Punct(CR)] + Spaced(CopyFrom("stdin")));
      PgWellFormed(None, Fresh, text) && PgVerdict(text) == Capture && Sniff(Print(text)) == NotCopyIn
  {
    hide Sniff, Spaced;
    var ls := Spaced(CopyFrom("stdin"));
    CopyFromCopies("stdin");
    SpacedIsWellFormed(Some(CR), Fresh, CopyFrom("stdin"), []);
    assert ls + [] == ls;
    SpacedIsQuiet(CopyFrom("stdin"));
    OneCopyIn(CopyFrom("stdin"));
    CarriageReturnHides([], ls);
  }

  lemma {:induction false} OneCopyIn(ws: seq<Lexeme>)
    requires AllSimple(ws) && PgCopyIn(Spaced(ws))
    ensures PgVerdict(Spaced(ws)) == Capture
  {
    hide Spaced, Meaningful, CopiesFrom;
    var segment := Spaced(ws);
    SpacedMeans(ws);
    OneSegment(segment);
    CopyInMeans(segment);
    var segments := [segment];
    assert PgCopyIn(segments[0]) && segments[1..] == [];
    assert PgCount(segments) == 1 + PgCount([]);
  }

  lemma {:induction false} CopyInMeans(segment: seq<Lexeme>)
    requires PgCopyIn(segment)
    ensures Meaningful(segment) != []
  {
  }

  // ---- A literal that continues an E'...' one, and a tag that is not ASCII ----

  /** `;`, a simple statement, `;--'`. */
  function Behind(ws: seq<Lexeme>): seq<Lexeme> {
    [Punct(SEMI)] + (Spaced(ws) + ([Punct(SEMI)] + [LineComment([QUOTE])]))
  }

  function HiddenText(ws: seq<Lexeme>): Text {
    [SEMI] + (Print(Spaced(ws)) + [SEMI, DASH, DASH])
  }

  lemma {:induction false} QuoteCommentPrinted()
    ensures Print([LineComment([QUOTE])]) == [DASH, DASH, QUOTE]
  {
    assert [LineComment([QUOTE])][1..] == [];
  }

  lemma {:induction false} BehindPrinted(ws: seq<Lexeme>)
    requires AllSimple(ws)
    ensures Print(Behind(ws)) == HiddenText(ws) + [QUOTE] && QUOTE !in HiddenText(ws)
  {
    hide Spaced, Print;
    var comment: seq<Lexeme> := [LineComment([QUOTE])];
    var end := [Punct(SEMI)] + comment;
    SpacedIsQuiet(ws);
    PrintAppend(Spaced(ws), end);
    QuoteCommentPrinted();
    PrintInFront(end);
    assert end[1..] == comment;
    PrintInFront(Behind(ws));
    assert Behind(ws)[1..] == Spaced(ws) + end;
    var dashes := [SEMI, DASH, DASH];
    assert [SEMI] + [DASH, DASH, QUOTE] == dashes + [QUOTE];
    Regroup(Print(Spaced(ws)), dashes, [QUOTE]);
    Regroup([SEMI], Print(Spaced(ws)) + dashes, [QUOTE]);
  }

  lemma {:induction false} BehindIsWellFormed(prev: Option<CodeUnit>, ctx: Context, ws: seq<Lexeme>)
    requires AllSimple(ws) && ws != []
    ensures PgWellFormed(prev, ctx, Behind(ws))
  {
    hide Spaced;
    var comment := LineComment([QUOTE]);
    var end := [Punct(SEMI)] + [comment];
    assert end[1..] == [comment] && [comment][1..] == [];
    forall p, c ensures PgWellFormed(p, c, end) {
      assert PgWellFormed(Some(SEMI), After(c, Punct(SEMI)), [comment]);
    }
    SpacedIsWellFormed(Some(SEMI), Fresh, ws, end);
    assert Behind(ws)[1..] == Spaced(ws) + end;
  }

  /** A statement without a copy-in, and a simple one that is a copy-in behind it. */
  lemma {:induction false} RefusedBehind(before: seq<Lexeme>, ws: seq<Lexeme>)
    requires AllSimple(ws) && PgCopyIn(Spaced(ws))
    requires Punct(SEMI) !in before && Meaningful(before) != []
    ensures PgVerdict(before + Behind(ws)) == RejectMulti
  {
    hide Spaced, Meaningful, CopiesFrom;
    var comment := [LineComment([QUOTE])];
    SpacedMeans(ws);
    CopyInMeans(Spaced(ws));
    OneStatementMore(before, Spaced(ws) + ([Punct(SEMI)] + comment));
    OneStatementMore(Spaced(ws), comment);
    OneSegment(comment);
    var segments := [before] + ([Spaced(ws)] + [comment]);
    assert Segments(before + Behind(ws)) == segments;
    assert PgCopyIn(segments[1]);
    assert segments[1..] == [Spaced(ws)] + [comment] && segments[1..][1..] == [comment] && [comment][1..] == [];
    assert PgCount(segments) == 2 + PgCount([comment]);
    CommentMeansNothing();
  }

  lemma {:induction false} CommentMeansNothing()
    ensures PgCount([[LineComment([QUOTE])]]) == 0
  {
    var comment: seq<Lexeme> := [LineComment([QUOTE])];
    assert comment[1..] == [];
    assert Meaningful(comment) == [];
    assert |[comment][1..]| == 0;
  }

  lemma {:induction false} NoQuoteToDouble(body: Text)
    requires QUOTE !in body
    ensures Doubled(QUOTE, body) == body
  {
    if body != [] { NoQuoteToDouble(body[1..]); }
  }

  /** SELECT E'', line feed, `'\''`: PostgreSQL's second literal is a quote, with the escapes of the first. */
  const CONTINUED: seq<Lexeme> := [Word(SELECT), GAP, Escaped(LARGE_E, []), Punct(LF), Continued([Escape(QUOTE)])]

  /** What the scanner makes of it: `'\''` leaves the second literal open. */
  function ContinuedToScanner(ws: seq<Lexeme>): seq<Lexeme> {
    [Word(SELECT), GAP, Escaped(LARGE_E, []), Punct(LF), Quoted(QUOTE, [BACKSLASH, QUOTE] + HiddenText(ws))]
  }

  /** `SELECT $e$'$e$` with an acute accent on the `e`s: PostgreSQL reads a literal that is a quote. */
  const ACCENTED: seq<Lexeme> := [Word(SELECT), GAP, Dollar([E_ACUTE], [QUOTE])]

  /** To the scanner it is no dollar quote, and the quote inside opens a literal. */
  function AccentedToScanner(ws: seq<Lexeme>): seq<Lexeme> {
    [Word(SELECT), GAP, Word([DOLLAR, E_ACUTE, DOLLAR]), Quoted(QUOTE, [DOLLAR, E_ACUTE, DOLLAR] + HiddenText(ws))]
  }

  lemma {:induction false} ContinuedFits(tail: seq<Lexeme>)
    requires PgWellFormed(Some(QUOTE), AfterEscape(false), tail) && Starts(Print(tail), SEMI)
    ensures PgWellFormed(None, Fresh, CONTINUED + tail)
  {
    hide PgWellFormed, Print;
    var c := CONTINUED;
    var last := [c[4]] + tail;
    LiteralGoesOn(tail);
    var first := [c[2]] + ([c[3]] + last);
    LiteralBegins(last);
    SelectFits(first);
    assert CONTINUED + tail == [Word(SELECT)] + ([GAP] + first);
  }

  lemma {:induction false} LiteralGoesOn(tail: seq<Lexeme>)
    requires PgWellFormed(Some(QUOTE), AfterEscape(false), tail) && Starts(Print(tail), SEMI)
    ensures PgWellFormed(Some(LF), AfterEscape(true), [CONTINUED[4]] + tail)
  {
    assert ([CONTINUED[4]] + tail)[1..] == tail;
  }

  lemma {:induction false} LiteralBegins(ls: seq<Lexeme>)
    requires PgWellFormed(Some(LF), AfterEscape(true), ls)
    ensures PgWellFormed(Some(SPACE), Fresh, [CONTINUED[2]] + ([CONTINUED[3]] + ls))
  {
    var lf := [CONTINUED[3]] + ls;
    assert lf[1..] == ls;
    assert PgWellFormed(Some(QUOTE), AfterEscape(false), lf);
    assert ([CONTINUED[2]] + lf)[1..] == lf;
  }

  lemma {:induction false} SelectFits(ls: seq<Lexeme>)
    requires PgWellFormed(Some(SPACE), Fresh, ls)
    ensures PgWellFormed(None, Fresh, [Word(SELECT)] + ([GAP] + ls))
  {
    var gap := [GAP] + ls;
    assert gap[1..] == ls && ([Word(SELECT)] + gap)[1..] == gap;
    GapFits(Last(SELECT), Fresh, ls);
    GlueWord(SELECT);
    SimpleFits(None, Fresh, Word(SELECT), gap);
  }

  lemma {:induction false} AccentedFits(tail: seq<Lexeme>)
    requires PgWellFormed(Some(DOLLAR), Fresh, tail)
    ensures PgWellFormed(None, Fresh, ACCENTED + tail)
  {
    var d := ACCENTED[2];
    AccentedBody();
    assert ([d] + tail)[1..] == tail;
    assert PgWellFormed(Some(SPACE), Fresh, [d] + tail);
    SelectFits([d] + tail);
    assert ACCENTED + tail == [Word(SELECT)] + ([GAP] + ([d] + tail));
  }

  lemma {:induction false} AccentedBody()
    ensures PgLexeme(ACCENTED[2]) && Last(PrintLexeme(ACCENTED[2])) == Some(DOLLAR)
  {
    var opener := OpenerOf([E_ACUTE]);
    var s := [QUOTE] + opener;
    assert s[1..] == opener;
    assert s[0] != opener[0];
    assert IndexOf(opener, opener) == Some(0);
    assert IndexOf(s, opener) == Some(1);
  }

  /** `''` as the end of a text that the scanner takes for one literal. */
  lemma {:induction false} QuotedToTheEnd(body: Text)
    ensures PrintLexeme(Quoted(QUOTE, body)) == Print([Quoted(QUOTE, body)])
    ensures forall prev :: WellFormed(prev, [Quoted(QUOTE, body)])
  {
    assert [Quoted(QUOTE, body)][1..] == [];
  }

  lemma {:induction false} SamePrint(front: seq<Lexeme>, a: seq<Lexeme>, b: seq<Lexeme>)
    requires Print(a) == Print(b)
    ensures Print(front + a) == Print(front + b)
  {
    PrintAppend(front, a);
    PrintAppend(front, b);
  }

  lemma {:induction false} DoubledBehindBackslash(h: Text)
    requires QUOTE !in h
    ensures Doubled(QUOTE, [BACKSLASH, QUOTE] + h) == [BACKSLASH, QUOTE, QUOTE] + h
  {
    NoQuoteToDouble(h);
    assert ([BACKSLASH, QUOTE] + h)[1..] == [QUOTE] + h && ([QUOTE] + h)[1..] == h;
  }

  lemma {:induction false} ContinuedTail(ws: seq<Lexeme>)
    requires AllSimple(ws)
    ensures Print([ContinuedToScanner(ws)[4]]) == Print([CONTINUED[4]] + Behind(ws))
  {
    hide Behind, HiddenText, Doubled, PrintUnits, Print;
    var h := HiddenText(ws);
    BehindPrinted(ws);
    DoubledBehindBackslash(h);
    QuotedToTheEnd([BACKSLASH, QUOTE] + h);
    var rest := [CONTINUED[4]] + Behind(ws);
    PrintInFront(rest);
    assert rest[1..] == Behind(ws);
    UnitsOfQuote();
    assert [QUOTE] + ([BACKSLASH, QUOTE, QUOTE] + h + [QUOTE])
        == [QUOTE] + ([BACKSLASH, QUOTE] + [QUOTE]) + (h + [QUOTE]);
  }

  lemma {:induction false} ContinuedPrinted(ws: seq<Lexeme>)
    requires AllSimple(ws)
    ensures Print(ContinuedToScanner(ws)) == Print(CONTINUED + Behind(ws))
  {
    hide Print, Behind, HiddenText;
    var front, c := CONTINUED[..4], ContinuedToScanner(ws);
    ContinuedTail(ws);
    SamePrint(front, [c[4]], [CONTINUED[4]] + Behind(ws));
    assert c == front + [c[4]];
    assert CONTINUED + Behind(ws) == front + ([CONTINUED[4]] + Behind(ws));
  }

  lemma {:induction false} UnitsOfQuote()
    ensures PrintUnits([Escape(QUOTE)]) == [BACKSLASH, QUOTE]
  {
    assert [Escape(QUOTE)][1..] == [];
  }

  lemma {:induction false} ContinuedIsWellFormed(ws: seq<Lexeme>)
    ensures WellFormed(None, ContinuedToScanner(ws))
  {
    hide Spaced, HiddenText;
    var c := ContinuedToScanner(ws);
    var literal := [c[4]];
    QuotedToTheEnd(c[4].body);
    assert PrintLexeme(c[4])[0] == QUOTE;
    var lf := [c[3]] + literal;
    assert lf[1..] == literal;
    assert WellFormed(Some(QUOTE), lf);
    var first := [c[2]] + lf;
    assert first[1..] == lf;
    assert WellFormed(Some(SPACE), first);
    SelectFitsScanner(first);
    assert c == [Word(SELECT)] + ([GAP] + first);
  }

  lemma {:induction false} SelectFitsScanner(ls: seq<Lexeme>)
    requires WellFormed(Some(SPACE), ls)
    ensures WellFormed(None, [Word(SELECT)] + ([GAP] + ls))
  {
    var gap := [GAP] + ls;
    assert gap[1..] == ls && ([Word(SELECT)] + gap)[1..] == gap;
    GlueWord(SELECT);
    assert Print(gap)[0] == SPACE;
  }

  lemma {:induction false} AccentedGroups(tag: Text, h: Text)
    ensures tag + ([QUOTE] + (tag + h + [QUOTE])) == tag + ([QUOTE] + tag) + (h + [QUOTE])
  {
    Regroup(tag, [QUOTE] + tag, h + [QUOTE]);
    Regroup([QUOTE], tag, h + [QUOTE]);
    Regroup(tag, h, [QUOTE]);
  }

  lemma {:induction false} AccentedTail(ws: seq<Lexeme>)
    requires AllSimple(ws)
    ensures Print(AccentedToScanner(ws)[2..]) == Print([ACCENTED[2]] + Behind(ws))
  {
    hide Behind, HiddenText, Doubled, Print;
    var h, tag := HiddenText(ws), [DOLLAR, E_ACUTE, DOLLAR];
    BehindPrinted(ws);
    NoQuoteToDouble(tag + h);
    QuotedToTheEnd(tag + h);
    var scanned := [Word(tag)] + [Quoted(QUOTE, tag + h)];
    PrintInFront(scanned);
    assert scanned[1..] == [Quoted(QUOTE, tag + h)] && AccentedToScanner(ws)[2..] == scanned;
    var rest := [ACCENTED[2]] + Behind(ws);
    PrintInFront(rest);
    assert rest[1..] == Behind(ws) && OpenerOf([E_ACUTE]) == tag;
    AccentedGroups(tag, h);
  }

  lemma {:induction false} AccentedPrinted(ws: seq<Lexeme>)
    requires AllSimple(ws)
    ensures Print(AccentedToScanner(ws)) == Print(ACCENTED + Behind(ws))
  {
    hide Print, Behind, HiddenText;
    var front, c := ACCENTED[..2], AccentedToScanner(ws);
    AccentedTail(ws);
    SamePrint(front, c[2..], [ACCENTED[2]] + Behind(ws));
    assert c == front + c[2..];
    assert ACCENTED + Behind(ws) == front + ([ACCENTED[2]] + Behind(ws));
  }

  lemma {:induction false} AccentedIsWellFormed(ws: seq<Lexeme>)
    ensures WellFormed(None, AccentedToScanner(ws))
  {
    hide Spaced, HiddenText;
    var c := AccentedToScanner(ws);
    var literal := [c[3]];
    QuotedToTheEnd(c[3].body);
    assert PrintLexeme(c[3])[0] == QUOTE;
    var first := [c[2]] + literal;
    assert first[1..] == literal;
    AccentIsNoTag();
    assert WellFormed(Some(SPACE), first);
    SelectFitsScanner(first);
    assert c == [Word(SELECT)] + ([GAP] + first);
  }

  lemma {:induction false} AccentIsNoTag()
    ensures Opener([DOLLAR, E_ACUTE, DOLLAR]) == None
  {
    var w := [DOLLAR, E_ACUTE, DOLLAR];
    assert w[1..] == [E_ACUTE, DOLLAR];
  }

  lemma {:induction false} SelectIsNoCopyIn(ls: seq<Lexeme>)
    requires WellFormed(None, ls) && Punct(SEMI) !in ls && ls != [] && ls[0] == Word(SELECT)
    ensures Sniff(Print(ls)) == NotCopyIn
  {
    hide Sniff, WellFormed, Tokenize;
    SniffsTheLexemes(ls);
    OneSegment(ls);
    IdentifierIsOneToken(SELECT);
    assert Tokens(ls)[0] == Lower(SELECT);
    assert Lower(SELECT)[0] == SELECT[0] != COPY[0];
  }

  lemma {:induction false} SelectMeans(ls: seq<Lexeme>)
    ensures Meaningful([Word(SELECT)] + ls) != []
  {
  }

  /** In a literal that continues an E'...' one, a quote behind a backslash hides the statement behind the literal. */
  lemma {:induction false} ContinuationHides(ws: seq<Lexeme>)
    requires AllSimple(ws) && PgCopyIn(Spaced(ws))
    ensures var text := CONTINUED + Behind(ws);
      PgWellFormed(None, Fresh, text) && PgVerdict(text) == RejectMulti && Sniff(Print(text)) == NotCopyIn
  {
    hide Sniff, PgVerdict, WellFormed, Print, Spaced, PgCopyIn;
    SimpleCopyIn(ws);
    BehindIsWellFormed(Some(QUOTE), AfterEscape(false), ws);
    BehindPrinted(ws);
    ContinuedFits(Behind(ws));
    SelectMeans(CONTINUED[1..]);
    assert CONTINUED == [Word(SELECT)] + CONTINUED[1..];
    RefusedBehind(CONTINUED, ws);
    ContinuedPrinted(ws);
    ContinuedIsWellFormed(ws);
    SelectIsNoCopyIn(ContinuedToScanner(ws));
  }

  lemma {:induction false} SimpleCopyIn(ws: seq<Lexeme>)
    requires AllSimple(ws) && PgCopyIn(Spaced(ws))
    ensures ws != []
  {
    SpacedMeans(ws);
  }

  /** A dollar quote with a tag that is not ASCII can hide the statement behind it as well. */
  lemma {:induction false} AccentedTagHides(ws: seq<Lexeme>)
    requires AllSimple(ws) && PgCopyIn(Spaced(ws))
    ensures var text := ACCENTED + Behind(ws);
      PgWellFormed(None, Fresh, text) && PgVerdict(text) == RejectMulti && Sniff(Print(text)) == NotCopyIn
  {
    hide Sniff, PgVerdict, WellFormed, Print, Spaced, PgCopyIn;
    SimpleCopyIn(ws);
    BehindIsWellFormed(Some(DOLLAR), Fresh, ws);
    AccentedFits(Behind(ws));
    SelectMeans(ACCENTED[1..]);
    assert ACCENTED == [Word(SELECT)] + ACCENTED[1..];
    RefusedBehind(ACCENTED, ws);
    AccentedPrinted(ws);
    AccentedIsWellFormed(ws);
    SelectIsNoCopyIn(AccentedToScanner(ws));
  }

  // ---- Texts that are read right and judged wrong ----

  /** COPY t FROM STDOUT copies from the client as well, and is forwarded. */
  lemma {:induction false} FromStdoutIsForwarded()
    ensures var text := Spaced(CopyFrom("stdout"));
      && PgWellFormed(None, Fresh, text) && ReadRight(text)
      && PgVerdict(text) == Capture && Sniff(Print(text)) == NotCopyIn
  {
    hide Sniff, Spaced, PgVerdict, PgWellFormed, ReadRight, Meaningful, Tokens, IsCopyIn;
    var ws := CopyFrom("stdout");
    var text := Spaced(ws);
    CopyFromCopies("stdout");
    SpacedIsWellFormed(None, Fresh, ws, []);
    assert text + [] == text;
    SpacedIsReadRight(ws);
    OneCopyIn(ws);
    SniffsSql(text);
    SpacedMeans(ws);
    OneSegment(text);
    TriviaHaveNoTokens(text);
    StdoutIsNotSeen();
  }

  lemma {:induction false} StdoutIsNotSeen()
    ensures !IsCopyIn(Tokens(CopyFrom("stdout")))
  {
    hide Tokenize, Tokens;
    var ws := CopyFrom("stdout");
    CopyFromCopies("stdout");
    SimpleIsPlain(ws);
    TokensAreNames(ws);
    NamesOfNames(ws);
    AsciiName("t");
    AsciiName("stdout");
    assert Ascii("t")[0] != FROM[0] && |Ascii("stdout")| != |STDIN|;
  }

  lemma {:induction false} SimpleIsPlain(ws: seq<Lexeme>)
    requires AllSimple(ws)
    ensures PlainWords(ws)
  {
    assert forall i :: 0 <= i < |ws| ==> Simple(ws[i]);
  }

  lemma {:induction false} NamesOfNames(ws: seq<Lexeme>)
    requires forall i :: 0 <= i < |ws| ==> IsName(ws[i])
    ensures |Names(ws)| == |ws| && forall i :: 0 <= i < |ws| && IsName(ws[i]) ==> Names(ws)[i] == Lower(ws[i].w)
  {
    hide IsIdentifier;
    if ws != [] {
      NamesOfNames(ws[1..]);
      assert IsName(ws[0]);
      assert forall i :: 0 < i < |ws| ==> Names(ws)[i] == Names(ws[1..])[i - 1] && ws[i] == ws[1..][i - 1];
    }
  }

  /** A statement that is a no-break space is one to PostgreSQL; `trim` takes it for nothing. */
  lemma {:induction false} BlankWordIsMissed(ws: seq<Lexeme>)
    requires AllSimple(ws) && CopiesFrom(Spaced(ws), "stdin")
    ensures var text := [Word([NO_BREAK_SPACE])] + ([Punct(SEMI)] + Spaced(ws));
      && PgWellFormed(None, Fresh, text) && ReadRight(text)
      && PgVerdict(text) == RejectMulti && Sniff(Print(text)) == Capture
  {
    hide Sniff, Spaced, Tokenize, CopiesFrom, PgWellFormed, ReadRight, Meaningful, Tokens, NonEmptyStatement, IsCopyIn;
    var blank: seq<Lexeme> := [Word([NO_BREAK_SPACE])];
    var text := blank + ([Punct(SEMI)] + Spaced(ws));
    SimpleCopyIn(ws);
    BlankIsWellFormed(ws);
    SniffsSql(text);
    SpacedMeans(ws);
    OneStatementMore(blank, Spaced(ws));
    OneSegment(Spaced(ws));
    BlankCounts();
    CopyInMeans(Spaced(ws));
    CopyFromStdinIsSeen(Spaced(ws));
    TriviaHaveNoTokens(Spaced(ws));
    var segments := [blank] + [Spaced(ws)];
    assert Segments(text) == segments;
    assert PgCopyIn(segments[1]) && IsCopyIn(Tokens(segments[1]));
    var tail := [Spaced(ws)];
    assert segments[1..] == tail && |tail[1..]| == 0;
    assert PgCount(tail) == 1 && PgCount(segments) == 2;
    NoCopyInWithoutTokens(Spaced(ws));
    assert CountNonEmpty(tail) == 1 && CountNonEmpty(segments) == 1;
  }

  lemma {:induction false} NoCopyInWithoutTokens(segment: seq<Lexeme>)
    requires IsCopyIn(Tokens(segment))
    ensures NonEmptyStatement(segment)
  {
    hide Tokens;
    TokensNeedSubstance(segment);
  }

  lemma {:induction false} BlankCounts()
    ensures var blank: seq<Lexeme> := [Word([NO_BREAK_SPACE])]; Meaningful(blank) != [] && !NonEmptyStatement(blank)
  {
  }

  lemma {:induction false} BlankIsWellFormed(ws: seq<Lexeme>)
    requires AllSimple(ws) && ws != []
    ensures var text := [Word([NO_BREAK_SPACE])] + ([Punct(SEMI)] + Spaced(ws));
      PgWellFormed(None, Fresh, text) && ReadRight(text)
  {
    hide Spaced;
    var w := [NO_BREAK_SPACE];
    var ls := Spaced(ws);
    var rest := [Punct(SEMI)] + ls;
    SpacedIsReadRight(ws);
    SpacedIsWellFormed(Some(SEMI), Fresh, ws, []);
    assert ls + [] == ls && rest[1..] == ls && ([Word(w)] + rest)[1..] == rest;
    assert Print(rest)[0] == SEMI;
    forall tag: Text | PgTag(tag) ensures !(OpenerOf(tag) <= w) {
      assert OpenerOf(tag)[0] == DOLLAR;
    }
  }

  /** COPY ( SELECT * FROM stdin ) TO STDOUT. */
  const NESTED: seq<Lexeme> := [
    Word(Ascii("copy")), Punct(OPEN), Word(SELECT), Punct(STAR), Word(Ascii("from")), Word(Ascii("stdin")),
    Punct(CLOSE), Word(Ascii("to")), Word(Ascii("stdout"))]

  /** FROM STDIN below the top level is captured as well. */
  lemma {:induction false} NestedIsCaptured()
    ensures var text := Spaced(NESTED);
      && PgWellFormed(None, Fresh, text) && ReadRight(text)
      && PgVerdict(text) == NotCopyIn && Sniff(Print(text)) == Capture
  {
    hide Sniff, Spaced, Tokenize, PgWellFormed, ReadRight, Meaningful, Tokens, NonEmptyStatement, IsCopyIn, PgCopyIn;
    var text := Spaced(NESTED);
    NestedIsSimple();
    SpacedIsWellFormed(None, Fresh, NESTED, []);
    assert text + [] == text;
    SpacedIsReadRight(NESTED);
    SniffsSql(text);
    SpacedMeans(NESTED);
    OneSegment(text);
    TriviaHaveNoTokens(text);
    PairIsSeen(NESTED, 4);
    NoCopyInWithoutTokens(text);
    var segments := [text];
    assert IsCopyIn(Tokens(segments[0])) && |segments[1..]| == 0;
    assert CountNonEmpty(segments) == 1;
    NestedIsNoCopyIn();
  }

  lemma {:induction false} NestedIsSimple()
    ensures AllSimple(NESTED)
    ensures Keyword(NESTED[0], "copy") && Keyword(NESTED[4], "from") && Keyword(NESTED[5], "stdin")
  {
    hide Ascii, Keyword, IsIdentifier;
    AsciiName("copy");
    AsciiName("select");
    AsciiName("from");
    AsciiName("stdin");
    AsciiName("to");
    AsciiName("stdout");
  }

  lemma {:induction false} DepthSnoc(ms: seq<Lexeme>, l: Lexeme)
    ensures Depth(ms + [l]) == Depth(ms) + if l == Punct(OPEN) then 1 else if l == Punct(CLOSE) then -1 else 0
  {
    assert (ms + [l])[..|ms|] == ms;
  }

  lemma {:induction false} NestedIsNoCopyIn()
    ensures !PgCopyIn(Spaced(NESTED))
  {
    hide Spaced, Meaningful;
    var ms := NESTED;
    NestedIsSimple();
    SpacedMeans(ms);
    DepthSnoc(ms[..0], ms[0]);
    DepthSnoc(ms[..1], ms[1]);
    DepthSnoc(ms[..2], ms[2]);
    DepthSnoc(ms[..3], ms[3]);
    assert ms[..1] == ms[..0] + [ms[0]] && ms[..2] == ms[..1] + [ms[1]];
    assert ms[..3] == ms[..2] + [ms[2]] && ms[..4] == ms[..3] + [ms[3]];
    assert Depth(ms[..4]) == 1;
    forall k | 0 <= k < |ms| && Keyword(ms[k], "from") ensures k == 4 {
      assert Lower(ms[k].w)[0] == Ascii("from")[0];
    }
    assert |Ascii("stdin")| != |Ascii("stdout")|;
  }
}
