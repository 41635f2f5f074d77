/**
 * SQL texts as PostgreSQL divides them (section 4.1, Lexical Structure, of its documentation), the verdict the copy-in
 * scanner (src/duplex/copy-in.ts) is documented to give, and which texts it gives it on. The glue rules leave out
 * texts whose division does not matter, because no statement of PostgreSQL's grammar has them: a literal glued to a
 * number or to the end of a dollar quote. An unterminated literal or comment is an error, so no lexeme stands for it.
 */
module CopyInSql {
  import opened Wrappers
  import opened Text
  import opened CopyIn
  import opened CopyInLexemes
  import opened CopyInVerdicts

  const CR: CodeUnit := 0x0d
  const OPEN: CodeUnit := 0x28
  const CLOSE: CodeUnit := 0x29

  predicate IsNewline(c: CodeUnit) {
    c == 0x0a || c == 0x0d
  }

  predicate IsLetter(c: CodeUnit) {
    'A' as int <= c as int <= 'Z' as int || 'a' as int <= c as int <= 'z' as int
  }

  predicate IsDigit(c: CodeUnit) {
    '0' as int <= c as int <= '9' as int
  }

  /** What can continue an identifier: letters, digits, `_`, `$` and everything beyond ASCII. */
  predicate ContinuesName(c: CodeUnit) {
    IsLetter(c) || IsDigit(c) || c == 0x5f || c == 0x24 || c >= 0x80
  }

  lemma {:induction false} ContinuesNameIff(c: CodeUnit)
    ensures ContinuesName(c) <==> IsGlue(c)
    ensures IsLetter(c) || c == 0x5f <==> IsWordStart(c)
    ensures IsTagUnit(c) <==> IsAsciiWord(c) || c >= 0x80
  {
  }

  /** Whether the last lexeme that is neither white space nor a line comment is an E'...' literal. */
  datatype Context = Fresh | AfterEscape(newline: bool)

  function After(ctx: Context, l: Lexeme): Context {
    match l
    case Escaped(_, _) => AfterEscape(false)
    case Continued(_) => AfterEscape(false)
    case LineComment(_) => ctx
    case Punct(c) =>
      if IsJsSpace(c) && ctx.AfterEscape? then AfterEscape(ctx.newline || IsNewline(c)) else Fresh
    case _ => Fresh
  }

  predicate IsTagStart(c: CodeUnit) {
    IsLetter(c) || c == 0x5f || c >= 0x80
  }

  predicate IsTagUnit(c: CodeUnit) {
    IsTagStart(c) || IsDigit(c)
  }

  predicate PgTag(tag: Text) {
    tag != [] ==> IsTagStart(tag[0]) && forall i :: 0 <= i < |tag| ==> IsTagUnit(tag[i])
  }

  /** A word that starts like a dollar quote. */
  ghost predicate OpensDollarQuote(w: Text) {
    exists tag: Text :: PgTag(tag) && OpenerOf(tag) <= w
  }

  predicate PgLexeme(l: Lexeme) {
    match l
    case Quoted(q, _) => q in {0x27, 0x22}
    case Escaped(e, units) => e in {0x45, 0x65} && forall i :: 0 <= i < |units| ==> ValidUnit(units[i])
    case Continued(units) => forall i :: 0 <= i < |units| ==> ValidUnit(units[i])
    case Dollar(tag, body) => PgTag(tag) && IndexOf(body + OpenerOf(tag), OpenerOf(tag)) == Some(|body|)
    case LineComment(body) => forall i :: 0 <= i < |body| ==> !IsNewline(body[i])
    case BlockComment(comment) => ValidComment(comment)
    case Word(w) => w != [] && forall i :: 0 <= i < |w| ==> ContinuesName(w[i])
    case Punct(c) => !ContinuesName(c) && c !in {0x27, 0x22}
  }

  /** The unit before could be part of the same identifier. */
  predicate Continues(prev: Option<CodeUnit>) {
    prev.Some? && ContinuesName(prev.value)
  }

  /** `l` may stand after the unit `prev` in context `ctx`, and before `rest`. */
  ghost predicate PgFits(prev: Option<CodeUnit>, ctx: Context, l: Lexeme, rest: Text) {
    match l
    case Quoted(q, _) => !Starts(rest, q) && (q == 0x27 ==> ctx != AfterEscape(true))
    case Escaped(_, _) => !Continues(prev) && !Starts(rest, 0x27)
    case Continued(_) => ctx == AfterEscape(true) && !Starts(rest, 0x27)
    case Dollar(_, _) => !Continues(prev)
    case LineComment(_) => rest == [] || IsNewline(rest[0])
    case BlockComment(_) => true
    case Word(w) =>
      && (rest == [] || !ContinuesName(rest[0]))
      && (Continues(prev) || (!OpensDollarQuote(w) && !(|w| == 1 && w[0] in {0x45, 0x65} && Starts(rest, 0x27))))
    case Punct(c) => !(c == 0x2d && Starts(rest, 0x2d)) && !(c == 0x2f && Starts(rest, 0x2a))
  }

  ghost predicate PgWellFormed(prev: Option<CodeUnit>, ctx: Context, ls: seq<Lexeme>)
    decreases ls
  {
    ls != [] ==>
      && PgLexeme(ls[0])
      && PgFits(prev, ctx, ls[0], Print(ls[1..]))
      && PgWellFormed(Last(PrintLexeme(ls[0])), After(ctx, ls[0]), ls[1..])
  }

  // ---- What PostgreSQL makes of a text ----

  predicate IsTrivia(l: Lexeme) {
    l.LineComment? || l.BlockComment? || (l.Punct? && IsJsSpace(l.c))
  }

  function Meaningful(segment: seq<Lexeme>): seq<Lexeme> {
    if segment == [] then []
    else (if IsTrivia(segment[0]) then [] else [segment[0]]) + Meaningful(segment[1..])
  }

  /** A word is `keyword`, in any casing. */
  predicate Keyword(l: Lexeme, keyword: string) {
    l.Word? && Lower(l.w) == Ascii(keyword)
  }

  /** How many parentheses are open. */
  function Depth(ms: seq<Lexeme>): int {
    if ms == [] then 0 else
    var last := ms[|ms| - 1];
    Depth(ms[..|ms| - 1]) + if last == Punct(OPEN) then 1 else if last == Punct(CLOSE) then -1 else 0
  }

  predicate CopiesAt(ms: seq<Lexeme>, k: nat, target: string) {
    1 <= k < |ms| - 1 && Keyword(ms[k], "from") && Keyword(ms[k + 1], target) && Depth(ms[..k]) == 0
  }

  /** COPY first, and at top level FROM with `target` right behind it. */
  predicate CopiesFrom(segment: seq<Lexeme>, target: string) {
    var ms := Meaningful(segment);
    ms != [] && Keyword(ms[0], "copy") && exists k :: 1 <= k < |ms| && CopiesAt(ms, k, target)
  }

  /** PostgreSQL's grammar takes FROM STDOUT for FROM STDIN. */
  predicate PgCopyIn(segment: seq<Lexeme>) {
    CopiesFrom(segment, "stdin") || CopiesFrom(segment, "stdout")
  }

  predicate AnyPgCopyIn(segments: seq<seq<Lexeme>>) {
    exists k :: 0 <= k < |segments| && PgCopyIn(segments[k])
  }

  function PgCount(segments: seq<seq<Lexeme>>): nat {
    if segments == [] then 0 else (if Meaningful(segments[0]) != [] then 1 else 0) + PgCount(segments[1..])
  }

  /** The documented verdict: a copy-in alone is captured, one among other statements refused. */
  function PgVerdict(ls: seq<Lexeme>): CopyInVerdict {
    var segments := Segments(ls);
    if !AnyPgCopyIn(segments) then NotCopyIn
    else if PgCount(segments) == 1 then Capture
    else RejectMulti
  }

  // ---- What the scanner reads right ----

  /** After white space on the same line, if any, comes a line feed or nothing. */
  predicate EndsItsLine(ls: seq<Lexeme>) {
    ls == [] || ls[0] == Punct(LF) || (ls[0].Punct? && IsJsSpace(ls[0].c) && EndsItsLine(ls[1..]))
  }

  predicate ReadRight(ls: seq<Lexeme>) {
    ls != [] ==>
      && (ls[0].LineComment? ==> EndsItsLine(ls[1..]))
      && (ls[0].Continued? ==> Escape(QUOTE) !in ls[0].units)
      && (ls[0].Dollar? ==> ValidTag(ls[0].tag))
      && ReadRight(ls[1..])
  }

  /** A line comment is read right exactly if it does not end at a carriage return. */
  lemma {:induction false} CommentReadRightIff(prev: Option<CodeUnit>, body: Text, rest: Text)
    requires PgLexeme(LineComment(body)) && (rest == [] || IsNewline(rest[0]))
    ensures Head(prev, PrintLexeme(LineComment(body)) + rest) == (|PrintLexeme(LineComment(body))|, [SPACE])
            <==> rest == [] || rest[0] == LF
  {
    var s := PrintLexeme(LineComment(body)) + rest;
    assert s[1..] == [DASH] + (body + rest) && s[2..] == body + rest;
    LineGoesOn(body, rest);
  }

  lemma {:induction false} LineGoesOn(body: Text, rest: Text)
    requires LF !in body
    ensures LineLen(body + rest) == |body| + LineLen(rest)
  {
    if body == [] {
      assert body + rest == rest;
    } else {
      assert (body + rest)[1..] == body[1..] + rest;
      LineGoesOn(body[1..], rest);
    }
  }

  /** A dollar quote is read as one exactly if its tag is ASCII. */
  lemma {:induction false} DollarReadRightIff(tag: Text, rest: Text)
    requires PgTag(tag)
    ensures Opener(OpenerOf(tag) + rest) == Some(OpenerOf(tag)) <==> ValidTag(tag)
  {
    if ValidTag(tag) {
      OpenerPrinted(tag, rest);
    }
    var s := OpenerOf(tag) + rest;
    assert s[1..] == tag + [DOLLAR] + rest;
    if Opener(s) == Some(OpenerOf(tag)) {
      assert WordLen(s[1..]) == |tag|;
      assert forall i :: 0 <= i < |tag| ==> tag[i] == s[1..][i];
    }
  }

  /** A continued literal with text behind it is read right exactly if it has no quote behind a backslash. */
  lemma {:induction false} ContinuationReadRightIff(units: seq<EscapeUnit>, rest: Text)
    requires PgLexeme(Continued(units)) && rest != [] && !Starts(rest, QUOTE)
    ensures 1 + QuotedLen(PrintUnits(units) + [QUOTE] + rest, QUOTE, false) == |PrintLexeme(Continued(units))|
            <==> Escape(QUOTE) !in units
  {
    hide QuotedLen, PrintUnits;
    if units == [] {
      UnitsEnd(rest);
      QuotedStep([QUOTE], rest);
    } else {
      var tail := PrintUnits(units[1..]) + [QUOTE] + rest;
      assert ValidUnit(units[0]);
      ContinuationReadRightIff(units[1..], rest);
      UnitsGoOn(units, rest);
      match units[0]
      case Plain(c) => QuotedStep([c], tail);
      case TwoQuotes => QuotedStep([QUOTE, QUOTE], tail);
      case Escape(c) =>
        QuotedStep([BACKSLASH], [c] + tail);
        if c == QUOTE {
          OddQuotes(units[1..], rest);
        } else {
          QuotedStep([c], tail);
        }
    }
  }

  lemma {:induction false} UnitsEnd(rest: Text)
    ensures PrintUnits([]) == [] && PrintUnits([]) + [QUOTE] + rest == [QUOTE] + rest
  {
  }

  lemma {:induction false} UnitsGoOn(units: seq<EscapeUnit>, rest: Text)
    requires units != []
    ensures var s, tail := PrintUnits(units) + [QUOTE] + rest, PrintUnits(units[1..]) + [QUOTE] + rest;
      match units[0]
      case Plain(c) => s == [c] + tail && |PrintUnits(units)| == 1 + |PrintUnits(units[1..])|
      case TwoQuotes => s == [QUOTE, QUOTE] + tail && |PrintUnits(units)| == 2 + |PrintUnits(units[1..])|
      case Escape(c) => s == [BACKSLASH] + ([c] + tail) && |PrintUnits(units)| == 2 + |PrintUnits(units[1..])|
  {
    var u := PrintUnits(units[1..]);
    match units[0]
    case Plain(c) => assert PrintUnits(units) == [c] + u;
    case TwoQuotes => assert PrintUnits(units) == [QUOTE, QUOTE] + u;
    case Escape(c) => assert PrintUnits(units) == [BACKSLASH, c] + u;
  }

  lemma {:induction false} QuotedStep(t: Text, s: Text)
    ensures |t| == 1 && t[0] != QUOTE ==> QuotedLen(t + s, QUOTE, false) == 1 + QuotedLen(s, QUOTE, false)
    ensures t == [QUOTE] && !Starts(s, QUOTE) ==> QuotedLen(t + s, QUOTE, false) == 1
    ensures t == [QUOTE, QUOTE] ==> QuotedLen(t + s, QUOTE, false) == 2 + QuotedLen(s, QUOTE, false)
  {
    if t != [] {
      assert (t + s)[|t|..] == s;
      assert |t| == 2 ==> (t + s)[1..] == [t[1]] + s;
    }
  }

  /** A quote too many closes the literal early or not at all. */
  lemma {:induction false} OddQuotes(units: seq<EscapeUnit>, rest: Text)
    requires PgLexeme(Continued(units)) && rest != [] && !Starts(rest, QUOTE)
    ensures QuotedLen([QUOTE] + (PrintUnits(units) + [QUOTE] + rest), QUOTE, false) != |PrintUnits(units)| + 2
  {
    hide QuotedLen, PrintUnits;
    var s := PrintUnits(units) + [QUOTE] + rest;
    if units == [] {
      UnitsEnd(rest);
      QuotedStep([QUOTE, QUOTE], rest);
      QuotedIsLonger(rest);
      assert [QUOTE] + s == [QUOTE, QUOTE] + rest;
    } else {
      UnitsGoOn(units, rest);
      assert ValidUnit(units[0]);
      if units[0].TwoQuotes? {
        var tail := PrintUnits(units[1..]) + [QUOTE] + rest;
        OddQuotes(units[1..], rest);
        QuotedStep([QUOTE, QUOTE], [QUOTE] + tail);
        assert [QUOTE] + s == [QUOTE, QUOTE] + ([QUOTE] + tail);
      } else {
        QuotedStep([QUOTE], s);
      }
    }
  }

  lemma {:induction false} QuotedIsLonger(s: Text)
    ensures s != [] ==> QuotedLen(s, QUOTE, false) > 0
  {
  }

  // ---- From PostgreSQL's lexemes to the scanner's ----

  /** The white space up to the end of the line, which the scanner takes into a line comment. */
  function Blanks(ls: seq<Lexeme>): (t: Text)
    ensures |t| <= |ls|
  {
    if ls != [] && ls[0].Punct? && IsJsSpace(ls[0].c) && ls[0].c != LF then [ls[0].c] + Blanks(ls[1..]) else []
  }

  /** What a continued literal contains to the scanner, which gives a backslash no meaning there. */
  function Unescaped(units: seq<EscapeUnit>): Text {
    if units == [] then [] else
    (match units[0]
     case Plain(c) => [c]
     case TwoQuotes => [QUOTE]
     case Escape(c) => [BACKSLASH, c])
    + Unescaped(units[1..])
  }

  function Tidy(ls: seq<Lexeme>): seq<Lexeme> {
    if ls == [] then [] else
    match ls[0]
    case LineComment(body) =>
      [LineComment(body + Blanks(ls[1..]))] + Tidy(ls[1..][|Blanks(ls[1..])|..])
    case Continued(units) => [Quoted(QUOTE, Unescaped(units))] + Tidy(ls[1..])
    case l => [l] + Tidy(ls[1..])
  }

  lemma {:induction false} UnescapedPrinted(units: seq<EscapeUnit>)
    requires Escape(QUOTE) !in units && forall i :: 0 <= i < |units| ==> ValidUnit(units[i])
    ensures Doubled(QUOTE, Unescaped(units)) == PrintUnits(units)
  {
    if units != [] {
      UnescapedPrinted(units[1..]);
      assert ValidUnit(units[0]);
      var u := Unescaped(units[1..]);
      match units[0]
      case Plain(c) => assert ([c] + u)[1..] == u;
      case TwoQuotes => assert ([QUOTE] + u)[1..] == u;
      case Escape(c) =>
        assert c != QUOTE;
        assert ([BACKSLASH, c] + u)[1..] == [c] + u && ([c] + u)[1..] == u;
    }
  }

  lemma {:induction false} ScannerOpenerOpens(w: Text)
    requires Opener(w).Some?
    ensures OpensDollarQuote(w)
  {
    var n := WordLen(w[1..]);
    var tag := w[1..n + 1];
    assert w[1..][..n] == tag;
    assert forall i :: 0 <= i < n ==> tag[i] == w[1..][i];
    assert w[1 + n..][0] == w[n + 1];
    assert PgTag(tag);
    assert OpenerOf(tag) == w[..n + 2];
  }

  lemma {:induction false} SliceOfTail<U>(s: seq<U>, i: nat, j: nat)
    requires i <= j < |s|
    ensures s[1..][i..j] == s[i + 1..j + 1]
  {
    var a, b := s[1..][i..j], s[i + 1..j + 1];
    assert |a| == |b| && forall k :: 0 <= k < |a| ==> a[k] == b[k];
  }

  lemma {:induction false} RestOfTail<U>(s: seq<U>, i: nat)
    requires i < |s|
    ensures s[1..][i..] == s[i + 1..]
  {
    var a, b := s[1..][i..], s[i + 1..];
    assert |a| == |b| && forall k :: 0 <= k < |a| ==> a[k] == b[k];
  }

  lemma {:induction false} BlanksPrinted(ls: seq<Lexeme>)
    ensures Print(ls) == Blanks(ls) + Print(ls[|Blanks(ls)|..])
  {
    hide IsJsSpace, Print;
    if ls != [] && Blanks(ls) != [] {
      var k := |Blanks(ls[1..])|;
      BlanksPrinted(ls[1..]);
      RestOfTail(ls, k);
      PrintInFront(ls);
      Regroup([ls[0].c], Blanks(ls[1..]), Print(ls[k + 1..]));
    } else {
      assert ls[0..] == ls;
      NothingInFront(Print(ls));
    }
  }

  lemma {:induction false} NothingInFront(t: Text)
    ensures [] + t == t
  {
  }

  function LastOr(prev: Option<CodeUnit>, t: Text): Option<CodeUnit> {
    if t == [] then prev else Last(t)
  }

  /** Running over white space. */
  lemma {:induction false} SkipBlanks(prev: Option<CodeUnit>, ctx: Context, ls: seq<Lexeme>) returns (ctx': Context)
    requires PgWellFormed(prev, ctx, ls)
    ensures PgWellFormed(LastOr(prev, Blanks(ls)), ctx', ls[|Blanks(ls)|..])
    decreases ls
  {
    hide PgFits, PgLexeme, IsJsSpace, Print, After;
    ctx' := ctx;
    if Blanks(ls) != [] {
      ctx' := SkipBlanks(Some(ls[0].c), After(ctx, ls[0]), ls[1..]);
      assert ls[1..][|Blanks(ls[1..])|..] == ls[|Blanks(ls)|..];
      assert LastOr(Some(ls[0].c), Blanks(ls[1..])) == LastOr(prev, Blanks(ls));
    } else {
      assert ls[0..] == ls;
    }
  }

  lemma {:induction false} BlanksReachTheEnd(ls: seq<Lexeme>)
    requires EndsItsLine(ls)
    ensures var rest := ls[|Blanks(ls)|..]; rest == [] || rest[0] == Punct(LF)
    ensures LF !in Blanks(ls)
    ensures ReadRight(ls) ==> ReadRight(ls[|Blanks(ls)|..])
  {
    hide IsJsSpace;
    if Blanks(ls) != [] {
      BlanksReachTheEnd(ls[1..]);
      assert ls[1..][|Blanks(ls)| - 1..] == ls[|Blanks(ls)|..];
    } else {
      assert ls[0..] == ls;
    }
  }

  /** Line comments apart, a lexeme that is read right suits the scanner, perhaps as another lexeme. */
  function Read(l: Lexeme): Lexeme {
    if l.Continued? then Quoted(QUOTE, Unescaped(l.units)) else l
  }

  lemma {:induction false} ReadSuitsScanner(prev: Option<CodeUnit>, ctx: Context, l: Lexeme, rest: Text)
    requires PgLexeme(l) && PgFits(prev, ctx, l, rest) && ReadRight([l]) && !l.LineComment?
    ensures ValidLexeme(Read(l)) && Fits(prev, Read(l), rest) && PrintLexeme(Read(l)) == PrintLexeme(l)
  {
    hide IsGlue, ContinuesName, IndexOf, ValidComment, Doubled, ValidTag, IsJsSpace;
    forall c { ContinuesNameIff(c); }
    match l
    case Continued(units) => UnescapedPrinted(units);
    case Word(w) => if Opener(w).Some? { ScannerOpenerOpens(w); }
    case _ =>
  }

  /** The scanner divides a text it reads right into the tidied lexemes. */
  lemma {:induction false} TidyPrints(prev: Option<CodeUnit>, ctx: Context, ls: seq<Lexeme>)
    requires PgWellFormed(prev, ctx, ls) && ReadRight(ls)
    ensures WellFormed(prev, Tidy(ls)) && Print(Tidy(ls)) == Print(ls)
    decreases |ls|, 1
  {
    hide PgFits, Fits, PgLexeme, ValidLexeme, PrintLexeme;
    if ls != [] {
      var l, tail := ls[0], ls[1..];
      if l.LineComment? {
        TidyComment(prev, ctx, ls);
      } else {
        TidyPrints(Last(PrintLexeme(l)), After(ctx, l), tail);
        ReadSuitsScanner(prev, ctx, l, Print(tail));
        assert Tidy(ls) == [Read(l)] + Tidy(tail);
        assert Tidy(ls)[1..] == Tidy(tail);
      }
    }
  }

  lemma {:induction false} TidyComment(prev: Option<CodeUnit>, ctx: Context, ls: seq<Lexeme>)
    requires PgWellFormed(prev, ctx, ls) && ReadRight(ls) && ls != [] && ls[0].LineComment?
    ensures WellFormed(prev, Tidy(ls)) && Print(Tidy(ls)) == Print(ls)
    decreases |ls|, 0
  {
    hide PgFits, PgLexeme, IsJsSpace, Tidy, Print, WellFormed, PrintLexeme, ReadRight, Blanks;
    var tail := ls[1..];
    var blanks := Blanks(tail);
    var rest := tail[|blanks|..];
    var comment := LineComment(ls[0].body + blanks);
    CommentPrints(ls[0].body, blanks);
    StartsWell(prev, ctx, ls);
    var ctx' := SkipBlanks(Last(PrintLexeme(ls[0])), After(ctx, ls[0]), tail);
    BlanksReachTheEnd(tail);
    BlanksPrinted(tail);
    TidyPrints(Last(PrintLexeme(comment)), ctx', rest);
    TidyOfComment(ls);
    PrintedStart(rest);
    CommentInFront(prev, comment, Tidy(rest));
    PrintInFront(ls);
    PrintInFront([comment] + Tidy(rest));
    assert PrintLexeme(ls[0]) + (blanks + Print(rest)) == PrintLexeme(comment) + Print(rest);
  }

  lemma {:induction false} StartsWell(prev: Option<CodeUnit>, ctx: Context, ls: seq<Lexeme>)
    requires PgWellFormed(prev, ctx, ls) && ReadRight(ls) && ls != [] && ls[0].LineComment?
    ensures LF !in ls[0].body && EndsItsLine(ls[1..]) && ReadRight(ls[1..])
    ensures PgWellFormed(Last(PrintLexeme(ls[0])), After(ctx, ls[0]), ls[1..])
  {
    hide PgFits, PrintLexeme, Print;
  }

  lemma {:induction false} CommentPrints(body: Text, blanks: Text)
    ensures PrintLexeme(LineComment(body + blanks)) == PrintLexeme(LineComment(body)) + blanks
    ensures Last(PrintLexeme(LineComment(body + blanks))) == LastOr(Last(PrintLexeme(LineComment(body))), blanks)
  {
    var t := [DASH, DASH] + body;
    assert [DASH, DASH] + (body + blanks) == t + blanks;
    assert blanks != [] ==> (t + blanks)[|t + blanks| - 1] == blanks[|blanks| - 1];
  }

  lemma {:induction false} TidyOfComment(ls: seq<Lexeme>)
    requires ls != [] && ls[0].LineComment?
    ensures var blanks := Blanks(ls[1..]);
      Tidy(ls) == [LineComment(ls[0].body + blanks)] + Tidy(ls[1..][|blanks|..])
  {
  }

  lemma {:induction false} PrintedStart(ls: seq<Lexeme>)
    ensures ls == [] ==> Print(ls) == []
    ensures ls != [] && ls[0] == Punct(LF) ==> Starts(Print(ls), LF)
  {
  }

  lemma {:induction false} PrintInFront(ls: seq<Lexeme>)
    requires ls != []
    ensures Print(ls) == PrintLexeme(ls[0]) + Print(ls[1..])
  {
  }

  lemma {:induction false} CommentInFront(prev: Option<CodeUnit>, comment: Lexeme, ls: seq<Lexeme>)
    requires comment.LineComment? && LF !in comment.body && (Print(ls) == [] || Starts(Print(ls), LF))
    requires WellFormed(Last(PrintLexeme(comment)), ls)
    ensures WellFormed(prev, [comment] + ls)
  {
    assert ([comment] + ls)[1..] == ls;
  }

  // ---- The verdict ----

  lemma {:induction false} ConsAlike(l: Lexeme, m: Lexeme, ls: seq<Lexeme>, ms: seq<Lexeme>)
    requires CountAlike(Segments(ls), Segments(ms))
    requires (l == Punct(SEMI) <==> m == Punct(SEMI)) && Substantial(l) == Substantial(m)
    requires l == m || (!l.Word? && !m.Word?)
    ensures CountAlike(Segments([l] + ls), Segments([m] + ms))
  {
    hide Substantial, Tokens, NonEmptyStatement, AnyCopyIn;
    var r, q := Segments(ls), Segments(ms);
    assert ([l] + ls)[1..] == ls && ([m] + ms)[1..] == ms;
    CountAlikeAgrees(r, q);
    if l == Punct(SEMI) {
      assert ([[]] + r)[1..] == r && ([[]] + q)[1..] == q;
    } else {
      InFront(l, r[0]);
      InFront(m, q[0]);
    }
  }

  lemma {:induction false} BlanksAreTrivia(ls: seq<Lexeme>)
    ensures AllTrivia(ls[..|Blanks(ls)|])
  {
    hide IsJsSpace;
    if Blanks(ls) != [] {
      var k := |Blanks(ls)|;
      BlanksAreTrivia(ls[1..]);
      assert ls[..k] == [ls[0]] + ls[1..][..k - 1];
    }
  }

  lemma {:induction false} TidyCountsAlike(ls: seq<Lexeme>)
    ensures CountAlike(Segments(Tidy(ls)), Segments(ls))
    decreases |ls|
  {
    hide Substantial, Tokens, NonEmptyStatement, AnyCopyIn, CountNonEmpty, Segments, AllTrivia, CountAlike, Blanks;
    hide Tidy;
    if ls == [] {
      TidyNothing();
    } else if ls[0].LineComment? {
      var tail := ls[1..];
      var k := |Blanks(tail)|;
      var rest := tail[k..];
      TidyCountsAlike(rest);
      TidyOfComment(ls);
      BlanksAreTrivia(tail);
      CommentAndTrivia(ls[0], tail[..k]);
      assert ls == ([ls[0]] + tail[..k]) + rest;
      TriviaBefore([ls[0]] + tail[..k], rest);
      CommentAndTrivia(Tidy(ls)[0], tail[..k]);
      TriviaBefore([Tidy(ls)[0]], Tidy(rest));
      AlikeIsEquivalence(Segments(Tidy(ls)), Segments(Tidy(rest)), Segments(rest), Segments(ls));
    } else {
      TidyCountsAlike(ls[1..]);
      TidyOfOther(ls);
      ConsAlike(Read(ls[0]), ls[0], Tidy(ls[1..]), ls[1..]);
      assert ls == [ls[0]] + ls[1..];
    }
  }

  lemma {:induction false} TidyNothing()
    ensures Tidy([]) == [] && CountAlike(Segments([]), Segments([]))
  {
  }

  lemma {:induction false} TidyOfOther(ls: seq<Lexeme>)
    requires ls != [] && !ls[0].LineComment?
    ensures Tidy(ls) == [Read(ls[0])] + Tidy(ls[1..])
    ensures Read(ls[0]) == Punct(SEMI) <==> ls[0] == Punct(SEMI)
    ensures Substantial(Read(ls[0])) == Substantial(ls[0])
  {
    hide IsJsSpace;
  }

  lemma {:induction false} CommentAndTrivia(comment: Lexeme, blanks: seq<Lexeme>)
    requires comment.LineComment? && AllTrivia(blanks)
    ensures AllTrivia([comment] + blanks) && AllTrivia([comment])
  {
    hide IsJsSpace;
  }

  lemma {:induction false} AlikeIsEquivalence(a: seq<seq<Lexeme>>, b: seq<seq<Lexeme>>, c: seq<seq<Lexeme>>,
                                              d: seq<seq<Lexeme>>)
    requires CountAlike(a, b) && CountAlike(b, c) && CountAlike(d, c)
    ensures CountAlike(a, d)
  {
    hide Tokens, NonEmptyStatement, AnyCopyIn, CountNonEmpty;
  }

  /**
   * On every text it reads right, the scanner gives the verdict of PostgreSQL's lexemes, with its own notion of what a
   * statement and a copy-in are.
   */
  lemma {:induction false} SniffsSql(ls: seq<Lexeme>)
    requires PgWellFormed(None, Fresh, ls) && ReadRight(ls)
    ensures Sniff(Print(ls)) == Verdict(ls)
  {
    hide PgWellFormed, ReadRight, WellFormed, Sniff, CountAlike, Segments, AnyCopyIn, CountNonEmpty, Tidy, Print;
    TidyPrints(None, Fresh, ls);
    SniffsTheLexemes(Tidy(ls));
    TidyCountsAlike(ls);
    CountAlikeAgrees(Segments(Tidy(ls)), Segments(ls));
  }

  // ---- Words ----

  /** An identifier or a keyword in ASCII. */
  predicate IsIdentifier(w: Text) {
    w != [] && IsWordStart(w[0]) && forall i :: 0 <= i < |w| ==> IsAsciiWord(w[i])
  }

  lemma {:induction false} AllWord(w: Text)
    requires forall i :: 0 <= i < |w| ==> IsAsciiWord(w[i])
    ensures WordLen(w) == |w|
  {
    hide IsAsciiWord;
    if w != [] { AllWord(w[1..]); }
  }

  /** The scanner reads an identifier as one token, itself in lower case. */
  lemma {:induction false} IdentifierIsOneToken(w: Text)
    requires IsIdentifier(w)
    ensures Tokenize(w) == [Lower(w)]
  {
    AllWord(w);
    assert w[..|w|] == w && w[|w|..] == [];
    TokenizeOther(SEMI, []) by { NotAsciiWord(); }
  }

  /** A number without letters is no token. */
  lemma {:induction false} DigitsAreNoToken(w: Text)
    requires forall i :: 0 <= i < |w| ==> 0x30 <= w[i] <= 0x39
    ensures Tokenize(w) == []
  {
    if w != [] { DigitsAreNoToken(w[1..]); }
  }

  lemma {:induction false} KeywordIsOneToken(l: Lexeme, keyword: string)
    requires Keyword(l, keyword) && keyword != "" && forall i :: 0 <= i < |keyword| ==> 'a' <= keyword[i] <= 'z'
    ensures Tokenize(l.w) == [Ascii(keyword)]
  {
    forall i | 0 <= i < |l.w| ensures IsWordStart(l.w[i]) && IsAsciiWord(l.w[i]) {
      assert LowerUnit(l.w[i]) == Lower(l.w)[i] == Ascii(keyword)[i];
    }
    IdentifierIsOneToken(l.w);
  }

  lemma {:induction false} KeywordsAre()
    ensures Ascii("copy") == COPY && Ascii("from") == FROM && Ascii("stdin") == STDIN
  {
  }

  lemma {:induction false} TokensAppend(a: seq<Lexeme>, b: seq<Lexeme>)
    ensures Tokens(a + b) == Tokens(a) + Tokens(b)
  {
    hide Tokenize;
    if a == [] {
      assert a + b == b;
    } else {
      assert (a + b)[1..] == a[1..] + b;
      TokensAppend(a[1..], b);
    }
  }

  lemma {:induction false} TriviaHaveNoTokens(segment: seq<Lexeme>)
    ensures Tokens(Meaningful(segment)) == Tokens(segment)
  {
    hide Tokenize, IsJsSpace;
    if segment != [] {
      var ms := Meaningful(segment[1..]);
      TriviaHaveNoTokens(segment[1..]);
      assert ([segment[0]] + ms)[1..] == ms && [] + ms == ms;
    }
  }

  lemma {:induction false} OneWord(l: Lexeme)
    ensures Tokens([l]) == if l.Word? then Tokenize(l.w) else []
  {
    hide Tokenize;
    assert [l][1..] == [];
  }

  /** The scanner takes COPY with FROM STDIN anywhere behind it for a copy-in. */
  lemma {:induction false} PairIsSeen(ms: seq<Lexeme>, k: nat)
    requires 1 <= k < |ms| - 1 && Keyword(ms[0], "copy") && Keyword(ms[k], "from") && Keyword(ms[k + 1], "stdin")
    ensures IsCopyIn(Tokens(ms))
  {
    hide Tokenize, Tokens;
    var front, pair, back := ms[..k], [ms[k]] + [ms[k + 1]], ms[k + 2..];
    assert ms == (front + pair) + back;
    TokensAppend(front + pair, back);
    TokensAppend(front, pair);
    TokensAppend([ms[k]], [ms[k + 1]]);
    assert front == [ms[0]] + front[1..];
    TokensAppend([ms[0]], front[1..]);
    OneWord(ms[0]);
    OneWord(ms[k]);
    OneWord(ms[k + 1]);
    KeywordsAre();
    KeywordIsOneToken(ms[0], "copy");
    KeywordIsOneToken(ms[k], "from");
    KeywordIsOneToken(ms[k + 1], "stdin");
    assert FromStdinAt(Tokens(ms), |Tokens(front)|);
  }

  /** The scanner takes every statement that copies FROM STDIN for a copy-in, whatever else its words are. */
  lemma {:induction false} CopyFromStdinIsSeen(segment: seq<Lexeme>)
    requires CopiesFrom(segment, "stdin")
    ensures IsCopyIn(Tokens(segment))
  {
    hide Meaningful, Tokens, Depth, IsCopyIn;
    var ms := Meaningful(segment);
    TriviaHaveNoTokens(segment);
    var k :| 1 <= k < |ms| && CopiesAt(ms, k, "stdin");
    PairIsSeen(ms, k);
  }

  // ---- Main results ----

  /** On every text the scanner reads right, no statement that copies FROM STDIN is forwarded. */
  lemma {:induction false} CopyInIsNeverHidden(ls: seq<Lexeme>, k: nat)
    requires PgWellFormed(None, Fresh, ls) && ReadRight(ls)
    requires k < |Segments(ls)| && CopiesFrom(Segments(ls)[k], "stdin")
    ensures Sniff(Print(ls)) != NotCopyIn
  {
    hide PgWellFormed, ReadRight, Sniff, IsCopyIn, CopiesFrom, Segments, CountNonEmpty, Tokens;
    SniffsSql(ls);
    CopyFromStdinIsSeen(Segments(ls)[k]);
    assert IsCopyIn(Tokens(Segments(ls)[k]));
  }

  /** A statement of nothing but words of non-ASCII white space, which `trim` takes for empty. */
  predicate BlankWords(segment: seq<Lexeme>) {
    Meaningful(segment) != [] && !NonEmptyStatement(segment)
  }

  predicate AnyBlankWords(segments: seq<seq<Lexeme>>) {
    exists k :: 0 <= k < |segments| && BlankWords(segments[k])
  }

  lemma {:induction false} SubstantialIsMeaningful(segment: seq<Lexeme>)
    ensures NonEmptyStatement(segment) ==> Meaningful(segment) != []
  {
    hide IsJsSpace;
    if segment != [] && NonEmptyStatement(segment) {
      var i :| 0 <= i < |segment| && Substantial(segment[i]);
      if i > 0 {
        assert segment[1..][i - 1] == segment[i];
        SubstantialIsMeaningful(segment[1..]);
      }
    }
  }

  /** PostgreSQL counts the statements the scanner counts, and those of blank words. */
  lemma {:induction false} CountsDifferByBlankWords(segments: seq<seq<Lexeme>>)
    ensures PgCount(segments) >= CountNonEmpty(segments)
    ensures PgCount(segments) == CountNonEmpty(segments) <==> !AnyBlankWords(segments)
  {
    hide Meaningful, NonEmptyStatement;
    if segments != [] {
      CountsDifferByBlankWords(segments[1..]);
      SubstantialIsMeaningful(segments[0]);
      if AnyBlankWords(segments[1..]) {
        var k :| 0 <= k < |segments[1..]| && BlankWords(segments[1..][k]);
        assert BlankWords(segments[k + 1]);
      }
      if AnyBlankWords(segments) {
        var k :| 0 <= k < |segments| && BlankWords(segments[k]);
        assert k > 0 ==> segments[1..][k - 1] == segments[k];
      }
    }
  }

  lemma {:induction false} BlankHasNoTokens(w: Text)
    requires Blank(w)
    ensures Tokenize(w) == []
  {
    if w != [] {
      SpaceIsNoWord(w[0]);
      BlankHasNoTokens(w[1..]);
    }
  }

  lemma {:induction false} TokensNeedSubstance(segment: seq<Lexeme>)
    requires Tokens(segment) != []
    ensures NonEmptyStatement(segment)
  {
    hide Tokenize, Blank;
    if Tokens(segment[1..]) != [] {
      TokensNeedSubstance(segment[1..]);
      var i :| 0 <= i < |segment[1..]| && Substantial(segment[1..][i]);
      assert Substantial(segment[i + 1]);
    } else {
      if Blank(segment[0].w) { BlankHasNoTokens(segment[0].w); }
      assert Substantial(segment[0]);
    }
  }

  lemma {:induction false} CountsSeen(segments: seq<seq<Lexeme>>, k: nat)
    requires k < |segments| && NonEmptyStatement(segments[k])
    ensures CountNonEmpty(segments) >= 1
  {
    hide NonEmptyStatement;
    if k > 0 { CountsSeen(segments[1..], k - 1); }
  }

  /** Where the scanner sees a copy-in, it counts a statement. */
  lemma {:induction false} CopyInsCount(segments: seq<seq<Lexeme>>)
    requires AnyCopyIn(segments)
    ensures CountNonEmpty(segments) >= 1
  {
    hide Tokens, NonEmptyStatement;
    var k :| 0 <= k < |segments| && IsCopyIn(Tokens(segments[k]));
    TokensNeedSubstance(segments[k]);
    CountsSeen(segments, k);
  }

  /**
   * On every text the scanner reads right, its verdict is the documented one if and only if it sees a copy-in where
   * there is one and nowhere else, and does not miss the other statements of a text because they are blank words.
   */
  lemma {:induction false} SniffsAsPostgresIff(ls: seq<Lexeme>)
    requires PgWellFormed(None, Fresh, ls) && ReadRight(ls)
    ensures var segments := Segments(ls);
      Sniff(Print(ls)) == PgVerdict(ls) <==>
        && (AnyCopyIn(segments) <==> AnyPgCopyIn(segments))
        && !(AnyCopyIn(segments) && CountNonEmpty(segments) == 1 && AnyBlankWords(segments))
  {
    hide PgWellFormed, ReadRight, Sniff, Segments, CountNonEmpty, PgCount, AnyCopyIn, AnyPgCopyIn, AnyBlankWords;
    SniffsSql(ls);
    CountsDifferByBlankWords(Segments(ls));
    if AnyCopyIn(Segments(ls)) { CopyInsCount(Segments(ls)); }
  }

  /** A text that is read right is forwarded with a copy-in exactly if it has a FROM STDOUT and nothing is seen. */
  lemma {:induction false} ForwardedIff(ls: seq<Lexeme>)
    requires PgWellFormed(None, Fresh, ls) && ReadRight(ls)
    ensures var segments := Segments(ls);
      (Sniff(Print(ls)) == NotCopyIn && AnyPgCopyIn(segments)) <==>
        (!AnyCopyIn(segments) && exists k :: 0 <= k < |segments| && CopiesFrom(segments[k], "stdout"))
  {
    hide PgWellFormed, ReadRight, Sniff, Segments, CountNonEmpty, IsCopyIn, Tokens, CopiesFrom;
    SniffsSql(ls);
    var segments := Segments(ls);
    forall k | 0 <= k < |segments| && CopiesFrom(segments[k], "stdin") ensures AnyCopyIn(segments) {
      CopyFromStdinIsSeen(segments[k]);
      assert IsCopyIn(Tokens(segments[k]));
    }
    if AnyPgCopyIn(segments) && !AnyCopyIn(segments) {
      var k :| 0 <= k < |segments| && PgCopyIn(segments[k]);
      assert CopiesFrom(segments[k], "stdout");
    }
    if k :| 0 <= k < |segments| && CopiesFrom(segments[k], "stdout") {
      assert PgCopyIn(segments[k]);
    }
  }

  // ---- Texts on which the scanner is exact ----

  predicate PlainWord(w: Text) {
    IsIdentifier(w) || forall i :: 0 <= i < |w| ==> 0x30 <= w[i] <= 0x39
  }

  predicate PlainWords(segment: seq<Lexeme>) {
    forall i :: 0 <= i < |segment| && segment[i].Word? ==> PlainWord(segment[i].w) && segment[i].w != []
  }

  predicate IsName(l: Lexeme) {
    l.Word? && IsIdentifier(l.w)
  }

  function Names(segment: seq<Lexeme>): seq<Text> {
    if segment == [] then []
    else (if IsName(segment[0]) then [Lower(segment[0].w)] else []) + Names(segment[1..])
  }

  /** In plain words the tokens of the scanner are the identifiers and keywords. */
  lemma {:induction false} TokensAreNames(segment: seq<Lexeme>)
    requires PlainWords(segment)
    ensures Tokens(segment) == Names(segment)
  {
    hide Tokenize, IsIdentifier;
    if segment != [] {
      TokensAreNames(segment[1..]);
      if segment[0].Word? {
        if IsName(segment[0]) {
          IdentifierIsOneToken(segment[0].w);
        } else {
          DigitsAreNoToken(segment[0].w);
        }
      }
    }
  }

  predicate NoNames(ms: seq<Lexeme>) {
    forall i :: 0 <= i < |ms| ==> !IsName(ms[i])
  }

  /** The two keywords at these places, and no name between them. */
  predicate NextNames(ms: seq<Lexeme>, j: nat, k: nat, first: string, second: string)
    requires j < k < |ms|
  {
    Keyword(ms[j], first) && Keyword(ms[k], second) && NoNames(ms[j + 1..k])
  }

  /**
   * In a statement that starts with COPY, every FROM that has STDIN for its next name has it right behind and is at
   * top level, and no top-level FROM STDOUT stands; in any other statement, the first name is not COPY.
   */
  predicate Straight(segment: seq<Lexeme>) {
    var ms := Meaningful(segment);
    if ms != [] && Keyword(ms[0], "copy") then
      && !CopiesFrom(segment, "stdout")
      && forall j, k :: 0 <= j < k < |ms| && NextNames(ms, j, k, "from", "stdin") ==>
           k == j + 1 && Depth(ms[..j]) == 0
    else forall k :: 0 <= k < |ms| && Keyword(ms[k], "copy") ==> !NoNames(ms[..k])
  }

  lemma {:induction false} FirstName(ms: seq<Lexeme>) returns (k: nat)
    requires Names(ms) != []
    ensures k < |ms| && IsName(ms[k]) && Lower(ms[k].w) == Names(ms)[0] && NoNames(ms[..k])
  {
    hide IsName;
    if IsName(ms[0]) {
      k := 0;
    } else {
      k := FirstName(ms[1..]);
      assert ms[..k + 1] == [ms[0]] + ms[1..][..k];
      k := k + 1;
    }
  }

  /** Two names in a row. */
  lemma {:induction false} TwoNames(ms: seq<Lexeme>, i: nat) returns (j: nat, k: nat)
    requires i + 1 < |Names(ms)|
    ensures j < k < |ms| && ms[j].Word? && ms[k].Word? && NoNames(ms[j + 1..k])
    ensures Lower(ms[j].w) == Names(ms)[i] && Lower(ms[k].w) == Names(ms)[i + 1]
    ensures i > 0 ==> j > 0
  {
    hide IsIdentifier, NoNames;
    var tail := ms[1..];
    if IsName(ms[0]) && i == 0 {
      k := FirstName(tail);
      SliceOfTail(ms, 0, k);
      assert tail[0..k] == tail[..k];
      j, k := 0, k + 1;
    } else {
      j, k := TwoNames(tail, if IsName(ms[0]) then i - 1 else i);
      SliceOfTail(ms, j + 1, k);
      j, k := j + 1, k + 1;
    }
  }

  lemma {:induction false} MeaningfulMembers(segment: seq<Lexeme>)
    ensures forall l :: l in Meaningful(segment) ==> l in segment && !IsTrivia(l)
  {
    hide IsTrivia;
    if segment != [] { MeaningfulMembers(segment[1..]); }
  }

  lemma {:induction false} PlainMeaningful(segment: seq<Lexeme>)
    requires PlainWords(segment)
    ensures PlainWords(Meaningful(segment))
  {
    hide PlainWord;
    var ms := Meaningful(segment);
    MeaningfulMembers(segment);
    forall i | 0 <= i < |ms| && ms[i].Word? ensures PlainWord(ms[i].w) && ms[i].w != [] {
      assert ms[i] in ms;
    }
  }

  /** In a straight statement of plain words the scanner sees a copy-in exactly if there is one. */
  lemma {:induction false} SeenIffCopyIn(segment: seq<Lexeme>)
    requires PlainWords(segment) && Straight(segment)
    ensures IsCopyIn(Tokens(segment)) <==> PgCopyIn(segment)
  {
    hide PlainWords, Meaningful, Tokens, NoNames, Depth, IsIdentifier;
    var ms := Meaningful(segment);
    if CopiesFrom(segment, "stdin") { CopyFromStdinIsSeen(segment); }
    TriviaHaveNoTokens(segment);
    PlainMeaningful(segment);
    TokensAreNames(ms);
    if IsCopyIn(Tokens(segment)) {
      var first := FirstName(ms);
      assert Keyword(ms[first], "copy");
      var i :| 1 <= i < |Names(ms)| && FromStdinAt(Names(ms), i);
      var j, k := TwoNames(ms, i);
      assert Keyword(ms[j], "from") && Keyword(ms[k], "stdin");
      assert Keyword(ms[0], "copy");
      assert NextNames(ms, j, k, "from", "stdin");
      assert CopiesAt(ms, j, "stdin");
    }
  }

  lemma {:induction false} PlainIsNotBlank(segment: seq<Lexeme>)
    requires PlainWords(segment)
    ensures !BlankWords(segment)
  {
    var ms := Meaningful(segment);
    if ms != [] {
      MeaningfulMembers(segment);
      assert ms[0] in segment && !IsTrivia(ms[0]);
      var i :| 0 <= i < |segment| && segment[i] == ms[0];
      assert segment[i].Word? ==> PlainWord(segment[i].w) && !IsJsSpace(segment[i].w[0]);
      assert Substantial(segment[i]);
    }
  }

  /** On texts it reads right, of straight statements in plain words, the scanner gives the documented verdict. */
  lemma {:induction false} SniffsAsPostgres(ls: seq<Lexeme>)
    requires PgWellFormed(None, Fresh, ls) && ReadRight(ls)
    requires forall k :: 0 <= k < |Segments(ls)| ==> PlainWords(Segments(ls)[k]) && Straight(Segments(ls)[k])
    ensures Sniff(Print(ls)) == PgVerdict(ls)
  {
    hide PgWellFormed, ReadRight, Segments, PlainWords, Straight, Sniff, PgVerdict, BlankWords, PgCopyIn, Tokens;
    var segments := Segments(ls);
    SniffsAsPostgresIff(ls);
    forall k | 0 <= k < |segments|
      ensures (IsCopyIn(Tokens(segments[k])) <==> PgCopyIn(segments[k])) && !BlankWords(segments[k])
    {
      SeenIffCopyIn(segments[k]);
      PlainIsNotBlank(segments[k]);
    }
  }
}
