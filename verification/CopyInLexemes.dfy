/**
 * SQL texts as lists of lexemes, divided as the copy-in scanner (src/duplex/copy-in.ts) divides them, and what the
 * scanner makes of every text printed from one. How PostgreSQL divides a text is the subject of CopyInSql.
 */
module CopyInLexemes {
  import opened Wrappers
  import opened Text
  import opened CopyIn

  /** The inside of a block comment, up to its own closing mark. */
  datatype Comment = Close | Unit(c: CodeUnit, rest: Comment) | Nested(inner: Comment, rest: Comment)

  /** A unit of an E'...' literal: itself, or a quote printed twice, or any unit after a backslash. */
  datatype EscapeUnit = Plain(c: CodeUnit) | TwoQuotes | Escape(c: CodeUnit)

  datatype Lexeme =
    | Quoted(q: CodeUnit, body: Text)
    | Escaped(e: CodeUnit, units: seq<EscapeUnit>)
    | Continued(units: seq<EscapeUnit>)  // a literal that continues an E'...' one; the scanner knows none
    | Dollar(tag: Text, body: Text)
    | LineComment(body: Text)
    | BlockComment(comment: Comment)
    | Word(w: Text)
    | Punct(c: CodeUnit)

  // ---- Printing, in the characters of SQL ----

  function Doubled(q: CodeUnit, body: Text): Text {
    if body == [] then [] else (if body[0] == q then [q, q] else [body[0]]) + Doubled(q, body[1..])
  }

  function PrintUnits(units: seq<EscapeUnit>): Text {
    if units == [] then [] else
    (match units[0]
     case Plain(c) => [c]
     case TwoQuotes => [0x27, 0x27]
     case Escape(c) => [0x5c, c])
    + PrintUnits(units[1..])
  }

  function PrintComment(c: Comment): (t: Text)
    ensures t != []
  {
    match c
    case Close => [0x2a, 0x2f]
    case Unit(c, rest) => [c] + PrintComment(rest)
    case Nested(inner, rest) => [0x2f, 0x2a] + (PrintComment(inner) + PrintComment(rest))
  }

  function OpenerOf(tag: Text): Text {
    [0x24] + tag + [0x24]
  }

  function PrintLexeme(l: Lexeme): Text {
    match l
    case Quoted(q, body) => [q] + (Doubled(q, body) + [q])
    case Escaped(e, units) => [e, 0x27] + (PrintUnits(units) + [0x27])
    case Continued(units) => [0x27] + (PrintUnits(units) + [0x27])
    case Dollar(tag, body) => OpenerOf(tag) + (body + OpenerOf(tag))
    case LineComment(body) => [0x2d, 0x2d] + body
    case BlockComment(comment) => [0x2f, 0x2a] + PrintComment(comment)
    case Word(w) => w
    case Punct(c) => [c]
  }

  function Print(ls: seq<Lexeme>): Text {
    if ls == [] then [] else PrintLexeme(ls[0]) + Print(ls[1..])
  }

  // ---- Well-formed lexemes, to the scanner ----

  /** No two neighbouring units open or close a comment by accident. */
  predicate ValidComment(c: Comment) {
    match c
    case Close => true
    case Unit(c, rest) =>
      && ValidComment(rest)
      && !(c == 0x2f && PrintComment(rest)[0] == 0x2a)
      && !(c == 0x2a && PrintComment(rest)[0] == 0x2f)
    case Nested(inner, rest) => ValidComment(inner) && ValidComment(rest)
  }

  predicate ValidUnit(u: EscapeUnit) {
    u.Plain? ==> u.c != 0x27 && u.c != 0x5c
  }

  predicate ValidTag(tag: Text) {
    tag != [] ==> IsWordStart(tag[0]) && forall i :: 0 <= i < |tag| ==> IsAsciiWord(tag[i])
  }

  predicate AllGlue(w: Text) {
    forall i :: 0 <= i < |w| ==> IsGlue(w[i])
  }

  predicate ValidLexeme(l: Lexeme) {
    match l
    case Quoted(q, _) => q == QUOTE || q == DOUBLE_QUOTE
    case Escaped(e, units) => IsE(e) && forall i :: 0 <= i < |units| ==> ValidUnit(units[i])
    case Continued(_) => false
    case Dollar(tag, body) => ValidTag(tag) && IndexOf(body + OpenerOf(tag), OpenerOf(tag)) == Some(|body|)
    case LineComment(body) => LF !in body
    case BlockComment(comment) => ValidComment(comment)
    case Word(w) => w != [] && AllGlue(w)
    case Punct(c) => !IsGlue(c) && c != QUOTE && c != DOUBLE_QUOTE
  }

  /** The glue rules: `l` may stand after the unit `prev` and before `rest`. */
  predicate Fits(prev: Option<CodeUnit>, l: Lexeme, rest: Text) {
    match l
    case Quoted(q, _) => !Starts(rest, q)
    case Escaped(_, _) => !Glued(prev) && !Starts(rest, QUOTE)
    case Continued(_) => false
    case Dollar(_, _) => !Glued(prev)
    case LineComment(_) => rest == [] || rest[0] == LF
    case BlockComment(_) => true
    case Word(w) =>
      && (rest == [] || !IsGlue(rest[0]))
      && (Glued(prev) || (Opener(w) == None && !(|w| == 1 && IsE(w[0]) && Starts(rest, QUOTE))))
    case Punct(c) => !(c == DASH && Starts(rest, DASH)) && !(c == SLASH && Starts(rest, STAR))
  }

  function Last(t: Text): Option<CodeUnit> {
    if t == [] then None else Some(t[|t| - 1])
  }

  predicate WellFormed(prev: Option<CodeUnit>, ls: seq<Lexeme>)
    decreases ls
  {
    ls != [] ==>
      && ValidLexeme(ls[0])
      && Fits(prev, ls[0], Print(ls[1..]))
      && WellFormed(Last(PrintLexeme(ls[0])), ls[1..])
  }

  // ---- What the scanner makes of a lexeme ----

  function Image(l: Lexeme): (t: Text)
    requires ValidLexeme(l)
    ensures t != []
  {
    match l
    case Word(w) => w
    case Punct(c) => [c]
    case LineComment(_) => [SPACE]
    case BlockComment(_) => [SPACE]
    case _ => [PLACEHOLDER]
  }

  predicate AllValid(ls: seq<Lexeme>) {
    forall i :: 0 <= i < |ls| ==> ValidLexeme(ls[i])
  }

  function Images(ls: seq<Lexeme>): Text
    requires AllValid(ls)
  {
    if ls == [] then [] else Image(ls[0]) + Images(ls[1..])
  }

  lemma {:induction false} WellFormedIsValid(prev: Option<CodeUnit>, ls: seq<Lexeme>)
    requires WellFormed(prev, ls)
    ensures AllValid(ls)
    decreases ls
  {
    if ls != [] {
      WellFormedIsValid(Last(PrintLexeme(ls[0])), ls[1..]);
      assert ls == [ls[0]] + ls[1..];
    }
  }

  lemma {:induction false} QuotedPrinted(q: CodeUnit, body: Text, rest: Text)
    requires q != BACKSLASH && !Starts(rest, q)
    ensures QuotedLen(Doubled(q, body) + [q] + rest, q, false) == |Doubled(q, body)| + 1
  {
    var s := Doubled(q, body) + [q] + rest;
    if body == [] {
      assert s == [q] + rest && s[1..] == rest;
    } else {
      QuotedPrinted(q, body[1..], rest);
      var k := if body[0] == q then 2 else 1;
      assert s[k..] == Doubled(q, body[1..]) + [q] + rest;
    }
  }

  lemma {:induction false} UnitsPrinted(units: seq<EscapeUnit>, rest: Text)
    requires !Starts(rest, QUOTE) && forall i :: 0 <= i < |units| ==> ValidUnit(units[i])
    ensures QuotedLen(PrintUnits(units) + [QUOTE] + rest, QUOTE, true) == |PrintUnits(units)| + 1
  {
    var s := PrintUnits(units) + [QUOTE] + rest;
    if units == [] {
      assert s == [QUOTE] + rest && s[1..] == rest;
    } else {
      UnitsPrinted(units[1..], rest);
      assert ValidUnit(units[0]);
      var k := if units[0].Plain? then 1 else 2;
      assert s[k..] == PrintUnits(units[1..]) + [QUOTE] + rest;
    }
  }

  lemma {:induction false} BlockLenMarks(rest: Text, depth: nat)
    requires depth > 0
    ensures BlockLen([SLASH, STAR] + rest, depth) == 2 + BlockLen(rest, depth + 1)
    ensures BlockLen([STAR, SLASH] + rest, depth) == 2 + BlockLen(rest, depth - 1)
  {
    assert ([SLASH, STAR] + rest)[2..] == rest;
    assert ([STAR, SLASH] + rest)[2..] == rest;
  }

  lemma {:induction false} BlockLenUnit(c: CodeUnit, rest: Text, depth: nat)
    requires depth > 0
    requires !(c == SLASH && Starts(rest, STAR)) && !(c == STAR && Starts(rest, SLASH))
    ensures BlockLen([c] + rest, depth) == 1 + BlockLen(rest, depth)
  {
    assert ([c] + rest)[1..] == rest;
  }

  /** A printed comment ends one level, wherever it is nested. */
  lemma {:induction false} CommentPrinted(c: Comment, rest: Text, depth: nat)
    requires ValidComment(c) && depth > 0
    ensures BlockLen(PrintComment(c) + rest, depth) == |PrintComment(c)| + BlockLen(rest, depth - 1)
    decreases c
  {
    hide BlockLen;
    match c
    case Close =>
      BlockLenMarks(rest, depth);
    case Unit(c, tail) =>
      assert PrintComment(Unit(c, tail)) + rest == [c] + (PrintComment(tail) + rest);
      BlockLenUnit(c, PrintComment(tail) + rest, depth);
      CommentPrinted(tail, rest, depth);
    case Nested(inner, tail) =>
      var after := PrintComment(tail) + rest;
      assert PrintComment(Nested(inner, tail)) + rest == [SLASH, STAR] + (PrintComment(inner) + after);
      BlockLenMarks(PrintComment(inner) + after, depth);
      CommentPrinted(inner, after, depth + 1);
      CommentPrinted(tail, rest, depth);
  }

  lemma {:induction false} LinePrinted(body: Text, rest: Text)
    requires LF !in body && (rest == [] || rest[0] == LF)
    ensures LineLen(body + rest) == |body|
  {
    if body == [] {
      assert body + rest == rest;
    } else {
      assert (body + rest)[1..] == body[1..] + rest;
      LinePrinted(body[1..], rest);
    }
  }

  lemma {:induction false} OpenerPrinted(tag: Text, rest: Text)
    requires ValidTag(tag)
    ensures Opener(OpenerOf(tag) + rest) == Some(OpenerOf(tag))
  {
    var s := OpenerOf(tag) + rest;
    var n := WordLen(s[1..]);
    assert s[1..] == tag + [DOLLAR] + rest;
    assert forall i :: 0 <= i < |tag| ==> s[1..][i] == tag[i];
    assert s[1..][|tag|] == DOLLAR;
    assert n == |tag|;
    assert s[1 + n..] == [DOLLAR] + rest;
  }

  /** The first closer in a body is also the first one in any longer text. */
  lemma {:induction false} IndexOfExtended(s: Text, pattern: Text, rest: Text, j: nat)
    requires IndexOf(s, pattern) == Some(j) && j + |pattern| == |s|
    ensures IndexOf(s + rest, pattern) == Some(j)
  {
    hide IndexOf;
    var t := s + rest;
    assert t[j..] == s[j..] + rest;
    forall k | 0 <= k < j ensures !(pattern <= t[k..]) {
      assert t[k..] == s[k..] + rest;
      assert |pattern| <= |s[k..]|;
    }
  }

  lemma {:induction false} DollarPrinted(tag: Text, body: Text, rest: Text)
    requires ValidLexeme(Dollar(tag, body))
    ensures var s := PrintLexeme(Dollar(tag, body)) + rest;
      Opener(s) == Some(OpenerOf(tag)) && DollarLen(s, OpenerOf(tag)) == |PrintLexeme(Dollar(tag, body))|
  {
    hide Opener, IndexOf, OpenerOf, ValidTag;
    var opener := OpenerOf(tag);
    var s := opener + (body + opener) + rest;
    var tail := body + opener + rest;
    assert s == opener + tail;
    OpenerPrinted(tag, tail);
    IndexOfExtended(body + opener, opener, rest, |body|);
    assert s[|opener|..] == tail;
  }

  /** The scanner takes every lexeme but a word in one step. */
  lemma {:induction false} HeadPrinted(prev: Option<CodeUnit>, l: Lexeme, rest: Text)
    requires ValidLexeme(l) && Fits(prev, l, rest) && !l.Word?
    ensures Head(prev, PrintLexeme(l) + rest) == (|PrintLexeme(l)|, Image(l))
  {
    hide Head, IsGlue, IndexOf, ValidComment;
    match l
    case Quoted(q, body) => HeadQuoted(prev, q, body, rest);
    case Escaped(e, units) => HeadEscaped(prev, e, units, rest);
    case Dollar(tag, body) => HeadDollar(prev, tag, body, rest);
    case LineComment(body) => HeadLine(prev, body, rest);
    case BlockComment(comment) => HeadBlock(prev, comment, rest);
    case Punct(c) => HeadPunct(prev, c, rest);
  }

  lemma {:induction false} HeadQuoted(prev: Option<CodeUnit>, q: CodeUnit, body: Text, rest: Text)
    requires (q == QUOTE || q == DOUBLE_QUOTE) && !Starts(rest, q)
    ensures Head(prev, PrintLexeme(Quoted(q, body)) + rest) == (|PrintLexeme(Quoted(q, body))|, [PLACEHOLDER])
  {
    hide QuotedLen, BlockLen, LineLen, Opener, DollarLen, Doubled, Glued;
    var s := PrintLexeme(Quoted(q, body)) + rest;
    assert s[1..] == Doubled(q, body) + [q] + rest;
    QuotedPrinted(q, body, rest);
  }

  lemma {:induction false} HeadEscaped(prev: Option<CodeUnit>, e: CodeUnit, units: seq<EscapeUnit>, rest: Text)
    requires ValidLexeme(Escaped(e, units)) && !Glued(prev) && !Starts(rest, QUOTE)
    ensures Head(prev, PrintLexeme(Escaped(e, units)) + rest) == (|PrintLexeme(Escaped(e, units))|, [PLACEHOLDER])
  {
    hide QuotedLen, BlockLen, LineLen, Opener, DollarLen, PrintUnits, Glued;
    var s := PrintLexeme(Escaped(e, units)) + rest;
    assert s[1..] == [QUOTE] + (PrintUnits(units) + [QUOTE] + rest);
    assert s[2..] == PrintUnits(units) + [QUOTE] + rest;
    UnitsPrinted(units, rest);
  }

  lemma {:induction false} HeadDollar(prev: Option<CodeUnit>, tag: Text, body: Text, rest: Text)
    requires ValidLexeme(Dollar(tag, body)) && !Glued(prev)
    ensures Head(prev, PrintLexeme(Dollar(tag, body)) + rest) == (|PrintLexeme(Dollar(tag, body))|, [PLACEHOLDER])
  {
    hide QuotedLen, BlockLen, LineLen, Opener, DollarLen, IndexOf, Glued, ValidTag;
    var s := PrintLexeme(Dollar(tag, body)) + rest;
    assert s[0] == OpenerOf(tag)[0] == DOLLAR;
    DollarPrinted(tag, body, rest);
  }

  lemma {:induction false} HeadLine(prev: Option<CodeUnit>, body: Text, rest: Text)
    requires LF !in body && (rest == [] || rest[0] == LF)
    ensures Head(prev, PrintLexeme(LineComment(body)) + rest) == (|PrintLexeme(LineComment(body))|, [SPACE])
  {
    hide QuotedLen, BlockLen, LineLen, Opener, DollarLen, Glued;
    var s := PrintLexeme(LineComment(body)) + rest;
    assert s[1..] == [DASH] + (body + rest);
    assert s[2..] == body + rest;
    LinePrinted(body, rest);
  }

  lemma {:induction false} HeadBlock(prev: Option<CodeUnit>, comment: Comment, rest: Text)
    requires ValidComment(comment)
    ensures Head(prev, PrintLexeme(BlockComment(comment)) + rest) == (|PrintLexeme(BlockComment(comment))|, [SPACE])
  {
    hide QuotedLen, BlockLen, LineLen, Opener, DollarLen, Glued, ValidComment, PrintComment;
    var s := PrintLexeme(BlockComment(comment)) + rest;
    assert s[1..] == [STAR] + (PrintComment(comment) + rest);
    assert s[2..] == PrintComment(comment) + rest;
    CommentPrinted(comment, rest, 1);
    NoDepth(rest);
  }

  lemma {:induction false} HeadPunct(prev: Option<CodeUnit>, c: CodeUnit, rest: Text)
    requires ValidLexeme(Punct(c)) && Fits(prev, Punct(c), rest)
    ensures Head(prev, [c] + rest) == (1, [c])
  {
    hide QuotedLen, BlockLen, LineLen, Opener, DollarLen, IsGlue, Glued;
    assert ([c] + rest)[1..] == rest;
    GlueUnits(c);
  }

  lemma {:induction false} NoDepth(rest: Text)
    ensures BlockLen(rest, 0) == 0
  {
  }

  lemma {:induction false} GlueUnits(c: CodeUnit)
    ensures !IsGlue(c) ==> c != DOLLAR && !IsE(c) && !IsAsciiWord(c)
    ensures IsGlue(c) ==> c != DASH && c != SLASH && c != QUOTE && c != DOUBLE_QUOTE && c != SEMI && c != STAR
  {
  }

  /** Inside a word the scanner sees nothing but words. */
  lemma {:induction false} WordPrinted(prev: Option<CodeUnit>, w: Text, rest: Text)
    requires ValidLexeme(Word(w)) && Fits(prev, Word(w), rest)
    ensures Strip(prev, w + rest) == w + Strip(Last(w), rest)
    decreases w
  {
    hide IsGlue, Opener, Head, Strip;
    HeadOfWord(prev, w, rest);
    assert w + rest == [w[0]] + (w[1..] + rest);
    StripHead(prev, [w[0]], w[1..] + rest, [w[0]]);
    if |w| > 1 {
      WordPrinted(Some(w[0]), w[1..], rest);
      assert w == [w[0]] + w[1..];
      assert Last(w[1..]) == Last(w);
    } else {
      assert w[1..] + rest == rest && w == [w[0]];
    }
  }

  lemma {:induction false} HeadOfWord(prev: Option<CodeUnit>, w: Text, rest: Text)
    requires ValidLexeme(Word(w)) && Fits(prev, Word(w), rest)
    ensures Head(prev, w + rest) == (1, [w[0]])
  {
    hide IsGlue, Opener, LineLen, BlockLen, QuotedLen, DollarLen;
    var s := w + rest;
    GlueUnits(w[0]);
    assert s[1..] == w[1..] + rest;
    OpenerOfWord(w, rest);
    if |w| > 1 { GlueUnits(w[1]); }
  }

  /** What follows a word does not make its start a dollar quote. */
  lemma {:induction false} OpenerOfWord(w: Text, rest: Text)
    requires w != [] && AllGlue(w) && (rest == [] || !IsGlue(rest[0]))
    ensures Opener(w + rest).Some? <==> Opener(w).Some?
  {
    if w[0] == DOLLAR {
      var s := w + rest;
      var n := WordLen(w[1..]);
      assert s[1..] == w[1..] + rest;
      assert WordLen(s[1..]) == n by {
        assert forall i :: 0 <= i < |w| - 1 ==> s[1..][i] == w[1..][i];
        assert rest != [] ==> s[1..][|w| - 1] == rest[0];
      }
      assert s[1 + n..] == w[1 + n..] + rest;
    }
  }

  /** Stripping a printed text replaces each lexeme by its image. */
  lemma {:induction false} StripPrinted(prev: Option<CodeUnit>, ls: seq<Lexeme>)
    requires WellFormed(prev, ls)
    ensures AllValid(ls) && Strip(prev, Print(ls)) == Images(ls)
    decreases ls
  {
    hide Head, ValidLexeme, Fits, Image, Strip;
    WellFormedIsValid(prev, ls);
    if ls == [] {
      StripEmpty(prev);
    } else {
      var t, rest := PrintLexeme(ls[0]), Print(ls[1..]);
      StripPrinted(Last(t), ls[1..]);
      if ls[0].Word? {
        WordPrinted(prev, ls[0].w, rest);
        WordImage(ls[0]);
      } else {
        HeadPrinted(prev, ls[0], rest);
        StripHead(prev, t, rest, Image(ls[0]));
      }
    }
  }

  lemma {:induction false} StripEmpty(prev: Option<CodeUnit>)
    ensures Strip(prev, []) == []
  {
  }

  lemma {:induction false} WordImage(l: Lexeme)
    requires ValidLexeme(l) && l.Word?
    ensures Image(l) == l.w == PrintLexeme(l)
  {
  }

  lemma {:induction false} StripHead(prev: Option<CodeUnit>, t: Text, rest: Text, image: Text)
    requires t + rest != [] && Head(prev, t + rest) == (|t|, image)
    ensures Strip(prev, t + rest) == image + Strip(Last(t), rest)
  {
    hide Head;
    assert (t + rest)[|t|..] == rest && (t + rest)[|t| - 1] == t[|t| - 1];
  }
}
