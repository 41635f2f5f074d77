/** The verdict of the copy-in scanner in terms of lexemes: what it counts, and what it cannot be fooled by. */
module CopyInVerdicts {
  import opened Wrappers
  import opened Text
  import opened CopyIn
  import opened CopyInLexemes

  // ---- The verdict on lexemes ----

  /** The statements: what stands between the semicolons that are not inside a quoted region or a comment. */
  function Segments(ls: seq<Lexeme>): (r: seq<seq<Lexeme>>)
    ensures r != []
  {
    if ls == [] then [[]] else
    var r := Segments(ls[1..]);
    if ls[0] == Punct(0x3b) then [[]] + r else [[ls[0]] + r[0]] + r[1..]
  }

  predicate Blank(s: Text) {
    forall i :: 0 <= i < |s| ==> IsJsSpace(s[i])
  }

  /** Neither a comment nor white space. A word of non-ASCII spaces is white space to `trim`. */
  predicate Substantial(l: Lexeme) {
    match l
    case LineComment(_) => false
    case BlockComment(_) => false
    case Word(w) => !Blank(w)
    case Punct(c) => !IsJsSpace(c)
    case _ => true
  }

  predicate NonEmptyStatement(segment: seq<Lexeme>) {
    exists i :: 0 <= i < |segment| && Substantial(segment[i])
  }

  /** The word tokens of a statement: those of its words, and of nothing else. */
  function Tokens(segment: seq<Lexeme>): seq<Text> {
    if segment == [] then [] else
    (if segment[0].Word? then Tokenize(segment[0].w) else []) + Tokens(segment[1..])
  }

  predicate AnyCopyIn(segments: seq<seq<Lexeme>>) {
    exists k :: 0 <= k < |segments| && IsCopyIn(Tokens(segments[k]))
  }

  function CountNonEmpty(segments: seq<seq<Lexeme>>): nat {
    if segments == [] then 0 else (if NonEmptyStatement(segments[0]) then 1 else 0) + CountNonEmpty(segments[1..])
  }

  function Verdict(ls: seq<Lexeme>): CopyInVerdict {
    var segments := Segments(ls);
    if !AnyCopyIn(segments) then NotCopyIn
    else if CountNonEmpty(segments) == 1 then Capture
    else RejectMulti
  }

  // ---- Splitting ----

  function AllImages(segments: seq<seq<Lexeme>>): seq<Text>
    requires forall k :: 0 <= k < |segments| ==> AllValid(segments[k])
  {
    if segments == [] then [] else [Images(segments[0])] + AllImages(segments[1..])
  }

  lemma {:induction false} SegmentsAreValid(ls: seq<Lexeme>)
    requires AllValid(ls)
    ensures forall k :: 0 <= k < |Segments(ls)| ==> AllValid(Segments(ls)[k])
  {
    hide ValidLexeme;
    if ls != [] {
      SegmentsAreValid(ls[1..]);
    }
  }

  lemma {:induction false} SplitWord(w: Text, s: Text)
    requires SEMI !in w
    ensures Split(w + s) == [w + Split(s)[0]] + Split(s)[1..]
  {
    if w == [] {
      assert w + s == s && w + Split(s)[0] == Split(s)[0];
    } else {
      SplitWord(w[1..], s);
      assert (w + s)[1..] == w[1..] + s;
      assert w + Split(s)[0] == [w[0]] + (w[1..] + Split(s)[0]);
    }
  }

  lemma {:induction false} NoSemicolonInImage(l: Lexeme)
    requires ValidLexeme(l)
    ensures if l == Punct(SEMI) then Image(l) == [SEMI] else SEMI !in Image(l)
  {
    hide IsAsciiWord;
    if l.Word? {
      forall i | 0 <= i < |l.w| ensures l.w[i] != SEMI {
        GlueUnits(l.w[i]);
      }
    }
  }

  lemma {:induction false} SplitImages(ls: seq<Lexeme>)
    requires AllValid(ls)
    ensures forall k :: 0 <= k < |Segments(ls)| ==> AllValid(Segments(ls)[k])
    ensures Split(Images(ls)) == AllImages(Segments(ls))
  {
    hide ValidLexeme, Image, IsAsciiWord;
    SegmentsAreValid(ls);
    if ls != [] {
      var r := Segments(ls[1..]);
      SplitImages(ls[1..]);
      NoSemicolonInImage(ls[0]);
      if ls[0] == Punct(SEMI) {
        SplitSemicolon(Images(ls[1..]));
      } else {
        SplitWord(Image(ls[0]), Images(ls[1..]));
        assert ([ls[0]] + r[0])[1..] == r[0];
      }
    }
  }

  lemma {:induction false} SplitSemicolon(s: Text)
    ensures Split([SEMI] + s) == [[]] + Split(s)
  {
    assert ([SEMI] + s)[1..] == s;
  }

  // ---- Trimming ----

  lemma {:induction false} TrimStartKeeps(s: Text)
    ensures var t := TrimStart(s);
      Tokenize(t) == Tokenize(s) && (Blank(s) <==> t == []) && (t != [] ==> !IsJsSpace(t[0]))
  {
    if s != [] && IsJsSpace(s[0]) {
      TrimStartKeeps(s[1..]);
    }
  }

  lemma {:induction false} TrimEndKeeps(s: Text)
    ensures Tokenize(TrimEnd(s)) == Tokenize(s) && (Blank(s) <==> TrimEnd(s) == [])
  {
    hide Tokenize;
    if s != [] && IsJsSpace(s[|s| - 1]) {
      var init, last := s[..|s| - 1], s[|s| - 1..];
      TrimEndKeeps(init);
      assert s == init + last;
      SpaceIsNoWord(last[0]);
      TokenizeAppend(init, last);
      TokenizeOther(last[0], []);
      assert [last[0]] + [] == last;
    }
  }

  lemma {:induction false} SpaceIsNoWord(c: CodeUnit)
    requires IsJsSpace(c)
    ensures !IsAsciiWord(c)
  {
  }

  lemma {:induction false} TokenizeOther(c: CodeUnit, s: Text)
    requires !IsAsciiWord(c)
    ensures Tokenize([c] + s) == Tokenize(s)
    ensures Tokenize([]) == []
  {
    assert ([c] + s)[1..] == s;
  }

  /** A text can be tokenized in two parts where no word runs on. */
  lemma {:induction false} TokenizeAppend(a: Text, b: Text)
    requires b == [] || !IsAsciiWord(b[0])
    ensures Tokenize(a + b) == Tokenize(a) + Tokenize(b)
    decreases a
  {
    hide IsAsciiWord, Lower;
    var s := a + b;
    if a == [] {
      assert s == b;
    } else if IsWordStart(a[0]) {
      var n := WordLen(a);
      assert WordLen(s) == n by {
        assert forall i :: 0 <= i < |a| ==> s[i] == a[i];
        assert b != [] ==> s[|a|] == b[0];
      }
      assert n > 0 by { WordStartIsWord(a[0]); }
      assert s[..n] == a[..n] && s[n..] == a[n..] + b;
      TokenizeAppend(a[n..], b);
      assert [Lower(a[..n])] + (Tokenize(a[n..]) + Tokenize(b)) == [Lower(a[..n])] + Tokenize(a[n..]) + Tokenize(b);
    } else {
      assert s[1..] == a[1..] + b;
      TokenizeAppend(a[1..], b);
    }
  }

  lemma {:induction false} WordStartIsWord(c: CodeUnit)
    requires IsWordStart(c)
    ensures IsAsciiWord(c)
  {
  }

  lemma {:induction false} TrimKeeps(s: Text)
    ensures Tokenize(Trim(s)) == Tokenize(s) && (Blank(s) <==> Trim(s) == [])
  {
    hide Tokenize;
    TrimStartKeeps(s);
    TrimEndKeeps(TrimStart(s));
  }

  // ---- Tokens and substance of a statement ----

  predicate NoAdjacentWords(ls: seq<Lexeme>) {
    forall i :: 0 <= i < |ls| - 1 ==> !(ls[i].Word? && ls[i + 1].Word?)
  }

  lemma {:induction false} WordsAreApart(prev: Option<CodeUnit>, ls: seq<Lexeme>)
    requires WellFormed(prev, ls)
    ensures NoAdjacentWords(ls)
    decreases ls
  {
    hide IsGlue, Opener, IndexOf, ValidComment;
    if ls != [] {
      WordsAreApart(Last(PrintLexeme(ls[0])), ls[1..]);
      PrintedWord(ls[1..]);
    }
  }

  lemma {:induction false} PrintedWord(ls: seq<Lexeme>)
    requires ls != [] ==> ValidLexeme(ls[0])
    ensures ls != [] && ls[0].Word? ==> Print(ls) != [] && IsGlue(Print(ls)[0])
  {
    hide IsGlue, IndexOf, ValidComment;
  }

  lemma {:induction false} SegmentsKeepWordsApart(ls: seq<Lexeme>)
    requires NoAdjacentWords(ls)
    ensures forall k :: 0 <= k < |Segments(ls)| ==> NoAdjacentWords(Segments(ls)[k])
    ensures Segments(ls)[0] != [] ==> ls != [] && Segments(ls)[0][0] == ls[0]
  {
    if ls != [] {
      SegmentsKeepWordsApart(ls[1..]);
      var r := Segments(ls[1..]);
      if ls[0] != Punct(SEMI) {
        var first := [ls[0]] + r[0];
        forall i | 0 <= i < |first| - 1 ensures !(first[i].Word? && first[i + 1].Word?) {
          if i > 0 {
            assert first[i] == r[0][i - 1];
          }
        }
      }
    }
  }

  lemma {:induction false} FirstOfImages(ls: seq<Lexeme>)
    requires AllValid(ls)
    ensures ls != [] && !ls[0].Word? ==> Images(ls) != [] && !IsAsciiWord(Images(ls)[0])
  {
    if ls != [] && ls[0].Punct? { GlueUnits(ls[0].c); }
  }

  lemma {:induction false} TokensOfImages(ls: seq<Lexeme>)
    requires AllValid(ls) && NoAdjacentWords(ls)
    ensures Tokenize(Images(ls)) == Tokens(ls)
  {
    hide IsAsciiWord, ValidLexeme, Tokenize;
    if ls == [] {
      TokenizeOther(SEMI, []) by { NotAsciiWord(); }
    } else {
      var tail := Images(ls[1..]);
      TokensOfImages(ls[1..]);
      FirstOfImages(ls);
      FirstOfImages(ls[1..]);
      if ls[0].Word? {
        assert ls[1..] != [] ==> !ls[1].Word?;
        TokenizeAppend(ls[0].w, tail);
      } else {
        assert Images(ls) == [Image(ls[0])[0]] + tail;
        TokenizeOther(Image(ls[0])[0], tail);
      }
    }
  }

  lemma {:induction false} NotAsciiWord()
    ensures !IsAsciiWord(SEMI)
  {
  }

  lemma {:induction false} BlankAppend(a: Text, b: Text)
    ensures Blank(a + b) <==> Blank(a) && Blank(b)
  {
    hide IsJsSpace;
    if Blank(a + b) {
      assert forall i :: 0 <= i < |a| ==> (a + b)[i] == a[i];
      assert forall i :: 0 <= i < |b| ==> (a + b)[|a| + i] == b[i];
    }
  }

  lemma {:induction false} ImageIsBlank(l: Lexeme)
    requires ValidLexeme(l)
    ensures Blank(Image(l)) <==> !Substantial(l)
  {
    if !l.Word? {
      assert Image(l) == [Image(l)[0]];
    }
  }

  lemma {:induction false} BlankImages(ls: seq<Lexeme>)
    requires AllValid(ls)
    ensures Blank(Images(ls)) <==> !NonEmptyStatement(ls)
  {
    hide ValidLexeme, Image, Substantial, IsJsSpace;
    if ls != [] {
      BlankImages(ls[1..]);
      BlankAppend(Image(ls[0]), Images(ls[1..]));
      ImageIsBlank(ls[0]);
      if NonEmptyStatement(ls) && !Substantial(ls[0]) {
        var i :| 0 <= i < |ls| && Substantial(ls[i]);
        assert Substantial(ls[1..][i - 1]);
      }
      if NonEmptyStatement(ls[1..]) {
        var i :| 0 <= i < |ls[1..]| && Substantial(ls[1..][i]);
        assert Substantial(ls[i + 1]);
      }
    }
  }

  // ---- Main results ----

  /** Dropping empty statements and trimming the others changes neither the count nor the copy-in statements. */
  lemma {:induction false} CountsAgree(segments: seq<seq<Lexeme>>)
    requires forall k :: 0 <= k < |segments| ==> AllValid(segments[k]) && NoAdjacentWords(segments[k])
    ensures |NonEmpty(AllImages(segments))| == CountNonEmpty(segments)
    ensures HasCopyIn(NonEmpty(AllImages(segments))) <==> AnyCopyIn(segments)
  {
    hide AllValid, NoAdjacentWords, IsCopyIn, Tokenize, Trim, NonEmptyStatement, Images;
    if segments != [] {
      var first, tail := segments[0], NonEmpty(AllImages(segments[1..]));
      assert AllValid(first);
      var s := Images(first);
      CountsAgree(segments[1..]);
      TrimKeeps(s);
      BlankImages(first);
      TokensOfImages(first);
      NoTokensNoCopyIn();
      var all := NonEmpty(AllImages(segments));
      assert AllImages(segments)[1..] == AllImages(segments[1..]);
      AnyUnfolds(segments);
      if Trim(s) != [] {
        assert all == [Trim(s)] + tail;
        HasUnfolds(Trim(s), tail);
      } else {
        assert all == tail;
      }
    } else {
      assert NonEmpty(AllImages(segments)) == [];
    }
  }

  lemma {:induction false} NoTokensNoCopyIn()
    ensures !IsCopyIn(Tokenize([]))
  {
  }

  lemma {:induction false} AnyUnfolds(segments: seq<seq<Lexeme>>)
    requires segments != []
    ensures AnyCopyIn(segments) <==> IsCopyIn(Tokens(segments[0])) || AnyCopyIn(segments[1..])
  {
    hide IsCopyIn, Tokens;
    if AnyCopyIn(segments[1..]) {
      var k :| 0 <= k < |segments[1..]| && IsCopyIn(Tokens(segments[1..][k]));
      assert segments[k + 1] == segments[1..][k];
    }
    if AnyCopyIn(segments) {
      var k :| 0 <= k < |segments| && IsCopyIn(Tokens(segments[k]));
      assert k > 0 ==> segments[1..][k - 1] == segments[k];
    }
  }

  lemma {:induction false} HasUnfolds(s: Text, tail: seq<Text>)
    ensures HasCopyIn([s] + tail) <==> IsCopyIn(Tokenize(s)) || HasCopyIn(tail)
  {
    hide IsCopyIn, Tokenize;
    var all := [s] + tail;
    if HasCopyIn(tail) {
      var k :| 0 <= k < |tail| && IsCopyIn(Tokenize(tail[k]));
      assert all[k + 1] == tail[k];
    }
    if IsCopyIn(Tokenize(s)) {
      assert IsCopyIn(Tokenize(all[0]));
    }
    if HasCopyIn(all) {
      var k :| 0 <= k < |all| && IsCopyIn(Tokenize(all[k]));
      assert k > 0 ==> tail[k - 1] == all[k];
    }
  }

  /** On every text printed from well-formed lexemes the scanner gives the verdict of the lexemes. */
  lemma {:induction false} SniffsTheLexemes(ls: seq<Lexeme>)
    requires WellFormed(None, ls)
    ensures Sniff(Print(ls)) == Verdict(ls)
  {
    hide Strip, WellFormed, AllValid, NoAdjacentWords, Segments;
    StripPrinted(None, ls);
    WordsAreApart(None, ls);
    SegmentsKeepWordsApart(ls);
    SplitImages(ls);
    CountsAgree(Segments(ls));
  }

  /** A statement of the scanner that is a copy-in is seen, whatever the scanner reads before and after it. */
  lemma {:induction false} CopyInIsSeen(before: seq<Lexeme>, statement: seq<Lexeme>, after: seq<Lexeme>)
    requires Punct(SEMI) !in statement && IsCopyIn(Tokens(statement))
    requires before == [] || before[|before| - 1] == Punct(SEMI)
    requires after == [] || after[0] == Punct(SEMI)
    requires WellFormed(None, before + statement + after)
    ensures Sniff(Print(before + statement + after)) != NotCopyIn
  {
    hide IsCopyIn, WellFormed, Segments, Tokens, Sniff, CountNonEmpty;
    var ls := before + statement + after;
    SniffsTheLexemes(ls);
    assert ls == before + (statement + after);
    SegmentInMiddle(before, statement + after);
    SegmentAtStart(statement, after);
    var k :| 0 <= k < |Segments(ls)| && Segments(ls)[k] == statement;
    assert IsCopyIn(Tokens(Segments(ls)[k]));
  }

  lemma {:induction false} SegmentAtStart(statement: seq<Lexeme>, after: seq<Lexeme>)
    requires Punct(SEMI) !in statement && (after == [] || after[0] == Punct(SEMI))
    ensures Segments(statement + after)[0] == statement
  {
    if statement == [] {
      assert statement + after == after;
    } else {
      assert (statement + after)[1..] == statement[1..] + after;
      SegmentAtStart(statement[1..], after);
    }
  }

  lemma {:induction false} SegmentInMiddle(before: seq<Lexeme>, rest: seq<Lexeme>)
    requires before == [] || before[|before| - 1] == Punct(SEMI)
    ensures Segments(rest)[0] in Segments(before + rest)
  {
    if before == [] {
      assert before + rest == rest;
    } else {
      assert (before + rest)[1..] == before[1..] + rest;
      SegmentInMiddle(before[1..], rest);
      var r := Segments(before[1..] + rest);
      if before[0] == Punct(SEMI) {
        assert Segments(before + rest) == [[]] + r;
      } else {
        assert |before| > 1;
        NotInFirst(before[1..], rest);
        assert Segments(before + rest)[1..] == r[1..];
      }
    }
  }

  lemma {:induction false} NotInFirst(before: seq<Lexeme>, rest: seq<Lexeme>)
    requires before != [] && before[|before| - 1] == Punct(SEMI)
    ensures Segments(rest)[0] in Segments(before + rest)[1..]
  {
    assert (before + rest)[1..] == before[1..] + rest;
    var r := Segments(before[1..] + rest);
    if before[0] == Punct(SEMI) {
      SegmentInMiddle(before[1..], rest);
      assert Segments(before + rest)[1..] == r;
    } else {
      NotInFirst(before[1..], rest);
      assert Segments(before + rest)[1..] == r[1..];
    }
  }

  /** Two lexemes that differ at most in what a quoted region or a comment contains. */
  predicate Alike(l: Lexeme, m: Lexeme) {
    || l == m
    || (IsQuotedRegion(l) && IsQuotedRegion(m))
    || ((l.LineComment? || l.BlockComment?) && (m.LineComment? || m.BlockComment?))
  }

  predicate IsQuotedRegion(l: Lexeme) {
    l.Quoted? || l.Escaped? || l.Continued? || l.Dollar?
  }

  /** What literals, quoted names, dollar quotes and comments contain does not matter. */
  lemma {:induction false} ContentsDoNotMatter(ls: seq<Lexeme>, ms: seq<Lexeme>)
    requires WellFormed(None, ls) && WellFormed(None, ms)
    requires |ls| == |ms| && forall i :: 0 <= i < |ls| ==> Alike(ls[i], ms[i])
    ensures Sniff(Print(ls)) == Sniff(Print(ms))
  {
    hide WellFormed, AllValid, Strip, NonEmpty, Split;
    StripPrinted(None, ls);
    StripPrinted(None, ms);
    AlikeImages(ls, ms);
  }

  lemma {:induction false} AlikeImages(ls: seq<Lexeme>, ms: seq<Lexeme>)
    requires AllValid(ls) && AllValid(ms)
    requires |ls| == |ms| && forall i :: 0 <= i < |ls| ==> Alike(ls[i], ms[i])
    ensures Images(ls) == Images(ms)
  {
    hide ValidLexeme;
    if ls != [] {
      assert Alike(ls[0], ms[0]);
      AlikeImages(ls[1..], ms[1..]);
    }
  }

  predicate AllTrivia(ls: seq<Lexeme>) {
    forall i :: 0 <= i < |ls| ==> !Substantial(ls[i]) && !ls[i].Word?
  }

  /** Two splits that count the same: statement by statement in the first place, in sum after it. */
  predicate CountAlike(r: seq<seq<Lexeme>>, q: seq<seq<Lexeme>>) {
    && r != [] && q != []
    && Tokens(r[0]) == Tokens(q[0])
    && NonEmptyStatement(r[0]) == NonEmptyStatement(q[0])
    && AnyCopyIn(r[1..]) == AnyCopyIn(q[1..])
    && CountNonEmpty(r[1..]) == CountNonEmpty(q[1..])
  }

  lemma {:induction false} CountAlikeAgrees(r: seq<seq<Lexeme>>, q: seq<seq<Lexeme>>)
    requires CountAlike(r, q)
    ensures AnyCopyIn(r) == AnyCopyIn(q) && CountNonEmpty(r) == CountNonEmpty(q)
  {
    hide Tokens, NonEmptyStatement, AnyCopyIn;
    AnyUnfolds(r);
    AnyUnfolds(q);
  }

  /** White space and comments around a text change nothing. */
  lemma {:induction false} TriviaDoesNotMatter(before: seq<Lexeme>, ls: seq<Lexeme>, after: seq<Lexeme>)
    requires AllTrivia(before) && AllTrivia(after)
    requires WellFormed(None, before + ls + after) && WellFormed(None, ls)
    ensures Sniff(Print(before + ls + after)) == Sniff(Print(ls))
  {
    hide WellFormed, Sniff, Segments, AnyCopyIn, CountNonEmpty, AllTrivia, CountAlike, Print;
    var all := before + (ls + after);
    assert before + ls + after == all;
    SniffsTheLexemes(all);
    SniffsTheLexemes(ls);
    TriviaAround(before, ls, after);
  }

  lemma {:induction false} TriviaAround(before: seq<Lexeme>, ls: seq<Lexeme>, after: seq<Lexeme>)
    requires AllTrivia(before) && AllTrivia(after)
    ensures Verdict(before + (ls + after)) == Verdict(ls)
  {
    hide Segments, AnyCopyIn, CountNonEmpty, AllTrivia, CountAlike;
    TriviaBefore(before, ls + after);
    TriviaAfter(ls, after);
    CountAlikeAgrees(Segments(before + (ls + after)), Segments(ls + after));
    CountAlikeAgrees(Segments(ls + after), Segments(ls));
  }

  lemma {:induction false} TriviaBefore(before: seq<Lexeme>, ls: seq<Lexeme>)
    requires AllTrivia(before)
    ensures CountAlike(Segments(before + ls), Segments(ls))
  {
    hide Substantial, Tokens, NonEmptyStatement, AnyCopyIn, CountNonEmpty;
    if before == [] {
      assert before + ls == ls;
    } else {
      var r := Segments(before[1..] + ls);
      TriviaBefore(before[1..], ls);
      assert (before + ls)[1..] == before[1..] + ls;
      SemicolonIsSubstantial();
      assert Segments(before + ls) == [[before[0]] + r[0]] + r[1..];
      InFront(before[0], r[0]);
    }
  }

  lemma {:induction false} SemicolonIsSubstantial()
    ensures Substantial(Punct(SEMI))
  {
  }

  lemma {:induction false} InFront(l: Lexeme, segment: seq<Lexeme>)
    ensures Tokens([l] + segment) == (if l.Word? then Tokenize(l.w) else []) + Tokens(segment)
    ensures NonEmptyStatement([l] + segment) == (Substantial(l) || NonEmptyStatement(segment))
  {
    hide Substantial, Tokenize;
    var s := [l] + segment;
    assert s[1..] == segment;
    if NonEmptyStatement(segment) {
      var i :| 0 <= i < |segment| && Substantial(segment[i]);
      assert Substantial(s[i + 1]);
    }
    if NonEmptyStatement(s) {
      var i :| 0 <= i < |s| && Substantial(s[i]);
      assert i > 0 ==> segment[i - 1] == s[i];
    }
    assert Substantial(l) ==> Substantial(s[0]);
  }

  lemma {:induction false} TriviaAfter(ls: seq<Lexeme>, after: seq<Lexeme>)
    requires AllTrivia(after)
    ensures CountAlike(Segments(ls + after), Segments(ls))
  {
    hide Substantial, Tokens, NonEmptyStatement, AnyCopyIn, AllTrivia;
    if ls == [] {
      assert ls + after == after + [] == after;
      TriviaBefore(after, []);
    } else {
      TriviaAfter(ls[1..], after);
      assert (ls + after)[1..] == ls[1..] + after;
      var r, q := Segments(ls[1..] + after), Segments(ls[1..]);
      if ls[0] == Punct(SEMI) {
        CountAlikeAgrees(r, q);
        assert ([[]] + r)[1..] == r && ([[]] + q)[1..] == q;
      } else {
        InFront(ls[0], r[0]);
        InFront(ls[0], q[0]);
      }
    }
  }

  const DO: Text := [0x64, 0x6f]

  /** A dollar quote hides whatever it contains: DO with a dollar-quoted body is never a copy-in. */
  lemma {:induction false} DollarQuotesHide(tag: Text, body: Text)
    requires ValidTag(tag) && IndexOf(body + OpenerOf(tag), OpenerOf(tag)) == Some(|body|)
    ensures Sniff(Print([Word(DO), Punct(SPACE), Dollar(tag, body)])) == NotCopyIn
  {
    hide Sniff, Tokenize, IndexOf, ValidTag, OpenerOf;
    var ls := [Word(DO), Punct(SPACE), Dollar(tag, body)];
    DoIsWellFormed(tag, body);
    SniffsTheLexemes(ls);
    SegmentAtStart(ls, []);
    assert ls + [] == ls;
    OneSegment(ls);
    DoIsOneToken();
    assert ls[1..] == [Punct(SPACE), Dollar(tag, body)];
  }

  lemma {:induction false} DoIsOneToken()
    ensures Tokenize(DO) == [DO]
  {
    assert DO[1..][1..] == [] && DO[2..] == [];
    assert WordLen(DO) == 2;
    assert Lower(DO[..2]) == DO;
  }

  lemma {:induction false} DoIsWellFormed(tag: Text, body: Text)
    requires ValidLexeme(Dollar(tag, body))
    ensures WellFormed(None, [Word(DO), Punct(SPACE), Dollar(tag, body)])
  {
    hide IndexOf, ValidTag, OpenerOf;
    var d := Dollar(tag, body);
    var ls := [Word(DO), Punct(SPACE), d];
    assert ls[1..] == [Punct(SPACE), d] && [Punct(SPACE), d][1..] == [d] && [d][1..] == [];
    assert WellFormed(Some(SPACE), [d]);
    assert Print([d]) == PrintLexeme(d) + [];
    assert WellFormed(Some(0x6f), [Punct(SPACE), d]);
    assert Print([Punct(SPACE), d])[0] == SPACE;
    assert Fits(None, Word(DO), Print([Punct(SPACE), d]));
  }

  lemma {:induction false} OneSegment(ls: seq<Lexeme>)
    requires Punct(SEMI) !in ls
    ensures Segments(ls) == [ls]
  {
    if ls != [] {
      OneSegment(ls[1..]);
      assert ls == [ls[0]] + ls[1..];
    }
  }
}
