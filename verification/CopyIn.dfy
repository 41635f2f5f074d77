/**
 * The scanner that looks for COPY ... FROM STDIN in a simple Query (src/duplex/copy-in.ts): what it computes, and the
 * index loops that compute it. Letters are folded over ASCII.
 */
module CopyIn {
  import opened Wrappers
  import opened Text

  const LF: CodeUnit := 0x0a
  const SPACE: CodeUnit := 0x20
  const DOUBLE_QUOTE: CodeUnit := 0x22
  const DOLLAR: CodeUnit := 0x24
  const QUOTE: CodeUnit := 0x27
  const STAR: CodeUnit := 0x2a
  const DASH: CodeUnit := 0x2d
  const SLASH: CodeUnit := 0x2f
  const SEMI: CodeUnit := 0x3b
  const PLACEHOLDER: CodeUnit := 0x3f
  const BACKSLASH: CodeUnit := 0x5c

  const COPY: Text := [0x63, 0x6f, 0x70, 0x79]
  const FROM: Text := [0x66, 0x72, 0x6f, 0x6d]
  const STDIN: Text := [0x73, 0x74, 0x64, 0x69, 0x6e]

  predicate IsE(c: CodeUnit) {
    c == 0x45 || c == 0x65
  }

  /** Units that can continue an identifier. */
  predicate IsGlue(c: CodeUnit) {
    IsAsciiWord(c) || c == DOLLAR || c >= 0x80
  }

  predicate Glued(prev: Option<CodeUnit>) {
    prev.Some? && IsGlue(prev.value)
  }

  predicate Starts(s: Text, c: CodeUnit) {
    s != [] && s[0] == c
  }

  // ---- Lengths of what opens a text ----

  function LineLen(s: Text): (n: nat)
    ensures n <= |s|
  {
    if s == [] || s[0] == LF then 0 else 1 + LineLen(s[1..])
  }

  /** The rest of a block comment that is `depth` levels deep. */
  function BlockLen(s: Text, depth: nat): (n: nat)
    ensures n <= |s|
  {
    if s == [] || depth == 0 then 0
    else if s[0] == SLASH && Starts(s[1..], STAR) then 2 + BlockLen(s[2..], depth + 1)
    else if s[0] == STAR && Starts(s[1..], SLASH) then 2 + BlockLen(s[2..], depth - 1)
    else 1 + BlockLen(s[1..], depth)
  }

  /** The rest of a quoted region with its closing quote, or everything if there is none. */
  function QuotedLen(s: Text, q: CodeUnit, escaping: bool): (n: nat)
    ensures n <= |s|
  {
    if s == [] then 0
    else if escaping && s[0] == BACKSLASH then
      if |s| == 1 then 1 else 2 + QuotedLen(s[2..], q, escaping)
    else if s[0] == q then
      if Starts(s[1..], q) then 2 + QuotedLen(s[2..], q, escaping) else 1
    else 1 + QuotedLen(s[1..], q, escaping)
  }

  predicate IsWordStart(c: CodeUnit) {
    IsAsciiWord(c) && !(0x30 <= c <= 0x39)
  }

  function WordLen(s: Text): (n: nat)
    ensures n <= |s| && (forall i :: 0 <= i < n ==> IsAsciiWord(s[i])) && (n < |s| ==> !IsAsciiWord(s[n]))
  {
    if s != [] && IsAsciiWord(s[0]) then 1 + WordLen(s[1..]) else 0
  }

  /** The opener of a dollar quote, both dollar signs included. */
  function Opener(s: Text): (r: Option<Text>)
    ensures r.Some? ==> 2 <= |r.value| <= |s| && r.value == s[..|r.value|]
  {
    if !Starts(s, DOLLAR) then None else
    var n := WordLen(s[1..]);
    if n > 0 && !IsWordStart(s[1]) then None
    else if Starts(s[1 + n..], DOLLAR) then Some(s[..n + 2])
    else None
  }

  /** Where `pattern` occurs first. */
  function IndexOf(s: Text, pattern: Text): (r: Option<nat>)
    ensures r.Some? ==> r.value + |pattern| <= |s| && pattern <= s[r.value..]
    ensures r.Some? ==> forall j :: 0 <= j < r.value ==> !(pattern <= s[j..])
    ensures r == None ==> forall j :: 0 <= j <= |s| ==> !(pattern <= s[j..])
  {
    if pattern <= s then Some(0)
    else if s == [] then None
    else
      var r := IndexOf(s[1..], pattern);
      assert forall j :: 0 < j <= |s| ==> s[j..] == s[1..][j - 1..];
      if r.Some? then Some(1 + r.value) else None
  }

  function DollarLen(s: Text, opener: Text): (n: nat)
    requires opener <= s
    ensures n <= |s| && (opener != [] ==> n > 0)
  {
    match IndexOf(s[|opener|..], opener)
    case Some(j) => |opener| + j + |opener|
    case None => |s|
  }

  // ---- Stripping ----

  predicate OpensLine(s: Text) {
    Starts(s, DASH) && Starts(s[1..], DASH)
  }

  predicate OpensBlock(s: Text) {
    Starts(s, SLASH) && Starts(s[1..], STAR)
  }

  predicate OpensEscaped(prev: Option<CodeUnit>, s: Text) {
    s != [] && IsE(s[0]) && Starts(s[1..], QUOTE) && !Glued(prev)
  }

  predicate OpensDollar(prev: Option<CodeUnit>, s: Text) {
    Starts(s, DOLLAR) && !Glued(prev) && Opener(s).Some?
  }

  /** How much of `s` the scanner takes next, after the unit `prev`, and what it puts in its place. */
  function Head(prev: Option<CodeUnit>, s: Text): (h: (nat, Text))
    requires s != []
    ensures 1 <= h.0 <= |s|
  {
    if OpensLine(s) then (2 + LineLen(s[2..]), [SPACE])
    else if OpensBlock(s) then (2 + BlockLen(s[2..], 1), [SPACE])
    else if s[0] == QUOTE then (1 + QuotedLen(s[1..], QUOTE, false), [PLACEHOLDER])
    else if OpensEscaped(prev, s) then (2 + QuotedLen(s[2..], QUOTE, true), [PLACEHOLDER])
    else if s[0] == DOUBLE_QUOTE then (1 + QuotedLen(s[1..], DOUBLE_QUOTE, false), [PLACEHOLDER])
    else if OpensDollar(prev, s) then (DollarLen(s, Opener(s).value), [PLACEHOLDER])
    else (1, [s[0]])
  }

  /** Quoted regions become placeholders, comments become spaces. */
  function Strip(prev: Option<CodeUnit>, s: Text): Text
    decreases |s|
  {
    if s == [] then [] else
    var (n, image) := Head(prev, s);
    image + Strip(Some(s[n - 1]), s[n..])
  }

  // ---- Statements and words ----

  function Split(s: Text): (r: seq<Text>)
    ensures r != []
  {
    if s == [] then [[]] else
    var r := Split(s[1..]);
    if s[0] == SEMI then [[]] + r else [[s[0]] + r[0]] + r[1..]
  }

  function TrimStart(s: Text): Text {
    if s != [] && IsJsSpace(s[0]) then TrimStart(s[1..]) else s
  }

  function TrimEnd(s: Text): Text {
    if s != [] && IsJsSpace(s[|s| - 1]) then TrimEnd(s[..|s| - 1]) else s
  }

  function Trim(s: Text): Text {
    TrimEnd(TrimStart(s))
  }

  /** The statements with something in them, trimmed. */
  function NonEmpty(segments: seq<Text>): seq<Text> {
    if segments == [] then [] else
    (if Trim(segments[0]) != [] then [Trim(segments[0])] else []) + NonEmpty(segments[1..])
  }

  /** The word tokens, in lower case. */
  function Tokenize(s: Text): seq<Text> {
    if s == [] then []
    else if IsWordStart(s[0]) then [Lower(s[..WordLen(s)])] + Tokenize(s[WordLen(s)..])
    else Tokenize(s[1..])
  }

  predicate FromStdinAt(tokens: seq<Text>, i: nat) {
    i + 1 < |tokens| && tokens[i] == FROM && tokens[i + 1] == STDIN
  }

  /** COPY first, and FROM STDIN somewhere after it. */
  predicate IsCopyIn(tokens: seq<Text>) {
    tokens != [] && tokens[0] == COPY && exists i :: 1 <= i < |tokens| && FromStdinAt(tokens, i)
  }

  predicate HasCopyIn(statements: seq<Text>) {
    exists k :: 0 <= k < |statements| && IsCopyIn(Tokenize(statements[k]))
  }

  datatype CopyInVerdict = Capture | RejectMulti | NotCopyIn

  function Statements(text: Text): seq<Text> {
    NonEmpty(Split(Strip(None, text)))
  }

  function Sniff(text: Text): CopyInVerdict {
    if !HasCopyIn(Statements(text)) then NotCopyIn
    else if |Statements(text)| == 1 then Capture
    else RejectMulti
  }

  // ---- The scanner as the source has it ----

  function Prev(text: Text, i: nat): Option<CodeUnit> {
    if 0 < i <= |text| then Some(text[i - 1]) else None
  }

  method SkipLineComment(text: Text, from: nat) returns (i: nat)
    requires from <= |text|
    ensures i == from + LineLen(text[from..])
  {
    i := from;
    while i < |text| && text[i] != LF
      invariant from <= i <= |text|
      invariant from + LineLen(text[from..]) == i + LineLen(text[i..])
    {
      assert text[i..][1..] == text[i + 1..];
      i := i + 1;
    }
  }

  method SkipBlockComment(text: Text, from: nat) returns (i: nat)
    requires from <= |text|
    ensures i == from + BlockLen(text[from..], 1)
  {
    hide BlockLen;
    var depth := 1;
    i := from;
    while i < |text| && depth > 0
      invariant from <= i <= |text|
      invariant from + BlockLen(text[from..], 1) == i + BlockLen(text[i..], depth)
    {
      BlockLenUnfolds(text, i, depth);
      if text[i] == SLASH && i + 1 < |text| && text[i + 1] == STAR {
        depth := depth + 1;
        i := i + 2;
      } else if text[i] == STAR && i + 1 < |text| && text[i + 1] == SLASH {
        depth := depth - 1;
        i := i + 2;
      } else {
        i := i + 1;
      }
    }
    BlockLenUnfolds(text, i, depth);
  }

  lemma {:induction false} BlockLenUnfolds(text: Text, i: nat, depth: nat)
    requires i <= |text|
    ensures BlockLen(text[i..], depth) ==
      if i == |text| || depth == 0 then 0
      else if text[i] == SLASH && i + 1 < |text| && text[i + 1] == STAR then 2 + BlockLen(text[i + 2..], depth + 1)
      else if text[i] == STAR && i + 1 < |text| && text[i + 1] == SLASH then 2 + BlockLen(text[i + 2..], depth - 1)
      else 1 + BlockLen(text[i + 1..], depth)
  {
    var s := text[i..];
    if s != [] {
      assert s[1..] == text[i + 1..];
      assert |s| > 1 ==> s[2..] == text[i + 2..];
    }
  }

  /** Where a quoted region ends, from index `i`; a backslash may have jumped over the end of the text. */
  function QuotedEnd(text: Text, i: nat, q: CodeUnit, escaping: bool): nat {
    if i <= |text| then i + QuotedLen(text[i..], q, escaping) else |text|
  }

  lemma {:induction false} QuotedEndUnfolds(text: Text, i: nat, q: CodeUnit, escaping: bool)
    requires i < |text|
    ensures QuotedEnd(text, i, q, escaping) ==
      if escaping && text[i] == BACKSLASH then QuotedEnd(text, i + 2, q, escaping)
      else if text[i] == q then
        if i + 1 < |text| && text[i + 1] == q then QuotedEnd(text, i + 2, q, escaping) else i + 1
      else QuotedEnd(text, i + 1, q, escaping)
  {
    var s := text[i..];
    assert s[1..] == text[i + 1..];
    assert |s| > 1 ==> s[2..] == text[i + 2..];
  }

  method SkipQuoted(text: Text, from: nat, q: CodeUnit, escaping: bool) returns (i: nat)
    requires from <= |text|
    ensures i == QuotedEnd(text, from, q, escaping) || (i == |text| + 1 && QuotedEnd(text, from, q, escaping) == |text|)
  {
    i := from;
    while i < |text|
      invariant from <= i <= |text| + 1
      invariant QuotedEnd(text, from, q, escaping) == QuotedEnd(text, i, q, escaping)
    {
      QuotedEndUnfolds(text, i, q, escaping);
      if escaping && text[i] == BACKSLASH {
        i := i + 2;
        continue;
      }
      if text[i] == q {
        if i + 1 < |text| && text[i + 1] == q {
          i := i + 2;
          continue;
        }
        return i + 1;
      }
      i := i + 1;
    }
  }

  /** The region or unit at index `i`: where it ends and what stands for it. */
  method ScanOne(text: Text, i: nat) returns (end: nat, image: CodeUnit)
    requires i < |text|
    ensures var (n, stripped) := Head(Prev(text, i), text[i..]);
      stripped == [image] && (end == i + n || (end > |text| && i + n == |text|))
  {
    hide LineLen, BlockLen, QuotedLen, DollarLen, Opener, IsGlue;
    ghost var s := text[i..];
    var ch := text[i];
    var more := i + 1 < |text|;
    assert s[1..] == text[i + 1..];
    assert more ==> s[2..] == text[i + 2..] && s[1] == text[i + 1];
    if ch == DASH && more && text[i + 1] == DASH {
      end := SkipLineComment(text, i + 2);
      return end, SPACE;
    }
    if ch == SLASH && more && text[i + 1] == STAR {
      end := SkipBlockComment(text, i + 2);
      return end, SPACE;
    }
    if ch == QUOTE || (IsE(ch) && more && text[i + 1] == QUOTE && !Glued(Prev(text, i))) {
      var escaping := ch != QUOTE;
      end := SkipQuoted(text, i + if escaping then 2 else 1, QUOTE, escaping);
      return end, PLACEHOLDER;
    }
    if ch == DOUBLE_QUOTE {
      end := SkipQuoted(text, i + 1, DOUBLE_QUOTE, false);
      return end, PLACEHOLDER;
    }
    if ch == DOLLAR && !Glued(Prev(text, i)) {
      var opener := Opener(text[i..]);
      if opener.Some? {
        return i + DollarLen(text[i..], opener.value), PLACEHOLDER;
      }
    }
    return i + 1, ch;
  }

  /** What is still to be stripped from index `i` on. */
  function Rest(text: Text, i: nat): Text {
    if i < |text| then Strip(Prev(text, i), text[i..]) else []
  }

  lemma {:induction false} RestUnfolds(text: Text, i: nat, n: nat, image: Text)
    requires i < |text| && Head(Prev(text, i), text[i..]) == (n, image)
    ensures i + n <= |text| && Rest(text, i) == image + Rest(text, i + n)
  {
    hide Head;
    var s := text[i..];
    assert s[n..] == text[i + n..] && s[n - 1] == text[i + n - 1];
    assert Strip(Some(s[n - 1]), s[n..]) == Rest(text, i + n);
  }

  method StripQuotedAndComments(text: Text) returns (out: Text)
    ensures out == Strip(None, text)
  {
    hide Head, Strip, Rest;
    out := [];
    var i := 0;
    StripNothing(text);
    while i < |text|
      invariant Strip(None, text) == out + Rest(text, i)
      decreases |text| - i
    {
      var (n, stripped) := Head(Prev(text, i), text[i..]);
      RestUnfolds(text, i, n, stripped);
      var end, image := ScanOne(text, i);
      Regroup(out, stripped, Rest(text, i + n));
      out := out + [image];
      i := end;
    }
  }

  lemma {:induction false} StripNothing(text: Text)
    ensures Rest(text, 0) == Strip(None, text) && forall i: nat :: i >= |text| ==> Rest(text, i) == []
  {
    assert text[0..] == text;
  }

  method IsCopyInStatement(statement: Text) returns (b: bool)
    ensures b == IsCopyIn(Tokenize(statement))
  {
    hide Tokenize;
    var tokens := Tokenize(statement);
    if tokens == [] || tokens[0] != COPY { return false; }
    var i := 1;
    while i < |tokens| - 1
      invariant 1 <= i && forall j :: 1 <= j < i ==> !FromStdinAt(tokens, j)
    {
      if tokens[i] == FROM && tokens[i + 1] == STDIN {
        assert FromStdinAt(tokens, i);
        return true;
      }
      i := i + 1;
    }
    return false;
  }

  method SniffCopyIn(text: Text) returns (verdict: CopyInVerdict)
    ensures verdict == Sniff(text)
  {
    hide Tokenize, NonEmpty, IsCopyIn;
    var stripped := StripQuotedAndComments(text);
    var statements := NonEmpty(Split(stripped));
    var some := false;
    for k := 0 to |statements|
      invariant some <==> exists j :: 0 <= j < k && IsCopyIn(Tokenize(statements[j]))
    {
      var copies := IsCopyInStatement(statements[k]);
      some := some || copies;
    }
    if !some { return NotCopyIn; }
    return if |statements| == 1 then Capture else RejectMulti;
  }
}
