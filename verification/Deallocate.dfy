/**
 * The decoder of statement-cache invalidation commands (src/pool/deallocate.ts) against its grammar: trees that print
 * to a text, and a scanner that must find the tree of exactly the texts that have one.
 */
module Deallocate {
  import opened Wrappers
  import opened Text

  const QUOTE: CodeUnit := 0x22
  const SEMI: CodeUnit := 0x3b

  const DISCARD: Text := [0x44, 0x49, 0x53, 0x43, 0x41, 0x52, 0x44]
  const DEALLOCATE: Text := [0x44, 0x45, 0x41, 0x4c, 0x4c, 0x4f, 0x43, 0x41, 0x54, 0x45]
  const PREPARE: Text := [0x50, 0x52, 0x45, 0x50, 0x41, 0x52, 0x45]
  const ALL: Text := [0x41, 0x4c, 0x4c]
  const ALL_FOLDED: Text := [0x61, 0x6c, 0x6c]

  predicate IsWs(c: CodeUnit) {
    c == 0x20 || c == 0x09 || c == 0x0a || c == 0x0d || c == 0x0c || c == 0x0b
  }

  predicate IsIdentStart(c: CodeUnit) {
    0x41 <= c <= 0x5a || 0x61 <= c <= 0x7a || c == 0x5f || c >= 0x80
  }

  predicate IsIdentCont(c: CodeUnit) {
    IsIdentStart(c) || 0x30 <= c <= 0x39 || c == 0x24
  }

  function UpperUnit(c: CodeUnit): CodeUnit {
    if 0x61 <= c <= 0x7a then c - 0x20 else c
  }

  /** `word` is `keyword` in some ASCII casing. */
  predicate Spells(word: Text, keyword: Text) {
    |word| == |keyword| && forall i :: 0 <= i < |word| ==> UpperUnit(word[i]) == keyword[i]
  }

  predicate AllWs(s: Text) {
    forall i :: 0 <= i < |s| ==> IsWs(s[i])
  }

  predicate AllCont(s: Text) {
    forall i :: 0 <= i < |s| ==> IsIdentCont(s[i])
  }

  // ---- Grammar ----

  datatype Invalidation = AllStatements | Statement(name: Text)

  datatype Target = All(word: Text) | Regular(word: Text) | Delimited(name: Text)

  datatype Trailer = Trailer(space: Text, semicolon: Option<Text>)

  datatype Prepare = Prepare(word: Text, separator: Text)

  datatype Command =
    | Discard(lead: Text, word: Text, gap: Text, all: Text, trailer: Trailer)
    | Deallocate(lead: Text, word: Text, separator: Text, prepare: Option<Prepare>, target: Target, trailer: Trailer)

  /** Every quote of `name` twice. */
  function DoubleQuotes(name: Text): Text {
    if name == [] then [] else (if name[0] == 0x22 then [0x22, 0x22] else [name[0]]) + DoubleQuotes(name[1..])
  }

  function QuoteIdent(name: Text): Text {
    [0x22] + DoubleQuotes(name) + [0x22]
  }

  function PrintTarget(t: Target): Text {
    if t.Delimited? then QuoteIdent(t.name) else t.word
  }

  function PrintTrailer(t: Trailer): Text {
    t.space + match t.semicolon { case Some(space) => [0x3b] + space case None => [] }
  }

  function PrintPrepared(p: Option<Prepare>, t: Target, trailer: Trailer): Text {
    match p
    case Some(p) => p.word + (p.separator + (PrintTarget(t) + PrintTrailer(trailer)))
    case None => PrintTarget(t) + PrintTrailer(trailer)
  }

  function Print(c: Command): Text {
    match c
    case Discard(lead, word, gap, all, trailer) => lead + (word + (gap + (all + PrintTrailer(trailer))))
    case Deallocate(lead, word, separator, prepare, target, trailer) =>
      lead + (word + (separator + PrintPrepared(prepare, target, trailer)))
  }

  predicate ValidTarget(t: Target) {
    match t
    case All(word) => Lower(word) == ALL_FOLDED
    case Regular(word) => word != [] && IsIdentStart(word[0]) && AllCont(word) && Lower(word) != ALL_FOLDED
    case Delimited(name) => name != []
  }

  predicate ValidTrailer(t: Trailer) {
    AllWs(t.space) && (t.semicolon.Some? ==> AllWs(t.semicolon.value))
  }

  /** White space, or nothing before a delimited identifier. */
  predicate Separates(separator: Text, t: Target, adjacent: bool) {
    AllWs(separator) && (separator == [] ==> adjacent && t.Delimited?)
  }

  predicate Valid(c: Command) {
    && AllWs(c.lead)
    && ValidTrailer(c.trailer)
    && match c {
         case Discard(_, word, gap, all, _) => Spells(word, DISCARD) && AllWs(gap) && gap != [] && Spells(all, ALL)
         case Deallocate(_, word, separator, prepare, target, _) =>
           && Spells(word, DEALLOCATE)
           && Separates(separator, target, prepare.None?)
           && ValidTarget(target)
           && (prepare.Some? ==> Spells(prepare.value.word, PREPARE)
                                 && Separates(prepare.value.separator, target, true))
       }
  }

  /** What a target denotes: words are folded, delimited names are kept. */
  function Denoted(t: Target): Invalidation {
    match t
    case All(_) => AllStatements
    case Regular(word) => Statement(Lower(word))
    case Delimited(name) => Statement(name)
  }

  /** What a command invalidates. */
  function Meaning(c: Command): Invalidation {
    if c.Discard? then AllStatements else Denoted(c.target)
  }

  // ---- The grammar, spelled out ----

  /** Space, tab, line feed, vertical tab, form feed, carriage return. */
  predicate IsSpace(c: CodeUnit) {
    c in {0x20, 0x09, 0x0a, 0x0b, 0x0c, 0x0d}
  }

  predicate AllSpace(s: Text) {
    forall i :: 0 <= i < |s| ==> IsSpace(s[i])
  }

  predicate IsBetween(c: CodeUnit, from: char, to: char) {
    from as int <= c as int <= to as int
  }

  /** Letters, `_` and everything beyond ASCII. */
  predicate OpensName(c: CodeUnit) {
    IsBetween(c, 'A', 'Z') || IsBetween(c, 'a', 'z') || IsBetween(c, '_', '_') || c >= 0x80
  }

  predicate ContinuesName(c: CodeUnit) {
    OpensName(c) || IsBetween(c, '0', '9') || IsBetween(c, '$', '$')
  }

  /** `word` is the upper-case `keyword` in some casing of its letters. */
  predicate Cased(word: Text, keyword: string) {
    |word| == |keyword| &&
    forall i :: 0 <= i < |word| ==> word[i] as int == keyword[i] as int || word[i] as int == keyword[i] as int + 32
  }

  /** The word with its ASCII letters in lower case. */
  function Folded(word: Text): (t: Text)
    ensures |t| == |word|
  {
    seq(|word|, i requires 0 <= i < |word| => if IsBetween(word[i], 'A', 'Z') then word[i] + 32 else word[i])
  }

  predicate IsTarget(t: Target) {
    match t
    case All(word) => Cased(word, "ALL")
    case Regular(word) =>
      && word != [] && OpensName(word[0]) && (forall i :: 0 <= i < |word| ==> ContinuesName(word[i]))
      && !Cased(word, "ALL")
    case Delimited(name) => name != []
  }

  /** White space, perhaps with one semicolon in it. */
  predicate IsTrail(t: Trailer) {
    AllSpace(t.space) && (t.semicolon.Some? ==> AllSpace(t.semicolon.value))
  }

  /** The commands: words in any casing, apart by white space, which a delimited name does not need. */
  predicate IsCommand(c: Command) {
    && AllSpace(c.lead) && IsTrail(c.trailer)
    && match c {
         case Discard(_, word, gap, all, _) =>
           Cased(word, "DISCARD") && AllSpace(gap) && gap != [] && Cased(all, "ALL")
         case Deallocate(_, word, separator, prepare, target, _) =>
           && Cased(word, "DEALLOCATE") && IsTarget(target)
           && AllSpace(separator) && (separator == [] ==> prepare == None && target.Delimited?)
           && (prepare.Some? ==>
                 && Cased(prepare.value.word, "PREPARE") && AllSpace(prepare.value.separator)
                 && (prepare.value.separator == [] ==> target.Delimited?))
       }
  }

  /** What a command invalidates: everything, or the name it has, folded unless it is delimited. */
  function Invalidates(c: Command): Invalidation {
    if c.Discard? || c.target.All? then AllStatements
    else if c.target.Regular? then Statement(Folded(c.target.word))
    else Statement(c.target.name)
  }

  lemma {:induction false} UnitsSpelledOut(c: CodeUnit)
    ensures IsSpace(c) <==> IsWs(c)
    ensures OpensName(c) <==> IsIdentStart(c)
    ensures ContinuesName(c) <==> IsIdentCont(c)
  {
  }

  lemma {:induction false} CasedIff(word: Text, keyword: string)
    requires forall i :: 0 <= i < |keyword| ==> 'A' <= keyword[i] <= 'Z'
    ensures Cased(word, keyword) <==> Spells(word, Ascii(keyword))
  {
    if Cased(word, keyword) {
      forall i | 0 <= i < |word| ensures UpperUnit(word[i]) == Ascii(keyword)[i] {
        assert 'A' <= keyword[i] <= 'Z';
      }
    }
    if Spells(word, Ascii(keyword)) {
      forall i | 0 <= i < |word|
        ensures word[i] as int == keyword[i] as int || word[i] as int == keyword[i] as int + 32
      {
        assert UpperUnit(word[i]) == Ascii(keyword)[i] && 'A' <= keyword[i] <= 'Z';
      }
    }
  }

  lemma {:induction false} KeywordsSpelledOut()
    ensures Ascii("DISCARD") == DISCARD && Ascii("DEALLOCATE") == DEALLOCATE && Ascii("PREPARE") == PREPARE
    ensures Ascii("ALL") == ALL
  {
  }

  lemma {:induction false} FoldedIsLower(word: Text)
    ensures Folded(word) == Lower(word)
    ensures Cased(word, "ALL") <==> Lower(word) == ALL_FOLDED
  {
    if Lower(word) == ALL_FOLDED {
      forall i | 0 <= i < |word|
        ensures word[i] as int == "ALL"[i] as int || word[i] as int == "ALL"[i] as int + 32
      {
        assert LowerUnit(word[i]) == Lower(word)[i] == ALL_FOLDED[i];
      }
    }
  }

  lemma {:induction false} TargetSpelledOut(t: Target)
    ensures IsTarget(t) <==> ValidTarget(t)
  {
    hide IsIdentStart, IsIdentCont, OpensName, ContinuesName, Lower, Cased;
    forall c { UnitsSpelledOut(c); }
    if !t.Delimited? { FoldedIsLower(t.word); }
  }

  lemma {:induction false} SpaceSpelledOut(s: Text)
    ensures AllSpace(s) <==> AllWs(s)
  {
    hide IsWs, IsSpace;
    forall c { UnitsSpelledOut(c); }
  }

  lemma {:induction false} TrailSpelledOut(t: Trailer)
    ensures IsTrail(t) <==> ValidTrailer(t)
  {
    hide AllSpace, AllWs;
    forall s { SpaceSpelledOut(s); }
  }

  /** The grammar in terms of the scanner's predicates. */
  lemma {:induction false} CommandSpelledOut(c: Command)
    ensures IsCommand(c) <==> Valid(c)
    ensures Invalidates(c) == Meaning(c)
  {
    hide AllSpace, AllWs, IsTarget, ValidTarget, IsTrail, ValidTrailer, Cased, Spells, Folded, Lower, Ascii;
    forall s { SpaceSpelledOut(s); }
    TrailSpelledOut(c.trailer);
    KeywordsSpelledOut();
    CasedIff(c.word, "DISCARD");
    CasedIff(c.word, "DEALLOCATE");
    if c.Discard? {
      CasedIff(c.all, "ALL");
    } else {
      TargetSpelledOut(c.target);
      if c.prepare.Some? { CasedIff(c.prepare.value.word, "PREPARE"); }
      if c.target.Regular? { FoldedIsLower(c.target.word); }
    }
  }

  // ---- Scanner ----

  function WsLen(s: Text): (n: nat)
    ensures n <= |s| && (forall i :: 0 <= i < n ==> IsWs(s[i])) && (n < |s| ==> !IsWs(s[n]))
  {
    if s != [] && IsWs(s[0]) then 1 + WsLen(s[1..]) else 0
  }

  /** `keyword` opens `s`, in any casing, and ends on a token boundary. */
  predicate KeywordAt(s: Text, keyword: Text) {
    && |keyword| <= |s|
    && Spells(s[..|keyword|], keyword)
    && (|keyword| < |s| ==> !IsIdentCont(s[|keyword|]))
  }

  function ContLen(s: Text): (n: nat)
    ensures n <= |s| && (forall i :: 0 <= i < n ==> IsIdentCont(s[i])) && (n < |s| ==> !IsIdentCont(s[n]))
  {
    if s != [] && IsIdentCont(s[0]) then 1 + ContLen(s[1..]) else 0
  }

  /** A scan that already has `name` from the first `k` units. */
  function Resumed(name: Text, k: nat, r: Option<(Text, nat)>): Option<(Text, nat)> {
    match r
    case Some((rest, n)) => Some((name + rest, k + n))
    case None => None
  }

  /** What stands before the closing quote, and the length of its spelling with that quote. */
  function Unquote(s: Text): (r: Option<(Text, nat)>)
    ensures r.Some? ==> r.value.1 <= |s|
  {
    if s == [] then None
    else if s[0] == QUOTE && (|s| == 1 || s[1] != QUOTE) then Some(([], 1))
    else
      var k := if s[0] == QUOTE then 2 else 1;
      Resumed([s[0]], k, Unquote(s[k..]))
  }

  /** The target that opens `s`, and its length. */
  function TargetAt(s: Text): (r: Option<(Target, nat)>)
    ensures r.Some? ==> r.value.1 <= |s|
  {
    if s == [] then None
    else if s[0] == QUOTE then
      match Unquote(s[1..])
      case None => None
      case Some((name, n)) => if name == [] then None else Some((Delimited(name), 1 + n))
    else if !IsIdentStart(s[0]) then None
    else
      var word := s[..ContLen(s)];
      Some((if Lower(word) == ALL_FOLDED then All(word) else Regular(word), |word|))
  }

  function TrailerOf(s: Text): Option<Trailer> {
    var n := WsLen(s);
    if n == |s| then Some(Trailer(s, None))
    else if s[n] == SEMI && AllWs(s[n + 1..]) then Some(Trailer(s[..n], Some(s[n + 1..])))
    else None
  }

  /** The length of the separator after a command word. */
  function SeparatorLen(s: Text): (n: Option<nat>)
    ensures n.Some? ==> n.value <= |s|
  {
    if WsLen(s) > 0 then Some(WsLen(s))
    else if s != [] && s[0] == QUOTE then Some(0)
    else None
  }

  /** A target and a trailer that make up `s`. */
  function TargetAndTrailer(s: Text): Option<(Target, Trailer)> {
    match TargetAt(s)
    case None => None
    case Some((target, n)) =>
      match TrailerOf(s[n..])
      case None => None
      case Some(trailer) => Some((target, trailer))
  }

  /** PREPARE as a keyword, if a target and a trailer follow it. */
  function Prepared(s: Text): Option<(Prepare, Target, Trailer)> {
    if !KeywordAt(s, PREPARE) then None else
    var rest := s[|PREPARE|..];
    match SeparatorLen(rest)
    case None => None
    case Some(n) =>
      match TargetAndTrailer(rest[n..])
      case None => None
      case Some((target, trailer)) => Some((Prepare(s[..|PREPARE|], rest[..n]), target, trailer))
  }

  function ParseDiscard(lead: Text, s: Text): Option<Command>
    requires KeywordAt(s, DISCARD)
  {
    var rest := s[|DISCARD|..];
    var gap := WsLen(rest);
    if gap == 0 || !KeywordAt(rest[gap..], ALL) then None else
    match TrailerOf(rest[gap..][|ALL|..])
    case None => None
    case Some(trailer) => Some(Discard(lead, s[..|DISCARD|], rest[..gap], rest[gap..][..|ALL|], trailer))
  }

  function ParseDeallocate(lead: Text, s: Text): Option<Command>
    requires KeywordAt(s, DEALLOCATE)
  {
    var rest := s[|DEALLOCATE|..];
    match SeparatorLen(rest)
    case None => None
    case Some(n) =>
      match Prepared(rest[n..])
      case Some((prepare, target, trailer)) =>
        Some(Deallocate(lead, s[..|DEALLOCATE|], rest[..n], Some(prepare), target, trailer))
      case None =>
        match TargetAndTrailer(rest[n..])
        case None => None
        case Some((target, trailer)) => Some(Deallocate(lead, s[..|DEALLOCATE|], rest[..n], None, target, trailer))
  }

  function Parse(text: Text): Option<Command> {
    var lead, s := text[..WsLen(text)], text[WsLen(text)..];
    if KeywordAt(s, DISCARD) then ParseDiscard(lead, s)
    else if KeywordAt(s, DEALLOCATE) then ParseDeallocate(lead, s)
    else None
  }

  // ---- The scanner finds only trees of the text ----

  lemma {:induction false} UnquoteIsSound(s: Text)
    requires Unquote(s).Some?
    ensures var (name, n) := Unquote(s).value; DoubleQuotes(name) + [QUOTE] == s[..n]
  {
    var (name, n) := Unquote(s).value;
    if name != [] {
      var k := if s[0] == QUOTE then 2 else 1;
      UnquoteIsSound(s[k..]);
      assert name[1..] == Unquote(s[k..]).value.0;
      assert s[..n] == s[..k] + s[k..][..n - k];
    } else {
      assert s[0] == QUOTE && n == 1;
    }
  }

  lemma {:induction false} TargetIsSound(s: Text)
    requires TargetAt(s).Some?
    ensures ValidTarget(TargetAt(s).value.0) && PrintTarget(TargetAt(s).value.0) == s[..TargetAt(s).value.1]
  {
    hide Lower, Unquote, DoubleQuotes, ContLen;
    if s[0] == QUOTE {
      UnquoteIsSound(s[1..]);
      var (name, n) := Unquote(s[1..]).value;
      assert s[..1 + n] == [QUOTE] + s[1..][..n];
    } else {
      var n := ContLen(s);
      assert n > 0 && s[..n][0] == s[0];
    }
  }

  lemma {:induction false} TrailerIsSound(s: Text)
    requires TrailerOf(s).Some?
    ensures ValidTrailer(TrailerOf(s).value) && PrintTrailer(TrailerOf(s).value) == s
  {
    var n := WsLen(s);
    assert s[..|s|] == s;
    if n < |s| {
      assert s == s[..n] + [s[n]] + s[n + 1..];
    }
  }

  lemma {:induction false} TailIsSound(s: Text)
    requires TargetAndTrailer(s).Some?
    ensures var (target, trailer) := TargetAndTrailer(s).value;
      ValidTarget(target) && ValidTrailer(trailer) && PrintTarget(target) + PrintTrailer(trailer) == s
      && (s[0] == QUOTE ==> target.Delimited?)
  {
    hide ValidTarget, ValidTrailer, PrintTarget, PrintTrailer, TrailerOf;
    TargetIsSound(s);
    TrailerIsSound(s[TargetAt(s).value.1..]);
  }

  lemma {:induction false} PreparedIsSound(s: Text)
    requires Prepared(s).Some?
    ensures var (prepare, target, trailer) := Prepared(s).value;
      ValidTarget(target) && ValidTrailer(trailer) && PrintPrepared(Some(prepare), target, trailer) == s
      && Spells(prepare.word, PREPARE) && Separates(prepare.separator, target, true)
  {
    hide ValidTarget, ValidTrailer, PrintTarget, PrintTrailer, TargetAndTrailer;
    var rest := s[|PREPARE|..];
    var n := SeparatorLen(rest).value;
    TailIsSound(rest[n..]);
    assert s == s[..|PREPARE|] + (rest[..n] + rest[n..]);
  }

  /** Every tree the scanner returns is a tree of the text. */
  lemma {:induction false} ParseIsSound(text: Text)
    ensures Parse(text).Some? ==> Valid(Parse(text).value) && Print(Parse(text).value) == text
  {
    hide Valid, Print, KeywordAt, ParseDiscard, ParseDeallocate;
    var lead, s := text[..WsLen(text)], text[WsLen(text)..];
    assert text == lead + s;
    if KeywordAt(s, DISCARD) {
      DiscardIsSound(lead, s);
    } else if KeywordAt(s, DEALLOCATE) {
      DeallocateIsSound(lead, s);
    }
  }

  lemma {:induction false} DiscardIsSound(lead: Text, s: Text)
    requires KeywordAt(s, DISCARD) && AllWs(lead)
    ensures ParseDiscard(lead, s).Some? ==>
      Valid(ParseDiscard(lead, s).value) && Print(ParseDiscard(lead, s).value) == lead + s
  {
    hide ValidTrailer, PrintTrailer, TrailerOf, ValidTarget, PrintPrepared;
    if ParseDiscard(lead, s).Some? {
      var rest := s[|DISCARD|..];
      var gap := WsLen(rest);
      TrailerIsSound(rest[gap..][|ALL|..]);
      assert s == s[..|DISCARD|] + (rest[..gap] + (rest[gap..][..|ALL|] + rest[gap..][|ALL|..]));
    }
  }

  lemma {:induction false} DeallocateIsSound(lead: Text, s: Text)
    requires KeywordAt(s, DEALLOCATE) && AllWs(lead)
    ensures ParseDeallocate(lead, s).Some? ==>
      Valid(ParseDeallocate(lead, s).value) && Print(ParseDeallocate(lead, s).value) == lead + s
  {
    hide ValidTarget, ValidTrailer, PrintTarget, PrintTrailer, TargetAndTrailer, Prepared;
    if ParseDeallocate(lead, s).Some? {
      var rest := s[|DEALLOCATE|..];
      var n := SeparatorLen(rest).value;
      assert s == s[..|DEALLOCATE|] + (rest[..n] + rest[n..]);
      if Prepared(rest[n..]).Some? {
        PreparedIsSound(rest[n..]);
        assert UpperUnit(rest[n..][..|PREPARE|][0]) == PREPARE[0];
      } else {
        TailIsSound(rest[n..]);
      }
    }
  }

  // ---- The scanner finds every tree ----

  /** No white space can extend the separator before `rest`. */
  predicate EndsWs(rest: Text) {
    rest == [] || !IsWs(rest[0])
  }

  /** No identifier can run on into `rest`. */
  predicate EndsWord(rest: Text) {
    rest == [] || !IsIdentCont(rest[0])
  }

  lemma {:induction false} WsLenPrinted(ws: Text, rest: Text)
    requires AllWs(ws) && EndsWs(rest)
    ensures WsLen(ws + rest) == |ws| && (ws + rest)[..|ws|] == ws && (ws + rest)[|ws|..] == rest
  {
    var s := ws + rest;
    assert forall i :: 0 <= i < |ws| ==> s[i] == ws[i];
    assert rest != [] ==> s[|ws|] == rest[0];
  }

  lemma {:induction false} ContLenPrinted(word: Text, rest: Text)
    requires AllCont(word) && EndsWord(rest)
    ensures ContLen(word + rest) == |word|
  {
    var s := word + rest;
    assert forall i :: 0 <= i < |word| ==> s[i] == word[i];
    assert rest != [] ==> s[|word|] == rest[0];
  }

  lemma {:induction false} KeywordPrinted(word: Text, keyword: Text, rest: Text)
    requires Spells(word, keyword) && EndsWord(rest)
    ensures KeywordAt(word + rest, keyword)
    ensures (word + rest)[..|keyword|] == word && (word + rest)[|keyword|..] == rest
  {
  }

  lemma {:induction false} UnquotePrinted(name: Text, rest: Text)
    requires rest == [] || rest[0] != QUOTE
    ensures Unquote(DoubleQuotes(name) + [QUOTE] + rest) == Some((name, |DoubleQuotes(name)| + 1))
  {
    var s := DoubleQuotes(name) + [QUOTE] + rest;
    if name == [] {
      assert s == [QUOTE] + rest;
    } else {
      UnquotePrinted(name[1..], rest);
      var k := if name[0] == QUOTE then 2 else 1;
      assert s[k..] == DoubleQuotes(name[1..]) + [QUOTE] + rest;
      assert name == [s[0]] + name[1..];
    }
  }

  /** A trailer is empty or starts with something that ends every token. */
  lemma {:induction false} TrailerStart(t: Trailer)
    requires ValidTrailer(t)
    ensures var s := PrintTrailer(t); s == [] || IsWs(s[0]) || s[0] == SEMI
  {
  }

  lemma {:induction false} TrailerPrinted(t: Trailer)
    requires ValidTrailer(t)
    ensures TrailerOf(PrintTrailer(t)) == Some(t)
  {
    var s := PrintTrailer(t);
    match t.semicolon
    case None =>
      WsLenPrinted(t.space, []);
      assert t.space + [] == t.space == s;
    case Some(space) =>
      WsLenPrinted(t.space, [SEMI] + space);
      assert s[|t.space| + 1..] == space;
  }

  lemma {:induction false} TargetPrinted(t: Target, rest: Text)
    requires ValidTarget(t) && (rest == [] || IsWs(rest[0]) || rest[0] == SEMI)
    ensures TargetAt(PrintTarget(t) + rest) == Some((t, |PrintTarget(t)|))
  {
    hide Lower, Unquote, DoubleQuotes, ContLen;
    var s := PrintTarget(t) + rest;
    match t
    case Delimited(name) =>
      UnquotePrinted(name, rest);
      assert s[1..] == DoubleQuotes(name) + [QUOTE] + rest;
    case Regular(word) =>
      ContLenPrinted(word, rest);
      assert s[..|word|] == word;
    case All(word) =>
      AllIsWord(word);
      ContLenPrinted(word, rest);
      assert s[..|word|] == word;
  }

  lemma {:induction false} AllIsWord(word: Text)
    requires Lower(word) == ALL_FOLDED
    ensures |word| == 3 && AllCont(word) && IsIdentStart(word[0])
  {
    assert forall i :: 0 <= i < 3 ==> LowerUnit(word[i]) == ALL_FOLDED[i];
  }

  lemma {:induction false} TailPrinted(t: Target, trailer: Trailer)
    requires ValidTarget(t) && ValidTrailer(trailer)
    ensures TargetAndTrailer(PrintTarget(t) + PrintTrailer(trailer)) == Some((t, trailer))
  {
    hide ValidTarget, ValidTrailer, PrintTarget, PrintTrailer, TargetAt, TrailerOf;
    TrailerStart(trailer);
    TargetPrinted(t, PrintTrailer(trailer));
    TrailerPrinted(trailer);
    assert (PrintTarget(t) + PrintTrailer(trailer))[|PrintTarget(t)|..] == PrintTrailer(trailer);
  }

  lemma {:induction false} SeparatorPrinted(separator: Text, rest: Text)
    requires AllWs(separator) && rest != [] && !IsWs(rest[0]) && (separator == [] ==> rest[0] == QUOTE)
    ensures SeparatorLen(separator + rest) == Some(|separator|)
    ensures EndsWord(separator + rest)
    ensures (separator + rest)[..|separator|] == separator && (separator + rest)[|separator|..] == rest
  {
    WsLenPrinted(separator, rest);
  }

  lemma {:induction false} TargetStart(t: Target)
    requires ValidTarget(t)
    ensures var s := PrintTarget(t); s != [] && !IsWs(s[0]) && (t.Delimited? <==> s[0] == QUOTE)
  {
    if t.All? {
      AllIsWord(t.word);
    }
  }

  lemma {:induction false} PreparedPrinted(p: Prepare, t: Target, trailer: Trailer)
    requires ValidTarget(t) && ValidTrailer(trailer) && Spells(p.word, PREPARE) && Separates(p.separator, t, true)
    ensures Prepared(PrintPrepared(Some(p), t, trailer)) == Some((p, t, trailer))
  {
    hide ValidTarget, ValidTrailer, PrintTarget, PrintTrailer, TargetAndTrailer, SeparatorLen, KeywordAt;
    var tail := PrintTarget(t) + PrintTrailer(trailer);
    TailPrinted(t, trailer);
    TargetStart(t);
    SeparatorPrinted(p.separator, tail);
    KeywordPrinted(p.word, PREPARE, p.separator + tail);
  }

  /** PREPARE with nothing but a trailer after it is the target, not the keyword. */
  lemma {:induction false} PrepareIsTarget(t: Target, trailer: Trailer)
    requires IsTarget(t) && IsTrail(trailer)
    ensures Prepared(PrintTarget(t) + PrintTrailer(trailer)) == None
  {
    hide IsTarget, IsTrail, ValidTarget, ValidTrailer;
    TargetSpelledOut(t);
    TrailSpelledOut(trailer);
    NotPrepared(t, trailer);
  }

  lemma {:induction false} NotPrepared(t: Target, trailer: Trailer)
    requires ValidTarget(t) && ValidTrailer(trailer)
    ensures Prepared(PrintTarget(t) + PrintTrailer(trailer)) == None
  {
    hide ValidTrailer, PrintTrailer, TargetAndTrailer, Lower;
    var s := PrintTarget(t) + PrintTrailer(trailer);
    TrailerStart(trailer);
    TargetStart(t);
    if KeywordAt(s, PREPARE) {
      assert UpperUnit(s[..|PREPARE|][0]) == PREPARE[0];
      assert !t.Delimited?;
      if t.All? { AllIsWord(t.word); }
      PrepareIsWhole(t.word, PrintTrailer(trailer));
      assert s[|PREPARE|..] == PrintTrailer(trailer);
      NoTargetInTrailer(trailer);
    }
  }

  lemma {:induction false} PrepareIsWhole(word: Text, rest: Text)
    requires AllCont(word) && EndsWord(rest) && KeywordAt(word + rest, PREPARE)
    ensures |word| == |PREPARE|
  {
    var s := word + rest;
    forall i | 0 <= i < |PREPARE| ensures IsIdentCont(s[i]) {
      assert UpperUnit(s[..|PREPARE|][i]) == PREPARE[i];
    }
    assert forall i :: 0 <= i < |word| ==> s[i] == word[i];
    assert rest != [] ==> s[|word|] == rest[0];
  }

  lemma {:induction false} NoTargetInTrailer(trailer: Trailer)
    requires ValidTrailer(trailer)
    ensures var s := PrintTrailer(trailer);
      SeparatorLen(s).Some? ==> TargetAndTrailer(s[SeparatorLen(s).value..]) == None
  {
    var s := PrintTrailer(trailer);
    match trailer.semicolon
    case None =>
      WsLenPrinted(trailer.space, []);
      assert trailer.space + [] == s;
    case Some(space) =>
      WsLenPrinted(trailer.space, [SEMI] + space);
  }

  /** The scanner returns the tree of every text that has one: the grammar is unambiguous and nothing is lost. */
  lemma {:induction false} ParseIsComplete(c: Command)
    requires IsCommand(c)
    ensures Parse(Print(c)) == Some(c)
  {
    hide Valid, IsCommand, Parse, Print;
    CommandSpelledOut(c);
    ParsesPrinted(c);
  }

  lemma {:induction false} ParsesPrinted(c: Command)
    requires Valid(c)
    ensures Parse(Print(c)) == Some(c)
  {
    hide ValidTarget, ValidTrailer, PrintTarget, PrintTrailer, TrailerOf, PrintPrepared, ParseDiscard, ParseDeallocate;
    var s := Print(c)[|c.lead|..];
    match c
    case Discard(lead, word, gap, all, trailer) =>
      DiscardPrinted(c);
      assert s == word + (gap + (all + PrintTrailer(trailer)));
      assert UpperUnit(word[0]) == DISCARD[0];
      WsLenPrinted(lead, s);
    case Deallocate(lead, word, separator, prepare, target, trailer) =>
      DeallocatePrinted(c);
      assert s == word + (separator + PrintPrepared(prepare, target, trailer));
      assert UpperUnit(word[0]) == DEALLOCATE[0];
      WsLenPrinted(lead, s);
      OneCommandWord(s);
  }

  lemma {:induction false} OneCommandWord(s: Text)
    requires KeywordAt(s, DEALLOCATE)
    ensures !KeywordAt(s, DISCARD)
  {
    assert UpperUnit(s[..|DEALLOCATE|][1]) == DEALLOCATE[1];
    assert |s| >= |DISCARD| ==> s[..|DISCARD|][1] == s[1];
  }

  lemma {:induction false} DiscardPrinted(c: Command)
    requires Valid(c) && c.Discard?
    ensures var s := c.word + (c.gap + (c.all + PrintTrailer(c.trailer)));
      KeywordAt(s, DISCARD) && ParseDiscard(c.lead, s) == Some(c)
  {
    hide ValidTrailer, PrintTrailer, TrailerOf, KeywordAt, WsLen;
    var tail := c.all + PrintTrailer(c.trailer);
    TrailerStart(c.trailer);
    TrailerPrinted(c.trailer);
    KeywordPrinted(c.all, ALL, PrintTrailer(c.trailer));
    assert UpperUnit(c.all[0]) == ALL[0];
    WsLenPrinted(c.gap, tail);
    KeywordPrinted(c.word, DISCARD, c.gap + tail);
  }

  lemma {:induction false} DeallocatePrinted(c: Command)
    requires Valid(c) && c.Deallocate?
    ensures var s := c.word + (c.separator + PrintPrepared(c.prepare, c.target, c.trailer));
      KeywordAt(s, DEALLOCATE) && ParseDeallocate(c.lead, s) == Some(c)
  {
    hide ValidTarget, ValidTrailer, PrintTarget, PrintTrailer, TargetAndTrailer, SeparatorLen, KeywordAt, Prepared;
    var tail := PrintPrepared(c.prepare, c.target, c.trailer);
    TargetStart(c.target);
    match c.prepare {
      case Some(p) =>
        PreparedPrinted(p, c.target, c.trailer);
        assert UpperUnit(p.word[0]) == PREPARE[0];
        assert tail[0] == p.word[0];
      case None =>
        NotPrepared(c.target, c.trailer);
        TailPrinted(c.target, c.trailer);
    }
    SeparatorPrinted(c.separator, tail);
    KeywordPrinted(c.word, DEALLOCATE, c.separator + tail);
  }

  // ---- Main results ----

  /** What the decoder returns for `text`. */
  function Decode(text: Text): Option<Invalidation> {
    match Parse(text)
    case Some(c) => Some(Meaning(c))
    case None => None
  }

  /** `c` is a derivation of `text` that means `m`. */
  ghost predicate Derives(c: Command, text: Text, m: Invalidation) {
    IsCommand(c) && Print(c) == text && Invalidates(c) == m
  }

  /** The decoder accepts a text with a result exactly when the grammar derives that result from it. */
  lemma {:induction false} DecodesTheGrammar(text: Text, m: Invalidation)
    ensures Decode(text) == Some(m) <==> exists c :: Derives(c, text, m)
  {
    hide Parse, Valid, IsCommand, Print, Meaning, Invalidates;
    if Decode(text) == Some(m) {
      ParseIsSound(text);
      CommandSpelledOut(Parse(text).value);
      assert Derives(Parse(text).value, text, m);
    }
    if c :| Derives(c, text, m) {
      ParseIsComplete(c);
      CommandSpelledOut(c);
    }
  }

  /** No text has two derivations; in particular PREPARE is never both the keyword and the target. */
  lemma {:induction false} GrammarIsUnambiguous(c: Command, d: Command)
    requires IsCommand(c) && IsCommand(d) && Print(c) == Print(d)
    ensures c == d
  {
    hide Parse, IsCommand, Print;
    ParseIsComplete(c);
    ParseIsComplete(d);
  }

  /** Every command starts with a D after its leading white space. */
  lemma {:induction false} CommandsStartWithD(c: Command)
    requires IsCommand(c)
    ensures var n := WsLen(Print(c)); n < |Print(c)| && (Print(c)[n] == 0x44 || Print(c)[n] == 0x64)
  {
    hide PrintTrailer, PrintPrepared, ValidTarget, ValidTrailer, IsCommand;
    CommandSpelledOut(c);
    assert c.Discard? ==> UpperUnit(c.word[0]) == DISCARD[0];
    assert c.Deallocate? ==> UpperUnit(c.word[0]) == DEALLOCATE[0];
    var rest := Print(c)[|c.lead|..];
    assert rest[0] == c.word[0];
    WsLenPrinted(c.lead, rest);
    assert Print(c) == c.lead + rest;
  }

  /** Decoding a DEALLOCATE of a quoted name gives the name back, whatever surrounds it. */
  lemma {:induction false} DecodeInvertsQuoteIdent(
      lead: Text, word: Text, separator: Text, prepare: Option<Prepare>, name: Text, trailer: Trailer)
    requires name != [] && AllSpace(lead) && Cased(word, "DEALLOCATE") && AllSpace(separator) && IsTrail(trailer)
    requires prepare.Some? ==> Cased(prepare.value.word, "PREPARE") && AllSpace(prepare.value.separator)
    requires prepare.Some? ==> separator != []
    ensures var command := match prepare
              case Some(p) => separator + (p.word + (p.separator + (QuoteIdent(name) + PrintTrailer(trailer))))
              case None => separator + (QuoteIdent(name) + PrintTrailer(trailer));
            Decode(lead + (word + command)) == Some(Statement(name))
  {
    hide QuoteIdent, Cased, AllSpace, PrintTrailer, IsTrail, Parse;
    ParseIsComplete(Deallocate(lead, word, separator, prepare, Delimited(name), trailer));
  }

  // ---- The scanner as the source has it ----

  method SkipWs(text: Text, from: nat) returns (i: nat)
    requires from <= |text|
    ensures i == from + WsLen(text[from..]) && i <= |text|
  {
    i := from;
    while i < |text| && IsWs(text[i])
      invariant from <= i <= |text|
      invariant WsLen(text[from..]) == i - from + WsLen(text[i..])
    {
      assert text[i..][1..] == text[i + 1..];
      i := i + 1;
    }
  }

  method TargetStartAfterKeyword(text: Text, keywordEnd: nat) returns (i: int)
    requires keywordEnd <= |text|
    ensures match SeparatorLen(text[keywordEnd..])
            case Some(n) => i == keywordEnd + n
            case None => i == -1
  {
    var afterWs := SkipWs(text, keywordEnd);
    if afterWs > keywordEnd { return afterWs; }
    return if keywordEnd < |text| && text[keywordEnd] == QUOTE then keywordEnd else -1;
  }

  method MatchKeyword(text: Text, from: nat, keyword: Text) returns (end: int)
    requires from <= |text|
    ensures end == if KeywordAt(text[from..], keyword) then from + |keyword| else -1
  {
    if from + |keyword| > |text| { return -1; }
    var word := text[from..][..|keyword|];
    for k := 0 to |keyword|
      invariant forall j :: 0 <= j < k ==> UpperUnit(word[j]) == keyword[j]
    {
      var c := text[from + k];
      assert c == word[k];
      if UpperUnit(c) != keyword[k] { return -1; }
    }
    end := from + |keyword|;
    if end < |text| && IsIdentCont(text[end]) { return -1; }
  }

  method IsTrailer(text: Text, from: nat) returns (b: bool)
    requires from <= |text|
    ensures b == TrailerOf(text[from..]).Some?
  {
    var i := SkipWs(text, from);
    ghost var s, n := text[from..], i - from;
    if i < |text| && text[i] == SEMI {
      var j := SkipWs(text, i + 1);
      assert s[n + 1..] == text[i + 1..];
      assert j < |text| ==> text[j] == s[n + 1..][j - i - 1];
      i := j;
    }
    b := i == |text|;
  }

  method ScanRegularIdentifier(text: Text, from: nat) returns (r: Option<(Text, nat)>)
    requires from <= |text|
    ensures var s := text[from..];
      r == if s != [] && IsIdentStart(s[0]) then Some((Lower(s[..ContLen(s)]), from + ContLen(s))) else None
  {
    hide Lower;
    if from >= |text| || !IsIdentStart(text[from]) { return None; }
    assert text[from..][1..] == text[from + 1..];
    var end := from + 1;
    while end < |text| && IsIdentCont(text[end])
      invariant from < end <= |text|
      invariant ContLen(text[from..]) == end - from + ContLen(text[end..])
    {
      assert text[end..][1..] == text[end + 1..];
      end := end + 1;
    }
    var name := FoldAscii(text, from, end);
    assert text[from..end] == text[from..][..end - from];
    r := Some((name, end));
  }

  /** Only ASCII upper-case letters fold. */
  method FoldAscii(text: Text, from: nat, end: nat) returns (name: Text)
    requires from <= end <= |text|
    ensures name == Lower(text[from..end])
  {
    name := [];
    for i := from to end
      invariant name == Lower(text[from..i])
    {
      var c := text[i];
      name := name + [if 0x41 <= c <= 0x5a then c + 0x20 else c];
    }
  }

  lemma {:induction false} ResumedTwice(name: Text, k: nat, c: CodeUnit, j: nat, r: Option<(Text, nat)>)
    ensures Resumed(name, k, Resumed([c], j, r)) == Resumed(name + [c], k + j, r)
  {
    if r.Some? {
      assert name + ([c] + r.value.0) == name + [c] + r.value.0;
    }
  }

  lemma {:induction false} ResumedAtStart(r: Option<(Text, nat)>)
    ensures Resumed([], 0, r) == r
  {
    assert r.Some? ==> [] + r.value.0 == r.value.0;
  }

  lemma {:induction false} ResumedAtEnd(name: Text, k: nat)
    ensures Resumed(name, k, Some(([], 1))) == Some((name, k + 1))
    ensures Resumed(name, k, None) == None
  {
    assert name + [] == name;
  }

  /** The scan at index `i`, one step unfolded. */
  lemma {:induction false} UnquoteUnfolds(text: Text, i: nat)
    requires i <= |text|
    ensures Unquote(text[i..]) ==
      if i == |text| then None
      else if text[i] == QUOTE then
        if i + 1 < |text| && text[i + 1] == QUOTE then Resumed([QUOTE], 2, Unquote(text[i + 2..]))
        else Some(([], 1))
      else Resumed([text[i]], 1, Unquote(text[i + 1..]))
  {
    hide Resumed;
    var s := text[i..];
    if s != [] {
      assert s[1..] == text[i + 1..];
      assert |s| > 1 ==> s[2..] == text[i + 2..];
    }
  }

  method ScanDelimitedIdentifier(text: Text, from: nat) returns (r: Option<(Text, nat)>)
    requires from < |text|
    ensures r == match Unquote(text[from + 1..])
                 case Some((name, n)) => if name == [] then None else Some((name, from + 1 + n))
                 case None => None
  {
    hide Unquote, Resumed;
    var name, i := [], from + 1;
    ResumedAtStart(Unquote(text[i..]));
    while i < |text|
      invariant from < i <= |text|
      invariant Unquote(text[from + 1..]) == Resumed(name, i - from - 1, Unquote(text[i..]))
    {
      UnquoteUnfolds(text, i);
      if text[i] == QUOTE {
        if i + 1 < |text| && text[i + 1] == QUOTE {
          ResumedTwice(name, i - from - 1, QUOTE, 2, Unquote(text[i + 2..]));
          name := name + [QUOTE];
          i := i + 2;
          continue;
        }
        ResumedAtEnd(name, i - from - 1);
        return if name == [] then None else Some((name, i + 1));
      }
      ResumedTwice(name, i - from - 1, text[i], 1, Unquote(text[i + 1..]));
      name := name + [text[i]];
      i := i + 1;
    }
    UnquoteUnfolds(text, i);
    ResumedAtEnd(name, i - from - 1);
    return None;
  }

  method ScanTarget(text: Text, from: nat) returns (r: Option<(Invalidation, nat)>)
    requires from <= |text|
    ensures r == match TargetAt(text[from..])
                 case Some((target, n)) => Some((Denoted(target), from + n))
                 case None => None
  {
    if from < |text| && text[from] == QUOTE {
      var delimited := ScanDelimitedIdentifier(text, from);
      assert text[from..][1..] == text[from + 1..];
      return match delimited case Some((name, next)) => Some((Statement(name), next)) case None => None;
    }
    var regular := ScanRegularIdentifier(text, from);
    r := match regular
         case Some((name, next)) => Some((if name == ALL_FOLDED then AllStatements else Statement(name), next))
         case None => None;
  }

  /** A target and nothing but a trailer after it. */
  method ScanTail(text: Text, from: nat) returns (r: Option<Invalidation>)
    requires from <= |text|
    ensures r == match TargetAndTrailer(text[from..])
                 case Some((target, _)) => Some(Denoted(target))
                 case None => None
  {
    hide TargetAt, TrailerOf;
    var target := ScanTarget(text, from);
    if target == None { return None; }
    assert text[from..][target.value.1 - from..] == text[target.value.1..];
    var complete := IsTrailer(text, target.value.1);
    return if complete then Some(target.value.0) else None;
  }

  method DecodeStatementCacheInvalidation(text: Text) returns (r: Option<Invalidation>)
    ensures r == Decode(text)
  {
    hide KeywordAt, ParseDiscard, ParseDeallocate;
    var start := SkipWs(text, 0);
    assert text[0..] == text;
    if start >= |text| { NoKeyword(text[start..]); return None; }
    var first := text[start];
    if first != 0x44 && first != 0x64 { NoKeyword(text[start..]); return None; }

    var afterDiscard := MatchKeyword(text, start, DISCARD);
    if afterDiscard != -1 {
      r := DecodeDiscard(text, start, afterDiscard);
      return;
    }
    var afterDealloc := MatchKeyword(text, start, DEALLOCATE);
    if afterDealloc == -1 { return None; }
    r := DecodeDeallocate(text, start, afterDealloc);
  }

  lemma {:induction false} NoKeyword(s: Text)
    requires s == [] || (s[0] != 0x44 && s[0] != 0x64)
    ensures !KeywordAt(s, DISCARD) && !KeywordAt(s, DEALLOCATE)
  {
    assert |s| >= |DISCARD| ==> s[..|DISCARD|][0] == s[0];
    assert |s| >= |DEALLOCATE| ==> s[..|DEALLOCATE|][0] == s[0];
  }

  /** Only DISCARD ALL invalidates statements. */
  method DecodeDiscard(text: Text, start: nat, afterDiscard: nat) returns (r: Option<Invalidation>)
    requires start <= |text| && KeywordAt(text[start..], DISCARD) && afterDiscard == start + |DISCARD|
    ensures r == match ParseDiscard(text[..start], text[start..])
                 case Some(c) => Some(Meaning(c))
                 case None => None
  {
    hide KeywordAt, TrailerOf, Denoted;
    assert afterDiscard <= |text| by { KeywordFits(text[start..], DISCARD); }
    var rest := text[start..][|DISCARD|..];
    assert rest == text[afterDiscard..];
    var allAt := SkipWs(text, afterDiscard);
    if allAt == afterDiscard { return None; }
    assert rest[WsLen(rest)..] == text[allAt..];
    var afterAll := MatchKeyword(text, allAt, ALL);
    if afterAll == -1 { return None; }
    KeywordFits(text[allAt..], ALL);
    assert text[allAt..][|ALL|..] == text[afterAll..];
    var complete := IsTrailer(text, afterAll);
    return if complete then Some(AllStatements) else None;
  }

  lemma {:induction false} KeywordFits(s: Text, keyword: Text)
    requires KeywordAt(s, keyword)
    ensures |keyword| <= |s|
  {
  }

  /** PREPARE is a keyword only when a target and a trailer follow; otherwise it is the target. */
  method DecodeDeallocate(text: Text, start: nat, afterDealloc: nat) returns (r: Option<Invalidation>)
    requires start <= |text| && KeywordAt(text[start..], DEALLOCATE) && afterDealloc == start + |DEALLOCATE|
    ensures r == match ParseDeallocate(text[..start], text[start..])
                 case Some(c) => Some(Meaning(c))
                 case None => None
  {
    hide KeywordAt, SeparatorLen, TargetAndTrailer;
    KeywordFits(text[start..], DEALLOCATE);
    ghost var rest := text[start..][|DEALLOCATE|..];
    assert rest == text[afterDealloc..];
    var targetAt := TargetStartAfterKeyword(text, afterDealloc);
    if targetAt == -1 { return None; }
    assert rest[targetAt - afterDealloc..] == text[targetAt..];

    var afterPrepare := MatchKeyword(text, targetAt, PREPARE);
    if afterPrepare != -1 {
      KeywordFits(text[targetAt..], PREPARE);
      ghost var prepared := text[targetAt..][|PREPARE|..];
      assert prepared == text[afterPrepare..];
      var keywordTargetAt := TargetStartAfterKeyword(text, afterPrepare);
      if keywordTargetAt != -1 {
        assert prepared[keywordTargetAt - afterPrepare..] == text[keywordTargetAt..];
        r := ScanTail(text, keywordTargetAt);
        if r.Some? { return; }
      }
    }
    r := ScanTail(text, targetAt);
  }
}
