/**
 * Gated least-recently-used statement names (src/utils/statement-names.ts). A text is named on its `minUsages`-th
 * sighting; sightings are counted in a recency list of at most `capacity` texts, names are kept in another.
 */
module StatementNames {
  import opened Wrappers
  import opened Text
  import opened Recency

  /** `capacity` and `minUsages`, which the caller may set to anything. */
  datatype Config = Config(capacity: int, minUsages: int)

  /**
   * The insertion-ordered maps `counts` and `names`, each as its key order and its contents, and the texts that were
   * given a name, in order: the text named `i`-th has serial number `i`.
   */
  datatype Gen = Gen(counts: seq<Text>, countOf: map<Text, nat>, names: seq<Text>, serialOf: map<Text, nat>,
                     issued: seq<Text>)

  const EMPTY: Gen := Gen([], map[], [], map[], [])

  // ---- Which texts are counted at all ----

  const SEMICOLON: CodeUnit := 0x3b

  const KEYWORDS: seq<string> := ["select", "insert", "update", "delete", "with", "merge", "values"]

  function SkipSpace(sql: Text, i: nat): (j: nat)
    requires i <= |sql|
    ensures i <= j <= |sql|
    decreases |sql| - i
  {
    if i < |sql| && IsJsSpace(sql[i]) then SkipSpace(sql, i + 1) else i
  }

  /** `word` is at `i`, in any ASCII case, and ends on a word boundary. */
  predicate WordAt(sql: Text, i: nat, word: string) {
    && i + |word| <= |sql|
    && Lower(sql[i..i + |word|]) == Ascii(word)
    && (i + |word| < |sql| ==> !IsAsciiWord(sql[i + |word|]))
  }

  predicate Cacheable(sql: Text) {
    exists k :: 0 <= k < |KEYWORDS| && WordAt(sql, SkipSpace(sql, 0), KEYWORDS[k])
  }

  /** A single statement of a shape that produces a reusable plan. */
  predicate Eligible(sql: Text) {
    Cacheable(sql) && SEMICOLON !in sql
  }

  // ---- The same, spelled out ----

  /** White space and line terminators of JavaScript. */
  predicate IsWhite(c: CodeUnit) {
    c in {0x09, 0x0a, 0x0b, 0x0c, 0x0d, 0x20, 0xa0, 0x1680, 0x2000, 0x2001, 0x2002, 0x2003, 0x2004, 0x2005, 0x2006,
          0x2007, 0x2008, 0x2009, 0x200a, 0x2028, 0x2029, 0x202f, 0x205f, 0x3000, 0xfeff}
  }

  /** A digit, a letter or an underscore. */
  predicate IsWordUnit(c: CodeUnit) {
    var n := c as int;
    || '0' as int <= n <= '9' as int || 'A' as int <= n <= 'Z' as int || 'a' as int <= n <= 'z' as int
    || n == '_' as int
  }

  /** `t` is the lower-case `word`, in any casing. */
  predicate Spells(t: Text, word: string) {
    |t| == |word| && forall i :: 0 <= i < |word| ==> t[i] as int == word[i] as int || t[i] as int + 32 == word[i] as int
  }

  /** Behind `i` units of white space stands the word, and no longer one. */
  predicate BeginsWith(sql: Text, i: nat, word: string) {
    && i + |word| <= |sql|
    && (forall k :: 0 <= k < i ==> IsWhite(sql[k]))
    && Spells(sql[i..i + |word|], word)
    && (i + |word| < |sql| ==> !IsWordUnit(sql[i + |word|]))
  }

  /** One statement that begins with one of seven words. */
  ghost predicate Nameable(sql: Text) {
    && 0x3b !in sql
    && exists i: nat, word :: BeginsWith(sql, i, word)
         && word in {"select", "insert", "update", "delete", "with", "merge", "values"}
  }

  lemma {:induction false} WhiteIff(c: CodeUnit)
    ensures IsWhite(c) <==> IsJsSpace(c)
    ensures IsWordUnit(c) <==> IsAsciiWord(c)
  {
  }

  predicate LowerCase(word: string) {
    forall i :: 0 <= i < |word| ==> 'a' <= word[i] <= 'z'
  }

  lemma {:induction false} SpellsIff(t: Text, word: string)
    requires LowerCase(word)
    ensures Spells(t, word) <==> Lower(t) == Ascii(word)
  {
    if Lower(t) == Ascii(word) {
      forall i | 0 <= i < |word| ensures t[i] as int == word[i] as int || t[i] as int + 32 == word[i] as int {
        assert LowerUnit(t[i]) == Lower(t)[i] == Ascii(word)[i];
      }
    }
  }

  lemma {:induction false} SkippedSpace(sql: Text, i: nat)
    requires i <= |sql|
    ensures var j := SkipSpace(sql, i);
      (forall k :: i <= k < j ==> IsJsSpace(sql[k])) && (j < |sql| ==> !IsJsSpace(sql[j]))
    decreases |sql| - i
  {
    hide IsJsSpace;
    if i < |sql| && IsJsSpace(sql[i]) { SkippedSpace(sql, i + 1); }
  }

  lemma {:induction false} BeginsWithIff(sql: Text, i: nat, word: string)
    requires word != "" && LowerCase(word)
    ensures BeginsWith(sql, i, word) <==> i == SkipSpace(sql, 0) && WordAt(sql, i, word)
  {
    hide IsJsSpace, IsAsciiWord, Spells, IsWhite, IsWordUnit;
    SkippedSpace(sql, 0);
    forall c { WhiteIff(c); }
    var j := SkipSpace(sql, 0);
    if i + |word| <= |sql| {
      SpellsIff(sql[i..i + |word|], word);
      if BeginsWith(sql, i, word) {
        LetterIsNoSpace(sql[i..i + |word|], word);
        assert sql[i..i + |word|][0] == sql[i];
      }
    }
  }

  lemma {:induction false} LetterIsNoSpace(t: Text, word: string)
    requires word != "" && LowerCase(word) && Spells(t, word)
    ensures !IsJsSpace(t[0])
  {
    assert 'a' <= word[0] <= 'z';
  }

  /** The texts that may get a name are the nameable ones. */
  lemma {:induction false} EligibleIff(sql: Text)
    ensures Eligible(sql) <==> Nameable(sql)
  {
    hide WordAt, BeginsWith, SkipSpace;
    forall k | 0 <= k < |KEYWORDS| ensures KEYWORDS[k] != "" && LowerCase(KEYWORDS[k]) {}
    var words := {"select", "insert", "update", "delete", "with", "merge", "values"};
    forall word ensures word in words <==> exists k :: 0 <= k < |KEYWORDS| && KEYWORDS[k] == word {
      KeywordsAre(word);
    }
    var j := SkipSpace(sql, 0);
    if i: nat, word :| BeginsWith(sql, i, word) && word in words {
      var k :| 0 <= k < |KEYWORDS| && KEYWORDS[k] == word;
      BeginsWithIff(sql, i, word);
      assert WordAt(sql, j, KEYWORDS[k]);
    }
    if k :| 0 <= k < |KEYWORDS| && WordAt(sql, j, KEYWORDS[k]) {
      BeginsWithIff(sql, j, KEYWORDS[k]);
      assert BeginsWith(sql, j, KEYWORDS[k]) && KEYWORDS[k] in words;
    }
  }

  lemma {:induction false} KeywordsAre(word: string)
    ensures word in {"select", "insert", "update", "delete", "with", "merge", "values"} <==>
            exists k :: 0 <= k < |KEYWORDS| && KEYWORDS[k] == word
  {
    assert KEYWORDS[0] == "select" && KEYWORDS[1] == "insert" && KEYWORDS[2] == "update" && KEYWORDS[3] == "delete";
    assert KEYWORDS[4] == "with" && KEYWORDS[5] == "merge" && KEYWORDS[6] == "values";
  }

  // ---- One call ----

  function CountBefore(g: Gen, sql: Text): nat {
    if sql in g.countOf then g.countOf[sql] else 0
  }

  /** A sighting that is counted and does not earn a name. */
  predicate Counts(c: Config, g: Gen, sql: Text) {
    Eligible(sql) && sql !in g.serialOf && CountBefore(g, sql) + 1 < c.minUsages
  }

  /** A sighting that earns a name. */
  predicate Promotes(c: Config, g: Gen, sql: Text) {
    Eligible(sql) && sql !in g.serialOf && CountBefore(g, sql) + 1 >= c.minUsages
  }

  function Count(c: Config, g: Gen, sql: Text): Gen {
    var order := Touch(g.counts, sql);
    var contents := g.countOf[sql := CountBefore(g, sql) + 1];
    if |order| > c.capacity then g.(counts := order[1..], countOf := contents - {order[0]})
    else g.(counts := order, countOf := contents)
  }

  predicate Evicts(c: Config, g: Gen, sql: Text) {
    Promotes(c, g, sql) && |g.names| >= c.capacity && g.names != []
  }

  function Promote(c: Config, g: Gen, sql: Text): Gen {
    var full := |g.names| >= c.capacity && g.names != [];
    var order := if full then g.names[1..] else g.names;
    var contents := if full then g.serialOf - {g.names[0]} else g.serialOf;
    Gen(Remove(g.counts, sql), g.countOf - {sql}, order + [sql], contents[sql := |g.issued|], g.issued + [sql])
  }

  function Step(c: Config, g: Gen, sql: Text): Gen {
    if !Eligible(sql) then g
    else if sql in g.serialOf then g.(names := Touch(g.names, sql))
    else if Counts(c, g, sql) then Count(c, g, sql)
    else Promote(c, g, sql)
  }

  /** The serial number of the name the call returns, if it returns one. */
  function Answer(c: Config, g: Gen, sql: Text): Option<nat> {
    if !Eligible(sql) then None
    else if sql in g.serialOf then Some(g.serialOf[sql])
    else if Counts(c, g, sql) then None
    else Some(|g.issued|)
  }

  /** The serial number of the name the call evicts, if it evicts one. */
  function Evicted(c: Config, g: Gen, sql: Text): Option<nat>
    requires Inv(c, g)
  {
    if Evicts(c, g, sql) then Some(g.serialOf[g.names[0]]) else None
  }

  function Run(c: Config, g: Gen, h: seq<Text>): Gen {
    if h == [] then g else Step(c, Run(c, g, h[..|h| - 1]), h[|h| - 1])
  }

  // ---- Invariant ----

  predicate Inv(c: Config, g: Gen) {
    && Distinct(g.names) && Values(g.names) == g.serialOf.Keys
    && Distinct(g.counts) && Values(g.counts) == g.countOf.Keys
    && (forall t :: t in g.serialOf ==> g.serialOf[t] < |g.issued| && g.issued[g.serialOf[t]] == t)
    && |g.names| <= (if c.capacity >= 1 then c.capacity else 1)
  }

  lemma {:induction false} DropFirst<T>(r: seq<T>)
    requires Distinct(r) && r != []
    ensures Distinct(r[1..]) && Values(r[1..]) == Values(r) - {r[0]}
  {
    assert r == [r[0]] + r[1..];
  }

  lemma {:induction false} StepKeepsInv(c: Config, g: Gen, sql: Text)
    requires Inv(c, g)
    ensures Inv(c, Step(c, g, sql))
  {
    hide Eligible, Inv;
    if Eligible(sql) {
      if sql in g.serialOf {
        TouchKeepsInv(c, g, sql);
      } else if Counts(c, g, sql) {
        CountKeepsInv(c, g, sql);
      } else {
        PromoteKeepsInv(c, g, sql);
      }
    }
  }

  lemma {:induction false} TouchKeepsInv(c: Config, g: Gen, sql: Text)
    requires Inv(c, g) && Eligible(sql) && sql in g.serialOf
    ensures Inv(c, Step(c, g, sql))
  {
    hide Eligible;
    TouchDistinct(g.names, sql);
    RemoveMembers(g.names, sql);
    RemoveOne(g.names, sql);
  }

  lemma {:induction false} CountKeepsInv(c: Config, g: Gen, sql: Text)
    requires Inv(c, g) && Eligible(sql) && sql !in g.serialOf && Counts(c, g, sql)
    ensures Inv(c, Step(c, g, sql))
  {
    hide Eligible;
    TouchDistinct(g.counts, sql);
    RemoveMembers(g.counts, sql);
    DropFirst(Touch(g.counts, sql));
  }

  lemma {:induction false} PromoteKeepsInv(c: Config, g: Gen, sql: Text)
    requires Inv(c, g) && sql !in g.serialOf
    ensures Inv(c, Promote(c, g, sql))
  {
    PromoteKeepsCounts(c, g, sql);
    PromoteKeepsNames(c, g, sql);
    PromoteKeepsSerials(c, g, sql);
    hide Promote, Distinct, Values;
  }

  lemma {:induction false} PromoteKeepsCounts(c: Config, g: Gen, sql: Text)
    requires Distinct(g.counts) && Values(g.counts) == g.countOf.Keys
    ensures var g' := Promote(c, g, sql); Distinct(g'.counts) && Values(g'.counts) == g'.countOf.Keys
  {
    hide Distinct;
    RemoveDistinct(g.counts, sql);
    RemoveMembers(g.counts, sql);
  }

  lemma {:induction false} PromoteKeepsNames(c: Config, g: Gen, sql: Text)
    requires Distinct(g.names) && Values(g.names) == g.serialOf.Keys && sql !in g.serialOf
    requires |g.names| <= (if c.capacity >= 1 then c.capacity else 1)
    ensures var g' := Promote(c, g, sql);
      && Distinct(g'.names) && Values(g'.names) == g'.serialOf.Keys
      && |g'.names| <= (if c.capacity >= 1 then c.capacity else 1)
  {
    hide Remove;
    if g.names != [] {
      DropFirst(g.names);
    }
    assert sql !in Values(g.names);
  }

  lemma {:induction false} PromoteKeepsSerials(c: Config, g: Gen, sql: Text)
    requires forall t :: t in g.serialOf ==> g.serialOf[t] < |g.issued| && g.issued[g.serialOf[t]] == t
    ensures var g' := Promote(c, g, sql);
      forall t :: t in g'.serialOf ==> g'.serialOf[t] < |g'.issued| && g'.issued[g'.serialOf[t]] == t
  {
    hide Remove;
    var g' := Promote(c, g, sql);
    forall t | t in g'.serialOf ensures g'.serialOf[t] < |g'.issued| && g'.issued[g'.serialOf[t]] == t {
      if t != sql { assert t in g.serialOf; }
    }
  }

  lemma {:induction false} RunKeepsInv(c: Config, g: Gen, h: seq<Text>)
    requires Inv(c, g)
    ensures Inv(c, Run(c, g, h))
  {
    if h != [] {
      RunKeepsInv(c, g, h[..|h| - 1]);
      StepKeepsInv(c, Run(c, g, h[..|h| - 1]), h[|h| - 1]);
    }
  }

  // ---- Least recently used ----

  /** The texts whose calls returned a name, in order. */
  function Named(c: Config, h: seq<Text>): seq<Text> {
    if h == [] then [] else
    var g := Run(c, EMPTY, h[..|h| - 1]);
    Named(c, h[..|h| - 1]) + if Answer(c, g, h[|h| - 1]).Some? then [h[|h| - 1]] else []
  }

  lemma {:induction false} ByRecencySnoc<T>(h: seq<T>, x: T)
    ensures ByRecency(h + [x]) == Touch(ByRecency(h), x)
  {
    assert (h + [x])[..|h|] == h;
  }

  /** The name map holds the `capacity` most recently named texts, in order of their last named use. */
  lemma {:induction false} NamesAreMostRecent(c: Config, h: seq<Text>)
    requires c.capacity >= 1
    ensures Inv(c, Run(c, EMPTY, h))
    ensures Run(c, EMPTY, h).names == Latest(ByRecency(Named(c, h)), c.capacity)
    ensures |Run(c, EMPTY, h).names| <= c.capacity
  {
    RunKeepsInv(c, EMPTY, h);
    if h != [] {
      var init, sql := h[..|h| - 1], h[|h| - 1];
      NamesAreMostRecent(c, init);
      NamesStep(c, Run(c, EMPTY, init), Named(c, init), sql);
    }
  }

  lemma {:induction false} NamesAreKeys(c: Config, g: Gen)
    requires Inv(c, g)
    ensures forall t :: t in g.names <==> t in g.serialOf
  {
  }

  lemma {:induction false} NamesStep(c: Config, g: Gen, named: seq<Text>, sql: Text)
    requires c.capacity >= 1 && Inv(c, g) && g.names == Latest(ByRecency(named), c.capacity)
    ensures Step(c, g, sql).names
         == Latest(ByRecency(named + if Answer(c, g, sql).Some? then [sql] else []), c.capacity)
  {
    hide Eligible, Inv, Distinct, Counts, Values, Remove;
    NamesAreKeys(c, g);
    var r := ByRecency(named);
    ByRecencyDistinct(named);
    ByRecencySnoc(named, sql);
    if Answer(c, g, sql).None? {
      assert named + [] == named;
    } else if sql in g.serialOf {
      TouchPresent(r, sql, c.capacity);
    } else {
      TouchAbsent(r, sql, c.capacity);
      assert Promote(c, g, sql).names == Latest(g.names + [sql], c.capacity);
    }
  }

  /**
   * A text keeps its place exactly as long as fewer than `capacity` distinct other texts were given a name since it
   * last was.
   */
  lemma {:induction false} NamedExactlyWhileRecent(c: Config, h: seq<Text>, sql: Text)
    requires c.capacity >= 1 && sql in Named(c, h)
    ensures sql in Run(c, EMPTY, h).serialOf <==> |Since(Named(c, h), sql)| < c.capacity
  {
    NamesAreMostRecent(c, h);
    var r := ByRecency(Named(c, h));
    ByRecencyDistinct(Named(c, h));
    AfterIsSince(Named(c, h), sql);
    AmongLatest(r, sql, c.capacity);
    assert sql in Run(c, EMPTY, h).serialOf <==> sql in Values(Run(c, EMPTY, h).names);
  }

  lemma {:induction false} SinceGrows<T>(a: seq<T>, x: T, y: T)
    requires x != y
    ensures Since(a + [y], x) == Since(a, x) + {y}
  {
    assert (a + [y])[..|a|] == a;
  }

  /**
   * LRU survival: after a call that named `sql`, a later call returns the same name if fewer than `capacity` distinct
   * other texts were given a name in between.
   */
  lemma {:induction false} NameSurvives(c: Config, h: seq<Text>, sql: Text, between: seq<Text>)
    requires c.capacity >= 1 && sql !in between
    requires Answer(c, Run(c, EMPTY, h), sql).Some?
    requires |Since(Named(c, h + [sql] + between), sql)| < c.capacity
    ensures sql in Named(c, h + [sql] + between)
    ensures Answer(c, Run(c, EMPTY, h + [sql] + between), sql) == Answer(c, Run(c, EMPTY, h), sql)
  {
    hide Eligible;
    var all := h + [sql] + between;
    if between == [] {
      assert all[..|h|] == h && all == h + [sql];
      assert Named(c, all)[|Named(c, all)| - 1] == sql;
    } else {
      var init, last := between[..|between| - 1], between[|between| - 1];
      var shorter := h + [sql] + init;
      assert all[..|all| - 1] == shorter && all[|all| - 1] == last;
      var g := Run(c, EMPTY, shorter);
      if Answer(c, g, last).Some? {
        SinceGrows(Named(c, shorter), sql, last);
        SubsetSize(Since(Named(c, shorter), sql), Since(Named(c, all), sql));
      } else {
        assert Named(c, all) == Named(c, shorter);
      }
      assert sql !in init;
      NameSurvives(c, h, sql, init);
      RunKeepsInv(c, EMPTY, shorter);
      NamedExactlyWhileRecent(c, shorter, sql);
      NamedExactlyWhileRecent(c, all, sql);
      KeptSerial(c, g, last, sql);
    }
  }

  lemma {:induction false} SubsetSize<T>(a: set<T>, b: set<T>)
    requires a <= b
    ensures |a| <= |b|
  {
    if a != {} {
      var x :| x in a;
      SubsetSize(a - {x}, b - {x});
    }
  }

  /** A text that stays in the name map keeps its serial number. */
  lemma {:induction false} KeptSerial(c: Config, g: Gen, sql: Text, kept: Text)
    requires kept in g.serialOf && kept in Step(c, g, sql).serialOf
    ensures Step(c, g, sql).serialOf[kept] == g.serialOf[kept]
  {
    hide Eligible;
  }

  // ---- The gate ----

  function EligibleOf(h: seq<Text>): seq<Text> {
    if h == [] then [] else
    EligibleOf(h[..|h| - 1]) + if Eligible(h[|h| - 1]) then [h[|h| - 1]] else []
  }

  /** Every recurrence of an eligible text comes after at least `capacity` distinct other eligible texts. */
  ghost predicate Sparse(c: Config, h: seq<Text>) {
    forall k :: 0 <= k < |h| && Eligible(h[k]) && h[k] in EligibleOf(h[..k]) ==>
      |Since(EligibleOf(h[..k]), h[k])| >= c.capacity
  }

  /** Under a working set wider than the cap nothing is named and nothing is evicted. */
  lemma {:induction false} GateRefusesThrash(c: Config, h: seq<Text>)
    requires c.minUsages >= 2 && c.capacity >= 0 && Sparse(c, h)
    ensures var g := Run(c, EMPTY, h);
            && g.names == [] && g.issued == []
            && g.counts == Latest(ByRecency(EligibleOf(h)), c.capacity)
            && (forall t :: t in g.countOf ==> g.countOf[t] == 1)
            && Inv(c, g)
  {
    hide Eligible;
    RunKeepsInv(c, EMPTY, h);
    if h != [] {
      var init, sql := h[..|h| - 1], h[|h| - 1];
      SparsePrefix(c, h);
      GateRefusesThrash(c, init);
      var g, e := Run(c, EMPTY, init), EligibleOf(init);
      assert h[..|h| - 1] == init;
      ThrashStep(c, g, e, sql);
    }
  }

  lemma {:induction false} ThrashStep(c: Config, g: Gen, e: seq<Text>, sql: Text)
    requires c.minUsages >= 2 && c.capacity >= 0 && Inv(c, g)
    requires g.names == [] && g.counts == Latest(ByRecency(e), c.capacity)
    requires forall t :: t in g.countOf ==> g.countOf[t] == 1
    requires Eligible(sql) && sql in e ==> |Since(e, sql)| >= c.capacity
    ensures var g' := Step(c, g, sql);
            && g'.names == [] && g'.issued == g.issued && Evicts(c, g, sql) == false
            && g'.counts == Latest(ByRecency(e + if Eligible(sql) then [sql] else []), c.capacity)
            && forall t :: t in g'.countOf ==> g'.countOf[t] == 1
  {
    hide Eligible;
    assert sql !in g.serialOf by { assert sql !in Values(g.names); }
    if Eligible(sql) {
      ByRecencyDistinct(e);
      ByRecencySnoc(e, sql);
      NotAmongLatest(e, sql, c.capacity);
      assert sql !in Values(g.counts);
      TouchAbsent(ByRecency(e), sql, c.capacity);
      FirstSighting(c, g, sql);
    } else {
      assert e + [] == e;
    }
  }

  lemma {:induction false} FirstSighting(c: Config, g: Gen, sql: Text)
    requires Inv(c, g) && sql !in g.countOf && 0 <= c.capacity && |g.counts| <= c.capacity
    ensures var g' := Count(c, g, sql);
            && g'.counts == Latest(g.counts + [sql], c.capacity)
            && (forall t :: t in g'.countOf ==> t == sql || (t in g.countOf && g'.countOf[t] == g.countOf[t]))
            && (sql in g'.countOf ==> g'.countOf[sql] == 1)
  {
    assert sql !in Values(g.counts);
    RemoveAbsent(g.counts, sql);
  }

  lemma {:induction false} SparsePrefix(c: Config, h: seq<Text>)
    requires Sparse(c, h) && h != []
    ensures Sparse(c, h[..|h| - 1])
  {
    var init := h[..|h| - 1];
    assert forall k :: 0 <= k < |init| ==> init[..k] == h[..k] && init[k] == h[k];
  }

  lemma {:induction false} NotAmongLatest(e: seq<Text>, sql: Text, n: nat)
    requires sql in e ==> |Since(e, sql)| >= n
    ensures sql !in Latest(ByRecency(e), n)
  {
    ByRecencyDistinct(e);
    ByRecencyMembers(e);
    if sql in e {
      AfterIsSince(e, sql);
      AmongLatest(ByRecency(e), sql, n);
    }
  }

  lemma {:induction false} ByRecencyMembers<T>(h: seq<T>)
    ensures forall x :: x in ByRecency(h) <==> x in h
  {
    if h != [] {
      ByRecencyMembers(h[..|h| - 1]);
      RemoveMembers(ByRecency(h[..|h| - 1]), h[|h| - 1]);
      assert h == h[..|h| - 1] + [h[|h| - 1]];
    }
  }

  /** The texts whose sightings in `h`, from state `g` on, were counted. */
  function CountedIn(c: Config, g: Gen, h: seq<Text>): set<Text> {
    if h == [] then {} else
    CountedIn(c, g, h[..|h| - 1])
    + if Counts(c, Run(c, g, h[..|h| - 1]), h[|h| - 1]) then {h[|h| - 1]} else {}
  }

  /** A count survives while fewer than `capacity` distinct other texts are counted. */
  lemma {:induction false} CountSurvives(c: Config, g: Gen, sql: Text, h: seq<Text>)
    requires Inv(c, g) && sql in g.countOf && sql !in g.serialOf && After(g.counts, sql) == {}
    requires sql !in h && |CountedIn(c, g, h)| < c.capacity
    ensures var g' := Run(c, g, h);
            && Inv(c, g') && sql in g'.countOf && g'.countOf[sql] == g.countOf[sql] && sql !in g'.serialOf
            && After(g'.counts, sql) <= CountedIn(c, g, h)
  {
    hide Eligible;
    if h != [] {
      var init, other := h[..|h| - 1], h[|h| - 1];
      SubsetSize(CountedIn(c, g, init), CountedIn(c, g, h));
      CountSurvives(c, g, sql, init);
      var k := Run(c, g, init);
      RunKeepsInv(c, g, h);
      assert sql in Values(k.counts);
      if Counts(c, k, other) {
        AfterTouch(k.counts, sql, other);
        SubsetSize(After(k.counts, sql) + {other}, CountedIn(c, g, h));
        CountedKeeps(c, k, sql, other);
      } else if Promotes(c, k, other) {
        AfterRemove(k.counts, sql, other);
      }
    }
  }

  /** Counting another text displaces `sql` only if `capacity` texts were counted after it. */
  lemma {:induction false} CountedKeeps(c: Config, g: Gen, sql: Text, other: Text)
    requires Inv(c, g) && sql in g.counts && other != sql && |After(g.counts, sql) + {other}| < c.capacity
    requires After(Touch(g.counts, other), sql) == After(g.counts, sql) + {other}
    ensures sql in Count(c, g, other).counts && After(Count(c, g, other).counts, sql) == After(g.counts, sql) + {other}
    ensures sql in Count(c, g, other).countOf && Count(c, g, other).countOf[sql] == g.countOf[sql]
  {
    var order := Touch(g.counts, other);
    TouchDistinct(g.counts, other);
    RemoveMembers(g.counts, other);
    assert sql in Values(g.counts) && sql in order;
    if |order| > c.capacity && order[0] == sql {
      SuffixSet(order, 0);
    }
  }

  lemma {:induction false} AfterRemove<T>(r: seq<T>, x: T, y: T)
    requires Distinct(r) && x in r && x != y
    ensures x in Remove(r, y) && After(Remove(r, y), x) <= After(r, x)
  {
    RemoveMembers(r, y);
    if r[0] == x {
      RemoveMembers(r[1..], y);
      assert Remove(r, y) == [x] + Remove(r[1..], y);
      assert Remove(r, y)[1..] == Remove(r[1..], y);
      assert Values(Remove(r[1..], y)) <= Values(r[1..]);
    } else {
      AfterRemove(r[1..], x, y);
      assert r[0] != y ==> ([r[0]] + Remove(r[1..], y))[1..] == Remove(r[1..], y);
      assert r[0] == y ==> [] + Remove(r[1..], y) == Remove(r[1..], y);
    }
  }

  /** Between consecutive sightings of `sql` fewer than `capacity` distinct other texts are counted. */
  ghost predicate CloseSightings(c: Config, g: Gen, sql: Text, gaps: seq<seq<Text>>)
    decreases |gaps|
  {
    gaps != [] ==>
      var seen := Step(c, g, sql);
      && sql !in gaps[0] && |CountedIn(c, seen, gaps[0])| < c.capacity
      && CloseSightings(c, Run(c, seen, gaps[0]), sql, gaps[1..])
  }

  /** Some sighting of `sql` returns a name; `gaps` are the calls between its sightings. */
  ghost predicate NamedAtSomeSighting(c: Config, g: Gen, sql: Text, gaps: seq<seq<Text>>)
    decreases |gaps|
  {
    || Answer(c, g, sql).Some?
    || (gaps != [] && NamedAtSomeSighting(c, Run(c, Step(c, g, sql), gaps[0]), sql, gaps[1..]))
  }

  /** A nameable text seen `minUsages` times at close distance is named by then. */
  lemma {:induction false} GateAdmits(c: Config, g: Gen, sql: Text, gaps: seq<seq<Text>>)
    requires Inv(c, g) && Nameable(sql) && CloseSightings(c, g, sql, gaps)
    requires CountBefore(g, sql) + |gaps| + 1 >= c.minUsages
    ensures NamedAtSomeSighting(c, g, sql, gaps)
    decreases |gaps|
  {
    hide Eligible, Nameable;
    EligibleIff(sql);
    if gaps != [] && Answer(c, g, sql).None? {
      var seen := Step(c, g, sql);
      StepKeepsInv(c, g, sql);
      CountedNow(c, g, sql, gaps[0]);
      CountSurvives(c, seen, sql, gaps[0]);
      GateAdmits(c, Run(c, seen, gaps[0]), sql, gaps[1..]);
    }
  }

  /** A counted text is the most recent one; it is there at all because the cap is positive. */
  lemma {:induction false} CountedNow(c: Config, g: Gen, sql: Text, gap: seq<Text>)
    requires Inv(c, g) && Eligible(sql) && Answer(c, g, sql).None?
    requires |CountedIn(c, Step(c, g, sql), gap)| < c.capacity
    ensures var g' := Step(c, g, sql);
            && sql in g'.countOf && g'.countOf[sql] == CountBefore(g, sql) + 1 && sql !in g'.serialOf
            && After(g'.counts, sql) == {}
  {
    hide Eligible;
    var order := Touch(g.counts, sql);
    RemoveMembers(g.counts, sql);
    AfterLast(Remove(g.counts, sql), sql);
    TouchDistinct(g.counts, sql);
    if |order| > c.capacity {
      assert order[1..] == Remove(g.counts, sql)[1..] + [sql];
      AfterLast(Remove(g.counts, sql)[1..], sql);
      assert order[0] != sql by { assert order[|order| - 1] == sql; }
    }
  }

  /** Over every run, only nameable texts get a name. */
  lemma {:induction false} IssuedAreNameable(c: Config, h: seq<Text>)
    ensures forall sql :: sql in Run(c, EMPTY, h).issued ==> Nameable(sql)
  {
    hide Eligible, Nameable;
    if h != [] {
      var init, sql := h[..|h| - 1], h[|h| - 1];
      IssuedAreNameable(c, init);
      EligibleIff(sql);
    }
  }

  /** A call returns a name only for a nameable text. */
  lemma {:induction false} NamedIsNameable(c: Config, h: seq<Text>, sql: Text)
    requires Answer(c, Run(c, EMPTY, h), sql).Some?
    ensures Nameable(sql)
  {
    hide Eligible, Nameable;
    EligibleIff(sql);
  }

  function Sightings(h: seq<Text>, sql: Text): nat {
    if h == [] then 0 else Sightings(h[..|h| - 1], sql) + if h[|h| - 1] == sql then 1 else 0
  }

  /** Over every run, a text gets a name on its `minUsages`-th sighting at the earliest. */
  lemma {:induction false} IssuedAfterSightings(c: Config, h: seq<Text>)
    ensures forall sql :: sql in Run(c, EMPTY, h).issued ==> Sightings(h, sql) >= c.minUsages
    ensures forall sql :: sql in Run(c, EMPTY, h).countOf ==> Run(c, EMPTY, h).countOf[sql] <= Sightings(h, sql)
  {
    hide Eligible;
    if h != [] { IssuedAfterSightings(c, h[..|h| - 1]); }
  }

  // ---- Names identify one text ----

  lemma {:induction false} IssuedOnlyGrows(c: Config, g: Gen, h: seq<Text>)
    ensures g.issued <= Run(c, g, h).issued
  {
    hide Eligible;
    if h != [] {
      IssuedOnlyGrows(c, g, h[..|h| - 1]);
    }
  }

  lemma {:induction false} RunSplit(c: Config, g: Gen, a: seq<Text>, b: seq<Text>)
    ensures Run(c, g, a + b) == Run(c, Run(c, g, a), b)
  {
    if b == [] {
      assert a + b == a;
    } else {
      assert (a + b)[..|a + b| - 1] == a + b[..|b| - 1];
      RunSplit(c, g, a, b[..|b| - 1]);
    }
  }

  /** Whatever the name a call returns, its serial number was issued for that call's text. */
  lemma {:induction false} AnswerIsOwn(c: Config, g: Gen, sql: Text)
    requires Inv(c, g) && Answer(c, g, sql).Some?
    ensures var k := Answer(c, g, sql).value;
            k < |Step(c, g, sql).issued| && Step(c, g, sql).issued[k] == sql
  {
    hide Eligible;
  }

  /** Two calls of one run that return the same name are for the same text. */
  lemma {:induction false} NameMeansOneText(c: Config, h: seq<Text>, i: nat, j: nat)
    requires i < j < |h|
    requires Answer(c, Run(c, EMPTY, h[..i]), h[i]).Some?
    requires Answer(c, Run(c, EMPTY, h[..i]), h[i]) == Answer(c, Run(c, EMPTY, h[..j]), h[j])
    ensures h[i] == h[j]
  {
    IssuedAt(c, h, i, j + 1);
    IssuedAt(c, h, j, j + 1);
  }

  lemma {:induction false} IssuedAt(c: Config, h: seq<Text>, i: nat, n: nat)
    requires i < n <= |h|
    requires Answer(c, Run(c, EMPTY, h[..i]), h[i]).Some?
    ensures var k := Answer(c, Run(c, EMPTY, h[..i]), h[i]).value;
            k < |Run(c, EMPTY, h[..n]).issued| && Run(c, EMPTY, h[..n]).issued[k] == h[i]
  {
    hide Step, Answer;
    RunKeepsInv(c, EMPTY, h[..i]);
    AnswerIsOwn(c, Run(c, EMPTY, h[..i]), h[i]);
    assert h[..i + 1][..i] == h[..i];
    assert h[..n] == h[..i + 1] + h[i + 1..n];
    RunSplit(c, EMPTY, h[..i + 1], h[i + 1..n]);
    IssuedOnlyGrows(c, Run(c, EMPTY, h[..i + 1]), h[i + 1..n]);
  }
}
