/**
 * Applying migrations with a history table (src/schema/migrations.ts). The history is a sequence of rows, the checksum
 * an arbitrary function of the script, and the environment decides where a call fails or stops.
 */
module Migrations {
  import opened Wrappers
  import opened Text
  import opened Recency

  const CR: CodeUnit := 0x0d
  const LF: CodeUnit := 0x0a

  type Hash = Text -> Text

  datatype Migration = Migration(name: Text, sql: Text)

  datatype Row = Row(name: Text, checksum: Text, finished: bool, rolledBack: bool)

  function Names(ms: seq<Migration>): (r: seq<Text>)
    ensures |r| == |ms| && forall i :: 0 <= i < |ms| ==> r[i] == ms[i].name
  {
    if ms == [] then [] else [ms[0].name] + Names(ms[1..])
  }

  // ---- Line endings and checksums ----

  predicate CrLfAt(s: Text, i: nat) {
    i + 1 < |s| && s[i] == CR && s[i + 1] == LF
  }

  function ToLf(s: Text): Text {
    if s == [] then []
    else if CrLfAt(s, 0) then [LF] + ToLf(s[2..])
    else [s[0]] + ToLf(s[1..])
  }

  function ToCrLf(s: Text): Text {
    if s == [] then []
    else if CrLfAt(s, 0) then [CR, LF] + ToCrLf(s[2..])
    else (if s[0] == LF then [CR, LF] else [s[0]]) + ToCrLf(s[1..])
  }

  predicate ChecksumMatches(hash: Hash, stored: Text, sql: Text) {
    hash(sql) == stored || hash(ToLf(sql)) == stored || hash(ToCrLf(sql)) == stored
  }

  /** The lines, each with its line ending. */
  function Lines(lines: seq<Text>, eol: Text): Text {
    if lines == [] then [] else lines[0] + (eol + Lines(lines[1..], eol))
  }

  /** A line: no line feed in it, and no carriage return at its end. */
  predicate IsLine(line: Text) {
    0x0a !in line && (line != [] ==> line[|line| - 1] != 0x0d)
  }

  lemma {:induction false} UnitKept(c: CodeUnit, rest: Text)
    requires c != 0x0a && !(c == 0x0d && Begins(rest, 0x0a))
    ensures ToLf([c] + rest) == [c] + ToLf(rest) && ToCrLf([c] + rest) == [c] + ToCrLf(rest)
  {
    assert ([c] + rest)[1..] == rest;
  }

  lemma {:induction false} EndConverted(eol: Text, rest: Text)
    requires eol in {[0x0a], [0x0d, 0x0a]}
    ensures ToLf(eol + rest) == [0x0a] + ToLf(rest) && ToCrLf(eol + rest) == [0x0d, 0x0a] + ToCrLf(rest)
  {
    assert (eol + rest)[|eol|..] == rest;
  }

  lemma {:induction false} LineConverted(line: Text, eol: Text, rest: Text)
    requires IsLine(line) && eol in {[0x0a], [0x0d, 0x0a]}
    ensures ToLf(line + (eol + rest)) == line + ([0x0a] + ToLf(rest))
    ensures ToCrLf(line + (eol + rest)) == line + ([0x0d, 0x0a] + ToCrLf(rest))
  {
    hide ToLf, ToCrLf;
    EndConverted(eol, rest);
    if line == [] {
      assert line + (eol + rest) == eol + rest;
    } else {
      var c, tail := line[0], line[1..];
      assert line == [c] + tail && c in line;
      TailIsLine(line);
      LineConverted(tail, eol, rest);
      UnitKept(c, tail + (eol + rest));
      Regroup([c], tail, eol + rest);
      Regroup([c], tail, [0x0a] + ToLf(rest));
      Regroup([c], tail, [0x0d, 0x0a] + ToCrLf(rest));
    }
  }

  lemma {:induction false} TailIsLine(line: Text)
    requires IsLine(line) && line != []
    ensures IsLine(line[1..]) && (|line| == 1 ==> line[0] != 0x0d) && (|line| > 1 ==> line[1] != 0x0a)
  {
    assert |line| > 1 ==> line[1..][|line| - 2] == line[|line| - 1] && line[1] in line;
  }

  /** Both conversions change the line endings of a text, whichever it has, and nothing else. */
  lemma {:induction false} LinesConverted(lines: seq<Text>, eol: Text)
    requires forall i :: 0 <= i < |lines| ==> IsLine(lines[i])
    requires eol in {[0x0a], [0x0d, 0x0a]}
    ensures ToLf(Lines(lines, eol)) == Lines(lines, [0x0a])
    ensures ToCrLf(Lines(lines, eol)) == Lines(lines, [0x0d, 0x0a])
  {
    hide IsLine;
    if lines != [] {
      LineConverted(lines[0], eol, Lines(lines[1..], eol));
      LinesConverted(lines[1..], eol);
    }
  }

  /** Texts with one LF form have one CR LF form. */
  lemma {:induction false} SameLfSameCrLf(a: Text, b: Text)
    requires ToLf(a) == ToLf(b)
    ensures ToCrLf(a) == ToCrLf(b)
  {
    if a != [] && b != [] {
      var k, n := if CrLfAt(a, 0) then 2 else 1, if CrLfAt(b, 0) then 2 else 1;
      assert ToLf(a)[1..] == ToLf(a[k..]) && ToLf(b)[1..] == ToLf(b[n..]);
      SameLfSameCrLf(a[k..], b[n..]);
    }
  }

  lemma {:induction false} LfOfCrLf(a: Text)
    ensures ToLf(ToCrLf(a)) == ToLf(a)
    ensures !Begins(ToCrLf(a), LF)
  {
    if a != [] {
      var k := if CrLfAt(a, 0) then 2 else 1;
      var tail := ToCrLf(a[k..]);
      LfOfCrLf(a[k..]);
      if k == 2 || a[0] == LF {
        assert ToCrLf(a)[2..] == tail;
      } else {
        assert ToCrLf(a)[1..] == tail;
      }
    }
  }

  predicate Begins(s: Text, c: CodeUnit) {
    s != [] && s[0] == c
  }

  lemma {:induction false} LfIsShorter(a: Text)
    ensures |ToLf(a)| <= |a| && (|ToLf(a)| == |a| ==> ToLf(a) == a)
  {
    if a != [] {
      LfIsShorter(a[if CrLfAt(a, 0) then 2 else 1..]);
    }
  }

  /** No carriage return stands before a CR LF. */
  predicate Clean(s: Text) {
    forall i :: 0 <= i < |s| && s[i] == CR ==> !CrLfAt(s, i + 1)
  }

  lemma {:induction false} CleanStep(s: Text)
    requires s != []
    ensures CrLfAt(s, 0) ==> (Clean(s) <==> Clean(s[2..]))
    ensures !CrLfAt(s, 0) ==> (Clean(s) <==> Clean(s[1..]) && !(s[0] == CR && CrLfAt(s, 1)))
  {
    var k := if CrLfAt(s, 0) then 2 else 1;
    var tail := s[k..];
    if Clean(s) {
      forall i | 0 <= i < |tail| && tail[i] == CR ensures !CrLfAt(tail, i + 1) {
        assert s[k + i] == CR && !CrLfAt(s, k + i + 1);
      }
    }
    if Clean(tail) && !(k == 1 && s[0] == CR && CrLfAt(s, 1)) {
      forall i | 0 <= i < |s| && s[i] == CR ensures !CrLfAt(s, i + 1) {
        if i >= k { assert tail[i - k] == CR && !CrLfAt(tail, i - k + 1); }
      }
    }
  }

  /** Exactly the clean texts have an LF form without CR LF. */
  lemma {:induction false} CleanIff(s: Text)
    ensures Clean(s) <==> ToLf(ToLf(s)) == ToLf(s)
    ensures Begins(ToLf(s), LF) <==> Begins(s, LF) || CrLfAt(s, 0)
  {
    hide Clean;
    if s == [] {
      NothingIsClean();
    } else {
      var k := if CrLfAt(s, 0) then 2 else 1;
      var tail := ToLf(s[k..]);
      CleanStep(s);
      CleanIff(s[k..]);
      assert ToLf(s)[1..] == tail;
      LfIsShorter(ToLf(s));
      if k == 1 && s[0] == CR {
        assert CrLfAt(ToLf(s), 0) <==> Begins(tail, LF);
        assert Begins(s[1..], LF) <==> CrLfAt(s, 0);
        assert CrLfAt(s[1..], 0) <==> CrLfAt(s, 1);
        if CrLfAt(ToLf(s), 0) { LfIsShorter(ToLf(s)[2..]); }
      }
    }
  }

  lemma {:induction false} NothingIsClean()
    ensures Clean([])
  {
  }

  /** A script stored with uniform line endings is recognised in every text with the same LF form. */
  lemma {:induction false} LineEndingsDoNotMatter(hash: Hash, a: Text, b: Text)
    requires ToLf(a) == ToLf(b)
    requires a == ToLf(a) || a == ToCrLf(a)
    ensures ChecksumMatches(hash, hash(a), b)
  {
    SameLfSameCrLf(a, b);
  }

  /** With a collision-free checksum no other script is, but in its own text. */
  lemma {:induction false} MixedLineEndingsDoMatter(hash: Hash, a: Text, b: Text)
    requires ToLf(a) == ToLf(b)
    requires forall s, t :: hash(s) == hash(t) ==> s == t
    ensures ChecksumMatches(hash, hash(a), b) <==> a == b || a == ToLf(a) || a == ToCrLf(a)
  {
    SameLfSameCrLf(a, b);
  }

  /** A checkout with CR LF has the LF form of the script, whatever its line endings are. */
  lemma {:induction false} CrLfCheckoutMatchesIff(hash: Hash, a: Text)
    requires forall s, t :: hash(s) == hash(t) ==> s == t
    ensures ChecksumMatches(hash, hash(a), ToCrLf(a)) <==> a == ToLf(a) || a == ToCrLf(a)
  {
    LfOfCrLf(a);
    MixedLineEndingsDoMatter(hash, a, ToCrLf(a));
  }

  /** A checkout with LF is recognised exactly if the script had LF, or CR LF and no carriage return before one. */
  lemma {:induction false} LfCheckoutMatchesIff(hash: Hash, a: Text)
    requires forall s, t :: hash(s) == hash(t) ==> s == t
    ensures ChecksumMatches(hash, hash(a), ToLf(a)) <==> a == ToLf(a) || (a == ToCrLf(a) && Clean(a))
  {
    var b := ToLf(a);
    CleanIff(a);
    LfIsShorter(a);
    LfIsShorter(b);
    LfOfCrLf(b);
    if ToLf(b) == b { SameLfSameCrLf(a, b); }
  }

  // ---- Validation ----

  datatype HistoryError =
    | NotBaselined
    | Unfinished(names: seq<Text>)
    | Duplicate(name: Text)
    | Missing(names: seq<Text>)
    | Modified(name: Text)

  function Active(rows: seq<Row>): seq<Row> {
    if rows == [] then [] else (if rows[0].rolledBack then [] else [rows[0]]) + Active(rows[1..])
  }

  function UnfinishedNames(active: seq<Row>): seq<Text> {
    if active == [] then [] else
    (if active[0].finished then [] else [active[0].name]) + UnfinishedNames(active[1..])
  }

  function FirstRepeat(active: seq<Row>, seen: set<Text>): Option<Text> {
    if active == [] then None
    else if active[0].name in seen then Some(active[0].name)
    else FirstRepeat(active[1..], seen + {active[0].name})
  }

  /** The script of the last migration with this name. */
  function Script(ms: seq<Migration>, name: Text): Option<Text> {
    if ms == [] then None
    else if ms[|ms| - 1].name == name then Some(ms[|ms| - 1].sql)
    else Script(ms[..|ms| - 1], name)
  }

  function MissingNames(active: seq<Row>, ms: seq<Migration>): seq<Text> {
    if active == [] then [] else
    (if Script(ms, active[0].name).Some? then [] else [active[0].name]) + MissingNames(active[1..], ms)
  }

  predicate Edited(hash: Hash, row: Row, ms: seq<Migration>) {
    var sql := Script(ms, row.name);
    sql.Some? && !ChecksumMatches(hash, row.checksum, sql.value)
  }

  function FirstEdited(hash: Hash, active: seq<Row>, ms: seq<Migration>): Option<Text> {
    if active == [] then None
    else if Edited(hash, active[0], ms) then Some(active[0].name)
    else FirstEdited(hash, active[1..], ms)
  }

  function Validate(hash: Hash, rows: seq<Row>, ms: seq<Migration>): Option<HistoryError> {
    var active := Active(rows);
    if UnfinishedNames(active) != [] then Some(Unfinished(UnfinishedNames(active)))
    else if FirstRepeat(active, {}).Some? then Some(Duplicate(FirstRepeat(active, {}).value))
    else if MissingNames(active, ms) != [] then Some(Missing(MissingNames(active, ms)))
    else if FirstEdited(hash, active, ms).Some? then Some(Modified(FirstEdited(hash, active, ms).value))
    else None
  }

  /** The active row is finished and its migration is listed, unedited. */
  predicate Sound(hash: Hash, row: Row, ms: seq<Migration>) {
    && row.finished
    && var sql := Script(ms, row.name);
       sql.Some? && ChecksumMatches(hash, row.checksum, sql.value)
  }

  predicate Consistent(hash: Hash, rows: seq<Row>, ms: seq<Migration>) {
    && (forall i :: 0 <= i < |rows| && !rows[i].rolledBack ==> Sound(hash, rows[i], ms))
    && (forall i, j :: 0 <= i < j < |rows| && !rows[i].rolledBack && !rows[j].rolledBack ==>
          rows[i].name != rows[j].name)
  }

  lemma {:induction false} ActiveRows(rows: seq<Row>)
    ensures forall r :: r in Active(rows) <==> r in rows && !r.rolledBack
  {
    if rows != [] {
      ActiveRows(rows[1..]);
      assert rows == [rows[0]] + rows[1..];
    }
  }

  lemma {:induction false} UnfinishedIff(active: seq<Row>)
    ensures UnfinishedNames(active) == [] <==> forall r :: r in active ==> r.finished
  {
    if active != [] {
      UnfinishedIff(active[1..]);
      assert active == [active[0]] + active[1..];
    }
  }

  lemma {:induction false} MissingIff(active: seq<Row>, ms: seq<Migration>)
    ensures MissingNames(active, ms) == [] <==> forall r :: r in active ==> Script(ms, r.name).Some?
  {
    if active != [] {
      MissingIff(active[1..], ms);
      assert active == [active[0]] + active[1..];
    }
  }

  lemma {:induction false} EditedIff(hash: Hash, active: seq<Row>, ms: seq<Migration>)
    ensures FirstEdited(hash, active, ms) == None <==> forall r :: r in active ==> !Edited(hash, r, ms)
  {
    hide Edited;
    if active != [] {
      EditedIff(hash, active[1..], ms);
      assert active == [active[0]] + active[1..];
    }
  }

  predicate DistinctActive(rows: seq<Row>) {
    forall i, j :: 0 <= i < j < |rows| && !rows[i].rolledBack && !rows[j].rolledBack ==> rows[i].name != rows[j].name
  }

  lemma {:induction false} RepeatIff(rows: seq<Row>, seen: set<Text>)
    ensures FirstRepeat(Active(rows), seen) == None <==>
      DistinctActive(rows) && forall r :: r in rows && !r.rolledBack ==> r.name !in seen
  {
    if rows != [] {
      assert rows == [rows[0]] + rows[1..];
      assert forall i :: 0 < i < |rows| ==> rows[i] == rows[1..][i - 1];
      if rows[0].rolledBack {
        RepeatIff(rows[1..], seen);
        assert Active(rows) == Active(rows[1..]);
        assert DistinctActive(rows) <==> DistinctActive(rows[1..]);
      } else {
        var seen' := seen + {rows[0].name};
        RepeatIff(rows[1..], seen');
        assert Active(rows)[1..] == Active(rows[1..]);
        DistinctUnfolds(rows);
      }
    }
  }

  lemma {:induction false} DistinctUnfolds(rows: seq<Row>)
    requires rows != [] && !rows[0].rolledBack
    ensures DistinctActive(rows) <==>
      DistinctActive(rows[1..]) && forall r :: r in rows[1..] && !r.rolledBack ==> r.name != rows[0].name
  {
    var tail := rows[1..];
    assert forall i :: 0 < i < |rows| ==> rows[i] == tail[i - 1];
    if DistinctActive(rows) {
      forall r | r in tail && !r.rolledBack ensures r.name != rows[0].name {
        var k :| 0 <= k < |tail| && tail[k] == r;
        assert rows[k + 1] == r;
      }
    }
  }

  /** Validation passes exactly the consistent histories. */
  lemma {:induction false} ValidatesConsistency(hash: Hash, rows: seq<Row>, ms: seq<Migration>)
    ensures Validate(hash, rows, ms) == None <==> Consistent(hash, rows, ms)
  {
    hide ChecksumMatches, Script, Active, UnfinishedNames, FirstRepeat, MissingNames, FirstEdited;
    var active := Active(rows);
    ActiveRows(rows);
    UnfinishedIff(active);
    RepeatIff(rows, {});
    MissingIff(active, ms);
    EditedIff(hash, active, ms);
    assert (forall r :: r in active ==> Sound(hash, r, ms)) <==>
           (forall i :: 0 <= i < |rows| && !rows[i].rolledBack ==> Sound(hash, rows[i], ms));
  }

  // ---- Applying ----

  /** What the environment does to a pending migration: let it finish, or fail or stop the call at some statement. */
  datatype Fate = Finishes | StopsBeforeInsert | StopsAfterInsert | ScriptFails | StopsBeforeFinish

  datatype Outcome =
    | Returned(applied: seq<Text>, skipped: seq<Text>)
    | Refused(error: HistoryError)
    | ApplyFailed(name: Text)
    | Stopped

  /** The history after a call, the scripts it started, and how it ended. */
  datatype Result = Result(rows: seq<Row>, started: seq<Text>, outcome: Outcome)

  function Prepend(started: seq<Text>, applied: seq<Text>, skipped: seq<Text>, r: Result): Result {
    r.(started := started + r.started,
       outcome := match r.outcome
                  case Returned(a, s) => Returned(applied + a, skipped + s)
                  case other => other)
  }

  function Started(hash: Hash, m: Migration): Row {
    Row(m.name, hash(m.sql), false, false)
  }

  function Deploy(hash: Hash, done: set<Text>, rows: seq<Row>, ms: seq<Migration>, fate: Migration -> Fate): Result
    decreases |ms|
  {
    if ms == [] then Result(rows, [], Returned([], [])) else
    var m := ms[0];
    if m.name in done then Prepend([], [], [m.name], Deploy(hash, done, rows, ms[1..], fate))
    else match fate(m)
      case StopsBeforeInsert => Result(rows, [], Stopped)
      case StopsAfterInsert => Result(rows + [Started(hash, m)], [], Stopped)
      case ScriptFails => Result(rows + [Started(hash, m)], [m.name], ApplyFailed(m.name))
      case StopsBeforeFinish => Result(rows + [Started(hash, m)], [m.name], Stopped)
      case Finishes =>
        var finished := Started(hash, m).(finished := true);
        Prepend([m.name], [m.name], [], Deploy(hash, done, rows + [finished], ms[1..], fate))
  }

  /** A call: the migrations it lists, whether it finds user tables, and the fate of each migration. */
  datatype Call = Call(ms: seq<Migration>, hasUserTables: bool, fate: Migration -> Fate)

  function ActiveNames(rows: seq<Row>): set<Text> {
    set r | r in rows && !r.rolledBack :: r.name
  }

  predicate NoneActive(rows: seq<Row>) {
    forall i :: 0 <= i < |rows| ==> rows[i].rolledBack
  }

  function Apply(hash: Hash, rows: seq<Row>, call: Call): Result {
    if NoneActive(rows) && call.hasUserTables then Result(rows, [], Refused(NotBaselined))
    else match Validate(hash, rows, call.ms)
      case Some(error) => Result(rows, [], Refused(error))
      case None => Deploy(hash, ActiveNames(rows), rows, call.ms, call.fate)
  }

  // ---- What one call leaves behind ----

  /** The names that are not in the history yet, in listed order. */
  function Pending(ms: seq<Migration>, done: set<Text>): seq<Text> {
    if ms == [] then [] else (if ms[0].name in done then [] else [ms[0].name]) + Pending(ms[1..], done)
  }

  function Recorded(ms: seq<Migration>, done: set<Text>): seq<Text> {
    if ms == [] then [] else (if ms[0].name in done then [ms[0].name] else []) + Recorded(ms[1..], done)
  }

  lemma {:induction false} PendingIsDistinct(ms: seq<Migration>, done: set<Text>)
    requires Distinct(Names(ms))
    ensures Distinct(Pending(ms, done))
    ensures forall n :: n in Pending(ms, done) <==> n in Names(ms) && n !in done
  {
    if ms != [] {
      var tail := Names(ms[1..]);
      assert Names(ms) == [ms[0].name] + tail;
      assert forall j :: 0 <= j < |tail| ==> tail[j] == Names(ms)[j + 1];
      PendingIsDistinct(ms[1..], done);
    }
  }

  function RowNames(rows: seq<Row>): (r: seq<Text>)
    ensures |r| == |rows| && forall i :: 0 <= i < |rows| ==> r[i] == rows[i].name
  {
    if rows == [] then [] else [rows[0].name] + RowNames(rows[1..])
  }

  /** A row as a call of `ms` writes it. */
  predicate Written(hash: Hash, row: Row, ms: seq<Migration>) {
    !row.rolledBack && exists m :: m in ms && row.name == m.name && row.checksum == hash(m.sql)
  }

  /** `added` is what a call wrote to the history: a prefix of the pending migrations, all finished but the last. */
  predicate Wrote(hash: Hash, added: seq<Row>, ms: seq<Migration>, pending: seq<Text>, r: Result) {
    && |added| <= |pending| && RowNames(added) == pending[..|added|]
    && |added| - 1 <= |r.started| <= |added| && r.started == pending[..|r.started|]
    && (forall i :: 0 <= i < |added| ==> Written(hash, added[i], ms))
    && (forall i :: 0 <= i < |added| - 1 ==> added[i].finished)
    && (added != [] && !added[|added| - 1].finished ==> !r.outcome.Returned?)
    && !r.outcome.Refused?
    && (r.outcome.Returned? ==> |added| == |r.started| == |pending| && r.outcome.applied == pending)
  }

  lemma {:induction false} DeployWrites(hash: Hash, done: set<Text>, rows: seq<Row>, ms: seq<Migration>,
                                        fate: Migration -> Fate)
    ensures var r := Deploy(hash, done, rows, ms, fate);
      rows <= r.rows && Wrote(hash, r.rows[|rows|..], ms, Pending(ms, done), r) && !r.outcome.Refused?
      && (r.outcome.Returned? ==> r.outcome.skipped == Recorded(ms, done))
    decreases |ms|
  {
    hide Wrote;
    var r := Deploy(hash, done, rows, ms, fate);
    if ms == [] {
      NothingWritten(hash, ms, [], r);
    } else {
      var m, pending := ms[0], Pending(ms[1..], done);
      if m.name in done {
        DeployWrites(hash, done, rows, ms[1..], fate);
        SkipRow(hash, m, r.rows[|rows|..], ms[1..], pending, Deploy(hash, done, rows, ms[1..], fate));
        assert [m] + ms[1..] == ms && Pending(ms, done) == pending;
      } else if fate(m).Finishes? {
        var finished := Started(hash, m).(finished := true);
        var rest := Deploy(hash, done, rows + [finished], ms[1..], fate);
        DeployWrites(hash, done, rows + [finished], ms[1..], fate);
        assert r.rows[|rows|..] == [finished] + rest.rows[|rows| + 1..];
        PrependRow(hash, finished, rest.rows[|rows| + 1..], ms, pending, rest);
      } else if fate(m).StopsBeforeInsert? {
        NothingWritten(hash, ms, [m.name] + pending, r);
      } else {
        assert r.rows[|rows|..] == [Started(hash, m)];
        OneWritten(hash, ms, pending, r);
      }
    }
  }

  lemma {:induction false} NothingWritten(hash: Hash, ms: seq<Migration>, pending: seq<Text>, r: Result)
    requires r.started == [] && !r.outcome.Refused?
    requires r.outcome.Returned? ==> pending == [] && r.outcome.applied == []
    ensures Wrote(hash, [], ms, pending, r)
  {
  }

  lemma {:induction false} OneWritten(hash: Hash, ms: seq<Migration>, pending: seq<Text>, r: Result)
    requires ms != [] && (r.outcome.ApplyFailed? || r.outcome.Stopped?)
    requires r.started == [] || r.started == [ms[0].name]
    ensures Wrote(hash, [Started(hash, ms[0])], ms, [ms[0].name] + pending, r)
  {
    var row := Started(hash, ms[0]);
    assert ms[0] in ms;
    assert RowNames([row]) == [row.name] + RowNames([]);
  }

  lemma {:induction false} SkipRow(hash: Hash, m: Migration, added: seq<Row>, ms: seq<Migration>, pending: seq<Text>,
                                   r: Result)
    requires Wrote(hash, added, ms, pending, r)
    ensures Wrote(hash, added, [m] + ms, pending, Prepend([], [], [m.name], r))
  {
    WrittenByMore(hash, added, m, ms);
    assert [] + r.started == r.started;
  }

  lemma {:induction false} WrittenByMore(hash: Hash, added: seq<Row>, m: Migration, ms: seq<Migration>)
    requires forall i :: 0 <= i < |added| ==> Written(hash, added[i], ms)
    ensures forall i :: 0 <= i < |added| ==> Written(hash, added[i], [m] + ms)
  {
    forall i | 0 <= i < |added| ensures Written(hash, added[i], [m] + ms) {
      var n :| n in ms && added[i].name == n.name && added[i].checksum == hash(n.sql);
      assert n in [m] + ms;
    }
  }

  lemma {:induction false} PrependRow(hash: Hash, row: Row, added: seq<Row>, ms: seq<Migration>, pending: seq<Text>,
                                      r: Result)
    requires ms != [] && row == Started(hash, ms[0]).(finished := true)
    requires Wrote(hash, added, ms[1..], pending, r)
    ensures Wrote(hash, [row] + added, ms, [row.name] + pending, Prepend([row.name], [row.name], [], r))
  {
    hide Written, RowNames, AllFinished;
    var all := [row] + added;
    assert [ms[0]] + ms[1..] == ms;
    FirstRow(row, added);
    WrittenByMore(hash, added, ms[0], ms[1..]);
    WrittenFirst(hash, ms);
    var pending' := [row.name] + pending;
    assert pending'[..|all|] == [row.name] + pending[..|added|];
    assert pending'[..|r.started| + 1] == [row.name] + pending[..|r.started|];
  }

  lemma {:induction false} WrittenFirst(hash: Hash, ms: seq<Migration>)
    requires ms != []
    ensures Written(hash, Started(hash, ms[0]).(finished := true), ms)
  {
    assert ms[0] in ms;
  }

  // ---- Runs of calls ----

  predicate ValidCall(call: Call) {
    call.ms != [] && Distinct(Names(call.ms))
  }

  /** The history and the scripts started after a run of calls; nothing else writes the history. */
  function Run(hash: Hash, rows: seq<Row>, calls: seq<Call>): (seq<Row>, seq<Text>) {
    if calls == [] then (rows, []) else
    var (before, started) := Run(hash, rows, calls[..|calls| - 1]);
    var r := Apply(hash, before, calls[|calls| - 1]);
    (r.rows, started + r.started)
  }

  lemma {:induction false} ApplyWrites(hash: Hash, rows: seq<Row>, call: Call)
    ensures var r := Apply(hash, rows, call); rows <= r.rows
    ensures var r := Apply(hash, rows, call);
      if r.outcome.Refused? then r.rows == rows && r.started == []
      else Wrote(hash, r.rows[|rows|..], call.ms, Pending(call.ms, ActiveNames(rows)), r)
    ensures var r := Apply(hash, rows, call);
      r.outcome.Returned? ==> r.outcome.skipped == Recorded(call.ms, ActiveNames(rows))
  {
    hide Wrote, Validate, Deploy;
    DeployWrites(hash, ActiveNames(rows), rows, call.ms, call.fate);
  }

  /** A script only starts under a name the history does not have, and its row is there ever after. */
  lemma {:induction false} StartsAreNew(hash: Hash, rows: seq<Row>, call: Call)
    requires ValidCall(call)
    ensures var r := Apply(hash, rows, call);
      && Distinct(r.started)
      && ActiveNames(rows) <= ActiveNames(r.rows)
      && forall n :: n in r.started ==> n !in ActiveNames(rows) && n in ActiveNames(r.rows)
  {
    hide Validate, Deploy, Apply, Written;
    var r, pending := Apply(hash, rows, call), Pending(call.ms, ActiveNames(rows));
    ApplyWrites(hash, rows, call);
    PendingIsDistinct(call.ms, ActiveNames(rows));
    var added := r.rows[|rows|..];
    assert r.rows == rows + added;
    if !r.outcome.Refused? {
      forall n | n in r.started ensures n !in ActiveNames(rows) && n in ActiveNames(r.rows) {
        var i :| 0 <= i < |r.started| && r.started[i] == n;
        assert n == pending[i] && pending[i] in pending;
        assert RowNames(added)[i] == n && Written(hash, added[i], call.ms);
        NotRolledBack(hash, added[i], call.ms);
        assert added[i] in r.rows;
      }
    }
  }

  lemma {:induction false} NotRolledBack(hash: Hash, row: Row, ms: seq<Migration>)
    requires Written(hash, row, ms)
    ensures !row.rolledBack
  {
  }

  /** Whatever fails or stops, in any run each script starts at most once. */
  lemma {:induction false} StartedAtMostOnce(hash: Hash, rows: seq<Row>, calls: seq<Call>)
    requires forall i :: 0 <= i < |calls| ==> ValidCall(calls[i])
    ensures var (after, started) := Run(hash, rows, calls);
      Distinct(started) && forall n :: n in started ==> n in ActiveNames(after)
  {
    hide Apply, ActiveNames;
    if calls != [] {
      var init, last := calls[..|calls| - 1], calls[|calls| - 1];
      StartedAtMostOnce(hash, rows, init);
      var (before, started) := Run(hash, rows, init);
      var r := Apply(hash, before, last);
      StartsAreNew(hash, before, last);
      assert forall i :: 0 <= i < |started| ==> started[i] in started;
      assert forall i :: 0 <= i < |r.started| ==> r.started[i] in r.started;
    }
  }

  predicate HasUnfinished(rows: seq<Row>) {
    exists i :: 0 <= i < |rows| && !rows[i].rolledBack && !rows[i].finished
  }

  lemma {:induction false} UnfinishedRefuses(hash: Hash, rows: seq<Row>, call: Call)
    ensures HasUnfinished(rows) <==>
      Apply(hash, rows, call).outcome == Refused(Unfinished(UnfinishedNames(Active(rows))))
    ensures HasUnfinished(rows) ==> Apply(hash, rows, call).rows == rows && Apply(hash, rows, call).started == []
  {
    hide Deploy, Active, UnfinishedNames, FirstRepeat, FirstEdited, MissingNames;
    ActiveRows(rows);
    UnfinishedIff(Active(rows));
    DeployWrites(hash, ActiveNames(rows), rows, call.ms, call.fate);
    if HasUnfinished(rows) {
      var i :| 0 <= i < |rows| && !rows[i].rolledBack && !rows[i].finished;
      assert rows[i] in Active(rows);
    }
  }

  /** An unfinished row blocks every later call, for good: nothing starts and the history stays as it is. */
  lemma {:induction false} UnfinishedBlocks(hash: Hash, rows: seq<Row>, calls: seq<Call>)
    requires HasUnfinished(rows)
    ensures Run(hash, rows, calls) == (rows, [])
  {
    hide Apply;
    if calls != [] {
      UnfinishedBlocks(hash, rows, calls[..|calls| - 1]);
      UnfinishedRefuses(hash, rows, calls[|calls| - 1]);
      assert Run(hash, rows, calls).1 == [] + [] == [];
    }
  }

  // ---- Refusals ----

  /** Every row is rolled back, or there is none. */
  predicate NoHistory(rows: seq<Row>) {
    forall row :: row in rows ==> row.rolledBack
  }

  /** A call is refused for want of a baseline exactly if nothing is recorded and the database has tables. */
  lemma {:induction false} BaselineRefusedIff(hash: Hash, rows: seq<Row>, call: Call)
    ensures Apply(hash, rows, call).outcome == Refused(NotBaselined) <==> NoHistory(rows) && call.hasUserTables
    ensures NoHistory(rows) && call.hasUserTables ==> Apply(hash, rows, call) == Result(rows, [], Refused(NotBaselined))
  {
    hide Deploy, Active, UnfinishedNames, FirstRepeat, FirstEdited, MissingNames;
    DeployWrites(hash, ActiveNames(rows), rows, call.ms, call.fate);
    if NoneActive(rows) {
      assert NoHistory(rows);
    } else {
      var i :| 0 <= i < |rows| && !rows[i].rolledBack;
      assert rows[i] in rows;
    }
  }

  /** However often it is called, a database with tables and no history is left as it is. */
  lemma {:induction false} BaselineIsAwaited(hash: Hash, rows: seq<Row>, calls: seq<Call>)
    requires NoHistory(rows) && forall i :: 0 <= i < |calls| ==> calls[i].hasUserTables
    ensures Run(hash, rows, calls) == (rows, [])
  {
    hide Apply;
    if calls != [] {
      BaselineIsAwaited(hash, rows, calls[..|calls| - 1]);
      BaselineRefusedIff(hash, rows, calls[|calls| - 1]);
      assert Run(hash, rows, calls).1 == [] + [] == [];
    }
  }

  /** `sql` has the checksum as it is, with LF or with CR LF line endings. */
  predicate Recognised(hash: Hash, checksum: Text, sql: Text) {
    checksum in {hash(sql), hash(ToLf(sql)), hash(ToCrLf(sql))}
  }

  predicate Unfinishes(rows: seq<Row>, name: Text) {
    exists row :: row in rows && !row.rolledBack && !row.finished && row.name == name
  }

  predicate Records(rows: seq<Row>, name: Text) {
    exists row :: row in rows && !row.rolledBack && row.name == name
  }

  predicate RecordsTwice(rows: seq<Row>, name: Text) {
    exists i, j :: 0 <= i < j < |rows| && IsActive(rows[i], name) && IsActive(rows[j], name)
  }

  predicate IsActive(row: Row, name: Text) {
    !row.rolledBack && row.name == name
  }

  predicate IsEdited(hash: Hash, rows: seq<Row>, ms: seq<Migration>, name: Text) {
    exists row, m :: row in rows && m in ms && IsActive(row, name) && m.name == name
                     && !Recognised(hash, row.checksum, m.sql)
  }

  lemma {:induction false} UnfinishedMembers(active: seq<Row>)
    ensures forall n :: n in UnfinishedNames(active) <==> exists row :: row in active && !row.finished && row.name == n
  {
    if active != [] {
      UnfinishedMembers(active[1..]);
      assert active == [active[0]] + active[1..];
    }
  }

  lemma {:induction false} MissingMembers(active: seq<Row>, ms: seq<Migration>)
    ensures forall n :: n in MissingNames(active, ms) <==>
      (exists row :: row in active && row.name == n) && Script(ms, n) == None
  {
    hide Script;
    if active != [] {
      MissingMembers(active[1..], ms);
      assert active == [active[0]] + active[1..];
    }
  }

  lemma {:induction false} ScriptIsListed(ms: seq<Migration>, name: Text)
    ensures Script(ms, name).Some? <==> name in Names(ms)
    ensures Script(ms, name).Some? ==> Migration(name, Script(ms, name).value) in ms
  {
    if ms != [] {
      var init, last := ms[..|ms| - 1], ms[|ms| - 1];
      assert ms == init + [last];
      ScriptIsListed(init, name);
      assert Names(ms) == Names(init) + [last.name];
    }
  }

  lemma {:induction false} RecordedInTail(rows: seq<Row>, name: Text)
    requires rows != []
    ensures RecordsTwice(rows[1..], name) ==> RecordsTwice(rows, name)
    ensures Records(rows[1..], name) ==> Records(rows, name)
    ensures Records(rows[1..], name) && IsActive(rows[0], name) ==> RecordsTwice(rows, name)
  {
    var tail := rows[1..];
    if RecordsTwice(tail, name) {
      var i, j :| 0 <= i < j < |tail| && IsActive(tail[i], name) && IsActive(tail[j], name);
      assert IsActive(rows[i + 1], name) && IsActive(rows[j + 1], name);
    }
    if Records(tail, name) {
      var row :| row in tail && !row.rolledBack && row.name == name;
      var k :| 0 <= k < |tail| && tail[k] == row;
      assert rows[k + 1] == row && IsActive(rows[k + 1], name);
    }
  }

  lemma {:induction false} RepeatIsRecorded(rows: seq<Row>, seen: set<Text>)
    requires FirstRepeat(Active(rows), seen).Some?
    ensures var n := FirstRepeat(Active(rows), seen).value; RecordsTwice(rows, n) || (n in seen && Records(rows, n))
  {
    hide RecordsTwice, Records;
    var n := FirstRepeat(Active(rows), seen).value;
    RecordedInTail(rows, n);
    if rows[0].rolledBack {
      assert Active(rows) == Active(rows[1..]);
      RepeatIsRecorded(rows[1..], seen);
    } else if rows[0].name in seen {
      IsRecorded(rows, rows[0]);
    } else {
      assert Active(rows)[1..] == Active(rows[1..]);
      RepeatIsRecorded(rows[1..], seen + {rows[0].name});
    }
  }

  lemma {:induction false} IsRecorded(rows: seq<Row>, row: Row)
    requires row in rows && !row.rolledBack
    ensures Records(rows, row.name)
  {
  }

  lemma {:induction false} EditedIsRecorded(hash: Hash, active: seq<Row>, ms: seq<Migration>)
    requires FirstEdited(hash, active, ms).Some?
    ensures exists row :: row in active && row.name == FirstEdited(hash, active, ms).value && Edited(hash, row, ms)
  {
    hide Edited;
    if !Edited(hash, active[0], ms) { EditedIsRecorded(hash, active[1..], ms); }
  }

  lemma {:induction false} UnfinishedNamed(rows: seq<Row>)
    ensures forall n :: n in UnfinishedNames(Active(rows)) <==> Unfinishes(rows, n)
  {
    hide Active, UnfinishedNames;
    ActiveRows(rows);
    UnfinishedMembers(Active(rows));
  }

  lemma {:induction false} MissingNamed(rows: seq<Row>, ms: seq<Migration>)
    ensures forall n :: n in MissingNames(Active(rows), ms) <==> Records(rows, n) && n !in Names(ms)
  {
    hide Active, MissingNames, Script;
    ActiveRows(rows);
    MissingMembers(Active(rows), ms);
    forall n ensures Script(ms, n) == None <==> n !in Names(ms) { ScriptIsListed(ms, n); }
  }

  lemma {:induction false} EditedNamed(hash: Hash, rows: seq<Row>, ms: seq<Migration>)
    requires FirstEdited(hash, Active(rows), ms).Some?
    ensures IsEdited(hash, rows, ms, FirstEdited(hash, Active(rows), ms).value)
  {
    hide Active, FirstEdited, Script;
    var n := FirstEdited(hash, Active(rows), ms).value;
    ActiveRows(rows);
    EditedIsRecorded(hash, Active(rows), ms);
    var row :| row in Active(rows) && row.name == n && Edited(hash, row, ms);
    ScriptIsListed(ms, n);
    var m := Migration(n, Script(ms, n).value);
    assert row in rows && m in ms && !Recognised(hash, row.checksum, m.sql);
  }

  /**
   * A refusal names its defect: all that is unfinished or missing on disk, or one that is recorded twice or edited. It
   * names the first kind of defect there is, in this order.
   */
  lemma {:induction false} RefusalsNameTheDefect(hash: Hash, rows: seq<Row>, call: Call)
    requires Apply(hash, rows, call).outcome.Refused?
    ensures match Apply(hash, rows, call).outcome.error
      case NotBaselined => NoHistory(rows) && call.hasUserTables
      case Unfinished(names) => names != [] && forall n :: n in names <==> Unfinishes(rows, n)
      case Duplicate(n) => RecordsTwice(rows, n) && !HasUnfinished(rows)
      case Missing(names) =>
        && names != [] && (forall n :: n in names <==> Records(rows, n) && n !in Names(call.ms))
        && DistinctActive(rows) && !HasUnfinished(rows)
      case Modified(n) =>
        && IsEdited(hash, rows, call.ms, n) && (forall n :: Records(rows, n) ==> n in Names(call.ms))
        && DistinctActive(rows) && !HasUnfinished(rows)
  {
    hide Deploy, Active, UnfinishedNames, FirstRepeat, MissingNames, FirstEdited, RecordsTwice, Records, Unfinishes,
         IsEdited, NoHistory, NoneActive, HasUnfinished, DistinctActive;
    BaselineRefusedIff(hash, rows, call);
    UnfinishedRefuses(hash, rows, call);
    DeployWrites(hash, ActiveNames(rows), rows, call.ms, call.fate);
    UnfinishedNamed(rows);
    MissingNamed(rows, call.ms);
    RepeatIff(rows, {});
    if FirstRepeat(Active(rows), {}).Some? { RepeatIsRecorded(rows, {}); }
    if FirstEdited(hash, Active(rows), call.ms).Some? { EditedNamed(hash, rows, call.ms); }
  }

  // ---- Success, repetition and resumption ----

  lemma {:induction false} ScriptOf(ms: seq<Migration>, m: Migration)
    requires Distinct(Names(ms)) && m in ms
    ensures Script(ms, m.name) == Some(m.sql)
  {
    var i :| 0 <= i < |ms| && ms[i] == m;
    forall n | n in ms && n.name == m.name ensures n == m {
      var j :| 0 <= j < |ms| && ms[j] == n;
      assert Names(ms)[i] == Names(ms)[j];
    }
    ScriptOfOnly(ms, m);
  }

  lemma {:induction false} ScriptOfOnly(ms: seq<Migration>, m: Migration)
    requires m in ms && forall n :: n in ms && n.name == m.name ==> n == m
    ensures Script(ms, m.name) == Some(m.sql)
  {
    var init, last := ms[..|ms| - 1], ms[|ms| - 1];
    assert ms == init + [last];
    if last.name != m.name {
      ScriptOfOnly(init, m);
    }
  }

  predicate AllFinished(rows: seq<Row>) {
    forall i :: 0 <= i < |rows| ==> rows[i].finished
  }

  /** A history stays consistent under a call that leaves nothing unfinished. */
  lemma {:induction false} ConsistentAfter(hash: Hash, rows: seq<Row>, added: seq<Row>, ms: seq<Migration>, r: Result)
    requires Consistent(hash, rows, ms) && Distinct(Names(ms))
    requires Wrote(hash, added, ms, Pending(ms, ActiveNames(rows)), r) && AllFinished(added)
    ensures Consistent(hash, rows + added, ms)
  {
    hide ChecksumMatches, Script;
    var pending := Pending(ms, ActiveNames(rows));
    PendingIsDistinct(ms, ActiveNames(rows));
    forall i | 0 <= i < |added| ensures Sound(hash, added[i], ms) && added[i].name !in ActiveNames(rows) {
      assert Written(hash, added[i], ms);
      WrittenIsSound(hash, added[i], ms);
      assert added[i].name == RowNames(added)[i] == pending[i];
      assert pending[i] in pending;
    }
    AddedAreNew(rows, added, pending);
  }

  /** Rows of new and distinct names repeat no active name. */
  lemma {:induction false} AddedAreNew(rows: seq<Row>, added: seq<Row>, pending: seq<Text>)
    requires |added| <= |pending| && forall i :: 0 <= i < |added| ==> added[i].name == pending[i]
    requires Distinct(pending) && forall n :: n in pending ==> n !in ActiveNames(rows)
    requires DistinctActive(rows)
    ensures DistinctActive(rows + added)
  {
    var all := rows + added;
    forall i, j | 0 <= i < j < |all| && !all[i].rolledBack && !all[j].rolledBack ensures all[i].name != all[j].name {
      if i >= |rows| {
        assert all[i].name == pending[i - |rows|] && all[j].name == pending[j - |rows|];
      } else if j >= |rows| {
        assert rows[i] in rows && rows[i].name in ActiveNames(rows);
        assert all[j] == added[j - |rows|] && pending[j - |rows|] in pending;
      }
    }
  }

  lemma {:induction false} WrittenIsSound(hash: Hash, row: Row, ms: seq<Migration>)
    requires Written(hash, row, ms) && row.finished && Distinct(Names(ms))
    ensures Sound(hash, row, ms)
  {
    var m :| m in ms && row.name == m.name && row.checksum == hash(m.sql);
    ScriptOf(ms, m);
  }

  predicate CleanlyEnded(rows: seq<Row>, r: Result) {
    !r.outcome.Refused? && |rows| <= |r.rows| && AllFinished(r.rows[|rows|..])
  }

  lemma {:induction false} NotRefused(hash: Hash, rows: seq<Row>, call: Call)
    requires !Apply(hash, rows, call).outcome.Refused?
    ensures Consistent(hash, rows, call.ms)
    ensures Apply(hash, rows, call) == Deploy(hash, ActiveNames(rows), rows, call.ms, call.fate)
  {
    hide Validate, Deploy, Consistent;
    ValidatesConsistency(hash, rows, call.ms);
  }

  lemma {:induction false} CleanEndIsConsistent(hash: Hash, rows: seq<Row>, call: Call)
    requires ValidCall(call) && CleanlyEnded(rows, Apply(hash, rows, call))
    ensures Consistent(hash, Apply(hash, rows, call).rows, call.ms)
  {
    hide Wrote, Deploy, Apply, Consistent;
    var r := Apply(hash, rows, call);
    ApplyWrites(hash, rows, call);
    NotRefused(hash, rows, call);
    assert r.rows == rows + r.rows[|rows|..];
    ConsistentAfter(hash, rows, r.rows[|rows|..], call.ms, r);
  }

  lemma {:induction false} ReturnIsClean(hash: Hash, rows: seq<Row>, call: Call)
    requires ValidCall(call) && Apply(hash, rows, call).outcome.Returned?
    ensures CleanlyEnded(rows, Apply(hash, rows, call))
    ensures forall n :: n in Names(call.ms) ==> n in ActiveNames(Apply(hash, rows, call).rows)
  {
    hide Deploy, Apply, Wrote, AllFinished, ActiveNames;
    var r, pending := Apply(hash, rows, call), Pending(call.ms, ActiveNames(rows));
    ApplyWrites(hash, rows, call);
    WroteAll(hash, r.rows[|rows|..], call.ms, pending, r);
    PendingIsDistinct(call.ms, ActiveNames(rows));
    StartsAreNew(hash, rows, call);
  }

  lemma {:induction false} WroteAll(hash: Hash, added: seq<Row>, ms: seq<Migration>, pending: seq<Text>, r: Result)
    requires Wrote(hash, added, ms, pending, r) && r.outcome.Returned?
    ensures AllFinished(added) && r.started == pending
  {
    hide RowNames, Written;
    assert pending[..|pending|] == pending;
  }

  /** After a call that returns, the history is consistent and has every listed migration, finished and unedited. */
  lemma {:induction false} ReturnLeavesAllFinished(hash: Hash, rows: seq<Row>, call: Call, m: Migration)
    requires ValidCall(call) && Apply(hash, rows, call).outcome.Returned? && m in call.ms
    ensures var after := Apply(hash, rows, call).rows;
      && Consistent(hash, after, call.ms)
      && exists row :: row in after && row.name == m.name && !row.rolledBack && row.finished
                       && ChecksumMatches(hash, row.checksum, m.sql)
  {
    hide Apply, ChecksumMatches, Script;
    var after := Apply(hash, rows, call).rows;
    ReturnIsClean(hash, rows, call);
    CleanEndIsConsistent(hash, rows, call);
    var k :| 0 <= k < |call.ms| && call.ms[k] == m;
    assert Names(call.ms)[k] in Names(call.ms);
    var row :| row in after && !row.rolledBack && row.name == m.name;
    assert Sound(hash, row, call.ms);
    ScriptOf(call.ms, m);
  }

  lemma {:induction false} FirstName(ms: seq<Migration>)
    requires ms != []
    ensures Names(ms) == [ms[0].name] + Names(ms[1..])
  {
  }

  lemma {:induction false} SkipOnly(rows: seq<Row>, name: Text, rest: seq<Text>)
    ensures Prepend([], [], [name], Result(rows, [], Returned([], rest)))
         == Result(rows, [], Returned([], [name] + rest))
  {
  }

  lemma {:induction false} DeployNothing(hash: Hash, done: set<Text>, rows: seq<Row>, ms: seq<Migration>,
                                         fate: Migration -> Fate)
    requires forall n :: n in Names(ms) ==> n in done
    ensures Deploy(hash, done, rows, ms, fate) == Result(rows, [], Returned([], Names(ms)))
    decreases |ms|
  {
    hide Names;
    EmptyIsIdle(hash, done, rows, fate);
    if ms != [] {
      FirstName(ms);
      var name, rest := ms[0].name, Names(ms[1..]);
      assert ([name] + rest)[0] == name;
      forall n | n in rest ensures n in done { assert n in [name] + rest; }
      DeployNothing(hash, done, rows, ms[1..], fate);
      SkipOnly(rows, name, rest);
    }
  }

  /** Repeating a call that returned applies nothing and skips everything, whatever the environment would do. */
  lemma {:induction false} RepeatAppliesNothing(hash: Hash, rows: seq<Row>, call: Call, again: Call)
    requires ValidCall(call) && Apply(hash, rows, call).outcome.Returned? && again.ms == call.ms
    ensures var after := Apply(hash, rows, call).rows;
      Apply(hash, after, again) == Result(after, [], Returned([], Names(call.ms)))
  {
    hide Deploy, ChecksumMatches, Script, Validate, Consistent;
    var after := Apply(hash, rows, call).rows;
    ReturnIsClean(hash, rows, call);
    CleanEndIsConsistent(hash, rows, call);
    ValidatesConsistency(hash, after, call.ms);
    assert Names(call.ms)[0] in Names(call.ms);
    DeployNothing(hash, ActiveNames(after), after, call.ms, again.fate);
  }

  function Undisturbed(m: Migration): Fate {
    Finishes
  }

  /** The pass left nothing unfinished, and `done'` are the names of the history after it. */
  predicate StoppedCleanly(hash: Hash, done: set<Text>, done': set<Text>, rows: seq<Row>, ms: seq<Migration>,
                           fate: Migration -> Fate) {
    var r := Deploy(hash, done, rows, ms, fate);
    && |rows| <= |r.rows| && AllFinished(r.rows[|rows|..])
    && forall n :: n in Names(ms) ==> (n in done' <==> n in done || n in RowNames(r.rows[|rows|..]))
  }

  /** An undisturbed pass after it completes what one undisturbed pass would have done. */
  predicate Resumes(hash: Hash, done: set<Text>, done': set<Text>, rows: seq<Row>, ms: seq<Migration>,
                    fate: Migration -> Fate) {
    var r := Deploy(hash, done, rows, ms, fate);
    var r' := Deploy(hash, done', r.rows, ms, Undisturbed);
    var whole := Deploy(hash, done, rows, ms, Undisturbed);
    r'.rows == whole.rows && r.started + r'.started == whole.started && r'.outcome.Returned?
  }

  lemma {:induction false} DeployResumes(hash: Hash, done: set<Text>, done': set<Text>, rows: seq<Row>,
                                         ms: seq<Migration>, fate: Migration -> Fate)
    requires Distinct(Names(ms)) && StoppedCleanly(hash, done, done', rows, ms, fate)
    ensures Resumes(hash, done, done', rows, ms, fate)
    decreases |ms|
  {
    hide Names, StoppedCleanly, Resumes, Deploy;
    if ms == [] {
      EmptyIsIdle(hash, done, rows, fate);
      ResumesIdle(hash, done, done', rows, ms, fate);
    } else {
      var m, tail := ms[0], ms[1..];
      DistinctTail(ms);
      if m.name in done {
        SkipIsClean(hash, done, done', rows, ms, fate);
        DeployResumes(hash, done, done', rows, tail, fate);
        ResumesSkip(hash, done, done', rows, ms, fate);
      } else if fate(m).Finishes? {
        var finished := Started(hash, m).(finished := true);
        FinishIsClean(hash, done, done', rows, ms, fate);
        DeployResumes(hash, done, done', rows + [finished], tail, fate);
        ResumesFinish(hash, done, done', rows, ms, fate);
      } else {
        StopIsClean(hash, done, done', rows, ms, fate);
        ResumesIdle(hash, done, done', rows, ms, fate);
      }
    }
  }

  lemma {:induction false} EmptyIsIdle(hash: Hash, done: set<Text>, rows: seq<Row>, fate: Migration -> Fate)
    ensures Deploy(hash, done, rows, [], fate) == Result(rows, [], Returned([], []))
    ensures Names([]) == []
  {
  }

  lemma {:induction false} SkipIsClean(hash: Hash, done: set<Text>, done': set<Text>, rows: seq<Row>,
                                       ms: seq<Migration>, fate: Migration -> Fate)
    requires ms != [] && Distinct(Names(ms)) && StoppedCleanly(hash, done, done', rows, ms, fate)
    requires ms[0].name in done
    ensures StoppedCleanly(hash, done, done', rows, ms[1..], fate) && ms[0].name in done'
  {
    hide RowNames, AllFinished, Names;
    DistinctTail(ms);
  }

  lemma {:induction false} ResumesSkip(hash: Hash, done: set<Text>, done': set<Text>, rows: seq<Row>,
                                       ms: seq<Migration>, fate: Migration -> Fate)
    requires ms != [] && ms[0].name in done && ms[0].name in done'
    requires Resumes(hash, done, done', rows, ms[1..], fate)
    ensures Resumes(hash, done, done', rows, ms, fate)
  {
    var r := Deploy(hash, done, rows, ms[1..], fate);
    assert [] + r.started == r.started;
  }

  lemma {:induction false} FinishIsClean(hash: Hash, done: set<Text>, done': set<Text>, rows: seq<Row>,
                                         ms: seq<Migration>, fate: Migration -> Fate)
    requires ms != [] && Distinct(Names(ms)) && StoppedCleanly(hash, done, done', rows, ms, fate)
    requires ms[0].name !in done && fate(ms[0]).Finishes?
    ensures var finished := Started(hash, ms[0]).(finished := true);
      StoppedCleanly(hash, done, done', rows + [finished], ms[1..], fate) && ms[0].name in done'
  {
    hide RowNames, AllFinished, Names;
    DistinctTail(ms);
    var finished := Started(hash, ms[0]).(finished := true);
    var rest := Deploy(hash, done, rows + [finished], ms[1..], fate);
    DeployWrites(hash, done, rows + [finished], ms[1..], fate);
    assert rest.rows[|rows|..] == [finished] + rest.rows[|rows| + 1..];
    FirstRow(finished, rest.rows[|rows| + 1..]);
  }

  lemma {:induction false} ResumesFinish(hash: Hash, done: set<Text>, done': set<Text>, rows: seq<Row>,
                                         ms: seq<Migration>, fate: Migration -> Fate)
    requires ms != [] && ms[0].name !in done && ms[0].name in done' && fate(ms[0]).Finishes?
    requires Resumes(hash, done, done', rows + [Started(hash, ms[0]).(finished := true)], ms[1..], fate)
    ensures Resumes(hash, done, done', rows, ms, fate)
  {
    var first := rows + [Started(hash, ms[0]).(finished := true)];
    var rest := Deploy(hash, done, first, ms[1..], fate);
    var second := Deploy(hash, done', rest.rows, ms[1..], Undisturbed);
    var name := [ms[0].name];
    assert name + (rest.started + second.started) == name + rest.started + ([] + second.started);
  }

  lemma {:induction false} StopIsClean(hash: Hash, done: set<Text>, done': set<Text>, rows: seq<Row>,
                                       ms: seq<Migration>, fate: Migration -> Fate)
    requires ms != [] && StoppedCleanly(hash, done, done', rows, ms, fate)
    requires ms[0].name !in done && !fate(ms[0]).Finishes?
    ensures Deploy(hash, done, rows, ms, fate) == Result(rows, [], Stopped)
    ensures forall n :: n in Names(ms) ==> (n in done' <==> n in done)
  {
    hide RowNames, AllFinished, Names;
    var row := Started(hash, ms[0]);
    assert (rows + [row])[|rows|..] == [row] + [];
    assert rows[|rows|..] == [];
    FirstRow(row, []);
  }

  lemma {:induction false} ResumesIdle(hash: Hash, done: set<Text>, done': set<Text>, rows: seq<Row>,
                                       ms: seq<Migration>, fate: Migration -> Fate)
    requires Deploy(hash, done, rows, ms, fate).rows == rows && Deploy(hash, done, rows, ms, fate).started == []
    requires forall n :: n in Names(ms) ==> (n in done' <==> n in done)
    ensures Resumes(hash, done, done', rows, ms, fate)
  {
    hide Deploy;
    UndisturbedReturns(hash, done, done', rows, ms);
  }

  lemma {:induction false} DistinctTail(ms: seq<Migration>)
    requires ms != [] && Distinct(Names(ms))
    ensures Distinct(Names(ms[1..])) && ms[0].name !in Names(ms[1..]) && Names(ms) == [ms[0].name] + Names(ms[1..])
  {
    var tail := Names(ms[1..]);
    assert forall j :: 0 <= j < |tail| ==> tail[j] == Names(ms)[j + 1];
  }

  lemma {:induction false} FirstRow(row: Row, rows: seq<Row>)
    ensures RowNames([row] + rows) == [row.name] + RowNames(rows) && RowNames([]) == []
    ensures AllFinished([row] + rows) <==> row.finished && AllFinished(rows)
  {
    var all := [row] + rows;
    assert all[1..] == rows;
    if AllFinished(all) {
      assert all[0].finished;
      assert forall i :: 0 <= i < |rows| ==> rows[i] == all[i + 1];
    }
  }

  lemma {:induction false} UndisturbedReturns(hash: Hash, done: set<Text>, done': set<Text>, rows: seq<Row>,
                                              ms: seq<Migration>)
    requires forall n :: n in Names(ms) ==> (n in done' <==> n in done)
    ensures var whole := Deploy(hash, done, rows, ms, Undisturbed);
      && Deploy(hash, done', rows, ms, Undisturbed) == whole
      && whole.outcome.Returned? && [] + whole.started == whole.started
    decreases |ms|
  {
    if ms != [] {
      var m := ms[0];
      assert Names(ms) == [m.name] + Names(ms[1..]);
      var finished := Started(hash, m).(finished := true);
      UndisturbedReturns(hash, done, done', if m.name in done then rows else rows + [finished], ms[1..]);
    }
  }

  /** A call that stopped between two migrations loses nothing: the next one goes on where it stopped. */
  lemma {:induction false} CleanStopResumes(hash: Hash, rows: seq<Row>, call: Call, again: Call, whole: Call)
    requires ValidCall(call) && again.ms == call.ms && whole == call.(fate := Undisturbed)
    requires again.fate == Undisturbed
    requires CleanlyEnded(rows, Apply(hash, rows, call))
    requires again.hasUserTables ==> !NoneActive(Apply(hash, rows, call).rows)
    ensures var stopped := Apply(hash, rows, call);
      var resumed := Apply(hash, stopped.rows, again);
      var atOnce := Apply(hash, rows, whole);
      && resumed.outcome.Returned? && resumed.rows == atOnce.rows
      && stopped.started + resumed.started == atOnce.started
  {
    hide Deploy, Validate, Consistent, Wrote, NoneActive, CleanlyEnded;
    var stopped := Apply(hash, rows, call);
    CleanEndIsConsistent(hash, rows, call);
    ValidatesConsistency(hash, stopped.rows, call.ms);
    NotRefusedAgain(hash, rows, call, whole);
    ApplyWrites(hash, rows, call);
    CleanEnd(rows, stopped);
    var added := stopped.rows[|rows|..];
    assert stopped.rows == rows + added;
    NamesOfBoth(hash, rows, added, call.ms, stopped);
    DeployResumes(hash, ActiveNames(rows), ActiveNames(stopped.rows), rows, call.ms, call.fate);
  }

  lemma {:induction false} CleanEnd(rows: seq<Row>, r: Result)
    requires CleanlyEnded(rows, r)
    ensures !r.outcome.Refused? && |rows| <= |r.rows| && AllFinished(r.rows[|rows|..])
  {
  }

  lemma {:induction false} NotRefusedAgain(hash: Hash, rows: seq<Row>, call: Call, whole: Call)
    requires CleanlyEnded(rows, Apply(hash, rows, call)) && whole == call.(fate := Undisturbed)
    ensures Apply(hash, rows, call) == Deploy(hash, ActiveNames(rows), rows, call.ms, call.fate)
    ensures Apply(hash, rows, whole) == Deploy(hash, ActiveNames(rows), rows, call.ms, Undisturbed)
  {
    hide Deploy, Validate;
  }

  lemma {:induction false} NamesOfBoth(hash: Hash, rows: seq<Row>, added: seq<Row>, ms: seq<Migration>, r: Result)
    requires Wrote(hash, added, ms, Pending(ms, ActiveNames(rows)), r)
    ensures forall n :: n in ActiveNames(rows + added) <==> n in ActiveNames(rows) || n in RowNames(added)
  {
    forall n ensures n in ActiveNames(rows + added) <==> n in ActiveNames(rows) || n in RowNames(added) {
      if n in RowNames(added) {
        var i :| 0 <= i < |added| && RowNames(added)[i] == n;
        assert Written(hash, added[i], ms);
        NotRolledBack(hash, added[i], ms);
        assert added[i] in rows + added;
      }
      if n in ActiveNames(rows + added) && n !in ActiveNames(rows) {
        var row :| row in rows + added && !row.rolledBack && row.name == n;
        assert row in added;
        var i :| 0 <= i < |added| && added[i] == row;
        assert RowNames(added)[i] == n;
      }
    }
  }

  /** A script that fails always blocks the calls after it; so does any stop once the started row is written. */
  lemma {:induction false} FailureBlocks(hash: Hash, rows: seq<Row>, call: Call, later: seq<Call>)
    requires ValidCall(call)
    ensures var r := Apply(hash, rows, call);
      r.outcome.ApplyFailed? ==> r.started != [] && r.outcome.name == r.started[|r.started| - 1]
                                 && Run(hash, r.rows, later) == (r.rows, [])
  {
    hide Run, Validate;
    var r := Apply(hash, rows, call);
    if r.outcome.ApplyFailed? {
      FailureLeavesRow(hash, ActiveNames(rows), rows, call.ms, call.fate);
      UnfinishedBlocks(hash, r.rows, later);
    }
  }

  lemma {:induction false} FailureLeavesRow(hash: Hash, done: set<Text>, rows: seq<Row>, ms: seq<Migration>,
                                            fate: Migration -> Fate)
    requires Deploy(hash, done, rows, ms, fate).outcome.ApplyFailed?
    ensures var r := Deploy(hash, done, rows, ms, fate);
      HasUnfinished(r.rows) && r.started != [] && r.outcome.name == r.started[|r.started| - 1]
    decreases |ms|
  {
    var m := ms[0];
    if m.name in done {
      FailureLeavesRow(hash, done, rows, ms[1..], fate);
    } else if fate(m).Finishes? {
      FailureLeavesRow(hash, done, rows + [Started(hash, m).(finished := true)], ms[1..], fate);
    } else {
      assert (rows + [Started(hash, m)])[|rows|] == Started(hash, m);
    }
  }

  // ---- The calls as the source has them ----

  /** Refuses a history that the migrations on disk do not explain. */
  method ValidateHistory(hash: Hash, rows: seq<Row>, ms: seq<Migration>) returns (error: Option<HistoryError>)
    ensures error == Validate(hash, rows, ms)
  {
    hide Active, UnfinishedNames, MissingNames, Script, ChecksumMatches;
    var active := Active(rows);
    var failed := UnfinishedNames(active);
    if failed != [] { return Some(Unfinished(failed)); }

    var seen := {};
    for i := 0 to |active|
      invariant FirstRepeat(active, {}) == FirstRepeat(active[i..], seen)
    {
      assert active[i..][1..] == active[i + 1..];
      if active[i].name in seen { return Some(Duplicate(active[i].name)); }
      seen := seen + {active[i].name};
    }

    var missing := MissingNames(active, ms);
    if missing != [] { return Some(Missing(missing)); }

    for i := 0 to |active|
      invariant FirstEdited(hash, active, ms) == FirstEdited(hash, active[i..], ms)
    {
      assert active[i..][1..] == active[i + 1..];
      var sql := Script(ms, active[i].name);
      if sql.Some? && !ChecksumMatches(hash, active[i].checksum, sql.value) { return Some(Modified(active[i].name)); }
    }
    return None;
  }

  /** The database: its history table, and the scripts that were ever started in it. */
  class Database {
    var rows: seq<Row>
    ghost var started: seq<Text>

    /** One call; `fate` is what the environment does at each pending migration. */
    method ApplyMigrations(hash: Hash, ms: seq<Migration>, hasUserTables: bool, fate: Migration -> Fate)
      returns (outcome: Outcome)
      modifies this
      ensures var r := Apply(hash, old(rows), Call(ms, hasUserTables, fate));
        rows == r.rows && started == old(started) + r.started && outcome == r.outcome
    {
      hide Validate, Deploy;
      var every := true;
      for i := 0 to |rows|
        invariant rows == old(rows) && started == old(started)
        invariant every <==> forall j :: 0 <= j < i ==> rows[j].rolledBack
      {
        every := every && rows[i].rolledBack;
      }
      if every && hasUserTables { return Refused(NotBaselined); }
      var error := ValidateHistory(hash, rows, ms);
      if error.Some? { return Refused(error.value); }
      outcome := DeployPending(hash, ms, fate);
    }

    method DeployPending(hash: Hash, ms: seq<Migration>, fate: Migration -> Fate) returns (outcome: Outcome)
      modifies this
      ensures var r := Deploy(hash, ActiveNames(old(rows)), old(rows), ms, fate);
        rows == r.rows && started == old(started) + r.started && outcome == r.outcome
    {
      hide Deploy;
      var done := ActiveNames(rows);
      var applied, skipped := [], [];
      ghost var before, all := started, Deploy(hash, done, rows, ms, fate);
      ghost var ran := [];
      PrependNothing(all);
      for i := 0 to |ms|
        invariant started == before + ran
        invariant all == Prepend(ran, applied, skipped, Deploy(hash, done, rows, ms[i..], fate))
      {
        var migration := ms[i];
        DeployUnfolds(hash, done, rows, ms, i, fate, ran, applied, skipped);
        if migration.name in done {
          skipped := skipped + [migration.name];
          continue;
        }
        if fate(migration) == StopsBeforeInsert { return Stopped; }
        var id := |rows|;
        rows := rows + [Row(migration.name, hash(migration.sql), false, false)];
        if fate(migration) == StopsAfterInsert { return Stopped; }
        started, ran := started + [migration.name], ran + [migration.name];
        if fate(migration) == ScriptFails { return ApplyFailed(migration.name); }
        if fate(migration) == StopsBeforeFinish { return Stopped; }
        rows := rows[id := rows[id].(finished := true)];
        applied := applied + [migration.name];
      }
      assert ms[|ms|..] == [];
      DeployNone(hash, done, rows, fate, ran, applied, skipped);
      return Returned(applied, skipped);
    }
  }

  lemma {:induction false} PrependNothing(r: Result)
    ensures Prepend([], [], [], r) == r
  {
    assert [] + r.started == r.started;
    assert r.outcome.Returned? ==>
      [] + r.outcome.applied == r.outcome.applied && [] + r.outcome.skipped == r.outcome.skipped;
  }

  lemma {:induction false} DeployNone(hash: Hash, done: set<Text>, rows: seq<Row>, fate: Migration -> Fate,
                                      ran: seq<Text>, applied: seq<Text>, skipped: seq<Text>)
    ensures Prepend(ran, applied, skipped, Deploy(hash, done, rows, [], fate))
         == Result(rows, ran, Returned(applied, skipped))
  {
    assert ran + [] == ran && applied + [] == applied && skipped + [] == skipped;
  }

  /** One migration further, with what was collected so far. */
  lemma {:induction false} DeployUnfolds(hash: Hash, done: set<Text>, rows: seq<Row>, ms: seq<Migration>, i: nat,
      fate: Migration -> Fate, ran: seq<Text>, applied: seq<Text>, skipped: seq<Text>)
    requires i < |ms|
    ensures var m, row := ms[i], Started(hash, ms[i]);
      Prepend(ran, applied, skipped, Deploy(hash, done, rows, ms[i..], fate)) ==
        if m.name in done then
          Prepend(ran, applied, skipped + [m.name], Deploy(hash, done, rows, ms[i + 1..], fate))
        else match fate(m)
          case StopsBeforeInsert => Result(rows, ran, Stopped)
          case StopsAfterInsert => Result(rows + [row], ran, Stopped)
          case ScriptFails => Result(rows + [row], ran + [m.name], ApplyFailed(m.name))
          case StopsBeforeFinish => Result(rows + [row], ran + [m.name], Stopped)
          case Finishes =>
            var rows' := (rows + [row])[|rows| := row.(finished := true)];
            Prepend(ran + [m.name], applied + [m.name], skipped, Deploy(hash, done, rows', ms[i + 1..], fate))
  {
    var m, row := ms[i], Started(hash, ms[i]);
    assert ms[i..][1..] == ms[i + 1..];
    assert ran + [] == ran;
    assert (rows + [row])[|rows| := row.(finished := true)] == rows + [row.(finished := true)];
    PrependTwice(ran, applied, skipped, [], [], [m.name], Deploy(hash, done, rows, ms[i + 1..], fate));
    PrependTwice(ran, applied, skipped, [m.name], [m.name], [],
                 Deploy(hash, done, rows + [row.(finished := true)], ms[i + 1..], fate));
  }

  lemma {:induction false} PrependTwice(ran: seq<Text>, applied: seq<Text>, skipped: seq<Text>,
                                        ran': seq<Text>, applied': seq<Text>, skipped': seq<Text>, r: Result)
    ensures Prepend(ran, applied, skipped, Prepend(ran', applied', skipped', r))
         == Prepend(ran + ran', applied + applied', skipped + skipped', r)
    ensures ran + [] == ran && applied + [] == applied && skipped + [] == skipped
  {
    assert ran + (ran' + r.started) == ran + ran' + r.started;
    if r.outcome.Returned? {
      assert applied + (applied' + r.outcome.applied) == applied + applied' + r.outcome.applied;
      assert skipped + (skipped' + r.outcome.skipped) == skipped + skipped' + r.outcome.skipped;
    }
  }
}
