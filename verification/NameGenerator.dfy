/**
 * The statement-name generator and the client's Close queue as objects (src/utils/statement-names.ts,
 * src/pool/pg-bridge-client.ts), and what its names look like: `ppb_<namespace>_<serial>`.
 */
module NameGenerator {
  import opened Wrappers
  import opened Text
  import opened Recency
  import opened StatementNames

  // ---- Spelling of names ----

  const UNDERSCORE: CodeUnit := 0x5f

  function Digit(n: nat): CodeUnit
    requires n < 10
  {
    0x30 + n as CodeUnit
  }

  function Decimal(n: nat): (t: Text)
    ensures t != []
  {
    if n < 10 then [Digit(n)] else Decimal(n / 10) + [Digit(n % 10)]
  }

  /** The number a digit string spells. */
  function Value(t: Text): nat {
    if t == [] then 0 else
    10 * Value(t[..|t| - 1]) + if t[|t| - 1] >= 0x30 then (t[|t| - 1] - 0x30) as nat else 0
  }

  lemma {:induction false} DecimalRoundTrip(n: nat)
    ensures Value(Decimal(n)) == n && UNDERSCORE !in Decimal(n)
  {
    if n >= 10 {
      DecimalRoundTrip(n / 10);
      assert Decimal(n)[..|Decimal(n)| - 1] == Decimal(n / 10);
    } else {
      assert Decimal(n)[..0] == [];
    }
  }

  const PREFIX: Text := Ascii("ppb_")

  function Name(namespace: nat, serial: nat): Text {
    PREFIX + Decimal(namespace) + [UNDERSCORE] + Decimal(serial)
  }

  /** `t` is `n` in decimal digits, without leading zeros. */
  predicate IsNumeral(t: Text, n: nat) {
    && t != [] && (|t| > 1 ==> t[0] != 0x30)
    && (forall i :: 0 <= i < |t| ==> 0x30 <= t[i] <= 0x39)
    && Value(t) == n
  }

  lemma {:induction false} DecimalIsNumeral(n: nat)
    ensures IsNumeral(Decimal(n), n) && (n > 0 ==> Decimal(n)[0] != 0x30)
  {
    DecimalRoundTrip(n);
    if n >= 10 { DecimalIsNumeral(n / 10); }
  }

  /** A name is `ppb_`, the namespace, an underscore and the serial number. */
  lemma {:induction false} NameIsSpelled(namespace: nat, serial: nat)
    ensures exists a, b :: (
      && IsNumeral(a, namespace) && IsNumeral(b, serial)
      && Name(namespace, serial) == Ascii("ppb_") + a + Ascii("_") + b)
  {
    hide IsNumeral, Decimal;
    var a, b := Decimal(namespace), Decimal(serial);
    DecimalIsNumeral(namespace);
    DecimalIsNumeral(serial);
    assert Ascii("_") == [UNDERSCORE];
    assert IsNumeral(a, namespace) && IsNumeral(b, serial);
  }

  /** A name tells its namespace and its serial number. */
  lemma {:induction false} NameIsInjective(ns1: nat, k1: nat, ns2: nat, k2: nat)
    requires Name(ns1, k1) == Name(ns2, k2)
    ensures ns1 == ns2 && k1 == k2
  {
    hide Decimal, Value;
    DecimalRoundTrip(ns1);
    DecimalRoundTrip(ns2);
    DecimalRoundTrip(k1);
    DecimalRoundTrip(k2);
    FirstSplit(Decimal(ns1), Decimal(k1), Decimal(ns2), Decimal(k2)) by {
      var a, b := Name(ns1, k1)[|PREFIX|..], Name(ns2, k2)[|PREFIX|..];
      assert a == Decimal(ns1) + [UNDERSCORE] + Decimal(k1);
      assert b == Decimal(ns2) + [UNDERSCORE] + Decimal(k2);
    }
  }

  /** A text splits in one way at its first underscore. */
  lemma {:induction false} FirstSplit(a: Text, b: Text, c: Text, d: Text)
    requires a + [UNDERSCORE] + b == c + [UNDERSCORE] + d
    requires UNDERSCORE !in a && UNDERSCORE !in c
    ensures a == c && b == d
  {
    var t := a + [UNDERSCORE] + b;
    assert t[|a|] == UNDERSCORE && t[|c|] == UNDERSCORE;
    assert forall i :: 0 <= i < |a| ==> t[i] == a[i];
    assert forall i :: 0 <= i < |c| ==> t[i] == c[i];
    assert t[..|a|] == a && t[..|c|] == c;
    assert t[|a| + 1..] == b && t[|c| + 1..] == d;
  }

  // ---- Namespaces ----

  /** The process-wide slot: a counter, or anything else that was put there. */
  datatype Slot = Counter(n: nat) | Junk

  function Healed(slot: Slot): nat {
    if slot.Counter? then slot.n else 0
  }

  /** The namespaces of the next `k` generators, if nobody else writes the slot. */
  function Namespaces(slot: Slot, k: nat): seq<nat>
    decreases k
  {
    if k == 0 then [] else [Healed(slot)] + Namespaces(Counter(Healed(slot) + 1), k - 1)
  }

  lemma {:induction false} NamespacesCountUp(slot: Slot, k: nat, i: nat)
    requires i < k
    ensures |Namespaces(slot, k)| == k && Namespaces(slot, k)[i] == Healed(slot) + i
    decreases k
  {
    var next := Counter(Healed(slot) + 1);
    if k > 1 {
      NamespacesCountUp(next, k - 1, if i > 0 then i - 1 else 0);
    }
  }

  /** As long as nobody else writes the slot, no two generators of a process issue the same name. */
  lemma {:induction false} GeneratorsNeverCollide(slot: Slot, k: nat, i: nat, j: nat, a: nat, b: nat)
    requires i < j < k
    ensures |Namespaces(slot, k)| == k
    ensures Name(Namespaces(slot, k)[i], a) != Name(Namespaces(slot, k)[j], b)
  {
    NamespacesCountUp(slot, k, i);
    NamespacesCountUp(slot, k, j);
    if Name(Namespaces(slot, k)[i], a) == Name(Namespaces(slot, k)[j], b) {
      NameIsInjective(Namespaces(slot, k)[i], a, Namespaces(slot, k)[j], b);
    }
  }

  /**
   * Somebody else writes the slot after `k` generators, and `m` more follow: one of these gets the namespace of an
   * earlier one exactly if the two ranges of namespaces meet. Anything that is not a counter reads as 0.
   */
  lemma {:induction false} OverwriteCollidesIff(slot: Slot, k: nat, written: Slot, m: nat)
    ensures (exists n :: n in Namespaces(slot, k) && n in Namespaces(written, m)) <==>
              k > 0 && m > 0 && Healed(written) < Healed(slot) + k && Healed(slot) < Healed(written) + m
  {
    NamespacesAre(slot, k);
    NamespacesAre(written, m);
    if k > 0 && m > 0 && Healed(written) < Healed(slot) + k && Healed(slot) < Healed(written) + m {
      var n := if Healed(slot) < Healed(written) then Healed(written) else Healed(slot);
      assert n in Namespaces(slot, k) && n in Namespaces(written, m);
    }
  }

  /** The generators get the numbers from the slot's on. */
  lemma {:induction false} NamespacesAre(slot: Slot, k: nat)
    ensures forall n: nat :: n in Namespaces(slot, k) <==> Healed(slot) <= n < Healed(slot) + k
  {
    CountsUpAll(slot, k);
    forall n: nat | Healed(slot) <= n < Healed(slot) + k ensures n in Namespaces(slot, k) {
      assert Namespaces(slot, k)[n - Healed(slot)] == n;
    }
  }

  lemma {:induction false} CountsUpAll(slot: Slot, k: nat)
    ensures |Namespaces(slot, k)| == k && forall i :: 0 <= i < k ==> Namespaces(slot, k)[i] == Healed(slot) + i
  {
    if k > 0 {
      NamespacesCountUp(slot, k, 0);
      forall i | 0 <= i < k { NamespacesCountUp(slot, k, i); }
    }
  }

  /** Two generators of a process that overwrites the fresh slot in between issue the same names. */
  lemma {:induction false} OverwrittenSlotCollides(serial: nat)
    ensures Name(Namespaces(Counter(0), 1)[0], serial) == Name(Namespaces(Junk, 1)[0], serial)
  {
    NamespacesCountUp(Counter(0), 1, 0);
    NamespacesCountUp(Junk, 1, 0);
  }

  class NamespaceSlot {
    var slot: Slot

    constructor (slot: Slot)
      ensures this.slot == slot
    {
      this.slot := slot;
    }

    method NextNamespace() returns (id: nat)
      modifies this
      ensures id == Healed(old(slot)) && slot == Counter(id + 1)
    {
      id := match slot { case Counter(n) => n case Junk => 0 };
      slot := Counter(id + 1);
    }
  }

  // ---- Live, pending and closed names ----

  datatype Request = Query(sql: Text) | Flush

  /** The generator, and the serial numbers of the names that wait for a Close or have got one. */
  datatype Client = Client(gen: Gen, pending: seq<nat>, closed: seq<nat>)

  function Handle(c: Config, s: Client, r: Request): Client {
    match r
    case Query(sql) =>
      var g := s.gen;
      Client(Step(c, g, sql),
             if Evicts(c, g, sql) && g.names[0] in g.serialOf then s.pending + [g.serialOf[g.names[0]]] else s.pending,
             s.closed)
    case Flush => s.(pending := [], closed := s.closed + s.pending)
  }

  function Serve(c: Config, requests: seq<Request>): Client {
    if requests == [] then Client(EMPTY, [], []) else
    Handle(c, Serve(c, requests[..|requests| - 1]), requests[|requests| - 1])
  }

  /** The text issued serial number `k` still has that name. */
  predicate Live(g: Gen, k: nat) {
    k < |g.issued| && g.issued[k] in g.serialOf && g.serialOf[g.issued[k]] == k
  }

  /** Every issued name is live, pending or closed, and only one of these; none is closed twice. */
  ghost predicate Accounted(s: Client) {
    var gone := s.closed + s.pending;
    && Distinct(gone)
    && (forall k: nat :: k < |s.gen.issued| <==> Live(s.gen, k) || k in gone)
    && (forall k: nat :: !(Live(s.gen, k) && k in gone))
  }

  /** The names that go and come when `sql` is served. */
  lemma {:induction false} LiveAfterStep(c: Config, g: Gen, sql: Text, k: nat)
    requires Inv(c, g)
    ensures !Promotes(c, g, sql) ==> Live(Step(c, g, sql), k) == Live(g, k)
    ensures Promotes(c, g, sql) && !Evicts(c, g, sql)
      ==> (Live(Step(c, g, sql), k) <==> Live(g, k) || k == |g.issued|)
    ensures Promotes(c, g, sql) && Evicts(c, g, sql)
      ==> (Live(Step(c, g, sql), k) <==> (Live(g, k) && g.issued[k] != g.names[0]) || k == |g.issued|)
  {
    hide Eligible;
    assert sql in g.serialOf || Eligible(sql) || Step(c, g, sql) == g;
    assert forall t :: t in g.serialOf ==> g.serialOf[t] < |g.issued|;
  }

  lemma {:induction false} IssuedAfterStep(c: Config, g: Gen, sql: Text)
    ensures Step(c, g, sql).issued == if Promotes(c, g, sql) then g.issued + [sql] else g.issued
  {
    hide Eligible;
  }

  lemma {:induction false} QueryKeepsAccounts(c: Config, s: Client, sql: Text)
    requires Inv(c, s.gen) && Accounted(s)
    ensures Inv(c, Handle(c, s, Query(sql)).gen) && Accounted(Handle(c, s, Query(sql)))
  {
    hide Eligible, Live, Step, Inv, Promotes;
    var g, s' := s.gen, Handle(c, s, Query(sql));
    StepKeepsInv(c, g, sql);
    forall k: nat { LiveAfterStep(c, g, sql, k); }
    IssuedAfterStep(c, g, sql);
    if Evicts(c, g, sql) {
      EvictedIsLive(c, g, sql);
      assert s'.closed + s'.pending == (s.closed + s.pending) + [g.serialOf[g.names[0]]];
    }
  }

  lemma {:induction false} EvictedIsLive(c: Config, g: Gen, sql: Text)
    requires Inv(c, g) && Evicts(c, g, sql)
    ensures g.names[0] in g.serialOf && Promotes(c, g, sql)
    ensures forall k: nat :: Live(g, k) ==> (g.issued[k] == g.names[0] <==> k == g.serialOf[g.names[0]])
    ensures Live(g, g.serialOf[g.names[0]])
  {
    hide Eligible;
    assert g.names[0] in Values(g.names);
  }

  /** Names are conserved over every run of queries and flushes. */
  lemma {:induction false} NamesAreConserved(c: Config, requests: seq<Request>)
    ensures Inv(c, Serve(c, requests).gen) && Accounted(Serve(c, requests))
  {
    hide Step, Evicts;
    if requests != [] {
      var init, last := requests[..|requests| - 1], requests[|requests| - 1];
      NamesAreConserved(c, init);
      var s := Serve(c, init);
      match last {
        case Query(sql) => QueryKeepsAccounts(c, s, sql);
        case Flush => assert s.closed + s.pending + [] == s.closed + s.pending;
      }
    }
  }

  // ---- The generator as an object ----

  class StatementNameGenerator {
    const capacity: int
    const minUsages: int
    const namespace: nat
    var counts: seq<Text>
    var countOf: map<Text, nat>
    var names: seq<Text>
    var nameOf: map<Text, Text>
    var serial: nat
    ghost var serialOf: map<Text, nat>
    ghost var issued: seq<Text>

    ghost function Settings(): Config {
      Config(capacity, minUsages)
    }

    ghost function State(): Gen
      reads this
    {
      Gen(counts, countOf, names, serialOf, issued)
    }

    ghost predicate Valid()
      reads this
    {
      && Inv(Settings(), State())
      && serial == |issued|
      && nameOf.Keys == serialOf.Keys
      && forall t :: t in nameOf ==> nameOf[t] == Name(namespace, serialOf[t])
    }

    constructor (capacity: int, minUsages: int, namespace: nat)
      ensures Valid() && State() == EMPTY
      ensures Settings() == Config(capacity, minUsages) && this.namespace == namespace
    {
      this.capacity, this.minUsages, this.namespace := capacity, minUsages, namespace;
      counts, countOf, names, nameOf, serial := [], map[], [], map[], 0;
      serialOf, issued := map[], [];
    }

    /** The name of `sql`, if it has or now earns one; `evicted` is the name that had to make room. */
    method Next(sql: Text) returns (name: Option<Text>, evicted: Option<Text>)
      requires Valid()
      modifies this
      ensures Valid() && State() == Step(Settings(), old(State()), sql)
      ensures match Answer(Settings(), old(State()), sql)
              case Some(k) => name == Some(Name(namespace, k))
              case None => name == None
      ensures match Evicted(Settings(), old(State()), sql)
              case Some(k) => evicted == Some(Name(namespace, k))
              case None => evicted == None
    {
      hide Eligible, Inv, Name, Promote;
      StepKeepsInv(Settings(), State(), sql);
      evicted := None;
      if !Eligible(sql) { return None, None; }
      if sql in nameOf {
        name := Some(nameOf[sql]);
        names := Touch(names, sql);
        return;
      }
      var count := (if sql in countOf then countOf[sql] else 0) + 1;
      if count < minUsages {
        AddCount(sql, count);
        return None, None;
      }
      name, evicted := AddName(sql);
    }

    /** Gives `sql` the next name; at capacity, the least recently used text loses its own. */
    method AddName(sql: Text) returns (name: Option<Text>, evicted: Option<Text>)
      requires Valid() && Promotes(Settings(), State(), sql)
      modifies this`counts, this`countOf, this`names, this`nameOf, this`serial, this`serialOf, this`issued
      ensures State() == Promote(Settings(), old(State()), sql)
      ensures serial == |issued| && nameOf.Keys == serialOf.Keys
      ensures forall t :: t in nameOf ==> nameOf[t] == Name(namespace, serialOf[t])
      ensures name == Some(Name(namespace, old(serial)))
      ensures match Evicted(Settings(), old(State()), sql)
              case Some(k) => evicted == Some(Name(namespace, k))
              case None => evicted == None
    {
      hide Eligible, Name, Distinct, Values;
      counts, countOf := Remove(counts, sql), countOf - {sql};
      evicted := None;
      if |names| >= capacity && |names| > 0 {
        var lruName := DropOldest();
        evicted := Some(lruName);
      }
      var newName := Name(namespace, serial);
      serialOf, issued := serialOf[sql := serial], issued + [sql];
      serial := serial + 1;
      names, nameOf := names + [sql], nameOf[sql := newName];
      name := Some(newName);
    }

    /** Forgets the least recently used name. */
    method DropOldest() returns (lruName: Text)
      requires names != [] && Values(names) == serialOf.Keys
      requires nameOf.Keys == serialOf.Keys
      requires forall t :: t in nameOf ==> nameOf[t] == Name(namespace, serialOf[t])
      modifies this`names, this`nameOf, this`serialOf
      ensures names == old(names[1..]) && serialOf == old(serialOf - {names[0]}) && nameOf.Keys == serialOf.Keys
      ensures forall t :: t in nameOf ==> nameOf[t] == Name(namespace, serialOf[t])
      ensures old(names[0]) in old(serialOf) && lruName == Name(namespace, old(serialOf[names[0]]))
    {
      hide Name;
      assert names[0] in Values(names);
      var lru := names[0];
      lruName := nameOf[lru];
      names, nameOf, serialOf := names[1..], nameOf - {lru}, serialOf - {lru};
    }

    /** Records a sighting as the most recent one and prunes the least recent beyond the cap. */
    method AddCount(sql: Text, count: nat)
      requires count == CountBefore(State(), sql) + 1
      modifies this`counts, this`countOf
      ensures State() == Count(Settings(), old(State()), sql)
    {
      counts, countOf := Touch(counts, sql), countOf[sql := count];
      if |counts| > capacity {
        countOf, counts := countOf - {counts[0]}, counts[1..];
      }
    }
  }

  /** The part of the client that owns a generator and frees what it evicts. */
  class PgBridgeClient {
    const generator: StatementNameGenerator
    var pendingCloses: seq<Text>
    var closesSent: seq<Text>
    var parsedStatements: set<Text>
    var fieldsCache: map<Text, nat>
    ghost var state: Client

    ghost predicate Valid()
      reads this, generator
    {
      && generator.Valid() && state.gen == generator.State()
      && Accounted(state)
      && Spelled(pendingCloses, state.pending) && Spelled(closesSent, state.closed)
    }

    ghost predicate Spelled(names: seq<Text>, serials: seq<nat>) {
      |names| == |serials| && forall i :: 0 <= i < |names| ==> names[i] == Name(generator.namespace, serials[i])
    }

    constructor (generator: StatementNameGenerator)
      requires generator.Valid() && generator.State() == EMPTY
      ensures Valid() && this.generator == generator && state == Client(EMPTY, [], [])
    {
      this.generator := generator;
      pendingCloses, closesSent, parsedStatements, fieldsCache := [], [], {}, map[];
      state := Client(EMPTY, [], []);
    }

    method NameFor(sql: Text) returns (name: Option<Text>)
      requires Valid()
      modifies this, generator
      ensures Valid() && state == Handle(generator.Settings(), old(state), Query(sql))
      ensures match Answer(generator.Settings(), old(state).gen, sql)
              case Some(k) => name == Some(Name(generator.namespace, k))
              case None => name == None
    {
      hide Eligible, Accounted, Step, Name;
      QueryKeepsAccounts(generator.Settings(), state, sql);
      ghost var g := state.gen;
      assert g.names != [] ==> g.names[0] in Values(g.names);
      state := Handle(generator.Settings(), state, Query(sql));
      var evicted: Option<Text>;
      name, evicted := generator.Next(sql);
      if evicted.Some? {
        pendingCloses := pendingCloses + [evicted.value];
      }
    }

    /** Sends one Close per evicted name and forgets what the client knew about it. */
    method FlushPendingCloses()
      requires Valid()
      modifies this
      ensures Valid() && state == Handle(generator.Settings(), old(state), Flush)
      ensures pendingCloses == [] && closesSent == old(closesSent) + old(pendingCloses)
      ensures parsedStatements == old(parsedStatements) - Values(old(pendingCloses))
      ensures fieldsCache == old(fieldsCache) - Values(old(pendingCloses))
    {
      var spliced := pendingCloses;
      pendingCloses := [];
      for i := 0 to |spliced|
        invariant pendingCloses == [] && state == old(state)
        invariant closesSent == old(closesSent) + spliced[..i]
        invariant parsedStatements == old(parsedStatements) - Values(spliced[..i])
        invariant fieldsCache == old(fieldsCache) - Values(spliced[..i])
      {
        var name := spliced[i];
        assert spliced[..i + 1] == spliced[..i] + [name];
        closesSent := closesSent + [name];
        parsedStatements := parsedStatements - {name};
        fieldsCache := fieldsCache - {name};
      }
      assert spliced[..|spliced|] == spliced;
      state := Handle(generator.Settings(), state, Flush);
      assert state.closed + state.pending == old(state).closed + old(state).pending;
    }
  }
}
