/** Recency lists: distinct values in order of their last touch, oldest first. */
module Recency {
  predicate Distinct<T(==)>(r: seq<T>) {
    forall i, j :: 0 <= i < j < |r| ==> r[i] != r[j]
  }

  function Remove<T(==)>(r: seq<T>, x: T): seq<T> {
    if r == [] then [] else (if r[0] == x then [] else [r[0]]) + Remove(r[1..], x)
  }

  /** Makes `x` the most recent value. */
  function Touch<T(==)>(r: seq<T>, x: T): seq<T> {
    Remove(r, x) + [x]
  }

  /** The values of `h` in order of their last occurrence. */
  function ByRecency<T(==)>(h: seq<T>): seq<T> {
    if h == [] then [] else Touch(ByRecency(h[..|h| - 1]), h[|h| - 1])
  }

  /** The last `n` values. */
  function Latest<T>(r: seq<T>, n: nat): seq<T> {
    if |r| <= n then r else r[|r| - n..]
  }

  lemma {:induction false} RemoveAbsent<T>(r: seq<T>, x: T)
    requires x !in r
    ensures Remove(r, x) == r
  {
    if r != [] {
      RemoveAbsent(r[1..], x);
    }
  }

  lemma {:induction false} RemoveAppend<T>(a: seq<T>, b: seq<T>, x: T)
    ensures Remove(a + b, x) == Remove(a, x) + Remove(b, x)
  {
    if a == [] {
      assert a + b == b;
    } else {
      assert (a + b)[1..] == a[1..] + b;
      RemoveAppend(a[1..], b, x);
    }
  }

  lemma {:induction false} RemoveMembers<T>(r: seq<T>, x: T)
    ensures forall y :: y in Remove(r, x) <==> y in r && y != x
  {
    if r != [] {
      RemoveMembers(r[1..], x);
      assert r == [r[0]] + r[1..];
    }
  }

  lemma {:induction false} RemoveDistinct<T>(r: seq<T>, x: T)
    requires Distinct(r)
    ensures Distinct(Remove(r, x))
  {
    if r != [] {
      RemoveDistinct(r[1..], x);
      RemoveMembers(r[1..], x);
      var rest := Remove(r[1..], x);
      forall j | 0 <= j < |rest| ensures rest[j] != r[0] {
        assert rest[j] in rest;
      }
    }
  }

  lemma {:induction false} TouchDistinct<T>(r: seq<T>, x: T)
    requires Distinct(r)
    ensures Distinct(Touch(r, x))
  {
    RemoveDistinct(r, x);
    RemoveMembers(r, x);
    var rest := Remove(r, x);
    forall j | 0 <= j < |rest| ensures rest[j] != x {
      assert rest[j] in rest;
    }
  }

  lemma {:induction false} ByRecencyDistinct<T>(h: seq<T>)
    ensures Distinct(ByRecency(h))
  {
    if h != [] {
      ByRecencyDistinct(h[..|h| - 1]);
      TouchDistinct(ByRecency(h[..|h| - 1]), h[|h| - 1]);
    }
  }

  /** A value that is not among the latest `n` can be appended to them, and the oldest dropped. */
  lemma {:induction false} TouchAbsent<T>(r: seq<T>, x: T, n: nat)
    requires Distinct(r) && x !in Latest(r, n)
    ensures Latest(Touch(r, x), n) == Latest(Latest(r, n) + [x], n)
  {
    var gone, kept := r[..|r| - |Latest(r, n)|], Latest(r, n);
    assert r == gone + kept;
    RemoveAppend(gone, kept, x);
    RemoveAbsent(kept, x);
    if |r| <= n {
      assert gone == [];
    }
  }

  /** A value among the latest `n` just moves to the end of them. */
  lemma {:induction false} TouchPresent<T>(r: seq<T>, x: T, n: nat)
    requires Distinct(r) && x in Latest(r, n)
    ensures Latest(Touch(r, x), n) == Touch(Latest(r, n), x)
  {
    hide Touch;
    var kept := Latest(r, n);
    var gone := r[..|r| - |kept|];
    assert r == gone + kept;
    TouchSuffix(gone, kept, x);
    LatestSuffix(gone, Touch(kept, x), n);
  }

  lemma {:induction false} TouchSuffix<T>(a: seq<T>, b: seq<T>, x: T)
    requires Distinct(a + b) && x in b
    ensures Touch(a + b, x) == a + Touch(b, x) && |Touch(b, x)| == |b|
  {
    NotInBoth(a, b, x);
    RemoveAppend(a, b, x);
    RemoveAbsent(a, x);
    RemoveOne(b, x);
  }

  lemma {:induction false} NotInBoth<T>(a: seq<T>, b: seq<T>, x: T)
    requires Distinct(a + b) && x in b
    ensures x !in a && Distinct(b)
  {
    var j :| 0 <= j < |b| && b[j] == x;
    assert (a + b)[|a| + j] == x;
    forall i | 0 <= i < |a| ensures a[i] != x {
      assert (a + b)[i] == a[i];
    }
    forall i, k | 0 <= i < k < |b| ensures b[i] != b[k] {
      assert (a + b)[|a| + i] == b[i] && (a + b)[|a| + k] == b[k];
    }
  }

  lemma {:induction false} LatestSuffix<T>(a: seq<T>, b: seq<T>, n: nat)
    requires |b| == n || (a == [] && |b| <= n)
    ensures Latest(a + b, n) == b
  {
    assert a == [] ==> a + b == b;
  }

  lemma {:induction false} RemoveOne<T>(r: seq<T>, x: T)
    requires Distinct(r) && x in r
    ensures |Remove(r, x)| == |r| - 1
  {
    if r[0] == x {
      assert x !in r[1..];
      RemoveAbsent(r[1..], x);
    } else {
      assert x in r[1..];
      RemoveOne(r[1..], x);
    }
  }

  /** The values touched in `h` after the last occurrence of `x`. */
  function Since<T(==)>(h: seq<T>, x: T): set<T> {
    if h == [] || h[|h| - 1] == x then {} else Since(h[..|h| - 1], x) + {h[|h| - 1]}
  }

  function Values<T(==)>(r: seq<T>): set<T> {
    set y | y in r
  }

  /** The values listed after `x`. */
  function After<T(==)>(r: seq<T>, x: T): set<T> {
    if r == [] then {} else if r[0] == x then Values(r[1..]) else After(r[1..], x)
  }

  lemma {:induction false} AfterTouch<T>(r: seq<T>, x: T, y: T)
    requires Distinct(r) && x in r && x != y
    ensures After(Touch(r, y), x) == After(r, x) + {y}
  {
    var rest := Remove(r[1..], y);
    if r[0] == x {
      assert Touch(r, y) == [x] + (rest + [y]);
      assert ([x] + (rest + [y]))[1..] == rest + [y];
      RemoveMembers(r[1..], y);
      assert Values(rest + [y]) == Values(r[1..]) + {y};
    } else if r[0] == y {
      assert y !in r[1..];
      RemoveAbsent(r[1..], y);
      assert Touch(r, y) == r[1..] + [y] && Values([y]) == {y};
      AfterAppend(r[1..], [y], x);
    } else {
      assert Touch(r, y) == [r[0]] + Touch(r[1..], y);
      AfterTouch(r[1..], x, y);
    }
  }

  lemma {:induction false} AfterAppend<T>(a: seq<T>, b: seq<T>, x: T)
    requires x in a
    ensures After(a + b, x) == After(a, x) + Values(b)
  {
    if a[0] == x {
      assert (a + b)[1..] == a[1..] + b;
    } else {
      assert (a + b)[1..] == a[1..] + b;
      AfterAppend(a[1..], b, x);
    }
  }

  /** In a recency list, the values after `x` are those touched since. */
  lemma {:induction false} AfterIsSince<T>(h: seq<T>, x: T)
    requires x in h
    ensures x in ByRecency(h) && After(ByRecency(h), x) == Since(h, x)
  {
    var init, last := h[..|h| - 1], h[|h| - 1];
    var r := ByRecency(init);
    ByRecencyDistinct(init);
    assert h == init + [last];
    if last == x {
      RemoveMembers(r, x);
      AfterLast(Remove(r, x), x);
    } else {
      AfterIsSince(init, x);
      AfterTouch(r, x, last);
      RemoveMembers(r, last);
    }
  }

  lemma {:induction false} AfterLast<T>(r: seq<T>, x: T)
    requires x !in r
    ensures After(r + [x], x) == {}
  {
    if r != [] {
      assert (r + [x])[1..] == r[1..] + [x];
      AfterLast(r[1..], x);
    }
  }

  /** In a list without repetitions, fewer than `n` values follow each of the latest `n`, and no other value. */
  lemma {:induction false} AmongLatest<T>(r: seq<T>, x: T, n: nat)
    requires Distinct(r) && x in r
    ensures x in Latest(r, n) <==> |After(r, x)| < n
  {
    var i := IndexOf(r, x);
    SuffixSet(r, i);
    if i >= |r| - n {
      assert Latest(r, n)[i - (|r| - |Latest(r, n)|)] == x;
    }
  }

  lemma {:induction false} IndexOf<T>(r: seq<T>, x: T) returns (i: nat)
    requires Distinct(r) && x in r
    ensures i < |r| && r[i] == x && After(r, x) == Values(r[i + 1..])
  {
    if r[0] == x {
      i := 0;
    } else {
      assert x in r[1..];
      var j := IndexOf(r[1..], x);
      i := j + 1;
      assert r[1..][j + 1..] == r[i + 1..];
    }
  }

  lemma {:induction false} SuffixSet<T>(r: seq<T>, i: nat)
    requires Distinct(r) && i < |r|
    ensures |Values(r[i + 1..])| == |r| - i - 1
    decreases |r| - i
  {
    if i + 1 < |r| {
      SuffixSet(r, i + 1);
      assert Values(r[i + 1..]) == {r[i + 1]} + Values(r[i + 2..]) by {
        assert r[i + 1..] == [r[i + 1]] + r[i + 2..];
      }
      assert r[i + 1] !in Values(r[i + 2..]);
    } else {
      assert r[i + 1..] == [];
    }
  }
}
