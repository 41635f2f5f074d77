/**
 * RowDescription rewriting (src/duplex/row-description.ts).
 *
 * A RowDescription frame is `T`, an int32 length, an int16 field count and then, per field, a NUL-terminated
 * name and an 18-byte suffix: table OID (4), column (2), type OID (4), type size (2), modifier (4), format (2).
 * The reference meaning walks the frame once to find the fields and only then patches them; the code
 * patches while it walks.
 */
module RowDescription {
  import opened Bytes

  const PG_TYPE_OID_CHAR: nat := 18
  const PG_TYPE_OID_TEXT: nat := 25
  const PG_FIRST_USER_OID: nat := 16384

  /** Size of the fixed part that follows a field's name. */
  const SUFFIX: nat := 18

  /** What a widened field holds at offset 6 + `j` of its suffix: OID 25, then size -1. */
  function WidenedByte(j: int): byte {
    if j < 3 then 0 else if j == 3 then PG_TYPE_OID_TEXT as byte else 255
  }

  // ---- Reference meaning ----

  /** First position at or after `p` that is a NUL or at the end. */
  function NameEnd(s: seq<byte>, p: nat, end: nat): (q: nat)
    requires end <= |s|
    ensures p <= q && (p <= end ==> q <= end)
    decreases end - p
  {
    if p < end && s[p] != 0 then NameEnd(s, p + 1, end) else p
  }

  /** A "char" column of a system-catalog relation. */
  predicate Qualifies(s: seq<byte>, f: nat)
    requires f + SUFFIX <= |s|
  {
    U32At(s, f + 6) == PG_TYPE_OID_CHAR && 0 < U32At(s, f) < PG_FIRST_USER_OID
  }

  /** Every suffix offset in `hs` is at least `from` and its suffix ends by `end`. */
  predicate Within(hs: seq<nat>, from: nat, end: nat) {
    forall i :: 0 <= i < |hs| ==> from <= hs[i] && hs[i] + SUFFIX <= end
  }

  /** Suffix offsets of the qualifying fields among the next `n`; the walk stops at the first truncated field. */
  function HitsFrom(s: seq<byte>, p: nat, end: nat, n: nat): (hs: seq<nat>)
    requires end <= |s|
    ensures Within(hs, p + 1, end)
    decreases n
  {
    if n == 0 then [] else
    var f := NameEnd(s, p, end) + 1;
    if f + SUFFIX > end then [] else
    var rest := HitsFrom(s, f + SUFFIX, end, n - 1);
    if Qualifies(s, f) then [f] + rest else rest
  }

  /** Suffix offsets of every qualifying field of the frame `s[start..end]`. */
  function Hits(s: seq<byte>, start: nat, end: nat): (hs: seq<nat>)
    requires end <= |s|
    ensures Within(hs, 0, end)
  {
    if end - start < 7 then [] else HitsFrom(s, start + 7, end, U16At(s, start + 5))
  }

  predicate NeedsRewrite(s: seq<byte>, start: nat, end: nat)
    requires end <= |s|
  {
    Hits(s, start, end) != []
  }

  function Widen(s: seq<byte>, f: nat): (t: seq<byte>)
    requires f + SUFFIX <= |s|
    ensures |t| == |s|
  {
    seq(|s|, k requires 0 <= k < |s| => if f + 6 <= k < f + 12 then WidenedByte(k - f - 6) else s[k])
  }

  /** `s` with the fields at offsets `hs` widened. */
  function Patch(s: seq<byte>, hs: seq<nat>): (t: seq<byte>)
    requires Within(hs, 0, |s|)
    ensures |t| == |s|
    decreases |hs|
  {
    if hs == [] then s else Patch(Widen(s, hs[0]), hs[1..])
  }

  /** The whole frame `s` with every qualifying field widened. */
  function Rewritten(s: seq<byte>): (t: seq<byte>)
    ensures |t| == |s|
  {
    Patch(s, Hits(s, 0, |s|))
  }

  // ---- Lemmas about the walk ----

  lemma {:induction false} NameEndFrame(s: seq<byte>, t: seq<byte>, p: nat, end: nat)
    requires |s| == |t| && end <= |s|
    requires forall k :: p <= k < end && k <= NameEnd(s, p, end) ==> s[k] == t[k]
    ensures NameEnd(s, p, end) == NameEnd(t, p, end)
    decreases end - p
  {
    if p < end && s[p] != 0 {
      NameEndFrame(s, t, p + 1, end);
    }
  }

  lemma {:induction false} QualifiesFrame(s: seq<byte>, t: seq<byte>, f: nat)
    requires f + SUFFIX <= |s| && f + SUFFIX <= |t|
    requires s[f..f + SUFFIX] == t[f..f + SUFFIX]
    ensures Qualifies(s, f) == Qualifies(t, f)
  {
    forall k | f <= k < f + SUFFIX ensures s[k] == t[k] {
      assert s[k] == s[f..f + SUFFIX][k - f] && t[k] == t[f..f + SUFFIX][k - f];
    }
  }

  /** Two frames that agree from `p` on have the same hits from `p` on. */
  lemma {:induction false} HitsFromFrame(s: seq<byte>, t: seq<byte>, p: nat, end: nat, n: nat)
    requires |s| == |t| && end <= |s|
    requires forall k :: p <= k < end ==> s[k] == t[k]
    ensures HitsFrom(s, p, end, n) == HitsFrom(t, p, end, n)
    decreases n
  {
    hide Qualifies;
    if n != 0 {
      NameEndFrame(s, t, p, end);
      var f := NameEnd(s, p, end) + 1;
      if f + SUFFIX <= end {
        assert s[f..f + SUFFIX] == t[f..f + SUFFIX];
        QualifiesFrame(s, t, f);
        HitsFromFrame(s, t, f + SUFFIX, end, n - 1);
      }
    }
  }

  /** Offsets in order, with room for a suffix between any two. */
  predicate Apart(hs: seq<nat>) {
    forall i, j :: 0 <= i < j < |hs| ==> hs[i] + SUFFIX <= hs[j]
  }

  lemma {:induction false} HitsApart(s: seq<byte>, p: nat, end: nat, n: nat)
    requires end <= |s|
    ensures Apart(HitsFrom(s, p, end, n))
    decreases n
  {
    if n != 0 {
      var f := NameEnd(s, p, end) + 1;
      if f + SUFFIX <= end {
        HitsApart(s, f + SUFFIX, end, n - 1);
      }
    }
  }

  /** Position `k` is in the OID or the size of a field listed in `hs`. */
  predicate Touched(hs: seq<nat>, k: int) {
    exists i :: 0 <= i < |hs| && hs[i] + 6 <= k < hs[i] + 12
  }

  lemma {:induction false} TouchedCons(hs: seq<nat>, k: int)
    requires hs != []
    ensures Touched(hs, k) <==> hs[0] + 6 <= k < hs[0] + 12 || Touched(hs[1..], k)
  {
    var rest := hs[1..];
    if Touched(rest, k) {
      var i :| 0 <= i < |rest| && rest[i] + 6 <= k < rest[i] + 12;
      assert hs[i + 1] == rest[i];
    }
    if Touched(hs, k) && !(hs[0] + 6 <= k < hs[0] + 12) {
      var i :| 0 <= i < |hs| && hs[i] + 6 <= k < hs[i] + 12;
      assert hs[i] == rest[i - 1];
    }
  }

  /** `t` is `s` with exactly the listed fields widened. */
  predicate PatchedAt(s: seq<byte>, t: seq<byte>, hs: seq<nat>)
    requires |s| == |t|
    requires Within(hs, 0, |s|)
  {
    && (forall i, j :: 0 <= i < |hs| && 0 <= j < 6 ==> t[hs[i] + 6 + j] == WidenedByte(j))
    && (forall k :: 0 <= k < |s| && !Touched(hs, k) ==> t[k] == s[k])
  }

  lemma {:induction false} PatchIsPointwise(s: seq<byte>, hs: seq<nat>)
    requires Within(hs, 0, |s|)
    requires Apart(hs)
    ensures PatchedAt(s, Patch(s, hs), hs)
    decreases |hs|
  {
    if hs != [] {
      PatchIsPointwise(Widen(s, hs[0]), hs[1..]);
      PatchedCons(s, Patch(s, hs), hs);
    }
  }

  lemma {:induction false} PatchedCons(s: seq<byte>, t: seq<byte>, hs: seq<nat>)
    requires hs != [] && Within(hs, 0, |s|) && Apart(hs) && |t| == |s|
    requires PatchedAt(Widen(s, hs[0]), t, hs[1..])
    ensures PatchedAt(s, t, hs)
  {
    var u, rest := Widen(s, hs[0]), hs[1..];
    forall i, j | 0 <= i < |hs| && 0 <= j < 6 ensures t[hs[i] + 6 + j] == WidenedByte(j) {
      if i == 0 {
        TouchedBefore(rest, hs[0] + 6 + j);
        assert t[hs[0] + 6 + j] == u[hs[0] + 6 + j];
      } else {
        assert rest[i - 1] == hs[i];
      }
    }
    forall k | 0 <= k < |s| && !Touched(hs, k) ensures t[k] == s[k] {
      TouchedCons(hs, k);
    }
  }

  lemma {:induction false} TouchedBefore(hs: seq<nat>, k: int)
    requires forall i :: 0 <= i < |hs| ==> k < hs[i] + 6
    ensures !Touched(hs, k)
  {
  }

  lemma {:induction false} NoHitsAfterPatch(s: seq<byte>, t: seq<byte>, p: nat, n: nat)
    requires |s| == |t|
    requires PatchedFrom(s, t, p, HitsFrom(s, p, |s|, n))
    ensures HitsFrom(t, p, |t|, n) == []
    decreases n
  {
    hide Qualifies, PatchedFrom;
    if n != 0 {
      var hs := HitsFrom(s, p, |s|, n);
      var f := NameEnd(s, p, |s|) + 1;
      SameName(s, t, p, hs);
      if f + SUFFIX <= |s| {
        var rest := HitsFrom(s, f + SUFFIX, |s|, n - 1);
        PatchedFromTail(s, t, p, f, hs, rest);
        NoLongerQualifies(s, t, p, f, hs, rest);
        NoHitsAfterPatch(s, t, f + SUFFIX, n - 1);
      }
    }
  }

  /** `PatchedAt`, restricted to positions from `p` on. */
  predicate PatchedFrom(s: seq<byte>, t: seq<byte>, p: nat, hs: seq<nat>)
    requires |s| == |t|
    requires Within(hs, 0, |s|)
  {
    && (forall i :: 0 <= i < |hs| ==> t[hs[i] + 9] == 25)
    && (forall k :: p <= k < |s| && !Touched(hs, k) ==> t[k] == s[k])
  }

  lemma {:induction false} SameName(s: seq<byte>, t: seq<byte>, p: nat, hs: seq<nat>)
    requires |s| == |t|
    requires Within(hs, NameEnd(s, p, |s|) + 1, |s|) && PatchedFrom(s, t, p, hs)
    ensures NameEnd(s, p, |s|) == NameEnd(t, p, |t|)
  {
    forall k | p <= k < |s| && k <= NameEnd(s, p, |s|) ensures s[k] == t[k] {
      TouchedBefore(hs, k);
    }
    NameEndFrame(s, t, p, |s|);
  }

  lemma {:induction false} PatchedFromTail(s: seq<byte>, t: seq<byte>, p: nat, f: nat, hs: seq<nat>, rest: seq<nat>)
    requires |s| == |t| && p <= f
    requires hs == rest || hs == [f] + rest
    requires Within(hs, 0, |s|) && Within(rest, 0, |s|)
    requires PatchedFrom(s, t, p, hs)
    ensures PatchedFrom(s, t, f + SUFFIX, rest)
  {
    hide Touched;
    if hs != rest {
      forall i | 0 <= i < |rest| ensures t[rest[i] + 9] == 25 {
        assert rest[i] == hs[i + 1];
      }
      forall k | f + SUFFIX <= k < |s| && !Touched(rest, k) ensures t[k] == s[k] {
        assert hs[1..] == rest;
        TouchedCons(hs, k);
      }
    }
  }

  lemma {:induction false} NoLongerQualifies(s: seq<byte>, t: seq<byte>, p: nat, f: nat, hs: seq<nat>, rest: seq<nat>)
    requires |s| == |t| && f + SUFFIX <= |s|
    requires hs == if Qualifies(s, f) then [f] + rest else rest
    requires Within(rest, f + SUFFIX, |s|) && Within(hs, 0, |s|)
    requires p <= f && PatchedFrom(s, t, p, hs)
    ensures !Qualifies(t, f)
  {
    if Qualifies(s, f) {
      assert hs[0] == f;
    } else {
      assert hs == rest;
      assert forall k :: f <= k < f + SUFFIX ==> !Touched(hs, k);
      assert U32At(t, f + 6) == U32At(s, f + 6) && U32At(t, f) == U32At(s, f);
    }
  }

  // ---- Main results ----

  /**
   * The rewrite keeps the length, sets the type OID and type size of every qualifying field to 25 and -1, and
   * changes no other byte.
   */
  lemma {:induction false} RewriteTouchesOnlyQualifyingFields(s: seq<byte>)
    ensures |Rewritten(s)| == |s|
    ensures PatchedAt(s, Rewritten(s), Hits(s, 0, |s|))
  {
    if |s| >= 7 {
      HitsApart(s, 7, |s|, U16At(s, 5));
    }
    PatchIsPointwise(s, Hits(s, 0, |s|));
  }

  /** Nothing is left to rewrite after a rewrite. */
  lemma {:induction false} RewriteClearsGate(s: seq<byte>)
    ensures !NeedsRewrite(Rewritten(s), 0, |s|)
  {
    var t, hs := Rewritten(s), Hits(s, 0, |s|);
    RewriteTouchesOnlyQualifyingFields(s);
    if |s| >= 7 {
      assert !Touched(hs, 5) && !Touched(hs, 6);
      assert U16At(t, 5) == U16At(s, 5);
      forall i | 0 <= i < |hs| ensures t[hs[i] + 9] == 25 {
        assert t[hs[i] + 6 + 3] == WidenedByte(3);
      }
      NoHitsAfterPatch(s, t, 7, U16At(s, 5));
    }
  }

  /** The gate is true exactly when the rewrite changes a byte. */
  lemma {:induction false} GateIffRewriteChanges(s: seq<byte>)
    ensures NeedsRewrite(s, 0, |s|) <==> Rewritten(s) != s
  {
    if NeedsRewrite(s, 0, |s|) {
      RewriteClearsGate(s);
    }
  }

  /** A second rewrite changes nothing. */
  lemma {:induction false} RewriteIsIdempotent(s: seq<byte>)
    ensures Rewritten(Rewritten(s)) == Rewritten(s)
  {
    RewriteClearsGate(s);
  }

  lemma {:induction false} NameEndSlice(s: seq<byte>, start: nat, end: nat, p: nat)
    requires start + p <= end <= |s|
    ensures NameEnd(s, start + p, end) == start + NameEnd(s[start..end], p, end - start)
    decreases end - start - p
  {
    if start + p < end && s[start + p] != 0 {
      NameEndSlice(s, start, end, p + 1);
    }
  }

  lemma {:induction false} QualifiesSlice(s: seq<byte>, start: nat, end: nat, f: nat)
    requires start + f + SUFFIX <= end <= |s|
    ensures Qualifies(s, start + f) == Qualifies(s[start..end], f)
  {
  }

  lemma {:induction false} HitsFromSlice(s: seq<byte>, start: nat, end: nat, p: nat, n: nat)
    requires start + p <= end <= |s|
    ensures HitsFrom(s, start + p, end, n) == [] <==> HitsFrom(s[start..end], p, end - start, n) == []
    decreases n
  {
    hide Qualifies;
    if n != 0 {
      var t := s[start..end];
      NameEndSlice(s, start, end, p);
      var f := NameEnd(t, p, |t|) + 1;
      if f + SUFFIX <= |t| {
        QualifiesSlice(s, start, end, f);
        HitsFromSlice(s, start, end, f + SUFFIX, n - 1);
      }
    }
  }

  /** Gating a slice of a chunk agrees with gating a copy of the slice. */
  lemma {:induction false} GateOfSlice(s: seq<byte>, start: nat, end: nat)
    requires start <= end <= |s|
    ensures NeedsRewrite(s, start, end) == NeedsRewrite(s[start..end], 0, end - start)
  {
    if end - start >= 7 {
      assert U16At(s[start..end], 5) == U16At(s, start + 5);
      HitsFromSlice(s, start, end, 7, U16At(s, start + 5));
    }
  }

  // ---- The code ----

  lemma {:induction false} HitsUnfold(s: seq<byte>, p: nat, end: nat, n: nat)
    requires end <= |s|
    ensures HitsFrom(s, p, end, n) ==
      if n == 0 then [] else
      var f := NameEnd(s, p, end) + 1;
      if f + SUFFIX > end then []
      else (if Qualifies(s, f) then [f] else []) + HitsFrom(s, f + SUFFIX, end, n - 1)
  {
  }

  lemma {:induction false} HitsBegin(s: seq<byte>, start: nat, end: nat)
    requires end <= |s|
    ensures Hits(s, start, end) ==
      if end - start < 7 then [] else HitsFrom(s, start + 7, end, U16At(s, start + 5))
  {
  }

  lemma {:induction false} NameGoesOn(s: seq<byte>, p: nat, end: nat)
    requires end <= |s|
    ensures NameEnd(s, p, end) == if p < end && s[p] != 0 then NameEnd(s, p + 1, end) else p
  {
  }

  /** The gate: walks `buf[start..end]` and stops at the first qualifying field. */
  method RowDescriptionNeedsRewrite(buf: seq<byte>, start: nat, end: nat) returns (needed: bool)
    requires end <= |buf|
    ensures needed == NeedsRewrite(buf, start, end)
  {
    hide HitsFrom, Hits, NameEnd, U32At, U16At;
    HitsBegin(buf, start, end);
    if end - start < 7 { return false; }
    var fieldCount := U16At(buf, start + 5);
    var p: nat := start + 7;
    var i: nat := 0;
    while i < fieldCount
      invariant i <= fieldCount && p <= end
      invariant HitsFrom(buf, p, end, fieldCount - i) == Hits(buf, start, end)
    {
      ghost var p0 := p;
      while p < end && buf[p] != 0
        invariant p <= end
        invariant NameEnd(buf, p, end) == NameEnd(buf, p0, end)
      {
        NameGoesOn(buf, p, end);
        p := p + 1;
      }
      NameGoesOn(buf, p, end);
      p := p + 1;
      HitsUnfold(buf, p0, end, fieldCount - i);
      if p + SUFFIX > end { return false; }
      var tableOid, oid := U32At(buf, p), U32At(buf, p + 6);
      if oid == PG_TYPE_OID_CHAR && tableOid != 0 && tableOid < PG_FIRST_USER_OID { return true; }
      p := p + SUFFIX;
      i := i + 1;
    }
    HitsUnfold(buf, p, end, 0);
    return false;
  }

  /** Widening the next field if it qualifies leaves the rest of the patch to do. */
  lemma {:induction false} PatchStep(s: seq<byte>, t: seq<byte>, p: nat, n: nat)
    requires n > 0 && NameEnd(s, p, |s|) + 1 + SUFFIX <= |s|
    requires var f := NameEnd(s, p, |s|) + 1; t == if Qualifies(s, f) then Widen(s, f) else s
    ensures Patch(t, HitsFrom(t, NameEnd(s, p, |s|) + 1 + SUFFIX, |t|, n - 1)) == Patch(s, HitsFrom(s, p, |s|, n))
  {
    hide Qualifies;
    var f := NameEnd(s, p, |s|) + 1;
    HitsFromFrame(s, t, f + SUFFIX, |s|, n - 1);
    var rest := HitsFrom(s, f + SUFFIX, |s|, n - 1);
    if Qualifies(s, f) {
      assert HitsFrom(s, p, |s|, n) == [f] + rest && ([f] + rest)[1..] == rest;
    }
  }

  lemma {:induction false} RewriteBegins(s: seq<byte>)
    ensures Rewritten(s) == if |s| < 7 then s else Patch(s, HitsFrom(s, 7, |s|, U16At(s, 5)))
  {
  }

  lemma {:induction false} RewriteEnds(s: seq<byte>, p: nat, n: nat)
    requires n == 0 || NameEnd(s, p, |s|) + 1 + SUFFIX > |s|
    ensures Patch(s, HitsFrom(s, p, |s|, n)) == s
  {
  }

  method SkipName(buf: array<byte>, from: nat) returns (p: nat)
    requires from <= buf.Length
    ensures p == NameEnd(buf[..], from, buf.Length)
  {
    p := from;
    while p < buf.Length && buf[p] != 0
      invariant p <= buf.Length
      invariant NameEnd(buf[..], p, buf.Length) == NameEnd(buf[..], from, buf.Length)
    {
      p := p + 1;
    }
  }

  /** The worker: widens qualifying fields in place while it walks. */
  method RewriteRowDescriptionInPlace(buf: array<byte>)
    modifies buf
    ensures buf[..] == Rewritten(old(buf[..]))
  {
    hide Qualifies, Rewritten, Patch, HitsFrom, Widen;
    RewriteBegins(buf[..]);
    if buf.Length < 7 { return; }
    var fieldCount := U16At(buf[..], 5);
    var p: nat := 7;
    var i: nat := 0;
    while i < fieldCount
      invariant i <= fieldCount && p <= buf.Length
      invariant Patch(buf[..], HitsFrom(buf[..], p, buf.Length, fieldCount - i)) == Rewritten(old(buf[..]))
    {
      ghost var before, p0 := buf[..], p;
      p := SkipName(buf, p);
      p := p + 1;
      if p + SUFFIX > buf.Length {
        RewriteEnds(before, p0, fieldCount - i);
        return;
      }
      var widen := FieldQualifies(buf, p);
      if widen {
        WriteWidened(buf, p);
      }
      PatchStep(before, buf[..], p0, fieldCount - i);
      p := p + SUFFIX;
      i := i + 1;
    }
    RewriteEnds(buf[..], p, 0);
  }

  method ReadUInt32BE(buf: array<byte>, p: nat) returns (n: nat)
    requires p + 4 <= buf.Length
    ensures n == U32At(buf[..], p)
  {
    n := 0x100_0000 * (buf[p] as int) + 0x1_0000 * (buf[p + 1] as int)
         + 0x100 * (buf[p + 2] as int) + buf[p + 3] as int;
  }

  /** The worker's per-field filter. */
  method FieldQualifies(buf: array<byte>, p: nat) returns (widen: bool)
    requires p + SUFFIX <= buf.Length
    ensures widen == Qualifies(buf[..], p)
  {
    var tableOid := ReadUInt32BE(buf, p);
    var oid := ReadUInt32BE(buf, p + 6);
    widen := oid == PG_TYPE_OID_CHAR && tableOid != 0 && tableOid < PG_FIRST_USER_OID;
  }

  /** Writes OID 25 and size -1 into the field whose suffix starts at `f`. */
  method WriteWidened(buf: array<byte>, f: nat)
    requires f + SUFFIX <= buf.Length
    modifies buf
    ensures buf[..] == Widen(old(buf[..]), f)
  {
    buf[f + 6], buf[f + 7], buf[f + 8], buf[f + 9] := 0, 0, 0, PG_TYPE_OID_TEXT as byte;
    buf[f + 10], buf[f + 11] := 255, 255;
    assert forall j :: 0 <= j < 6 ==> buf[f + 6 + j] == WidenedByte(j);
  }
}
