/**
 * RowDescription frames as lists of fields, in the layout of the message formats (section 53.7 of the PostgreSQL
 * documentation), and what the rewrite (src/duplex/row-description.ts) makes of them.
 */
module RowDescriptionFields {
  import opened Bytes
  import opened RowDescription

  type Short = n: nat | n < 0x1_0000
  type Long = n: nat | n < 0x1_0000_0000

  datatype Field = Field(name: seq<byte>, tableOid: Long, column: Short, typeOid: Long, size: Short, modifier: Long,
                         format: Short)

  /** What follows the name and its NUL. */
  function PrintSuffix(f: Field): (s: seq<byte>)
    ensures |s| == 18
  {
    U32Bytes(f.tableOid) + U16Bytes(f.column) + U32Bytes(f.typeOid) + U16Bytes(f.size) + U32Bytes(f.modifier)
    + U16Bytes(f.format)
  }

  function PrintField(f: Field): seq<byte> {
    f.name + [0] + PrintSuffix(f)
  }

  function PrintFields(fs: seq<Field>): seq<byte> {
    if fs == [] then [] else PrintField(fs[0]) + PrintFields(fs[1..])
  }

  predicate Fits(fs: seq<Field>) {
    |fs| < 0x1_0000 && 6 + |PrintFields(fs)| < 0x1_0000_0000
  }

  /** The whole message. */
  function PrintFrame(fs: seq<Field>): seq<byte>
    requires Fits(fs)
  {
    [0x54] + U32Bytes(6 + |PrintFields(fs)|) + U16Bytes(|fs|) + PrintFields(fs)
  }

  predicate Named(fs: seq<Field>) {
    forall i :: 0 <= i < |fs| ==> 0 !in fs[i].name
  }

  /** A column of type "char" (OID 18) in a relation of the system catalog. */
  predicate IsCatalogChar(f: Field) {
    f.typeOid == 18 && 0 < f.tableOid < 16384
  }

  /** The column as one of type text (OID 25), which has size -1. */
  function AsText(f: Field): Field {
    if IsCatalogChar(f) then f.(typeOid := 25, size := 0xffff) else f
  }

  function AllAsText(fs: seq<Field>): (r: seq<Field>)
    ensures |r| == |fs| && forall i :: 0 <= i < |fs| ==> r[i] == AsText(fs[i])
  {
    seq(|fs|, i requires 0 <= i < |fs| => AsText(fs[i]))
  }

  // ---- One field ----

  lemma {:induction false} U32InMiddle(pre: seq<byte>, w: seq<byte>, post: seq<byte>)
    requires |w| == 4
    ensures U32At(pre + w + post, |pre|) == U32At(w, 0)
  {
    var s := pre + w + post;
    assert forall k :: 0 <= k < 4 ==> s[|pre| + k] == w[k];
  }

  lemma {:induction false} SuffixRead(pre: seq<byte>, f: Field, post: seq<byte>)
    ensures var s := pre + PrintSuffix(f) + post;
      U32At(s, |pre|) == f.tableOid && U32At(s, |pre| + 6) == f.typeOid
  {
    hide U32At, U32Bytes, U16Bytes;
    var a, b := U32Bytes(f.tableOid), U16Bytes(f.column);
    var c, d := U32Bytes(f.typeOid), U16Bytes(f.size) + U32Bytes(f.modifier) + U16Bytes(f.format);
    var s := pre + PrintSuffix(f) + post;
    assert PrintSuffix(f) == a + b + c + d;
    assert s == pre + a + (b + c + d + post);
    U32InMiddle(pre, a, b + c + d + post);
    assert s == (pre + a + b) + c + (d + post);
    U32InMiddle(pre + a + b, c, d + post);
  }

  lemma {:induction false} WidenedBytes()
    ensures U32Bytes(25) + U16Bytes(0xffff) == [0, 0, 0, 25, 255, 255]
  {
  }

  lemma {:induction false} SuffixWidened(pre: seq<byte>, f: Field, post: seq<byte>)
    requires IsCatalogChar(f)
    ensures Widen(pre + PrintSuffix(f) + post, |pre|) == pre + PrintSuffix(AsText(f)) + post
  {
    hide U32At, U32Bytes, U16Bytes;
    var g := AsText(f);
    var head, tail := U32Bytes(f.tableOid) + U16Bytes(f.column), U32Bytes(f.modifier) + U16Bytes(f.format);
    var old6, new6 := U32Bytes(f.typeOid) + U16Bytes(f.size), U32Bytes(25) + U16Bytes(0xffff);
    assert PrintSuffix(f) == head + old6 + tail && PrintSuffix(g) == head + new6 + tail;
    WidenedBytes();
    var s, t := pre + PrintSuffix(f) + post, pre + PrintSuffix(g) + post;
    assert s == pre + head + old6 + (tail + post) && t == pre + head + new6 + (tail + post);
    WidenMiddle(pre, head, old6, tail + post);
  }

  lemma {:induction false} WidenMiddle(pre: seq<byte>, head: seq<byte>, six: seq<byte>, post: seq<byte>)
    requires |head| == 6 && |six| == 6 && |post| >= 6
    ensures Widen(pre + head + six + post, |pre|) == pre + head + [0, 0, 0, 25, 255, 255] + post
  {
    var s, six' := pre + head + six + post, [0, 0, 0, 25, 255, 255];
    var t, w := pre + head + six' + post, Widen(s, |pre|);
    forall k | 0 <= k < |s| ensures w[k] == t[k] {
      if |pre| + 6 <= k < |pre| + 12 {
        assert t[k] == six'[k - |pre| - 6] == WidenedByte(k - |pre| - 6);
      }
    }
  }

  lemma {:induction false} NameRead(pre: seq<byte>, name: seq<byte>, post: seq<byte>, k: nat)
    requires 0 !in name && k <= |name|
    ensures var s := pre + name + [0] + post; NameEnd(s, |pre| + k, |s|) == |pre| + |name|
    decreases |name| - k
  {
    var s := pre + name + [0] + post;
    if k < |name| {
      assert s[|pre| + k] == name[k] && name[k] in name;
      NameRead(pre, name, post, k + 1);
    } else {
      assert s[|pre| + k] == 0;
    }
  }

  /** A field is found, judged and rewritten where it stands. */
  lemma {:induction false} FieldRead(pre: seq<byte>, f: Field, rest: seq<byte>)
    requires 0 !in f.name
    ensures var s, q := pre + PrintField(f) + rest, |pre| + |f.name| + 1;
      && NameEnd(s, |pre|, |s|) + 1 == q && q + SUFFIX == |pre| + |PrintField(f)| <= |s|
      && (Qualifies(s, q) <==> IsCatalogChar(f))
      && (if Qualifies(s, q) then Widen(s, q) else s) == pre + PrintField(AsText(f)) + rest
  {
    hide NameEnd, PrintSuffix, U32At, Widen;
    var s, suffix := pre + PrintField(f) + rest, PrintSuffix(f);
    var before := pre + f.name + [0];
    assert s == pre + f.name + [0] + (suffix + rest);
    NameRead(pre, f.name, suffix + rest, 0);
    assert s == before + suffix + rest;
    SuffixRead(before, f, rest);
    if IsCatalogChar(f) {
      SuffixWidened(before, f, rest);
      assert before + PrintSuffix(AsText(f)) + rest == pre + PrintField(AsText(f)) + rest;
    }
  }

  // ---- All fields ----

  lemma {:induction false} FirstField(pre: seq<byte>, fs: seq<Field>)
    requires fs != []
    ensures pre + PrintFields(fs) == pre + PrintField(fs[0]) + PrintFields(fs[1..])
    ensures AllAsText(fs)[0] == AsText(fs[0]) && AllAsText(fs)[1..] == AllAsText(fs[1..])
  {
  }

  /** Patching from the first field on turns all of them into text. */
  lemma {:induction false} FieldsPatched(pre: seq<byte>, fs: seq<Field>)
    requires Named(fs)
    ensures var s := pre + PrintFields(fs);
      Patch(s, HitsFrom(s, |pre|, |s|, |fs|)) == pre + PrintFields(AllAsText(fs))
    decreases |fs|
  {
    hide NameEnd, PrintField, PrintFields, Qualifies, Widen, HitsFrom, Patch, AsText, IsCatalogChar;
    var s := pre + PrintFields(fs);
    if fs == [] {
      RewriteEnds(s, |pre|, 0);
      NoFields();
    } else {
      var rest := PrintFields(fs[1..]);
      FirstField(pre, fs);
      FirstField(pre, AllAsText(fs));
      FieldRead(pre, fs[0], rest);
      var before := pre + PrintField(AsText(fs[0]));
      SameSize(fs[0]);
      PatchStep(s, before + rest, |pre|, |fs|);
      FieldsPatched(before, fs[1..]);
    }
  }

  lemma {:induction false} NoFields()
    ensures PrintFields([]) == [] && AllAsText([]) == []
  {
  }

  lemma {:induction false} SameSize(f: Field)
    ensures |PrintField(AsText(f))| == |PrintField(f)|
  {
  }

  lemma {:induction false} SameSizes(fs: seq<Field>)
    ensures |PrintFields(AllAsText(fs))| == |PrintFields(fs)|
  {
    hide PrintField, AsText;
    if fs != [] {
      SameSize(fs[0]);
      SameSizes(fs[1..]);
      FirstField([], fs);
    }
  }

  predicate AnyCatalogChar(fs: seq<Field>) {
    exists i :: 0 <= i < |fs| && IsCatalogChar(fs[i])
  }

  lemma {:induction false} AnyUnfolds(fs: seq<Field>)
    requires fs != []
    ensures AnyCatalogChar(fs) <==> IsCatalogChar(fs[0]) || AnyCatalogChar(fs[1..])
  {
    hide IsCatalogChar;
    if AnyCatalogChar(fs) {
      var i :| 0 <= i < |fs| && IsCatalogChar(fs[i]);
      assert i > 0 ==> fs[1..][i - 1] == fs[i];
    }
    if AnyCatalogChar(fs[1..]) {
      var i :| 0 <= i < |fs[1..]| && IsCatalogChar(fs[1..][i]);
      assert fs[i + 1] == fs[1..][i];
    }
  }

  lemma {:induction false} FieldsJudged(pre: seq<byte>, fs: seq<Field>)
    requires Named(fs)
    ensures var s := pre + PrintFields(fs); HitsFrom(s, |pre|, |s|, |fs|) != [] <==> AnyCatalogChar(fs)
    decreases |fs|
  {
    hide NameEnd, PrintField, PrintFields, Qualifies, Widen, HitsFrom, AsText, IsCatalogChar;
    var s := pre + PrintFields(fs);
    HitsUnfold(s, |pre|, |s|, |fs|);
    if fs != [] {
      FirstField(pre, fs);
      FieldRead(pre, fs[0], PrintFields(fs[1..]));
      FieldsJudged(pre + PrintField(fs[0]), fs[1..]);
      AnyUnfolds(fs);
    }
  }

  function Header(fs: seq<Field>): seq<byte>
    requires Fits(fs)
  {
    [0x54] + U32Bytes(6 + |PrintFields(fs)|) + U16Bytes(|fs|)
  }

  lemma {:induction false} CountRead(fs: seq<Field>)
    requires Fits(fs)
    ensures |Header(fs)| == 7 && PrintFrame(fs) == Header(fs) + PrintFields(fs) && U16At(PrintFrame(fs), 5) == |fs|
  {
    hide PrintFields, U32Bytes;
    var s := PrintFrame(fs);
    assert s[5] == U16Bytes(|fs|)[0] && s[6] == U16Bytes(|fs|)[1];
  }

  /** The rewrite turns the "char" columns of the system catalog into text, and leaves the rest of the frame alone. */
  lemma {:induction false} RewritesTheFields(fs: seq<Field>)
    requires Fits(fs) && Named(fs)
    ensures Fits(AllAsText(fs)) && Rewritten(PrintFrame(fs)) == PrintFrame(AllAsText(fs))
  {
    hide PrintFields, PrintFrame, Header, Rewritten, Patch, HitsFrom, Named, U16At;
    SameSizes(fs);
    CountRead(fs);
    CountRead(AllAsText(fs));
    RewriteBegins(PrintFrame(fs));
    FieldsPatched(Header(fs), fs);
    SameHeader(fs);
  }

  lemma {:induction false} SameHeader(fs: seq<Field>)
    requires Fits(fs) && |PrintFields(AllAsText(fs))| == |PrintFields(fs)|
    ensures Header(AllAsText(fs)) == Header(fs)
  {
    hide PrintFields;
  }

  /** The gate opens exactly for a frame with such a column. */
  lemma {:induction false} GateIffCatalogChar(fs: seq<Field>)
    requires Fits(fs) && Named(fs)
    ensures NeedsRewrite(PrintFrame(fs), 0, |PrintFrame(fs)|) <==> AnyCatalogChar(fs)
  {
    hide PrintFields, PrintFrame, Header, HitsFrom, Hits, Named, U16At, AnyCatalogChar;
    CountRead(fs);
    HitsBegin(PrintFrame(fs), 0, |PrintFrame(fs)|);
    FieldsJudged(Header(fs), fs);
  }
}
