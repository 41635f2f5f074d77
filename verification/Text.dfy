/** Text as JavaScript sees it: a sequence of UTF-16 code units. */
module Text {
  newtype CodeUnit = c: int | 0 <= c < 0x1_0000

  type Text = seq<CodeUnit>

  /** JavaScript white space and line terminators, as `\s` and `trim` know them. */
  predicate IsJsSpace(c: CodeUnit) {
    || 0x09 <= c <= 0x0d || c == 0x20 || c == 0xa0 || c == 0x1680 || 0x2000 <= c <= 0x200a
    || c == 0x2028 || c == 0x2029 || c == 0x202f || c == 0x205f || c == 0x3000 || c == 0xfeff
  }

  /** ASCII digits, letters and underscore. */
  predicate IsAsciiWord(c: CodeUnit) {
    0x30 <= c <= 0x39 || 0x41 <= c <= 0x5a || c == 0x5f || 0x61 <= c <= 0x7a
  }

  function LowerUnit(c: CodeUnit): CodeUnit {
    if 0x41 <= c <= 0x5a then c + 0x20 else c
  }

  /** ASCII lower case; every other unit is kept. */
  function Lower(s: Text): (t: Text)
    ensures |t| == |s|
  {
    seq(|s|, i requires 0 <= i < |s| => LowerUnit(s[i]))
  }

  /** The code units of an ASCII string. */
  function Ascii(s: string): (t: Text)
    ensures |t| == |s|
  {
    seq(|s|, i requires 0 <= i < |s| => if s[i] as int < 0x80 then s[i] as int as CodeUnit else 0x3f)
  }

  lemma {:induction false} Regroup(a: Text, b: Text, c: Text)
    ensures a + (b + c) == a + b + c
  {
  }
}
