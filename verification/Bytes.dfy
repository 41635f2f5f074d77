/** Bytes, big-endian integers and chunked byte strings, as the wire protocol uses them. */
module Bytes {
  newtype byte = b: int | 0 <= b < 0x100

  const TWO_POW_32: int := 0x1_0000_0000

  /** Unsigned 16-bit big-endian read. */
  function U16At(s: seq<byte>, i: nat): (n: nat)
    requires i + 2 <= |s|
    ensures n < 0x1_0000
  {
    0x100 * (s[i] as int) + s[i + 1] as int
  }

  /** Unsigned 32-bit big-endian read. */
  function U32At(s: seq<byte>, i: nat): (n: nat)
    requires i + 4 <= |s|
    ensures n < TWO_POW_32
  {
    0x1_0000 * U16At(s, i) + U16At(s, i + 2)
  }

  function U16Bytes(n: nat): (s: seq<byte>)
    requires n < 0x1_0000
    ensures |s| == 2 && U16At(s, 0) == n
  {
    [(n / 0x100) as byte, (n % 0x100) as byte]
  }

  /** Big-endian encoding of an unsigned 32-bit integer. */
  function U32Bytes(n: nat): (s: seq<byte>)
    requires n < TWO_POW_32
    ensures |s| == 4 && U32At(s, 0) == n
  {
    var hi, lo := U16Bytes(n / 0x1_0000), U16Bytes(n % 0x1_0000);
    assert U16At(hi + lo, 0) == U16At(hi, 0) && U16At(hi + lo, 2) == U16At(lo, 0);
    hi + lo
  }

  /** Four bytes are the encoding of the number they spell. */
  lemma {:induction false} U32BytesUnique(s: seq<byte>)
    requires |s| == 4
    ensures U32Bytes(U32At(s, 0)) == s
  {
    var hi, lo := U16At(s, 0), U16At(s, 2);
    assert U32At(s, 0) / 0x1_0000 == hi && U32At(s, 0) % 0x1_0000 == lo;
    assert hi / 0x100 == s[0] as int && hi % 0x100 == s[1] as int;
    assert lo / 0x100 == s[2] as int && lo % 0x100 == s[3] as int;
  }

  /** The bytes carried by a list of chunks. */
  function Flatten<T>(chunks: seq<seq<T>>): seq<T>
  {
    if chunks == [] then [] else chunks[0] + Flatten(chunks[1..])
  }

  lemma {:induction false} FlattenAppend<T>(a: seq<seq<T>>, b: seq<seq<T>>)
    ensures Flatten(a + b) == Flatten(a) + Flatten(b)
  {
    if a == [] {
      assert a + b == b;
    } else {
      assert (a + b)[1..] == a[1..] + b;
      FlattenAppend(a[1..], b);
    }
  }

  lemma {:induction false} FlattenSnoc<T>(a: seq<seq<T>>, x: seq<T>)
    ensures Flatten(a + [x]) == Flatten(a) + x
  {
    FlattenAppend(a, [x]);
    assert Flatten([x]) == x;
  }
}
