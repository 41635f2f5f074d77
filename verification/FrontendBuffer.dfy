/**
 * The frontend chunk queue (src/duplex/frontend-buffer.ts): chunks are consumed from a moving head, and consumed
 * slots are cut off only now and then. It refines a flat byte queue.
 */
module FrontendBuffer {
  import opened Bytes
  import opened Wrappers

  /** Consumed slots are kept until there are at least this many. */
  const COMPACT_AT: nat := 32

  /** The bytes from offset `headOffset` of chunk `headIndex` on. */
  function LiveBytes(chunks: seq<seq<byte>>, headIndex: nat, headOffset: nat): seq<byte>
    requires headIndex <= |chunks|
    requires headIndex < |chunks| ==> headOffset <= |chunks[headIndex]|
  {
    if headIndex == |chunks| then [] else chunks[headIndex][headOffset..] + Flatten(chunks[headIndex + 1..])
  }

  lemma {:induction false} LiveBytesPush(chunks: seq<seq<byte>>, headIndex: nat, headOffset: nat, chunk: seq<byte>)
    requires headIndex <= |chunks|
    requires headIndex < |chunks| ==> headOffset <= |chunks[headIndex]|
    requires headIndex == |chunks| ==> headOffset == 0
    ensures LiveBytes(chunks + [chunk], headIndex, headOffset) == LiveBytes(chunks, headIndex, headOffset) + chunk
  {
    var all := chunks + [chunk];
    if headIndex < |chunks| {
      assert all[headIndex + 1..] == chunks[headIndex + 1..] + [chunk];
      FlattenSnoc(chunks[headIndex + 1..], chunk);
    } else {
      assert all[headIndex + 1..] == [];
    }
  }

  /** A used-up head chunk can be stepped over. */
  lemma {:induction false} LiveBytesNextChunk(chunks: seq<seq<byte>>, headIndex: nat)
    requires headIndex < |chunks|
    ensures LiveBytes(chunks, headIndex, |chunks[headIndex]|) == LiveBytes(chunks, headIndex + 1, 0)
  {
    if headIndex + 1 < |chunks| {
      assert chunks[headIndex + 1..][1..] == chunks[headIndex + 2..];
    }
  }

  lemma {:induction false} LiveBytesAdvance(chunks: seq<seq<byte>>, headIndex: nat, headOffset: nat, n: nat)
    requires headIndex < |chunks| && headOffset + n <= |chunks[headIndex]|
    ensures n <= |LiveBytes(chunks, headIndex, headOffset)|
    ensures LiveBytes(chunks, headIndex, headOffset + n) == LiveBytes(chunks, headIndex, headOffset)[n..]
  {
    var head, rest := chunks[headIndex], Flatten(chunks[headIndex + 1..]);
    assert (head[headOffset..] + rest)[n..] == head[headOffset + n..] + rest;
  }

  lemma {:induction false} LiveBytesHead(chunks: seq<seq<byte>>, headIndex: nat, headOffset: nat, n: nat)
    requires headIndex < |chunks| && headOffset + n <= |chunks[headIndex]|
    ensures n <= |LiveBytes(chunks, headIndex, headOffset)|
    ensures chunks[headIndex][headOffset..headOffset + n] == LiveBytes(chunks, headIndex, headOffset)[..n]
  {
  }

  lemma {:induction false} LiveBytesCompact(chunks: seq<seq<byte>>, headIndex: nat, headOffset: nat)
    requires headIndex < |chunks| && headOffset <= |chunks[headIndex]|
    ensures LiveBytes(chunks[headIndex..], 0, headOffset) == LiveBytes(chunks, headIndex, headOffset)
  {
    assert chunks[headIndex..][1..] == chunks[headIndex + 1..];
  }

  lemma {:induction false} FlattenTail(chunks: seq<seq<byte>>, i: nat)
    requires i < |chunks|
    ensures Flatten(chunks[i..]) == chunks[i] + Flatten(chunks[i + 1..])
  {
    assert chunks[i..][1..] == chunks[i + 1..];
  }

  /** `n` bytes, `skip` bytes after the start of chunk `i`. */
  ghost predicate InWindow(chunks: seq<seq<byte>>, i: nat, skip: nat, n: nat) {
    i <= |chunks| && skip + n <= |Flatten(chunks[i..])|
  }

  ghost function Window(chunks: seq<seq<byte>>, i: nat, skip: nat, n: nat): (w: seq<byte>)
    requires InWindow(chunks, i, skip, n)
    ensures |w| == n
  {
    Flatten(chunks[i..])[skip..skip + n]
  }

  lemma {:induction false} WindowOfContents(chunks: seq<seq<byte>>, headIndex: nat, headOffset: nat, offset: nat)
    requires headIndex < |chunks| && headOffset <= |chunks[headIndex]|
    requires offset + 4 <= |LiveBytes(chunks, headIndex, headOffset)|
    ensures InWindow(chunks, headIndex, headOffset + offset, 4)
    ensures Window(chunks, headIndex, headOffset + offset, 4)
         == LiveBytes(chunks, headIndex, headOffset)[offset..offset + 4]
  {
    FlattenTail(chunks, headIndex);
    var flat, live := Flatten(chunks[headIndex..]), LiveBytes(chunks, headIndex, headOffset);
    assert flat[headOffset..] == live;
    assert flat[headOffset + offset..headOffset + offset + 4] == flat[headOffset..][offset..offset + 4];
  }

  lemma {:induction false} WindowSkip(chunks: seq<seq<byte>>, i: nat, skip: nat, n: nat)
    requires i < |chunks| && InWindow(chunks, i, skip, n) && |chunks[i]| <= skip
    ensures InWindow(chunks, i + 1, skip - |chunks[i]|, n)
    ensures Window(chunks, i + 1, skip - |chunks[i]|, n) == Window(chunks, i, skip, n)
  {
    FlattenTail(chunks, i);
  }

  lemma {:induction false} WindowCopy(chunks: seq<seq<byte>>, i: nat, skip: nat, n: nat, m: nat)
    requires i < |chunks| && InWindow(chunks, i, skip, n) && skip + m <= |chunks[i]| && m <= n
    requires m == n || skip + m == |chunks[i]|
    ensures InWindow(chunks, i + 1, 0, n - m)
    ensures Window(chunks, i, skip, n) == chunks[i][skip..skip + m] + Window(chunks, i + 1, 0, n - m)
  {
    FlattenTail(chunks, i);
  }

  lemma {:induction false} WindowEnd(chunks: seq<seq<byte>>, i: nat, skip: nat, n: nat)
    requires InWindow(chunks, i, skip, n)
    ensures n == 0 ==> Window(chunks, i, skip, n) == []
    ensures i == |chunks| ==> n == 0
  {
    if i == |chunks| {
      assert chunks[i..] == [];
    }
  }

  class FrontendMessageBuffer {
    var chunks: seq<seq<byte>>
    var headIndex: nat
    var headOffset: nat
    var totalLength: nat
    /** Accounting: slots copied by compactions, and chunks used up, since construction. */
    ghost var slotsCopied: nat
    ghost var chunksConsumed: nat

    /** Representation invariant except for the compaction bound. */
    ghost predicate Consistent()
      reads this
    {
      && headIndex <= |chunks|
      && (forall i :: headIndex <= i < |chunks| ==> chunks[i] != [])
      && (if headIndex < |chunks| then headOffset < |chunks[headIndex]| else headOffset == 0)
      && totalLength == |LiveBytes(chunks, headIndex, headOffset)|
      && slotsCopied + headIndex <= chunksConsumed
    }

    /**
     * The dead prefix is short or less than half of the queue, and compaction has not copied more slots than
     * chunks were consumed.
     */
    ghost predicate Valid()
      reads this
    {
      && Consistent()
      && (headIndex < COMPACT_AT || 2 * headIndex < |chunks|)
      && slotsCopied <= chunksConsumed
    }

    /** The chunks that still hold unread bytes. */
    ghost function LiveSlots(): int
      reads this
    {
      |chunks| - headIndex
    }

    /** The flat byte queue this buffer stands for. */
    ghost function Contents(): seq<byte>
      requires Consistent()
      reads this
    {
      LiveBytes(chunks, headIndex, headOffset)
    }

    constructor ()
      ensures Valid() && Contents() == [] && slotsCopied == chunksConsumed == 0
    {
      chunks := [];
      headIndex, headOffset, totalLength := 0, 0, 0;
      slotsCopied, chunksConsumed := 0, 0;
    }

    method Length() returns (n: nat)
      requires Valid()
      ensures n == |Contents()|
    {
      n := totalLength;
    }

    method Push(chunk: seq<byte>)
      requires Valid()
      modifies this
      ensures Valid() && Contents() == old(Contents()) + chunk
      ensures slotsCopied == old(slotsCopied) && chunksConsumed == old(chunksConsumed)
    {
      if |chunk| == 0 {
        assert Contents() + [] == Contents();
        return;
      }
      LiveBytesPush(chunks, headIndex, headOffset, chunk);
      chunks := chunks + [chunk];
      totalLength := totalLength + |chunk|;
    }

    method Clear()
      requires Valid()
      modifies this
      ensures Valid() && Contents() == []
      ensures slotsCopied == old(slotsCopied) && chunksConsumed == old(chunksConsumed)
    {
      chunks := [];
      headIndex, headOffset, totalLength := 0, 0, 0;
    }

    /** Reads four bytes at `offset`, crossing chunk borders if need be; none if they are not there. */
    method ReadUInt32BE(offset: int) returns (n: Option<nat>)
      requires Valid()
      ensures n == if 0 <= offset && offset + 4 <= |Contents()| then Some(U32At(Contents(), offset)) else None
    {
      if offset < 0 || offset + 4 > totalLength { return None; }
      var head := chunks[headIndex];
      var start := headOffset + offset;
      ghost var rest := Flatten(chunks[headIndex + 1..]);
      if start + 4 <= |head| {
        assert head[start..start + 4] == Contents()[offset..offset + 4] by {
          assert Contents() == head[headOffset..] + rest;
        }
        U32Slices(head, start, Contents(), offset);
        return Some(U32At(head, start));
      }
      var bytes := Gather(headOffset + offset, offset);
      U32Slices(bytes, 0, Contents(), offset);
      n := Some(U32At(bytes, 0));
    }

    /** The slow path: skips `skip` bytes counted from the start of the head chunk and gathers four. */
    method Gather(skip: nat, ghost offset: nat) returns (bytes: seq<byte>)
      requires Valid() && headIndex < |chunks| && skip == headOffset + offset && offset + 4 <= |Contents()|
      ensures |bytes| == 4 && bytes == Contents()[offset..offset + 4]
    {
      hide Window, InWindow, Flatten, LiveBytes;
      var remaining: nat := skip;
      bytes := [];
      var i := headIndex;
      WindowOfContents(chunks, headIndex, headOffset, offset);
      ghost var want := Window(chunks, i, remaining, 4);
      while i < |chunks| && |bytes| < 4
        invariant headIndex <= i <= |chunks| && |bytes| <= 4
        invariant InWindow(chunks, i, remaining, 4 - |bytes|)
        invariant bytes + Window(chunks, i, remaining, 4 - |bytes|) == want
      {
        var chunk := chunks[i];
        var need := 4 - |bytes|;
        i := i + 1;
        if remaining >= |chunk| {
          WindowSkip(chunks, i - 1, remaining, need);
          remaining := remaining - |chunk|;
          continue;
        }
        var bytesToCopy := if need <= |chunk| - remaining then need else |chunk| - remaining;
        WindowCopy(chunks, i - 1, remaining, need, bytesToCopy);
        bytes := bytes + chunk[remaining..remaining + bytesToCopy];
        remaining := 0;
      }
      WindowEnd(chunks, i, remaining, 4 - |bytes|);
    }

    /** Takes the first `length` bytes off the queue, or fails on a length that is not there. */
    method Consume(length: int) returns (r: Option<seq<byte>>)
      requires Valid()
      modifies this
      ensures Valid()
      ensures if 0 <= length <= old(|Contents()|)
              then r == Some(old(Contents())[..length]) && Contents() == old(Contents())[length..]
              else r.None? && Contents() == old(Contents())
      ensures chunksConsumed == old(chunksConsumed) + old(LiveSlots()) - LiveSlots()
      ensures slotsCopied >= old(slotsCopied)
    {
      hide Flatten;
      if length < 0 || length > totalLength { return None; }
      if length == 0 { return Some([]); }
      var head := chunks[headIndex];
      ghost var was := Contents();
      if |head| - headOffset >= length {
        var slice := head[headOffset..headOffset + length];
        LiveBytesHead(chunks, headIndex, headOffset, length);
        Advance(length);
        return Some(slice);
      }
      var result: seq<byte> := [];
      var remaining: nat := length;
      while remaining > 0
        invariant Valid() && remaining <= length
        invariant |Contents()| == |was| - (length - remaining) && Contents() == was[length - remaining..]
        invariant result == was[..length - remaining]
        invariant chunksConsumed == old(chunksConsumed) + old(LiveSlots()) - LiveSlots()
        invariant slotsCopied >= old(slotsCopied)
      {
        var chunk := chunks[headIndex];
        var bytesToCopy := if remaining <= |chunk| - headOffset then remaining else |chunk| - headOffset;
        LiveBytesHead(chunks, headIndex, headOffset, bytesToCopy);
        result := result + chunk[headOffset..headOffset + bytesToCopy];
        remaining := remaining - bytesToCopy;
        Advance(bytesToCopy);
      }
      r := Some(result);
    }

    /** Moves the head by `n` bytes within the head chunk. */
    method Advance(n: nat)
      requires Valid() && headIndex < |chunks| && 0 < n <= |chunks[headIndex]| - headOffset
      modifies this
      ensures Valid() && n <= old(|Contents()|) && Contents() == old(Contents())[n..]
      ensures chunksConsumed == old(chunksConsumed) + if old(headOffset) + n == old(|chunks[headIndex]|) then 1 else 0
      ensures chunksConsumed == old(chunksConsumed) + old(LiveSlots()) - LiveSlots()
      ensures slotsCopied == old(slotsCopied)
                             + if chunksConsumed != old(chunksConsumed) && headIndex == 0 then |chunks| else 0
    {
      LiveBytesAdvance(chunks, headIndex, headOffset, n);
      headOffset := headOffset + n;
      totalLength := totalLength - n;
      if headOffset == |chunks[headIndex]| {
        LiveBytesNextChunk(chunks, headIndex);
        headIndex, headOffset := headIndex + 1, 0;
        chunksConsumed := chunksConsumed + 1;
        CompactChunks();
      }
    }

    /** Drops the dead prefix when it is the whole queue, or long and at least half of it. */
    method CompactChunks()
      requires Consistent() && headOffset == 0
      modifies this
      ensures Valid() && Contents() == old(Contents())
      ensures if old(headIndex == |chunks| || (headIndex >= 32 && headIndex * 2 >= |chunks|))
              then chunks == old(chunks[headIndex..]) && headIndex == 0 && slotsCopied == old(slotsCopied) + |chunks|
              else chunks == old(chunks) && headIndex == old(headIndex) && slotsCopied == old(slotsCopied)
      ensures headOffset == 0 && totalLength == old(totalLength) && chunksConsumed == old(chunksConsumed)
    {
      if headIndex == |chunks| {
        chunks := [];
        headIndex := 0;
        return;
      }
      if headIndex >= COMPACT_AT && headIndex * 2 >= |chunks| {
        LiveBytesCompact(chunks, headIndex, headOffset);
        slotsCopied := slotsCopied + (|chunks| - headIndex);
        chunks := chunks[headIndex..];
        headIndex := 0;
      }
    }
  }

  lemma {:induction false} U32Slices(a: seq<byte>, i: nat, b: seq<byte>, j: nat)
    requires i + 4 <= |a| && j + 4 <= |b| && a[i..i + 4] == b[j..j + 4]
    ensures U32At(a, i) == U32At(b, j)
  {
    var p, q := a[i..i + 4], b[j..j + 4];
    assert U32At(a, i) == U32At(p, 0) && U32At(b, j) == U32At(q, 0);
  }
}
