/** The flat byte queue that a chunked buffer stands for. */
module ByteQueues {

  type Byte = x: int | 0 <= x < 256

  /** Chunks one after the other. */
  function Flat(chunks: seq<seq<Byte>>): seq<Byte> {
    if chunks == [] then [] else chunks[0] + Flat(chunks[1..])
  }

  lemma {:induction false} FlatAppend(a: seq<seq<Byte>>, b: seq<seq<Byte>>)
    ensures Flat(a + b) == Flat(a) + Flat(b)
  {
    if a == [] {
      assert a + b == b;
    } else {
      assert (a + b)[0] == a[0] && (a + b)[1..] == a[1..] + b;
      FlatAppend(a[1..], b);
    }
  }

  lemma FlatOne(c: seq<Byte>)
    ensures Flat([c]) == c
  {
    assert [c][1..] == [] && c + [] == c;
  }

  /** The chunks up to and with the one at i. */
  lemma FlatPrefix(chunks: seq<seq<Byte>>, i: nat)
    requires i < |chunks|
    ensures Flat(chunks[..i + 1]) == Flat(chunks[..i]) + chunks[i]
  {
    assert chunks[..i + 1] == chunks[..i] + [chunks[i]];
    FlatAppend(chunks[..i], [chunks[i]]);
    FlatOne(chunks[i]);
  }

  lemma FlatSplit(chunks: seq<seq<Byte>>, i: nat)
    requires i <= |chunks|
    ensures Flat(chunks) == Flat(chunks[..i]) + Flat(chunks[i..])
  {
    assert chunks == chunks[..i] + chunks[i..];
    FlatAppend(chunks[..i], chunks[i..]);
  }

  function Min(a: int, b: int): int { if a < b then a else b }
  function Max(a: int, b: int): int { if a < b then b else a }

  /** What reading up to n bytes from an offset yields. */
  function Slice(s: seq<Byte>, offset: nat, n: nat): (r: seq<Byte>)
    ensures |r| == Min(n, Max(0, |s| - offset))
  {
    if offset >= |s| then [] else s[offset..Min(offset + n, |s|)]
  }

  /** A read that is not yet full goes on with the next chunk at what is left of the offset. */
  lemma SliceNext(before: seq<Byte>, chunk: seq<Byte>, offset: nat, n: nat)
    requires |Slice(before, offset, n)| < n
    ensures var got := Slice(before, offset, n);
            Slice(before + chunk, offset, n) == got + Slice(chunk, Max(0, offset - |before|), n - |got|)
  {
    var got := Slice(before, offset, n);
    var more := Slice(chunk, Max(0, offset - |before|), n - |got|);
    var all := Slice(before + chunk, offset, n);
    assert |all| == |got| + |more|;
    forall k | 0 <= k < |all| ensures all[k] == (got + more)[k] { }
  }

  /** Once a read is full, later chunks do not matter. */
  lemma SliceFull(before: seq<Byte>, after: seq<Byte>, offset: nat, n: nat)
    requires |Slice(before, offset, n)| == n || after == []
    ensures Slice(before + after, offset, n) == Slice(before, offset, n)
  {
    if after == [] { assert before + after == before; }
  }

  /** How many of the bytes asked for a chunk of the given size has; the sum is one of 32-bit numbers. */
  function Clamped(offset: nat, n: nat, size: nat): int {
    if (offset + n) % 0x1_0000_0000 > size then size - offset else n
  }

  /** That is right exactly if the sum does not wrap round to at most the size. */
  lemma ClampedExactly(offset: nat, n: nat, size: nat)
    requires offset < size < 0x1_0000_0000 && n < 0x1_0000_0000
    ensures Clamped(offset, n, size) == Min(n, size - offset) <==>
            !(0x1_0000_0000 <= offset + n <= 0x1_0000_0000 + size)
  {
  }

  /** Of four bytes, all but the first are asked for by way of the largest length: it is taken as it is. */
  lemma WrappedRead()
    ensures Clamped(1, 0xFFFF_FFFF, 4) == 0xFFFF_FFFF && |Slice([0, 0, 0, 0], 1, 0xFFFF_FFFF)| == 3
    ensures !Fits(1, 0xFFFF_FFFF, 4)
  {
  }

  /** A read of one chunk that the 32-bit sum clamps rightly. */
  predicate Fits(offset: nat, n: nat, size: nat) {
    offset < size ==> !(0x1_0000_0000 <= offset + n <= 0x1_0000_0000 + size)
  }

  /** A read across chunks: only the chunk the offset lies in can clamp it wrongly. */
  predicate ReadFits(chunks: seq<seq<Byte>>, offset: nat, n: nat) {
    chunks == [] ||
    if offset < |chunks[0]| then Fits(offset, n, |chunks[0]|) else ReadFits(chunks[1..], offset - |chunks[0]|, n)
  }

  /** Whether a read fits is decided behind the chunks that lie before its offset. */
  lemma {:induction false} ReadFitsFrom(chunks: seq<seq<Byte>>, i: nat, offset: nat, n: nat)
    requires i <= |chunks| && |Flat(chunks[..i])| <= offset
    ensures ReadFits(chunks, offset, n) <==> ReadFits(chunks[i..], offset - |Flat(chunks[..i])|, n)
  {
    if i == 0 {
      assert chunks[..0] == [] && chunks[0..] == chunks;
    } else {
      assert chunks[..i][0] == chunks[0];
      assert chunks[..i][1..] == chunks[1..][..i - 1];
      assert |Flat(chunks[..i])| == |chunks[0]| + |Flat(chunks[1..][..i - 1])|;
      ReadFitsFrom(chunks[1..], i - 1, offset - |chunks[0]|, n);
      assert chunks[i..] == chunks[1..][i - 1..];
    }
  }

  /** A read of nothing always fits. */
  lemma {:induction false} NothingFits(chunks: seq<seq<Byte>>, offset: nat)
    requires offset < 0x1_0000_0000
    ensures ReadFits(chunks, offset, 0)
  {
    if chunks != [] && offset >= |chunks[0]| { NothingFits(chunks[1..], offset - |chunks[0]|); }
  }

  /** A read from the front always fits. */
  lemma {:induction false} FrontFits(chunks: seq<seq<Byte>>, n: nat)
    requires n < 0x1_0000_0000
    ensures ReadFits(chunks, 0, n)
  {
    if chunks != [] { FrontFits(chunks[1..], n); }
  }
}
