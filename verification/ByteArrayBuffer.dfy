/** A queue of bytes kept in chunks (ByteArrayBuffer.h, ByteArrayBuffer.cc) and its chunks (ByteArray.cc). */
module ByteArrayBuffers {
  import opened ByteQueues

  const UINT_LIMIT: int := 0x1_0000_0000

  class ByteArray {
    var data: array?<Byte>

    function Bytes(): seq<Byte>
      reads this, data
    {
      if data == null then [] else data[..]
    }

    function Size(): nat
      reads this
    {
      if data == null then 0 else data.Length
    }

    constructor ()
      ensures data == null
    {
      data := null;
    }

    /** Its own copy of the first bytes of a buffer. */
    method SetDataFromBuffer(buffer: array<Byte>, length: nat)
      requires length <= buffer.Length && data == null
      modifies this
      ensures Bytes() == buffer[..length] && (data == null || fresh(data))
    {
      if length != Size() {
        data := Copied(buffer, 0, length);
      }
    }

    static method Copied(src: array<Byte>, start: nat, length: nat) returns (copy: array<Byte>)
      requires start + length <= src.Length
      ensures fresh(copy) && copy[..] == src[start..start + length]
    {
      copy := new Byte[length](i requires 0 <= i < length && start + length <= src.Length reads src => src[start + i]);
    }

    /**
     * Copies bytes from an offset on; the sum in the test is one of 32-bit numbers. Not inside where the copy would
     * read beyond the data; the model stops there.
     */
    method CopyDataToBuffer(buffer: array<Byte>, at: nat, length: nat, srcOffs: nat) returns (n: nat, inside: bool)
      requires at + length <= buffer.Length && buffer != data
      requires srcOffs < UINT_LIMIT && length < UINT_LIMIT && Size() < UINT_LIMIT
      modifies buffer
      ensures inside <==> Fits(srcOffs, length, Size())
      ensures inside ==> n == |Slice(Bytes(), srcOffs, length)| <= length
      ensures inside ==> buffer[..] == old(buffer[..at]) + Slice(Bytes(), srcOffs, length) + old(buffer[at + n..])
      ensures !inside ==> n == length && srcOffs + n > Size() && buffer[..] == old(buffer[..])
    {
      hide Clamped;
      if srcOffs >= Size() {
        n, inside := 0, true;
        NothingCopied(buffer[..], at);
        return;
      }
      ClampedExactly(srcOffs, length, Size());
      ClampedIs(srcOffs, length, Size());
      n := Clamped(srcOffs, length, Size());
      inside := srcOffs + n <= Size();
      if inside { CopyInto(buffer, at, data, srcOffs, n); }
    }

    static lemma ClampedIs(offset: nat, n: nat, size: nat)
      requires offset < size
      ensures Clamped(offset, n, size) == n || Clamped(offset, n, size) == size - offset
    {
    }

    static lemma NothingCopied(was: seq<Byte>, at: nat)
      requires at <= |was|
      ensures was == was[..at] + [] + was[at..]
    {
    }

    /** memcpy. */
    static method CopyInto(buffer: array<Byte>, at: nat, src: array<Byte>, start: nat, n: nat)
      requires at + n <= buffer.Length && start + n <= src.Length && buffer != src
      modifies buffer
      ensures buffer[..] == old(buffer[..at]) + src[start..start + n] + old(buffer[at + n..])
    {
      ghost var was := buffer[..];
      var i := 0;
      while i < n
        invariant i <= n
        invariant forall k :: 0 <= k < buffer.Length && !(at <= k < at + i) ==> buffer[k] == was[k]
        invariant forall k :: at <= k < at + i ==> buffer[k] == src[start + (k - at)]
      {
        buffer[at + i] := src[start + i];
        i := i + 1;
      }
      ThreeParts(buffer[..], was, src[start..start + n], at, n);
    }

    static lemma ThreeParts(now: seq<Byte>, was: seq<Byte>, piece: seq<Byte>, at: nat, n: nat)
      requires |now| == |was| && at + n <= |was| && |piece| == n
      requires forall k :: 0 <= k < |now| && !(at <= k < at + n) ==> now[k] == was[k]
      requires forall k :: at <= k < at + n ==> now[k] == piece[k - at]
      ensures now == was[..at] + piece + was[at + n..]
    {
    }

    /** Cuts bytes off both ends. */
    method TruncateData(left: nat, right: nat)
      requires left + right <= Size()
      modifies this
      ensures Bytes() == old(Bytes()[left..|Bytes()| - right]) && (data == old(data) || data == null || fresh(data))
    {
      if left != 0 || right != 0 {
        var nlength := Size() - (left + right);
        if nlength != 0 { data := Copied(data, left, nlength); } else { data := null; }
      }
    }
  }

  class ByteArrayBuffer {
    var dataList: seq<ByteArray>
    var dataLength: nat
    /** All bytes ever pushed, and those that have left. */
    ghost var pushed: seq<Byte>
    ghost var removed: seq<Byte>

    ghost function Chunks(): seq<seq<Byte>>
      reads this, dataList, set c | c in dataList :: c.data
    {
      seq(|dataList|, i requires 0 <= i < |dataList| reads this, dataList, set c | c in dataList ::
        c.data => dataList[i].Bytes())
    }

    /** The queue the buffer stands for. */
    ghost function Contents(): seq<Byte>
      reads this, dataList, set c | c in dataList :: c.data
    {
      Flat(Chunks())
    }

    ghost predicate Valid()
      reads this, dataList, set c | c in dataList :: c.data
    {
      && removed + Contents() == pushed && dataLength == |Contents()|
      && SizesFit()
      && Distinct()
    }

    ghost predicate Distinct()
      reads this
    {
      forall i, j :: 0 <= i < j < |dataList| ==> dataList[i] != dataList[j]
    }

    constructor ()
      ensures Valid() && Contents() == [] && pushed == []
    {
      dataList, dataLength, pushed, removed := [], 0, [], [];
    }

    /** Appends a copy of the first bytes of a buffer. */
    method Push(buffer: array<Byte>, length: nat)
      requires Valid() && length <= buffer.Length && length < UINT_LIMIT
      modifies this
      ensures Valid() && Contents() == old(Contents()) + buffer[..length]
      ensures pushed == old(pushed) + buffer[..length] && removed == old(removed)
      ensures exists chunk ::
                dataList == old(dataList) + [chunk] && fresh(chunk) && (chunk.data == null || fresh(chunk.data))
    {
      hide Flat, SizesFit;
      ghost var chunks, bytes := Chunks(), buffer[..length];
      ChunkSizes();
      var chunk := new ByteArray();
      chunk.SetDataFromBuffer(buffer, length);
      Appended(chunks, bytes, removed);
      dataList := dataList + [chunk];
      dataLength := dataLength + length;
      pushed := pushed + bytes;
      OneMore(chunks, bytes);
    }

    lemma OneMore(was: seq<seq<Byte>>, bytes: seq<Byte>)
      requires |dataList| == |was| + 1 && dataList[|was|].Bytes() == bytes && |bytes| < UINT_LIMIT
      requires forall i :: 0 <= i < |was| ==> dataList[i].Bytes() == was[i] && |was[i]| < UINT_LIMIT
      ensures Chunks() == was + [bytes] && SizesFit()
    {
      hide Flat, SizesFit;
      ChunkSizes();
      forall i | 0 <= i < |dataList| ensures Chunks()[i] == (was + [bytes])[i] { }
    }

    lemma Appended(chunks: seq<seq<Byte>>, bytes: seq<Byte>, gone: seq<Byte>)
      ensures Flat(chunks + [bytes]) == Flat(chunks) + bytes
      ensures gone + (Flat(chunks) + bytes) == gone + Flat(chunks) + bytes
    {
      FlatAppend(chunks, [bytes]);
      FlatOne(bytes);
    }

    ghost predicate Outside(buffer: array<Byte>)
      reads this, dataList
    {
      forall c :: c in dataList ==> c.data != buffer
    }

    /**
     * Copies bytes from an offset on and leaves them in the queue. Not inside where the copy from some chunk would read
     * beyond its data; the model stops there.
     */
    method GetBytesToBuffer(buffer: array<Byte>, length: nat, srcOffs: nat) returns (n: nat, inside: bool)
      requires Valid() && length <= buffer.Length && Outside(buffer)
      requires srcOffs < UINT_LIMIT && length < UINT_LIMIT
      modifies buffer
      ensures inside <==> ReadFits(Chunks(), srcOffs, length)
      ensures inside ==> n == |Slice(Contents(), srcOffs, length)|
      ensures inside ==> buffer[..] == Slice(Contents(), srcOffs, length) + old(buffer[n..])
      ensures Contents() == old(Contents())
    {
      hide *;
      ContentsAre();
      ValidSizes();
      n, inside := 0, true;
      var off: nat, i: nat := srcOffs, 0;
      ghost var chunks, was := Chunks(), buffer[..];
      ChunksAre();
      ReadingStarts(chunks, srcOffs, length, was);
      while inside && n < length && i < |dataList|
        invariant SizesFit() && i <= |dataList| == |chunks| && Chunks() == chunks
        invariant inside ==> n <= length && off <= srcOffs && Reading(chunks, srcOffs, length, i, n, off)
        invariant |was| == buffer.Length
        invariant inside ==> buffer[..] == Slice(Flat(chunks[..i]), srcOffs, length) + was[n..]
        invariant inside && n > 0 ==> ReadFits(chunks, srcOffs, length)
        invariant !inside ==> !ReadFits(chunks, srcOffs, length)
        decreases |dataList| - i
      {
        SizeFits(i);
        n, off, inside := ReadChunk(buffer, length, srcOffs, i, n, off, was);
        i := i + 1;
      }
      ContentsAre();
      if inside {
        ReadingEnds(chunks, srcOffs, length, i, n, off);
        if n == 0 { ReadingNothing(chunks, srcOffs, length, i, off); }
      }
    }

    /** Every chunk's size is an unsigned int. */
    ghost predicate SizesFit()
      reads this, dataList
    {
      forall c :: c in dataList ==> c.Size() < UINT_LIMIT
    }

    lemma SizeFits(i: nat)
      requires i < |dataList| && SizesFit()
      ensures dataList[i].Size() < UINT_LIMIT
    {
    }

    lemma ValidSizes()
      requires Valid()
      ensures SizesFit()
    {
    }

    lemma ContentsAre()
      ensures Contents() == Flat(Chunks())
    {
    }

    lemma ChunksAre()
      ensures |Chunks()| == |dataList| && forall i :: 0 <= i < |dataList| ==> Chunks()[i] == dataList[i].Bytes()
    {
    }

    /** One turn of the reading loop. */
    method ReadChunk(buffer: array<Byte>, length: nat, srcOffs: nat, i: nat, n: nat, off: nat, ghost was: seq<Byte>)
        returns (n': nat, off': nat, inside: bool)
      requires i < |dataList| == |Chunks()|
      requires length <= buffer.Length == |was| && srcOffs < UINT_LIMIT && length < UINT_LIMIT && Outside(buffer)
      requires dataList[i].Size() < UINT_LIMIT && (n > 0 ==> ReadFits(Chunks(), srcOffs, length))
      requires n < length && off <= srcOffs
      requires Reading(Chunks(), srcOffs, length, i, n, off)
      requires buffer[..] == Slice(Flat(Chunks()[..i]), srcOffs, length) + was[n..]
      modifies buffer
      ensures Chunks() == old(Chunks())
      ensures inside ==> n' <= length && off' <= srcOffs && Reading(Chunks(), srcOffs, length, i + 1, n', off')
      ensures inside ==> buffer[..] == Slice(Flat(Chunks()[..i + 1]), srcOffs, length) + was[n'..]
      ensures inside && n' > 0 ==> ReadFits(Chunks(), srcOffs, length)
      ensures !inside ==> !ReadFits(Chunks(), srcOffs, length)
    {
      hide Flat, Slice, Clamped, Reading, Min, Max, Chunks, Fits, ReadFits, ByteArray.Bytes;
      ghost var chunks := Chunks();
      ChunksAre();
      ReadingOn(chunks, srcOffs, length, i, n, off);
      ReadingFits(chunks, srcOffs, length, i, n, off);
      SizeIs(dataList[i]);
      ghost var got, more := Slice(Flat(chunks[..i]), srcOffs, length), Slice(chunks[i], off, length - n);
      ghost var now := buffer[..];
      Glued(got, was, n, more, |more|);
      assert buffer[..n] == now[..n] && buffer[n + |more|..] == now[n + |more|..];
      var cbytes;
      cbytes, inside := dataList[i].CopyDataToBuffer(buffer, n, length - n, off);
      if !inside { return n, off, false; }
      n' := n + cbytes;
      if cbytes != 0 { off' := 0; } else { off' := off - dataList[i].Size(); }
    }

    lemma SizeIs(c: ByteArray)
      ensures c.Size() == |c.Bytes()|
    {
    }

    /** What has been read of the first i chunks, and what is left of the offset. */
    ghost predicate Reading(chunks: seq<seq<Byte>>, offset: nat, length: nat, i: nat, n: nat, off: nat)
      requires i <= |chunks|
    {
      n == |Slice(Flat(chunks[..i]), offset, length)| <= length && off == Max(0, offset - |Flat(chunks[..i])|) <= offset
    }

    lemma ReadingStarts(chunks: seq<seq<Byte>>, offset: nat, length: nat, was: seq<Byte>)
      ensures Reading(chunks, offset, length, 0, 0, offset)
              && was == Slice(Flat(chunks[..0]), offset, length) + was[0..]
    {
      assert chunks[..0] == [] && was[0..] == was;
    }

    lemma ReadingOn(chunks: seq<seq<Byte>>, offset: nat, length: nat, i: nat, n: nat, off: nat)
      requires i < |chunks| && Reading(chunks, offset, length, i, n, off) && n < length
      ensures off <= offset && n == |Slice(Flat(chunks[..i]), offset, length)|
      ensures var more := Slice(chunks[i], off, length - n);
              && |more| <= length - n && (more == [] <==> off >= |chunks[i]|)
              && Slice(Flat(chunks[..i + 1]), offset, length) == Slice(Flat(chunks[..i]), offset, length) + more
              && Reading(chunks, offset, length, i + 1, n + |more|, if more == [] then off - |chunks[i]| else 0)
    {
      hide Flat;
      FlatPrefix(chunks, i);
      SliceNext(Flat(chunks[..i]), chunks[i], offset, length);
    }

    /** Only the chunk the offset lies in decides. */
    lemma ReadingFits(chunks: seq<seq<Byte>>, offset: nat, length: nat, i: nat, n: nat, off: nat)
      requires i < |chunks| && Reading(chunks, offset, length, i, n, off) && n < length < UINT_LIMIT
      ensures n > 0 || off >= |chunks[i]| ==> Fits(off, length - n, |chunks[i]|)
      ensures n == 0 && off < |chunks[i]| ==> (ReadFits(chunks, offset, length) <==> Fits(off, length - n, |chunks[i]|))
    {
      hide Flat;
      if n == 0 {
        ReadFitsFrom(chunks, i, offset, length);
        assert chunks[i..][0] == chunks[i];
      }
    }

    lemma ReadingNothing(chunks: seq<seq<Byte>>, offset: nat, length: nat, i: nat, off: nat)
      requires i <= |chunks| && Reading(chunks, offset, length, i, 0, off) && (length == 0 || i == |chunks|)
      requires offset < UINT_LIMIT
      ensures ReadFits(chunks, offset, length)
    {
      hide Flat;
      if length == 0 {
        NothingFits(chunks, offset);
      } else {
        ReadFitsFrom(chunks, i, offset, length);
      }
    }

    lemma ReadingEnds(chunks: seq<seq<Byte>>, offset: nat, length: nat, i: nat, n: nat, off: nat)
      requires i <= |chunks| && Reading(chunks, offset, length, i, n, off) && (n >= length || i == |chunks|)
      ensures Slice(Flat(chunks), offset, length) == Slice(Flat(chunks[..i]), offset, length)
              && n == |Slice(Flat(chunks), offset, length)|
    {
      FlatSplit(chunks, i);
      SliceFull(Flat(chunks[..i]), Flat(chunks[i..]), offset, length);
    }

    /** Bytes written behind those already there. */
    lemma Glued(got: seq<Byte>, was: seq<Byte>, n: nat, more: seq<Byte>, m: nat)
      requires n == |got| && m == |more| && n + m <= |was|
      ensures (got + was[n..])[..n] + more + (got + was[n..])[n + m..] == got + more + was[n + m..]
    {
    }

    /** Moves bytes from the front of the queue to a buffer. */
    method PopBytesToBuffer(buffer: array<Byte>, length: nat) returns (n: nat)
      requires Valid() && length <= buffer.Length && length < UINT_LIMIT && Outside(buffer)
      modifies this, (set c | c in dataList), buffer
      ensures Valid() && n == Min(length, |old(Contents())|)
      ensures buffer[..] == old(Contents())[..n] + old(buffer[n..]) && Contents() == old(Contents())[n..]
      ensures pushed == old(pushed) && removed == old(removed) + buffer[..n]
    {
      FrontFits(Chunks(), length);
      var inside;
      n, inside := GetBytesToBuffer(buffer, length, 0);
      n := Drop(n);
    }

    /** Removes bytes from the front of the queue. */
    method Drop(count: nat) returns (n: nat)
      requires Valid() && count <= dataLength
      modifies this, (set c | c in dataList)
      ensures Valid() && n == count && Contents() == old(Contents())[count..]
      ensures pushed == old(pushed) && removed == old(removed) + old(Contents())[..count]
    {
      hide Flat;
      var length: nat := count;
      ghost var contents := Contents();
      while length > 0
        invariant length <= count <= |contents| && length <= dataLength && Valid()
        invariant forall c :: c in dataList ==> c in old(dataList)
        invariant Contents() == contents[count - length..]
        invariant pushed == old(pushed) && removed == old(removed) + contents[..count - length]
        decreases length, |dataList|
      {
        ghost var before := length;
        length := DropSome(length);
        NextDropped(old(removed), contents, count - before, before - length);
      }
      n := count;
    }

    lemma NextDropped(gone: seq<Byte>, contents: seq<Byte>, k: nat, n: nat)
      requires k + n <= |contents|
      ensures contents[k..][n..] == contents[k + n..]
      ensures gone + contents[..k] + contents[k..][..n] == gone + contents[..k + n]
    {
    }

    /** Removes the front chunk if all of it goes, otherwise the front of it; the rest is still to be removed. */
    method DropSome(length: nat) returns (rest: nat)
      requires Valid() && 0 < length <= dataLength
      modifies this, (set c | c in dataList)
      ensures rest < length || |dataList| < |old(dataList)|
      ensures Valid() && rest <= length && rest <= dataLength && Contents() == old(Contents())[length - rest..]
      ensures pushed == old(pushed) && removed == old(removed) + old(Contents())[..length - rest]
      ensures forall c :: c in dataList ==> c in old(dataList)
    {
      SomethingHeld();
      var sliceLength := dataList[0].Size();
      if sliceLength <= length {
        PopChunk();
        rest := length - sliceLength;
      } else {
        CutChunk(length);
        rest := 0;
      }
    }

    lemma SomethingHeld()
      requires Valid() && dataLength > 0
      ensures dataList != []
    {
    }

    /** Bytes that leave at the front are the next of those pushed. */
    lemma Leaving(gone: seq<Byte>, chunk: seq<Byte>, rest: seq<Byte>, k: nat)
      requires k <= |chunk|
      ensures gone + (chunk + rest) == gone + chunk[..k] + (chunk[k..] + rest)
      ensures (chunk + rest)[..k] == chunk[..k] && (chunk + rest)[k..] == chunk[k..] + rest
    {
    }

    method PopChunk()
      requires Valid() && dataList != []
      modifies this
      ensures Valid() && dataList == old(dataList)[1..] && dataLength == old(dataLength) - old(dataList[0].Size())
      ensures old(dataList[0].Size()) <= |old(Contents())| && Contents() == old(Contents())[old(dataList[0].Size())..]
      ensures pushed == old(pushed) && removed == old(removed) + old(Contents())[..old(dataList[0].Size())]
    {
      ghost var chunks := Chunks();
      Leaving(removed, chunks[0], Flat(chunks[1..]), |chunks[0]|);
      removed := removed + dataList[0].Bytes();
      dataLength := dataLength - dataList[0].Size();
      dataList := dataList[1..];
      assert Chunks() == chunks[1..];
      assert [] + Flat(chunks[1..]) == Flat(chunks[1..]);
    }

    method CutChunk(length: nat)
      requires Valid() && dataList != [] && length < dataList[0].Size()
      modifies this`dataLength, this`removed, dataList[0]
      ensures Valid() && dataLength == old(dataLength) - length && Contents() == old(Contents())[length..]
      ensures pushed == old(pushed) && removed == old(removed) + old(Contents())[..length]
    {
      ghost var chunks := Chunks();
      Leaving(removed, chunks[0], Flat(chunks[1..]), length);
      CutFront(length);
      removed := removed + chunks[0][..length];
      dataLength := dataLength - length;
      ghost var cut := [chunks[0][length..]] + chunks[1..];
      assert Chunks() == cut && cut[0] == chunks[0][length..] && cut[1..] == chunks[1..];
    }

    method CutFront(length: nat)
      requires dataList != [] && Distinct() && SizesFit() && length <= dataList[0].Size()
      modifies dataList[0]
      ensures Chunks() == old([Chunks()[0][length..]] + Chunks()[1..]) && SizesFit()
    {
      hide Flat, SizesFit;
      ghost var chunks := Chunks();
      ChunkSizes();
      dataList[0].TruncateData(length, 0);
      FrontCut(chunks, length);
    }

    lemma ChunkSizes()
      ensures |Chunks()| == |dataList|
      ensures forall i :: 0 <= i < |dataList| ==>
                Chunks()[i] == dataList[i].Bytes() && |Chunks()[i]| == dataList[i].Size()
      ensures SizesFit() <==> forall i :: 0 <= i < |dataList| ==> |Chunks()[i]| < UINT_LIMIT
    {
    }

    lemma FrontCut(was: seq<seq<Byte>>, length: nat)
      requires |was| == |dataList| > 0 && length <= |was[0]| && dataList[0].Bytes() == was[0][length..]
      requires forall i :: 0 < i < |was| ==> dataList[i].Bytes() == was[i]
      requires forall i :: 0 <= i < |was| ==> |was[i]| < UINT_LIMIT
      ensures Chunks() == [was[0][length..]] + was[1..] && SizesFit()
    {
      hide Flat, SizesFit;
      ChunkSizes();
      assert |Chunks()[0]| <= |was[0]|;
      forall i | 0 < i < |was| ensures Chunks()[i] == was[i] { }
    }

    method Clear()
      modifies this
      ensures Valid() && Contents() == [] && removed == pushed == old(pushed)
    {
      dataLength := 0;
      removed := pushed;
      while dataList != []
        invariant dataLength == 0 && removed == pushed == old(pushed)
        decreases |dataList|
      {
        dataList := dataList[1..];
      }
    }
  }
}
