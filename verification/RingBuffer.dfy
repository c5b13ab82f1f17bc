/** The ring buffer of the network layer (src/observer/net/ring_buffer.cpp, ring_buffer.h). */
module RingBuffer {

  type Byte = x: int | 0 <= x < 0x100

  datatype RC = Success | InvalidArgument | IoErrWrite

  function Min(a: int, b: int): int {
    if a < b then a else b
  }

  /** A position that ran past the end of the buffer once. */
  function Wrap(x: int, capacity: nat): int {
    if x < capacity then x else x - capacity
  }

  lemma ModIsWrap(x: int, capacity: nat)
    requires 0 <= x < 2 * capacity
    ensures x % capacity == Wrap(x, capacity)
  {
    if x >= capacity { assert x - capacity == x % capacity; }
  }

  /** The n bytes from position r on, around the end. */
  function Window(b: seq<Byte>, r: nat, n: nat): (w: seq<Byte>)
    requires n <= |b| && (n > 0 ==> r < |b|)
    ensures |w| == n
  {
    seq(n, i requires 0 <= i < n => b[Wrap(r + i, |b|)])
  }

  /** Writing behind a window without overrunning it extends it. */
  lemma WindowAppend(b: seq<Byte>, r: nat, n: nat, w: nat, chunk: seq<Byte>)
    requires r < |b| && n + |chunk| <= |b| && w == Wrap(r + n, |b|) && w + |chunk| <= |b|
    ensures Window(b[..w] + chunk + b[w + |chunk|..], r, n + |chunk|) == Window(b, r, n) + chunk
  {
    var b' := b[..w] + chunk + b[w + |chunk|..];
    var longer, shorter := Window(b', r, n + |chunk|), Window(b, r, n);
    forall i | 0 <= i < n + |chunk| ensures longer[i] == (shorter + chunk)[i] {
      var p := Wrap(r + i, |b|);
      if i < n {
        assert p < w || p >= w + |chunk|;
      } else {
        assert p == w + (i - n);
      }
    }
  }

  lemma WindowDrop(b: seq<Byte>, r: nat, n: nat, k: nat)
    requires r < |b| && k <= n <= |b| && k < |b|
    ensures Window(b, Wrap(r + k, |b|), n - k) == Window(b, r, n)[k..]
  {
    var dropped, all := Window(b, Wrap(r + k, |b|), n - k), Window(b, r, n);
    forall i | 0 <= i < n - k ensures dropped[i] == all[k..][i] {
      assert Wrap(Wrap(r + k, |b|) + i, |b|) == Wrap(r + (k + i), |b|);
      assert dropped[i] == b[Wrap(Wrap(r + k, |b|) + i, |b|)];
      assert all[k + i] == b[Wrap(r + (k + i), |b|)];
    }
  }

  class Ring {
    const buffer: array<Byte>
    var dataSize: int
    var writePos: int

    ghost predicate Valid()
      reads this
    {
      && 0 <= dataSize <= buffer.Length
      && (buffer.Length == 0 ==> writePos == 0)
      && (buffer.Length > 0 ==> 0 <= writePos < buffer.Length)
    }

    function Capacity(): int { buffer.Length }

    function Size(): int
      reads this
    {
      dataSize
    }

    function Remain(): int
      reads this
    {
      Capacity() - Size()
    }

    function ReadPos(): (r: int)
      requires Valid() && buffer.Length > 0
      reads this
      ensures 0 <= r < buffer.Length && writePos == Wrap(r + dataSize, buffer.Length)
    {
      ModIsWrap(writePos - Size() + Capacity(), Capacity());
      (writePos - Size() + Capacity()) % Capacity()
    }

    /** How many of the queued bytes lie before the end of the buffer; the others begin at its start. */
    function FirstRun(): (n: int)
      requires Valid()
      reads this
      ensures 0 <= n <= Size() && (n == 0 <==> Size() == 0)
    {
      if Size() == 0 then 0 else Min(Size(), Capacity() - ReadPos())
    }

    /** The queued bytes, oldest first. */
    ghost function Contents(): (c: seq<Byte>)
      requires Valid()
      reads this, buffer
      ensures |c| == dataSize
    {
      if buffer.Length == 0 then [] else Window(buffer[..], ReadPos(), dataSize)
    }

    constructor (size: nat)
      ensures Valid() && Contents() == [] && Capacity() == size && fresh(buffer)
    {
      buffer := new Byte[size];
      dataSize, writePos := 0, 0;
    }

    /** `memcpy` to a place in the buffer. */
    method CopyIn(at: nat, chunk: seq<Byte>)
      requires at + |chunk| <= buffer.Length
      modifies buffer
      ensures buffer[..] == old(buffer[..at]) + chunk + old(buffer[at + |chunk|..])
    {
      for i := 0 to |chunk|
        invariant buffer[..at] == old(buffer[..at])
        invariant buffer[at..at + i] == chunk[..i]
        invariant buffer[at + |chunk|..] == old(buffer[at + |chunk|..])
      {
        buffer[at + i] := chunk[i];
        assert buffer[at..at + i + 1] == buffer[at..at + i] + [chunk[i]];
      }
      assert buffer[..] == buffer[..at] + buffer[at..at + |chunk|] + buffer[at + |chunk|..];
    }

    /** The room from the write position up to the end or the oldest byte. */
    function Run(): (n: int)
      requires Valid() && Remain() > 0
      reads this
      ensures 0 < n <= Remain() && writePos + n <= Capacity()
    {
      if ReadPos() <= writePos then Capacity() - writePos else ReadPos() - writePos
    }

    /** One round of `write`: copies a piece that fits into the run. */
    method WriteRun(chunk: seq<Byte>)
      requires Valid() && Remain() > 0 && |chunk| <= Run()
      modifies this, buffer
      ensures Valid() && Contents() == old(Contents()) + chunk
    {
      WindowAppend(buffer[..], ReadPos(), dataSize, writePos, chunk);
      ModIsWrap(writePos + |chunk|, Capacity());
      hide ReadPos, Window;
      ghost var readPos := ReadPos();
      CopyIn(writePos, chunk);
      writePos := (writePos + |chunk|) % Capacity();
      dataSize := dataSize + |chunk|;
      assert ReadPos() == readPos;
    }

    /** `write`: takes as much as there is room for. */
    method Write(data: seq<Byte>, size: int) returns (rc: RC, writeSize: int)
      requires Valid() && size <= |data|
      modifies this, buffer
      ensures Valid()
      ensures rc == if size < 0 then InvalidArgument else Success
      ensures writeSize == if size < 0 then 0 else Min(size, old(Remain()))
      ensures Contents() == old(Contents()) + data[..writeSize]
    {
      hide ReadPos, Window, Contents;
      writeSize := 0;
      if size < 0 { return InvalidArgument, 0; }
      while writeSize < size && Remain() > 0
        invariant Valid() && 0 <= writeSize <= size
        invariant Remain() == old(Remain()) - writeSize
        invariant Contents() == old(Contents()) + data[..writeSize]
      {
        var copySize := Min(size - writeSize, Run());
        WriteRun(data[writeSize..writeSize + copySize]);
        writeSize := writeSize + copySize;
        assert data[..writeSize] == data[..writeSize - copySize] + data[writeSize - copySize..writeSize];
      }
      rc := Success;
    }

    /** `buffer`: the place and length of a contiguous run of the oldest bytes; empty only when the
        queue is. */
    method Peek() returns (start: nat, readSize: nat)
      requires Valid()
      ensures start + readSize <= buffer.Length && readSize <= Size()
      ensures readSize == FirstRun() && (readSize > 0 ==> start == ReadPos())
      ensures buffer[start..start + readSize] == Contents()[..readSize]
    {
      if Size() == 0 { return 0, 0; }
      var readPos := ReadPos();
      start := readPos;
      if readPos < writePos {
        readSize := writePos - readPos;
      } else {
        readSize := Capacity() - readPos;
      }
      forall i | 0 <= i < readSize ensures Contents()[i] == buffer[start + i] {
        assert Contents()[i] == buffer[..][Wrap(readPos + i, buffer.Length)];
      }
    }

    /** `forward`: drops the oldest bytes, or nothing when asked for too many. */
    method Forward(size: int) returns (rc: RC)
      requires Valid()
      modifies this`dataSize
      ensures Valid()
      ensures rc == if 0 <= size <= old(Size()) then Success else InvalidArgument
      ensures Contents() == if 0 <= size <= old(Size()) then old(Contents())[size..] else old(Contents())
      ensures 0 <= size <= old(FirstRun()) ==>
                FirstRun() == if size < old(FirstRun()) then old(FirstRun()) - size else Size()
    {
      if size < 0 { return InvalidArgument; }
      if size > Size() { return InvalidArgument; }
      if 0 < size < Capacity() {
        WindowDrop(buffer[..], ReadPos(), dataSize, size);
      }
      ghost var r := if Capacity() > 0 then Wrap(ReadPos() + size, Capacity()) else 0;
      dataSize := dataSize - size;
      assert Capacity() > 0 && dataSize > 0 ==> ReadPos() == r;
      rc := Success;
    }

    /** One round of `read`: takes out what it may of the contiguous oldest bytes. */
    method ReadRun(limit: int) returns (chunk: seq<Byte>)
      requires Valid() && limit > 0 && Size() > 0
      modifies this`dataSize
      ensures Valid() && 0 < |chunk| <= limit && |chunk| <= old(Size())
      ensures chunk == old(Contents())[..|chunk|] && Contents() == old(Contents())[|chunk|..]
    {
      hide ReadPos, FirstRun, Window, Contents;
      var start, tmpSize := Peek();
      var copySize := Min(limit, tmpSize);
      chunk := buffer[start..start + copySize];
      assert chunk == buffer[start..start + tmpSize][..copySize];
      var _ := Forward(copySize);
    }

    /** `read`: takes the oldest bytes out, as many as there are. */
    method Read(size: int) returns (rc: RC, out: seq<Byte>)
      requires Valid()
      modifies this`dataSize
      ensures Valid()
      ensures rc == if size < 0 then InvalidArgument else Success
      ensures var n := if size < 0 then 0 else Min(size, old(Size()));
              out == old(Contents())[..n] && Contents() == old(Contents())[n..]
    {
      hide ReadPos, FirstRun, Window, Contents;
      out := [];
      if size < 0 { return InvalidArgument, []; }
      rc := Success;
      while |out| < size && Size() > 0
        invariant Valid() && |out| <= size
        invariant out + Contents() == old(Contents())
        decreases size - |out|
      {
        ghost var c := Contents();
        var chunk := ReadRun(size - |out|);
        assert out + c == (out + chunk) + Contents();
        out := out + chunk;
      }
    }
  }

  /** The two intermediate values of `read_pos` fit into 32 bits. */
  predicate PositionFits(capacity: int, size: int, writePos: int) {
    -0x8000_0000 <= writePos - size && writePos - size + capacity < 0x8000_0000
  }

  /** They do in every state exactly for capacities up to 2^30. */
  lemma PositionFitsIff(capacity: int)
    requires 0 < capacity < 0x8000_0000
    ensures (forall size, writePos | 0 <= size <= capacity && 0 <= writePos < capacity ::
               PositionFits(capacity, size, writePos))
            <==> capacity <= 0x4000_0000
  {
    assert PositionFits(capacity, 0, capacity - 1) <==> capacity <= 0x4000_0000;
  }
}
