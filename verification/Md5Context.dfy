/** The streaming context of deps/common/math/md5.cpp: init, update, final. */
module Md5Context {
  import opened Md5

  /** The guard of the block loop, on 32-bit unsigned integers. */
  predicate MoreBlocks(i: int, len: int) {
    (i + 63) % TWO_32 < len
  }

  /** With index bytes buffered, a chunk of this length passes through the block loop. */
  predicate Fits(index: nat, len: nat) {
    len < TWO_32 && (index == 0 || index + len < TWO_32)
  }

  /** At the positions the loop visits, the guard means "a whole block is left" exactly for chunks that
      fit; on others it wraps. */
  lemma GuardExactIff(index: nat, len: word)
    requires index < 64
    ensures (forall i: word | i <= len && (i + index) % 64 == 0 :: MoreBlocks(i, len) <==> i + 64 <= len)
            <==> Fits(index, len)
  {
    if !Fits(index, len) {
      var i: word := TWO_32 - index;
      assert i <= len && (i + index) % 64 == 0;
      assert MoreBlocks(i, len) && i + 64 > len;
    } else {
      forall i: word | i <= len && (i + index) % 64 == 0 ensures MoreBlocks(i, len) <==> i + 64 <= len {
        VisitedDoesNotWrap(index, len, i);
      }
    }
  }

  lemma VisitedDoesNotWrap(index: nat, len: word, i: word)
    requires index < 64 && Fits(index, len) && i <= len && (i + index) % 64 == 0
    ensures i + 63 < TWO_32
  {
    var q := (i + index) / 64;
    assert i + index == 64 * q < 64 * 0x400_0000;
  }

  /** The k-th position of the block loop, in 32-bit arithmetic. */
  function Position(index: nat, k: nat): nat
    requires index < 64
  {
    (64 - index + 64 * k) % TWO_32
  }

  /** On a chunk that reaches the loop, the loop ends exactly if the chunk fits: otherwise the position
      wraps to where it began and the guard holds at every turn. */
  lemma LoopEndsIff(index: nat, len: word)
    requires index < 64 && 64 - index <= len
    ensures (exists k: nat :: !MoreBlocks(Position(index, k), len)) <==> Fits(index, len)
  {
    if Fits(index, len) {
      var k: nat := (len + index) / 64 - 1;
      LastPosition(index, len, k);
      assert !MoreBlocks(Position(index, k), len);
    } else {
      forall k: nat ensures MoreBlocks(Position(index, k), len) { GuardAlwaysHolds(index, len, k); }
    }
  }

  lemma LastPosition(index: nat, len: word, k: nat)
    requires index < 64 && Fits(index, len) && k == (len + index) / 64 - 1
    ensures !MoreBlocks(Position(index, k), len)
  {
    var i := 64 - index + 64 * k;
    assert len - 63 <= i <= len && i + index == 64 * (k + 1);
    VisitedDoesNotWrap(index, len, i);
  }

  lemma GuardAlwaysHolds(index: nat, len: word, k: nat)
    requires index < 64 && !Fits(index, len)
    ensures MoreBlocks(Position(index, k), len)
  {
    var p := Position(index, k);
    var w := (64 - index + 64 * k) / TWO_32;
    var q := k + 1 - 0x400_0000 * w;
    assert p + index == 64 * q;
    if q < 0x400_0000 {
      assert p + 63 <= 64 * 0x3ff_ffff + 63 - index < len;
    } else {
      assert q == 0x400_0000 && p + 63 == TWO_32 + 63 - index;
    }
  }

  /** One buffered byte and a chunk of 2^32 - 1 bytes. */
  lemma WrappingChunk()
    ensures !Fits(1, 0xffff_ffff)
    ensures MoreBlocks(0xffff_ffff, 0xffff_ffff) && Position(1, 0x3ff_ffff) == 0xffff_ffff
    ensures Position(1, 0x400_0000) == Position(1, 0)
  {
  }

  /** `(count[0] >> 3) & 0x3F` is the number of bytes in the last partial block. */
  lemma IndexIsTailLength(lo: word, hi: word, n: nat)
    requires lo + TWO_32 * hi == 8 * n % TWO_64
    ensures lo / 8 % 64 == n % 64
  {
    var x := hi + TWO_32 * (8 * n / TWO_64);
    assert lo == 8 * (n - 0x2000_0000 * x);
    assert lo / 8 == n - 64 * (0x80_0000 * x);
    ModShift(n, 0x80_0000 * x);
  }

  lemma ModShift(n: nat, x: int)
    ensures (n - 64 * x) % 64 == n % 64
  {
  }

  /** The two-word addition with its carry is addition modulo 2^64. */
  lemma CountAdds(lo: word, hi: word, n: nat, len: word)
    requires lo + 0x1_0000_0000 * hi == 8 * n % 0x1_0000_0000_0000_0000
    ensures var inc := 8 * len % 0x1_0000_0000;
            var lo' := (lo + inc) % 0x1_0000_0000;
            var hi' := ((if lo' < inc then (hi + 1) % 0x1_0000_0000 else hi) + len / 0x2000_0000) % 0x1_0000_0000;
            lo' + 0x1_0000_0000 * hi' == 8 * (n + len) % 0x1_0000_0000_0000_0000
  {
    var inc, top := 8 * len % 0x1_0000_0000, len / 0x2000_0000;
    assert 8 * len == inc + 0x1_0000_0000 * top;
    var lo' := (lo + inc) % 0x1_0000_0000;
    var carry := if lo' < inc then 1 else 0;
    assert lo + inc == lo' + 0x1_0000_0000 * carry;
    var high := hi + carry + top;
    var hi', over := high % 0x1_0000_0000, high / 0x1_0000_0000;
    assert hi' == ((if lo' < inc then (hi + 1) % 0x1_0000_0000 else hi) + top) % 0x1_0000_0000 by {
      HighWord(hi, carry, top);
    }
    var q := 8 * n / 0x1_0000_0000_0000_0000;
    assert 8 * (n + len) == lo' + 0x1_0000_0000 * hi' + 0x1_0000_0000_0000_0000 * (over + q);
    ModUnique(lo' + 0x1_0000_0000 * hi', over + q, 8 * (n + len));
  }

  lemma HighWord(hi: word, carry: int, top: nat)
    requires 0 <= carry <= 1
    ensures (hi + carry + top) % 0x1_0000_0000
            == ((if carry == 1 then (hi + 1) % 0x1_0000_0000 else hi) + top) % 0x1_0000_0000
  {
  }

  lemma ModUnique(r: nat, q: int, n: nat)
    requires r < 0x1_0000_0000_0000_0000 && n == r + 0x1_0000_0000_0000_0000 * q
    ensures n % 0x1_0000_0000_0000_0000 == r
  {
  }

  lemma BlockAt(m: seq<byte>, i: nat)
    requires i + 64 <= |m|
    ensures m[i..][..64] == m[i..i + 64] && m[i..][64..] == m[i + 64..]
  {
  }

  class Context {
    const transform: Transform
    var state: State
    var count0: word
    var count1: word
    const buffer: array<byte>

    /** The context stands for the bytes it has been given: all whole blocks are in the state, the rest
        is in the buffer, and the count is the length in bits modulo 2^64. */
    ghost predicate Represents(m: seq<byte>)
      reads this, buffer
    {
      && buffer.Length == 64
      && state == Blocks(transform, Initial, m)
      && count0 + TWO_32 * count1 == 8 * |m| % TWO_64
      && buffer[..|m| % 64] == Tail(m)
    }

    /** `MD5Init`. */
    constructor (transform: Transform)
      ensures Represents([]) && this.transform == transform && fresh(buffer)
      ensures state == State(0x67452301, 0xefcdab89, 0x98badcfe, 0x10325476) && count0 == count1 == 0
    {
      this.transform, state, count0, count1 := transform, Initial, 0, 0;
      buffer := new byte[64];
    }

    /** `MD5_memcpy` into the buffer. */
    method CopyIn(index: nat, input: seq<byte>)
      requires index + |input| <= buffer.Length
      modifies buffer
      ensures buffer[..index + |input|] == old(buffer[..index]) + input
    {
      for i := 0 to |input|
        invariant buffer[..index + i] == old(buffer[..index]) + input[..i]
      {
        buffer[index + i] := input[i];
        assert buffer[..index + i + 1] == buffer[..index + i] + [input[i]];
      }
      assert input[..|input|] == input;
    }

    /** The counting part of `MD5Update`. */
    method AddCount(len: word, ghost n: nat)
      requires count0 + TWO_32 * count1 == 8 * n % TWO_64
      modifies this`count0, this`count1
      ensures count0 + TWO_32 * count1 == 8 * (n + len) % TWO_64
    {
      CountAdds(count0, count1, n, len);
      count0 := (count0 + 8 * len % TWO_32) % TWO_32;
      if count0 < 8 * len % TWO_32 {
        count1 := (count1 + 1) % TWO_32;
      }
      count1 := (count1 + len / 0x2000_0000) % TWO_32;
    }

    /** The block loop of `MD5Update`, from position i on. */
    method TransformBlocks(start: nat, input: seq<byte>) returns (i: nat)
      requires 1 <= start <= 64 && start <= |input| && Fits(64 - start, |input|)
      modifies this`state
      ensures start <= i <= |input| < i + 64 && (i - start) % 64 == 0
      ensures state == Blocks(transform, old(state), input[start..])
    {
      i := start;
      while MoreBlocks(i, |input|)
        invariant start <= i <= |input| && (i - start) % 64 == 0
        invariant Blocks(transform, state, input[i..]) == Blocks(transform, old(state), input[start..])
        decreases |input| - i
      {
        VisitedDoesNotWrap(64 - start, |input|, i);
        BlockAt(input, i);
        state := transform(state, input[i..i + 64]);
        i := i + 64;
      }
    }

    /** The transforming part of `MD5Update`: how much input it used, and where the rest goes. */
    method Absorb(index: nat, input: seq<byte>, ghost tail: seq<byte>) returns (i: nat, next: nat)
      requires buffer.Length == 64 && Fits(index, |input|)
      requires |tail| == index < 64 && buffer[..index] == tail
      modifies this`state, buffer
      ensures state == Blocks(transform, old(state), tail + input)
      ensures i <= |input| && next + |input| - i < 64
      ensures buffer[..next] + input[i..] == Tail(tail + input)
    {
      hide Blocks, Tail;
      ghost var pending := tail + input;
      var partLen := 64 - index;
      if |input| >= partLen {
        CopyIn(index, input[..partLen]);
        assert buffer[..] == pending[..64] && pending[64..] == input[partLen..];
        BlocksStep(transform, state, pending);
        state := transform(state, buffer[..]);
        i := TransformBlocks(partLen, input);
        next := 0;
        TailFrom(pending, 64 + i - partLen);
        assert pending[64 + i - partLen..] == input[i..];
      } else {
        i, next := 0, index;
        TailFrom(pending, 0);
        BlocksNone(transform, state, pending);
      }
    }

    /** `MD5Update`. */
    method Update(input: seq<byte>, ghost m: seq<byte>)
      requires Represents(m) && Fits(|m| % 64, |input|)
      modifies this, buffer
      ensures Represents(m + input)
    {
      hide Blocks, Tail;
      IndexIsTailLength(count0, count1, |m|);
      BlocksAppend(transform, m, input);
      TailLength(m);
      TailLength(m + input);
      var index := count0 / 8 % 64;
      AddCount(|input|, |m|);
      var i, next := Absorb(index, input, Tail(m));
      CopyIn(next, input[i..]);
    }

    /** `MD5Final`: pads, appends the length, delivers the digest and clears the context. */
    method Final(ghost m: seq<byte>) returns (digest: seq<byte>)
      requires Represents(m)
      modifies this, buffer
      ensures digest == Md5Of(transform, m)
      ensures state == State(0, 0, 0, 0) && count0 == count1 == 0 && buffer[..] == Zeros(64)
    {
      hide Blocks, Tail, LittleEndian, WithPadding, EncodeWords;
      CountBytes(count0, count1);
      IndexIsTailLength(count0, count1, |m|);
      var bits := Encode([count0, count1]);
      var index := count0 / 8 % 64;
      var padLen := if index < 56 then 56 - index else 120 - index;
      var padding := ([0x80] + Zeros(63))[..padLen];
      PaddingBytes(m, padLen);
      Update(padding, m);
      Update(bits, m + padding);
      DigestBytes(state);
      digest := Encode([state.a, state.b, state.c, state.d]);
      Clear();
    }

    /** `MD5_memset` of the context. */
    method Clear()
      requires buffer.Length == 64
      modifies this, buffer
      ensures state == State(0, 0, 0, 0) && count0 == count1 == 0 && buffer[..] == Zeros(64)
    {
      for i := 0 to 64
        invariant buffer[..i] == Zeros(i)
      {
        buffer[i] := 0;
      }
      state, count0, count1 := State(0, 0, 0, 0), 0, 0;
    }
  }

  /** The padding block cut to length is what the RFC asks for. */
  lemma PaddingBytes(m: seq<byte>, padLen: nat)
    requires padLen == if |m| % 64 < 56 then 56 - |m| % 64 else 120 - |m| % 64
    ensures m + ([0x80] + Zeros(63))[..padLen] == WithPadding(m)
  {
    PadCount(|m|);
    CutPadding(m, padLen);
  }

  lemma CutPadding(m: seq<byte>, padLen: nat)
    requires 1 <= padLen <= 64
    ensures m + ([0x80] + Zeros(63))[..padLen] == m + [0x80] + Zeros(padLen - 1)
  {
  }

  lemma PadCount(n: nat)
    ensures (55 - n) % 64 == if n % 64 < 56 then 55 - n % 64 else 119 - n % 64
  {
  }

  lemma DigestBytes(s: State)
    ensures EncodeWords([s.a, s.b, s.c, s.d]) == Digest(s)
  {
    EncodeFour(s.a, s.b, s.c, s.d);
  }

  ghost function Concat(chunks: seq<seq<byte>>): seq<byte> {
    if chunks == [] then [] else chunks[0] + Concat(chunks[1..])
  }

  /** Each chunk fits behind the n bytes and the chunks before it. */
  predicate ChunksFit(n: nat, chunks: seq<seq<byte>>)
    decreases chunks
  {
    chunks == [] || (Fits(n % 64, |chunks[0]|) && ChunksFit(n + |chunks[0]|, chunks[1..]))
  }

  lemma ChunkStep(chunks: seq<seq<byte>>, k: nat, m: seq<byte>)
    requires k < |chunks|
    ensures m + Concat(chunks[k..]) == (m + chunks[k]) + Concat(chunks[k + 1..])
    ensures ChunksFit(|m|, chunks[k..]) <==>
              Fits(|m| % 64, |chunks[k]|) && ChunksFit(|m + chunks[k]|, chunks[k + 1..])
  {
    hide Fits;
    assert chunks[k..][1..] == chunks[k + 1..];
  }

  /** However a message is cut into chunks, the digest is the one of the whole message. */
  method DigestOfChunks(transform: Transform, chunks: seq<seq<byte>>) returns (digest: seq<byte>)
    requires ChunksFit(0, chunks)
    ensures digest == Md5Of(transform, Concat(chunks))
  {
    hide Blocks, Tail, Md5Of, Fits;
    var context := new Context(transform);
    ghost var m := [];
    assert m + Concat(chunks[0..]) == Concat(chunks) && chunks[0..] == chunks;
    for k := 0 to |chunks|
      invariant context.Represents(m) && context.transform == transform && fresh(context) && fresh(context.buffer)
      invariant m + Concat(chunks[k..]) == Concat(chunks) && ChunksFit(|m|, chunks[k..])
    {
      hide Concat, ChunksFit;
      ChunkStep(chunks, k, m);
      context.Update(chunks[k], m);
      m := m + chunks[k];
    }
    assert chunks[|chunks|..] == [] && m + [] == m;
    digest := context.Final(m);
  }

  lemma TailFrom(p: seq<byte>, k: nat)
    requires k <= |p| < k + 64 && k % 64 == 0
    ensures Tail(p) == p[k..]
  {
    assert |p| % 64 == |p| - k;
  }
}
