/** MD5 streaming (deps/common/math/md5.cpp), for an arbitrary compression function. */
module Md5 {

  type byte = x: int | 0 <= x < 0x100

  type word = x: int | 0 <= x < 0x1_0000_0000

  const TWO_32 := 0x1_0000_0000

  const TWO_64 := 0x1_0000_0000_0000_0000

  datatype State = State(a: word, b: word, c: word, d: word)

  const Initial := State(0x67452301, 0xefcdab89, 0x98badcfe, 0x10325476)

  /** What `MD5Transform` does to the state for one 64-byte block. */
  type Transform = (State, seq<byte>) -> State

  // ---------------------------------------------------------------- the reference: RFC 1321

  /** The state after all whole blocks of a message; a partial last block is not looked at. */
  function Blocks(f: Transform, s: State, m: seq<byte>): State
    decreases |m|
  {
    if |m| < 64 then s else Blocks(f, f(s, m[..64]), m[64..])
  }

  /** Low-order byte first. */
  function LittleEndian(n: nat, len: nat): (r: seq<byte>)
    ensures |r| == len
  {
    if len == 0 then [] else [n % 0x100] + LittleEndian(n / 0x100, len - 1)
  }

  function Zeros(n: nat): seq<byte> {
    seq(n, i => 0)
  }

  /** Section 3.1: a one bit, then zero bits up to 448 modulo 512 bits. */
  function WithPadding(m: seq<byte>): (r: seq<byte>)
    ensures |r| % 64 == 56
  {
    m + [0x80] + Zeros((55 - |m|) % 64)
  }

  function LengthBytes(n: nat): (r: seq<byte>)
    ensures |r| == 8
  {
    LittleEndian(8 * n % TWO_64, 8)
  }

  /** Section 3.2: the low 64 bits of the length in bits come last. */
  function Padded(m: seq<byte>): seq<byte> {
    WithPadding(m) + LengthBytes(|m|)
  }

  /** Section 3.5: the four state words, each low-order byte first. */
  function Digest(s: State): seq<byte> {
    LittleEndian(s.a, 4) + LittleEndian(s.b, 4) + LittleEndian(s.c, 4) + LittleEndian(s.d, 4)
  }

  function Md5Of(f: Transform, m: seq<byte>): seq<byte> {
    Digest(Blocks(f, Initial, Padded(m)))
  }

  // ---------------------------------------------------------------- the reference, byte by byte

  lemma ZerosAreZero(n: nat)
    ensures |Zeros(n)| == n && forall i | 0 <= i < n :: Zeros(n)[i] == 0
  {
  }

  /** Section 3.3 gives the initial words by their bytes, low-order first; that is also how section 3.5
      writes a digest. */
  lemma InitialBytes()
    ensures EncodeWords([Initial.a, Initial.b, Initial.c, Initial.d])
            == [0x01, 0x23, 0x45, 0x67, 0x89, 0xab, 0xcd, 0xef, 0xfe, 0xdc, 0xba, 0x98, 0x76, 0x54, 0x32, 0x10]
            == Digest(Initial)
  {
    hide LittleEndian;
    WordOf([0x01, 0x23, 0x45, 0x67]);
    WordOf([0x89, 0xab, 0xcd, 0xef]);
    WordOf([0xfe, 0xdc, 0xba, 0x98]);
    WordOf([0x76, 0x54, 0x32, 0x10]);
    EncodeFour(Initial.a, Initial.b, Initial.c, Initial.d);
  }

  lemma WordOf(m: seq<byte>)
    requires |m| == 4
    ensures LittleEndian(WordAt(m, 0), 4) == m
  {
    BytesOfWord(m, 0);
    assert m[0..4] == m;
  }

  lemma EncodeFour(a: word, b: word, c: word, d: word)
    ensures EncodeWords([a, b, c, d])
            == LittleEndian(a, 4) + LittleEndian(b, 4) + LittleEndian(c, 4) + LittleEndian(d, 4)
  {
    hide LittleEndian;
    assert EncodeWords([d]) == LittleEndian(d, 4) + EncodeWords([]) == LittleEndian(d, 4);
    assert [c, d][1..] == [d];
    assert EncodeWords([c, d]) == LittleEndian(c, 4) + EncodeWords([d]);
    assert [b, c, d][1..] == [c, d];
    assert EncodeWords([b, c, d]) == LittleEndian(b, 4) + EncodeWords([c, d]);
    assert [a, b, c, d][1..] == [b, c, d];
  }

  /** Section 3.1: the message, a one bit and zeros, by the fewest bytes up to 56 modulo 64. Section 3.2:
      then eight bytes with the length in bits, low-order byte first. */
  lemma PaddingIsFewest(m: seq<byte>)
    ensures var w := WithPadding(m);
            && |w| % 64 == 56 && |m| < |w| <= |m| + 64
            && w[..|m|] == m && w[|m|] == 0x80 && forall i | |m| < i < |w| :: w[i] == 0
    ensures Padded(m)[..|WithPadding(m)|] == WithPadding(m) && |Padded(m)| == |WithPadding(m)| + 8
    ensures WordAt(Padded(m), |WithPadding(m)|) == 8 * |m| % TWO_32
    ensures WordAt(Padded(m), |WithPadding(m)| + 4) == 8 * |m| / TWO_32 % TWO_32
  {
    var w := WithPadding(m);
    ZerosAreZero((55 - |m|) % 64);
    var lo, hi := 8 * |m| % TWO_32, 8 * |m| / TWO_32 % TWO_32;
    TwoWords(8 * |m|);
    CountBytes(lo, hi);
    EncodedWordAt([lo, hi], 0);
    EncodedWordAt([lo, hi], 1);
    WordsBehind(w, LengthBytes(|m|));
  }

  lemma TwoWords(n: nat)
    ensures n % TWO_32 + TWO_32 * (n / TWO_32 % TWO_32) == n % TWO_64
  {
    var q := n / TWO_32;
    assert n == n % TWO_32 + TWO_32 * (q % TWO_32) + TWO_64 * (q / TWO_32);
  }

  lemma WordsBehind(w: seq<byte>, bytes: seq<byte>)
    requires |bytes| == 8
    ensures WordAt(w + bytes, |w|) == WordAt(bytes, 0) && WordAt(w + bytes, |w| + 4) == WordAt(bytes, 4)
  {
  }

  lemma {:induction false} BlocksConcat(f: Transform, s: State, m: seq<byte>, rest: seq<byte>)
    requires |m| % 64 == 0
    ensures Blocks(f, s, m + rest) == Blocks(f, Blocks(f, s, m), rest)
    decreases |m|
  {
    if m == [] {
      assert m + rest == rest;
    } else {
      assert (m + rest)[..64] == m[..64] && (m + rest)[64..] == m[64..] + rest;
      BlocksConcat(f, f(s, m[..64]), m[64..], rest);
    }
  }

  /** The part of a message that does not fill a block. */
  function Tail(m: seq<byte>): seq<byte> {
    m[|m| - |m| % 64..]
  }

  lemma TailLength(m: seq<byte>)
    ensures |Tail(m)| == |m| % 64
  {
  }

  lemma BlocksStep(f: Transform, s: State, m: seq<byte>)
    requires |m| >= 64
    ensures Blocks(f, s, m) == Blocks(f, f(s, m[..64]), m[64..])
  {
  }

  lemma BlocksNone(f: Transform, s: State, m: seq<byte>)
    requires |m| < 64
    ensures Blocks(f, s, m) == s
  {
  }

  /** Appending to a message continues from its state with its tail. */
  lemma BlocksAppend(f: Transform, m: seq<byte>, more: seq<byte>)
    ensures Blocks(f, Initial, m + more) == Blocks(f, Blocks(f, Initial, m), Tail(m) + more)
    ensures Tail(m + more) == Tail(Tail(m) + more)
  {
    var head, tail := m[..|m| - |m| % 64], Tail(m);
    assert m == head + tail && |head| % 64 == 0;
    assert m + more == head + (tail + more);
    BlocksConcat(f, Initial, head, tail);
    BlocksConcat(f, Initial, head, tail + more);
    TailConcat(head, tail + more);
  }

  lemma TailConcat(head: seq<byte>, rest: seq<byte>)
    requires |head| % 64 == 0
    ensures Tail(head + rest) == Tail(rest)
  {
    assert (|head| + |rest|) % 64 == |rest| % 64;
    var r := |rest| % 64;
    assert (head + rest)[|head| + |rest| - r..] == rest[|rest| - r..];
  }

  // ---------------------------------------------------------------- words

  /** `Encode`, word by word. */
  method Encode(input: seq<word>) returns (output: seq<byte>)
    ensures output == EncodeWords(input)
  {
    output := [];
    for i := 0 to |input|
      invariant output + EncodeWords(input[i..]) == EncodeWords(input)
    {
      var w := input[i];
      var bytes := [w % 0x100, w / 0x100 % 0x100, w / 0x1_0000 % 0x100, w / 0x100_0000 % 0x100];
      assert bytes == LittleEndian(w, 4) by { WordBytes(w); }
      assert input[i..][1..] == input[i + 1..];
      output := output + bytes;
    }
  }

  function EncodeWords(ws: seq<word>): (r: seq<byte>)
    ensures |r| == 4 * |ws|
  {
    if ws == [] then [] else LittleEndian(ws[0], 4) + EncodeWords(ws[1..])
  }

  lemma WordBytes(w: word)
    ensures LittleEndian(w, 4) == [w % 0x100, w / 0x100 % 0x100, w / 0x1_0000 % 0x100, w / 0x100_0000 % 0x100]
  {
    assert w / 0x100 / 0x100 == w / 0x1_0000 && w / 0x1_0000 / 0x100 == w / 0x100_0000;
    assert LittleEndian(w, 4) == [w % 0x100] + LittleEndian(w / 0x100, 3);
    assert LittleEndian(w / 0x100, 3) == [w / 0x100 % 0x100] + LittleEndian(w / 0x1_0000, 2);
    assert LittleEndian(w / 0x1_0000, 2) == [w / 0x1_0000 % 0x100] + LittleEndian(w / 0x100_0000, 1);
  }

  /** `Decode`, four bytes at a time. */
  method Decode(input: seq<byte>) returns (output: seq<word>)
    requires |input| % 4 == 0
    ensures |output| == |input| / 4
    ensures EncodeWords(output) == input
    ensures forall ws: seq<word> | EncodeWords(ws) == input :: output == ws
  {
    hide LittleEndian;
    output := [];
    for i := 0 to |input| / 4
      invariant |output| == i
      invariant forall k | 0 <= k < i :: output[k] == WordAt(input, 4 * k)
      invariant EncodeWords(output) == input[..4 * i]
    {
      var j := 4 * i;
      var b0: int, b1: int, b2: int, b3: int := input[j], input[j + 1], input[j + 2], input[j + 3];
      EncodeAppend(output, WordAt(input, j));
      BytesOfWord(input, j);
      output := output + [b0 + 0x100 * b1 + 0x1_0000 * b2 + 0x100_0000 * b3];
      assert input[..4 * (i + 1)] == input[..j] + input[j..j + 4];
    }
    forall ws: seq<word> | EncodeWords(ws) == input ensures output == ws {
      forall k | 0 <= k < |ws| ensures output[k] == ws[k] { EncodedWordAt(ws, k); }
    }
  }

  function WordAt(m: seq<byte>, j: nat): word
    requires j + 4 <= |m|
  {
    var b0: int, b1: int, b2: int, b3: int := m[j], m[j + 1], m[j + 2], m[j + 3];
    b0 + 0x100 * b1 + 0x1_0000 * b2 + 0x100_0000 * b3
  }

  /** Four bytes are the encoding of the word they make up. */
  lemma BytesOfWord(m: seq<byte>, j: nat)
    requires j + 4 <= |m|
    ensures LittleEndian(WordAt(m, j), 4) == m[j..j + 4]
  {
    hide LittleEndian;
    var b0: int, b1: int, b2: int, b3: int := m[j], m[j + 1], m[j + 2], m[j + 3];
    EndianStep(WordAt(m, j), 4);
    EndianStep(b1 + 0x100 * b2 + 0x1_0000 * b3, 3);
    EndianStep(b2 + 0x100 * b3, 2);
    EndianStep(b3, 1);
    EndianEmpty(0);
    ByteOff(b0, b1 + 0x100 * b2 + 0x1_0000 * b3);
    ByteOff(b1, b2 + 0x100 * b3);
    ByteOff(b2, b3);
  }

  lemma {:induction false} EncodeAppend(ws: seq<word>, w: word)
    ensures EncodeWords(ws + [w]) == EncodeWords(ws) + LittleEndian(w, 4)
  {
    if ws == [] {
      assert [] + [w] == [w] && [w][1..] == [];
    } else {
      assert (ws + [w])[1..] == ws[1..] + [w];
      EncodeAppend(ws[1..], w);
    }
  }

  lemma {:induction false} EncodedWordAt(ws: seq<word>, k: nat)
    requires k < |ws|
    ensures WordAt(EncodeWords(ws), 4 * k) == ws[k]
  {
    var head, rest := LittleEndian(ws[0], 4), EncodeWords(ws[1..]);
    if k == 0 {
      WordBytes(ws[0]);
      WordSum(ws[0]);
      assert (head + rest)[..4] == head;
    } else {
      EncodedWordAt(ws[1..], k - 1);
      WordAtShift(head, rest, 4 * (k - 1));
    }
  }

  lemma WordAtShift(head: seq<byte>, rest: seq<byte>, j: nat)
    requires |head| == 4 && j + 4 <= |rest|
    ensures WordAt(head + rest, 4 + j) == WordAt(rest, j)
  {
  }

  lemma WordSum(w: word)
    ensures w == w % 0x100 + 0x100 * (w / 0x100 % 0x100) + 0x1_0000 * (w / 0x1_0000 % 0x100)
                 + 0x100_0000 * (w / 0x100_0000 % 0x100)
  {
  }

  /** The two count words encode as the 64-bit length they stand for. */
  lemma CountBytes(lo: word, hi: word)
    ensures EncodeWords([lo, hi]) == LittleEndian(lo + TWO_32 * hi, 8)
  {
    SplitEndian(lo, hi, 4);
    assert EncodeWords([lo, hi]) == LittleEndian(lo, 4) + LittleEndian(hi, 4);
  }

  lemma {:induction false} SplitEndian(lo: nat, hi: nat, len: nat)
    requires lo < Pow256(len)
    ensures LittleEndian(lo + Pow256(len) * hi, len + 4) == LittleEndian(lo, len) + LittleEndian(hi, 4)
  {
    EndianEmpty(lo);
    hide LittleEndian;
    if len > 0 {
      var x := Pow256(len - 1) * hi;
      Shift256(Pow256(len - 1), hi);
      ByteOff(lo, x);
      SplitEndian(lo / 0x100, hi, len - 1);
      EndianStep(lo + 0x100 * x, len + 4);
      EndianStep(lo, len);
    }
  }

  lemma EndianEmpty(lo: nat)
    ensures LittleEndian(lo, 0) == []
  {
  }

  lemma EndianStep(n: nat, len: nat)
    requires len > 0
    ensures LittleEndian(n, len) == [n % 0x100] + LittleEndian(n / 0x100, len - 1)
  {
  }

  lemma Shift256(p: nat, hi: nat)
    ensures 0x100 * p * hi == 0x100 * (p * hi)
  {
  }

  lemma ByteOff(lo: nat, x: nat)
    ensures (lo + 0x100 * x) % 0x100 == lo % 0x100 && (lo + 0x100 * x) / 0x100 == lo / 0x100 + x
  {
  }

  function Pow256(n: nat): nat {
    if n == 0 then 1 else 0x100 * Pow256(n - 1)
  }
}
