/** The buffered writer over a sink that may take less than it is offered
    (src/observer/net/buffered_writer.cpp). */
module BufferedWriter {
  import opened RingBuffer

  /** How the operating system answers one write call: it takes up to n bytes (possibly none), asks to
      try again (EAGAIN, EINTR), or fails. */
  datatype Response = Accept(n: nat) | TryAgain | Fail

  /** The file descriptor: what has arrived, and the answers still to come. When they are used up the
      descriptor fails, so every script stands for one finite run. */
  class Sink {
    var received: seq<Byte>
    var script: seq<Response>

    constructor (script: seq<Response>)
      ensures this.script == script && received == []
    {
      this.script, received := script, [];
    }

    /** `::write`: the number of bytes taken, or -1 with `retry` telling the two errors apart. */
    method Write(chunk: seq<Byte>) returns (n: int, retry: bool)
      modifies this
      ensures n == (if old(script) != [] && old(script)[0].Accept? then Min(old(script)[0].n, |chunk|) else -1)
      ensures retry == (old(script) != [] && old(script)[0].TryAgain?)
      ensures received == old(received) + if n > 0 then chunk[..n] else []
      ensures script == if old(script) == [] then [] else old(script)[1..]
    {
      if script == [] { return -1, false; }
      var r := script[0];
      script := script[1..];
      match r
      case Accept(k) =>
        n, retry := Min(k, |chunk|), false;
        received := received + chunk[..n];
      case TryAgain => n, retry := -1, true;
      case Fail => n, retry := -1, false;
    }
  }

  // ---------------------------------------------------------------- what a script is good for

  /** Without the answers that only lead to another call. */
  function Skip(script: seq<Response>): (r: seq<Response>)
    ensures |r| <= |script|
    ensures r != [] ==> r[0].Fail? || (r[0].Accept? && r[0].n > 0)
  {
    if script == [] then []
    else if script[0].TryAgain? || script[0] == Accept(0) then Skip(script[1..])
    else script
  }

  /** Following the calls: run bytes are offered first and rest bytes after them, until want are gone. */
  function Enough(script: seq<Response>, run: nat, rest: nat, want: int): bool
    decreases |script|
  {
    if want <= 0 || run == 0 then true
    else if script == [] then false
    else
      match script[0]
      case Fail => false
      case TryAgain => Enough(script[1..], run, rest, want)
      case Accept(k) =>
        if k < run then Enough(script[1..], run - k, rest, want - k) else Enough(script[1..], rest, 0, want - run)
  }

  lemma {:induction false} EnoughSkips(script: seq<Response>, run: nat, rest: nat, want: int)
    ensures Enough(script, run, rest, want) == Enough(Skip(script), run, rest, want)
  {
    if script != [] && (script[0].TryAgain? || script[0] == Accept(0)) { EnoughSkips(script[1..], run, rest, want); }
  }

  /** The answers up to the first failure. */
  function Willing(script: seq<Response>): seq<Response> {
    if script == [] || script[0].Fail? then [] else [script[0]] + Willing(script[1..])
  }

  /** How many bytes the answers would take at most. */
  function Total(script: seq<Response>): nat {
    if script == [] then 0 else (if script[0].Accept? then script[0].n else 0) + Total(script[1..])
  }

  function Asked(run: nat, rest: nat, want: int): int {
    Min(want, run + rest)
  }

  /** The answers before k take the first run, and the others what is asked beyond it. */
  ghost predicate SplitAt(p: seq<Response>, run: nat, more: int, k: int) {
    0 <= k <= |p| && Total(p[..k]) >= run && Total(p[k..]) >= more
  }

  ghost predicate CanSplit(p: seq<Response>, run: nat, more: int) {
    exists k :: SplitAt(p, run, more, k)
  }

  /** The script suffices exactly when the answers before the first failure take what is asked: together,
      if that lies in the first run, and otherwise some of them the first run and the later ones the
      rest, because no call offers bytes from both. */
  lemma {:induction false} EnoughIff(script: seq<Response>, run: nat, rest: nat, want: int)
    requires run == 0 ==> rest == 0
    ensures var p, asked := Willing(script), Asked(run, rest, want);
            Enough(script, run, rest, want) <==>
              if asked <= run then Total(p) >= asked else CanSplit(p, run, asked - run)
    decreases |script|
  {
    var p, asked := Willing(script), Asked(run, rest, want);
    if want <= 0 || run == 0 {
    } else if script == [] || script[0].Fail? {
      assert p == [];
      assert forall k | 0 <= k <= |p| :: p[..k] == [];
    } else {
      var r, t := script[0], Willing(script[1..]);
      var k := if r.Accept? then r.n else 0;
      assert p[0] == r && p[1..] == t;
      if k < run {
        EnoughIff(script[1..], run - k, rest, want - k);
        SplitShift(r, t, run, asked - run);
      } else {
        EnoughIff(script[1..], rest, 0, want - run);
        SplitNow(r, t, run, asked - run);
      }
    }
  }

  /** One answer does not complete the first run: the split point lies behind it. */
  lemma SplitShift(r: Response, t: seq<Response>, run: nat, more: int)
    requires !r.Fail? && var k := if r.Accept? then r.n else 0; k < run
    ensures var k := if r.Accept? then r.n else 0;
            CanSplit([r] + t, run, more) <==> CanSplit(t, run - k, more)
  {
    var p, k := [r] + t, if r.Accept? then r.n else 0;
    var left := run - k;
    if i :| SplitAt(p, run, more, i) {
      assert i > 0 && p[..i][1..] == t[..i - 1] && p[i..] == t[i - 1..];
      assert SplitAt(t, left, more, i - 1);
    }
    if i :| SplitAt(t, left, more, i) {
      assert p[..i + 1] == [r] + t[..i] && p[..i + 1][1..] == t[..i] && p[i + 1..] == t[i..];
      assert SplitAt(p, run, more, i + 1);
    }
  }

  /** One answer completes the first run: the others are there for the rest. */
  lemma SplitNow(r: Response, t: seq<Response>, run: nat, more: int)
    requires r.Accept? && r.n >= run > 0
    ensures CanSplit([r] + t, run, more) <==> Total(t) >= more
  {
    var p := [r] + t;
    if i :| SplitAt(p, run, more, i) {
      assert p[..0] == [] && i > 0;
      assert p[i..] == t[i - 1..];
      TotalOfTail(t, i - 1);
    }
    if Total(t) >= more {
      assert p[..1] == [r] && [r][1..] == [] && p[1..] == t;
      assert SplitAt(p, run, more, 1);
    }
  }

  lemma {:induction false} TotalOfTail(p: seq<Response>, k: nat)
    requires k <= |p|
    ensures Total(p[k..]) <= Total(p)
  {
    if k > 0 {
      TotalOfTail(p[1..], k - 1);
      assert p[1..][k - 1..] == p[k..];
    } else {
      assert p[0..] == p;
    }
  }

  ghost predicate NoFail(script: seq<Response>) {
    forall i | 0 <= i < |script| :: !script[i].Fail?
  }

  /** The answers that take at least one byte. */
  function Positives(script: seq<Response>): nat {
    if script == [] then 0 else (if script[0].Accept? && script[0].n > 0 then 1 else 0) + Positives(script[1..])
  }

  /** As many as there are, if that holds of all of them. */
  lemma {:induction false} PositivesMeans(script: seq<Response>)
    requires forall i | 0 <= i < |script| :: script[i].Accept? && script[i].n >= 1
    ensures Positives(script) == |script| <= Total(script)
  {
    if script != [] { PositivesMeans(script[1..]); }
  }

  /** What has become of a script while `moved` bytes went out: the answers used up are at its front, each
      took what it could; a failure is the last of them, or they were all there were. */
  ghost predicate Used(before: seq<Response>, after: seq<Response>, failed: bool, moved: int) {
    |after| <= |before| &&
    var n := |before| - |after|;
    && after == before[n..]
    && (if !failed then NoFail(before[..n])
        else (after == [] && NoFail(before)) || (n > 0 && before[n - 1].Fail? && NoFail(before[..n - 1])))
    && Positives(before[..n]) <= moved <= Total(before[..n])
  }

  lemma UsedNothing(s: seq<Response>)
    ensures Used(s, s, false, 0)
  {
    assert s[..0] == [] && s[0..] == s;
  }

  lemma {:induction false} CountsConcat(a: seq<Response>, b: seq<Response>)
    ensures Positives(a + b) == Positives(a) + Positives(b) && Total(a + b) == Total(a) + Total(b)
  {
    if a == [] {
      assert a + b == b;
    } else {
      assert (a + b)[1..] == a[1..] + b;
      CountsConcat(a[1..], b);
    }
  }

  /** One after the other. */
  lemma UsedThen(a: seq<Response>, b: seq<Response>, c: seq<Response>, failed: bool, m: int, n: int)
    requires Used(a, b, false, m) && Used(b, c, failed, n)
    ensures Used(a, c, failed, m + n)
  {
    hide Positives, Total;
    var i, j := |a| - |b|, |b| - |c|;
    assert a[..i + j] == a[..i] + b[..j] && a[i + j..] == c;
    CountsConcat(a[..i], b[..j]);
    assert forall k | 0 <= k < |b| :: a[i + k] == b[k];
  }

  /** The answer at the front is used up. */
  lemma UsedOne(s: seq<Response>, moved: int)
    requires s != []
    requires match s[0] case Accept(k) => (k > 0 ==> 1 <= moved <= k) && (k == 0 ==> moved == 0) case _ => moved == 0
    ensures Used(s, s[1..], s[0].Fail?, moved)
  {
    assert s[..1] == [s[0]] && [s[0]][1..] == [] && s[..0] == [];
  }

  lemma {:induction false} UsedSkip(s: seq<Response>)
    ensures Used(s, Skip(s), false, 0)
  {
    if s != [] && (s[0].TryAgain? || s[0] == Accept(0)) {
      UsedOne(s, 0);
      UsedSkip(s[1..]);
      UsedThen(s, s[1..], Skip(s), false, 0, 0);
    } else {
      UsedNothing(s);
    }
  }

  /** What follows the skipped answers is used up as well, or there is nothing. */
  lemma UsedNext(s: seq<Response>, moved: int)
    requires var t := Skip(s);
             if t != [] && t[0].Accept? then 1 <= moved <= t[0].n else moved == 0
    ensures var t := Skip(s);
            Used(s, if t == [] then [] else t[1..], t == [] || t[0].Fail?, moved)
  {
    var t := Skip(s);
    UsedSkip(s);
    if t == [] {
      assert Used([], [], true, 0);
      UsedThen(s, [], [], true, 0, 0);
    } else {
      UsedOne(t, moved);
      UsedThen(s, t, t[1..], t[0].Fail?, 0, moved);
    }
  }

  lemma Regroup(a: seq<Byte>, c: seq<Byte>, n: nat)
    requires n <= |c|
    ensures (a + c[..n]) + c[n..] == a + c
  {
  }

  class Writer {
    var isOpen: bool
    const ring: Ring
    const sink: Sink

    ghost predicate Valid()
      reads this, ring
    {
      ring.Valid()
    }

    /** Everything accepted so far: what is at the sink, then what is pending. */
    ghost function Stream(): seq<Byte>
      requires Valid()
      reads this, ring, ring.buffer, sink
    {
      sink.received + ring.Contents()
    }

    constructor (sink: Sink, size: nat)
      ensures Valid() && isOpen && this.sink == sink && Stream() == sink.received
      ensures fresh(ring) && fresh(ring.buffer) && ring.Capacity() == size
    {
      this.sink := sink;
      ring := new Ring(size);
      isOpen := true;
    }

    /** The queued bytes up to the end of the buffer, and the others. */
    ghost predicate Suffices(want: int)
      requires Valid()
      reads this, ring, sink
    {
      Enough(sink.script, ring.FirstRun(), ring.Size() - ring.FirstRun(), want)
    }

    /** The inner loop of `flush_internal`: repeats the call until it takes something or fails. */
    method WriteSome(chunk: seq<Byte>) returns (n: int)
      requires |chunk| > 0
      modifies sink
      ensures var s := Skip(old(sink.script));
              && n == (if s != [] && s[0].Accept? then Min(s[0].n, |chunk|) else -1)
              && sink.script == if s == [] then [] else s[1..]
      ensures sink.received == old(sink.received) + if n > 0 then chunk[..n] else []
    {
      n := 0;
      while n == 0
        invariant n == 0 ==> Skip(sink.script) == Skip(old(sink.script)) && sink.received == old(sink.received)
        invariant n != 0 ==>
                    var s := Skip(old(sink.script));
                    && n == (if s != [] && s[0].Accept? then Min(s[0].n, |chunk|) else -1)
                    && sink.script == (if s == [] then [] else s[1..])
                    && sink.received == old(sink.received) + if n > 0 then chunk[..n] else []
        decreases |sink.script|, n == 0
      {
        var retry;
        n, retry := sink.Write(chunk);
        if n < 0 {
          if retry { n := 0; } else { return -1; }
        }
      }
    }

    /** `flush_internal`: moves at least the asked number of bytes, or all there are, and succeeds exactly
        when the answers of the descriptor are good for that. */
    method FlushInternal(size: int) returns (rc: RC)
      requires Valid()
      modifies ring`dataSize, sink
      ensures Valid() && Stream() == old(Stream())
      ensures rc == InvalidArgument <==> !isOpen
      ensures rc.Success? <==> isOpen && old(Suffices(size))
      ensures rc.Success? ==> ring.Size() == 0 || ring.Size() <= old(ring.Size()) - size
      ensures (rc.IoErrWrite? ==> ring.Size() > 0) && ring.Size() <= old(ring.Size())
      ensures Used(old(sink.script), sink.script, rc.IoErrWrite?, old(ring.Size()) - ring.Size())
    {
      hide Ring.Contents, Ring.ReadPos, Ring.FirstRun, Window, Used, Enough, Skip, Suffices;
      UsedNothing(sink.script);
      if !isOpen { return InvalidArgument; }
      var writeSize := 0;
      while ring.Size() > 0 && size > writeSize
        invariant Valid() && Stream() == old(Stream())
        invariant ring.Size() == old(ring.Size()) - writeSize && writeSize >= 0
        invariant Suffices(size - writeSize) == old(Suffices(size))
        invariant Used(old(sink.script), sink.script, false, writeSize)
        decreases ring.Size()
      {
        ghost var s := sink.script;
        var n := WriteRound(size - writeSize);
        UsedThen(old(sink.script), s, sink.script, n < 0, writeSize, if n < 0 then 0 else n);
        if n < 0 { return IoErrWrite; }
        writeSize := writeSize + n;
      }
      NothingWanted(size - writeSize);
      rc := Success;
    }

    lemma NothingWanted(want: int)
      requires Valid() && (want <= 0 || ring.Size() == 0)
      ensures Suffices(want)
    {
      EnoughDone(sink.script, ring.FirstRun(), ring.Size() - ring.FirstRun(), want);
    }

    /** One turn of the loop: offers the first run and drops what was taken of it. */
    method WriteRound(ghost want: int) returns (n: int)
      requires Valid() && ring.Size() > 0 && want > 0
      modifies ring`dataSize, sink
      ensures Valid() && Stream() == old(Stream())
      ensures n != 0 && ring.Size() == old(ring.Size()) - if n < 0 then 0 else n
      ensures old(Suffices(want)) == (n > 0 && Suffices(want - n))
      ensures Used(old(sink.script), sink.script, n < 0, if n < 0 then 0 else n)
    {
      hide Ring.Contents, Ring.ReadPos, Ring.FirstRun, Window, Used, Enough, Skip;
      var start, readSize := ring.Peek();
      ghost var before, c, s := sink.received, ring.Contents(), sink.script;
      assert |c| == ring.Size();
      EnoughNext(s, readSize, ring.Size() - readSize, want);
      SkipDecides(s);
      n := WriteSome(ring.buffer[start..start + readSize]);
      UsedNext(s, if n < 0 then 0 else n);
      if n < 0 { return; }
      assert ring.buffer[start..start + readSize][..n] == c[..n];
      var _ := ring.Forward(n);
      Regroup(before, c, n);
    }

    /** `write`: flushes first when the buffer is full, and only then; takes everything or fills the
        buffer, and what it takes is appended to the stream. */
    method Write(data: seq<Byte>, size: int) returns (rc: RC, writeSize: int)
      requires Valid() && size <= |data|
      modifies ring, ring.buffer, sink
      ensures Valid() && 0 <= writeSize <= |data| && (size >= 0 ==> writeSize <= size)
      ensures Stream() == old(Stream()) + data[..writeSize]
      ensures rc.IoErrWrite? <==> isOpen && old(ring.Remain()) == 0 && !old(Suffices(size))
      ensures rc.InvalidArgument? <==> !isOpen || (size < 0 && !rc.IoErrWrite?)
      ensures if rc.Success? then writeSize == size || (writeSize < size && ring.Remain() == 0) else writeSize == 0
      ensures rc.Success? && size > 0 ==> (writeSize > 0 <==> ring.Capacity() > 0)
      ensures old(ring.Remain()) > 0 ==> sink.received == old(sink.received) && sink.script == old(sink.script)
      ensures Used(old(sink.script), sink.script, rc.IoErrWrite?, |sink.received| - |old(sink.received)|)
      ensures rc.IoErrWrite? ==> ring.Size() > 0
    {
      hide Ring.Contents, Ring.ReadPos, Ring.FirstRun, Window, Used, Suffices;
      UsedNothing(sink.script);
      if !isOpen { return InvalidArgument, 0; }
      if ring.Remain() == 0 {
        rc := FlushInternal(size);
        if !rc.Success? { return rc, 0; }
      }
      ghost var c := ring.Contents();
      rc, writeSize := ring.Write(data, size);
      assert sink.received + (c + data[..writeSize]) == (sink.received + c) + data[..writeSize];
    }

    /** `writen`: all of the data, or a prefix of it when the sink fails; and the sink is good enough if
        none of its answers is a failure and there is one that takes something for each byte. An open
        writer without capacity takes nothing in any round, so asked for anything it would never end. */
    method WriteN(data: seq<Byte>, size: int) returns (rc: RC, ghost taken: nat)
      requires Valid() && size <= |data| && (isOpen && size > 0 ==> ring.Capacity() > 0)
      modifies ring, ring.buffer, sink
      ensures Valid() && taken <= |data| && Stream() == old(Stream()) + data[..taken]
      ensures rc.Success? ==> taken == if size < 0 then 0 else size
      ensures rc.IoErrWrite? ==> taken < size
      ensures rc == InvalidArgument <==> !isOpen
      ensures Used(old(sink.script), sink.script, rc.IoErrWrite?, |sink.received| - |old(sink.received)|)
      ensures isOpen && NoFail(old(sink.script)) && Positives(old(sink.script)) >= old(ring.Size()) + size
              ==> rc.Success?
    {
      hide Ring.Contents, Ring.ReadPos, Ring.FirstRun, Window, Used, Suffices, Positives, NoFail;
      UsedNothing(sink.script);
      taken := 0;
      if !isOpen { return InvalidArgument, 0; }
      var writeSize := 0;
      while writeSize < size
        invariant Valid() && 0 <= writeSize && (size >= 0 ==> writeSize <= size) && (size < 0 ==> writeSize == 0)
        invariant Stream() == old(Stream()) + data[..writeSize]
        invariant Used(old(sink.script), sink.script, false, |sink.received| - |old(sink.received)|)
      {
        var tmp;
        ghost var rest := data[writeSize..];
        ghost var s, sent := sink.script, |sink.received|;
        rc, tmp := Write(data[writeSize..], size - writeSize);
        UsedThen(old(sink.script), s, sink.script, rc.IoErrWrite?, sent - |old(sink.received)|, |sink.received| - sent);
        assert data[..writeSize + tmp] == data[..writeSize] + rest[..tmp];
        writeSize := writeSize + tmp;
        if !rc.Success? {
          FailsShort(old(sink.script), sink.script, |sink.received| - |old(sink.received)|);
          assert |Stream()| == old(|Stream()|) + writeSize;
          return rc, writeSize;
        }
      }
      return Success, writeSize;
    }

    /** `flush`: afterwards nothing is pending and everything has arrived, unless the sink fails; it
        succeeds exactly when the answers of the descriptor are good for all that is pending. */
    method Flush() returns (rc: RC)
      requires Valid()
      modifies ring`dataSize, sink
      ensures Valid() && Stream() == old(Stream())
      ensures rc.Success? ==> ring.Contents() == [] && sink.received == old(Stream())
      ensures rc == InvalidArgument <==> !isOpen
      ensures rc.Success? <==> isOpen && old(Suffices(ring.Size()))
      ensures Used(old(sink.script), sink.script, rc.IoErrWrite?, old(ring.Size()) - ring.Size())
    {
      hide Used, Enough, Suffices;
      UsedNothing(sink.script);
      if !isOpen { return InvalidArgument; }
      rc := Success;
      if ring.Size() == 0 { NothingWanted(0); }
      while rc.Success? && ring.Size() > 0
        invariant Valid() && Stream() == old(Stream()) && rc != InvalidArgument
        invariant rc.Success? && ring.Size() > 0 ==>
                    ring.Size() == old(ring.Size()) && Suffices(ring.Size()) == old(Suffices(ring.Size()))
        invariant rc.Success? && ring.Size() == 0 ==> old(Suffices(ring.Size()))
        invariant !rc.Success? ==> !old(Suffices(ring.Size()))
        invariant Used(old(sink.script), sink.script, rc.IoErrWrite?, old(ring.Size()) - ring.Size())
        decreases ring.Size(), rc.Success?
      {
        ghost var s, n := sink.script, ring.Size();
        rc := FlushInternal(ring.Size());
        UsedThen(old(sink.script), s, sink.script, rc.IoErrWrite?, old(ring.Size()) - n, n - ring.Size());
      }
    }

    /** `clean`: discards what is pending and nothing else. */
    method Clean() returns (rc: RC)
      requires Valid()
      modifies ring`dataSize
      ensures Valid() && rc.Success? && ring.Contents() == [] && Stream() == sink.received
    {
      rc := ring.Forward(ring.Size());
    }

    /** `close`: closes exactly after a successful flush; closing twice is harmless. */
    method Close() returns (rc: RC)
      requires Valid()
      modifies this`isOpen, ring`dataSize, sink
      ensures Valid() && Stream() == old(Stream())
      ensures rc.Success? <==> !old(isOpen) || old(Suffices(ring.Size()))
      ensures rc.Success? ==> !isOpen && (old(isOpen) ==> ring.Contents() == [])
      ensures !rc.Success? ==> isOpen == old(isOpen)
      ensures !old(isOpen) ==> sink.script == old(sink.script) && ring.Size() == old(ring.Size())
    {
      if !isOpen { return Success; }
      rc := Flush();
      if !rc.Success? { return; }
      isOpen := false;
    }
  }

  lemma SkipDecides(script: seq<Response>)
    ensures var s := Skip(script); s != [] ==> s[0].Fail? || (s[0].Accept? && s[0].n > 0)
  {
  }

  lemma EnoughDone(script: seq<Response>, run: nat, rest: nat, want: int)
    ensures want <= 0 || run == 0 ==> Enough(script, run, rest, want)
  {
  }

  /** One turn of the loop. */
  lemma EnoughNext(script: seq<Response>, run: nat, rest: nat, want: int)
    requires want > 0 && run > 0
    ensures var s := Skip(script);
            Enough(script, run, rest, want) <==>
              && s != [] && s[0].Accept?
              && var n := Min(s[0].n, run);
                 if n < run then Enough(s[1..], run - n, rest, want - n) else Enough(s[1..], rest, 0, want - n)
  {
    EnoughSkips(script, run, rest, want);
  }

  /** A script without failures that runs out has been good for one byte per answer that takes one. */
  lemma FailsShort(before: seq<Response>, after: seq<Response>, moved: int)
    requires Used(before, after, true, moved)
    ensures NoFail(before) ==> moved >= Positives(before)
  {
    var n := |before| - |after|;
    if NoFail(before) {
      assert after == [] && before[..n] == before;
    }
  }
}
