/**
 The byte streams the protocol code runs over: a reader that returns what happens to be
 there, and bufio.Writer. Both are short models of Go's library types.
 */
module ByteIO {
  import opened Int64

  const MAX_HEX_ENCODE_SIZE: nat := 128 * 1024

  /** Capacity of either side's bufio.Writer, and of each side's bufio.Reader. */
  const WRITER_SIZE: nat := 2 * MAX_HEX_ENCODE_SIZE
  const SERVER_READER_SIZE: nat := MAX_HEX_ENCODE_SIZE
  const CLIENT_READER_SIZE: nat := 2 * MAX_HEX_ENCODE_SIZE

  function Min(a: int, b: int): int { if a < b then a else b }

  datatype Buffered = Buffered(wbuf: seq<byte>, through: seq<byte>)

  /**
   bufio.Writer.Write: p is kept if it fits; otherwise the buffer is topped up and flushed, and
   what is left of p is kept, or goes straight through when it is larger than the buffer.
   */
  function Put(wbuf: seq<byte>, p: seq<byte>): Buffered {
    if |wbuf| + |p| <= WRITER_SIZE then Buffered(wbuf + p, [])
    else
      var room := if wbuf == [] || |wbuf| > WRITER_SIZE then 0 else WRITER_SIZE - |wbuf|;
      var rest := p[room..];
      if |rest| <= WRITER_SIZE then Buffered(rest, wbuf + p[..room]) else Buffered([], wbuf + p)
  }

  /** bufio.Writer neither loses nor reorders bytes. */
  lemma PutKeeps(wbuf: seq<byte>, p: seq<byte>)
    requires |wbuf| <= WRITER_SIZE
    ensures Put(wbuf, p).through + Put(wbuf, p).wbuf == wbuf + p
    ensures |Put(wbuf, p).wbuf| <= WRITER_SIZE
    ensures |wbuf| + |p| <= WRITER_SIZE ==> Put(wbuf, p).through == []
    ensures |wbuf| + |p| > WRITER_SIZE && 0 < |wbuf| && |p| <= WRITER_SIZE ==> |Put(wbuf, p).through| == WRITER_SIZE
  {
  }

  /** One round of the loop in bufio.Writer.Write. */
  lemma PutRound(wbuf: seq<byte>, p: seq<byte>, n: nat)
    requires |wbuf| + |p| > WRITER_SIZE && 0 < |wbuf| && n == WRITER_SIZE - |wbuf|
    ensures Put(wbuf, p).wbuf == Put([], p[n..]).wbuf
    ensures Put(wbuf, p).through == (wbuf + p[..n]) + Put([], p[n..]).through
  {
    assert p[n..][0..] == p[n..];
    assert wbuf + p == (wbuf + p[..n]) + p[n..];
    assert [] + p[n..] == p[n..];
  }

  lemma PutRest(wbuf: seq<byte>, p: seq<byte>)
    ensures |wbuf| + |p| <= WRITER_SIZE ==> Put(wbuf, p) == Buffered(wbuf + p, [])
    ensures wbuf == [] && |p| > WRITER_SIZE ==> Put(wbuf, p) == Buffered([], p)
  {
    assert [] + p == p;
    assert p[0..] == p;
  }

  /** A stream of bytes read in chunks of any size; the end of `rem` is the end of input. */
  class Reader {
    var rem: seq<byte>

    constructor (input: seq<byte>)
      ensures rem == input
    {
      rem := input;
    }

    /**
     Fill some non-empty front of buf[from..to], as much as this call happens to get.
     Reading into an empty slice reads nothing and is no error.
     */
    method Read(buf: array<byte>, from: nat, to: nat) returns (n: nat, eof: bool)
      requires from <= to <= buf.Length
      modifies this, buf
      ensures eof <==> from < to && old(rem) == []
      ensures n == 0 <==> from == to || old(rem) == []
      ensures from + n <= to && n <= |old(rem)| && rem == old(rem)[n..]
      ensures buf[..from] == old(buf[..from]) && buf[from..from + n] == old(rem)[..n]
    {
      if from == to || rem == [] {
        n, eof := 0, from < to;
        return;
      }
      eof := false;
      var k: nat :| 1 <= k <= to - from && k <= |rem|;
      for i := 0 to k
        invariant rem == old(rem)
        invariant buf[..from] == old(buf[..from]) && buf[from..from + i] == rem[..i]
      {
        buf[from + i] := rem[i];
      }
      n := k;
      rem := rem[k..];
    }

    method ReadByte() returns (b: byte, eof: bool)
      modifies this
      ensures eof <==> old(rem) == []
      ensures !eof ==> b == old(rem)[0] && rem == old(rem)[1..]
      ensures eof ==> rem == []
    {
      if rem == [] {
        b, eof := 0, true;
      } else {
        b, eof := rem[0], false;
        rem := rem[1..];
      }
    }
  }

  /** io.ReadFull: fill buf, however the bytes arrive; on a short stream everything is used up. */
  method ReadFull(r: Reader, buf: array<byte>) returns (ok: bool)
    modifies r, buf
    ensures ok <==> |old(r.rem)| >= buf.Length
    ensures ok ==> buf[..] == old(r.rem)[..buf.Length] && r.rem == old(r.rem)[buf.Length..]
    ensures !ok ==> r.rem == []
  {
    var n := 0;
    while n < buf.Length
      invariant n <= buf.Length && n <= |old(r.rem)|
      invariant buf[..n] == old(r.rem)[..n] && r.rem == old(r.rem)[n..]
    {
      var k, eof := r.Read(buf, n, buf.Length);
      if eof {
        return false;
      }
      assert buf[..n + k] == buf[..n] + buf[n..n + k];
      n := n + k;
    }
    assert buf[..] == buf[..n];
    return true;
  }

  /** bufio.Writer over a sink that accepts everything. */
  class Writer {
    var buf: seq<byte>
    var sink: seq<byte>

    ghost predicate Valid()
      reads this
    {
      |buf| <= WRITER_SIZE
    }

    /** Everything written so far, flushed or not. */
    ghost function Written(): seq<byte>
      reads this
    {
      sink + buf
    }

    constructor ()
      ensures Valid() && buf == [] && sink == []
    {
      buf, sink := [], [];
    }

    method Flush()
      requires Valid()
      modifies this
      ensures Valid() && buf == [] && sink == old(Written()) && Written() == old(Written())
    {
      sink, buf := sink + buf, [];
    }

    /** Writes through only when p exceeds the free space. */
    method Write(p: seq<byte>)
      requires Valid()
      modifies this
      ensures Valid()
      ensures buf == Put(old(buf), p).wbuf
      ensures sink == old(sink) + Put(old(buf), p).through
      ensures Written() == old(Written()) + p
    {
      hide Put;
      var rest := p;
      ghost var put := Put(buf, p);
      while |rest| > WRITER_SIZE - |buf|
        invariant Valid() && |rest| <= |p|
        invariant Put(buf, rest).wbuf == put.wbuf
        invariant sink + Put(buf, rest).through == old(sink) + put.through
        decreases |rest|, |buf|
      {
        if buf == [] {
          PutRest(buf, rest);
          PutRest([], []);
          sink, rest := sink + rest, [];
        } else {
          var n := WRITER_SIZE - |buf|;
          PutRound(buf, rest, n);
          assert sink + ((buf + rest[..n]) + Put([], rest[n..]).through)
              == (sink + (buf + rest[..n])) + Put([], rest[n..]).through;
          buf := buf + rest[..n];
          Flush();
          rest := rest[n..];
        }
      }
      PutRest(buf, rest);
      buf := buf + rest;
      PutKeeps(old(buf), p);
      assert (old(sink) + put.through) + put.wbuf == old(sink) + (put.through + put.wbuf);
      assert old(sink) + (old(buf) + p) == (old(sink) + old(buf)) + p;
    }
  }
}
