/** The command loop of a TCP connection: internal/rpc/tcp/tcp_server.go. */
module TcpServer {
  import opened Int64
  import opened ByteIO
  import opened Frames
  import opened Automaton
  import opened Chunks
  import opened Pipelining
  import opened BinUtils
  import Hex

  /** How one round of the command loop ends; a stalled one never does. */
  datatype Outcome = Served | Closed | Failed | Stalled

  /** The encoder of encoding/hex handles its input 512 bytes at a time. */
  const HEX_ENCODER_CHUNK: nat := 512

  method HexEncoderWrite(w: Writer, p: seq<byte>)
    requires w.Valid()
    modifies w
    ensures w.Valid() && w.Written() == old(w.Written()) + Hex.Encode(p)
    ensures |old(w.buf)| + 2 * |p| <= WRITER_SIZE ==> w.sink == old(w.sink) && |w.buf| == |old(w.buf)| + 2 * |p|
  {
    hide Hex.Encode, Put, Writer.Written;
    EncodeNone();
    var i := 0;
    while i < |p|
      invariant i <= |p|
      invariant w.Valid() && w.Written() == old(w.Written()) + Hex.Encode(p[..i])
      invariant |old(w.buf)| + 2 * i <= WRITER_SIZE ==> w.sink == old(w.sink) && |w.buf| == |old(w.buf)| + 2 * i
    {
      var n := Min(HEX_ENCODER_CHUNK, |p| - i);
      ghost var was := w.buf;
      w.Write(Hex.Encode(p[i..i + n]));
      PutKeeps(was, Hex.Encode(p[i..i + n]));
      assert p[..i + n] == p[..i] + p[i..i + n];
      Hex.EncodeAppend(p[..i], p[i..i + n]);
      i := i + n;
    }
    assert p[..i] == p;
  }

  /** The reads ns of the hex loop, from a count of left bytes on, have taken and encoded so much. */
  ghost predicate HexTaken(left: int, bs: seq<byte>, ns: seq<nat>) {
    && Taken(ns) <= |bs|
    && (left <= 0 ==> ns == [])
    && (left > 0 ==>
          && Within(HexData(left), bs, ns)
          && After(HexData(left), bs, ns)
          == Fed(if left > Taken(ns) then HexData(left - Taken(ns)) else Head, Hex.Encode(bs[..Taken(ns)])))
  }

  lemma HexTakenNone(left: int, bs: seq<byte>)
    ensures HexTaken(left, bs, [])
  {
    EncodeNone();
  }

  lemma HexTakenMore(left: int, bs: seq<byte>, ns: seq<nat>, n: nat)
    requires HexTaken(left, bs, ns) && left > Taken(ns)
    requires CanRead(HexData(left - Taken(ns)), |bs| - Taken(ns), n)
    ensures HexTaken(left, bs, ns + [n]) && Taken(ns + [n]) == Taken(ns) + n
    ensures bs[..Taken(ns) + n] == bs[..Taken(ns)] + bs[Taken(ns)..][..n]
    ensures Hex.Encode(bs[..Taken(ns) + n]) == Hex.Encode(bs[..Taken(ns)]) + Hex.Encode(bs[Taken(ns)..][..n])
  {
    hide Hex.Encode, Within, After, Reads;
    var k, rest := HexData(left - Taken(ns)), bs[Taken(ns)..];
    OneHexRead(left - Taken(ns), rest, n);
    TakenAppend(ns, [n]);
    ReadsAppend(HexData(left), bs, ns, [n]);
    WithinAppend(HexData(left), bs, ns, [n]);
    assert bs[..Taken(ns) + n] == bs[..Taken(ns)] + rest[..n];
    Hex.EncodeAppend(bs[..Taken(ns)], rest[..n]);
  }

  lemma OneHexRead(left: nat, bs: seq<byte>, n: nat)
    requires CanRead(HexData(left), |bs|, n)
    ensures Within(HexData(left), bs, [n]) && Taken([n]) == n
    ensures After(HexData(left), bs, [n]) == Fed(if left > n then HexData(left - n) else Head, Hex.Encode(bs[..n]))
  {
    var ns, t := [n], Took(HexData(left), bs[..n]);
    assert t == Fed(if left > n then HexData(left - n) else Head, Hex.Encode(bs[..n]));
    hide Hex.Encode, Took, CanRead, Reads;
    assert ns[0] == n && ns[1..] == [];
    assert Within(t.ctrl, bs[n..], []) && After(t.ctrl, bs[n..], []) == Fed(t.ctrl, []);
    assert t.out + [] == t.out;
  }

  /**
   The hex loop. The slice handed to Read starts at min(len, size): below the buffer size it is
   never empty, but it may be longer than what is left of the data, and then the loop takes what
   is queued behind. At or above the buffer size it is empty: Read returns nothing and no error,
   and the source goes round for ever, which is the outcome Stalled here.
   */
  method HexLoop(r: Reader, w: Writer, readHexBuf: array<byte>, size0: int64) returns (res: Outcome, ghost ns: seq<nat>)
    requires w.Valid() && readHexBuf.Length == MAX_HEX_ENCODE_SIZE
    modifies r, w, readHexBuf
    ensures HexTaken(size0, old(r.rem), ns) && r.rem == old(r.rem)[Taken(ns)..]
    ensures w.Valid() && w.Written() == old(w.Written()) + Hex.Encode(old(r.rem)[..Taken(ns)])
    ensures res == if Taken(ns) >= size0 then Served else if size0 >= MAX_HEX_ENCODE_SIZE then Stalled else Failed
    ensures res == Failed ==> Taken(ns) == |old(r.rem)|
    ensures res == Stalled ==> ns == []
    ensures |old(w.buf)| + 2 * Taken(ns) <= WRITER_SIZE ==> w.sink == old(w.sink)
  {
    hide Hex.Encode, Writer.Written, HexTaken;
    EncodeNone();
    ghost var input := r.rem;
    var size: int := size0;
    ns := [];
    HexTakenNone(size0, input);
    while size > 0
      invariant Taken(ns) <= |input| && r.rem == input[Taken(ns)..]
      invariant size == size0 - Taken(ns) && HexTaken(size0, input, ns)
      invariant size0 >= MAX_HEX_ENCODE_SIZE ==> ns == []
      invariant w.Valid() && w.Written() == old(w.Written()) + Hex.Encode(input[..Taken(ns)])
      invariant |old(w.buf)| + 2 * Taken(ns) <= WRITER_SIZE ==>
                  w.sink == old(w.sink) && |w.buf| == |old(w.buf)| + 2 * Taken(ns)
      decreases size
    {
      var from := Min(readHexBuf.Length, size);
      if from == readHexBuf.Length {
        return Stalled, ns;
      }
      var k, eof := r.Read(readHexBuf, from, readHexBuf.Length);
      if eof {
        return Failed, ns;
      }
      var chunk := readHexBuf[from..from + k];
      HexEncoderWrite(w, chunk);
      HexTakenMore(size0, input, ns, k);
      size := size - k;
      ns := ns + [k];
    }
    res := Served;
  }

  /** The Add command: two operands in, their wrapping sum out. */
  method ServeAdd(r: Reader, w: Writer, aux: array<byte>) returns (ok: bool, ghost n: nat)
    requires w.Valid() && aux.Length == 8
    modifies r, w, aux
    ensures n <= |old(r.rem)| && r.rem == old(r.rem)[n..]
    ensures w.Valid() && var fed := Feed(AddArgs([]), old(r.rem)[..n]);
      && w.Written() == old(w.Written()) + fed.out
      && (if ok then fed.ctrl == Head else fed.ctrl.AddArgs? && n == |old(r.rem)|)
    ensures Unfinished(AddArgs([]), old(r.rem)[..n])
  {
    hide Feed, Dec, Enc, Add, Writer.Written;
    ghost var input := r.rem;
    var a, b;
    n := Min(|r.rem|, 16);
    FeedAddArgs(input[..n]);
    UnfinishedShort(AddArgs([]), input[..n]);
    a, ok := ReadInt64(r, aux);
    if ok {
      b, ok := ReadInt64(r, aux);
      if ok {
        WriteInt64(w, aux, Add(a, b));
        assert input[..16][..8] == input[..8] && input[..16][8..] == input[8..][..8];
        assert input[8..][8..] == input[16..];
      }
    }
    assert w.Written() + [] == w.Written();
  }

  /** The MultTree command, as the automaton sees it. */
  method ServeMultTree(r: Reader, w: Writer, aux: array<byte>) returns (ok: bool, ghost n: nat)
    requires w.Valid() && aux.Length == 8
    modifies r, w, aux
    ensures n <= |old(r.rem)| && r.rem == old(r.rem)[n..]
    ensures w.Valid() && var fed := Feed(MultArgs([]), old(r.rem)[..n]);
      && w.Written() == old(w.Written()) + fed.out
      && (if ok then fed.ctrl == Head else fed.ctrl != Head && !fed.ctrl.HexData? && n == |old(r.rem)|)
    ensures Unfinished(MultArgs([]), old(r.rem)[..n])
  {
    hide Feed, StreamProducts, Writer.Written;
    ok := DoMultTreeRequest(r, w, aux);
    n := StreamIsFeed(old(r.rem));
  }

  /** The streaming server on any input is the automaton on the part of it that is read. */
  lemma StreamIsFeed(input: seq<byte>) returns (n: nat)
    ensures n <= |input| && StreamProducts(input).rest == input[n..]
    ensures var fed := Feed(MultArgs([]), input[..n]);
      && fed.out == StreamProducts(input).out
      && (if StreamProducts(input).ok then fed.ctrl == Head
          else fed.ctrl != Head && !fed.ctrl.HexData? && n == |input|)
    ensures Unfinished(MultArgs([]), input[..n])
  {
    hide Feed, Dec, Enc, Ints, Bytes, Mul, MulAll, Unfinished;
    UnfinishedShort(MultArgs([]), input[..Min(|input|, 16)]);
    if |input| < 16 {
      n := |input|;
      assert input[..n] == input;
      FeedMultArgs(input);
      return;
    }
    FeedMultArgs(input[..16]);
    var m, count, body := Dec(input[..8]), Dec(input[8..16]), input[16..];
    assert input[..16][..8] == input[..8] && input[..16][8..] == input[8..16];
    var vs := Ints(body);
    if count <= 0 {
      n := 16;
      StreamStart(vs, m);
    } else {
      var k := Handled(count, vs);
      FeedMultValues(m, count, body, k);
      if k == count {
        n := 16 + 8 * k;
        assert input[..n] == input[..16] + body[..8 * k];
        FeedAppend(MultArgs([]), input[..16], body[..8 * k]);
        UnfinishedTwo(MultArgs([]), input[..16], body[..8 * k]);
      } else {
        n := |input|;
        IntsAt(body, k);
        var tail := body[8 * k..];
        FeedMultValue(m, count - k, tail);
        assert input[..n] == input[..16] + (body[..8 * k] + tail);
        FeedAppend(MultValue(m, count, []), body[..8 * k], tail);
        FeedAppend(MultArgs([]), input[..16], body[..8 * k] + tail);
        UnfinishedTwo(MultArgs([]), input[..16], body[..8 * k] + tail);
      }
    }
  }

  /** The ToHex command on any input and chunking. */
  method ServeToHex(r: Reader, w: Writer, aux: array<byte>, readHexBuf: array<byte>)
    returns (res: Outcome, ghost ns: seq<nat>)
    requires w.Valid() && aux.Length == 8 && readHexBuf.Length == MAX_HEX_ENCODE_SIZE && aux != readHexBuf
    modifies r, w, aux, readHexBuf
    ensures Part(HexSize([]), old(r.rem), ns, res) && r.rem == old(r.rem)[Taken(ns)..]
    ensures w.Valid() && w.Written() == old(w.Written()) + After(HexSize([]), old(r.rem), ns).out
  {
    hide Feed, Dec, Hex.Encode, Writer.Written, Unfinished, Within, Reads, After, HexTaken, Part;
    ghost var input := r.rem;
    ghost var n := Min(|r.rem|, 8);
    var size, ok := ReadInt64(r, aux);
    ns := Ones(n);
    FeedHexSize(input[..n]);
    UnfinishedShort(HexSize([]), input[..n]);
    UnfinishedWithin(HexSize([]), input, n);
    assert w.Written() + [] == w.Written();
    if !ok {
      res := Failed;
      assert input[..n] == input;
      PartOfHeader(input);
      return;
    }
    assert input[..8][..8] == input[..8];
    ghost var ms;
    res, ms := HexLoop(r, w, readHexBuf, size);
    PartOfHex(input, size, ms, res);
    ns := ns + ms;
    TakenAppend(Ones(8), ms);
    assert input[8..][Taken(ms)..] == input[Taken(ns)..];
  }

  /** What reads from inside a command amount to, and how the round ends with them. */
  ghost predicate Part(k: Ctrl, bs: seq<byte>, ns: seq<nat>, res: Outcome)
    ensures Part(k, bs, ns, res) ==> Reads(k, bs, ns) && Taken(ns) <= |bs|
  {
    && Within(k, bs, ns) && Taken(ns) <= |bs|
    && match res
       case Served => After(k, bs, ns).ctrl == Head
       case Closed => false
       case Failed => Taken(ns) == |bs| && After(k, bs, ns).ctrl != Head && !Spins(After(k, bs, ns).ctrl)
       case Stalled => Spins(After(k, bs, ns).ctrl)
  }

  lemma PartOfHeader(input: seq<byte>)
    requires |input| < 8 && Within(HexSize([]), input, Ones(|input|))
    requires After(HexSize([]), input, Ones(|input|)) == Fed(HexSize(input), [])
    ensures Part(HexSize([]), input, Ones(|input|), Failed)
  {
  }

  lemma PartOfData(size: int64, data: seq<byte>, ms: seq<nat>, res: Outcome)
    requires size > 0 && HexTaken(size, data, ms)
    requires res == if Taken(ms) >= size then Served else if size >= MAX_HEX_ENCODE_SIZE then Stalled else Failed
    requires res == Failed ==> Taken(ms) == |data|
    requires res == Stalled ==> ms == []
    ensures Part(HexData(size), data, ms, res)
    ensures After(HexData(size), data, ms).out == Hex.Encode(data[..Taken(ms)])
  {
    hide Hex.Encode, Within, Reads, After;
  }

  /** Reads up to some point inside a command, and then the rest of it. */
  lemma PartAppend(k: Ctrl, bs: seq<byte>, ns: seq<nat>, ms: seq<nat>, res: Outcome)
    requires Within(k, bs, ns) && Taken(ns) <= |bs| && After(k, bs, ns).out == [] && After(k, bs, ns).ctrl != Head
    requires Part(After(k, bs, ns).ctrl, bs[Taken(ns)..], ms, res)
    ensures Part(k, bs, ns + ms, res)
    ensures After(k, bs, ns + ms).out == After(After(k, bs, ns).ctrl, bs[Taken(ns)..], ms).out
  {
    hide Within, Reads, After;
    TakenAppend(ns, ms);
    ReadsAppend(k, bs, ns, ms);
    WithinAppend(k, bs, ns, ms);
    var out := After(After(k, bs, ns).ctrl, bs[Taken(ns)..], ms).out;
    assert [] + out == out;
  }

  /** The header and then the hex loop. */
  lemma PartOfHex(input: seq<byte>, size: int64, ms: seq<nat>, res: Outcome)
    requires |input| >= 8 && HexTaken(size, input[8..], ms) && Within(HexSize([]), input, Ones(8))
    requires After(HexSize([]), input, Ones(8)) == Fed(if size <= 0 then Head else HexData(size), [])
    requires res == if Taken(ms) >= size then Served else if size >= MAX_HEX_ENCODE_SIZE then Stalled else Failed
    requires res == Failed ==> Taken(ms) == |input| - 8
    requires res == Stalled ==> ms == []
    ensures Part(HexSize([]), input, Ones(8) + ms, res)
    ensures After(HexSize([]), input, Ones(8) + ms).out == Hex.Encode(input[8..][..Taken(ms)])
  {
    hide Hex.Encode, Within, After, Reads;
    if size <= 0 {
      EncodeNone();
      assert ms == [] && Ones(8) + ms == Ones(8);
    } else {
      hide HexTaken, Part;
      PartOfData(size, input[8..], ms, res);
      PartAppend(HexSize([]), input, Ones(8), ms, res);
    }
  }

  /**
   One round of the loop: reads of one command, up to its end, the end of input or a spinning hex
   loop, and everything written because of them.
   */
  ghost predicate Round(input: seq<byte>, ns: seq<nat>, out: seq<byte>, res: Outcome) {
    && Stopped(Head, input, ns) && Taken(ns) <= |input| && After(Head, input, ns).out == out
    && res == Ending(ns, After(Head, input, ns).ctrl)
  }

  function Ending(ns: seq<nat>, k: Ctrl): Outcome {
    if ns == [] then Closed else if k == Head then Served else if Spins(k) then Stalled else Failed
  }

  /** Reads from inside a command, behind its command byte. */
  lemma RoundOfPart(input: seq<byte>, k: Ctrl, ns: seq<nat>, res: Outcome)
    requires |input| > 0 && k != Head && Eat(Head, input[0]) == Fed(k, []) && Part(k, input[1..], ns, res)
    ensures Round(input, [1] + ns, After(k, input[1..], ns).out, res)
    ensures Taken([1] + ns) == 1 + Taken(ns)
  {
    hide Eat;
    assert ([1] + ns)[1..] == ns && input[..1][0] == input[0];
    assert [] + After(k, input[1..], ns).out == After(k, input[1..], ns).out;
  }

  /** A command that is read byte by byte. */
  lemma RoundOfCommand(input: seq<byte>, k: Ctrl, n: nat, fed: Fed, ok: bool)
    requires |input| > 0 && n <= |input| - 1 && Partway(k)
    requires Eat(Head, input[0]) == Fed(k, []) && fed == Feed(k, input[1..][..n])
    requires if ok then fed.ctrl == Head else fed.ctrl != Head && !Spins(fed.ctrl) && n == |input| - 1
    requires Unfinished(k, input[1..][..n])
    ensures Round(input, [1] + Ones(n), fed.out, if ok then Served else Failed)
    ensures Taken([1] + Ones(n)) == n + 1
  {
    hide Eat, Feed, Within, After, Unfinished;
    UnfinishedWithin(k, input[1..], n);
    RoundOfPart(input, k, Ones(n), if ok then Served else Failed);
  }

  /** Nop answers at once, and a command byte the switch does not know is skipped. */
  lemma OneByteRound(input: seq<byte>)
    requires |input| > 0 && input[0] !in {CMD_ADD, CMD_MULT_TREE, CMD_TO_HEX}
    ensures Round(input, [1], if input[0] == CMD_NOP then [CMD_NOP] else [], Served)
    ensures Taken([1]) == 1
  {
    assert [1][1..] == [] && input[..1][0] == input[0];
  }

  lemma ClosedRound(input: seq<byte>)
    requires input == []
    ensures Round(input, [], [], Closed)
  {
  }

  lemma RoundEnds(input: seq<byte>, ns: seq<nat>, out: seq<byte>, res: Outcome)
    requires Round(input, ns, out, res)
    ensures Reads(Head, input, ns) && Taken(ns) <= |input| && After(Head, input, ns).out == out
    ensures res.Served? ==> Taken(ns) > 0 && After(Head, input, ns).ctrl == Head
    ensures res.Closed? ==> ns == [] && input == [] && After(Head, input, ns).ctrl == Head
    ensures res.Failed? ==> Taken(ns) == |input| && After(Head, input, ns).ctrl != Head
    ensures res.Failed? ==> !Spins(After(Head, input, ns).ctrl)
    ensures res.Stalled? ==> Spins(After(Head, input, ns).ctrl)
  {
  }

  /** The switch of the command loop, after the command byte of `input` has been read. */
  method Dispatch(cmd: byte, r: Reader, w: Writer, aux: array<byte>, readHexBuf: array<byte>, ghost input: seq<byte>)
    returns (res: Outcome, ghost ns: seq<nat>)
    requires w.Valid() && aux.Length == 8 && readHexBuf.Length == MAX_HEX_ENCODE_SIZE && aux != readHexBuf
    requires |input| > 0 && cmd == input[0] && r.rem == input[1..]
    modifies r, w, aux, readHexBuf
    ensures w.Valid() && Reads(Head, input, ns) && Taken(ns) <= |input| && r.rem == input[Taken(ns)..]
    ensures var out := After(Head, input, ns).out; w.Written() == old(w.Written()) + out && Round(input, ns, out, res)
    ensures res != Closed
  {
    hide Feed, Eat, Writer.Written, Round, Unfinished, Part, Reads, After, Within, Put;
    CommandByte(cmd);
    ghost var out, used := [], 1;
    res, ns := Served, [1];
    if cmd == CMD_NOP {
      w.Write([CMD_NOP]);
      OneByteRound(input);
      out := [CMD_NOP];
    } else if cmd == CMD_ADD {
      var ok;
      ghost var n;
      ok, n := ServeAdd(r, w, aux);
      RoundOfCommand(input, AddArgs([]), n, Feed(AddArgs([]), input[1..][..n]), ok);
      out, used := Feed(AddArgs([]), input[1..][..n]).out, n + 1;
      res, ns := if ok then Served else Failed, [1] + Ones(n);
    } else if cmd == CMD_MULT_TREE {
      var ok;
      ghost var n;
      ok, n := ServeMultTree(r, w, aux);
      RoundOfCommand(input, MultArgs([]), n, Feed(MultArgs([]), input[1..][..n]), ok);
      out, used := Feed(MultArgs([]), input[1..][..n]).out, n + 1;
      res, ns := if ok then Served else Failed, [1] + Ones(n);
    } else if cmd == CMD_TO_HEX {
      ghost var ms;
      res, ms := ServeToHex(r, w, aux, readHexBuf);
      RoundOfPart(input, HexSize([]), ms, res);
      out, used := After(HexSize([]), input[1..], ms).out, Taken(ms) + 1;
      ns := [1] + ms;
    } else {
      OneByteRound(input);
      assert w.Written() + [] == w.Written();
    }
    assert input[1..][used - 1..] == input[used..];
    RoundEnds(input, ns, out, res);
  }

  /** One round of the command loop of runConn: read a command, answer it, flush. */
  method ServeCommand(r: Reader, w: Writer, aux: array<byte>, readHexBuf: array<byte>)
    returns (res: Outcome, ghost ns: seq<nat>)
    requires w.Valid() && aux.Length == 8 && readHexBuf.Length == MAX_HEX_ENCODE_SIZE && aux != readHexBuf
    modifies r, w, aux, readHexBuf
    ensures w.Valid() && Reads(Head, old(r.rem), ns)
    ensures Taken(ns) <= |old(r.rem)| && r.rem == old(r.rem)[Taken(ns)..]
    ensures var out := After(Head, old(r.rem), ns).out;
      w.Written() == old(w.Written()) + out && Round(old(r.rem), ns, out, res)
    ensures res.Served? ==> w.buf == []
    ensures res.Closed? ==> w.buf == old(w.buf)
  {
    hide Reads, After, Writer.Written, Round;
    ghost var input := r.rem;
    var cmd, eof := r.ReadByte();
    if eof {
      res, ns := Closed, [];
      ClosedRound(input);
      RoundEnds(input, [], [], Closed);
      assert w.Written() + [] == w.Written();
      return;
    }
    res, ns := Dispatch(cmd, r, w, aux, readHexBuf, input);
    if res == Served {
      w.Flush();
    }
  }

  /**
   A round on exactly the frame of a call serves it, uses all of it and writes its reply, however
   it arrives; but on a ToHex call whose input is too long for the hex buffer it never ends.
   */
  lemma RoundOfFrame(c: Call, ns: seq<nat>, out: seq<byte>, res: Outcome)
    requires ValidCall(c) && Round(Request(c), ns, out, res)
    ensures !OversizeHex(c) ==> res == Served && Taken(ns) == |Request(c)| && out == Reply(c)
    ensures OversizeHex(c) ==> res == Stalled && Taken(ns) == 9 && out == []
  {
    hide Request, Reply, After, Within, Reads;
    FrameOutcome(c, ns);
  }

  /**
   runConn on any input, until the client closes: it reads in some chunks, everything written is
   what the automaton writes on these, and the connection ends without error exactly when the input
   ends between two commands. AnswersDependOnChunksIff says when the chunks matter.
   */
  method RunConn(r: Reader, w: Writer) returns (res: Outcome, ghost ns: seq<nat>)
    requires w.Valid() && w.buf == []
    modifies r, w
    ensures w.Valid() && Ended(Head, old(r.rem), ns)
    ensures w.Written() == old(w.Written()) + After(Head, old(r.rem), ns).out
    ensures res == var k := After(Head, old(r.rem), ns).ctrl;
      if k == Head then Closed else if Spins(k) then Stalled else Failed
    ensures res == Closed ==> w.buf == []
  {
    hide Reads, After, Round, Writer.Written;
    var aux := new byte[8];
    var readHexBuf := new byte[MAX_HEX_ENCODE_SIZE];
    ghost var input := r.rem;
    ns := [];
    ReadsNothing(Head, input);
    assert w.Written() + [] == w.Written();
    while true
      invariant w.Valid() && w.buf == []
      invariant Reads(Head, input, ns) && Taken(ns) <= |input| && r.rem == input[Taken(ns)..]
      invariant After(Head, input, ns).ctrl == Head
      invariant w.Written() == old(w.Written()) + After(Head, input, ns).out
      decreases |r.rem|
    {
      ghost var rest, ms := r.rem, [];
      res, ms := ServeCommand(r, w, aux, readHexBuf);
      RoundEnds(rest, ms, After(Head, rest, ms).out, res);
      ReadsAppend(Head, input, ns, ms);
      TakenAppend(ns, ms);
      assert rest[Taken(ms)..] == input[Taken(ns + ms)..];
      ns := ns + ms;
      if res != Served {
        return;
      }
    }
  }

  lemma ReadsNothing(k: Ctrl, bs: seq<byte>)
    ensures Reads(k, bs, []) && After(k, bs, []) == Fed(k, [])
  {
  }
}
