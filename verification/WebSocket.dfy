/**
 The binary WebSocket loop: internal/rpc/websocket/ws_server.go. The same commands as over
 TCP, but each request is one message, and what a command leaves of its message is dropped.
 */
module WebSocket {
  import opened Int64
  import opened ByteIO
  import opened Frames
  import opened Automaton
  import opened Chunks
  import opened Pipelining
  import opened BinUtils
  import opened TcpServer
  import Hex

  /** hex.Encode into the front of dst. */
  method HexEncodeInto(dst: array<byte>, src: seq<byte>)
    requires 2 * |src| <= dst.Length
    modifies dst
    ensures dst[..2 * |src|] == Hex.Encode(src)
  {
    EncodeNone();
    for i := 0 to |src|
      invariant dst[..2 * i] == Hex.Encode(src[..i])
    {
      dst[2 * i], dst[2 * i + 1] := Hex.Digit(src[i] / 16), Hex.Digit(src[i] % 16);
      assert src[..i + 1] == src[..i] + [src[i]];
      Hex.EncodeAppend(src[..i], [src[i]]);
      assert Hex.Encode([src[i]]) == [Hex.Digit(src[i] / 16), Hex.Digit(src[i] % 16)] + Hex.Encode([]);
    }
    assert src[..|src|] == src;
  }

  /** The second hex loop, through writeHexBuf; every access to it stays in bounds. */
  method HexLoop(r: Reader, w: Writer, readHexBuf: array<byte>, writeHexBuf: array<byte>, size0: int64)
    returns (res: Outcome, ghost ns: seq<nat>)
    requires w.Valid() && readHexBuf != writeHexBuf
    requires readHexBuf.Length == MAX_HEX_ENCODE_SIZE && writeHexBuf.Length == 2 * readHexBuf.Length
    modifies r, w, readHexBuf, writeHexBuf
    ensures HexTaken(size0, old(r.rem), ns) && r.rem == old(r.rem)[Taken(ns)..]
    ensures w.Valid() && w.Written() == old(w.Written()) + Hex.Encode(old(r.rem)[..Taken(ns)])
    ensures res == if Taken(ns) >= size0 then Served else if size0 >= MAX_HEX_ENCODE_SIZE then Stalled else Failed
    ensures res == Failed ==> Taken(ns) == |old(r.rem)|
    ensures res == Stalled ==> ns == []
  {
    hide Hex.Encode, Put, Writer.Written, HexTaken;
    EncodeNone();
    ghost var input := r.rem;
    var size: int := size0;
    ns := [];
    HexTakenNone(size0, input);
    while size > 0
      invariant Taken(ns) <= |input| && r.rem == input[Taken(ns)..]
      invariant size == size0 - Taken(ns) && HexTaken(size0, input, ns)
      invariant size0 >= MAX_HEX_ENCODE_SIZE ==> ns == []
      invariant w.Valid() && w.Written() == old(w.Written()) + Hex.Encode(input[..Taken(ns)])
      decreases size
    {
      var from := Min(readHexBuf.Length, size);
      if from == readHexBuf.Length {
        return Stalled, ns;
      }
      var k, eof := r.Read(readHexBuf, from, readHexBuf.Length);
      if eof {
        return Failed, ns;
      }
      var chunk := readHexBuf[from..from + k];
      HexEncodeInto(writeHexBuf, chunk);
      w.Write(writeHexBuf[..2 * k]);
      HexTakenMore(size0, input, ns, k);
      size := size - k;
      ns := ns + [k];
    }
    res := Served;
  }

  method ServeToHex(r: Reader, w: Writer, aux: array<byte>, readHexBuf: array<byte>, writeHexBuf: array<byte>)
    returns (res: Outcome, ghost ns: seq<nat>)
    requires w.Valid() && aux.Length == 8 && aux != readHexBuf && aux != writeHexBuf && readHexBuf != writeHexBuf
    requires readHexBuf.Length == MAX_HEX_ENCODE_SIZE && writeHexBuf.Length == 2 * readHexBuf.Length
    modifies r, w, aux, readHexBuf, writeHexBuf
    ensures Part(HexSize([]), old(r.rem), ns, res) && r.rem == old(r.rem)[Taken(ns)..]
    ensures w.Valid() && w.Written() == old(w.Written()) + After(HexSize([]), old(r.rem), ns).out
  {
    hide Feed, Dec, Hex.Encode, Writer.Written, Unfinished, Within, Reads, After, HexTaken, Part;
    ghost var input := r.rem;
    ghost var n := Min(|r.rem|, 8);
    var size, ok := ReadInt64(r, aux);
    ns := Ones(n);
    FeedHexSize(input[..n]);
    UnfinishedShort(HexSize([]), input[..n]);
    UnfinishedWithin(HexSize([]), input, n);
    assert w.Written() + [] == w.Written();
    if !ok {
      res := Failed;
      assert input[..n] == input;
      PartOfHeader(input);
      return;
    }
    assert input[..8][..8] == input[..8];
    ghost var ms;
    res, ms := HexLoop(r, w, readHexBuf, writeHexBuf, size);
    PartOfHex(input, size, ms, res);
    ns := ns + ms;
    TakenAppend(Ones(8), ms);
    assert input[8..][Taken(ms)..] == input[Taken(ns)..];
  }

  /**
   One round of runBinaryConn: a message in, a message out. An empty message is an error, and a
   command that fails or stalls sends no message, whatever it has written.
   */
  method ServeMessage(msg: seq<byte>, aux: array<byte>, readHexBuf: array<byte>, writeHexBuf: array<byte>)
    returns (reply: seq<byte>, res: Outcome, ghost ns: seq<nat>, ghost out: seq<byte>)
    requires aux.Length == 8 && aux != readHexBuf && aux != writeHexBuf && readHexBuf != writeHexBuf
    requires readHexBuf.Length == MAX_HEX_ENCODE_SIZE && writeHexBuf.Length == 2 * readHexBuf.Length
    modifies aux, readHexBuf, writeHexBuf
    ensures Round(msg, ns, out, res)
    ensures reply == if res == Served then out else []
  {
    hide Feed, Eat, Writer.Written, Round, Unfinished, Part, Reads, After, Within, Put;
    var r := new Reader(msg);
    var w := new Writer();
    assert w.Written() == [] by { WrittenBySink(w); }
    var cmd, eof := r.ReadByte();
    if eof {
      reply, res, ns, out := [], Closed, [], [];
      ClosedRound(msg);
      return;
    }
    CommandByte(cmd);
    res, ns, out := Served, [1], [];
    if cmd == CMD_NOP {
      w.Write([CMD_NOP]);
      OneByteRound(msg);
      out := [CMD_NOP];
    } else if cmd == CMD_ADD {
      var ok;
      ghost var n;
      ok, n := ServeAdd(r, w, aux);
      RoundOfCommand(msg, AddArgs([]), n, Feed(AddArgs([]), msg[1..][..n]), ok);
      res, ns, out := if ok then Served else Failed, [1] + Ones(n), Feed(AddArgs([]), msg[1..][..n]).out;
    } else if cmd == CMD_MULT_TREE {
      var ok;
      ghost var n;
      ok, n := ServeMultTree(r, w, aux);
      RoundOfCommand(msg, MultArgs([]), n, Feed(MultArgs([]), msg[1..][..n]), ok);
      res, ns, out := if ok then Served else Failed, [1] + Ones(n), Feed(MultArgs([]), msg[1..][..n]).out;
    } else if cmd == CMD_TO_HEX {
      ghost var ms;
      res, ms := ServeToHex(r, w, aux, readHexBuf, writeHexBuf);
      RoundOfPart(msg, HexSize([]), ms, res);
      ns, out := [1] + ms, After(HexSize([]), msg[1..], ms).out;
    } else {
      OneByteRound(msg);
    }
    assert [] + out == out && w.Written() == out;
    if res != Served {
      reply := [];
      return;
    }
    w.Flush();
    reply := w.sink;
    assert reply == out by { WrittenBySink(w); }
  }

  lemma WrittenBySink(w: Writer)
    ensures w.buf == [] ==> w.Written() == w.sink
  {
    assert w.sink + [] == w.sink;
  }

  /**
   TCP and WebSocket agree on a command, well formed or not, whatever the chunks are in which each
   receives it: they use the same bytes, end the round the same way, and if it is served they
   give the same reply. Here ns, out and res are the one's round, ns', out' and res' the other's.
   */
  lemma ServersAgree(
    input: seq<byte>, ns: seq<nat>, out: seq<byte>, res: Outcome, ns': seq<nat>, out': seq<byte>, res': Outcome)
    requires TidyCommand(Head, input) && Round(input, ns, out, res) && Round(input, ns', out', res')
    ensures res == res' && Taken(ns) == Taken(ns') && (res == Served ==> out == out')
  {
    hide Reads, After, Within;
    CommandOutcome(Head, input, ns, ns');
    NoneTaken(input, ns);
    NoneTaken(input, ns');
  }

  lemma NoneTaken(input: seq<byte>, ns: seq<nat>)
    requires Reads(Head, input, ns)
    ensures ns == [] <==> Taken(ns) == 0
  {
  }

  /** On any other input two rounds can serve the command with different replies. */
  lemma ServersDisagree(input: seq<byte>)
    returns (ns: seq<nat>, out: seq<byte>, ns': seq<nat>, out': seq<byte>)
    requires !TidyCommand(Head, input)
    ensures Round(input, ns, out, Served) && Round(input, ns', out', Served) && out != out'
  {
    hide Reads, After, Within;
    ns, ns' := UntidyCommand(Head, input);
    out, out' := After(Head, input, ns).out, After(Head, input, ns').out;
    ReadsTaken(Head, input, ns);
    ReadsTaken(Head, input, ns');
  }

  /** On the frame of a call both give its reply. */
  lemma ServersReply(c: Call, ns: seq<nat>, out: seq<byte>, res: Outcome)
    requires ValidCall(c) && !OversizeHex(c) && Round(Request(c), ns, out, res)
    ensures res == Served && Taken(ns) == |Request(c)| && out == Reply(c)
  {
    RoundOfFrame(c, ns, out, res);
  }
}
