/**
 The TCP client: internal/rpc/tcp/tcp_client.go. Each call is run against the command loop of
 the server, one after the other; TcpSession has the interleavings, and TcpLiveness and TcpBlocking
 decide which calls return. A call that waits for ever has `returned` false here.
 */
module TcpClient {
  import opened Int64
  import opened ByteIO
  import opened Frames
  import opened Chunks
  import opened BinUtils
  import opened TreeNode
  import opened TcpServer
  import Hex
  import T = Trees
  import TcpSession
  import TcpLiveness
  import TcpBlocking

  /** The server's end of the connection, serving what the client has flushed. */
  class Peer {
    const cfg: TcpSession.Config
    const input: Reader
    const output: Writer
    const aux: array<byte>
    const readHexBuf: array<byte>
    ghost var served: seq<Call>         // the calls that came in over the connection, in order

    ghost predicate Idle()
      reads input, output
    {
      && TcpSession.ValidConfig(cfg)
      && aux.Length == 8 && readHexBuf.Length == MAX_HEX_ENCODE_SIZE && aux != readHexBuf
      && input.rem == [] && output.buf == [] && output.sink == []
    }

    constructor (cfg: TcpSession.Config)
      requires TcpSession.ValidConfig(cfg)
      ensures Idle() && this.cfg == cfg && served == []
      ensures fresh(input) && fresh(output) && fresh(aux) && fresh(readHexBuf)
    {
      this.cfg, served := cfg, [];
      input := new Reader([]);
      output := new Writer();
      aux := new byte[8];
      readHexBuf := new byte[MAX_HEX_ENCODE_SIZE];
    }

    /**
     Deliver one request, serve it and deliver the reply. A call that fits does return and one that
     cannot fit does not; between the two it depends on how much the server's reader reads ahead.
     */
    method Exchange(requests: Writer, replies: Reader, ghost c: Call) returns (returned: bool)
      requires Idle() && requests != output && replies != input && ValidCall(c)
      requires requests.buf == [] && requests.sink == Request(c)
      modifies this, requests, replies, input, output, aux, readHexBuf
      ensures served == old(served) + [c]
      ensures TcpLiveness.Fits(cfg, c) ==> returned
      ensures !TcpBlocking.MayFit(cfg, c) ==> !returned
      ensures returned ==> Idle() && requests.buf == [] && requests.sink == []
      ensures returned ==> replies.rem == old(replies.rem) + Reply(c)
    {
      hide Request, Reply, Round, Reads, After;
      served := served + [c];
      FitsByLength(cfg, c, 0);
      FitsByLength(cfg, c, TcpBlocking.LargestFill(cfg) - 1);
      returned := RequestFits(cfg, requests.sink, 0);
      if !returned && RequestFits(cfg, requests.sink, TcpBlocking.LargestFill(cfg) - 1) {
        returned := *;
      }
      if !returned {
        return;
      }
      input.rem, requests.sink := requests.sink, [];
      assert output.Written() == [];
      var res;
      ghost var ns;
      res, ns := ServeCommand(input, output, aux, readHexBuf);
      RoundOfFrame(c, ns, After(Head, Request(c), ns).out, res);
      assert [] + Reply(c) == Reply(c);
      assert output.sink + [] == output.sink;
      replies.rem, output.sink := replies.rem + output.sink, [];
    }
  }

  /** Whether the call with this request fits, seen from the length of the request. */
  predicate RequestFits(cfg: TcpSession.Config, request: seq<byte>, ahead: nat)
    requires request != []
  {
    && (request[0] == CMD_MULT_TREE ==> |request| - 17 <= TcpLiveness.Overrun(cfg) + 8 + cfg.toServerCap + ahead)
    && (request[0] == CMD_TO_HEX ==> |request| - 9 < MAX_HEX_ENCODE_SIZE)
  }

  lemma FitsByLength(cfg: TcpSession.Config, c: Call, ahead: nat)
    ensures RequestFits(cfg, Request(c), ahead) <==> TcpLiveness.FitsAhead(cfg, c, ahead)
  {
    RequestLength(c);
  }

  class TcpClient {
    const aux: array<byte>
    const reader: Reader
    const writer: Writer
    const tree: TreeNodeImpl

    /** Between calls: nothing buffered, nothing unread, and no stale nodes behind the tree's slices. */
    ghost predicate Idle()
      reads reader, writer, tree, tree.repr
    {
      && aux.Length == 8
      && reader.rem == [] && writer.buf == [] && writer.sink == []
      && tree.Valid() && Collapsed(tree.tree)
    }

    ghost predicate ConnectedTo(p: Peer)
    {
      writer != p.output && reader != p.input && aux != p.aux && aux != p.readHexBuf
    }

    constructor ()
      ensures Idle() && fresh(reader) && fresh(writer) && fresh(aux) && fresh(tree.repr)
    {
      aux := new byte[8];
      reader := new Reader([]);
      writer := new Writer();
      tree := new TreeNodeImpl();
    }

    method Nop(p: Peer) returns (ok: bool)
      requires Idle() && p.Idle() && ConnectedTo(p)
      modifies reader, writer, p, p.input, p.output, p.aux, p.readHexBuf
      ensures ok && Idle() && p.Idle() && p.served == old(p.served) + [Call.Nop]
    {
      writer.Write([CMD_NOP]);
      writer.Flush();
      var returned := p.Exchange(writer, reader, Call.Nop);
      var b, eof := reader.ReadByte();
      ok := !eof;
    }

    method Add(p: Peer, a: int64, b: int64) returns (v: int64, ok: bool)
      requires Idle() && p.Idle() && ConnectedTo(p)
      modifies aux, reader, writer, p, p.input, p.output, p.aux, p.readHexBuf
      ensures ok && (v - (a + b)) % TWO64 == 0 && v == Int64.Add(a, b)
      ensures Idle() && p.Idle() && p.served == old(p.served) + [AddInts(a, b)]
    {
      hide Enc, Dec, Int64.Add, Request, LittleEndian;
      SendAdd(a, b);
      var returned := p.Exchange(writer, reader, AddInts(a, b));
      assert [] + Reply(AddInts(a, b)) == Reply(AddInts(a, b));
      DecEnc(Int64.Add(a, b));
      assert reader.rem == Enc(Int64.Add(a, b)) && reader.rem[..8] == reader.rem;
      v, ok := ReadInt64(reader, aux);
    }

    method SendAdd(a: int64, b: int64)
      requires aux.Length == 8 && writer.buf == [] && writer.sink == []
      modifies aux, writer
      ensures writer.buf == [] && writer.sink == Request(AddInts(a, b))
    {
      hide Enc, Put, Writer.Written, Appends;
      assert writer.Written() == [] by { WrittenNothing(writer); }
      writer.Write([CMD_ADD]);
      WriteInt64(writer, aux, a);
      WriteInt64(writer, aux, b);
      assert writer.Written() == Request(AddInts(a, b));
      writer.Flush();
    }

    /**
     MultTreeValues: whatever earlier calls left in the client's tree, the result is a tree
     that shows the source with every value multiplied, and again nothing stale is kept.
     */
    method MultTreeValues(p: Peer, mult: int64, src: TreeNodeImpl) returns (returned: bool, ok: bool)
      requires Idle() && p.Idle() && ConnectedTo(p)
      requires src.Valid() && src.repr !! tree.repr && T.Total(src.tree) < TWO63
      modifies aux, reader, writer, tree.repr, p, p.input, p.output, p.aux, p.readHexBuf
      ensures |p.served| == |old(p.served)| + 1 && p.served[..|old(p.served)|] == old(p.served)
      ensures var c := p.served[|p.served| - 1]; c.MultTree? && c.mult == mult && T.View(c.tree) == T.View(src.tree)
      ensures TcpLiveness.Fits(p.cfg, MultTree(mult, src.tree)) ==> returned
      ensures !TcpBlocking.MayFit(p.cfg, MultTree(mult, src.tree)) ==> !returned
      ensures returned ==> ok && Idle() && p.Idle()
      ensures returned ==> T.View(tree.tree) == T.View(T.Mult(src.tree, mult))
      ensures returned ==> T.Multiplied(tree.tree, src.tree, mult)
      ensures fresh(tree.repr - old(tree.repr))
    {
      hide Request, Reply, Ints, Copied, Truncated, Collapsed, Bare;
      hide TreeNodeImpl.Valid, T.ReadInto, T.Mult, T.Multiplied, T.View;
      ghost var was := tree.tree;
      tree.Reset();
      CopyTree(src, tree);
      ghost var t := tree.tree;
      RefillShowsSource(src.tree, was);
      SendMultTree(mult);
      ghost var c := MultTree(mult, t);
      returned := p.Exchange(writer, reader, c);
      if !returned {
        return false, false;
      }
      ReplyReadsBack(mult, t);
      assert [] + Reply(c) == Reply(c);
      ok := ReadMultTreeResponse(reader, aux, tree);
      ResultShowsProducts(src.tree, t, mult);
      T.MultipliedIff(tree.tree, src.tree, mult);
      DrainedByReply(mult, t);
    }

    /** The request half: command byte, frame, flush. */
    method SendMultTree(mult: int64)
      requires aux.Length == 8 && writer.buf == [] && writer.sink == [] && tree.Valid()
      modifies aux, writer
      ensures writer.buf == [] && writer.sink == Request(MultTree(mult, tree.tree))
    {
      hide MultTreeFrame, TreeNodeImpl.Valid;
      writer.Write([CMD_MULT_TREE]);
      WriteMultTreeRequest(writer, aux, mult, tree);
      writer.Flush();
    }

    /** ToHex returns exactly on inputs below the size of the server's hex buffer. */
    method ToHex(p: Peer, input: seq<byte>, out: array<byte>) returns (returned: bool, ok: bool)
      requires Idle() && p.Idle() && ConnectedTo(p)
      requires |input| < TWO63 && out.Length == 2 * |input|
      requires out != p.aux && out != p.readHexBuf && out != aux
      modifies aux, reader, writer, out, p, p.input, p.output, p.aux, p.readHexBuf
      ensures p.served == old(p.served) + [Call.ToHex(input)]
      ensures returned <==> |input| < 131072
      ensures returned ==> ok && out[..] == Hex.Encode(input) && Idle() && p.Idle()
    {
      hide Enc, Hex.Encode, Request;
      SendToHex(input);
      returned := p.Exchange(writer, reader, Call.ToHex(input));
      if !returned {
        return false, false;
      }
      assert [] + Hex.Encode(input) == Hex.Encode(input);
      ok := ReadFull(reader, out);
    }

    method SendToHex(input: seq<byte>)
      requires aux.Length == 8 && writer.buf == [] && writer.sink == [] && |input| < TWO63
      modifies aux, writer
      ensures writer.buf == [] && writer.sink == Request(Call.ToHex(input))
    {
      hide Enc, Put, Writer.Written, Wrap, Appends;
      assert writer.Written() == [] by { WrittenNothing(writer); }
      writer.Write([CMD_TO_HEX]);
      WriteInt64(writer, aux, Wrap(|input|));
      writer.Write(input);
      assert writer.Written() == Request(Call.ToHex(input));
      writer.Flush();
    }
  }

  lemma WrittenNothing(w: Writer)
    requires w.buf == [] && w.sink == []
    ensures w.Written() == []
  {
  }

  /** Reset and copyTree make the client's tree show the source, with nothing stale behind. */
  lemma RefillShowsSource(src: T.Tree, was: T.Tree)
    requires Collapsed(was)
    ensures var t := Copied(src, Truncated(was));
      T.View(t) == T.View(src) && Collapsed(t) && T.Total(t) == T.Total(src)
  {
    hide Copied, Truncated, T.View, T.Total;
    ResetMakesBare(was);
    CopyKeepsCollapsed(src, Truncated(was));
    CopyShowsSource(src, Truncated(was));
    T.ViewEffect(src);
    T.ViewEffect(Copied(src, Truncated(was)));
  }

  /** The reply bytes, read into the request tree, are the multiplied request tree. */
  lemma ReplyReadsBack(mult: int64, t: T.Tree)
    ensures T.ReadInto(t, Ints(Reply(MultTree(mult, t)))) == T.Reading(T.Mult(t, mult), [], true)
  {
    hide T.ReadInto, T.Mult;
    T.MultEffect(t, mult);
    RoundTripIsMult(mult, t, []);
    assert Bytes(T.Values(T.Mult(t, mult))) + [] == Reply(MultTree(mult, t));
  }

  lemma DrainedByReply(mult: int64, t: T.Tree)
    ensures |Reply(MultTree(mult, t))| == 8 * T.Total(t)
    ensures Reply(MultTree(mult, t))[8 * T.Total(t)..] == []
  {
    ReplyLength(MultTree(mult, t));
  }

  lemma ResultShowsProducts(src: T.Tree, t: T.Tree, mult: int64)
    requires T.View(t) == T.View(src) && Collapsed(t)
    ensures T.View(T.Mult(t, mult)) == T.View(T.Mult(src, mult))
    ensures Collapsed(T.Mult(t, mult))
  {
    hide T.Mult, T.View;
    T.ViewOfMult(t, mult);
    T.ViewOfMult(src, mult);
    T.MultEffect(t, mult);
    LayoutKeepsCollapsed(T.Mult(t, mult), t);
  }
}
