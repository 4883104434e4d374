/** Every reachable state of a TCP session satisfies the session invariant. */
module TcpSafety {
  import opened Int64
  import opened ByteIO
  import opened Trees
  import opened Frames
  import opened Streams
  import opened TcpSession
  import Hex

  lemma InitInv(cfg: Config, cs: seq<Call>)
    requires ValidConfig(cfg)
    ensures Inv(cfg, cs, Init())
  {
    var s := Init();
    if |cs| > 0 {
      OutAtEnds(cs[0]);
    }
    StreamPrefix(Requests(cs), 0, |cs|);
    StreamPrefix(Replies(cs), 0, |cs|);
    assert All(Requests(cs))[0..0] == [];
    assert All(Replies(cs))[0..0] == [];
    assert Results(cs)[..0] == [];
  }

  lemma Standing(cs: seq<Call>, s: State)
    requires Aligned(cs, s)
    ensures Placed(cs, s) && s.sv.ctrl == CtrlOf(cs, s) && ClientFlow(cs, s)
  {
  }

  lemma DisciplinedByServer(cs: seq<Call>, s: State, s': State)
    requires Placed(cs, s) && Placed(cs, s') && Disciplined(cs, s)
    requires s'.sv.wbuf == s.sv.wbuf && s'.sv.served == s.sv.served && s'.sv.pos == s.sv.pos
    requires s'.sv.flushing == [] || (s.sv.flushing != [] && |s'.sv.flushing| <= |s.sv.flushing|)
    ensures Disciplined(cs, s')
  {
    hide Request, Reply, OutAt, CtrlAt;
  }

  /** Starting a call appends its request frame to what is in flight. */
  lemma StartInput(cs: seq<Call>, s: State, s': State)
    requires Placed(cs, s) && Placed(cs, s') && InputAligned(cs, s)
    requires ClientFlow(cs, s) && s.cl.phase.Ready? && s.cl.next < |cs|
    requires s' == s.(cl := s.cl.(phase := Sending(Request(cs[s.cl.next]))))
    ensures InputAligned(cs, s')
  {
    hide Request, Stream, Placed;
    var m, reqs := s.cl.next, Requests(cs);
    FrameSlice(reqs, m);
    JoinSlices(All(reqs), ReadPos(cs, s), At(reqs, m), At(reqs, m + 1));
    assert InFlight(s) == s.sv.rbuf + s.toServer;
    assert InFlight(s') == InFlight(s) + Request(cs[m]);
  }

  lemma StartAligned(cs: seq<Call>, s: State, s': State)
    requires Aligned(cs, s) && s.cl.phase.Ready? && s.cl.next < |cs|
    requires s' == s.(cl := s.cl.(phase := Sending(Request(cs[s.cl.next]))))
    ensures Aligned(cs, s')
  {
    hide Request, OutAt, CtrlAt, InputAligned, OutputAligned;
    StartInput(cs, s, s');
    OutputByContents(cs, s, s');
  }

  lemma OutputByContents(cs: seq<Call>, s: State, s': State)
    requires Placed(cs, s) && Placed(cs, s') && OutputAligned(cs, s)
    requires s'.sv.served == s.sv.served && s'.sv.pos == s.sv.pos && s'.cl.next == s.cl.next
    requires Outstanding(s') == Outstanding(s) && Got(s') == Got(s)
    ensures OutputAligned(cs, s')
  {
    hide Request, OutAt, Outstanding, All, At, Got, Placed;
  }

  lemma InputByContents(cs: seq<Call>, s: State, s': State)
    requires Placed(cs, s) && Placed(cs, s') && InputAligned(cs, s)
    requires s'.sv.served == s.sv.served && s'.sv.pos == s.sv.pos && Started(s') == Started(s)
    requires InFlight(s') == InFlight(s)
    ensures InputAligned(cs, s')
  {
    hide Request, InFlight, All, At, Placed, Started;
  }

  lemma StartInv(cfg: Config, cs: seq<Call>, s: State)
    requires Inv(cfg, cs, s) && Enabled(cfg, cs, s, Start)
    ensures Inv(cfg, cs, Do(cfg, cs, s, Start))
  {
    hide Aligned, Disciplined, Request;
    Standing(cs, s);
    StartAligned(cs, s, Do(cfg, cs, s, Start));
    Standing(cs, Do(cfg, cs, s, Start));
    DisciplinedByServer(cs, s, Do(cfg, cs, s, Start));
  }

  lemma JoinSlices(bs: seq<byte>, i: nat, j: nat, k: nat)
    requires i <= j <= k <= |bs|
    ensures bs[i..j] + bs[j..k] == bs[i..k]
  {
  }

  /** Bytes moving from the head of one queue to the tail of the queue before it. */
  lemma Shift(a: seq<byte>, b: seq<byte>, c: seq<byte>, n: nat)
    requires n <= |b|
    ensures (a + b[..n]) + (b[n..] + c) == a + (b + c)
  {
  }

  lemma ShiftThroughWriter(a: seq<byte>, wbuf: seq<byte>, todo: seq<byte>, n: nat, b: Buffered)
    requires n <= |todo| && b.through + b.wbuf == wbuf + todo[..n]
    ensures a + (b.through + (b.wbuf + todo[n..])) == a + ([] + (wbuf + todo))
  {
    assert todo == todo[..n] + todo[n..];
    assert b.through + (b.wbuf + todo[n..]) == (b.through + b.wbuf) + todo[n..];
    assert wbuf + todo == (wbuf + todo[..n]) + todo[n..];
  }

  /** Only what the two directions still carry matters, not which buffer holds it. */
  lemma AlignedByContents(cs: seq<Call>, s: State, s': State)
    requires Aligned(cs, s)
    requires s'.sv.ctrl == s.sv.ctrl && s'.sv.served == s.sv.served && s'.sv.pos == s.sv.pos
    requires s'.cl.next == s.cl.next && Started(s') == Started(s)
    requires InFlight(s') == InFlight(s) && Outstanding(s') == Outstanding(s) && Got(s') == Got(s)
    requires ClientFlow(cs, s')
    ensures Aligned(cs, s')
  {
    hide Request, OutAt, CtrlAt, InFlight, Outstanding, InputAligned, OutputAligned, ClientFlow, Got;
    InputByContents(cs, s, s');
    OutputByContents(cs, s, s');
  }

  lemma WriteInv(cfg: Config, cs: seq<Call>, s: State, n: nat)
    requires Inv(cfg, cs, s) && Enabled(cfg, cs, s, Write(n))
    ensures Inv(cfg, cs, Do(cfg, cs, s, Write(n)))
  {
    hide Aligned, Disciplined, Put;
    var s' := Do(cfg, cs, s, Write(n));
    PutKeeps(s.cl.wbuf, s.cl.phase.todo[..n]);
    ShiftThroughWriter(s.toServer, s.cl.wbuf, s.cl.phase.todo, n, Put(s.cl.wbuf, s.cl.phase.todo[..n]));
    Standing(cs, s);
    AlignedByContents(cs, s, s');
    DisciplinedByServer(cs, s, s');
  }

  lemma EndRequestInv(cfg: Config, cs: seq<Call>, s: State)
    requires Inv(cfg, cs, s) && Enabled(cfg, cs, s, EndRequest)
    ensures Inv(cfg, cs, Do(cfg, cs, s, EndRequest))
  {
    hide Aligned, Disciplined;
    var s' := Do(cfg, cs, s, EndRequest);
    assert s.cl.wbuf + ([] + []) == [] + (s.cl.wbuf + []);
    assert InFlight(s') == InFlight(s);
    Standing(cs, s);
    AlignedByContents(cs, s, s');
    DisciplinedByServer(cs, s, s');
  }

  lemma PushToServerInv(cfg: Config, cs: seq<Call>, s: State, n: nat)
    requires Inv(cfg, cs, s) && Enabled(cfg, cs, s, PushToServer(n))
    ensures Inv(cfg, cs, Do(cfg, cs, s, PushToServer(n)))
  {
    hide Aligned, Disciplined;
    var s' := Do(cfg, cs, s, PushToServer(n));
    Shift(s.toServer, s.cl.flushing, s.cl.wbuf + Todo(s), n);
    Standing(cs, s);
    AlignedByContents(cs, s, s');
    DisciplinedByServer(cs, s, s');
  }

  /** Taking n bytes off the front of a slice and appending them to the slice before it. */
  lemma MoveBoundary(bs: seq<byte>, i: nat, j: nat, k: nat, n: nat, queue: seq<byte>, tail: seq<byte>)
    requires i <= j <= k <= |bs| && n <= |queue|
    requires queue + tail == bs[j..k]
    ensures j + n <= k
    ensures bs[i..j] + queue[..n] == bs[i..j + n]
    ensures queue[n..] + tail == bs[j + n..k]
  {
    assert (queue + tail)[..n] == queue[..n];
    assert (queue + tail)[n..] == queue[n..] + tail;
  }

  lemma ReceiveOutput(cs: seq<Call>, s: State, n: nat, s': State)
    requires Placed(cs, s) && Placed(cs, s') && OutputAligned(cs, s)
    requires s.cl.phase.Receiving? && n <= |s.cl.rbuf|
    requires s' == s.(cl := s.cl.(phase := Receiving(s.cl.phase.got + s.cl.rbuf[..n]), rbuf := s.cl.rbuf[n..]))
    ensures OutputAligned(cs, s')
  {
    hide Request, OutAt, CtrlAt, All, At, Placed, WrittenPos;
    SameWritten(cs, s, s');
    MoveBoundary(All(Replies(cs)), At(Replies(cs), s.cl.next), ReceivedPos(cs, s), WrittenPos(cs, s), n,
                 s.cl.rbuf, s.toClient + (s.sv.flushing + s.sv.wbuf));
  }

  lemma SameWritten(cs: seq<Call>, s: State, s': State)
    requires Placed(cs, s) && Placed(cs, s')
    requires s'.sv.served == s.sv.served && s'.sv.pos == s.sv.pos && s'.cl.next == s.cl.next
    ensures s.cl.next <= |cs| && WrittenPos(cs, s') == WrittenPos(cs, s)
  {
    hide Request, OutAt, At;
  }

  lemma ReceiveInv(cfg: Config, cs: seq<Call>, s: State, n: nat)
    requires Inv(cfg, cs, s) && Enabled(cfg, cs, s, Receive(n))
    ensures Inv(cfg, cs, Do(cfg, cs, s, Receive(n)))
  {
    hide Request, OutAt, CtrlAt, Disciplined, InputAligned, OutputAligned, InFlight;
    var s' := Do(cfg, cs, s, Receive(n));
    ReceiveOutput(cs, s, n, s');
    assert InFlight(s') == InFlight(s) by { SameInFlight(s, s'); }
    InputByContents(cs, s, s');
    DisciplinedByServer(cs, s, s');
  }

  lemma SameInFlight(s: State, s': State)
    requires s'.sv.rbuf == s.sv.rbuf && s'.toServer == s.toServer
    requires s'.cl.flushing == s.cl.flushing && s'.cl.wbuf == s.cl.wbuf && Todo(s') == Todo(s)
    ensures InFlight(s') == InFlight(s)
  {
  }

  /** A reply of the expected size is the whole reply frame of the call. */
  lemma ReturnOutput(cs: seq<Call>, s: State, s': State)
    requires Placed(cs, s) && Placed(cs, s') && OutputAligned(cs, s)
    requires s.cl.phase.Receiving? && s.cl.next < |cs| && |Got(s)| == ReplySize(cs[s.cl.next])
    requires s'.cl.phase.Ready? && s'.cl.next == s.cl.next + 1
    requires s'.sv == s.sv && s'.toClient == s.toClient && s'.cl.rbuf == s.cl.rbuf
    ensures OutputAligned(cs, s')
    ensures Got(s) == Reply(cs[s.cl.next])
  {
    hide Request, Reply, OutAt, Stream, ReplySize, Placed;
    var k := s.cl.next;
    ReplyLength(cs[k]);
    FrameSlice(Replies(cs), k);
  }

  /** No more reply bytes are written than belong to calls the client has started. */
  lemma WrittenWithin(cs: seq<Call>, s: State)
    requires Placed(cs, s)
    ensures WrittenPos(cs, s) <= At(Replies(cs), Started(s))
  {
    hide Request, Reply, CtrlAt, Stream;
    var j := s.sv.served;
    if j < |cs| {
      OutAtEnds(cs[j]);
    }
    if j < Started(s) {
      hide OutAt;
      OutAtSize(cs[j], s.sv.pos);
      FrameSlice(Replies(cs), j);
      StreamPrefix(Replies(cs), j + 1, Started(s));
    }
  }

  /** The client's reader holds nothing beyond the current reply. */
  lemma ReturnDrained(cs: seq<Call>, s: State)
    requires Placed(cs, s) && OutputAligned(cs, s)
    requires s.cl.phase.Receiving? && s.cl.next < |cs| && |Got(s)| == ReplySize(cs[s.cl.next])
    ensures Outstanding(s) == []
  {
    hide Request, Reply, OutAt, Stream, ReplySize, Placed, Outstanding, WrittenPos;
    WrittenWithin(cs, s);
    ReplyLength(cs[s.cl.next]);
    FrameSlice(Replies(cs), s.cl.next);
  }

  lemma ReturnInv(cfg: Config, cs: seq<Call>, s: State)
    requires Inv(cfg, cs, s) && Enabled(cfg, cs, s, Return)
    ensures Inv(cfg, cs, Do(cfg, cs, s, Return))
  {
    hide Request, Reply, OutAt, CtrlAt, Disciplined, InputAligned, OutputAligned, Finish, Api, InFlight;
    var s' := Do(cfg, cs, s, Return);
    var k := s.cl.next;
    ReturnOutput(cs, s, s');
    ReturnDrained(cs, s);
    FinishReply(cs[k]);
    assert Results(cs)[..k + 1] == Results(cs)[..k] + [Api(cs[k])];
    SameInFlight(s, s');
    InputByContents(cs, s, s');
    DisciplinedByServer(cs, s, s');
  }

  lemma FillReplyInv(cfg: Config, cs: seq<Call>, s: State, n: nat)
    requires Inv(cfg, cs, s) && Enabled(cfg, cs, s, FillReply(n))
    ensures Inv(cfg, cs, Do(cfg, cs, s, FillReply(n)))
  {
    hide Aligned, Disciplined;
    var s' := Do(cfg, cs, s, FillReply(n));
    Shift([], s.toClient, s.sv.flushing + s.sv.wbuf, n);
    assert Outstanding(s') == Outstanding(s);
    SameInFlight(s, s');
    Standing(cs, s);
    hide Outstanding, InFlight;
    AlignedByContents(cs, s, s');
    DisciplinedByServer(cs, s, s');
  }

  lemma FillInv(cfg: Config, cs: seq<Call>, s: State, n: nat)
    requires Inv(cfg, cs, s) && Enabled(cfg, cs, s, Fill(n))
    ensures Inv(cfg, cs, Do(cfg, cs, s, Fill(n)))
  {
    hide Aligned, Disciplined;
    var s' := Do(cfg, cs, s, Fill(n));
    Shift([], s.toServer, s.cl.flushing + (s.cl.wbuf + Todo(s)), n);
    assert InFlight(s') == InFlight(s);
    Standing(cs, s);
    hide Outstanding, InFlight;
    AlignedByContents(cs, s, s');
    DisciplinedByServer(cs, s, s');
  }

  lemma PushToClientInv(cfg: Config, cs: seq<Call>, s: State, n: nat)
    requires Inv(cfg, cs, s) && Enabled(cfg, cs, s, PushToClient(n))
    ensures Inv(cfg, cs, Do(cfg, cs, s, PushToClient(n)))
  {
    hide Aligned, Disciplined;
    var s' := Do(cfg, cs, s, PushToClient(n));
    Shift(s.toClient, s.sv.flushing, s.sv.wbuf, n);
    Standing(cs, s);
    AlignedByContents(cs, s, s');
    DisciplinedByServer(cs, s, s');
  }

  // ---------- the server reads ----------

  /**
   The server may lag behind the client only over calls that have no reply: each of them is
   a zero-length ToHex, whose client call returns without waiting.
   */
  lemma Lagging(cs: seq<Call>, s: State, k: nat)
    requires ValidCalls(cs) && Aligned(cs, s) && s.sv.served <= k < s.cl.next
    ensures cs[k] == ToHex([])
  {
    hide Request, Reply, OutAt, CtrlAt, Stream, InFlight, Outstanding;
    var reps, j := Replies(cs), s.sv.served;
    OutAtSize(cs[j], s.sv.pos);
    FrameSlice(reps, j);
    StreamPrefix(reps, j + 1, s.cl.next);
    assert At(reps, j) == At(reps, s.cl.next);
    NothingBetween(reps, j, s.cl.next, k);
    NoReply(cs[k]);
  }

  lemma NoReply(c: Call)
    requires Reply(c) == []
    ensures c == ToHex([])
  {
    ReplyLength(c);
  }

  /** A command whose call has a reply is the last one sent: nothing is queued behind it. */
  lemma NothingQueuedBehind(cs: seq<Call>, s: State)
    requires ValidCalls(cs) && Aligned(cs, s) && InFlight(s) != []
    ensures s.sv.served < Started(s)
    ensures cs[s.sv.served] != ToHex([]) ==>
      && Started(s) == s.sv.served + 1
      && |InFlight(s)| == |Request(cs[s.sv.served])| - s.sv.pos
  {
    hide Request, Reply, OutAt, CtrlAt, Stream, Outstanding;
    var j := s.sv.served;
    if cs[j] != ToHex([]) {
      if j < s.cl.next {
        Lagging(cs, s, j);
      }
      FrameSlice(Requests(cs), j);
    }
  }

  lemma ReaderInFlight(s: State)
    ensures |s.sv.rbuf| <= |InFlight(s)| && |InFlight(s)| == |s.sv.rbuf| + |Unfetched(s)|
  {
  }

  /** The bytes at the front of the server's reader are the next bytes of the frame the server is in. */
  lemma NextBytes(cs: seq<Call>, s: State, n: nat)
    requires Aligned(cs, s) && s.sv.served < |cs|
    requires n <= |s.sv.rbuf| && s.sv.pos + n <= |Request(cs[s.sv.served])|
    ensures s.sv.rbuf[..n] == Request(cs[s.sv.served])[s.sv.pos..s.sv.pos + n]
  {
    hide Request, Reply, OutAt, CtrlAt, Stream, Outstanding;
    var reqs, p := Requests(cs), ReadPos(cs, s);
    PartOfFrame(reqs, s.sv.served, s.sv.pos, s.sv.pos + n);
    assert InFlight(s)[..n] == s.sv.rbuf[..n];
    assert InFlight(s)[..n] == All(reqs)[p..At(reqs, Started(s))][..n] == All(reqs)[p..p + n];
  }

  /** What a read of n bytes does, in terms of the frame positions. */
  ghost predicate ReadsFrame(cs: seq<Call>, s: State, n: nat, fed: Fed)
    requires Placed(cs, s)
  {
    && s.sv.served < |cs| && n >= 1
    && var c, pos := cs[s.sv.served], s.sv.pos;
    && pos + n <= |Request(c)|
    && fed.ctrl == CtrlAt(c, pos + n)
    && OutAt(c, pos + n) == OutAt(c, pos) + fed.out
    && |fed.out| <= WRITER_SIZE
    && (c.MultTree? ==> n == 1 && (|fed.out| == 0 || |fed.out| == 8))
    && (OversizeHex(c) && pos <= 9 ==> pos + n <= 9)
  }

  lemma EatIsShort(k: Ctrl, b: byte)
    ensures |Eat(k, b).out| in {0, 1, 2, 8}
    ensures k.MultValue? || k.MultArgs? ==> |Eat(k, b).out| in {0, 8}
  {
  }

  lemma ReadByteReadsFrame(cs: seq<Call>, s: State)
    requires ValidCalls(cs) && Aligned(cs, s) && s.sv.rbuf != [] && !s.sv.ctrl.HexData?
    ensures Placed(cs, s) && ReadsFrame(cs, s, 1, Eat(s.sv.ctrl, s.sv.rbuf[0]))
  {
    hide Aligned, Request, Reply, OutAt, CtrlAt, Eat, InFlight;
    Standing(cs, s);
    ReaderInFlight(s);
    NothingQueuedBehind(cs, s);
    var c, pos := cs[s.sv.served], s.sv.pos;
    NextBytes(cs, s, 1);
    assert s.sv.rbuf[0] == s.sv.rbuf[..1][0] == Request(c)[pos];
    ByteReadsFrame(c, pos);
  }

  lemma ByteReadsFrame(c: Call, pos: nat)
    requires ValidCall(c) && pos < |Request(c)| && !CtrlAt(c, pos).HexData?
    ensures var fed := Eat(CtrlAt(c, pos), Request(c)[pos]);
      && fed.ctrl == CtrlAt(c, pos + 1)
      && OutAt(c, pos + 1) == OutAt(c, pos) + fed.out
      && |fed.out| <= WRITER_SIZE
      && (c.MultTree? ==> |fed.out| == 0 || |fed.out| == 8)
      && (OversizeHex(c) && pos <= 9 ==> pos + 1 <= 9)
  {
    hide Request, Reply, OutAt, CtrlAt, Eat;
    EatAdvances(c, pos);
    EatIsShort(CtrlAt(c, pos), Request(c)[pos]);
    if c.ToHex? {
      HexSizePlace(c, pos);
    }
    if c.MultTree? {
      OutAtSize(c, pos);
      OutAtSize(c, pos + 1);
    }
  }

  /** In the hex loop what remains of the frame is the count the server still expects. */
  lemma HexDataPlace(c: Call, pos: nat)
    requires pos < |Request(c)| && CtrlAt(c, pos).HexData?
    ensures c.ToHex? && pos >= 9 && CtrlAt(c, pos).left == |Request(c)| - pos == |c.input| + 9 - pos
  {
    RequestLength(c);
  }

  lemma HexSizePlace(c: Call, pos: nat)
    requires pos < |Request(c)| && c.ToHex? && !CtrlAt(c, pos).HexData?
    ensures pos < 9
  {
    RequestLength(c);
  }

  lemma EatHexAdvances(c: Call, pos: nat, n: nat)
    requires pos < |Request(c)| && CtrlAt(c, pos).HexData? && 1 <= n <= CtrlAt(c, pos).left
    ensures pos + n <= |Request(c)|
    ensures var fed := EatHex(CtrlAt(c, pos).left, Request(c)[pos..pos + n]);
      && fed.ctrl == CtrlAt(c, pos + n)
      && OutAt(c, pos + n) == OutAt(c, pos) + fed.out
  {
    RequestLength(c);
    HexChunkAdvances(c, pos, n);
  }

  lemma ReadHexReadsFrame(cs: seq<Call>, s: State, n: nat)
    requires ValidCalls(cs) && Aligned(cs, s) && s.sv.ctrl.HexData?
    requires 1 <= n <= HexTake(s.sv)
    ensures n <= s.sv.ctrl.left
    ensures Placed(cs, s) && ReadsFrame(cs, s, n, EatHex(s.sv.ctrl.left, s.sv.rbuf[..n]))
  {
    hide Aligned, Request, Reply, OutAt, CtrlAt, Hex.Encode;
    Standing(cs, s);
    NothingQueuedBehind(cs, s);
    var c, pos := cs[s.sv.served], s.sv.pos;
    HexDataPlace(c, pos);
    HexFrameIsLonger(c, pos);
    assert |s.sv.rbuf| <= |InFlight(s)|;
    NextBytes(cs, s, n);
    EatHexAdvances(c, pos, n);
  }

  lemma HexFrameIsLonger(c: Call, pos: nat)
    requires 9 <= pos < |Request(c)|
    ensures c != ToHex([])
  {
    RequestLength(c);
  }

  /** A read moves the server n bytes on, into the next frame when this one is complete. */
  lemma ConsumePlaced(cs: seq<Call>, s: State, n: nat, fed: Fed, s': State)
    requires ValidCalls(cs) && Aligned(cs, s) && Bounded(s) && n <= |s.sv.rbuf|
    requires ReadsFrame(cs, s, n, fed)
    requires s' == s.(sv := Consume(s.sv, n, fed))
    ensures Placed(cs, s')
    ensures s'.sv.ctrl == CtrlOf(cs, s')
    ensures ReadPos(cs, s') == ReadPos(cs, s) + n
    ensures WrittenPos(cs, s') == WrittenPos(cs, s) + |fed.out|
    ensures WrittenPos(cs, s') <= |All(Replies(cs))|
    ensures s.sv.pos + n == |Request(cs[s.sv.served])| <==> s'.sv.served == s.sv.served + 1
    ensures s'.sv.served == s.sv.served ==> s'.sv.pos == s.sv.pos + n
  {
    hide Request, Reply, OutAt, CtrlAt, Stream, InFlight, Outstanding, Put, Aligned;
    Standing(cs, s);
    var j, c := s.sv.served, cs[s.sv.served];
    ReaderInFlight(s);
    NothingQueuedBehind(cs, s);
    FrameSlice(Requests(cs), j);
    FrameSlice(Replies(cs), j);
    OutAtEnds(c);
    OutAtSize(c, s.sv.pos + n);
    CtrlAtEnds(c);
    if s.sv.pos + n < |Request(c)| {
      InsideIsNotHead(c, s.sv.pos + n);
    } else if j + 1 < |cs| {
      OutAtEnds(cs[j + 1]);
      CtrlAtEnds(cs[j + 1]);
    }
  }

  lemma CtrlAtEnds(c: Call)
    ensures CtrlAt(c, 0) == CtrlAt(c, |Request(c)|) == Head
  {
  }

  lemma ConsumeAligned(cs: seq<Call>, s: State, n: nat, fed: Fed, s': State)
    requires ValidCalls(cs) && Aligned(cs, s) && Bounded(s) && s.sv.flushing == [] && n <= |s.sv.rbuf|
    requires ReadsFrame(cs, s, n, fed)
    requires s' == s.(sv := Consume(s.sv, n, fed))
    ensures Aligned(cs, s')
  {
    hide Aligned, ReadsFrame, Consume;
    Standing(cs, s);
    ConsumePlaced(cs, s, n, fed, s');
    hide Placed, CtrlOf, InputAligned, OutputAligned, ReadPos, WrittenPos, ClientFlow;
    ConsumeMoves(s, n, fed, s');
    Streaming(cs, s);
    ConsumeInput(cs, s, n, s');
    ConsumeOutput(cs, s, n, fed, s');
    SameClientFlow(cs, s, s');
    AllAligned(cs, s');
  }

  lemma ConsumeMoves(s: State, n: nat, fed: Fed, s': State)
    requires n <= |s.sv.rbuf| && s' == s.(sv := Consume(s.sv, n, fed))
    ensures s'.cl == s.cl && s'.toServer == s.toServer && s'.toClient == s.toClient
    ensures s'.sv.rbuf == s.sv.rbuf[n..]
  {
  }

  lemma SameClientFlow(cs: seq<Call>, s: State, s': State)
    requires ClientFlow(cs, s) && s'.cl == s.cl
    ensures ClientFlow(cs, s')
  {
  }

  lemma Streaming(cs: seq<Call>, s: State)
    requires Aligned(cs, s)
    ensures Placed(cs, s) && InputAligned(cs, s) && OutputAligned(cs, s)
  {
  }

  lemma AllAligned(cs: seq<Call>, s: State)
    requires Placed(cs, s) && s.sv.ctrl == CtrlOf(cs, s) && ClientFlow(cs, s)
    requires InputAligned(cs, s) && OutputAligned(cs, s)
    ensures Aligned(cs, s)
  {
  }

  lemma ConsumeInput(cs: seq<Call>, s: State, n: nat, s': State)
    requires Placed(cs, s) && InputAligned(cs, s) && n <= |s.sv.rbuf|
    requires s'.cl == s.cl && s'.toServer == s.toServer && s'.sv.rbuf == s.sv.rbuf[n..]
    requires Placed(cs, s') && ReadPos(cs, s') == ReadPos(cs, s) + n
    ensures InputAligned(cs, s')
  {
    hide Request, All, At, ReadPos, CtrlAt, OutAt;
    var req, p, e := All(Requests(cs)), ReadPos(cs, s), At(Requests(cs), Started(s));
    assert Unfetched(s') == Unfetched(s);
    assert InFlight(s') == InFlight(s)[n..];
    assert req[p..e][n..] == req[p + n..e];
  }

  lemma ConsumeOutput(cs: seq<Call>, s: State, n: nat, fed: Fed, s': State)
    requires Placed(cs, s) && OutputAligned(cs, s) && Bounded(s) && s.sv.flushing == [] && n <= |s.sv.rbuf|
    requires ReadsFrame(cs, s, n, fed)
    requires s' == s.(sv := Consume(s.sv, n, fed))
    requires Placed(cs, s') && WrittenPos(cs, s') == WrittenPos(cs, s) + |fed.out|
    ensures OutputAligned(cs, s')
  {
    hide ReadsFrame, Consume, WrittenPos, All, At, Outstanding, Request, OutAt, CtrlAt;
    var w := WrittenPos(cs, s);
    OutputInStream(cs, s, n, fed);
    OutputQueued(s, n, fed, s');
    ConsumeMoves(s, n, fed, s');
    hide Bounded, Placed;
    JoinSlices(All(Replies(cs)), ReceivedPos(cs, s), w, w + |fed.out|);
  }

  /** What the server writes is the next part of the stream of all replies. */
  lemma OutputInStream(cs: seq<Call>, s: State, n: nat, fed: Fed)
    requires Placed(cs, s) && ReadsFrame(cs, s, n, fed)
    ensures WrittenPos(cs, s) + |fed.out| <= |All(Replies(cs))|
    ensures All(Replies(cs))[WrittenPos(cs, s)..WrittenPos(cs, s) + |fed.out|] == fed.out
  {
    hide Request, Reply, OutAt, CtrlAt, Stream;
    var c, pos := cs[s.sv.served], s.sv.pos;
    OutAtSize(c, pos + n);
    PartOfFrame(Replies(cs), s.sv.served, |OutAt(c, pos)|, |OutAt(c, pos + n)|);
    assert Reply(c)[|OutAt(c, pos)|..|OutAt(c, pos + n)|] == fed.out;
  }

  lemma OutputQueued(s: State, n: nat, fed: Fed, s': State)
    requires Bounded(s) && s.sv.flushing == [] && n <= |s.sv.rbuf|
    requires s' == s.(sv := Consume(s.sv, n, fed))
    ensures Outstanding(s') == Outstanding(s) + fed.out
  {
    hide Put;
    PutKeeps(s.sv.wbuf, fed.out);
    assert s'.sv.flushing + s'.sv.wbuf == s.sv.wbuf + fed.out;
    assert [] + s.sv.wbuf == s.sv.wbuf;
  }

  lemma ConsumeDisciplined(cs: seq<Call>, s: State, n: nat, fed: Fed, s': State)
    requires ValidCalls(cs) && Aligned(cs, s) && Bounded(s) && Disciplined(cs, s) && n <= |s.sv.rbuf|
    requires ReadsFrame(cs, s, n, fed)
    requires s' == s.(sv := Consume(s.sv, n, fed))
    ensures Placed(cs, s') && Bounded(s') && Disciplined(cs, s')
  {
    hide Aligned, Request, Reply, OutAt, CtrlAt, Put;
    Standing(cs, s);
    ConsumePlaced(cs, s, n, fed, s');
    PutKeeps(s.sv.wbuf, fed.out);
    if s.sv.pos + n < |Request(cs[s.sv.served])| {
      InsideIsNotHead(cs[s.sv.served], s.sv.pos + n);
      OutAtEnds(cs[s.sv.served]);
      SpillInside(cs[s.sv.served], s.sv.pos, n, fed, |s.sv.wbuf|, |s'.sv.wbuf|);
      assert s.sv.wbuf != [] && |fed.out| <= WRITER_SIZE && s'.sv.flushing != [] ==> |s'.sv.flushing| == WRITER_SIZE;
    }
  }

  lemma SpillInside(c: Call, pos: nat, n: nat, fed: Fed, held: nat, held': nat)
    requires ValidCall(c) && pos + n < |Request(c)|
    requires OutAt(c, pos + n) == OutAt(c, pos) + fed.out
    requires c.MultTree? ==> n == 1 && (|fed.out| == 0 || |fed.out| == 8)
    requires held <= |OutAt(c, pos)| && (|OutAt(c, pos)| - held) % WRITER_SIZE == 0 && held <= WRITER_SIZE
    requires |OutAt(c, pos)| > held ==> held >= 8 && c.MultTree?
    requires OversizeHex(c) ==> pos + n <= 9
    requires held' == if held + |fed.out| <= WRITER_SIZE then held + |fed.out| else held + |fed.out| - WRITER_SIZE
    ensures held' <= |OutAt(c, pos + n)|
    ensures (|OutAt(c, pos + n)| - held') % WRITER_SIZE == 0
    ensures |OutAt(c, pos + n)| > held' ==> held' >= 8 && c.MultTree?
    ensures held + |fed.out| > WRITER_SIZE ==> held == WRITER_SIZE && held' == 8
    ensures held + |fed.out| > WRITER_SIZE ==> pos + n == 17 + |OutAt(c, pos + n)|
  {
    hide Request, Reply, OutAt;
    OutAtSize(c, pos);
    OutAtSize(c, pos + n);
    if !c.MultTree? {
      OtherRepliesFit(c, pos + n);
    }
    Spill(|OutAt(c, pos)|, held, |fed.out|, c.MultTree?, held');
  }

  /** What a writer has spilled stays a whole number of buffers. */
  lemma Spill(partial: nat, held: nat, out: nat, tree: bool, held': nat)
    requires held <= partial && (partial - held) % WRITER_SIZE == 0 && held <= WRITER_SIZE
    requires tree ==> partial % 8 == 0 && (out == 0 || out == 8)
    requires !tree ==> partial == held && partial + out <= WRITER_SIZE
    requires partial > held ==> held >= 8
    requires held' == if held + out <= WRITER_SIZE then held + out else held + out - WRITER_SIZE
    ensures held' <= partial + out
    ensures (partial + out - held') % WRITER_SIZE == 0
    ensures partial + out > held' ==> held' >= 8
    ensures !tree ==> partial + out == held'
    ensures held + out > WRITER_SIZE ==> tree && held == WRITER_SIZE && held' == 8
  {
    if held + out > WRITER_SIZE {
      BufferHoldsWholeValues(partial, held);
    }
  }

  lemma OtherRepliesFit(c: Call, pos: nat)
    requires ValidCall(c) && !c.MultTree? && pos <= |Request(c)|
    requires OversizeHex(c) ==> pos <= 9
    ensures |OutAt(c, pos)| <= WRITER_SIZE
  {
    ReplyLength(c);
    OutAtSize(c, pos);
    RequestLength(c);
  }

  lemma BufferHoldsWholeValues(partial: nat, held: nat)
    requires partial % 8 == 0 && held <= partial && (partial - held) % WRITER_SIZE == 0
    requires held + 8 > WRITER_SIZE && held <= WRITER_SIZE
    ensures held == WRITER_SIZE
  {
    var q := (partial - held) / WRITER_SIZE;
    assert partial - held == q * WRITER_SIZE;
    assert WRITER_SIZE == 8 * 32768;
    assert held == partial - 8 * (q * 32768);
  }

  /** A read that stays in its frame keeps the invariant. */
  lemma ConsumeInv(cfg: Config, cs: seq<Call>, s: State, n: nat, fed: Fed)
    requires ValidCalls(cs) && Inv(cfg, cs, s) && s.sv.flushing == [] && n <= |s.sv.rbuf|
    requires ReadsFrame(cs, s, n, fed)
    ensures Inv(cfg, cs, s.(sv := Consume(s.sv, n, fed)))
  {
    hide Aligned, Disciplined, Put;
    var s' := s.(sv := Consume(s.sv, n, fed));
    ConsumeAligned(cs, s, n, fed, s');
    ConsumeDisciplined(cs, s, n, fed, s');
  }

  lemma StepInv(cfg: Config, cs: seq<Call>, s: State, step: Step)
    requires ValidCalls(cs) && Inv(cfg, cs, s) && Enabled(cfg, cs, s, step)
    ensures Inv(cfg, cs, Do(cfg, cs, s, step))
  {
    hide Request, Reply, OutAt, CtrlAt, Stream, Put, Finish, Api, Hex.Encode, Eat, ReplySize;
    match step
    case Start => StartInv(cfg, cs, s);
    case Write(n) => WriteInv(cfg, cs, s, n);
    case EndRequest => EndRequestInv(cfg, cs, s);
    case PushToServer(n) => PushToServerInv(cfg, cs, s, n);
    case Receive(n) => ReceiveInv(cfg, cs, s, n);
    case Return => ReturnInv(cfg, cs, s);
    case ReadByte =>
      ReadByteReadsFrame(cs, s);
      ConsumeInv(cfg, cs, s, 1, Eat(s.sv.ctrl, s.sv.rbuf[0]));
    case ReadHex =>
      var n := HexTake(s.sv);
      ReadHexReadsFrame(cs, s, n);
      ConsumeInv(cfg, cs, s, n, EatHex(s.sv.ctrl.left, s.sv.rbuf[..n]));
    case FillReply(n) => FillReplyInv(cfg, cs, s, n);
    case Fill(n) => FillInv(cfg, cs, s, n);
    case PushToClient(n) => PushToClientInv(cfg, cs, s, n);
  }
}
