/**
 Whether a TCP session can stop half way. The client reads no reply before its whole request
 is flushed, and the server stops reading while its reply does not drain; a long enough reply
 therefore blocks both for ever. Here: which calls are sure to complete. TcpBlocking has the rest.
 */
module TcpLiveness {
  import opened Int64
  import opened ByteIO
  import opened Trees
  import opened Frames
  import opened Streams
  import opened TcpSession
  import opened TcpSafety
  import opened TcpTheorems

  // ---------- which calls complete ----------

  /** The least whole number of server writer buffers that the pipe to the client cannot hold. */
  function Overrun(cfg: Config): (f: nat)
    ensures f > cfg.toClientCap && f % WRITER_SIZE == 0
  {
    var q := cfg.toClientCap / WRITER_SIZE;
    assert (WRITER_SIZE * (q + 1)) % WRITER_SIZE == 0;
    WRITER_SIZE * (q + 1)
  }

  /** Anything that is a multiple of the buffer size and overruns the pipe is at least Overrun. */
  lemma OverrunIsLeast(cfg: Config, x: nat)
    requires x % WRITER_SIZE == 0
    ensures x > cfg.toClientCap ==> x >= Overrun(cfg)
    ensures x <= cfg.toClientCap ==> x + WRITER_SIZE <= Overrun(cfg)
  {
    var q := cfg.toClientCap / WRITER_SIZE;
    var r := x / WRITER_SIZE;
    assert x == WRITER_SIZE * r;
  }

  /**
   What a caller can check before the call. When its reply first blocks, the server has read the
   value that made it overrun, and `ahead` bytes more wait in its reader; what then remains of the
   request must fit the pipe. Hex input must be shorter than the server's hex buffer.
   */
  predicate FitsAhead(cfg: Config, c: Call, ahead: nat) {
    && (c.MultTree? ==> 8 * Total(c.tree) <= Overrun(cfg) + 8 + cfg.toServerCap + ahead)
    && (c.ToHex? ==> |c.input| < MAX_HEX_ENCODE_SIZE)
  }

  /** The call fits with nothing read ahead. */
  predicate Fits(cfg: Config, c: Call) { FitsAhead(cfg, c, 0) }

  ghost predicate AllFit(cfg: Config, cs: seq<Call>) { forall i :: 0 <= i < |cs| ==> Fits(cfg, cs[i]) }

  /** Replies no longer than the server's writer fit whatever the pipes hold. */
  lemma SmallRepliesFit(cfg: Config, c: Call)
    requires ReplySize(c) <= WRITER_SIZE
    requires c.ToHex? ==> |c.input| < MAX_HEX_ENCODE_SIZE
    ensures Fits(cfg, c)
  {
    OverrunIsLeast(cfg, 0);
  }

  // ---------- fitting calls always complete ----------

  /** Some reply bytes of the current frame are underway: they belong to the client's current call. */
  lemma ReplyUnderway(cs: seq<Call>, s: State)
    requires ValidCalls(cs) && Aligned(cs, s) && Outstanding(s) != [] && s.sv.pos > 0
    ensures s.sv.served == s.cl.next && Started(s) == s.cl.next + 1
    ensures |Outstanding(s)| == |Partial(cs, s)| - |Got(s)|
  {
    hide CtrlAt, OutAt, Request, Reply, Stream, InFlight;
    var reps, j := Replies(cs), s.sv.served;
    assert |Outstanding(s)| == WrittenPos(cs, s) - ReceivedPos(cs, s) > 0;
    if j < s.cl.next {
      Lagging(cs, s, j);
      StreamPrefix(reps, j, s.cl.next);
      ReplyLength(cs[j]);
      OutAtSize(cs[j], s.sv.pos);
    }
  }

  /** Whole frames served with reply bytes outstanding: everything sent has been read. */
  lemma ReplyComplete(cs: seq<Call>, s: State)
    requires ValidCalls(cs) && Aligned(cs, s) && Outstanding(s) != [] && s.sv.pos == 0
    ensures s.sv.served == s.cl.next + 1 == Started(s) && InFlight(s) == []
  {
    hide CtrlAt, Request, Reply, Stream;
    var reps, j := Replies(cs), s.sv.served;
    assert |Outstanding(s)| == WrittenPos(cs, s) - ReceivedPos(cs, s) > 0;
    if j < |cs| {
      OutAtEnds(cs[j]);
    }
    hide OutAt;
    if j <= s.cl.next {
      StreamPrefix(reps, j, s.cl.next);
    }
  }

  /** How far into a tree frame the server must be to have written `written` bytes of its reply. */
  lemma ReadBeforeWritten(c: Call, pos: nat, written: nat)
    requires c.MultTree? && pos <= |Request(c)| && |OutAt(c, pos)| >= written >= 1
    ensures pos >= 17 + written
    ensures |Request(c)| == 17 + 8 * Total(c.tree)
  {
    OutAtSize(c, pos);
    RequestLength(c);
  }

  ghost predicate ClientBlocked(cfg: Config, s: State) { s.cl.flushing != [] && |s.toServer| >= cfg.toServerCap }

  ghost predicate ServerBlocked(cfg: Config, s: State) { s.sv.flushing != [] && |s.toClient| >= cfg.toClientCap }

  /** Inside a frame the writer has let through whole buffers: count them. */
  lemma SpilledOverruns(cfg: Config, cs: seq<Call>, s: State)
    requires ValidConfig(cfg) && ValidCalls(cs) && Inv(cfg, cs, s)
    requires ServerBlocked(cfg, s) && s.sv.pos > 0 && Got(s) == [] && s.cl.rbuf == []
    ensures s.sv.served == s.cl.next < |cs| && cs[s.cl.next].MultTree?
    ensures |OutAt(cs[s.cl.next], s.sv.pos)| >= Overrun(cfg) + 8
  {
    hide CtrlAt, OutAt, Request, Reply, Stream, InFlight, Overrun;
    ReplyUnderway(cs, s);
    assert |Outstanding(s)| == |s.toClient| + |s.sv.flushing| + |s.sv.wbuf|;
    OverrunIsLeast(cfg, |s.toClient| + |s.sv.flushing|);
  }

  /** Once the server blocks inside a fitting call's frame, the pipe can hold all it has not read. */
  lemma RestFitsPipe(cfg: Config, cs: seq<Call>, s: State)
    requires ValidConfig(cfg) && ValidCalls(cs) && AllFit(cfg, cs) && Inv(cfg, cs, s)
    requires ServerBlocked(cfg, s) && Got(s) == [] && s.cl.rbuf == []
    ensures |InFlight(s)| <= cfg.toServerCap
  {
    hide CtrlAt, OutAt, Request, Reply, Stream, Overrun, OutputAligned, Disciplined;
    if s.sv.pos == 0 {
      ReplyComplete(cs, s);
    } else {
      SpilledOverruns(cfg, cs, s);
      ReadBeforeWritten(cs[s.cl.next], s.sv.pos, Overrun(cfg) + 8);
      FrameSlice(Requests(cs), s.cl.next);
    }
  }

  /** The two sides are never both blocked writing. */
  lemma NeverBothBlocked(cfg: Config, cs: seq<Call>, s: State)
    requires ValidConfig(cfg) && ValidCalls(cs) && AllFit(cfg, cs) && Inv(cfg, cs, s)
    ensures !(ClientBlocked(cfg, s) && ServerBlocked(cfg, s))
  {
    hide CtrlAt, OutAt, Request, Reply, Stream, InputAligned, OutputAligned, Disciplined, AllFit;
    if ClientBlocked(cfg, s) && ServerBlocked(cfg, s) {
      RestFitsPipe(cfg, cs, s);
    }
  }

  /** With nothing left to read, the server has served every call that was started. */
  lemma ServedAll(cs: seq<Call>, s: State)
    requires Aligned(cs, s) && InFlight(s) == []
    ensures s.sv.served == Started(s) && s.sv.pos == 0
  {
    hide CtrlAt, OutAt, Request, Stream, OutputAligned;
    if s.sv.served < Started(s) {
      FrameSlice(Requests(cs), s.sv.served);
      StreamPrefix(Requests(cs), s.sv.served + 1, Started(s));
    }
  }

  /** With the whole reply written and none of it underway, the client has it all. */
  lemma ReceivedAll(cs: seq<Call>, s: State)
    requires Aligned(cs, s) && s.sv.served == Started(s) && s.sv.pos == 0 && Outstanding(s) == []
    ensures s.cl.phase.Receiving? ==> |Got(s)| == ReplySize(cs[s.cl.next])
  {
    hide CtrlAt, Request, Reply, Stream, InputAligned;
    if s.sv.served < |cs| {
      OutAtEnds(cs[s.sv.served]);
    }
    hide OutAt;
    assert ReceivedPos(cs, s) == WrittenPos(cs, s);
    if s.cl.phase.Receiving? {
      FrameSlice(Replies(cs), s.cl.next);
      ReplyLength(cs[s.cl.next]);
    }
  }

  /** With every call returned, nothing of any reply is underway. */
  lemma NothingOutstanding(cs: seq<Call>, s: State)
    requires Aligned(cs, s) && s.cl.phase.Ready? && s.cl.next == |cs|
    ensures Outstanding(s) == []
  {
    hide CtrlAt, OutAt, Request, Reply, Stream, InputAligned;
    assert ReceivedPos(cs, s) == |All(Replies(cs))|;
  }

  /** The server can read whatever its reader holds. */
  lemma ServerCanRead(cfg: Config, cs: seq<Call>, s: State) returns (step: Step)
    requires ValidCalls(cs) && NoOversizeHex(cs) && Aligned(cs, s)
    requires s.sv.flushing == [] && s.sv.rbuf != []
    ensures Enabled(cfg, cs, s, step) && !step.Fill?
  {
    hide Aligned, Request, CtrlAt, OutAt;
    Standing(cs, s);
    ServerCanTake(cs, s);
    step := if s.sv.ctrl.HexData? then ReadHex else ReadByte;
  }

  ghost predicate NoOversizeHex(cs: seq<Call>) { forall i :: 0 <= i < |cs| ==> !OversizeHex(cs[i]) }

  /** The hex loop's slice is never empty. */
  lemma ServerCanTake(cs: seq<Call>, s: State)
    requires ValidCalls(cs) && NoOversizeHex(cs) && Aligned(cs, s) && InFlight(s) != []
    ensures s.sv.ctrl.HexData? ==> HexSlice(s.sv.ctrl.left) > 0
  {
    hide Aligned, Request, CtrlAt, OutAt, InFlight;
    Standing(cs, s);
    if s.sv.ctrl.HexData? {
      NothingQueuedBehind(cs, s);
      HexDataPlace(cs[s.sv.served], s.sv.pos);
    }
  }

  lemma CanStep(cfg: Config, cs: seq<Call>, s: State) returns (step: Step)
    requires ValidConfig(cfg) && ValidCalls(cs) && AllFit(cfg, cs) && Inv(cfg, cs, s)
    requires !Finished(cs, s)
    ensures Enabled(cfg, cs, s, step)
  {
    hide Aligned, Disciplined, Fits, FitsAhead, Finished;
    FittingHex(cfg, cs);
    if s.sv.flushing == [] && s.sv.rbuf != [] {
      step := ServerCanRead(cfg, cs, s);
    } else if s.sv.flushing == [] && s.toServer != [] {
      ServerCanTake(cs, s);
      step := Fill(1);
    } else {
      NeverBothBlocked(cfg, cs, s);
      step := OtherStep(cfg, cs, s);
    }
  }

  lemma FittingHex(cfg: Config, cs: seq<Call>)
    requires AllFit(cfg, cs)
    ensures NoOversizeHex(cs)
  {
  }

  /** When the server has nothing to read, someone else can go on. */
  lemma OtherStep(cfg: Config, cs: seq<Call>, s: State) returns (step: Step)
    requires ValidConfig(cfg) && ValidCalls(cs) && Inv(cfg, cs, s) && !Finished(cs, s)
    requires s.sv.flushing == [] ==> s.sv.rbuf == [] && s.toServer == []
    requires !(ClientBlocked(cfg, s) && ServerBlocked(cfg, s))
    ensures Enabled(cfg, cs, s, step) && !step.Fill?
  {
    hide InputAligned, OutputAligned, Disciplined, CtrlAt, OutAt, Request;
    if s.sv.flushing != [] && |s.toClient| < cfg.toClientCap {
      step := PushToClient(1);
    } else if s.cl.flushing != [] {
      step := PushToServer(1);
    } else if s.cl.phase.Ready? && s.cl.next < |cs| {
      step := Start;
    } else if s.cl.phase.Sending? {
      step := if s.cl.phase.todo == [] then EndRequest else Write(1);
    } else if s.cl.phase.Receiving? && |Got(s)| == ReplySize(cs[s.cl.next]) {
      step := Return;
    } else if s.cl.phase.Receiving? && s.cl.rbuf != [] {
      step := Receive(1);
    } else if s.cl.phase.Receiving? && s.toClient != [] {
      step := FillReply(1);
    } else {
      NoOtherStop(cfg, cs, s);
      step := Start;
    }
  }

  lemma NoOtherStop(cfg: Config, cs: seq<Call>, s: State)
    requires ValidConfig(cfg) && ValidCalls(cs) && Inv(cfg, cs, s) && s.cl.flushing == []
    requires s.sv.flushing == [] ==> s.sv.rbuf == [] && s.toServer == []
    requires s.sv.flushing != [] ==> |s.toClient| >= cfg.toClientCap
    requires s.cl.phase.Ready? ==> s.cl.next == |cs|
    requires !s.cl.phase.Sending?
    requires s.cl.phase.Receiving? ==> |Got(s)| != ReplySize(cs[s.cl.next]) && s.cl.rbuf == [] && s.toClient == []
    ensures Finished(cs, s)
  {
    hide InputAligned, OutputAligned, CtrlAt, OutAt, Request;
    if s.cl.phase.Ready? {
      NothingOutstanding(cs, s);
      assert s.toClient == [] && s.sv.flushing == [] && s.sv.wbuf == [];
    }
    assert s.sv.flushing == [];
    assert InFlight(s) == [];
    ServedAll(cs, s);
    if s.cl.phase.Receiving? {
      assert Outstanding(s) == [];
      ReceivedAll(cs, s);
    }
    assert Results(cs)[..|cs|] == Results(cs);
  }

  /**
   If every call fits, no run can stop short: where no step is possible, every call has
   returned the API's result and no byte is left anywhere.
   */
  lemma FittingCallsComplete(cfg: Config, cs: seq<Call>, states: seq<State>, steps: seq<Step>)
    requires ValidConfig(cfg) && ValidCalls(cs) && AllFit(cfg, cs)
    requires IsRun(cfg, cs, states, steps) && Stuck(cfg, cs, states[|steps|])
    ensures Finished(cs, states[|steps|])
  {
    var last := states[|steps|];
    RunInv(cfg, cs, states, steps, |steps|);
    if !Finished(cs, last) {
      var step := CanStep(cfg, cs, last);
    }
  }

  /**
   With replies no longer than the writer, no byte of a reply leaves the server before the
   whole request is read: inside a frame all that was let out belongs to earlier replies.
   */
  lemma NoEarlyReply(cfg: Config, cs: seq<Call>, states: seq<State>, steps: seq<Step>, i: nat)
    requires ValidConfig(cfg) && ValidCalls(cs) && IsRun(cfg, cs, states, steps) && i <= |steps|
    requires forall k :: 0 <= k < |cs| ==> ReplySize(cs[k]) <= WRITER_SIZE
    ensures var s := states[i];
      s.sv.pos > 0 ==>
        && s.cl.next <= |cs| && s.sv.served < |cs|
        && ReceivedPos(cs, s) + |s.cl.rbuf| + |s.toClient| + |s.sv.flushing| == At(Replies(cs), s.sv.served)
  {
    hide Inv, Disciplined, Placed, ReceivedPos, At, ReplySize;
    RunInv(cfg, cs, states, steps, i);
    var s := states[i];
    if s.sv.pos > 0 {
      InsidePlace(cfg, cs, s);
      NoSpill(cs[s.sv.served], s.sv.pos, |s.sv.wbuf|);
      UnderwayLength(cfg, cs, s);
    }
  }

  lemma InsidePlace(cfg: Config, cs: seq<Call>, s: State)
    requires Inv(cfg, cs, s) && s.sv.pos > 0
    ensures s.cl.next <= |cs| && s.sv.served < |cs| && Placed(cs, s)
    ensures s.sv.pos < |Request(cs[s.sv.served])| && Partial(cs, s) == OutAt(cs[s.sv.served], s.sv.pos)
    ensures |s.sv.wbuf| <= |Partial(cs, s)| && (|Partial(cs, s)| - |s.sv.wbuf|) % WRITER_SIZE == 0
    ensures |s.sv.wbuf| <= WRITER_SIZE && (|Partial(cs, s)| > |s.sv.wbuf| ==> |s.sv.wbuf| >= 8)
  {
    hide CtrlAt, OutAt, Request, InputAligned, OutputAligned;
  }

  /** A reply that fits the writer is still all in it before its last byte is written. */
  lemma NoSpill(c: Call, pos: nat, held: nat)
    requires pos < |Request(c)| && ReplySize(c) <= WRITER_SIZE
    requires held <= |OutAt(c, pos)| && (|OutAt(c, pos)| - held) % WRITER_SIZE == 0
    requires |OutAt(c, pos)| > held ==> held >= 8
    ensures |OutAt(c, pos)| == held
  {
    hide OutAt, Request, Reply;
    OutAtSize(c, pos);
    ReplyLength(c);
  }

  lemma UnderwayLength(cfg: Config, cs: seq<Call>, s: State)
    requires Inv(cfg, cs, s) && s.sv.served < |cs| && s.cl.next <= |cs|
    requires Placed(cs, s) && |Partial(cs, s)| == |s.sv.wbuf|
    ensures ReceivedPos(cs, s) + |s.cl.rbuf| + |s.toClient| + |s.sv.flushing| == At(Replies(cs), s.sv.served)
  {
    hide CtrlAt, OutAt, Request, InputAligned, Disciplined, At, All;
    assert |Outstanding(s)| == |s.cl.rbuf| + |s.toClient| + |s.sv.flushing| + |s.sv.wbuf|;
  }
}
