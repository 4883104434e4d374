/**
 Calls that need not complete. How far a session gets with a tree that is too large depends on
 how much of the request the server's bufio.Reader happens to hold when the reply first blocks;
 what it can hold at most separates the calls that may return from those that never do.
 */
module TcpBlocking {
  import opened Int64
  import opened ByteIO
  import opened Trees
  import opened Frames
  import opened Streams
  import opened TcpSession
  import opened TcpSafety
  import opened TcpTheorems
  import opened TcpLiveness

  // ---------- what the server's reader can hold ----------

  /** One read of the connection returns no more than the pipe and the reader can hold. */
  function LargestFill(cfg: Config): nat { Min(SERVER_READER_SIZE, cfg.toServerCap) }

  /**
   The call fits when as much as possible is read ahead: of one largest fill, all but the byte
   at which the reply blocks.
   */
  predicate MayFit(cfg: Config, c: Call)
    requires ValidConfig(cfg)
  {
    FitsAhead(cfg, c, LargestFill(cfg) - 1)
  }

  ghost predicate AllMayFit(cfg: Config, cs: seq<Call>)
    requires ValidConfig(cfg)
  {
    forall i :: 0 <= i < |cs| ==> MayFit(cfg, cs[i])
  }

  ghost predicate FillsWithin(steps: seq<Step>, max: nat) {
    forall k :: 0 <= k < |steps| && steps[k].Fill? ==> steps[k].n <= max
  }

  /** After fills of at most ahead + 1 bytes, the byte at which a reply blocks has left the reader. */
  ghost predicate ReaderWithin(s: State, ahead: nat) {
    && |s.sv.rbuf| <= ahead + 1
    && (s.sv.pos > 0 && s.sv.flushing != [] ==> |s.sv.rbuf| <= ahead)
  }

  lemma StepReaderWithin(cfg: Config, cs: seq<Call>, s: State, step: Step, ahead: nat)
    requires Enabled(cfg, cs, s, step) && ReaderWithin(s, ahead) && (step.Fill? ==> step.n <= ahead + 1)
    ensures ReaderWithin(Do(cfg, cs, s, step), ahead)
  {
    hide Put, Eat, EatHex, Request, Finish, ReplySize;
  }

  lemma {:induction false} RunReaderWithin(
    cfg: Config, cs: seq<Call>, states: seq<State>, steps: seq<Step>, ahead: nat, k: nat)
    requires IsRun(cfg, cs, states, steps) && FillsWithin(steps, ahead + 1) && k <= |steps|
    ensures ReaderWithin(states[k], ahead)
  {
    if k > 0 {
      hide Enabled, Do, ReaderWithin;
      RunReaderWithin(cfg, cs, states, steps, ahead, k - 1);
      StepReaderWithin(cfg, cs, states[k - 1], steps[k - 1], ahead);
    }
  }

  lemma FillWithin(cfg: Config, cs: seq<Call>, s: State, n: nat)
    requires Inv(cfg, cs, s) && Enabled(cfg, cs, s, Fill(n))
    ensures n <= LargestFill(cfg)
  {
    hide Aligned, Disciplined;
  }

  lemma AllFillsWithin(cfg: Config, cs: seq<Call>, states: seq<State>, steps: seq<Step>)
    requires ValidConfig(cfg) && ValidCalls(cs) && IsRun(cfg, cs, states, steps)
    ensures FillsWithin(steps, LargestFill(cfg))
  {
    forall k | 0 <= k < |steps| && steps[k].Fill? ensures steps[k].n <= LargestFill(cfg) {
      hide Inv, Do, Enabled;
      RunInv(cfg, cs, states, steps, k);
      FillWithin(cfg, cs, states[k], steps[k].n);
    }
  }

  lemma PipeWithin(cfg: Config, cs: seq<Call>, s: State)
    requires Inv(cfg, cs, s)
    ensures |s.toServer| <= cfg.toServerCap && |s.sv.rbuf| <= SERVER_READER_SIZE
  {
    hide Aligned, Disciplined;
  }

  // ---------- where a reply blocks ----------

  /** Where in the frame of a tree call the reply first blocks: one value past what the pipe holds. */
  function BlockPos(cfg: Config): nat { 25 + Overrun(cfg) }

  /** While the client has seen nothing of the reply, the server gets so far into the frame and no further. */
  lemma BlockedPlace(cfg: Config, cs: seq<Call>, s: State)
    requires ValidConfig(cfg) && Inv(cfg, cs, s) && s.sv.served == s.cl.next < |cs| && s.sv.pos > 0
    requires cs[s.cl.next].MultTree? && Got(s) == [] && s.cl.rbuf == []
    ensures s.sv.flushing == [] ==> s.sv.pos < BlockPos(cfg)
    ensures s.sv.flushing != [] ==> s.sv.pos <= BlockPos(cfg)
    ensures ServerBlocked(cfg, s) ==> s.sv.pos == BlockPos(cfg)
  {
    hide CtrlAt, OutAt, Request, Reply, Stream, InputAligned, Overrun;
    OutAtSize(cs[s.cl.next], s.sv.pos);
    SpilledLengths(cs, s);
    BlockedNumbers(cfg, |s.toClient|, |s.sv.flushing|, |s.sv.wbuf|, s.sv.pos);
  }

  lemma SpilledLengths(cs: seq<Call>, s: State)
    requires Aligned(cs, s) && s.sv.served == s.cl.next < |cs| && Got(s) == [] && s.cl.rbuf == []
    ensures |s.toClient| + |s.sv.flushing| + |s.sv.wbuf| == |Partial(cs, s)|
  {
    hide CtrlAt, OutAt, Request, Stream, InputAligned;
    assert |Outstanding(s)| == |s.toClient| + |s.sv.flushing| + |s.sv.wbuf|;
  }

  lemma BlockedNumbers(cfg: Config, delivered: nat, flushing: nat, held: nat, pos: nat)
    requires delivered <= cfg.toClientCap && held <= WRITER_SIZE && (delivered + flushing) % WRITER_SIZE == 0
    requires delivered + flushing + held == if pos < 17 then 0 else 8 * ((pos - 17) / 8)
    requires flushing > 0 ==> held == 8 && flushing <= WRITER_SIZE && pos == 17 + delivered + flushing + held
    ensures flushing == 0 ==> pos < BlockPos(cfg)
    ensures flushing > 0 ==> pos <= BlockPos(cfg)
    ensures flushing > 0 && delivered >= cfg.toClientCap ==> pos == BlockPos(cfg)
  {
    OverrunIsLeast(cfg, delivered + flushing);
    var f := Overrun(cfg);
    hide Overrun;
    if flushing == 0 {
      WholeValues(pos, f);
    } else if delivered + flushing > f {
      MultiplesApart(f, delivered + flushing);
    }
  }

  lemma WholeValues(pos: nat, f: nat)
    requires f % WRITER_SIZE == 0 && f > 0 && (pos >= 17 ==> 8 * ((pos - 17) / 8) <= f)
    ensures pos < 25 + f
  {
    assert WRITER_SIZE == 8 * 32768;
    var q := f / WRITER_SIZE;
    assert f == 8 * (32768 * q);
  }

  lemma MultiplesApart(x: nat, f: nat)
    requires x % WRITER_SIZE == 0 && f % WRITER_SIZE == 0 && x < f
    ensures x + WRITER_SIZE <= f
  {
    var a, b := x / WRITER_SIZE, f / WRITER_SIZE;
    assert x == WRITER_SIZE * a && f == WRITER_SIZE * b;
  }

  // ---------- calls that do not fit ----------

  /** How far a session gets with a call i that does not fit: no byte of its reply reaches the client. */
  ghost predicate Held(i: nat, s: State) {
    && s.sv.served <= i && s.cl.next <= i
    && (s.cl.next == i ==> Got(s) == [] && s.cl.rbuf == [])
  }

  lemma NotFitting(cfg: Config, c: Call, ahead: nat)
    requires !FitsAhead(cfg, c, ahead)
    ensures c.MultTree? || OversizeHex(c)
    ensures ReplySize(c) > 0 && |Request(c)| > 9
  {
    RequestLength(c);
  }

  /** Inside the held frame the server stops before the rest of the request fits the pipe. */
  lemma HeldUnfetched(cfg: Config, cs: seq<Call>, i: nat, s: State, ahead: nat)
    requires ValidConfig(cfg) && ValidCalls(cs) && i < |cs| && Inv(cfg, cs, s) && Held(i, s)
    requires !FitsAhead(cfg, cs[i], ahead) && ReaderWithin(s, ahead) && s.sv.served == i && Started(s) > i
    ensures Started(s) == i + 1 && |Request(cs[i])| == s.sv.pos + |s.sv.rbuf| + |Unfetched(s)|
    ensures cs[i].MultTree? ==> |Unfetched(s)| > cfg.toServerCap
    ensures cs[i].ToHex? ==> s.sv.pos <= 9 && Outstanding(s) == []
  {
    hide CtrlAt, OutAt, Request, Reply, Stream, Overrun, Unfetched;
    NotFitting(cfg, cs[i], ahead);
    FrameSlice(Requests(cs), i);
    ReaderInFlight(s);
    RequestLength(cs[i]);
    if cs[i].MultTree? {
      if s.sv.pos > 0 {
        BlockedPlace(cfg, cs, s);
      }
    } else {
      HexHeaderSilent(cs[i], s.sv.pos);
    }
  }

  lemma HexHeaderSilent(c: Call, pos: nat)
    requires c.ToHex? && pos <= |Request(c)|
    ensures pos <= 9 ==> OutAt(c, pos) == []
  {
    RequestLength(c);
    assert c.input[..0] == [];
  }

  /** Before the server has reached the held frame, nothing of a reply to its call exists. */
  lemma HeldBefore(cfg: Config, cs: seq<Call>, i: nat, s: State)
    requires i < |cs| && Inv(cfg, cs, s) && s.cl.next == i && s.sv.served < i
    ensures Outstanding(s) == []
  {
    hide CtrlAt, OutAt, Request, Reply, Stream, InputAligned, Outstanding;
    FrameSlice(Replies(cs), s.sv.served);
    OutAtSize(cs[s.sv.served], s.sv.pos);
    StreamPrefix(Replies(cs), s.sv.served + 1, i);
  }

  /** The client of a held session never gets to read a reply byte of call i. */
  lemma HeldCannotFill(cfg: Config, cs: seq<Call>, i: nat, s: State, ahead: nat, n: nat)
    requires ValidConfig(cfg) && ValidCalls(cs) && i < |cs| && Inv(cfg, cs, s) && Held(i, s)
    requires !FitsAhead(cfg, cs[i], ahead) && ReaderWithin(s, ahead) && s.cl.next == i
    ensures !Enabled(cfg, cs, s, FillReply(n))
  {
    hide Aligned, Disciplined, FitsAhead, ReaderWithin, Held;
    if Enabled(cfg, cs, s, FillReply(n)) {
      HeldPlace(i, s);
      if s.sv.served < i {
        HeldBefore(cfg, cs, i, s);
      } else {
        HeldUnfetched(cfg, cs, i, s, ahead);
        ClientIdle(cfg, cs, s);
        NotFitting(cfg, cs[i], ahead);
      }
    }
  }

  lemma HeldPlace(i: nat, s: State)
    requires Held(i, s)
    ensures s.sv.served <= i && s.cl.next <= i
  {
  }

  /** A client that may read has delivered its whole request. */
  lemma ClientIdle(cfg: Config, cs: seq<Call>, s: State)
    requires Inv(cfg, cs, s) && s.cl.phase.Receiving? && s.cl.flushing == []
    ensures Unfetched(s) == s.toServer && |s.toServer| <= cfg.toServerCap
  {
    hide InputAligned, OutputAligned, Disciplined, CtrlAt, OutAt, Request;
  }

  lemma HeldByClientStep(cfg: Config, cs: seq<Call>, i: nat, s: State, step: Step, ahead: nat)
    requires ValidConfig(cfg) && ValidCalls(cs) && i < |cs| && Inv(cfg, cs, s) && Held(i, s)
    requires !FitsAhead(cfg, cs[i], ahead) && ReaderWithin(s, ahead)
    requires Enabled(cfg, cs, s, step) && !step.ReadByte? && !step.ReadHex?
    requires Inv(cfg, cs, Do(cfg, cs, s, step))
    ensures Held(i, Do(cfg, cs, s, step))
  {
    hide InputAligned, OutputAligned, Disciplined, Refines, CtrlAt, OutAt, Request, Put, FitsAhead, ReaderWithin;
    match step
    case FillReply(n) =>
      if s.cl.next == i {
        HeldCannotFill(cfg, cs, i, s, ahead, n);
      }
    case Return => NotFitting(cfg, cs[i], ahead);
    case _ =>
  }

  /** One read cannot finish the held frame. */
  lemma HeldByRead(cfg: Config, cs: seq<Call>, i: nat, s: State, n: nat, fed: Fed, ahead: nat)
    requires ValidConfig(cfg) && ValidCalls(cs) && i < |cs| && Inv(cfg, cs, s) && Held(i, s)
    requires !FitsAhead(cfg, cs[i], ahead) && ReaderWithin(s, ahead)
    requires n <= |s.sv.rbuf| && ReadsFrame(cs, s, n, fed)
    ensures Held(i, s.(sv := Consume(s.sv, n, fed)))
  {
    hide Aligned, Disciplined, FitsAhead, ReaderWithin, CtrlAt, OutAt, Request, Eat, Put;
    var s' := s.(sv := Consume(s.sv, n, fed));
    InFlightOfReader(cfg, cs, s);
    ConsumePlaced(cs, s, n, fed, s');
    if s.sv.served == i {
      HeldUnfetched(cfg, cs, i, s, ahead);
      NotFitting(cfg, cs[i], ahead);
    }
  }

  lemma InFlightOfReader(cfg: Config, cs: seq<Call>, s: State)
    requires ValidCalls(cs) && Inv(cfg, cs, s)
    ensures s.sv.rbuf != [] ==> s.sv.served < Started(s)
  {
    hide Disciplined, CtrlAt, OutAt, Request, InFlight;
    ReaderInFlight(s);
    if s.sv.rbuf != [] {
      NothingQueuedBehind(cs, s);
    }
  }

  lemma HeldByStep(cfg: Config, cs: seq<Call>, i: nat, s: State, step: Step, ahead: nat)
    requires ValidConfig(cfg) && ValidCalls(cs) && i < |cs| && Inv(cfg, cs, s) && Held(i, s)
    requires !FitsAhead(cfg, cs[i], ahead) && ReaderWithin(s, ahead) && Enabled(cfg, cs, s, step)
    requires Inv(cfg, cs, Do(cfg, cs, s, step))
    ensures Held(i, Do(cfg, cs, s, step))
  {
    hide Disciplined, Aligned, Refines, Consume, Eat, EatHex, Held, FitsAhead, ReaderWithin;
    InvPlaced(cfg, cs, s);
    match step
    case ReadByte =>
      ReadByteReadsFrame(cs, s);
      HeldByRead(cfg, cs, i, s, 1, Eat(s.sv.ctrl, s.sv.rbuf[0]), ahead);
    case ReadHex =>
      var n := HexTake(s.sv);
      ReadHexReadsFrame(cs, s, n);
      HeldByRead(cfg, cs, i, s, n, EatHex(s.sv.ctrl.left, s.sv.rbuf[..n]), ahead);
    case _ => HeldByClientStep(cfg, cs, i, s, step, ahead);
  }

  lemma {:induction false} RunHeld(
    cfg: Config, cs: seq<Call>, states: seq<State>, steps: seq<Step>, i: nat, ahead: nat, k: nat)
    requires ValidConfig(cfg) && ValidCalls(cs) && IsRun(cfg, cs, states, steps) && k <= |steps|
    requires FillsWithin(steps, ahead + 1) && i < |cs| && !FitsAhead(cfg, cs[i], ahead)
    ensures Inv(cfg, cs, states[k]) && Held(i, states[k])
    decreases k
  {
    hide Inv, Do, Enabled, FitsAhead;
    RunInv(cfg, cs, states, steps, k);
    if k > 0 {
      hide Held;
      RunHeld(cfg, cs, states, steps, i, ahead, k - 1);
      RunReaderWithin(cfg, cs, states, steps, ahead, k - 1);
      HeldByStep(cfg, cs, i, states[k - 1], steps[k - 1], ahead);
    }
  }

  /**
   With fills of at most ahead + 1 bytes, a call that does not fit with `ahead` bytes read ahead
   never returns: the session does not get past it.
   */
  lemma ReadAheadDecides(
    cfg: Config, cs: seq<Call>, states: seq<State>, steps: seq<Step>, i: nat, ahead: nat, k: nat)
    requires ValidConfig(cfg) && ValidCalls(cs) && IsRun(cfg, cs, states, steps) && k <= |steps|
    requires FillsWithin(steps, ahead + 1) && i < |cs| && !FitsAhead(cfg, cs[i], ahead)
    ensures states[k].cl.next <= i && |states[k].cl.results| <= i
  {
    hide FitsAhead;
    RunHeld(cfg, cs, states, steps, i, ahead, k);
    HeldPlace(i, states[k]);
  }

  /** A call that cannot fit, however much is read ahead, returns on no run at all. */
  lemma OversizeCallsNeverReturn(
    cfg: Config, cs: seq<Call>, states: seq<State>, steps: seq<Step>, i: nat, k: nat)
    requires ValidConfig(cfg) && ValidCalls(cs) && IsRun(cfg, cs, states, steps) && k <= |steps|
    requires i < |cs| && !MayFit(cfg, cs[i])
    ensures states[k].cl.next <= i && |states[k].cl.results| <= i
  {
    AllFillsWithin(cfg, cs, states, steps);
    ReadAheadDecides(cfg, cs, states, steps, i, LargestFill(cfg) - 1, k);
  }
  // ---------- ways to run a session ----------

  /**
   How the server's reader is filled. A lazy one gets one byte at a time. A foresighted one does
   too, but just before the byte at which a tree reply would block it gets a largest fill, once
   the pipe is full or has all the rest of the request.
   */
  datatype Policy = Lazy | Foresighted

  ghost predicate AtBrink(cfg: Config, cs: seq<Call>, s: State) {
    s.sv.served < |cs| && cs[s.sv.served].MultTree? && s.sv.pos == BlockPos(cfg) - 1
  }

  ghost predicate Allowed(cfg: Config, cs: seq<Call>, policy: Policy, s: State, step: Step) {
    step.Fill? ==>
      if policy == Foresighted && AtBrink(cfg, cs, s) then
        && step.n == Min(|s.toServer|, LargestFill(cfg))
        && (|s.toServer| >= cfg.toServerCap || Unfetched(s) == s.toServer)
      else step.n == 1
  }

  ghost predicate Follows(cfg: Config, cs: seq<Call>, policy: Policy, states: seq<State>, steps: seq<Step>)
    requires |states| == |steps| + 1
  {
    forall k :: 0 <= k < |steps| ==> Allowed(cfg, cs, policy, states[k], steps[k])
  }

  lemma OneStepMore(
    cfg: Config, cs: seq<Call>, policy: Policy, states: seq<State>, steps: seq<Step>, step: Step)
    requires IsRun(cfg, cs, states, steps) && Follows(cfg, cs, policy, states, steps)
    requires Enabled(cfg, cs, states[|steps|], step) && Allowed(cfg, cs, policy, states[|steps|], step)
    ensures var states' := states + [Do(cfg, cs, states[|steps|], step)];
      IsRun(cfg, cs, states', steps + [step]) && Follows(cfg, cs, policy, states', steps + [step])
  {
    hide Do, Enabled, Allowed;
  }

  /** Every run by a policy can be continued by it until the policy allows no further step. */
  lemma {:induction false} ContinueByPolicy(
    cfg: Config, cs: seq<Call>, policy: Policy, states: seq<State>, steps: seq<Step>)
    returns (states': seq<State>, steps': seq<Step>)
    requires ValidConfig(cfg) && ValidCalls(cs) && IsRun(cfg, cs, states, steps)
    requires Follows(cfg, cs, policy, states, steps)
    ensures IsRun(cfg, cs, states', steps') && Follows(cfg, cs, policy, states', steps')
    ensures forall step :: Enabled(cfg, cs, states'[|steps'|], step) ==>
              !Allowed(cfg, cs, policy, states'[|steps'|], step)
    decreases Bound(cs) - |steps|
  {
    var last := states[|steps|];
    hide Do, Bound, Enabled, Allowed;
    if step :| Enabled(cfg, cs, last, step) && Allowed(cfg, cs, policy, last, step) {
      var states2, steps2 := states + [Do(cfg, cs, last, step)], steps + [step];
      OneStepMore(cfg, cs, policy, states, steps, step);
      hide IsRun, Follows;
      RunsAreBounded(cfg, cs, states2, steps2);
      states', steps' := ContinueByPolicy(cfg, cs, policy, states2, steps2);
    } else {
      states', steps' := states, steps;
    }
  }

  /** Where a lazy run cannot go on, no run can. */
  lemma LazyIsStuck(cfg: Config, cs: seq<Call>, s: State)
    requires forall step :: Enabled(cfg, cs, s, step) ==> !Allowed(cfg, cs, Lazy, s, step)
    ensures Stuck(cfg, cs, s)
  {
    forall step ensures !Enabled(cfg, cs, s, step) {
      if Enabled(cfg, cs, s, step) && step.Fill? {
        assert Enabled(cfg, cs, s, Fill(1)) && Allowed(cfg, cs, Lazy, s, Fill(1));
      }
    }
  }

  lemma LazyFillsWithin(cfg: Config, cs: seq<Call>, states: seq<State>, steps: seq<Step>)
    requires |states| == |steps| + 1 && Follows(cfg, cs, Lazy, states, steps)
    ensures FillsWithin(steps, 1)
  {
  }

  // ---------- the first exact condition: what every run achieves ----------

  /** Every run that cannot go on has returned the API's results for every call. */
  ghost predicate AlwaysCompletes(cfg: Config, cs: seq<Call>) {
    forall states, steps :: IsRun(cfg, cs, states, steps) && Stuck(cfg, cs, states[|steps|])
                            ==> Finished(cs, states[|steps|])
  }

  /** Some run has. */
  ghost predicate CanComplete(cfg: Config, cs: seq<Call>) {
    exists states, steps :: IsRun(cfg, cs, states, steps) && Finished(cs, states[|steps|])
  }

  /**
   All runs that cannot go on have returned the API's results for every call, if and only if
   every call fits with nothing read ahead.
   */
  lemma CompletesIffAllFit(cfg: Config, cs: seq<Call>)
    requires ValidConfig(cfg) && ValidCalls(cs)
    ensures AllFit(cfg, cs) <==> AlwaysCompletes(cfg, cs)
  {
    hide Fits, Do, Enabled, Stuck, Allowed;
    if AllFit(cfg, cs) {
      forall states, steps | IsRun(cfg, cs, states, steps) && Stuck(cfg, cs, states[|steps|])
        ensures Finished(cs, states[|steps|])
      {
        FittingCallsComplete(cfg, cs, states, steps);
      }
    } else {
      var i :| 0 <= i < |cs| && !Fits(cfg, cs[i]);
      var states, steps := ContinueByPolicy(cfg, cs, Lazy, [Init()], []);
      LazyIsStuck(cfg, cs, states[|steps|]);
      LazyFillsWithin(cfg, cs, states, steps);
      FitsIsAheadByNone(cfg, cs[i]);
      ReadAheadDecides(cfg, cs, states, steps, i, 0, |steps|);
      assert !Finished(cs, states[|steps|]);
    }
  }

  lemma FitsIsAheadByNone(cfg: Config, c: Call)
    ensures Fits(cfg, c) == FitsAhead(cfg, c, 0)
  {
  }

  // ---------- the second exact condition: what some run achieves ----------

  /**
   What foresighted filling keeps: one byte at a time up to the brink; when the reply blocks, the
   reader is as full as can be or the pipe can take all the rest.
   */
  ghost predicate Stocked(cfg: Config, cs: seq<Call>, s: State) {
    var tree := s.sv.served < |cs| && cs[s.sv.served].MultTree?;
    && (!tree || s.sv.pos < BlockPos(cfg) - 1 ==> |s.sv.rbuf| <= 1)
    && (tree && s.sv.pos == BlockPos(cfg) - 1 ==>
          s.sv.rbuf == [] || |s.sv.rbuf| >= LargestFill(cfg) || |Unfetched(s)| <= cfg.toServerCap)
    && (tree && s.sv.pos == BlockPos(cfg) ==>
          |s.sv.rbuf| >= LargestFill(cfg) - 1 || |Unfetched(s)| <= cfg.toServerCap)
  }

  lemma StockedByFill(cfg: Config, cs: seq<Call>, s: State, n: nat)
    requires ValidConfig(cfg) && Inv(cfg, cs, s) && Stocked(cfg, cs, s) && Enabled(cfg, cs, s, Fill(n))
    requires Allowed(cfg, cs, Foresighted, s, Fill(n))
    ensures Stocked(cfg, cs, Do(cfg, cs, s, Fill(n)))
  {
    hide Aligned, Disciplined, Request, Overrun;
    PipeWithin(cfg, cs, s);
    assert |Unfetched(Do(cfg, cs, s, Fill(n)))| == |Unfetched(s)| - n;
  }

  /** While the server is inside a tree frame no further call is started. */
  lemma NoStartInTree(cfg: Config, cs: seq<Call>, s: State)
    requires ValidCalls(cs) && Inv(cfg, cs, s) && s.cl.phase.Ready? && s.sv.pos > 0
    ensures s.sv.served < |cs| && !cs[s.sv.served].MultTree?
  {
    hide Disciplined, CtrlAt, OutAt, Request, InputAligned, OutputAligned;
    Lagging(cs, s, s.sv.served);
  }

  lemma UnfetchedLength(s: State)
    ensures |Unfetched(s)| == |s.toServer| + |s.cl.flushing| + |s.cl.wbuf| + |Todo(s)|
  {
  }

  lemma StockedByOthers(cfg: Config, cs: seq<Call>, s: State, step: Step)
    requires ValidConfig(cfg) && ValidCalls(cs) && Inv(cfg, cs, s) && Stocked(cfg, cs, s)
    requires Enabled(cfg, cs, s, step) && !step.ReadByte? && !step.ReadHex? && !step.Fill?
    ensures Stocked(cfg, cs, Do(cfg, cs, s, step))
  {
    hide Aligned, Disciplined, Request, Overrun, Put, Unfetched, Finish, ReplySize;
    var s' := Do(cfg, cs, s, step);
    UnfetchedLength(s);
    UnfetchedLength(s');
    match step
    case Start =>
      if s.sv.pos > 0 {
        NoStartInTree(cfg, cs, s);
      }
    case Write(n) =>
      PutKeeps(s.cl.wbuf, s.cl.phase.todo[..n]);
      var b := Put(s.cl.wbuf, s.cl.phase.todo[..n]);
      assert |b.through| + |b.wbuf| == |b.through + b.wbuf| == |s.cl.wbuf| + n;
    case _ =>
  }

  lemma StockedByRead(cfg: Config, cs: seq<Call>, s: State, n: nat, fed: Fed)
    requires ValidConfig(cfg) && ValidCalls(cs) && Inv(cfg, cs, s) && Stocked(cfg, cs, s)
    requires 1 <= n <= |s.sv.rbuf| && ReadsFrame(cs, s, n, fed)
    ensures Stocked(cfg, cs, s.(sv := Consume(s.sv, n, fed)))
  {
    hide Aligned, Disciplined, Request, CtrlAt, OutAt, Overrun, Put, Eat, Unfetched;
    var s' := s.(sv := Consume(s.sv, n, fed));
    ConsumePlaced(cs, s, n, fed, s');
    UnfetchedLength(s);
    UnfetchedLength(s');
    ReaderInFlight(s);
    NothingQueuedBehind(cs, s);
    if cs[s.sv.served].MultTree? && s'.sv.served > s.sv.served {
      assert |s.sv.rbuf| <= n;
    }
  }

  lemma StockedByStep(cfg: Config, cs: seq<Call>, s: State, step: Step)
    requires ValidConfig(cfg) && ValidCalls(cs) && Inv(cfg, cs, s) && Stocked(cfg, cs, s)
    requires Enabled(cfg, cs, s, step) && Allowed(cfg, cs, Foresighted, s, step)
    ensures Stocked(cfg, cs, Do(cfg, cs, s, step))
  {
    hide Disciplined, Aligned, Refines, Consume, Eat, EatHex, Stocked, Allowed;
    match step
    case Fill(n) => StockedByFill(cfg, cs, s, n);
    case ReadByte =>
      ReadByteReadsFrame(cs, s);
      StockedByRead(cfg, cs, s, 1, Eat(s.sv.ctrl, s.sv.rbuf[0]));
    case ReadHex =>
      var n := HexTake(s.sv);
      ReadHexReadsFrame(cs, s, n);
      StockedByRead(cfg, cs, s, n, EatHex(s.sv.ctrl.left, s.sv.rbuf[..n]));
    case _ => StockedByOthers(cfg, cs, s, step);
  }

  lemma {:induction false} RunStocked(cfg: Config, cs: seq<Call>, states: seq<State>, steps: seq<Step>, k: nat)
    requires ValidConfig(cfg) && ValidCalls(cs) && IsRun(cfg, cs, states, steps) && k <= |steps|
    requires Follows(cfg, cs, Foresighted, states, steps)
    ensures Inv(cfg, cs, states[k]) && Stocked(cfg, cs, states[k])
  {
    hide Inv, Do, Enabled, Allowed;
    RunInv(cfg, cs, states, steps, k);
    if k > 0 {
      hide Stocked;
      RunStocked(cfg, cs, states, steps, k - 1);
      StockedByStep(cfg, cs, states[k - 1], steps[k - 1]);
    }
  }

  /** Well stocked, the two sides are never both blocked writing. */
  lemma StockedNeverBothBlocked(cfg: Config, cs: seq<Call>, s: State)
    requires ValidConfig(cfg) && ValidCalls(cs) && AllMayFit(cfg, cs) && Inv(cfg, cs, s) && Stocked(cfg, cs, s)
    ensures !(ClientBlocked(cfg, s) && ServerBlocked(cfg, s))
  {
    hide Aligned, Disciplined, AllMayFit, Stocked, Request, CtrlAt, OutAt;
    if ClientBlocked(cfg, s) && ServerBlocked(cfg, s) {
      ClientWriting(cfg, cs, s);
      UnfetchedLength(s);
      if s.sv.pos == 0 {
        BlockedAfterFrame(cfg, cs, s);
      } else {
        SpilledOverruns(cfg, cs, s);
        BlockedPlace(cfg, cs, s);
        StockedAtBlock(cfg, cs, s);
      }
    }
  }

  lemma ClientWriting(cfg: Config, cs: seq<Call>, s: State)
    requires Inv(cfg, cs, s) && s.cl.flushing != []
    ensures Got(s) == [] && s.cl.rbuf == []
  {
    hide InputAligned, OutputAligned, Disciplined, CtrlAt, OutAt, Request;
  }

  lemma BlockedAfterFrame(cfg: Config, cs: seq<Call>, s: State)
    requires ValidCalls(cs) && Inv(cfg, cs, s) && s.sv.flushing != [] && s.sv.pos == 0
    ensures Unfetched(s) == []
  {
    hide InputAligned, OutputAligned, Disciplined, CtrlAt, OutAt, Request;
    ReplyComplete(cs, s);
    ReaderInFlight(s);
  }

  /** At the block, what has not been fetched fits the pipe. */
  lemma StockedAtBlock(cfg: Config, cs: seq<Call>, s: State)
    requires ValidConfig(cfg) && ValidCalls(cs) && AllMayFit(cfg, cs) && Inv(cfg, cs, s) && Stocked(cfg, cs, s)
    requires s.sv.served == s.cl.next < |cs| && cs[s.cl.next].MultTree? && s.sv.pos == BlockPos(cfg)
    requires s.cl.flushing != []
    ensures |Unfetched(s)| <= cfg.toServerCap
  {
    hide Aligned, Disciplined, Request, CtrlAt, OutAt, Overrun, Unfetched, InFlight;
    ReaderInFlight(s);
    UnfetchedLength(s);
    NothingQueuedBehind(cs, s);
    RequestLength(cs[s.cl.next]);
  }

  lemma MayFitHex(cfg: Config, cs: seq<Call>)
    requires ValidConfig(cfg) && AllMayFit(cfg, cs)
    ensures NoOversizeHex(cs)
  {
  }

  /** Foresighted filling can always go on until everything is finished. */
  lemma ForesightCanStep(cfg: Config, cs: seq<Call>, s: State) returns (step: Step)
    requires ValidConfig(cfg) && ValidCalls(cs) && AllMayFit(cfg, cs) && Inv(cfg, cs, s) && Stocked(cfg, cs, s)
    requires !Finished(cs, s)
    ensures Enabled(cfg, cs, s, step) && Allowed(cfg, cs, Foresighted, s, step)
  {
    hide Aligned, Disciplined, AllMayFit, Finished, Stocked, Request;
    MayFitHex(cfg, cs);
    if s.sv.flushing == [] && s.sv.rbuf != [] {
      step := ServerCanRead(cfg, cs, s);
    } else if s.sv.flushing == [] && s.toServer != [] {
      ServerCanTake(cs, s);
      if !AtBrink(cfg, cs, s) {
        step := Fill(1);
      } else if |s.toServer| >= cfg.toServerCap || Unfetched(s) == s.toServer {
        step := Fill(Min(|s.toServer|, LargestFill(cfg)));
      } else {
        step := ClientCanPush(cfg, cs, s);
      }
    } else {
      StockedNeverBothBlocked(cfg, cs, s);
      step := OtherStep(cfg, cs, s);
    }
  }

  /** A client with more to send can go on while the pipe has room. */
  lemma ClientCanPush(cfg: Config, cs: seq<Call>, s: State) returns (step: Step)
    requires Inv(cfg, cs, s) && |s.toServer| < cfg.toServerCap && Unfetched(s) != s.toServer
    ensures Enabled(cfg, cs, s, step) && !step.Fill?
  {
    hide InputAligned, OutputAligned, Disciplined, CtrlAt, OutAt, Request;
    if s.cl.flushing != [] {
      step := PushToServer(1);
    } else {
      step := if s.cl.phase.todo == [] then EndRequest else Write(1);
    }
  }

  /**
   Some run returns the API's results for every call, if and only if every call fits with as much
   as possible read ahead.
   */
  lemma CanCompleteIffAllMayFit(cfg: Config, cs: seq<Call>)
    requires ValidConfig(cfg) && ValidCalls(cs)
    ensures AllMayFit(cfg, cs) <==> CanComplete(cfg, cs)
  {
    hide MayFit, Do, Enabled, Allowed, Stocked, Inv;
    if AllMayFit(cfg, cs) {
      var states, steps := ContinueByPolicy(cfg, cs, Foresighted, [Init()], []);
      RunStocked(cfg, cs, states, steps, |steps|);
      if !Finished(cs, states[|steps|]) {
        var step := ForesightCanStep(cfg, cs, states[|steps|]);
      }
      assert IsRun(cfg, cs, states, steps) && Finished(cs, states[|steps|]);
    } else if states, steps :| IsRun(cfg, cs, states, steps) && Finished(cs, states[|steps|]) {
      var i :| 0 <= i < |cs| && !MayFit(cfg, cs[i]);
      OversizeCallsNeverReturn(cfg, cs, states, steps, i, |steps|);
    }
  }

  // ---------- the limits in numbers ----------

  /** One tree call over pipes of k1 and k2 bytes: for which node counts all runs and some runs return. */
  lemma TreeCallLimits(k1: nat, k2: nat, mult: int64, t: Tree)
    requires k1 >= 1 && k2 >= 1 && Total(t) < TWO63
    ensures var least := 262144 * (k2 / 262144 + 1) + 8 + k1;
      AlwaysCompletes(Config(k1, k2), [MultTree(mult, t)]) <==> 8 * Total(t) <= least
    ensures var most := 262144 * (k2 / 262144 + 1) + 8 + k1 + (if k1 < 131072 then k1 else 131072) - 1;
      CanComplete(Config(k1, k2), [MultTree(mult, t)]) <==> 8 * Total(t) <= most
  {
    hide AlwaysCompletes, CanComplete, Total;
    CompletesIffAllFit(Config(k1, k2), [MultTree(mult, t)]);
    CanCompleteIffAllMayFit(Config(k1, k2), [MultTree(mult, t)]);
    OneCall(Config(k1, k2), MultTree(mult, t));
  }

  lemma OneCall(cfg: Config, c: Call)
    requires ValidConfig(cfg)
    ensures AllFit(cfg, [c]) <==> Fits(cfg, c)
    ensures AllMayFit(cfg, [c]) <==> MayFit(cfg, c)
  {
    hide Fits, MayFit;
    assert [c][0] == c;
  }

  /** Over pipes of 64 KiB: up to 40961 nodes always, up to 49152 with enough read ahead, beyond that never. */
  lemma TreeCallOver64KiB(mult: int64, t: Tree)
    requires Total(t) < TWO63
    ensures AlwaysCompletes(Config(65536, 65536), [MultTree(mult, t)]) <==> Total(t) <= 40961
    ensures CanComplete(Config(65536, 65536), [MultTree(mult, t)]) <==> Total(t) <= 49152
  {
    hide AlwaysCompletes, CanComplete, Total;
    TreeCallLimits(65536, 65536, mult, t);
  }

  /** One ToHex call: what some run can do every run does, up to 131071 bytes. */
  lemma HexCallLimit(cfg: Config, input: seq<byte>)
    requires ValidConfig(cfg) && |input| < TWO63
    ensures AlwaysCompletes(cfg, [ToHex(input)]) <==> |input| < 131072
    ensures CanComplete(cfg, [ToHex(input)]) <==> |input| < 131072
  {
    hide AlwaysCompletes, CanComplete;
    CompletesIffAllFit(cfg, [ToHex(input)]);
    CanCompleteIffAllMayFit(cfg, [ToHex(input)]);
    OneCall(cfg, ToHex(input));
  }
}
