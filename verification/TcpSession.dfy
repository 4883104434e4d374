/**
 One TCP client and one server connection as a transition system over six byte buffers: the
 client's bufio.Writer, the pipe to the server, the server's bufio.Reader and bufio.Writer, the
 pipe back and the client's bufio.Reader. Every interleaving and every chunking is a run.
 */
module TcpSession {
  import opened Int64
  import opened ByteIO
  import opened Trees
  import opened Frames
  import opened Streams
  import Hex

  /** How many bytes each pipe of the connection holds, readers apart; a write blocks while it is full. */
  datatype Config = Config(toServerCap: nat, toClientCap: nat)

  ghost predicate ValidConfig(cfg: Config) { cfg.toServerCap >= 1 && cfg.toClientCap >= 1 }

  ghost predicate ValidCalls(cs: seq<Call>) { forall i :: 0 <= i < |cs| ==> ValidCall(cs[i]) }

  // ---------- state ----------

  datatype Phase =
    | Ready                          // between calls
    | Sending(todo: seq<byte>)       // request bytes not yet handed to the writer
    | Receiving(got: seq<byte>)      // request flushed, reading the reply

  /**
   `wbuf` and `rbuf` are what the bufio.Writer and the bufio.Reader hold; `flushing` is what a
   conn.Write in progress still has to deliver, and it blocks its side.
   */
  datatype Client = Client(
    next: nat, phase: Phase, wbuf: seq<byte>, flushing: seq<byte>, rbuf: seq<byte>, results: seq<Result>)

  /** `served` counts completed commands, `pos` the bytes read of the current one. */
  datatype Server = Server(
    ctrl: Ctrl, rbuf: seq<byte>, wbuf: seq<byte>, flushing: seq<byte>, served: nat, pos: nat)

  datatype State = State(cl: Client, sv: Server, toServer: seq<byte>, toClient: seq<byte>)

  function Init(): State {
    State(Client(0, Ready, [], [], [], []), Server(Head, [], [], [], 0, 0), [], [])
  }

  // ---------- steps ----------

  datatype Step =
    | Start                  // the client begins its next call
    | Write(n: nat)          // the client writes the next n request bytes to its writer
    | EndRequest             // the client's writer.Flush
    | PushToServer(n: nat)   // the client's conn.Write delivers n bytes
    | FillReply(n: nat)      // the client's reader, being empty, takes n bytes off its pipe
    | Receive(n: nat)        // the client takes n reply bytes out of its reader
    | Return                 // the reply is complete
    | Fill(n: nat)           // the server's reader, being empty, takes n bytes off its pipe
    | ReadByte               // the server reads one byte of a command or an int64
    | ReadHex                // the server's hex loop reads what there is and its slice can take
    | PushToClient(n: nat)   // the server's conn.Write delivers n bytes

  predicate Enabled(cfg: Config, cs: seq<Call>, s: State, step: Step) {
    var cl, sv := s.cl, s.sv;
    match step
    case Start => cl.phase.Ready? && cl.next < |cs|
    case Write(n) => cl.phase.Sending? && cl.flushing == [] && 1 <= n <= |cl.phase.todo|
    case EndRequest => cl.phase.Sending? && cl.flushing == [] && cl.phase.todo == []
    case PushToServer(n) => 1 <= n <= |cl.flushing| && |s.toServer| + n <= cfg.toServerCap
    case FillReply(n) =>
      && cl.phase.Receiving? && cl.flushing == [] && cl.next < |cs| && |cl.phase.got| < ReplySize(cs[cl.next])
      && cl.rbuf == [] && 1 <= n <= Min(|s.toClient|, CLIENT_READER_SIZE)
    case Receive(n) =>
      && cl.phase.Receiving? && cl.flushing == [] && cl.next < |cs|
      && 1 <= n <= |cl.rbuf| && |cl.phase.got| + n <= ReplySize(cs[cl.next])
    case Return =>
      && cl.phase.Receiving? && cl.flushing == [] && cl.next < |cs|
      && |cl.phase.got| == ReplySize(cs[cl.next])
    case Fill(n) =>
      && sv.flushing == [] && sv.rbuf == [] && (sv.ctrl.HexData? ==> HexSlice(sv.ctrl.left) > 0)
      && 1 <= n <= Min(|s.toServer|, SERVER_READER_SIZE)
    case ReadByte => sv.flushing == [] && !sv.ctrl.HexData? && sv.rbuf != []
    case ReadHex => sv.flushing == [] && sv.ctrl.HexData? && sv.rbuf != [] && HexSlice(sv.ctrl.left) > 0
    case PushToClient(n) => 1 <= n <= |sv.flushing| && |s.toClient| + n <= cfg.toClientCap
  }

  /** How many bytes the hex loop's next read returns. */
  function HexTake(sv: Server): nat
    requires sv.ctrl.HexData?
  {
    Min(|sv.rbuf|, HexSlice(sv.ctrl.left))
  }

  /**
   The server has read n bytes with the given effect; after a whole command it flushes. Hex text
   is handed over in one piece: it never overflows the writer, so its split does not matter.
   */
  function Consume(sv: Server, n: nat, fed: Fed): Server
    requires n <= |sv.rbuf|
  {
    var b := Put(sv.wbuf, fed.out);
    if fed.ctrl == Head then Server(Head, sv.rbuf[n..], [], b.through + b.wbuf, sv.served + 1, 0)
    else Server(fed.ctrl, sv.rbuf[n..], b.wbuf, b.through, sv.served, sv.pos + n)
  }

  function Do(cfg: Config, cs: seq<Call>, s: State, step: Step): State
    requires Enabled(cfg, cs, s, step)
  {
    var cl, sv := s.cl, s.sv;
    match step
    case Start => s.(cl := cl.(phase := Sending(Request(cs[cl.next]))))
    case Write(n) =>
      var b := Put(cl.wbuf, cl.phase.todo[..n]);
      s.(cl := cl.(phase := Sending(cl.phase.todo[n..]), wbuf := b.wbuf, flushing := b.through))
    case EndRequest => s.(cl := cl.(phase := Receiving([]), wbuf := [], flushing := cl.wbuf))
    case PushToServer(n) =>
      s.(cl := cl.(flushing := cl.flushing[n..]), toServer := s.toServer + cl.flushing[..n])
    case FillReply(n) => s.(cl := cl.(rbuf := s.toClient[..n]), toClient := s.toClient[n..])
    case Receive(n) => s.(cl := cl.(phase := Receiving(cl.phase.got + cl.rbuf[..n]), rbuf := cl.rbuf[n..]))
    case Return =>
      s.(cl := cl.(next := cl.next + 1, phase := Ready,
                   results := cl.results + [Finish(cs[cl.next], cl.phase.got)]))
    case Fill(n) => s.(sv := sv.(rbuf := s.toServer[..n]), toServer := s.toServer[n..])
    case ReadByte => s.(sv := Consume(sv, 1, Eat(sv.ctrl, sv.rbuf[0])))
    case ReadHex => s.(sv := Consume(sv, HexTake(sv), EatHex(sv.ctrl.left, sv.rbuf[..HexTake(sv)])))
    case PushToClient(n) =>
      s.(sv := sv.(flushing := sv.flushing[n..]), toClient := s.toClient + sv.flushing[..n])
  }

  // ---------- what every reachable state satisfies ----------

  ghost function Requests(cs: seq<Call>): (fs: seq<seq<byte>>)
    ensures |fs| == |cs|
    ensures forall i :: 0 <= i < |cs| ==> fs[i] == Request(cs[i])
  {
    seq(|cs|, i requires 0 <= i < |cs| => Request(cs[i]))
  }

  ghost function Replies(cs: seq<Call>): (fs: seq<seq<byte>>)
    ensures |fs| == |cs|
    ensures forall i :: 0 <= i < |cs| ==> fs[i] == Reply(cs[i])
  {
    seq(|cs|, i requires 0 <= i < |cs| => Reply(cs[i]))
  }

  ghost function Results(cs: seq<Call>): (rs: seq<Result>)
    ensures |rs| == |cs|
    ensures forall i :: 0 <= i < |cs| ==> rs[i] == Api(cs[i])
  {
    seq(|cs|, i requires 0 <= i < |cs| => Api(cs[i]))
  }

  /** Calls whose request the client has begun to write. */
  ghost function Started(s: State): nat { s.cl.next + if s.cl.phase.Ready? then 0 else 1 }

  ghost function Todo(s: State): seq<byte> { if s.cl.phase.Sending? then s.cl.phase.todo else [] }

  ghost function Got(s: State): seq<byte> { if s.cl.phase.Receiving? then s.cl.phase.got else [] }

  /** Request bytes the server has not read, oldest first. */
  ghost function InFlight(s: State): seq<byte> { s.sv.rbuf + Unfetched(s) }

  /** Those of them that have not reached the server's reader. */
  ghost function Unfetched(s: State): seq<byte> { s.toServer + (s.cl.flushing + (s.cl.wbuf + Todo(s))) }

  /** Reply bytes the client has not read, oldest first. */
  ghost function Outstanding(s: State): seq<byte> { s.cl.rbuf + (s.toClient + (s.sv.flushing + s.sv.wbuf)) }

  /** The server stands inside a request that has been started. */
  ghost predicate Placed(cs: seq<Call>, s: State) {
    && s.sv.served <= Started(s) <= |cs|
    && (s.sv.served < |cs| ==> s.sv.pos < |Request(cs[s.sv.served])|)
    && (s.sv.served == Started(s) ==> s.sv.pos == 0)
  }

  /** The part of the current reply already handed to the server's writer. */
  ghost function Partial(cs: seq<Call>, s: State): seq<byte>
    requires Placed(cs, s)
  {
    if s.sv.served < |cs| then OutAt(cs[s.sv.served], s.sv.pos) else []
  }

  ghost function CtrlOf(cs: seq<Call>, s: State): Ctrl
    requires Placed(cs, s)
  {
    if s.sv.served < |cs| then CtrlAt(cs[s.sv.served], s.sv.pos) else Head
  }

  /** Positions in the stream of all requests and in the stream of all replies. */
  ghost function ReadPos(cs: seq<Call>, s: State): nat
    requires Placed(cs, s)
  {
    At(Requests(cs), s.sv.served) + s.sv.pos
  }

  ghost function WrittenPos(cs: seq<Call>, s: State): nat
    requires Placed(cs, s)
  {
    At(Replies(cs), s.sv.served) + |Partial(cs, s)|
  }

  ghost function ReceivedPos(cs: seq<Call>, s: State): nat
    requires s.cl.next <= |cs|
  {
    At(Replies(cs), s.cl.next) + |Got(s)|
  }

  /**
   A client writes only while sending, and reads no further than its reply: its reader is empty
   whenever it writes or is between calls.
   */
  ghost predicate ClientFlow(cs: seq<Call>, s: State) {
    && (s.cl.phase.Ready? ==> s.cl.flushing == [])
    && (!s.cl.phase.Sending? ==> s.cl.wbuf == [])
    && (s.cl.phase.Receiving? ==> s.cl.next < |cs| && |Got(s)| <= ReplySize(cs[s.cl.next]))
    && (!s.cl.phase.Receiving? || s.cl.flushing != [] ==> Got(s) == [] && s.cl.rbuf == [])
  }

  /** What the server has still to read is the unread slice of the stream of all requests. */
  ghost predicate InputAligned(cs: seq<Call>, s: State)
    requires Placed(cs, s)
  {
    && ReadPos(cs, s) <= At(Requests(cs), Started(s)) <= |All(Requests(cs))|
    && InFlight(s) == All(Requests(cs))[ReadPos(cs, s)..At(Requests(cs), Started(s))]
  }

  /** What the client has read and has still to read are slices of the stream of all replies. */
  ghost predicate OutputAligned(cs: seq<Call>, s: State)
    requires Placed(cs, s)
  {
    && ReceivedPos(cs, s) <= WrittenPos(cs, s) <= |All(Replies(cs))|
    && Got(s) == All(Replies(cs))[At(Replies(cs), s.cl.next)..ReceivedPos(cs, s)]
    && Outstanding(s) == All(Replies(cs))[ReceivedPos(cs, s)..WrittenPos(cs, s)]
  }

  ghost predicate Aligned(cs: seq<Call>, s: State) {
    && Placed(cs, s)
    && s.sv.ctrl == CtrlOf(cs, s)
    && ClientFlow(cs, s)
    && InputAligned(cs, s)
    && OutputAligned(cs, s)
  }

  /**
   What the writer holds inside a frame: it has spilled whole buffers, and only of tree replies.
   A spill happens at the last byte of a value, and nothing is read until it is delivered.
   */
  ghost predicate Disciplined(cs: seq<Call>, s: State)
    requires Placed(cs, s)
  {
    && (s.sv.pos == 0 ==> s.sv.wbuf == [])
    && (s.sv.pos > 0 ==>
          var spilled := |Partial(cs, s)| - |s.sv.wbuf|;
          && spilled >= 0
          && spilled % WRITER_SIZE == 0
          && (spilled > 0 ==> |s.sv.wbuf| >= 8)
          && (!cs[s.sv.served].MultTree? ==> spilled == 0)
          && (s.sv.flushing != [] ==>
                |s.sv.wbuf| == 8 && |s.sv.flushing| <= WRITER_SIZE && s.sv.pos == 17 + |Partial(cs, s)|)
          && (OversizeHex(cs[s.sv.served]) ==> s.sv.pos <= 9))
  }

  /** Writers and readers never hold more than their size. */
  ghost predicate Bounded(s: State) {
    && |s.cl.wbuf| <= WRITER_SIZE && |s.sv.wbuf| <= WRITER_SIZE
    && |s.cl.rbuf| <= CLIENT_READER_SIZE && |s.sv.rbuf| <= SERVER_READER_SIZE
  }

  /** The session refines the plain API: so far it has returned the API's results, in order. */
  ghost predicate Refines(cs: seq<Call>, s: State) {
    s.cl.next <= |cs| && s.cl.results == Results(cs)[..s.cl.next]
  }

  ghost predicate Inv(cfg: Config, cs: seq<Call>, s: State) {
    && Aligned(cs, s)
    && Bounded(s)
    && Disciplined(cs, s)
    && Refines(cs, s)
    && |s.toServer| <= cfg.toServerCap
    && |s.toClient| <= cfg.toClientCap
  }

  // ---------- runs ----------

  ghost predicate IsRun(cfg: Config, cs: seq<Call>, states: seq<State>, steps: seq<Step>) {
    && |states| == |steps| + 1
    && states[0] == Init()
    && forall i :: 0 <= i < |steps| ==>
         Enabled(cfg, cs, states[i], steps[i]) && states[i + 1] == Do(cfg, cs, states[i], steps[i])
  }

  ghost predicate Stuck(cfg: Config, cs: seq<Call>, s: State) {
    forall step :: !Enabled(cfg, cs, s, step)
  }

  /** Every call has returned, every frame is served and every buffer is empty. */
  ghost predicate Finished(cs: seq<Call>, s: State) {
    && s == State(Client(|cs|, Ready, [], [], [], Results(cs)), Server(Head, [], [], [], |cs|, 0), [], [])
  }
}
