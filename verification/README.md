# gorpcbench: a verified model of the binary RPC protocol and its reused trees

gorpcbench compares RPC systems by sending the same calls (Nop, Add, MultTreeValues, ToHex) through
each of them. This project models the two parts of it that are hand-written and delicate.

**The binary tree protocol.** A tree travels as its bare pre-order int64 values; the shape is not
sent. The server multiplies the values as they pass and never rebuilds the tree; the client reads
the products back into the tree it sent. `Int64`, `Hex` and `Trees` hold the values, `ByteIO` short
models of Go's readers and `bufio.Writer`, `BinUtils` the codec and the streaming server, `Frames`
the frames and the command loop as an automaton over bytes, `Automaton` that automaton over whole
inputs, `Chunks` and `Pipelining` the loop over input that arrives in chunks, `TcpServer`,
`TcpClient` and `WebSocket` the two ends as methods, and `TcpSession`, `TcpSafety`, `TcpTheorems`,
`TcpLiveness` and `TcpBlocking` one client and one connection as a transition system with six byte
buffers (both pipes, both bufio.Writers, both bufio.Readers), in which every interleaving and every
chunking is a run.

**Reused trees.** Every representation keeps old children in slice capacity and shows them again
later. `TreeNode` (the harness's own trees), `Grpc` (slices of pointers) and `Capnp` (adapters
mirroring a message) are classes whose ghost state says what is visible and who owns what is hidden.
`GrpcConvert`, `Rng`, `Harness`, `BenchRunner` and `ParallelBench` cover the conversions, the random
generator, the test trees, the harness's own checks and the parallel run.

## Main results

- **Refinement.** On every run of a TCP session, with pipes of any capacity, the results returned
  are those of the plain API, in order (`TcpTheorems.SessionRefinesApi`); the server never decodes
  across a frame boundary, and the only requests left behind it are zero-length ToHex frames
  (`TcpTheorems.ServerStaysInFrame`).
- **Exactly when calls complete.** The client reads no reply before its whole request is flushed, so
  with a long enough reply client and server both block writing; the documentation does not mention
  this limit. Let W and R be the sizes of the server's writer and reader, K1 and K2 what the pipes
  alone hold towards the server and the client, and F = W*(K2/W + 1). Hex input must be below
  `MaxHexEncodeSize`, and for trees of N nodes all calls of a session return
  - on every run iff always `8*N <= F + 8 + K1` (`TcpBlocking.CompletesIffAllFit`),
  - on some run iff always `8*N <= F + 8 + K1 + min(R, K1) - 1` (`TcpBlocking.CanCompleteIffAllMayFit`);
    a call beyond that returns on none (`TcpBlocking.OversizeCallsNeverReturn`).

  In between it depends on how much of the request the server's reader holds when the reply first
  blocks (`TcpBlocking.ReadAheadDecides`). The client's reader does not enter: it is empty whenever
  the client writes. Runs are bounded, so every session comes to a stop. The fixed test trees are well
  inside the first limit (`Harness.FixedTreesFit`). With pipes of 64 KiB the limits are 40961 and 49152
  nodes (`TcpBlocking.TreeCallOver64KiB`), and the largest random test tree has 87381
  (`Harness.LargestRandomTree`).
- **The hex loop's slice.** `readHexBuf[min(len(readHexBuf), int(size)):]` slices *from* the
  minimum. The loop can end exactly when the count is below the buffer size and enough bytes come
  (`Chunks.HexLoopEndsIff`), and it can take bytes behind its data exactly when there are any
  (`Chunks.HexLoopOverrunsIff`): a Nop sent right behind a ToHex may be answered or encoded
  (`Pipelining.PipelinedNopIsMisserved`). What a connection answers is independent of how its input
  arrives if and only if nothing is queued behind hex data that the server can read
  (`Pipelining.AnswersDependOnChunksIff`). Clients never queue anything there.
- **Dirty trees are fresh copies.** Whatever earlier calls left behind, a refilled tree shows the
  source exactly: `TreeNode.CopyTree`, `Grpc.CopyTree`, `Capnp.CopyTree`, and end to end
  `TcpClient.TcpClient.MultTreeValues`, `Grpc.GrpcClient.MultTreeValues` and
  `Capnp.ClientLevel0.MultTreeValues`, whose contracts restore their own preconditions and so hold
  over any sequence of calls.

## Model

| member | source | states |
|---|---|---|
| Int64.Wrap | internal/binutils/binutils.go:104 | Go's int64 arithmetic: the result is in range and congruent to the exact one modulo 2^64 |
| Int64.Add | internal/rpc/tcp/tcp_server.go:67 | the sum is congruent to the exact one modulo 2^64 |
| Int64.Mul | internal/binutils/binutils.go:104 | the product is congruent to the exact one modulo 2^64 |
| Int64.EncIsLittleEndian | internal/binutils/binutils.go:25-29 | byte i of a value on the wire is its digit of weight 256^i, modulo 2^64 |
| Int64.DecOfLittleEndian | internal/binutils/binutils.go:17-22 | 8 bytes decode to a value iff they are its digits in that order |
| Int64.DecEnc | internal/binutils/binutils.go:17-29 | decoding the 8 bytes of a value gives the value back |
| Int64.EncDec | internal/binutils/binutils.go:17-29 | every 8 bytes are the encoding of exactly one value; no wire value is malformed |
| Int64.IntsOfBytes | internal/binutils/binutils.go:34-63 | a run of encoded values decodes to itself and leaves what follows |
| Trees.ReadIntoEffect | internal/binutils/binutils.go:50-63 | a read succeeds iff enough values are there; otherwise the first k nodes hold them, the next node 0, later nodes and the layout are unchanged |
| Trees.LayoutAndValuesDetermine | internal/binutils/binutils.go:31-47 | layout and pre-order values determine the tree, so the shape need not be sent |
| Trees.MultEffect | rpcbench/treenode.go:57-62 | multiplying a tree is multiplying its pre-order values; layout and node count stay |
| Trees.MultipliedIff | rpcbench/treenode.go:57-62 | a tree shows what multiplying gives iff it has the same shape and every value is congruent to value times multiplier modulo 2^64 |
| Trees.PreOrder | internal/binutils/binutils.go:31-47 | in a traversal a node comes before its children and each child after the whole of its earlier siblings |
| Trees.ReadBackProducts | internal/binutils/binutils.go:97-118 | products read back into the request tree are the multiplied tree, later values stay unread |
| Hex.EncodeAt | internal/rpc/tcp/tcp_server.go:89 | hex text is, byte by byte, the high then the low digit of the lower-case Base 16 alphabet of RFC 4648, section 8 |
| Hex.DecodeEncode | rpcbench/bench_runner.go:89-94 | decoding encoded text restores the input |
| Hex.EncodeAppend | internal/rpc/tcp/tcp_server.go:82-94 | encoding chunk by chunk is encoding the whole, for every chunking |
| Hex.DecodesToIff | rpcbench/bench_runner.go:89-94 | the harness's hex check accepts a reply iff it is the encoding of the input up to letter case |
| Hex.DigitsOfEitherCase | rpcbench/bench_runner.go:89 | decoding takes the digits of either case, with their value, and nothing else |
| ByteIO.ReadFull | internal/binutils/binutils.go:17-20 | fills the buffer from any sequence of partial reads iff enough bytes exist; a short stream is used up |
| ByteIO.Writer.Write | internal/rpc/tcp/tcp_server.go:32 | bufio.Writer keeps order, loses nothing and writes through only what exceeds its free space |
| ByteIO.PutKeeps | internal/rpc/tcp/tcp_server.go:32 | what is let through and what is kept are the old contents and the new bytes in order, and nothing is let through while they fit |
| BinUtils.ReadInt64 | internal/binutils/binutils.go:17-22 | consumes the next 8 bytes, which are the digits of the value, least significant first; on a short stream value 0, an error, nothing left |
| BinUtils.WriteInt64 | internal/binutils/binutils.go:25-29 | appends the 8 digits of the value, least significant first, and flushes nothing while they fit |
| BinUtils.WriteTree | internal/binutils/binutils.go:35-47 | appends the pre-order values and nothing of the shape |
| BinUtils.ReadTree | internal/binutils/binutils.go:50-63 | stores what values there are into the tree in order, complete or truncated, consuming 8 bytes a node |
| BinUtils.WriteMultTreeRequest | internal/binutils/binutils.go:67-81 | appends multiplier, node count and tree |
| BinUtils.DoMultTreeRequest | internal/binutils/binutils.go:85-112 | total specification for any input and chunking: the products of the first min(count, available) values, success iff all are there, negative counts ask for none |
| BinUtils.StreamValues | internal/binutils/binutils.go:99-108 | the in-line multiply loop: outputs, bytes consumed, success and flushing as functions of the bytes available |
| BinUtils.ReadMultTreeResponse | internal/binutils/binutils.go:116-118 | reads a reply into the request tree |
| BinUtils.StreamingRefinesMult | internal/binutils/binutils.go:85-112 | on the frame of any tree the streamed output is the encoding of the multiplied tree and later bytes are untouched |
| BinUtils.RoundTripIsMult | internal/binutils/binutils.go:114-118 | the streamed output, read back into the request tree, is the multiplied tree |
| Frames.RequestOnWire | internal/rpc/tcp/tcp_client.go:25-92 | every request byte by byte: command number 1 to 4, then operands, multiplier, node count, values in order or hex input |
| Frames.ReplyOnWire | internal/rpc/tcp/tcp_server.go:51-96 | every reply: the sum and, in order, the products modulo 2^64, or the hex text |
| Frames.FinishReply | internal/rpc/tcp/tcp_client.go:25-92 | client decoding of the reply frame is the plain API's result for each of the four calls |
| Frames.EatAdvances | internal/rpc/tcp/tcp_server.go:51-96 | each byte of a request frame takes the command loop from its place before it to its place after it and writes exactly the reply bytes due |
| Frames.InsideIsNotHead | internal/rpc/tcp/tcp_server.go:37-51 | inside a frame the loop is never at a command byte |
| Frames.OutAtSize | internal/rpc/tcp/tcp_server.go:51-96 | what is written inside a frame is a proper prefix of a non-empty reply, and for trees 8 bytes for each whole value read |
| Frames.OutAtEnds | internal/rpc/tcp/tcp_server.go:51-96 | nothing is written before a frame, the whole reply by its end |
| Frames.HexChunkAdvances | internal/rpc/tcp/tcp_server.go:82-94 | the hex loop may take its data in chunks |
| Automaton.FeedAppend | internal/rpc/tcp/tcp_server.go:37-108 | the command loop on two pieces of input is the loop on the first, then on the second |
| Chunks.HexLoopEndsIff | internal/rpc/tcp/tcp_server.go:82-94 | the hex loop has a way to its end iff the count is not positive, or below the buffer size with enough bytes to come |
| Chunks.HexLoopOverrunsIff | internal/rpc/tcp/tcp_server.go:83-84 | over the reads of the whole loop, some way of reading takes bytes behind the data iff there are any |
| Chunks.HexLoopTakesIff | internal/rpc/tcp/tcp_server.go:83-84 | some way of reading takes so many of them iff there are as many, and no more than 131070 |
| Pipelining.TidyOutcome | internal/rpc/tcp/tcp_server.go:37-108 | with nothing behind hex data all ways of reading an input use the same bytes, end at the same point and write the same |
| Pipelining.AnswersDependOnChunksIff | internal/rpc/tcp/tcp_server.go:37-108 | all ways of reading an input are answered alike iff nothing is queued behind hex data below the buffer size |
| Pipelining.PipelinedNopIsMisserved | internal/rpc/tcp/tcp_server.go:82-94 | behind any non-empty hex input below the limit, a Nop is answered on one way of reading and encoded on another |
| Pipelining.CommandOutcome | internal/rpc/tcp/tcp_server.go:51-96 | the same for one command: what follows it does not matter, only what is queued behind its own hex data |
| Pipelining.FrameOutcome | internal/rpc/tcp/tcp_server.go:51-100 | in whatever chunks it arrives, a call's frame is read to its end and answered with its reply; of an oversize ToHex only the header is read and nothing is answered |
| TcpServer.HexEncoderWrite | internal/rpc/tcp/tcp_server.go:35-91 | the chunked hex encoder writes the encoding of its input |
| TcpServer.HexLoop | internal/rpc/tcp/tcp_server.go:82-94 | on any size and input: the reads taken, the encoding of all they took, and whether the loop ends, meets the end of input or goes round for ever |
| TcpServer.ServeAdd | internal/rpc/tcp/tcp_server.go:58-69 | Add on any input and chunking is the automaton's Add |
| TcpServer.ServeMultTree | internal/rpc/tcp/tcp_server.go:71-74 | MultTree on any input and chunking is the automaton's MultTree |
| TcpServer.ServeToHex | internal/rpc/tcp/tcp_server.go:76-94 | ToHex on any input and chunking is the command loop on the chunks read |
| TcpServer.Dispatch | internal/rpc/tcp/tcp_server.go:51-96 | the switch serves the command whose byte was read, up to its end or the end of input; unknown commands are skipped |
| TcpServer.ServeCommand | internal/rpc/tcp/tcp_server.go:37-108 | one round of the loop, on any input: the reads of one command, what is written because of them, and an empty writer if it is served |
| TcpServer.RunConn | internal/rpc/tcp/tcp_server.go:27-111 | the whole connection, on any input: it is read in some chunks, everything written is the command loop's on these, and it ends without error iff the input ends between commands |
| TcpServer.RoundOfFrame | internal/rpc/tcp/tcp_server.go:37-108 | a round on exactly a call's frame uses all of it and writes its reply; on an oversize ToHex it never ends |
| WebSocket.HexEncodeInto | internal/rpc/websocket/ws_server.go:101 | hex.Encode into writeHexBuf, in bounds |
| WebSocket.HexLoop | internal/rpc/websocket/ws_server.go:94-104 | the second hex loop does what the first does; writeHexBuf accesses stay in bounds |
| WebSocket.ServeToHex | internal/rpc/websocket/ws_server.go:88-104 | ToHex on any message is the command loop on the chunks read |
| WebSocket.ServeMessage | internal/rpc/websocket/ws_server.go:45-111 | any message is served as one round of the command loop; only a served one is replied to |
| WebSocket.ServersAgree | internal/rpc/websocket/ws_server.go:39-112 | if nothing is queued behind the command's hex data, TCP and WebSocket use the same bytes and end the round the same way, malformed requests included, and a served command has the same reply |
| WebSocket.ServersDisagree | internal/rpc/websocket/ws_server.go:94-104 | on every other input two rounds can serve the command with different replies |
| WebSocket.ServersReply | internal/rpc/websocket/ws_server.go:63-108 | on the frame of a call that fits, the reply is the API's |
| TcpClient.Peer.Exchange | internal/rpc/tcp/tcp_server.go:27-111 | a flushed request that fits comes back as its reply frame and nothing stays behind; one that cannot fit never comes back |
| TcpClient.TcpClient.Nop | internal/rpc/tcp/tcp_client.go:25-36 | Nop makes one Nop call on the connection and succeeds |
| TcpClient.TcpClient.Add | internal/rpc/tcp/tcp_client.go:38-53 | Add makes one Add call and returns the value congruent to the exact sum modulo 2^64 |
| TcpClient.TcpClient.MultTreeValues | internal/rpc/tcp/tcp_client.go:55-75 | from any state earlier calls left, one call with the source's tree: it returns if the tree fits and does not if it cannot, and then every value is congruent to source value times multiplier modulo 2^64, in the source's shape, and the hidden storage is collapsed again |
| TcpClient.TcpClient.SendMultTree | internal/rpc/tcp/tcp_client.go:59-69 | exactly the request frame is flushed |
| TcpClient.TcpClient.ToHex | internal/rpc/tcp/tcp_client.go:77-92 | one ToHex call: it returns iff the input has fewer than 131072 bytes, with its hex encoding |
| TcpClient.RefillShowsSource | internal/rpc/tcp/tcp_client.go:56-58 | Reset then fill makes the client's tree show the source, with nothing stale behind |
| TcpClient.ReplyReadsBack | internal/rpc/tcp/tcp_client.go:71-74 | the reply bytes read into the request tree are the multiplied tree and are used up |
| TcpSafety.InitInv | internal/rpc/tcp/tcp_client.go:94-111 | a fresh session satisfies the session invariant |
| TcpSafety.StepInv | internal/rpc/tcp/tcp_server.go:37-108 | every step of client, server and pipes keeps the session invariant |
| TcpSafety.Lagging | internal/rpc/tcp/tcp_client.go:89-92 | the server lags behind the client only over zero-length ToHex calls |
| TcpSafety.NothingQueuedBehind | internal/rpc/tcp/tcp_client.go:25-92 | nothing is queued behind a request that has a reply |
| TcpSafety.ReadHexReadsFrame | internal/rpc/tcp/tcp_server.go:82-94 | in a session a hex read never takes more than the data left |
| TcpSafety.ConsumeDisciplined | internal/rpc/tcp/tcp_server.go:31-35 | inside a frame the server's writer has let through whole buffers only, and only of tree replies |
| TcpTheorems.SessionRefinesApi | internal/rpc/tcp/tcp_client.go:25-92 | every run returns exactly the plain API's results, in order |
| TcpTheorems.ServerStaysInFrame | internal/rpc/tcp/tcp_server.go:37-108 | unread request bytes are the rest of the server's frame, then zero-length ToHex frames, then the current frame; the control point is the frame's |
| TcpTheorems.RunsAreBounded | internal/rpc/tcp/tcp_server.go:37-108 | no run is longer than a bound known from the calls |
| TcpLiveness.SmallRepliesFit | internal/rpc/tcp/tcp_server.go:31-35 | a reply that fits the server's writer fits whatever the pipes hold |
| TcpLiveness.NeverBothBlocked | internal/rpc/tcp/tcp_client.go:55-75 | with fitting calls client and server are never both blocked writing |
| TcpLiveness.CanStep | internal/rpc/tcp/tcp_server.go:71-98 | with fitting calls an unfinished session can always take a step |
| TcpLiveness.FittingCallsComplete | internal/rpc/tcp/tcp_server.go:31-98 | with fitting calls a run that cannot go on has returned every result and left every buffer empty |
| TcpLiveness.NoEarlyReply | internal/rpc/tcp/tcp_server.go:71-98 | with replies within the writer size no reply byte leaves before its request is read |
| TcpBlocking.BlockedPlace | internal/rpc/tcp/tcp_server.go:31-35 | until the client sees some of the reply, the server reads up to one value past what its writer and the pipe back can hold, and blocks exactly there |
| TcpBlocking.ReadAheadDecides | internal/rpc/tcp/tcp_server.go:31-98 | if no read of the connection gets more than ahead + 1 bytes, a call that does not fit with that many read ahead never returns |
| TcpBlocking.OversizeCallsNeverReturn | internal/rpc/tcp/tcp_server.go:71-98 | a call that does not fit with a whole buffer read ahead returns on no run |
| TcpBlocking.CompletesIffAllFit | internal/rpc/tcp/tcp_server.go:31-98 | every maximal run finishes every call iff every call fits with nothing read ahead |
| TcpBlocking.StockedNeverBothBlocked | internal/rpc/tcp/tcp_server.go:31-98 | a server that fills its reader as far as it can just before it blocks never blocks together with the client, on calls that may fit |
| TcpBlocking.CanCompleteIffAllMayFit | internal/rpc/tcp/tcp_server.go:31-98 | some run finishes every call iff every call fits with as much as possible read ahead |
| TcpBlocking.TreeCallLimits | internal/rpc/tcp/tcp_server.go:31-35 | both limits for one tree call, in bytes of the source's buffers and of any pipes |
| TcpBlocking.TreeCallOver64KiB | internal/rpc/tcp/tcp_server.go:31-35 | over pipes of 64 KiB: up to 40961 nodes on every run, up to 49152 on some |
| TcpBlocking.HexCallLimit | internal/rpc/tcp/tcp_server.go:82-84 | a ToHex call returns on every run, or on any, iff the input has fewer than 131072 bytes |
| TreeNode.TreeNodeImpl.InitChildren | rpcbench/treenode.go:23-29 | reslice within capacity or a new array, as Resized says |
| TreeNode.TreeNodeImpl.Reset | rpcbench/treenode.go:40-45 | truncates every visible node, as Truncated says |
| TreeNode.TreeNodeImpl.TotalNodes | rpcbench/treenode.go:48-54 | the number of visible nodes |
| TreeNode.TreeNodeImpl.Mult | rpcbench/treenode.go:57-62 | multiplies every visible value in place, changing no storage |
| TreeNode.CopyTree | rpcbench/treenode.go:83-89 | into any dirty tree: afterwards it shows the source, owns what it holds and the source is untouched |
| TreeNode.TreeMatchesForMult | rpcbench/treenode.go:113-129 | the oracle on a TreeNodeImpl: true iff the response has the request's shape and every value is congruent to the exact product modulo 2^64 |
| TreeNode.CopyShowsSource | rpcbench/treenode.go:83-89 | a copy over any storage shows exactly the source |
| TreeNode.ResetMakesBare | rpcbench/treenode.go:40-45 | resetting a collapsed tree leaves no stale children at any depth |
| TreeNode.BareReveals | rpcbench/treenode.go:23-29 | after that InitChildren always reveals leaves |
| TreeNode.CopyKeepsCollapsed | rpcbench/treenode.go:83-89 | refilling reset storage keeps everything hidden bare |
| TreeNode.CopyAloneLeavesStaleChildren | rpcbench/treenode.go:83-89 | without the Reset hidden storage does keep visible children |
| TreeNode.ResetKeepsStorage | rpcbench/treenode.go:39-45 | Reset leaves one visible node and frees none |
| TreeNode.ResetKeepsValues | rpcbench/treenode.go:39-45 | Reset leaves the value of every node, visible or hidden |
| TreeNode.ResizeKeepsStorage | rpcbench/treenode.go:23-29 | within capacity InitChildren re-exposes the kept nodes in order and frees none; beyond it every child is a new leaf |
| TreeNode.RefillReuses | rpcbench/treenode.go:39-45 | refilling with the same shape reuses the same layout |
| Grpc.GrpcNode.InitChildren | internal/rpc/grpc/structdef_adapter.go:24-35 | keeps every old pointer, fills visible nils with new nodes, and no two pointers share a node |
| Grpc.GrpcNode.TotalNodes | internal/rpc/grpc/structdef_adapter.go:41-47 | the number of visible nodes |
| Grpc.CopyTree | rpcbench/treenode.go:83-89 | the never-reset request tree shows exactly the source, alias-free |
| Grpc.MultTree | internal/rpc/grpc/grpc_server.go:31-36 | the in-place server multiply is the multiplied tree |
| Grpc.GrpcClient.MultTreeValues | internal/rpc/grpc/grpc_client.go:34-42 | over any history the response has the source's shape and every value is congruent to source value times multiplier modulo 2^64; it shares nothing with the request |
| Grpc.TreeMatchesForMult | rpcbench/treenode.go:113-129 | the oracle on a gRPC response, in the same terms |
| GrpcConvert.CopyLayout | rpcbench/treenode.go:69-74 | zero nodes in the source's shape |
| GrpcConvert.TreeToGrpc | internal/rpc/grpc/grpc_utils.go:13-20 | the message shows the source |
| GrpcConvert.GrpcToTree | internal/rpc/grpc/grpc_utils.go:22-34 | takes values over in order and stops at the first difference in child counts |
| GrpcConvert.ImportEffect | internal/rpc/grpc/grpc_utils.go:22-34 | succeeds iff the shapes match; otherwise exactly the nodes before the first mismatch are updated |
| GrpcConvert.ConvertRoundTrip | internal/rpc/grpc/grpc_utils.go:13-34 | to gRPC and back into a copied layout restores the source |
| Capnp.Message.NewChildren | internal/rpc/mdcapnp/handwritten_api.go:172-175 | a new list of zero nodes replaces the node's children |
| Capnp.InitChildren | internal/rpc/mdcapnp/api_adapter.go:22-35 | lays out the children in the message and points every visible adapter at its own |
| Capnp.CopyTree | internal/rpc/mdcapnp/mdcp_client_level0.go:45-47 | from any dirty adapter the message holds the source, older nodes are untouched and every visible adapter points into this message |
| Capnp.KeptTree | internal/rpc/mdcapnp/api_adapter.go:22-35 | building one child leaves the trees and mirrors of earlier children as they were |
| Capnp.MirrorShowsTree | internal/rpc/mdcapnp/api_adapter.go:62-77 | the getters of an agreeing adapter show exactly the message's tree |
| Capnp.TotalNodes | internal/rpc/mdcapnp/api_adapter.go:45-51 | counts the nodes either adapter shows; after a successful reset, the nodes of the message's tree |
| Capnp.Reset | internal/rpc/mdcapnp/api_adapter.go:88-108 | succeeds iff the message tree can be read, and then mirrors it exactly whatever was cached |
| Capnp.MultTree | internal/rpc/mdcapnp/mdcp_server.go:39-58 | the copying multiply fills the response with the multiplied tree, failing iff the request cannot be read |
| Capnp.HandleMultTree | internal/rpc/mdcapnp/mdcp_server.go:60-85 | the response is a new message holding the multiplied request tree, failing iff the depth limited request cannot be read |
| Capnp.ClientLevel0.MultTreeValues | internal/rpc/mdcapnp/mdcp_client_level0.go:33-69 | over any history it succeeds iff both depth limited messages can be read, and then the returned reader shows the source's shape with every value congruent to source value times multiplier modulo 2^64, all of it from this response |
| Capnp.TreeMatchesForMult | rpcbench/treenode.go:113-129 | the oracle on a reader adapter, in the same terms |
| Harness.MakeDenseTreeNode | rpcbench/treenode.go:91-99 | builds Dense in place |
| Harness.DenseShape | rpcbench/treenode.go:91-99 | from a leaf: 1 + d + ... + d^level nodes, all leaves at depth level |
| Harness.GeometricSum | rpcbench/treenode.go:91-111 | that sum times d - 1 is d^(level+1) - 1 |
| Harness.MakeRandomTree | rpcbench/treenode.go:101-111 | never asks the generator for a non-positive range and makes of the tree what the generator's results say; from a leaf depth and node count keep to their bounds |
| Harness.GrownIsBounded | rpcbench/treenode.go:101-111 | those bounds, for whatever the generator returns |
| Harness.FixedTreeTotals | rpcbench/bench_harness.go:88-104 | the first four test trees have 1, 65, 65 and 19531 nodes |
| Harness.FixedTreeShapes | rpcbench/bench_harness.go:88-104 | a single node; 64 levels of one child; 64 leaves below the root; six levels of five children |
| Harness.FixedTreesFit | rpcbench/bench_harness.go:88-104 | calls with them complete whatever the pipes hold |
| Harness.RandomTreeBound | rpcbench/bench_harness.go:106-108 | a random test tree has at most 87381 nodes |
| Harness.LargestRandomTree | rpcbench/bench_harness.go:106-108 | a tree within the random bounds has that many, and with pipes of 64 KiB its call returns on no run |
| Harness.MakeDeep | rpcbench/bench_harness.go:93-98 | the loop over a moving pointer builds the chain, owned by its root |
| Harness.MakeTestTrees | rpcbench/bench_harness.go:88-108 | six trees that share nothing: the four fixed ones and two within the random bounds |
| BenchRunner.PopulateWithRand | rpcbench/treenode.go:76-81 | the values are the generator's next results, in the order of the traversal; the layout stays |
| BenchRunner.BenchClient.CallTree | rpcbench/bench_runner.go:53-79 | one call, with multiplier and values drawn from the generator; when it returns the check accepts |
| BenchRunner.BenchClient.MakeCall | rpcbench/bench_runner.go:37-100 | on the TCP system makeCall makes one call of the kind asked for and reports no error when it returns, from any state earlier calls left; it is sure to return unless it picks a tree that does not fit; only hex calls count bytes |
| BenchRunner.CallTreeGrpc | rpcbench/bench_runner.go:53-79 | the tree check accepts the gRPC client's response, from any state earlier calls left |
| BenchRunner.CallTreeCapnp | rpcbench/bench_runner.go:53-79 | the tree check accepts the level 0 client's response whenever it could be read |
| ParallelBench.StepInv | rpcbench/bench_runner.go:148-181 | every step keeps clients exclusive and every completed call accounted for once |
| ParallelBench.NoClientShared | rpcbench/bench_runner.go:148-163 | no two workers ever hold the same client |
| ParallelBench.NeverBlocks | rpcbench/bench_runner.go:148-173 | a waiting worker finds a client and a finishing one finds room for its totals |
| ParallelBench.CollectsAll | rpcbench/bench_runner.go:175-181 | collection never receives more than nbClients totals, and while it has fewer it never waits in vain |
| ParallelBench.CallsOfRun | rpcbench/bench_runner.go:164-173 | the calls accounted for are exactly the calls of the run |
| ParallelBench.FinalTotals | rpcbench/bench_runner.go:175-181 | once nbClients totals are collected, N and totalBytes are the number and the sum of the bytes of all calls of the run |
| ParallelBench.CollectionEnds | rpcbench/bench_runner.go:148-181 | where nothing but further calls could happen, exactly nbClients totals are collected and N and totalBytes are final |

## Left out

- TcpServer.HexLoop: an empty slice, on which the source goes round for ever, ends the method with the outcome Stalled.
- WebSocket.HexLoop: the same; a read error other than the end of the message is not modelled.
- WebSocket.ServeMessage: a reply is one message, so its writer's framing is not modelled.
- WebSocket.ServersReply: leaves out oversize ToHex calls, which TcpServer.RoundOfFrame shows never to end.
- TcpClient.Peer.Exchange: whether a call returns is taken over from the session theorems; between their two limits it is left open.
- TcpClient.TcpClient.ToHex: writes into an array of exactly twice the input's length, where the source passes a slice of a longer one.
- BinUtils.DoMultTreeRequest: writers never fail; read errors other than the end of input, and error texts, are not distinguished.
- Node counts above the int64 range, which no memory holds, are excluded from the refinement theorems.
- Capacities of grown slices: slices.Grow is modelled as keeping all old pointers and choosing any larger capacity.
- Capnp.Reset: what the library reports as an error (depth limits, broken pointers) is a flag on the message node; size hints are left out.
- Capnp.ClientLevel0.MultTreeValues: which nodes a depth limit of 100 refuses is decided in the mdcapnp library, which is not part of this model; any may be refused.
- The gRPC and mdcapnp transports deliver an equal message; their wire formats, generated code and libraries are not part of this model.
- Sockets, contexts, goroutine pools, accept loops, timeouts and logging.
- The JSON WebSocket mode: it decodes with encoding/json into reused storage, and encoding/json is not part of this model.
- The HTTP/1 and go-capnp systems: they carry the same calls over net/http and the go-capnp library, which are not part of this model.
- Factories, plotting and report pages: they select and present benchmark runs and take no part in a call.
