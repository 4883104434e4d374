/**
 makeCall: rpcbench/bench_runner.go. All of it is run against the TCP implementation, and its tree
 check against the gRPC and the mdcapnp client too.
 */
module BenchRunner {
  import opened Int64
  import opened ByteIO
  import opened TreeNode
  import opened TcpClient
  import opened Rng
  import Hex
  import T = Trees
  import Capnp
  import Frames
  import Grpc
  import Harness
  import TcpBlocking
  import TcpLiveness

  datatype ClientCall = CallNop | CallAdd | CallTreeMult | CallToHex

  /** populateWithRand: the values are the generator's next results, the shape and the storage as before. */
  method PopulateWithRand(tn: TreeNodeImpl, rng: Rand)
    requires tn.Valid()
    modifies tn.repr, rng
    ensures tn.Valid() && tn.repr == old(tn.repr)
    ensures T.SameLayout(tn.tree, old(tn.tree))
    ensures rng.drawn == old(rng.drawn) + T.Values(tn.tree)
    decreases tn.repr, 1
  {
    hide TreeNodeImpl.Valid, TreeNodeImpl.Owned;
    var v := rng.NextInt64();
    tn.SetValue(v);
    PopulateChildren(tn, rng);
    assert old(rng.drawn) + ([v] + T.ValuesAll(tn.tree.children))
        == (old(rng.drawn) + [v]) + T.ValuesAll(tn.tree.children);
  }

  /** The loop of populateWithRand. */
  method PopulateChildren(tn: TreeNodeImpl, rng: Rand)
    requires tn.Valid()
    modifies tn.repr, rng
    ensures tn.Valid() && tn.repr == old(tn.repr) && tn.tree.value == old(tn.tree).value
    ensures T.SameLayout(tn.tree, old(tn.tree))
    ensures rng.drawn == old(rng.drawn) + T.ValuesAll(tn.tree.children)
    decreases tn.repr, 0
  {
    hide TreeNodeImpl.Valid, TreeNodeImpl.Owned, TreeNodeImpl.Now, T.SameLayout, T.Values, T.ValuesAll;
    tn.Parts();
    ghost var was, kids := tn.tree, [];
    NoValues(rng.drawn);
    for i := 0 to tn.len
      invariant tn.slots == old(tn.slots) && tn.len == old(tn.len) && tn.repr == old(tn.repr) && tn.tree == was
      invariant tn in tn.repr && tn.Owned() && tn.value == was.value
      invariant |kids| == i && forall j :: 0 <= j < i ==> kids[j] == tn.slots[j].tree
      invariant forall j :: 0 <= j < i ==> T.SameLayout(kids[j], was.children[j])
      invariant forall j :: i <= j < |tn.slots| ==> tn.slots[j].tree == old(tn.slots[j].tree)
      invariant rng.drawn == old(rng.drawn) + T.ValuesAll(kids)
    {
      label Before:
      tn.Child(i);
      PopulateWithRand(tn.slots[i], rng);
      tn.OnlyChild@Before(i);
      T.ValuesAllSnoc(kids, tn.slots[i].tree);
      assert old(rng.drawn) + (T.ValuesAll(kids) + T.Values(tn.slots[i].tree))
          == (old(rng.drawn) + T.ValuesAll(kids)) + T.Values(tn.slots[i].tree);
      kids := kids + [tn.slots[i].tree];
    }
    tn.NowParts();
    ghost var now := tn.Now();
    assert now.children == kids;
    LayoutFromChildren(now, was);
    tn.Settle(now);
  }

  lemma NoValues(drawn: seq<int>)
    ensures drawn + T.ValuesAll([]) == drawn
  {
  }

  lemma LayoutFromChildren(t: T.Tree, u: T.Tree)
    requires |t.children| == |u.children| && |t.spare| == |u.spare|
    requires forall i :: 0 <= i < |t.spare| ==> t.spare[i] == u.spare[i]
    requires forall i :: 0 <= i < |t.children| ==> T.SameLayout(t.children[i], u.children[i])
    ensures T.SameLayout(t, u)
  {
  }

  class BenchClient {
    const c: TcpClient
    const p: Peer
    const testTrees: seq<TreeNodeImpl>
    const rng: Rand
    const rngReader: Rand

    ghost predicate Valid()
      reads c.reader, c.writer, c.tree, c.tree.repr, p, p.input, p.output
      reads set i, o | 0 <= i < |testTrees| && o in testTrees[i].repr :: o
      reads testTrees
    {
      && c.Idle() && p.Idle() && c.ConnectedTo(p)
      && |testTrees| == 6
      && forall i :: 0 <= i < |testTrees| ==>
           testTrees[i].Valid() && testTrees[i].repr !! c.tree.repr && T.Total(testTrees[i].tree) < TWO63
    }

    constructor (c: TcpClient, p: Peer, testTrees: seq<TreeNodeImpl>)
      ensures this.c == c && this.p == p && this.testTrees == testTrees && fresh(rng) && fresh(rngReader)
    {
      this.c, this.p, this.testTrees := c, p, testTrees;
      rng := new Rand();
      rngReader := new Rand();
    }

    /** The Add check: one Add call, of two values from the generator. */
    method CallAdd() returns (ok: bool)
      requires c.Idle() && p.Idle() && c.ConnectedTo(p)
      modifies c.aux, c.reader, c.writer, p, p.input, p.output, p.aux, p.readHexBuf, rng
      ensures ok && c.Idle() && p.Idle()
      ensures OneMore(old(p.served), p.served) && Last(p.served).AddInts?
      ensures rng.drawn == old(rng.drawn) + [Last(p.served).a, Last(p.served).b]
    {
      var a := rng.NextInt64();
      var b := rng.NextInt64();
      var res, sent := c.Add(p, a, b);
      ok := sent && res == Int64.Add(a, b);
    }

    /**
     The tree check, for the test tree that was picked: one call, of the tree with new values and a
     multiplier from the generator. It may wait for ever.
     */
    method CallTree(tgt: TreeNodeImpl) returns (returned: bool, ok: bool)
      requires c.Idle() && p.Idle() && c.ConnectedTo(p)
      requires tgt.Valid() && tgt.repr !! c.tree.repr && T.Total(tgt.tree) < TWO63
      modifies c.aux, c.reader, c.writer, c.tree.repr, p, p.input, p.output, p.aux, p.readHexBuf, tgt.repr, rng
      ensures TreeFits(p, old(tgt.tree)) ==> returned
      ensures returned ==> ok && c.Idle() && p.Idle()
      ensures OneMore(old(p.served), p.served) && Last(p.served).MultTree?
      ensures T.View(Last(p.served).tree) == T.View(tgt.tree) && T.SameLayout(tgt.tree, old(tgt.tree))
      ensures rng.drawn == old(rng.drawn) + [Last(p.served).mult] + T.Values(tgt.tree)
      ensures fresh(c.tree.repr - old(c.tree.repr))
      ensures tgt.Valid() && tgt.repr == old(tgt.repr) && T.Total(tgt.tree) == T.Total(old(tgt.tree))
    {
      hide TreeNodeImpl.Valid, T.View, T.Mult, T.Multiplied, T.Values, T.SameLayout, Collapsed;
      var mult := rng.NextInt64();
      PopulateWithRand(tgt, rng);
      T.LayoutTotal(tgt.tree, old(tgt.tree));
      SameFit(p, tgt.tree, old(tgt.tree), mult);
      returned, ok := c.MultTreeValues(p, mult, tgt);
      if returned {
        ok := TreeMatchesForMult(c.tree, tgt, mult);
      }
    }

    /** The hex check; picking the size below the buffer length keeps the server out of its stall. */
    method CallHex(input: seq<byte>) returns (ok: bool)
      requires c.Idle() && p.Idle() && c.ConnectedTo(p) && |input| < MAX_HEX_ENCODE_SIZE
      modifies c.aux, c.reader, c.writer, p, p.input, p.output, p.aux, p.readHexBuf
      ensures ok && c.Idle() && p.Idle()
      ensures p.served == old(p.served) + [Frames.ToHex(input)]
    {
      var out := new byte[2 * |input|];
      var returned;
      returned, ok := c.ToHex(p, input, out);
      Hex.DecodeEncode(input);
      ok := Hex.Decode(out[..]) == Hex.Decoded(input);
    }

    /** The tree check, for a test tree that the generator picks. */
    method CallSomeTree() returns (returned: bool, ok: bool)
      requires Valid() && Separate()
      modifies c.aux, c.reader, c.writer, c.tree.repr, p, p.input, p.output, p.aux, p.readHexBuf, rng
      modifies set i, o | 0 <= i < |testTrees| && o in testTrees[i].repr :: o
      ensures (forall i :: 0 <= i < |testTrees| ==> TreeFits(p, old(testTrees[i].tree))) ==> returned
      ensures returned ==> ok && Valid()
      ensures OneMore(old(p.served), p.served) && Last(p.served).MultTree?
      ensures exists i :: 0 <= i < |testTrees| && T.View(Last(p.served).tree) == T.View(testTrees[i].tree)
      ensures forall i :: 0 <= i < |testTrees| ==> testTrees[i].repr == old(testTrees[i].repr)
    {
      hide TcpClient.Idle, Peer.Idle, TreeNodeImpl.Valid, TreeFits;
      hide T.Total, T.View, T.SameLayout, T.Values;
      var chosen := rng.IntN(|testTrees|);
      returned, ok := CallTree(testTrees[chosen]);
      assert T.View(Last(p.served).tree) == T.View(testTrees[chosen].tree);
    }

    /** No test tree shares a node with another. */
    ghost predicate Separate()
      reads testTrees
    {
      forall i, j :: 0 <= i < j < |testTrees| ==> testTrees[i].repr !! testTrees[j].repr
    }

    /**
     makeCall makes one call of the kind it is asked for and never reports an error: when it returns,
     the oracle accepts whatever the TCP system has returned. It is sure to return unless it picks a
     test tree that does not fit. A hex call counts the lengths of both whole buffers, the others none.
     */
    method MakeCall(call: ClientCall) returns (bytes: nat, returned: bool, ok: bool)
      requires Valid() && Separate() && rng != rngReader
      modifies c.aux, c.reader, c.writer, c.tree.repr, p, p.input, p.output, p.aux, p.readHexBuf, rng, rngReader
      modifies set i, o | 0 <= i < |testTrees| && o in testTrees[i].repr :: o
      ensures !call.CallTreeMult? ==> returned
      ensures (forall i :: 0 <= i < |testTrees| ==> TreeFits(p, old(testTrees[i].tree))) ==> returned
      ensures returned ==> ok && Valid()
      ensures bytes == if call.CallToHex? then 393216 else 0
      ensures OneMore(old(p.served), p.served) && OfKind(Last(p.served), call)
      ensures Last(p.served).MultTree? ==>
                exists i :: 0 <= i < |testTrees| && T.View(Last(p.served).tree) == T.View(testTrees[i].tree)
      ensures forall i :: 0 <= i < |testTrees| ==> testTrees[i].repr == old(testTrees[i].repr)
    {
      hide TcpClient.Idle, Peer.Idle, TreeNodeImpl.Valid, TreeFits, T.Total, T.View;
      bytes, returned := 0, true;
      match call
      case CallNop => ok := c.Nop(p);
      case CallAdd => ok := CallAdd();
      case CallTreeMult =>
        returned, ok := CallSomeTree();
      case CallToHex =>
        var size := rng.IntN(MAX_HEX_ENCODE_SIZE);
        var input := rngReader.NextBytes(size);
        ok := CallHex(input);
        bytes := MAX_HEX_ENCODE_SIZE + 2 * MAX_HEX_ENCODE_SIZE;
    }
  }

  /** One more call came in over the connection. */
  ghost predicate OneMore(was: seq<Frames.Call>, now: seq<Frames.Call>) {
    |now| == |was| + 1 && now[..|was|] == was
  }

  function Last(cs: seq<Frames.Call>): Frames.Call
    requires cs != []
  {
    cs[|cs| - 1]
  }

  ghost predicate OfKind(c: Frames.Call, call: ClientCall) {
    match call
    case CallNop => c.Nop?
    case CallAdd => c.AddInts?
    case CallTreeMult => c.MultTree?
    case CallToHex => c.ToHex? && |c.input| < MAX_HEX_ENCODE_SIZE
  }

  /** A call with this tree returns on every run, whatever the multiplier and the values. */
  ghost predicate TreeFits(p: Peer, t: T.Tree) { TcpLiveness.Fits(p.cfg, Frames.MultTree(0, t)) }

  lemma SameFit(p: Peer, t: T.Tree, u: T.Tree, mult: int64)
    requires T.Total(t) == T.Total(u)
    ensures TcpLiveness.Fits(p.cfg, Frames.MultTree(mult, t)) == TreeFits(p, u)
  {
  }

  /** The tree check on the gRPC client: from any state earlier calls left, it accepts the response. */
  method CallTreeGrpc(c: Grpc.GrpcClient, tgt: TreeNodeImpl, rng: Rand) returns (ok: bool)
    requires c.Valid() && tgt.Valid()
    modifies c.tree.repr, tgt.repr, rng
    ensures ok && c.Valid() && tgt.Valid()
  {
    hide TreeNodeImpl.Valid, Grpc.GrpcNode.Valid, T.View, T.Mult;
    var mult := rng.NextInt64();
    PopulateWithRand(tgt, rng);
    var res := c.MultTreeValues(mult, tgt);
    ok := Grpc.TreeMatchesForMult(res, tgt, mult);
  }

  /**
   The tree check on the level 0 mdcapnp client: it accepts the response whenever the library can
   read both messages.
   */
  method CallTreeCapnp(c: Capnp.ClientLevel0, tgt: TreeNodeImpl, rng: Rand) returns (read: bool, ok: bool)
    requires c.Valid() && tgt.Valid()
    modifies c.buildTree.repr, c.readTree.repr, tgt.repr, rng
    ensures read ==> ok
    ensures c.Valid() && tgt.Valid()
  {
    hide TreeNodeImpl.Valid, Capnp.Adapter.Valid, T.View, T.Mult, Capnp.TreeAt, Capnp.MirrorAt;
    var mult := rng.NextInt64();
    PopulateWithRand(tgt, rng);
    ok := false;
    ghost var request, response;
    read, request, response := c.MultTreeValues(mult, tgt);
    if read {
      ok := Capnp.TreeMatchesForMult(c.readTree, tgt, mult);
    }
  }
}
