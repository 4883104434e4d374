/**
 The mdcapnp adapters: internal/rpc/mdcapnp. A message is an arena of nodes; an adapter is a
 handle into a message together with a cached slice of adapters for the children, which is
 reused from call to call while its hidden part still points into earlier messages.
 */
module Capnp {
  import opened Int64
  import Impl = TreeNode
  import T = Trees

  // ---------- messages ----------

  /** `readable` is false where the library would report an error for the children pointer. */
  datatype MsgNode = MsgNode(value: int64, kids: seq<nat>, readable: bool)

  /** Children are allocated after their parent, so every node roots a finite tree. */
  ghost predicate Arena(nodes: seq<MsgNode>) {
    forall j, k :: 0 <= j < |nodes| && 0 <= k < |nodes[j].kids| ==> j < nodes[j].kids[k] < |nodes|
  }

  /** The tree a message holds at node j. */
  ghost function TreeAt(nodes: seq<MsgNode>, j: nat): (t: T.Tree)
    requires Arena(nodes) && j < |nodes|
    ensures t.value == nodes[j].value && |t.children| == |nodes[j].kids| && t.spare == []
    decreases |nodes| - j
  {
    T.Node(nodes[j].value,
           seq(|nodes[j].kids|, k requires 0 <= k < |nodes[j].kids| => TreeAt(nodes, nodes[j].kids[k])), [])
  }

  ghost predicate Readable(nodes: seq<MsgNode>, j: nat)
    requires Arena(nodes) && j < |nodes|
    decreases |nodes| - j
  {
    nodes[j].readable && forall k :: 0 <= k < |nodes[j].kids| ==> Readable(nodes, nodes[j].kids[k])
  }

  ghost predicate AllReadable(nodes: seq<MsgNode>) {
    forall j :: 0 <= j < |nodes| ==> nodes[j].readable
  }

  lemma {:induction false} AllReadableAt(nodes: seq<MsgNode>, j: nat)
    requires Arena(nodes) && AllReadable(nodes) && j < |nodes|
    ensures Readable(nodes, j)
    decreases |nodes| - j
  {
    forall k | 0 <= k < |nodes[j].kids| ensures Readable(nodes, nodes[j].kids[k]) {
      AllReadableAt(nodes, nodes[j].kids[k]);
    }
  }

  /** The same nodes, some of them with children that are refused. */
  ghost predicate Limited(nodes: seq<MsgNode>, nodes': seq<MsgNode>)
    ensures Limited(nodes, nodes') && Arena(nodes) ==> Arena(nodes')
  {
    && |nodes'| == |nodes|
    && forall j :: 0 <= j < |nodes| ==> nodes'[j].value == nodes[j].value && nodes'[j].kids == nodes[j].kids
  }

  lemma {:induction false} LimitedTree(nodes: seq<MsgNode>, nodes': seq<MsgNode>, j: nat)
    requires Arena(nodes) && Limited(nodes, nodes') && j < |nodes|
    ensures TreeAt(nodes', j) == TreeAt(nodes, j)
    decreases |nodes| - j
  {
    forall k | 0 <= k < |nodes[j].kids|
      ensures TreeAt(nodes', nodes[j].kids[k]) == TreeAt(nodes, nodes[j].kids[k])
    {
      LimitedTree(nodes, nodes', nodes[j].kids[k]);
    }
    assert TreeAt(nodes', j).children == TreeAt(nodes, j).children;
  }

  datatype Handle = NoHandle | Handle(msg: Message, at: nat)

  /** What a tree of adapters points at. */
  datatype Mirror = Mirror(handle: Handle, kids: seq<Mirror>)

  /** The mirror that agrees with the message: every node the handle of the matching message node. */
  ghost function MirrorAt(msg: Message, nodes: seq<MsgNode>, j: nat): (m: Mirror)
    requires Arena(nodes) && j < |nodes|
    ensures m.handle == Handle(msg, j) && |m.kids| == |nodes[j].kids|
    decreases |nodes| - j
  {
    Mirror(Handle(msg, j),
           seq(|nodes[j].kids|, k requires 0 <= k < |nodes[j].kids| => MirrorAt(msg, nodes, nodes[j].kids[k])))
  }

  /** What the getters of a mirror show when its nodes all lie in a message with these nodes. */
  ghost function Shown(m: Mirror, nodes: seq<MsgNode>): T.Tree {
    T.Node(if m.handle.Handle? && m.handle.at < |nodes| then nodes[m.handle.at].value else 0,
           seq(|m.kids|, k requires 0 <= k < |m.kids| => Shown(m.kids[k], nodes)), [])
  }

  /** An agreeing mirror shows exactly the message's tree. */
  lemma {:induction false} MirrorShowsTree(msg: Message, nodes: seq<MsgNode>, j: nat)
    requires Arena(nodes) && j < |nodes|
    ensures Shown(MirrorAt(msg, nodes, j), nodes) == TreeAt(nodes, j)
    decreases |nodes| - j
  {
    var m := MirrorAt(msg, nodes, j);
    forall k | 0 <= k < |nodes[j].kids|
      ensures Shown(m.kids[k], nodes) == TreeAt(nodes, nodes[j].kids[k])
    {
      MirrorShowsTree(msg, nodes, nodes[j].kids[k]);
    }
    assert Shown(m, nodes).children == TreeAt(nodes, j).children;
  }

  /** The children of node j were allocated from lo on. */
  ghost predicate KidsFrom(nodes: seq<MsgNode>, j: nat, lo: nat)
    requires j < |nodes|
  {
    forall k :: 0 <= k < |nodes[j].kids| ==> lo <= nodes[j].kids[k]
  }

  /** Node j and everything allocated from lo on are as before: its tree is as before. */
  ghost predicate Kept(nodes: seq<MsgNode>, nodes': seq<MsgNode>, j: nat, lo: nat) {
    && Arena(nodes) && Arena(nodes') && j < |nodes| <= |nodes'|
    && nodes'[j] == nodes[j]
    && KidsFrom(nodes, j, lo)
    && (forall i :: lo <= i < |nodes| ==> nodes'[i] == nodes[i])
  }

  lemma {:induction false} KeptTree(msg: Message, nodes: seq<MsgNode>, nodes': seq<MsgNode>, j: nat, lo: nat)
    requires Kept(nodes, nodes', j, lo)
    ensures TreeAt(nodes', j) == TreeAt(nodes, j)
    ensures MirrorAt(msg, nodes', j) == MirrorAt(msg, nodes, j)
    decreases |nodes| - j
  {
    forall k | 0 <= k < |nodes[j].kids|
      ensures TreeAt(nodes', nodes[j].kids[k]) == TreeAt(nodes, nodes[j].kids[k])
      ensures MirrorAt(msg, nodes', nodes[j].kids[k]) == MirrorAt(msg, nodes, nodes[j].kids[k])
    {
      KeptTree(msg, nodes, nodes', nodes[j].kids[k], lo);
    }
    assert TreeAt(nodes', j).children == TreeAt(nodes, j).children;
    assert MirrorAt(msg, nodes', j).kids == MirrorAt(msg, nodes, j).kids;
  }

  /** n consecutive positions from base on. */
  function Range(base: nat, n: nat): (r: seq<nat>)
    ensures |r| == n && forall i :: 0 <= i < n ==> r[i] == base + i
  {
    seq(n, i requires 0 <= i => base + i)
  }

  function ZeroNodes(n: nat): (zs: seq<MsgNode>)
    ensures |zs| == n && forall i :: 0 <= i < n ==> zs[i] == MsgNode(0, [], true)
  {
    seq(n, i => MsgNode(0, [], true))
  }

  class Message {
    var nodes: seq<MsgNode>

    ghost predicate Valid()
      reads this
    {
      Arena(nodes) && nodes != []
    }

    constructor ()
      ensures Valid() && nodes == [MsgNode(0, [], true)]
    {
      nodes := [MsgNode(0, [], true)];
    }

    method SetValue(at: nat, v: int64)
      requires Valid() && at < |nodes|
      modifies this
      ensures Valid() && nodes == old(nodes)[at := old(nodes)[at].(value := v)]
    {
      nodes := nodes[at := nodes[at].(value := v)];
    }

    /**
     StructWithDepthLimit: the library now refuses the children of some nodes. Which ones is its
     own business, so any may be.
     */
    method LimitDepth()
      requires Valid()
      modifies this
      ensures Valid() && Limited(old(nodes), nodes)
      ensures forall j :: 0 <= j < |nodes| ==> TreeAt(nodes, j) == TreeAt(old(nodes), j)
    {
      hide TreeAt;
      ghost var was := nodes;
      for i := 0 to |nodes|
        invariant Limited(was, nodes)
      {
        var refuse: bool := *;
        if refuse {
          nodes := nodes[i := nodes[i].(readable := false)];
        }
      }
      forall j | 0 <= j < |nodes| ensures TreeAt(nodes, j) == TreeAt(was, j) {
        LimitedTree(was, nodes, j);
      }
    }

    /** NewChildren: a new list of zero nodes replaces the children of the node. */
    method NewChildren(at: nat, n: nat) returns (kids: seq<nat>)
      requires Valid() && at < |nodes|
      modifies this
      ensures Valid() && kids == Range(|old(nodes)|, n)
      ensures nodes == old(nodes)[at := MsgNode(old(nodes)[at].value, kids, true)] + ZeroNodes(n)
    {
      kids := Range(|nodes|, n);
      nodes := nodes[at := MsgNode(nodes[at].value, kids, true)] + ZeroNodes(n);
    }
  }

  // ---------- adapters ----------

  /** tnBuilderAdapterAlt and tnReaderAdapterAlt: a handle and a cached slice of adapters. */
  class Adapter {
    var tn: Handle
    var slots: seq<Adapter>             // the backing array of children
    var len: nat                        // len(children)
    ghost var repr: set<Adapter>
    ghost var mirror: Mirror            // what the visible part points at

    ghost predicate Owned()
      reads this, repr
      decreases repr, 0
    {
      && this in repr
      && (forall i :: 0 <= i < |slots| ==>
            slots[i] in repr && slots[i].repr <= repr && this !in slots[i].repr && slots[i].Valid())
      && (forall i, j :: 0 <= i < j < |slots| ==> slots[i].repr !! slots[j].repr)
    }

    ghost predicate Shows(m: Mirror)
      reads this, slots
    {
      && m.handle == tn
      && |m.kids| == len <= |slots|
      && (forall i :: 0 <= i < len ==> m.kids[i] == slots[i].mirror)
    }

    ghost predicate Valid()
      reads this, repr
      ensures Valid() ==> this in repr
      decreases repr
    {
      this in repr && (forall i :: 0 <= i < |slots| ==> slots[i] in repr) && Owned() && Shows(mirror)
    }

    constructor ()
      ensures Valid() && fresh(repr) && mirror == Mirror(NoHandle, [])
    {
      tn, slots, len := NoHandle, [], 0;
      repr, mirror := {this}, Mirror(NoHandle, []);
    }

    /** Every visible node points at the matching node of the message. */
    ghost predicate Agrees()
      reads this, if tn.Handle? then {tn.msg} else {}
    {
      && tn.Handle? && tn.msg.Valid() && tn.at < |tn.msg.nodes|
      && mirror == MirrorAt(tn.msg, tn.msg.nodes, tn.at)
    }

    lemma Parts()
      requires Valid()
      ensures this in repr && Owned() && Shows(mirror)
    {
    }

    lemma Visible()
      requires Valid()
      ensures len <= |slots| && mirror.handle == tn
    {
    }

    lemma Whole()
      requires this in repr && Owned() && Shows(mirror)
      ensures Valid()
    {
    }

    lemma Child(k: nat)
      requires this in repr && Owned() && k < |slots|
      ensures slots[k] in repr && slots[k].Valid() && slots[k].repr <= repr && this !in slots[k].repr
    {
    }

    /** A call on child k touches its subtree only: the other children are as they were. */
    twostate lemma OnlyChild(k: nat)
      requires old(this in repr && Owned())
      requires slots == old(slots) && k < |slots|
      requires forall o: Adapter | o in old(repr) && o != this && o !in old(slots[k].repr) :: unchanged(o)
      requires slots[k].Valid()
      requires fresh(slots[k].repr - old(slots[k].repr))
      requires repr == old(repr) + slots[k].repr
      ensures this in repr && Owned()
      ensures forall j :: 0 <= j < |slots| && j != k ==>
                slots[j].mirror == old(slots[j].mirror) && slots[j].repr == old(slots[j].repr)
    {
      hide Valid, Shows;
      forall j | 0 <= j < |slots| && j != k
        ensures slots[j] in repr && slots[j].Valid() && slots[j].repr <= repr
        ensures slots[j].mirror == old(slots[j].mirror) && slots[j].repr == old(slots[j].repr)
        ensures this !in slots[j].repr && slots[j].repr !! slots[k].repr
      {
        assert old(slots[j].repr) !! old(slots[k].repr) by {
          if j < k {} else {}
        }
      }
    }

    twostate lemma OnlySelf()
      requires old(this in repr && Owned())
      requires slots == old(slots) && repr == old(repr)
      requires forall o: Adapter | o in repr && o != this :: unchanged(o)
      ensures Owned()
      ensures forall j :: 0 <= j < |slots| ==>
                slots[j] in repr && slots[j].mirror == old(slots[j].mirror) && slots[j].repr == old(slots[j].repr)
    {
      hide Valid, Shows;
    }

    ghost method Settle(m: Mirror)
      requires this in repr && Owned() && Shows(m)
      modifies this`mirror
      ensures Valid() && mirror == m
    {
      hide Valid, Owned;
      mirror := m;
      OnlySelf();
      Whole();
    }

    /** Point the adapter elsewhere; its cached children stay, stale as they may be. */
    method SetHandle(h: Handle)
      requires Valid()
      modifies this`tn, this`mirror
      ensures Valid() && tn == h && mirror == old(mirror).(handle := h)
    {
      hide Valid, Owned;
      Parts();
      tn := h;
      OnlySelf();
      Settle(mirror.(handle := h));
    }

    /** The reslice or make that both adapters begin with. */
    method Resize(n: nat)
      requires Valid()
      modifies this`slots, this`len, this`repr, this`mirror
      ensures Valid() && fresh(repr - old(repr)) && len == n && tn == old(tn)
    {
      if |slots| >= n {
        hide Valid, Owned;
        Parts();
        len := n;
        OnlySelf();
        Settle(Mirror(tn, Mirrors(n)));
      } else {
        var made, used := NewAdapters(n);
        slots, len := made, n;
        repr := {this} + used;
        mirror := Mirror(tn, Mirrors(n));
      }
    }

    ghost function Mirrors(k: nat): (ms: seq<Mirror>)
      requires k <= |slots|
      reads this, slots
      ensures |ms| == k && forall i :: 0 <= i < k ==> ms[i] == slots[i].mirror
    {
      if k == 0 then [] else Mirrors(k - 1) + [slots[k - 1].mirror]
    }
  }

  method NewAdapters(n: nat) returns (made: seq<Adapter>, ghost used: set<Adapter>)
    ensures |made| == n && fresh(used)
    ensures forall i :: 0 <= i < n ==> made[i].Valid() && made[i] in used && made[i].repr <= used
    ensures forall i, j :: 0 <= i < j < n ==> made[i].repr !! made[j].repr
  {
    made, used := [], {};
    while |made| < n
      invariant |made| <= n && fresh(used)
      invariant forall i :: 0 <= i < |made| ==> made[i].Valid() && made[i] in used && made[i].repr <= used
      invariant forall i, j :: 0 <= i < j < |made| ==> made[i].repr !! made[j].repr
    {
      var a := new Adapter();
      made, used := made + [a], used + a.repr;
    }
  }

  // ---------- the builder ----------

  /**
   InitChildren of the builder adapter: new children in the message, the cached slice
   resized, and every visible adapter pointed at its child. Grandchildren may be stale.
   */
  method InitChildren(b: Adapter, n: nat)
    requires b.Valid() && b.tn.Handle? && b.tn.msg.Valid() && b.tn.at < |b.tn.msg.nodes|
    modifies b.repr, b.tn.msg
    ensures b.Valid() && fresh(b.repr - old(b.repr)) && b.tn == old(b.tn) && b.len == n
    ensures b.tn.msg.Valid()
    ensures var nodes, at := old(b.tn.msg.nodes), b.tn.at;
      b.tn.msg.nodes == nodes[at := MsgNode(nodes[at].value, Range(|nodes|, n), true)] + ZeroNodes(n)
    ensures forall i :: 0 <= i < n ==> b.mirror.kids[i].handle == Handle(b.tn.msg, |old(b.tn.msg.nodes)| + i)
  {
    hide Adapter.Valid, Adapter.Owned, Arena;
    var kids := b.tn.msg.NewChildren(b.tn.at, n);
    b.Resize(n);
    b.Parts();
    PointChildren(b, kids);
    b.Settle(Mirror(b.tn, b.Mirrors(n)));
  }

  /** The loop of InitChildren. */
  method PointChildren(b: Adapter, kids: seq<nat>)
    requires b in b.repr && b.Owned() && b.len == |kids| <= |b.slots| && b.tn.Handle?
    modifies b.repr
    ensures b in b.repr && b.Owned() && b.repr == old(b.repr)
    ensures b.slots == old(b.slots) && b.len == old(b.len) && b.tn == old(b.tn)
    ensures forall j :: 0 <= j < b.len ==> b.slots[j].mirror.handle == Handle(b.tn.msg, kids[j])
  {
    hide Adapter.Valid, Adapter.Owned, Adapter.Shows;
    for i := 0 to |kids|
      invariant b.slots == old(b.slots) && b.len == old(b.len) && b.tn == old(b.tn) && b.repr == old(b.repr)
      invariant b in b.repr && b.Owned()
      invariant forall j :: 0 <= j < i ==> b.slots[j].mirror.handle == Handle(b.tn.msg, kids[j])
    {
      label Before:
      b.Child(i);
      b.slots[i].SetHandle(Handle(b.tn.msg, kids[i]));
      b.OnlyChild@Before(i);
    }
  }

  /** Node `at` has come to hold what t shows; every older node but it is as it was. */
  ghost predicate Filled(nodes: seq<MsgNode>, nodes': seq<MsgNode>, at: nat, t: T.Tree) {
    && Arena(nodes') && AllReadable(nodes')
    && at < |nodes| <= |nodes'|
    && (forall j :: 0 <= j < |nodes| && j != at ==> nodes'[j] == nodes[j])
    && KidsFrom(nodes', at, |nodes|)
    && TreeAt(nodes', at) == T.View(t)
  }

  /**
   copyTree into the builder adapter, from any dirty state: the message holds what the source
   shows, and every visible adapter points at its node of this message and no other.
   */
  method CopyTree(from: Impl.TreeNodeImpl, to: Adapter)
    requires from.Valid() && to.Valid()
    requires to.tn.Handle? && to.tn.msg.Valid() && to.tn.at < |to.tn.msg.nodes| && AllReadable(to.tn.msg.nodes)
    modifies to.repr, to.tn.msg
    ensures to.Valid() && fresh(to.repr - old(to.repr)) && to.tn == old(to.tn)
    ensures to.tn.msg.Valid() && Filled(old(to.tn.msg.nodes), to.tn.msg.nodes, to.tn.at, from.tree)
    ensures to.mirror == MirrorAt(to.tn.msg, to.tn.msg.nodes, to.tn.at)
    decreases from.repr, 1
  {
    hide T.View, Adapter.Valid, Adapter.Owned, Arena, TreeAt, MirrorAt, Copied, CopiedKid, AllReadable, Filled;
    var msg, at := to.tn.msg, to.tn.at;
    ghost var nodes := msg.nodes;
    msg.SetValue(at, from.value);
    InitChildren(to, from.len);
    ghost var laid := msg.nodes;
    LaidOut(nodes, laid, at, from.tree);
    CopyChildren(from, to, |nodes|);
    RootFilled(msg, nodes, laid, msg.nodes, at, from.tree, to.Mirrors(to.len));
    to.Settle(MirrorAt(msg, msg.nodes, at));
  }

  lemma LaidOut(nodes: seq<MsgNode>, laid: seq<MsgNode>, at: nat, t: T.Tree)
    requires at < |nodes| && AllReadable(nodes)
    requires var valued := nodes[at := nodes[at].(value := t.value)];
      laid == valued[at := MsgNode(valued[at].value, Range(|valued|, |t.children|), true)] + ZeroNodes(|t.children|)
    ensures laid == nodes[at := MsgNode(t.value, Range(|nodes|, |t.children|), true)] + ZeroNodes(|t.children|)
    ensures AllReadable(laid) && |laid| == |nodes| + |t.children|
  {
  }

  /** The trees of the children, put together at the root. */
  lemma RootFilled(msg: Message, nodes: seq<MsgNode>, laid: seq<MsgNode>, nodes': seq<MsgNode>, at: nat, t: T.Tree,
                   mirrors: seq<Mirror>)
    requires at < |nodes| && |mirrors| == |t.children|
    requires laid == nodes[at := MsgNode(t.value, Range(|nodes|, |t.children|), true)] + ZeroNodes(|t.children|)
    requires Copied(msg, nodes', |nodes|, |t.children|, |t.children|, t.children, mirrors)
    requires forall j :: 0 <= j < |nodes| ==> nodes'[j] == laid[j]
    ensures Filled(nodes, nodes', at, t)
    ensures Arena(nodes') && at < |nodes'| && MirrorAt(msg, nodes', at).kids == mirrors
  {
    forall i | 0 <= i < |t.children|
      ensures TreeAt(nodes', |nodes| + i) == T.View(t.children[i]) && mirrors[i] == MirrorAt(msg, nodes', |nodes| + i)
    {
      assert CopiedKid(msg, nodes', |nodes|, |t.children|, i, t.children[i], mirrors[i]);
    }
    assert TreeAt(nodes', at).children == T.View(t).children;
    assert MirrorAt(msg, nodes', at).kids == mirrors;
  }

  /** Child k, laid out from base on with n - 1 siblings, has been copied. */
  ghost predicate CopiedKid(msg: Message, nodes: seq<MsgNode>, base: nat, n: nat, k: nat, t: T.Tree, m: Mirror)
    requires Arena(nodes) && base + k < |nodes|
  {
    && KidsFrom(nodes, base + k, base + n)
    && TreeAt(nodes, base + k) == T.View(t)
    && m == MirrorAt(msg, nodes, base + k)
  }

  /** What copyTree has achieved for the first i of n children laid out from base on. */
  ghost predicate Copied(msg: Message, nodes: seq<MsgNode>, base: nat, n: nat, i: nat,
                         from: seq<T.Tree>, to: seq<Mirror>)
  {
    && Arena(nodes) && AllReadable(nodes) && base + n <= |nodes| && i <= n && |from| == |to| == n
    && forall k :: 0 <= k < i ==> CopiedKid(msg, nodes, base, n, k, from[k], to[k])
  }

  /** Copying child i touches node base + i and appends, so the earlier children stay copied. */
  lemma CopiedNext(msg: Message, nodes: seq<MsgNode>, nodes': seq<MsgNode>, base: nat, n: nat, i: nat,
                   from: seq<T.Tree>, to: seq<Mirror>, to': seq<Mirror>)
    requires i < n && Copied(msg, nodes, base, n, i, from, to)
    requires Filled(nodes, nodes', base + i, from[i])
    requires |to'| == n && (forall k :: 0 <= k < i ==> to'[k] == to[k])
    requires to'[i] == MirrorAt(msg, nodes', base + i)
    ensures Copied(msg, nodes', base, n, i + 1, from, to')
  {
    forall k | 0 <= k < i + 1 ensures CopiedKid(msg, nodes', base, n, k, from[k], to'[k]) {
      hide Arena, TreeAt, MirrorAt, T.View, AllReadable;
      if k < i {
        assert CopiedKid(msg, nodes, base, n, k, from[k], to[k]);
        KeptTree(msg, nodes, nodes', base + k, base + n);
      }
    }
  }

  lemma FilledTree(nodes: seq<MsgNode>, nodes': seq<MsgNode>, at: nat, t: T.Tree)
    requires Filled(nodes, nodes', at, t)
    ensures Arena(nodes') && at < |nodes'| && TreeAt(nodes', at) == T.View(t)
  {
  }

  lemma FilledOlder(nodes: seq<MsgNode>, nodes': seq<MsgNode>, at: nat, t: T.Tree)
    requires Filled(nodes, nodes', at, t)
    ensures AllReadable(nodes') && |nodes| <= |nodes'|
    ensures forall j :: 0 <= j < at ==> nodes'[j] == nodes[j]
  {
  }

  /** The loop of copyTree, on a node whose children have just been laid out. */
  method CopyChildren(from: Impl.TreeNodeImpl, to: Adapter, ghost base: nat)
    requires from.Valid() && to.Valid() && to.tn.Handle? && to.len == from.len
    requires to.tn.msg.Valid() && |to.tn.msg.nodes| == base + to.len && AllReadable(to.tn.msg.nodes)
    requires forall i :: 0 <= i < to.len ==> to.mirror.kids[i].handle == Handle(to.tn.msg, base + i)
    modifies to.repr, to.tn.msg
    ensures to in to.repr && to.Owned() && fresh(to.repr - old(to.repr))
    ensures to.slots == old(to.slots) && to.len == old(to.len) <= |to.slots| && to.tn == old(to.tn)
    ensures to.tn.msg.Valid()
    ensures Copied(to.tn.msg, to.tn.msg.nodes, base, to.len, to.len, from.tree.children, to.Mirrors(to.len))
    ensures forall j :: 0 <= j < base ==> to.tn.msg.nodes[j] == old(to.tn.msg.nodes[j])
    decreases from.repr, 0
  {
    hide Adapter.Valid, Adapter.Owned, Adapter.Mirrors, Adapter.Shows;
    hide T.View, Arena, TreeAt, MirrorAt, Copied, CopiedKid, AllReadable, Filled;
    to.Parts();
    to.Visible();
    var msg, n := to.tn.msg, to.len;
    CopiedNone(msg, msg.nodes, base, n, from.tree.children, to.Mirrors(n));
    for i := 0 to n
      invariant to.slots == old(to.slots) && to.len == n && to.tn == old(to.tn)
      invariant fresh(to.repr - old(to.repr)) && to in to.repr && to.Owned()
      invariant msg.Valid() && base + n <= |msg.nodes| && AllReadable(msg.nodes)
      invariant Copied(msg, msg.nodes, base, n, i, from.tree.children, to.Mirrors(n))
      invariant forall j :: 0 <= j < base ==> msg.nodes[j] == old(to.tn.msg.nodes[j])
      invariant forall j :: i <= j < n ==> to.slots[j].mirror.handle == Handle(msg, base + j)
    {
      label Before:
      to.Child(i);
      to.slots[i].Visible();
      ghost var nodes, mirrors := msg.nodes, to.Mirrors(n);
      CopyTree(from.slots[i], to.slots[i]);
      to.repr := to.repr + to.slots[i].repr;
      to.OnlyChild@Before(i);
      FilledOlder(nodes, msg.nodes, base + i, from.slots[i].tree);
      CopiedNext(msg, nodes, msg.nodes, base, n, i, from.tree.children, mirrors, to.Mirrors(n));
    }
  }

  lemma CopiedNone(msg: Message, nodes: seq<MsgNode>, base: nat, n: nat, from: seq<T.Tree>, to: seq<Mirror>)
    requires Arena(nodes) && AllReadable(nodes) && base + n <= |nodes| && |from| == |to| == n
    ensures Copied(msg, nodes, base, n, 0, from, to)
  {
  }

  /**
   TotalNodes of either adapter counts what it shows, whatever values the message holds; of one that
   agrees with its message, the nodes of the message's tree.
   */
  method TotalNodes(b: Adapter) returns (sum: nat)
    requires b.Valid()
    ensures forall nodes :: sum == T.Total(Shown(b.mirror, nodes))
    ensures b.Agrees() ==> sum == T.Total(TreeAt(b.tn.msg.nodes, b.tn.at))
    decreases b.repr
  {
    sum := 1;
    ghost var t := Shown(b.mirror, []);
    for i := 0 to b.len
      invariant sum + T.TotalAll(t.children[i..]) == T.Total(t)
    {
      var n := TotalNodes(b.slots[i]);
      assert n == T.Total(Shown(b.mirror.kids[i], []));
      sum := sum + n;
    }
    forall nodes ensures sum == T.Total(Shown(b.mirror, nodes)) {
      ShownTotal(b.mirror, nodes);
    }
    if b.Agrees() {
      MirrorShowsTree(b.tn.msg, b.tn.msg.nodes, b.tn.at);
    }
  }

  /** How many nodes a mirror shows does not depend on their values. */
  lemma {:induction false} ShownTotal(m: Mirror, nodes: seq<MsgNode>)
    ensures T.Total(Shown(m, nodes)) == T.Total(Shown(m, []))
    decreases m, |m.kids| + 1
  {
    ShownTotalFrom(m, nodes, 0);
  }

  lemma {:induction false} ShownTotalFrom(m: Mirror, nodes: seq<MsgNode>, i: nat)
    requires i <= |m.kids|
    ensures T.TotalAll(Shown(m, nodes).children[i..]) == T.TotalAll(Shown(m, []).children[i..])
    decreases m, |m.kids| - i
  {
    if i < |m.kids| {
      ShownTotal(m.kids[i], nodes);
      ShownTotalFrom(m, nodes, i + 1);
    }
  }

  // ---------- the reader ----------

  /**
   reset of the reader adapter: it succeeds exactly when the whole message tree can be read,
   and then, whatever was cached, its visible part is the message's tree and nothing else.
   */
  method Reset(b: Adapter) returns (ok: bool)
    requires b.Valid() && b.tn.Handle? && b.tn.msg.Valid() && b.tn.at < |b.tn.msg.nodes|
    modifies b.repr
    ensures b.Valid() && fresh(b.repr - old(b.repr)) && b.tn == old(b.tn)
    ensures ok <==> Readable(b.tn.msg.nodes, b.tn.at)
    ensures ok ==> b.mirror == MirrorAt(b.tn.msg, b.tn.msg.nodes, b.tn.at)
    decreases |b.tn.msg.nodes| - b.tn.at, 1
  {
    var node := b.tn.msg.nodes[b.tn.at];
    if !node.readable {
      return false;
    }
    hide Adapter.Valid, Adapter.Owned, Arena;
    b.Resize(|node.kids|);
    ok := ResetChildren(b, node.kids);
  }

  /** The loop of reset. */
  method ResetChildren(b: Adapter, kids: seq<nat>) returns (ok: bool)
    requires b.Valid() && b.tn.Handle? && b.tn.msg.Valid() && b.tn.at < |b.tn.msg.nodes|
    requires kids == b.tn.msg.nodes[b.tn.at].kids && b.len == |kids|
    modifies b.repr
    ensures b.Valid() && fresh(b.repr - old(b.repr)) && b.tn == old(b.tn)
    ensures ok <==> forall k :: 0 <= k < |kids| ==> Readable(b.tn.msg.nodes, kids[k])
    ensures ok ==> b.mirror == MirrorAt(b.tn.msg, b.tn.msg.nodes, b.tn.at)
    decreases |b.tn.msg.nodes| - b.tn.at, 0
  {
    hide Adapter.Valid, Adapter.Owned, MirrorAt, Readable;
    b.Parts();
    b.Visible();
    ghost var msg, nodes := b.tn.msg, b.tn.msg.nodes;
    for i := 0 to |kids|
      invariant b.slots == old(b.slots) && b.len == |kids| && b.tn == old(b.tn) && msg.nodes == nodes
      invariant fresh(b.repr - old(b.repr)) && b in b.repr && b.Owned()
      invariant forall k :: 0 <= k < i ==>
                  Readable(nodes, kids[k]) && b.slots[k].mirror == MirrorAt(msg, nodes, kids[k])
    {
      label Before:
      b.Child(i);
      b.slots[i].SetHandle(Handle(b.tn.msg, kids[i]));
      ok := Reset(b.slots[i]);
      b.repr := b.repr + b.slots[i].repr;
      b.OnlyChild@Before(i);
      if !ok {
        b.Settle(Mirror(b.tn, b.Mirrors(b.len)));
        return;
      }
    }
    MirrorKids(msg, nodes, b.tn.at);
    b.Settle(MirrorAt(msg, nodes, b.tn.at));
    ok := true;
  }

  lemma MirrorKids(msg: Message, nodes: seq<MsgNode>, at: nat)
    requires Arena(nodes) && at < |nodes|
    ensures forall k :: 0 <= k < |nodes[at].kids| ==>
              MirrorAt(msg, nodes, at).kids[k] == MirrorAt(msg, nodes, nodes[at].kids[k])
  {
  }

  // ---------- the server ----------

  lemma {:induction false} TreeAtIsPlain(nodes: seq<MsgNode>, j: nat, mul: int64)
    requires Arena(nodes) && j < |nodes|
    ensures T.View(T.Mult(TreeAt(nodes, j), mul)) == T.Mult(TreeAt(nodes, j), mul)
    ensures T.View(TreeAt(nodes, j)) == TreeAt(nodes, j)
    decreases |nodes| - j
  {
    var t := TreeAt(nodes, j);
    forall k | 0 <= k < |t.children| ensures T.View(t.children[k]) == t.children[k] {
      TreeAtIsPlain(nodes, nodes[j].kids[k], mul);
    }
    assert T.View(t).children == t.children;
    T.ViewOfMult(t, mul);
  }

  /**
   The server's multTree: a copying multiply into a fresh builder. It fails exactly when part
   of the request cannot be read.
   */
  method MultTree(mul: int64, input: Handle, out: Handle) returns (ok: bool)
    requires input.Handle? && input.msg.Valid() && input.at < |input.msg.nodes|
    requires out.Handle? && out.msg.Valid() && out.at < |out.msg.nodes| && AllReadable(out.msg.nodes)
    requires input.msg != out.msg
    modifies out.msg
    ensures out.msg.Valid()
    ensures ok <==> Readable(input.msg.nodes, input.at)
    ensures ok ==> Filled(old(out.msg.nodes), out.msg.nodes, out.at, T.Mult(TreeAt(input.msg.nodes, input.at), mul))
    decreases |input.msg.nodes| - input.at, 1
  {
    var node, at, base := input.msg.nodes[input.at], out.at, |out.msg.nodes|;
    ghost var nodes, t := out.msg.nodes, T.Mult(TreeAt(input.msg.nodes, input.at), mul);
    hide T.View, T.Mult, Arena, TreeAt, MirrorAt, Copied, CopiedKid, AllReadable, Filled, Readable;
    MultParts(input.msg.nodes, input.at, mul);
    out.msg.SetValue(at, Mul(node.value, mul));
    if !node.readable {
      return false;
    }
    var kids := out.msg.NewChildren(at, |node.kids|);
    ghost var laid := out.msg.nodes;
    LaidOut(nodes, laid, at, t);
    ghost var mirrors;
    ok, mirrors := MultChildren(mul, input, out.msg, base);
    if ok {
      RootFilled(out.msg, nodes, laid, out.msg.nodes, at, t, mirrors);
    }
  }

  /** What multiplying the tree of a message node comes to, child by child. */
  lemma MultParts(nodes: seq<MsgNode>, j: nat, mul: int64)
    requires Arena(nodes) && j < |nodes|
    ensures var t := T.Mult(TreeAt(nodes, j), mul);
      && t.value == Mul(nodes[j].value, mul) && |t.children| == |nodes[j].kids|
      && (forall k :: 0 <= k < |nodes[j].kids| ==> j < nodes[j].kids[k] < |nodes|)
      && forall k :: 0 <= k < |nodes[j].kids| ==> t.children[k] == T.Mult(TreeAt(nodes, nodes[j].kids[k]), mul)
    ensures Readable(nodes, j) <==>
      nodes[j].readable && forall k :: 0 <= k < |nodes[j].kids| ==> Readable(nodes, nodes[j].kids[k])
  {
  }

  /** The loop of multTree. */
  method MultChildren(mul: int64, input: Handle, out: Message, base: nat)
    returns (ok: bool, ghost mirrors: seq<Mirror>)
    requires input.Handle? && input.msg.Valid() && input.at < |input.msg.nodes|
    requires out.Valid() && AllReadable(out.nodes) && input.msg != out
    requires |out.nodes| == base + |input.msg.nodes[input.at].kids|
    modifies out
    ensures out.Valid()
    ensures var kids := input.msg.nodes[input.at].kids;
      ok <==> forall k :: 0 <= k < |kids| ==> Readable(input.msg.nodes, kids[k])
    ensures var t := T.Mult(TreeAt(input.msg.nodes, input.at), mul);
      ok ==> && |mirrors| == |t.children|
             && Copied(out, out.nodes, base, |t.children|, |t.children|, t.children, mirrors)
             && forall j :: 0 <= j < base ==> out.nodes[j] == old(out.nodes[j])
    decreases |input.msg.nodes| - input.at, 0
  {
    hide T.View, T.Mult, Arena, TreeAt, MirrorAt, Copied, CopiedKid, AllReadable, Filled, Readable;
    ghost var t := T.Mult(TreeAt(input.msg.nodes, input.at), mul);
    MultParts(input.msg.nodes, input.at, mul);
    var kids := input.msg.nodes[input.at].kids;
    ghost var n := |kids|;
    mirrors := NoMirrors(n);
    CopiedNone(out, out.nodes, base, n, t.children, mirrors);
    for i := 0 to |kids|
      invariant out.Valid() && base + n <= |out.nodes| && AllReadable(out.nodes)
      invariant |mirrors| == n && Copied(out, out.nodes, base, n, i, t.children, mirrors)
      invariant forall j :: 0 <= j < base ==> out.nodes[j] == old(out.nodes[j])
      invariant forall k :: 0 <= k < i ==> Readable(input.msg.nodes, kids[k])
    {
      ghost var nodes := out.nodes;
      KidInside(input.msg.nodes, input.at, i);
      ok := MultTree(mul, Handle(input.msg, kids[i]), Handle(out, base + i));
      if !ok {
        return;
      }
      FilledOlder(nodes, out.nodes, base + i, t.children[i]);
      ghost var mirrors' := mirrors[i := MirrorAt(out, out.nodes, base + i)];
      CopiedNext(out, nodes, out.nodes, base, n, i, t.children, mirrors, mirrors');
      mirrors := mirrors';
    }
    ok := true;
  }

  lemma KidInside(nodes: seq<MsgNode>, j: nat, k: nat)
    requires Arena(nodes) && j < |nodes| && k < |nodes[j].kids|
    ensures j < nodes[j].kids[k] < |nodes|
  {
  }

  ghost function NoMirrors(n: nat): (ms: seq<Mirror>)
    ensures |ms| == n
  {
    seq(n, i => Mirror(NoHandle, []))
  }

  /** handleMultTree: the request is read depth limited, and the response is a new message. */
  method HandleMultTree(mul: int64, request: Message) returns (ok: bool, response: Message)
    requires request.Valid()
    modifies request
    ensures request.Valid() && Limited(old(request.nodes), request.nodes)
    ensures TreeAt(request.nodes, 0) == TreeAt(old(request.nodes), 0)
    ensures fresh(response) && response.Valid()
    ensures ok <==> Readable(request.nodes, 0)
    ensures ok ==> TreeAt(response.nodes, 0) == T.Mult(TreeAt(request.nodes, 0), mul)
  {
    hide T.View, T.Mult, TreeAt, Readable;
    request.LimitDepth();
    response := new Message();
    ok := MultTree(mul, Handle(request, 0), Handle(response, 0));
    TreeAtIsPlain(request.nodes, 0, mul);
  }

  // ---------- the harness's check ----------

  /** treeMatchesForMult on a reader that agrees with its message. */
  method TreeMatchesForMult(src: Adapter, tgt: Impl.TreeNodeImpl, mult: int64) returns (ok: bool)
    requires src.Valid() && src.Agrees() && tgt.Valid()
    ensures ok <==> TreeAt(src.tn.msg.nodes, src.tn.at) == T.View(T.Mult(tgt.tree, mult))
    ensures ok <==> T.Multiplied(TreeAt(src.tn.msg.nodes, src.tn.at), tgt.tree, mult)
    decreases src.repr
  {
    hide T.Multiplied;
    TreeAtIsPlain(src.tn.msg.nodes, src.tn.at, mult);
    T.ProductIff(TreeAt(src.tn.msg.nodes, src.tn.at), tgt.tree, mult);
    ghost var want := T.View(T.Mult(tgt.tree, mult));
    ghost var got := TreeAt(src.tn.msg.nodes, src.tn.at);
    var node := src.tn.msg.nodes[src.tn.at];
    if Mul(tgt.value, mult) != node.value || tgt.len != src.len {
      return false;
    }
    for i := 0 to tgt.len
      invariant forall j :: 0 <= j < i ==> got.children[j] == want.children[j]
    {
      KidAgrees(src, i);
      var same := TreeMatchesForMult(src.slots[i], tgt.slots[i], mult);
      if !same {
        assert got.children[i] != want.children[i];
        return false;
      }
    }
    assert got.children == want.children;
    return true;
  }

  lemma KidAgrees(b: Adapter, i: nat)
    requires b.Valid() && b.Agrees() && i < b.len
    ensures b.slots[i].Agrees() && b.slots[i].tn == Handle(b.tn.msg, b.tn.msg.nodes[b.tn.at].kids[i])
    ensures TreeAt(b.tn.msg.nodes, b.tn.at).children[i] == TreeAt(b.tn.msg.nodes, b.slots[i].tn.at)
  {
    b.Child(i);
    b.slots[i].Visible();
  }

  // ---------- the level 0 client ----------

  class ClientLevel0 {
    const buildTree: Adapter
    const readTree: Adapter

    ghost predicate Valid()
      reads buildTree, buildTree.repr, readTree, readTree.repr
    {
      buildTree.Valid() && readTree.Valid() && buildTree.repr !! readTree.repr
    }

    constructor ()
      ensures Valid() && fresh(buildTree.repr) && fresh(readTree.repr)
    {
      buildTree := new Adapter();
      readTree := new Adapter();
    }

    /**
     One call, whatever earlier calls left in the two adapters. It succeeds exactly when both depth
     limited messages can be read, and then the returned reader shows the source with every value
     multiplied, all of it from this call's response.
     */
    method MultTreeValues(mult: int64, src: Impl.TreeNodeImpl)
      returns (ok: bool, ghost request: Message, ghost response: Message)
      requires Valid() && src.Valid()
      modifies buildTree.repr, readTree.repr
      ensures Valid() && fresh(buildTree.repr - old(buildTree.repr)) && fresh(readTree.repr - old(readTree.repr))
      ensures fresh(request) && request.Valid() && TreeAt(request.nodes, 0) == T.View(src.tree)
      ensures fresh(response) && response.Valid()
      ensures ok <==> Readable(request.nodes, 0) && Readable(response.nodes, 0)
      ensures ok ==> readTree.tn == Handle(response, 0) && readTree.mirror == MirrorAt(response, response.nodes, 0)
      ensures ok ==> TreeAt(response.nodes, 0) == T.View(T.Mult(src.tree, mult))
      ensures ok ==> T.Multiplied(TreeAt(response.nodes, 0), src.tree, mult)
    {
      hide T.View, T.Mult, T.Multiplied, TreeAt, MirrorAt, Readable, Adapter.Valid, Limited, Filled;
      var req := new Message();
      buildTree.SetHandle(Handle(req, 0));
      CopyTree(src, buildTree);
      FilledTree([MsgNode(0, [], true)], req.nodes, 0, src.tree);
      var res;
      ok, res := HandleMultTree(mult, req);
      request, response := req, res;
      if ok {
        T.ViewOfMult(src.tree, mult);
        T.ViewTwice(T.Mult(src.tree, mult));
        T.ProductIff(TreeAt(res.nodes, 0), src.tree, mult);
        ok := ReadResponse(res);
      }
    }

    /** The client's half after the call: the response is read depth limited too. */
    method ReadResponse(response: Message) returns (ok: bool)
      requires readTree.Valid() && response.Valid()
      modifies readTree.repr, response
      ensures readTree.Valid() && fresh(readTree.repr - old(readTree.repr))
      ensures response.Valid() && TreeAt(response.nodes, 0) == TreeAt(old(response.nodes), 0)
      ensures ok <==> Readable(response.nodes, 0)
      ensures ok ==> readTree.tn == Handle(response, 0) && readTree.mirror == MirrorAt(response, response.nodes, 0)
    {
      hide TreeAt, MirrorAt, Readable, Limited, Adapter.Valid;
      response.LimitDepth();
      readTree.SetHandle(Handle(response, 0));
      ok := Reset(readTree);
    }
  }
}
