/**
 The gRPC adapter: internal/rpc/grpc. Children are pointers, the slice keeps its backing
 array, and the client's request tree is reused without ever being reset.
 */
module Grpc {
  import opened Int64
  import Impl = TreeNode
  import T = Trees

  function Nils(n: nat): (ns: seq<GrpcNode?>)
    ensures |ns| == n && forall i :: 0 <= i < n ==> ns[i] == null
  {
    if n == 0 then [] else [null] + Nils(n - 1)
  }

  class GrpcNode {
    var value: int64
    var slots: seq<GrpcNode?>           // the backing array of Children, nil where never used
    var len: nat                        // len(Children)
    ghost var repr: set<GrpcNode>
    ghost var tree: T.Tree              // what the visible part shows

    /** No aliases: every pointer in the array, hidden or visible, owns a subtree of its own. */
    ghost predicate Owned()
      reads this, repr
      decreases repr, 0
    {
      && this in repr
      && (forall i :: 0 <= i < |slots| && slots[i] != null ==>
            slots[i] in repr && slots[i].repr <= repr && this !in slots[i].repr && slots[i].Valid())
      && (forall i, j :: 0 <= i < j < |slots| && slots[i] != null && slots[j] != null ==>
            slots[i].repr !! slots[j].repr)
    }

    ghost predicate Shows(t: T.Tree)
      reads this, slots
    {
      && t.value == value && t.spare == []
      && |t.children| == len <= |slots|
      && (forall i :: 0 <= i < len ==> slots[i] != null && t.children[i] == slots[i].tree)
    }

    ghost predicate Valid()
      reads this, repr
      ensures Valid() ==> this in repr
      decreases repr
    {
      && this in repr
      && (forall i :: 0 <= i < |slots| && slots[i] != null ==> slots[i] in repr)
      && Owned() && Shows(tree)
    }

    constructor ()
      ensures Valid() && repr == {this} && tree == T.LEAF
    {
      value, slots, len := 0, [], 0;
      repr, tree := {this}, T.LEAF;
    }

    lemma Parts()
      requires Valid()
      ensures this in repr && Owned() && Shows(tree)
    {
    }

    lemma Visible()
      requires Valid()
      ensures len <= |slots| && forall i :: 0 <= i < len ==> slots[i] != null
    {
    }

    lemma Child(k: nat)
      requires this in repr && Owned() && k < |slots| && slots[k] != null
      ensures slots[k] in repr && slots[k].Valid() && slots[k].repr <= repr && this !in slots[k].repr
    {
    }

    /** A call on child k touches its subtree only: the other children are as they were. */
    twostate lemma OnlyChild(k: nat)
      requires old(this in repr && Owned())
      requires slots == old(slots) && k < |slots| && slots[k] != null
      requires forall o: GrpcNode | o in old(repr) && o != this && o !in old(slots[k].repr) :: unchanged(o)
      requires slots[k].Valid()
      requires fresh(slots[k].repr - old(slots[k].repr))
      requires repr == old(repr) + slots[k].repr
      ensures this in repr && Owned()
      ensures forall j :: 0 <= j < |slots| && j != k && slots[j] != null ==>
                slots[j].tree == old(slots[j].tree) && slots[j].repr == old(slots[j].repr)
    {
      hide Valid, Shows;
      forall j | 0 <= j < |slots| && j != k && slots[j] != null
        ensures slots[j] in repr && slots[j].Valid() && slots[j].repr <= repr
        ensures slots[j].tree == old(slots[j].tree) && slots[j].repr == old(slots[j].repr)
        ensures this !in slots[j].repr && slots[j].repr !! slots[k].repr
      {
        assert old(slots[j].repr) !! old(slots[k].repr) by {
          if j < k {} else {}
        }
      }
    }

    /** Assigning the node's own fields leaves its children alone. */
    twostate lemma OnlySelf()
      requires old(this in repr && Owned())
      requires slots == old(slots) && repr == old(repr)
      requires forall o: GrpcNode | o in repr && o != this :: unchanged(o)
      ensures Owned()
      ensures forall j :: 0 <= j < |slots| && slots[j] != null ==>
                slots[j] in repr && slots[j].tree == old(slots[j].tree) && slots[j].repr == old(slots[j].repr)
    {
      hide Valid, Shows;
    }

    /** Record the tree the node has come to show. */
    ghost method Settle(t: T.Tree)
      requires this in repr && Owned() && Shows(t)
      modifies this`tree
      ensures Valid() && tree == t
    {
      hide Valid, Owned;
      tree := t;
      OnlySelf();
      Whole();
    }

    lemma Whole()
      requires this in repr && Owned() && Shows(tree)
      ensures Valid()
    {
    }

    /** What the first k children show. */
    ghost function Kids(k: nat): (ts: seq<T.Tree>)
      requires k <= |slots| && forall i :: 0 <= i < k ==> slots[i] != null
      reads this, slots
      ensures |ts| == k && forall i :: 0 <= i < k ==> ts[i] == slots[i].tree
    {
      if k == 0 then [] else Kids(k - 1) + [slots[k - 1].tree]
    }

    /**
     InitChildren: within capacity the slice is extended over whatever pointers it kept;
     otherwise it grows, which keeps all old pointers and appends at least n - cap nils.
     Every visible nil is then replaced by a new node.
     */
    method InitChildren(n: nat)
      requires Valid()
      modifies this
      ensures Valid() && fresh(repr - old(repr)) && old(repr) <= repr
      ensures len == n <= |slots| && value == old(value)
      ensures |old(slots)| <= |slots|
      ensures forall i :: 0 <= i < |old(slots)| && old(slots[i]) != null ==> slots[i] == old(slots[i])
      ensures forall i :: n <= i < |old(slots)| ==> slots[i] == old(slots[i])
      ensures forall i :: n <= i && |old(slots)| <= i < |slots| ==> slots[i] == null
      ensures forall i :: 0 <= i < n && (i < |old(slots)| ==> old(slots[i]) == null) ==>
                slots[i] != null && slots[i].tree == T.LEAF
    {
      hide Valid, Owned;
      Parts();
      Grow(n);
      for i := 0 to n
        invariant |old(slots)| <= |slots| && n <= |slots| && len == n && value == old(value)
        invariant this in repr && Owned() && fresh(repr - old(repr)) && old(repr) <= repr
        invariant forall j :: i <= j < |old(slots)| ==> slots[j] == old(slots[j])
        invariant forall j :: |old(slots)| <= j < |slots| && i <= j ==> slots[j] == null
        invariant forall j :: 0 <= j < |old(slots)| && old(slots[j]) != null ==> slots[j] == old(slots[j])
        invariant forall j :: 0 <= j < i ==> slots[j] != null
        invariant forall j :: 0 <= j < i && (j < |old(slots)| ==> old(slots[j]) == null) ==> slots[j].tree == T.LEAF
      {
        if slots[i] == null {
          NewChild(i);
        }
      }
      forall i | 0 <= i < n ensures slots[i] != this {
        Child(i);
      }
      Settle(T.Node(value, Kids(n), []));
    }

    /** x.Children[:n], after slices.Grow when the capacity does not suffice. */
    method Grow(n: nat)
      requires this in repr && Owned()
      modifies this`slots, this`len
      ensures Owned() && len == n <= |slots| && |old(slots)| <= |slots|
      ensures slots[..|old(slots)|] == old(slots)
      ensures forall j :: |old(slots)| <= j < |slots| ==> slots[j] == null
    {
      hide Valid, Shows;
      if |slots| < n {
        var extra: int :| extra >= 0;
        slots := slots + Nils(n - |slots| + extra);
      }
      len := n;
    }

    method NewChild(i: nat)
      requires this in repr && Owned() && i < |slots| && slots[i] == null
      modifies this`slots, this`repr
      ensures this in repr && Owned() && fresh(repr - old(repr)) && old(repr) <= repr
      ensures |slots| == |old(slots)| && slots[i] != null && slots[i].tree == T.LEAF
      ensures forall j :: 0 <= j < |slots| && j != i ==> slots[j] == old(slots[j])
    {
      hide Valid, Shows;
      var node := new GrpcNode();
      label Before:
      slots, repr := slots[..i] + [node] + slots[i + 1..], repr + {node};
      Adopted@Before(i);
    }

    twostate lemma Adopted(k: nat)
      requires old(this in repr && Owned())
      requires k < |slots| == |old(slots)| && slots[k] != null && repr == old(repr) + {slots[k]}
      requires forall j :: 0 <= j < |slots| && j != k ==> slots[j] == old(slots[j])
      requires slots[k] !in old(repr) && slots[k].Valid() && slots[k].repr == {slots[k]}
      requires forall o: GrpcNode | o in old(repr) && o != this :: unchanged(o)
      ensures this in repr && Owned()
    {
      hide Valid, Shows;
    }

    method SetValue(v: int64)
      requires Valid()
      modifies this
      ensures Valid() && value == v && slots == old(slots) && len == old(len) && repr == old(repr)
    {
      value := v;
      tree := tree.(value := v);
    }

    method TotalNodes() returns (sum: nat)
      requires Valid()
      ensures sum == T.Total(tree)
      decreases repr
    {
      sum := 1;
      for i := 0 to len
        invariant sum + T.TotalAll(tree.children[i..]) == T.Total(tree)
      {
        var n := slots[i].TotalNodes();
        sum := sum + n;
      }
    }
  }

  /**
   copyTree into the never-reset request tree: whatever was reused, it shows exactly the
   source, and no node is shared.
   */
  method CopyTree(from: Impl.TreeNodeImpl, to: GrpcNode)
    requires from.Valid() && to.Valid()
    modifies to.repr
    ensures to.Valid() && fresh(to.repr - old(to.repr))
    ensures to.tree == T.View(from.tree)
    decreases from.repr, 1
  {
    hide T.View;
    to.SetValue(from.value);
    to.InitChildren(from.len);
    CopyChildren(from, to);
    ViewParts(from.tree);
    to.Settle(T.View(from.tree));
  }

  lemma ViewParts(t: T.Tree)
    ensures T.View(t).value == t.value && T.View(t).spare == []
    ensures |T.View(t).children| == |t.children|
    ensures forall i :: 0 <= i < |t.children| ==> T.View(t).children[i] == T.View(t.children[i])
  {
  }

  /** The loop of copyTree, on the resized node. */
  method CopyChildren(from: Impl.TreeNodeImpl, to: GrpcNode)
    requires from.Valid() && to.Valid() && to.len == from.len
    modifies to.repr
    ensures to in to.repr && to.Owned() && fresh(to.repr - old(to.repr))
    ensures to.slots == old(to.slots) && to.len == old(to.len) && to.value == old(to.value)
    ensures to.len <= |to.slots|
    ensures forall j :: 0 <= j < to.len ==> to.slots[j] != null && to.slots[j].tree == T.View(from.slots[j].tree)
    decreases from.repr, 0
  {
    hide T.View, GrpcNode.Valid, GrpcNode.Owned, GrpcNode.Shows;
    to.Parts();
    to.Visible();
    for i := 0 to to.len
      invariant to.slots == old(to.slots) && to.len == old(to.len) && to.value == old(to.value)
      invariant fresh(to.repr - old(to.repr))
      invariant to in to.repr && to.Owned()
      invariant forall j :: 0 <= j < i ==> to.slots[j].tree == T.View(from.slots[j].tree)
    {
      label Before:
      to.Child(i);
      CopyTree(from.slots[i], to.slots[i]);
      to.repr := to.repr + to.slots[i].repr;
      to.OnlyChild@Before(i);
    }
  }

  /** The server's multTree: in place, on the decoded request. */
  method MultTree(mul: int64, t: GrpcNode)
    requires t.Valid()
    modifies t.repr
    ensures t.Valid() && t.repr == old(t.repr)
    ensures t.tree == T.Mult(old(t.tree), mul)
    decreases t.repr
  {
    hide GrpcNode.Valid, GrpcNode.Owned, Mul;
    t.Parts();
    t.value := Mul(t.value, mul);
    t.OnlySelf();
    for i := 0 to t.len
      invariant t.slots == old(t.slots) && t.len == old(t.len) && t.repr == old(t.repr) && t.tree == old(t.tree)
      invariant t.value == Mul(old(t.value), mul)
      invariant t in t.repr && t.Owned()
      invariant forall j :: 0 <= j < i ==> t.slots[j].tree == T.Mult(old(t.slots[j].tree), mul)
      invariant forall j :: i <= j < t.len ==> t.slots[j].tree == old(t.slots[j].tree)
    {
      label Before:
      t.Child(i);
      MultTree(mul, t.slots[i]);
      t.OnlyChild@Before(i);
    }
    t.Settle(T.Mult(t.tree, mul));
  }

  /** What a node shows has no spare capacity, at any depth. */
  lemma {:induction false} PlainTree(node: GrpcNode)
    requires node.Valid()
    ensures T.View(node.tree) == node.tree
    decreases node.repr
  {
    forall i | 0 <= i < node.len ensures T.View(node.tree.children[i]) == node.tree.children[i] {
      PlainTree(node.slots[i]);
    }
    assert T.View(node.tree).children == node.tree.children;
  }

  /** treeMatchesForMult on a gRPC response. */
  method TreeMatchesForMult(src: GrpcNode, tgt: Impl.TreeNodeImpl, mult: int64) returns (ok: bool)
    requires src.Valid() && tgt.Valid()
    ensures ok <==> src.tree == T.View(T.Mult(tgt.tree, mult))
    ensures ok <==> T.Multiplied(src.tree, tgt.tree, mult)
    decreases src.repr
  {
    hide T.Multiplied;
    ghost var want := T.View(T.Mult(tgt.tree, mult));
    PlainTree(src);
    T.ProductIff(src.tree, tgt.tree, mult);
    if Mul(tgt.value, mult) != src.value || tgt.len != src.len {
      return false;
    }
    for i := 0 to tgt.len
      invariant forall j :: 0 <= j < i ==> src.tree.children[j] == want.children[j]
    {
      var same := TreeMatchesForMult(src.slots[i], tgt.slots[i], mult);
      if !same {
        assert src.tree.children[i] != want.children[i];
        return false;
      }
    }
    assert src.tree.children == want.children;
    return true;
  }

  /** Stands for encoding a message, sending it and decoding it: a separate, equal tree. */
  method Deliver(t: GrpcNode) returns (copy: GrpcNode)
    requires t.Valid()
    ensures copy.Valid() && fresh(copy.repr) && copy.tree == t.tree
    decreases t.repr, 1
  {
    var kids;
    ghost var used;
    kids, used := DeliverChildren(t);
    copy := new GrpcNode();
    copy.value, copy.slots, copy.len := t.value, kids, |kids|;
    copy.repr, copy.tree := {copy} + used, t.tree;
  }

  method DeliverChildren(t: GrpcNode) returns (kids: seq<GrpcNode?>, ghost used: set<GrpcNode>)
    requires t.Valid()
    ensures |kids| == t.len && fresh(used)
    ensures forall j :: 0 <= j < |kids| ==>
              kids[j] != null && kids[j] in used && kids[j].repr <= used
              && kids[j].Valid() && kids[j].tree == t.tree.children[j]
    ensures forall j, k :: 0 <= j < k < |kids| ==> kids[j].repr !! kids[k].repr
    decreases t.repr, 0
  {
    kids, used := [], {};
    for i := 0 to t.len
      invariant |kids| == i && fresh(used)
      invariant forall j :: 0 <= j < i ==>
                  kids[j] != null && kids[j] in used && kids[j].repr <= used
                  && kids[j].Valid() && kids[j].tree == t.tree.children[j]
      invariant forall j, k :: 0 <= j < k < i ==> kids[j].repr !! kids[k].repr
    {
      var kid := Deliver(t.slots[i]);
      kids, used := kids + [kid], used + kid.repr;
    }
  }

  class GrpcClient {
    const tree: GrpcNode

    ghost predicate Valid()
      reads tree, tree.repr
    {
      tree.Valid()
    }

    constructor ()
      ensures Valid() && fresh(tree.repr)
    {
      tree := new GrpcNode();
    }

    /**
     One call, from any state earlier calls may have left: the response shows the source with
     every value multiplied, and it shares nothing with the request tree.
     */
    method MultTreeValues(mult: int64, src: Impl.TreeNodeImpl) returns (res: GrpcNode)
      requires Valid() && src.Valid()
      modifies tree.repr
      ensures Valid() && fresh(tree.repr - old(tree.repr))
      ensures tree.tree == T.View(src.tree)
      ensures res.Valid() && fresh(res.repr) && res.repr !! tree.repr
      ensures res.tree == T.View(T.Mult(src.tree, mult)) && T.Multiplied(res.tree, src.tree, mult)
    {
      hide T.View, T.Mult, T.Multiplied;
      CopyTree(src, tree);
      var request := Deliver(tree);
      MultTree(mult, request);
      res := Deliver(request);
      T.ViewOfMult(src.tree, mult);
      T.ViewTwice(T.Mult(src.tree, mult));
      T.ProductIff(res.tree, src.tree, mult);
    }
  }
}
