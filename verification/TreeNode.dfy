/**
 rpcbench.TreeNodeImpl: nodes whose children slices keep their backing arrays. The first
 half says what each operation does to a tree with its spare capacity; the second half is
 the mutable node itself.
 */
module TreeNode {
  import opened Int64
  import T = Trees

  // ---------- effects on trees with spare capacity ----------

  function Leaves(n: nat): (ts: seq<T.Tree>)
    ensures |ts| == n
  {
    seq(n, i => T.LEAF)
  }

  /** InitChildren: reslice within capacity, otherwise a new array of zero nodes. */
  function Resized(t: T.Tree, n: nat): (u: T.Tree)
    ensures |u.children| == n
  {
    var all := t.children + t.spare;
    if |all| >= n then T.Node(t.value, all[..n], all[n..]) else T.Node(t.value, Leaves(n), [])
  }

  /** Reset: every visible node is truncated, bottom up, and keeps its storage. */
  function Truncated(t: T.Tree): T.Tree {
    T.Node(t.value, [], TruncatedAll(t.children) + t.spare)
  }

  function TruncatedAll(ts: seq<T.Tree>): (us: seq<T.Tree>)
    ensures |us| == |ts|
    ensures forall i :: 0 <= i < |ts| ==> us[i] == Truncated(ts[i])
  {
    seq(|ts|, i requires 0 <= i < |ts| => Truncated(ts[i]))
  }

  /** copyTree from src into the storage of t, whatever t holds. */
  function Copied(src: T.Tree, t: T.Tree): T.Tree {
    var u := Resized(t, |src.children|);
    T.Node(src.value, CopiedAll(src.children, u.children), u.spare)
  }

  function CopiedAll(srcs: seq<T.Tree>, ts: seq<T.Tree>): (us: seq<T.Tree>)
    requires |ts| == |srcs|
    ensures |us| == |ts|
    ensures forall i :: 0 <= i < |ts| ==> us[i] == Copied(srcs[i], ts[i])
  {
    seq(|srcs|, i requires 0 <= i < |srcs| => Copied(srcs[i], ts[i]))
  }

  lemma CopiedParts(src: T.Tree, t: T.Tree)
    ensures var c, u, n := Copied(src, t), Resized(t, |src.children|), |src.children|;
      && c.value == src.value && |c.children| == n && c.spare == u.spare
      && forall i :: 0 <= i < n ==> c.children[i] == Copied(src.children[i], u.children[i])
  {
  }

  lemma ResizedValue(t: T.Tree, v: int64, n: nat)
    ensures Resized(t.(value := v), n) == Resized(t, n).(value := v)
  {
  }

  /** A dirty, reused tree is observationally a fresh copy of the source. */
  lemma {:induction false} CopyShowsSource(src: T.Tree, t: T.Tree)
    ensures T.View(Copied(src, t)) == T.View(src)
  {
    var u := Resized(t, |src.children|);
    var c := Copied(src, t);
    forall i | 0 <= i < |src.children|
      ensures T.View(c.children[i]) == T.View(src.children[i])
    {
      CopyShowsSource(src.children[i], u.children[i]);
    }
    assert T.View(c).children == T.View(src).children;
  }

  // ---------- hidden storage ----------

  /** All nodes a tree holds, visible or hidden. */
  function Stored(t: T.Tree): (n: nat) {
    1 + StoredAll(t.children) + StoredAll(t.spare)
  }

  function StoredAll(ts: seq<T.Tree>): nat {
    if ts == [] then 0 else Stored(ts[0]) + StoredAll(ts[1..])
  }

  lemma {:induction false} StoredAppend(ts: seq<T.Tree>, us: seq<T.Tree>)
    ensures StoredAll(ts + us) == StoredAll(ts) + StoredAll(us)
  {
    if ts == [] {
      assert ts + us == us;
    } else {
      assert (ts + us)[1..] == ts[1..] + us;
      StoredAppend(ts[1..], us);
    }
  }

  /** Reset truncates and frees nothing. */
  lemma {:induction false} ResetKeepsStorage(t: T.Tree)
    ensures Stored(Truncated(t)) == Stored(t) && T.Total(Truncated(t)) == 1
  {
    ResetKeepsStorageAll(t.children);
    StoredAppend(TruncatedAll(t.children), t.spare);
  }

  lemma {:induction false} ResetKeepsStorageAll(ts: seq<T.Tree>)
    ensures StoredAll(TruncatedAll(ts)) == StoredAll(ts)
  {
    if ts != [] {
      ResetKeepsStorage(ts[0]);
      ResetKeepsStorageAll(ts[1..]);
      assert TruncatedAll(ts)[1..] == TruncatedAll(ts[1..]);
    }
  }

  /** The values of all nodes a tree holds, visible or hidden. */
  function StoredValues(t: T.Tree): seq<int64> {
    [t.value] + (StoredValuesAll(t.children) + StoredValuesAll(t.spare))
  }

  function StoredValuesAll(ts: seq<T.Tree>): seq<int64> {
    if ts == [] then [] else StoredValues(ts[0]) + StoredValuesAll(ts[1..])
  }

  lemma {:induction false} StoredValuesAppend(ts: seq<T.Tree>, us: seq<T.Tree>)
    ensures StoredValuesAll(ts + us) == StoredValuesAll(ts) + StoredValuesAll(us)
  {
    if ts == [] {
      assert ts + us == us;
    } else {
      assert (ts + us)[1..] == ts[1..] + us;
      StoredValuesAppend(ts[1..], us);
    }
  }

  /** Reset writes no value: every node it hides keeps its own. */
  lemma {:induction false} ResetKeepsValues(t: T.Tree)
    ensures Truncated(t).value == t.value && StoredValues(Truncated(t)) == StoredValues(t)
  {
    ResetKeepsValuesAll(t.children);
    StoredValuesAppend(TruncatedAll(t.children), t.spare);
    assert StoredValuesAll([]) == [];
  }

  lemma {:induction false} ResetKeepsValuesAll(ts: seq<T.Tree>)
    ensures StoredValuesAll(TruncatedAll(ts)) == StoredValuesAll(ts)
  {
    if ts != [] {
      ResetKeepsValues(ts[0]);
      ResetKeepsValuesAll(ts[1..]);
      assert TruncatedAll(ts)[1..] == TruncatedAll(ts[1..]);
    }
  }

  /**
   Within capacity InitChildren re-exposes the nodes it kept, in order, and frees nothing; beyond
   it every child is a new leaf and nothing is kept.
   */
  lemma ResizeKeepsStorage(t: T.Tree, n: nat)
    ensures n <= |t.children| + |t.spare| ==>
      Resized(t, n).children + Resized(t, n).spare == t.children + t.spare && Stored(Resized(t, n)) == Stored(t)
    ensures n > |t.children| + |t.spare| ==>
      Stored(Resized(t, n)) == n + 1 && forall i :: 0 <= i < n ==> Resized(t, n).children[i] == T.LEAF
  {
    var u := Resized(t, n);
    if n > |t.children| + |t.spare| {
      StoredLeaves(n);
    }
    StoredAppend(u.children, u.spare);
    StoredAppend(t.children, t.spare);
  }

  lemma {:induction false} StoredLeaves(n: nat)
    ensures StoredAll(Leaves(n)) == n
  {
    if n > 0 {
      assert Leaves(n)[1..] == Leaves(n - 1);
      StoredLeaves(n - 1);
    }
  }

  /** Refilling a tree with a shape it has just shown allocates nothing: the layout is as it was. */
  lemma {:induction false} RefillReuses(src: T.Tree, t: T.Tree)
    requires T.SameShape(src, t)
    ensures T.SameLayout(Copied(src, Truncated(t)), t)
  {
    var r := Truncated(t);
    var u := Resized(r, |src.children|);
    assert u.children == TruncatedAll(t.children) && u.spare == t.spare;
    forall i | 0 <= i < |t.children|
      ensures T.SameLayout(Copied(src.children[i], u.children[i]), t.children[i])
    {
      RefillReuses(src.children[i], t.children[i]);
    }
  }

  /** No visible children, nor any in the storage kept behind. */
  ghost predicate Bare(t: T.Tree) {
    t.children == [] && forall i :: 0 <= i < |t.spare| ==> Bare(t.spare[i])
  }

  /** Every spare node, at every depth, is bare. */
  ghost predicate Collapsed(t: T.Tree) {
    && (forall i :: 0 <= i < |t.children| ==> Collapsed(t.children[i]))
    && (forall i :: 0 <= i < |t.spare| ==> Bare(t.spare[i]))
  }

  /** Truncating a collapsed tree leaves nothing that a later reslice could expose. */
  lemma {:induction false} ResetMakesBare(t: T.Tree)
    requires Collapsed(t)
    ensures Bare(Truncated(t))
  {
    forall i | 0 <= i < |Truncated(t).spare| ensures Bare(Truncated(t).spare[i]) {
      if i < |t.children| {
        ResetMakesBare(t.children[i]);
      }
    }
  }

  /** On bare storage InitChildren always reveals leaves, new or reused. */
  lemma BareReveals(t: T.Tree, n: nat)
    requires Bare(t)
    ensures Collapsed(Resized(t, n))
    ensures forall i :: 0 <= i < n ==> Bare(Resized(t, n).children[i])
  {
    var u := Resized(t, n);
    assert t.children + t.spare == t.spare;
    forall i | 0 <= i < n ensures Bare(u.children[i]) && Collapsed(u.children[i]) {
      BareIsCollapsed(u.children[i]);
    }
  }

  lemma {:induction false} BareIsCollapsed(t: T.Tree)
    requires Bare(t)
    ensures Collapsed(t)
  {
  }

  /** Copying into bare storage keeps everything hidden bare. */
  lemma {:induction false} CopyKeepsCollapsed(src: T.Tree, t: T.Tree)
    requires Bare(t)
    ensures Collapsed(Copied(src, t))
  {
    var n := |src.children|;
    BareReveals(t, n);
    var u := Resized(t, n);
    forall i | 0 <= i < n ensures Collapsed(Copied(src, t).children[i]) {
      CopyKeepsCollapsed(src.children[i], u.children[i]);
    }
  }

  lemma {:induction false} LayoutKeepsCollapsed(t: T.Tree, u: T.Tree)
    requires T.SameLayout(t, u) && Collapsed(u)
    ensures Collapsed(t)
  {
    forall i | 0 <= i < |t.children| ensures Collapsed(t.children[i]) {
      LayoutKeepsCollapsed(t.children[i], u.children[i]);
    }
  }

  /**
   Without the Reset the property is lost: copying a leaf over a tree two levels deep hides a
   node that still shows a child.
   */
  lemma CopyAloneLeavesStaleChildren()
    ensures var deep := T.Node(0, [T.Node(0, [T.LEAF], [])], []);
      Collapsed(deep) && !Collapsed(Copied(T.LEAF, deep))
  {
    var deep := T.Node(0, [T.Node(0, [T.LEAF], [])], []);
    assert T.LEAF.children == [];
    assert Collapsed(deep.children[0].children[0]);
    var c := Copied(T.LEAF, deep);
    assert c.spare == deep.children + [] == deep.children;
    assert c.spare[0].children != [];
    assert !Bare(c.spare[0]);
  }

  // ---------- the node ----------

  class TreeNodeImpl {
    var value: int64
    var slots: seq<TreeNodeImpl>        // the backing array of Children, up to its capacity
    var len: nat                        // len(Children)
    ghost var repr: set<TreeNodeImpl>
    ghost var tree: T.Tree

    /** Each slot, hidden or visible, is the root of a subtree of its own. */
    ghost predicate Owned()
      reads this, repr
      decreases repr, 0
    {
      && this in repr
      && (forall i :: 0 <= i < |slots| ==>
            slots[i] in repr && slots[i].repr <= repr && this !in slots[i].repr && slots[i].Valid())
      && (forall i, j :: 0 <= i < j < |slots| ==> slots[i].repr !! slots[j].repr)
    }

    ghost predicate Shows(t: T.Tree)
      reads this, slots
    {
      && t.value == value
      && |t.children| == len <= |slots|
      && |t.spare| == |slots| - len
      && (forall i :: 0 <= i < len ==> t.children[i] == slots[i].tree)
      && (forall i :: len <= i < |slots| ==> t.spare[i - len] == slots[i].tree)
    }

    ghost predicate Valid()
      reads this, repr
      ensures Valid() ==> this in repr
      decreases repr
    {
      this in repr && (forall i :: 0 <= i < |slots| ==> slots[i] in repr) && Owned() && Shows(tree)
    }

    constructor ()
      ensures Valid() && fresh(repr) && tree == T.LEAF
    {
      value, slots, len := 0, [], 0;
      repr, tree := {this}, T.LEAF;
    }

    lemma Parts()
      requires Valid()
      ensures this in repr && Owned() && Shows(tree)
      ensures forall i :: 0 <= i < |slots| ==> slots[i] in repr
    {
    }

    lemma Visible()
      requires Valid()
      ensures len <= |slots|
    {
    }

    lemma Whole()
      requires this in repr && Owned() && Shows(tree)
      requires forall i :: 0 <= i < |slots| ==> slots[i] in repr
      ensures Valid()
    {
    }

    method SetValue(v: int64)
      requires Valid()
      modifies this
      ensures Valid() && tree == old(tree).(value := v)
      ensures repr == old(repr) && slots == old(slots) && len == old(len)
    {
      value := v;
      tree := tree.(value := v);
    }

    lemma Child(k: nat)
      requires this in repr && Owned() && k < |slots|
      ensures slots[k] in repr && slots[k].Valid() && slots[k].repr <= repr && this !in slots[k].repr
    {
    }

    /** Assigning the node's own fields leaves its children alone. */
    twostate lemma OnlySelf()
      requires old(this in repr && Owned())
      requires slots == old(slots) && repr == old(repr)
      requires forall o: TreeNodeImpl | o in repr && o != this :: unchanged(o)
      ensures Owned()
      ensures forall j :: 0 <= j < |slots| ==>
                slots[j] in repr && slots[j].tree == old(slots[j].tree) && slots[j].repr == old(slots[j].repr)
    {
      hide Valid, Shows;
    }

    /** A call on child k touches its subtree only: the other children are as they were. */
    twostate lemma OnlyChild(k: nat)
      requires old(this in repr && Owned())
      requires slots == old(slots) && k < |slots|
      requires forall o: TreeNodeImpl | o in old(repr) && o != this && o !in old(slots[k].repr) :: unchanged(o)
      requires slots[k].Valid()
      requires fresh(slots[k].repr - old(slots[k].repr))
      requires repr == old(repr) + slots[k].repr
      ensures this in repr && Owned()
      ensures forall j :: 0 <= j < |slots| ==> slots[j] in repr
      ensures forall j :: 0 <= j < |slots| && j != k ==>
                slots[j].tree == old(slots[j].tree) && slots[j].repr == old(slots[j].repr)
    {
      hide Valid, Shows;
      forall j | 0 <= j < |slots| && j != k
        ensures slots[j] in repr && slots[j].Valid() && slots[j].repr <= repr
        ensures slots[j].tree == old(slots[j].tree) && slots[j].repr == old(slots[j].repr)
        ensures this !in slots[j].repr && slots[j].repr !! slots[k].repr
      {
        assert old(slots[j].repr) !! old(slots[k].repr) by {
          if j < k {} else {}
        }
      }
    }

    /** The trees of the slots from i to j. */
    ghost function Between(i: nat, j: nat): (ts: seq<T.Tree>)
      requires i <= j <= |slots|
      reads this, slots
      ensures |ts| == j - i && forall k :: 0 <= k < j - i ==> ts[k] == slots[i + k].tree
      decreases j
    {
      if i == j then [] else Between(i, j - 1) + [slots[j - 1].tree]
    }

    /** What the node shows now. */
    ghost function Now(): (t: T.Tree)
      requires len <= |slots|
      reads this, slots
      ensures Shows(t)
    {
      T.Node(value, Between(0, len), Between(len, |slots|))
    }

    lemma NowParts()
      requires len <= |slots|
      ensures var t := Now();
        && |t.children| == len && |t.spare| == |slots| - len && t.value == value
        && (forall i :: 0 <= i < len ==> t.children[i] == slots[i].tree)
        && (forall i :: 0 <= i < |t.spare| ==> t.spare[i] == slots[len + i].tree)
    {
    }

    /** Record the tree the node has come to show. */
    ghost method Settle(t: T.Tree)
      requires this in repr && Owned() && Shows(t)
      modifies this`tree
      ensures Valid() && tree == t
    {
      hide Valid, Owned;
      tree := t;
      OnlySelf();
      Whole();
    }

    method Mult(m: int64)
      requires Valid()
      modifies repr
      ensures Valid() && repr == old(repr)
      ensures tree == T.Mult(old(tree), m)
      decreases repr
    {
      hide Valid, Owned, Mul;
      Parts();
      value := Mul(value, m);
      OnlySelf();
      for i := 0 to len
        invariant slots == old(slots) && len == old(len) && repr == old(repr) && tree == old(tree)
        invariant value == Mul(old(value), m)
        invariant this in repr && Owned()
        invariant forall j :: 0 <= j < i ==> slots[j].tree == T.Mult(old(slots[j].tree), m)
        invariant forall j :: i <= j < |slots| ==> slots[j].tree == old(slots[j].tree)
      {
        label Before:
        Child(i);
        slots[i].Mult(m);
        OnlyChild@Before(i);
      }
      Settle(T.Mult(tree, m));
    }

    method InitChildren(n: nat)
      requires Valid()
      modifies this
      ensures Valid() && fresh(repr - old(repr))
      ensures tree == Resized(old(tree), n) && len == n && value == old(value)
      ensures |old(slots)| >= n ==> slots == old(slots)
      ensures |old(slots)| < n ==> fresh(repr - {this})
    {
      hide Valid;
      ghost var all := tree.children + tree.spare;
      Parts();
      if |slots| >= n {
        hide Owned;
        len := n;
        OnlySelf();
        assert forall j :: 0 <= j < |slots| ==> all[j] == slots[j].tree;
      } else {
        Replace(n);
      }
      hide Owned;
      Settle(Resized(tree, n));
    }

    /** A new backing array of n zero nodes. */
    method Replace(n: nat)
      modifies this`slots, this`len, this`repr
      ensures this in repr && Owned() && fresh(repr - {this}) && len == |slots| == n
      ensures forall j :: 0 <= j < n ==> slots[j].tree == T.LEAF
    {
      hide Valid;
      var nodes, used := NewNodes(n);
      slots, len := nodes, n;
      repr := {this} + used;
    }

    method Reset()
      requires Valid()
      modifies repr
      ensures Valid() && repr == old(repr) && slots == old(slots)
      ensures tree == Truncated(old(tree))
      decreases repr
    {
      hide Valid, Owned;
      Parts();
      for i := 0 to len
        invariant slots == old(slots) && len == old(len) && repr == old(repr) && tree == old(tree)
        invariant value == old(value)
        invariant this in repr && Owned()
        invariant forall j :: 0 <= j < i ==> slots[j].tree == Truncated(old(slots[j].tree))
        invariant forall j :: i <= j < |slots| ==> slots[j].tree == old(slots[j].tree)
      {
        label Before:
        Child(i);
        slots[i].Reset();
        OnlyChild@Before(i);
      }
      label After:
      len := 0;
      OnlySelf@After();
      Settle(Truncated(tree));
    }

    method TotalNodes() returns (sum: nat)
      requires Valid()
      ensures sum == T.Total(tree)
      decreases repr
    {
      sum := 1;
      for i := 0 to len
        invariant sum + T.TotalAll(tree.children[i..]) == T.Total(tree)
      {
        var n := slots[i].TotalNodes();
        sum := sum + n;
      }
    }
  }

  /** make([]TreeNodeImpl, n): n separate zero nodes. */
  method NewNodes(n: nat) returns (nodes: seq<TreeNodeImpl>, ghost used: set<TreeNodeImpl>)
    ensures |nodes| == n && fresh(used)
    ensures forall i :: 0 <= i < n ==> nodes[i].Valid() && nodes[i].tree == T.LEAF
    ensures forall i :: 0 <= i < n ==> nodes[i] in used && nodes[i].repr <= used
    ensures forall i, j :: 0 <= i < j < n ==> nodes[i].repr !! nodes[j].repr
  {
    nodes, used := [], {};
    while |nodes| < n
      invariant |nodes| <= n && fresh(used)
      invariant forall i :: 0 <= i < |nodes| ==> nodes[i].Valid() && nodes[i].tree == T.LEAF
      invariant forall i :: 0 <= i < |nodes| ==> nodes[i] in used && nodes[i].repr <= used
      invariant forall i, j :: 0 <= i < j < |nodes| ==> nodes[i].repr !! nodes[j].repr
    {
      var node := new TreeNodeImpl();
      nodes := nodes + [node];
      used := used + node.repr;
    }
  }

  /** copyTree: fill `to`, fresh or reused, with the values and shape of `from`. */
  method CopyTree(from: TreeNodeImpl, to: TreeNodeImpl)
    requires from.Valid() && to.Valid() && from.repr !! to.repr
    modifies to.repr
    ensures to.Valid() && fresh(to.repr - old(to.repr))
    ensures to.tree == Copied(from.tree, old(to.tree))
    ensures T.View(to.tree) == T.View(from.tree)
    decreases from.repr, 1
  {
    hide T.View, Copied, Resized, TreeNodeImpl.Owned;
    ResizedValue(to.tree, from.value, from.len);
    CopyShowsSource(from.tree, to.tree);
    CopiedParts(from.tree, to.tree);
    to.SetValue(from.value);
    to.InitChildren(from.len);
    CopyChildren(from, to);
    to.Settle(Copied(from.tree, old(to.tree)));
  }

  /** The loop of copyTree, on the resized node. */
  method CopyChildren(from: TreeNodeImpl, to: TreeNodeImpl)
    requires from.Valid() && to.Valid() && from.repr !! to.repr && to.len == from.len
    modifies to.repr
    ensures to in to.repr && to.Owned() && fresh(to.repr - old(to.repr))
    ensures to.slots == old(to.slots) && to.len == old(to.len) && to.value == old(to.value)
    ensures forall j :: 0 <= j < to.len ==> to.slots[j].tree == Copied(from.slots[j].tree, old(to.slots[j].tree))
    ensures forall j :: to.len <= j < |to.slots| ==> to.slots[j].tree == old(to.slots[j].tree)
    decreases from.repr, 0
  {
    hide T.View, Copied, TreeNodeImpl.Valid, TreeNodeImpl.Owned, TreeNodeImpl.Shows;
    from.Parts();
    to.Parts();
    from.Visible();
    to.Visible();
    for i := 0 to to.len
      invariant to.slots == old(to.slots) && to.len == old(to.len) && to.value == old(to.value)
      invariant fresh(to.repr - old(to.repr))
      invariant to in to.repr && to.Owned()
      invariant forall j :: 0 <= j < i ==> to.slots[j].tree == Copied(from.slots[j].tree, old(to.slots[j].tree))
      invariant forall j :: i <= j < |to.slots| ==> to.slots[j].tree == old(to.slots[j].tree)
    {
      label Before:
      from.Child(i);
      to.Child(i);
      CopyTree(from.slots[i], to.slots[i]);
      to.repr := to.repr + to.slots[i].repr;
      to.OnlyChild@Before(i);
    }
  }

  /** treeMatchesForMult: the harness's check of a tree reply against its request. */
  method TreeMatchesForMult(src: TreeNodeImpl, tgt: TreeNodeImpl, mult: int64) returns (ok: bool)
    requires src.Valid() && tgt.Valid()
    ensures ok <==> T.View(src.tree) == T.View(T.Mult(tgt.tree, mult))
    ensures ok <==> T.Multiplied(src.tree, tgt.tree, mult)
    decreases src.repr
  {
    hide T.Multiplied;
    T.MultipliedIff(src.tree, tgt.tree, mult);
    if Mul(tgt.value, mult) != src.value || tgt.len != src.len {
      return false;
    }
    for i := 0 to tgt.len
      invariant forall j :: 0 <= j < i ==>
                  T.View(src.tree.children[j]) == T.View(T.Mult(tgt.tree.children[j], mult))
    {
      var same := TreeMatchesForMult(src.slots[i], tgt.slots[i], mult);
      if !same {
        assert T.View(src.tree).children[i] != T.View(T.Mult(tgt.tree, mult)).children[i];
        return false;
      }
    }
    assert T.View(src.tree).children == T.View(T.Mult(tgt.tree, mult)).children;
    return true;
  }
}
