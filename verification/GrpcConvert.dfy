/** Conversions between the harness's trees and gRPC messages: grpc_utils.go, and copyLayout. */
module GrpcConvert {
  import opened Int64
  import opened Grpc
  import Impl = TreeNode
  import T = Trees

  // ---------- effects on trees ----------

  /** copyLayout: zero nodes in the shape of src; the root keeps its value. */
  function Layout(src: T.Tree, value: int64): T.Tree {
    T.Node(value, LayoutAll(src.children), [])
  }

  function LayoutAll(ts: seq<T.Tree>): (us: seq<T.Tree>)
    ensures |us| == |ts|
    ensures forall i :: 0 <= i < |ts| ==> us[i] == Layout(ts[i], 0)
  {
    seq(|ts|, i requires 0 <= i < |ts| => Layout(ts[i], 0))
  }

  datatype Imported<X> = Imported(got: X, ok: bool)

  /** grpcToTree: values are taken over in order until the child counts differ. */
  function Import(g: T.Tree, t: T.Tree): Imported<T.Tree> {
    if |g.children| != |t.children| then Imported(t, false)
    else
      var r := ImportAll(g.children, t.children);
      Imported(T.Node(g.value, r.got, t.spare), r.ok)
  }

  function ImportAll(gs: seq<T.Tree>, ts: seq<T.Tree>): (r: Imported<seq<T.Tree>>)
    requires |gs| == |ts|
    ensures |r.got| == |ts|
  {
    if gs == [] then Imported([], true)
    else
      var first := Import(gs[0], ts[0]);
      if !first.ok then Imported([first.got] + ts[1..], false)
      else
        var others := ImportAll(gs[1..], ts[1..]);
        Imported([first.got] + others.got, others.ok)
  }

  /** How many nodes come before the first whose child counts differ; all of them if none does. */
  function Matched(g: T.Tree, t: T.Tree): nat {
    if |g.children| != |t.children| then 0 else 1 + MatchedAll(g.children, t.children)
  }

  function MatchedAll(gs: seq<T.Tree>, ts: seq<T.Tree>): nat
    requires |gs| == |ts|
  {
    if gs == [] then 0
    else Matched(gs[0], ts[0]) + if Import(gs[0], ts[0]).ok then MatchedAll(gs[1..], ts[1..]) else 0
  }

  /**
   The import succeeds exactly on trees of the same shape; otherwise exactly the nodes before
   the first mismatch hold the new values.
   */
  lemma {:induction false} ImportEffect(g: T.Tree, t: T.Tree)
    ensures Import(g, t).ok <==> T.SameShape(g, t)
    ensures Matched(g, t) <= |T.Values(g)| && Matched(g, t) <= |T.Values(t)|
    ensures T.Values(Import(g, t).got) == T.Values(g)[..Matched(g, t)] + T.Values(t)[Matched(g, t)..]
    ensures Import(g, t).ok ==> Matched(g, t) == |T.Values(g)| == |T.Values(t)|
    ensures T.SameLayout(Import(g, t).got, t)
  {
    if |g.children| != |t.children| {
      T.LayoutReflexive(t);
    } else {
      hide ImportAll, MatchedAll, T.ValuesAll, T.SameLayoutAll;
      ImportAllEffect(g.children, t.children);
      RootOfForest(g, t, ImportAll(g.children, t.children).got);
      Behind([g.value], [t.value], T.ValuesAll(g.children), T.ValuesAll(t.children),
             MatchedAll(g.children, t.children));
    }
  }

  lemma RootOfForest(g: T.Tree, t: T.Tree, got: seq<T.Tree>)
    requires |g.children| == |t.children| && T.SameLayoutAll(got, t.children)
    ensures SameShapeAll(g.children, t.children) <==> T.SameShape(g, t)
    ensures T.SameLayout(T.Node(g.value, got, t.spare), t)
  {
  }

  ghost predicate SameShapeAll(gs: seq<T.Tree>, ts: seq<T.Tree>) {
    |gs| == |ts| && forall i :: 0 <= i < |gs| ==> T.SameShape(gs[i], ts[i])
  }

  lemma SameShapeStep(gs: seq<T.Tree>, ts: seq<T.Tree>)
    requires |gs| == |ts| && gs != []
    ensures SameShapeAll(gs, ts) <==> T.SameShape(gs[0], ts[0]) && SameShapeAll(gs[1..], ts[1..])
  {
    hide T.SameShape;
    if T.SameShape(gs[0], ts[0]) && SameShapeAll(gs[1..], ts[1..]) {
      forall i | 0 <= i < |gs| ensures T.SameShape(gs[i], ts[i]) {
        if i > 0 { assert T.SameShape(gs[1..][i - 1], ts[1..][i - 1]); }
      }
    }
  }

  lemma {:induction false} ImportAllEffect(gs: seq<T.Tree>, ts: seq<T.Tree>)
    requires |gs| == |ts|
    ensures ImportAll(gs, ts).ok <==> SameShapeAll(gs, ts)
    ensures MatchedAll(gs, ts) <= |T.ValuesAll(gs)| && MatchedAll(gs, ts) <= |T.ValuesAll(ts)|
    ensures T.ValuesAll(ImportAll(gs, ts).got)
         == T.ValuesAll(gs)[..MatchedAll(gs, ts)] + T.ValuesAll(ts)[MatchedAll(gs, ts)..]
    ensures ImportAll(gs, ts).ok ==> MatchedAll(gs, ts) == |T.ValuesAll(gs)| == |T.ValuesAll(ts)|
    ensures T.SameLayoutAll(ImportAll(gs, ts).got, ts)
  {
    if gs != [] {
      hide Import, Matched, T.Values, T.SameShape, T.SameLayout, SameShapeAll;
      var (g, t, gs', ts') := (gs[0], ts[0], gs[1..], ts[1..]);
      var first, r := Import(g, t), ImportAll(gs, ts);
      ImportEffect(g, t);
      SameShapeStep(gs, ts);
      if first.ok {
        var others := ImportAll(gs', ts');
        ImportAllEffect(gs', ts');
        assert r == Imported([first.got] + others.got, others.ok);
        FirstOfForest(first.got, others.got, ts);
        hide ImportAll, T.ValuesAll;
        assert T.Values(first.got) == T.Values(g);
        Behind(T.Values(g), T.Values(t), T.ValuesAll(gs'), T.ValuesAll(ts'), MatchedAll(gs', ts'));
      } else {
        assert r == Imported([first.got] + ts', false);
        T.LayoutReflexiveAll(ts');
        FirstOfForest(first.got, ts', ts);
        hide ImportAll, T.ValuesAll;
        Before(T.Values(g), T.Values(t), T.ValuesAll(gs'), T.ValuesAll(ts'), Matched(g, t));
      }
    }
  }

  lemma FirstOfForest(got: T.Tree, others: seq<T.Tree>, ts: seq<T.Tree>)
    requires ts != [] && T.SameLayout(got, ts[0]) && T.SameLayoutAll(others, ts[1..])
    ensures T.ValuesAll([got] + others) == T.Values(got) + T.ValuesAll(others)
    ensures T.SameLayoutAll([got] + others, ts)
  {
    hide T.SameLayout, T.Values;
    assert ([got] + others)[1..] == others;
  }

  lemma Behind(g: seq<int64>, t: seq<int64>, gs: seq<int64>, ts: seq<int64>, m: nat)
    requires |g| == |t| && m <= |gs| && m <= |ts|
    ensures g + (gs[..m] + ts[m..]) == (g + gs)[..|g| + m] + (t + ts)[|g| + m..]
  {
  }

  lemma Before(g: seq<int64>, t: seq<int64>, gs: seq<int64>, ts: seq<int64>, m: nat)
    requires m <= |g| && m <= |t|
    ensures (g[..m] + t[m..]) + ts == (g + gs)[..m] + (t + ts)[m..]
  {
  }

  lemma {:induction false} LayoutShape(src: T.Tree, value: int64)
    ensures T.SameShape(T.View(src), Layout(src, value))
    ensures T.View(Layout(src, value)) == Layout(src, value)
  {
    forall i | 0 <= i < |src.children|
      ensures T.SameShape(T.View(src.children[i]), Layout(src.children[i], 0))
      ensures T.View(Layout(src.children[i], 0)) == Layout(src.children[i], 0)
    {
      LayoutShape(src.children[i], 0);
    }
    assert T.View(Layout(src, value)).children == Layout(src, value).children;
  }

  /** To gRPC and back into a copy of the layout restores the source exactly. */
  lemma ConvertRoundTrip(src: T.Tree, value: int64)
    ensures Import(T.View(src), Layout(src, value)) == Imported(T.View(src), true)
  {
    var g, t := T.View(src), Layout(src, value);
    T.ViewEffect(src);
    LayoutShape(src, value);
    ImportEffect(g, t);
    var got := Import(g, t).got;
    assert T.Values(got) == T.Values(g);
    PlainLayout(g, t);
    T.LayoutTransitive(got, t, g);
    T.LayoutAndValuesDetermine(got, g);
  }

  lemma {:induction false} PlainLayout(g: T.Tree, t: T.Tree)
    requires T.SameShape(g, t) && T.View(g) == g && T.View(t) == t
    ensures T.SameLayout(g, t)
  {
    forall i | 0 <= i < |g.children| ensures T.SameLayout(g.children[i], t.children[i]) {
      assert T.View(g).children[i] == g.children[i] && T.View(t).children[i] == t.children[i];
      PlainLayout(g.children[i], t.children[i]);
    }
  }

  // ---------- the conversions ----------

  /** copyLayout: a new backing array at every node. */
  method CopyLayout(src: Impl.TreeNodeImpl, tgt: Impl.TreeNodeImpl)
    requires src.Valid() && tgt.Valid() && src.repr !! tgt.repr
    modifies tgt
    ensures tgt.Valid() && fresh(tgt.repr - {tgt})
    ensures tgt.tree == Layout(src.tree, old(tgt.value))
    decreases src.repr, 1
  {
    var kids;
    ghost var used;
    kids, used := LayoutChildren(src);
    tgt.slots, tgt.len := kids, |kids|;
    tgt.repr, tgt.tree := {tgt} + used, Layout(src.tree, tgt.value);
  }

  method LayoutChildren(src: Impl.TreeNodeImpl)
    returns (kids: seq<Impl.TreeNodeImpl>, ghost used: set<Impl.TreeNodeImpl>)
    requires src.Valid()
    ensures |kids| == src.len && fresh(used)
    ensures forall j :: 0 <= j < |kids| ==>
              kids[j] in used && kids[j].repr <= used && kids[j].Valid() && kids[j].tree == Layout(src.slots[j].tree, 0)
    ensures forall j, k :: 0 <= j < k < |kids| ==> kids[j].repr !! kids[k].repr
    decreases src.repr, 0
  {
    kids, used := [], {};
    for i := 0 to src.len
      invariant |kids| == i && fresh(used)
      invariant forall j :: 0 <= j < i ==>
                  kids[j] in used && kids[j].repr <= used
                  && kids[j].Valid() && kids[j].tree == Layout(src.slots[j].tree, 0)
      invariant forall j, k :: 0 <= j < k < i ==> kids[j].repr !! kids[k].repr
    {
      var kid := new Impl.TreeNodeImpl();
      CopyLayout(src.slots[i], kid);
      kids, used := kids + [kid], used + kid.repr;
    }
  }

  /** treeToGrpc: new message nodes throughout. */
  method TreeToGrpc(t: Impl.TreeNodeImpl, g: GrpcNode)
    requires t.Valid() && g.Valid()
    modifies g
    ensures g.Valid() && fresh(g.repr - {g}) && g.tree == T.View(t.tree)
    decreases t.repr, 1
  {
    var kids;
    ghost var used;
    kids, used := ChildrenToGrpc(t);
    g.value, g.slots, g.len := t.value, kids, |kids|;
    g.repr, g.tree := {g} + used, T.View(t.tree);
  }

  method ChildrenToGrpc(t: Impl.TreeNodeImpl) returns (kids: seq<GrpcNode?>, ghost used: set<GrpcNode>)
    requires t.Valid()
    ensures |kids| == t.len && fresh(used)
    ensures forall j :: 0 <= j < |kids| ==>
              kids[j] != null && kids[j] in used && kids[j].repr <= used
              && kids[j].Valid() && kids[j].tree == T.View(t.slots[j].tree)
    ensures forall j, k :: 0 <= j < k < |kids| ==> kids[j].repr !! kids[k].repr
    decreases t.repr, 0
  {
    kids, used := [], {};
    for i := 0 to t.len
      invariant |kids| == i && fresh(used)
      invariant forall j :: 0 <= j < i ==>
                  kids[j] != null && kids[j] in used && kids[j].repr <= used
                  && kids[j].Valid() && kids[j].tree == T.View(t.slots[j].tree)
      invariant forall j, k :: 0 <= j < k < i ==> kids[j].repr !! kids[k].repr
    {
      var kid := new GrpcNode();
      TreeToGrpc(t.slots[i], kid);
      kids, used := kids + [kid], used + kid.repr;
    }
  }

  /** grpcToTree: on a mismatch it stops where it is. */
  method GrpcToTree(g: GrpcNode, t: Impl.TreeNodeImpl) returns (ok: bool)
    requires g.Valid() && t.Valid()
    modifies t.repr
    ensures t.Valid() && t.repr == old(t.repr)
    ensures Imported(t.tree, ok) == Import(g.tree, old(t.tree))
    decreases g.repr, 1
  {
    if g.len != t.len {
      return false;
    }
    t.SetValue(g.value);
    ok := ChildrenToTree(g, t);
  }

  /** The loop of grpcToTree. */
  method ChildrenToTree(g: GrpcNode, t: Impl.TreeNodeImpl) returns (ok: bool)
    requires g.Valid() && t.Valid() && g.len == t.len
    modifies t.repr
    ensures t.Valid() && t.repr == old(t.repr)
    ensures t.tree.value == old(t.tree).value && t.tree.spare == old(t.tree).spare
    ensures Imported(t.tree.children, ok) == ImportAll(g.tree.children, old(t.tree).children)
    decreases g.repr, 0
  {
    hide Import, ImportAll, GrpcNode.Valid, GrpcNode.Owned, Impl.TreeNodeImpl.Valid, Impl.TreeNodeImpl.Owned;
    g.Parts();
    t.Parts();
    ghost var was, gs := t.tree, g.tree.children;
    ghost var ts := was.children;
    ghost var whole := ImportAll(gs, ts);
    assert gs[0..] == gs && ts[0..] == ts && whole.got[0..] == whole.got;
    for i := 0 to t.len
      invariant t.slots == old(t.slots) && t.len == old(t.len) && t.value == old(t.value)
      invariant t.repr == old(t.repr) && t.tree == was && t in t.repr && t.Owned()
      invariant forall j :: 0 <= j < i ==> t.slots[j].tree == whole.got[j]
      invariant forall j :: i <= j < |t.slots| ==> t.slots[j].tree == old(t.slots[j].tree)
      invariant ImportAll(gs[i..], ts[i..]) == Imported(whole.got[i..], whole.ok)
    {
      label Before:
      g.Child(i);
      t.Child(i);
      ImportRound(gs, ts, i, whole);
      ok := GrpcToTree(g.slots[i], t.slots[i]);
      t.OnlyChild@Before(i);
      if !ok {
        t.Settle(was.(children := whole.got));
        return;
      }
    }
    ImportDone(gs, ts, t.len);
    t.Settle(was.(children := whole.got));
    ok := true;
  }

  lemma ImportDone(gs: seq<T.Tree>, ts: seq<T.Tree>, n: nat)
    requires |gs| == |ts| == n
    ensures ImportAll(gs[n..], ts[n..]) == Imported([], true)
  {
  }

  lemma ImportRound(gs: seq<T.Tree>, ts: seq<T.Tree>, i: nat, whole: Imported<seq<T.Tree>>)
    requires i < |gs| == |ts| == |whole.got|
    requires ImportAll(gs[i..], ts[i..]) == Imported(whole.got[i..], whole.ok)
    ensures var first := Import(gs[i], ts[i]);
      && whole.got[i] == first.got
      && (first.ok ==> ImportAll(gs[i + 1..], ts[i + 1..]) == Imported(whole.got[i + 1..], whole.ok))
      && (!first.ok ==> !whole.ok && whole.got[i + 1..] == ts[i + 1..])
  {
    hide Import;
    assert gs[i..][0] == gs[i] && gs[i..][1..] == gs[i + 1..];
    assert ts[i..][0] == ts[i] && ts[i..][1..] == ts[i + 1..];
    var r := ImportAll(gs[i..], ts[i..]);
    assert r.got[0] == whole.got[i] && r.got[1..] == whole.got[i + 1..];
  }
}
