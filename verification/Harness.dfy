/** The harness's test trees: makeDenseTreeNode, makeRandomTree and newClientHarness. */
module Harness {
  import opened Int64
  import opened TreeNode
  import opened Rng
  import T = Trees
  import Frames
  import TcpSession
  import TcpLiveness
  import TcpBlocking

  // ---------- dense trees ----------

  /** makeDenseTreeNode, on trees: nothing below level 0 is touched, stale or not. */
  function Dense(t: T.Tree, density: nat, level: int): T.Tree
    decreases level, 1
  {
    if level <= 0 then t
    else
      var u := Resized(t, density);
      T.Node(u.value, DenseAll(u.children, density, level - 1), u.spare)
  }

  function DenseAll(ts: seq<T.Tree>, density: nat, level: int): (us: seq<T.Tree>)
    ensures |us| == |ts|
    ensures forall i :: 0 <= i < |ts| ==> us[i] == Dense(ts[i], density, level)
    decreases level, 2
  {
    seq(|ts|, i requires 0 <= i < |ts| => Dense(ts[i], density, level))
  }

  /** The nodes of a tree in which every node above level 0 has d children. */
  function Geometric(d: nat, level: int): (n: nat)
    ensures n >= 1
    decreases level
  {
    if level <= 0 then 1 else 1 + d * Geometric(d, level - 1)
  }

  function Pow(b: int, e: nat): int { if e == 0 then 1 else b * Pow(b, e - 1) }

  /** 1 + d + ... + d^level, summed. */
  lemma {:induction false} GeometricSum(d: nat, level: nat)
    ensures (d - 1) * Geometric(d, level) == Pow(d, level + 1) - 1
  {
    if level == 0 {
      assert Pow(d, 1) == d * Pow(d, 0);
    } else {
      GeometricSum(d, level - 1);
      var g, p := Geometric(d, level - 1), Pow(d, level);
      hide Geometric, Pow;
      Distribute(d - 1, d, g);
      assert d * ((d - 1) * g) == d * (p - 1);
      Distribute(d, -1, -p);
    }
  }

  lemma Distribute(a: int, b: int, g: int)
    ensures a * (1 + b * g) == a + b * (a * g)
  {
    assert a * (1 + b * g) == a + a * (b * g);
    assert a * (b * g) == b * (a * g);
  }

  /** Every leaf at the same depth. */
  ghost predicate LeavesAt(t: T.Tree, depth: nat) {
    if depth == 0 then t.children == []
    else t.children != [] && forall i :: 0 <= i < |t.children| ==> LeavesAt(t.children[i], depth - 1)
  }

  lemma {:induction false} EqualTotals(ts: seq<T.Tree>, n: nat)
    requires forall i :: 0 <= i < |ts| ==> T.Total(ts[i]) == n
    ensures T.TotalAll(ts) == |ts| * n
  {
    if ts != [] {
      EqualTotals(ts[1..], n);
      assert |ts| * n == n + (|ts| - 1) * n;
    }
  }

  lemma DenseParts(t: T.Tree, d: nat, level: int)
    requires level > 0
    ensures var u, c := Resized(t, d), Dense(t, d, level);
      && c.value == u.value && c.spare == u.spare && |c.children| == d
      && forall i :: 0 <= i < d ==> c.children[i] == Dense(u.children[i], d, level - 1)
  {
  }

  /**
   From a leaf, a dense tree of density d and level l has 1 + d + ... + d^l nodes, and all its
   leaves lie at depth l.
   */
  lemma {:induction false} DenseShape(t: T.Tree, d: nat, level: nat)
    requires Bare(t) && d >= 1
    ensures T.Total(Dense(t, d, level)) == Geometric(d, level)
    ensures LeavesAt(Dense(t, d, level), level)
    decreases level
  {
    if level > 0 {
      var u := Resized(t, d);
      BareReveals(t, d);
      DenseParts(t, d, level);
      var kids := Dense(t, d, level).children;
      hide Dense, Resized, Bare;
      forall i | 0 <= i < d
        ensures T.Total(kids[i]) == Geometric(d, level - 1) && LeavesAt(kids[i], level - 1)
      {
        DenseShape(u.children[i], d, level - 1);
      }
      EqualTotals(kids, Geometric(d, level - 1));
    }
  }

  method MakeDenseTreeNode(src: TreeNodeImpl, density: nat, level: int)
    requires src.Valid()
    modifies src.repr
    ensures src.Valid() && fresh(src.repr - old(src.repr))
    ensures src.tree == Dense(old(src.tree), density, level)
    decreases level, 1
  {
    if level <= 0 {
      return;
    }
    hide TreeNodeImpl.Valid;
    src.InitChildren(density);
    DenseChildren(src, density, level);
  }

  /** The loop of makeDenseTreeNode. */
  method DenseChildren(src: TreeNodeImpl, density: nat, level: int)
    requires src.Valid() && src.len == density && level > 0
    modifies src.repr
    ensures src.Valid() && fresh(src.repr - old(src.repr))
    ensures var t := old(src.tree);
      src.tree == T.Node(t.value, DenseAll(t.children, density, level - 1), t.spare)
    decreases level, 0
  {
    hide TreeNodeImpl.Valid, TreeNodeImpl.Owned, Dense;
    src.Parts();
    src.Visible();
    for i := 0 to density
      invariant src.slots == old(src.slots) && src.len == density && src.value == old(src.value)
      invariant src.tree == old(src.tree)
      invariant fresh(src.repr - old(src.repr)) && src in src.repr && src.Owned()
      invariant forall j :: 0 <= j < i ==> src.slots[j].tree == Dense(old(src.slots[j].tree), density, level - 1)
      invariant forall j :: i <= j < |src.slots| ==> src.slots[j].tree == old(src.slots[j].tree)
    {
      label Before:
      src.Child(i);
      MakeDenseTreeNode(src.slots[i], density, level - 1);
      src.repr := src.repr + src.slots[i].repr;
      src.OnlyChild@Before(i);
    }
    ghost var t := src.tree;
    src.Settle(T.Node(t.value, DenseAll(t.children, density, level - 1), t.spare));
  }

  // ---------- random trees ----------

  /**
   The most nodes a random tree of this branching and level can have. For branching b of at
   least 3, GeometricSum gives it as ((b-1)^(level+1) - 1) / (b - 2).
   */
  function RandomMax(branching: int, level: int): (n: nat)
    ensures n >= 1
  {
    if branching <= 1 then 1 else Geometric(branching - 1, level)
  }

  lemma {:induction false} GeometricMonotone(d: nat, e: nat, level: int)
    requires d <= e
    ensures Geometric(d, level) <= Geometric(e, level)
    decreases level
  {
    if level > 0 {
      GeometricMonotone(d, e, level - 1);
      MulMonotone(d, e, Geometric(d, level - 1), Geometric(e, level - 1));
    }
  }

  lemma MulMonotone(a: nat, b: nat, x: nat, y: nat)
    requires a <= b && x <= y
    ensures a * x <= b * y
  {
    assert a * x <= a * y;
    assert (b - a) * y >= 0;
  }

  /** At most `depth` levels below the root. */
  ghost predicate DepthWithin(t: T.Tree, depth: nat) {
    if depth == 0 then t.children == []
    else forall i :: 0 <= i < |t.children| ==> DepthWithin(t.children[i], depth - 1)
  }

  /** What makeRandomTree keeps to, whatever the generator returns. */
  ghost predicate RandomTree(t: T.Tree, level: int, branching: int) {
    && T.Total(t) <= RandomMax(branching, level)
    && DepthWithin(t, if level <= 0 then 0 else level)
  }

  lemma RandomLeaf(t: T.Tree, level: int, branching: int)
    requires t.children == []
    ensures RandomTree(t, level, branching)
  {
  }

  lemma {:induction false} TotalsWithin(ts: seq<T.Tree>, max: nat)
    requires forall i :: 0 <= i < |ts| ==> T.Total(ts[i]) <= max
    ensures T.TotalAll(ts) <= |ts| * max
  {
    if ts != [] {
      TotalsWithin(ts[1..], max);
      assert |ts| * max == max + (|ts| - 1) * max;
    }
  }

  lemma RandomNode(t: T.Tree, level: int, branching: int)
    requires level > 0 && |t.children| < branching
    requires forall i :: 0 <= i < |t.children| ==> RandomTree(t.children[i], level - 1, branching)
    ensures RandomTree(t, level, branching)
  {
    var max := RandomMax(branching, level - 1);
    TotalsWithin(t.children, max);
    MulMonotone(|t.children|, branching - 1, max, max);
  }

  /** A child's branching is smaller or equal, so its bounds imply the parent's. */
  lemma RandomWiden(t: T.Tree, level: int, cb: int, branching: int)
    requires cb <= branching && RandomTree(t, level, cb)
    ensures RandomTree(t, level, branching)
  {
    if cb > 1 {
      GeometricMonotone(cb - 1, branching - 1, level);
    }
  }

  /** now is what makeRandomTree makes of was when the generator's results are draws. */
  ghost predicate Grows(was: T.Tree, level: int, branching: int, draws: seq<int>, now: T.Tree)
    decreases level, 0
  {
    if level <= 0 || branching <= 0 then draws == [] && now == was
    else
      && draws != [] && 0 <= draws[0] < branching
      && var u := Resized(was, draws[0]);
         && now.value == u.value && now.spare == u.spare
         && GrowsAll(u.children, level - 1, branching, draws[1..], now.children)
  }

  /** The same of the loop: each child takes one draw for its own branching, and then what it needs. */
  ghost predicate GrowsAll(was: seq<T.Tree>, level: int, branching: int, draws: seq<int>, now: seq<T.Tree>)
    requires level >= 0
    decreases level, |was| + 1
  {
    && |now| == |was|
    && if was == [] then draws == []
       else
         var n := |was| - 1;
         exists k :: && 0 <= k < |draws| && 0 <= draws[k] < branching / 2
                     && GrowsAll(was[..n], level, branching, draws[..k], now[..n])
                     && Grows(was[n], level, branching - draws[k], draws[k + 1..], now[n])
  }

  lemma GrowsSnoc(was: seq<T.Tree>, level: int, branching: int, draws: seq<int>, now: seq<T.Tree>,
                  w: T.Tree, d: nat, more: seq<int>, t: T.Tree)
    requires level >= 0 && GrowsAll(was, level, branching, draws, now)
    requires d < branching / 2 && Grows(w, level, branching - d, more, t)
    ensures GrowsAll(was + [w], level, branching, (draws + [d]) + more, now + [t])
  {
    hide Grows;
    var all, k := (draws + [d]) + more, |draws|;
    assert (was + [w])[..|was|] == was && (now + [t])[..|was|] == now;
    assert all[..k] == draws && all[k] == d && all[k + 1..] == more;
    assert GrowsAll((was + [w])[..|was|], level, branching, all[..k], (now + [t])[..|was|]);
  }

  /** Grown from bare storage, a tree keeps to its bounds, whatever the generator returns. */
  lemma {:induction false} GrownIsBounded(was: T.Tree, level: int, branching: int, draws: seq<int>, now: T.Tree)
    requires Bare(was) && Grows(was, level, branching, draws, now)
    ensures RandomTree(now, level, branching)
    decreases level, 0
  {
    hide RandomTree, GrowsAll;
    if level <= 0 || branching <= 0 {
      RandomLeaf(now, level, branching);
    } else {
      BareReveals(was, draws[0]);
      var u := Resized(was, draws[0]);
      GrownAllBounded(u.children, level - 1, branching, draws[1..], now.children);
      GrownCount(u.children, level - 1, branching, draws[1..], now.children);
      RandomNode(now, level, branching);
    }
  }

  lemma GrownCount(was: seq<T.Tree>, level: int, branching: int, draws: seq<int>, now: seq<T.Tree>)
    requires level >= 0 && GrowsAll(was, level, branching, draws, now)
    ensures |now| == |was|
  {
  }

  /** Where the draws of the last child begin. */
  lemma LastGrown(was: seq<T.Tree>, level: int, branching: int, draws: seq<int>, now: seq<T.Tree>) returns (k: nat)
    requires level >= 0 && was != [] && |now| == |was| && GrowsAll(was, level, branching, draws, now)
    ensures var n := |was| - 1;
      && k < |draws| && 0 <= draws[k] < branching / 2
      && GrowsAll(was[..n], level, branching, draws[..k], now[..n])
      && Grows(was[n], level, branching - draws[k], draws[k + 1..], now[n])
  {
    hide Grows;
    var n := |was| - 1;
    k :| && 0 <= k < |draws| && 0 <= draws[k] < branching / 2
         && GrowsAll(was[..n], level, branching, draws[..k], now[..n])
         && Grows(was[n], level, branching - draws[k], draws[k + 1..], now[n]);
  }

  lemma {:induction false} GrownAllBounded(
    was: seq<T.Tree>, level: int, branching: int, draws: seq<int>, now: seq<T.Tree>)
    requires level >= 0 && GrowsAll(was, level, branching, draws, now)
    requires forall i :: 0 <= i < |was| ==> Bare(was[i])
    ensures |now| == |was| && forall i :: 0 <= i < |now| ==> RandomTree(now[i], level, branching)
    decreases level, |was| + 1
  {
    hide GrowsAll, Grows, RandomTree, Bare;
    GrownCount(was, level, branching, draws, now);
    if was != [] {
      var n := |was| - 1;
      var k := LastGrown(was, level, branching, draws, now);
      GrownAllBounded(was[..n], level, branching, draws[..k], now[..n]);
      GrownIsBounded(was[n], level, branching - draws[k], draws[k + 1..], now[n]);
      RandomWiden(now[n], level, branching - draws[k], branching);
      forall i | 0 <= i < |now| ensures RandomTree(now[i], level, branching) {
        if i < n {
          assert now[i] == now[..n][i];
        }
      }
    }
  }

  /**
   makeRandomTree never asks the generator for a non-positive range, and makes of the tree what the
   results say; from a leaf it keeps to its bounds.
   */
  method MakeRandomTree(src: TreeNodeImpl, rng: Rand, level: int, branching: int)
    requires src.Valid()
    modifies src.repr, rng
    ensures src.Valid() && fresh(src.repr - old(src.repr))
    ensures old(rng.drawn) <= rng.drawn
    ensures Grows(old(src.tree), level, branching, rng.drawn[|old(rng.drawn)|..], src.tree)
    ensures Bare(old(src.tree)) ==> RandomTree(src.tree, level, branching)
    decreases level, 1
  {
    hide TreeNodeImpl.Valid, Bare, RandomTree, Resized;
    ghost var was, start := src.tree, |rng.drawn|;
    if level > 0 && branching > 0 {
      var c := rng.IntN(branching);
      src.InitChildren(c);
      RandomChildren(src, rng, level, branching);
      assert rng.drawn[start..][0] == c && rng.drawn[start..][1..] == rng.drawn[start + 1..];
    }
    if Bare(was) {
      GrownIsBounded(was, level, branching, rng.drawn[start..], src.tree);
    }
  }

  /** The loop of makeRandomTree. */
  method RandomChildren(src: TreeNodeImpl, rng: Rand, level: int, branching: int)
    requires src.Valid() && src.len < branching && level > 0
    modifies src.repr, rng
    ensures src.Valid() && fresh(src.repr - old(src.repr))
    ensures src.tree.value == old(src.tree).value && src.tree.spare == old(src.tree).spare
    ensures old(rng.drawn) <= rng.drawn
    ensures GrowsAll(old(src.tree).children, level - 1, branching, rng.drawn[|old(rng.drawn)|..], src.tree.children)
    decreases level, 0
  {
    hide TreeNodeImpl.Valid, TreeNodeImpl.Owned, Grows, GrowsAll;
    src.Parts();
    src.Visible();
    ghost var was, start, kids := src.tree, |rng.drawn|, [];
    GrowsNone(was.children, level - 1, branching, rng.drawn);
    for i := 0 to src.len
      invariant src.slots == old(src.slots) && src.len == old(src.len) && src.value == old(src.value)
      invariant fresh(src.repr - old(src.repr)) && src in src.repr && src.Owned() && src.tree == was
      invariant |kids| == i && forall j :: 0 <= j < i ==> kids[j] == src.slots[j].tree
      invariant forall j :: i <= j < |src.slots| ==> src.slots[j].tree == old(src.slots[j].tree)
      invariant old(rng.drawn) <= rng.drawn
      invariant GrowsAll(was.children[..i], level - 1, branching, rng.drawn[start..], kids)
    {
      label Before:
      src.Child(i);
      ghost var draws := rng.drawn[start..];
      var d := rng.IntN(branching / 2);
      var cb := branching - d;
      assert 2 <= cb <= branching;
      ghost var mid := |rng.drawn|;
      MakeRandomTree(src.slots[i], rng, level - 1, cb);
      src.repr := src.repr + src.slots[i].repr;
      src.OnlyChild@Before(i);
      ghost var t := src.slots[i].tree;
      GrowsSnoc(was.children[..i], level - 1, branching, draws, kids, was.children[i], d, rng.drawn[mid..], t);
      assert rng.drawn[start..] == (draws + [d]) + rng.drawn[mid..];
      assert was.children[..i + 1] == was.children[..i] + [was.children[i]];
      kids := kids + [t];
    }
    assert was.children[..src.len] == was.children;
    src.Settle(T.Node(was.value, kids, was.spare));
  }

  lemma GrowsNone(was: seq<T.Tree>, level: int, branching: int, drawn: seq<int>)
    requires level >= 0
    ensures GrowsAll(was[..0], level, branching, drawn[|drawn|..], [])
  {
  }

  // ---------- the six test trees ----------

  /** The loop that makes the second tree deep: one child, then the same on the child. */
  function Chain(t: T.Tree, n: nat): T.Tree
    decreases n
  {
    if n == 0 then t
    else
      var u := Resized(t, 1);
      T.Node(u.value, [Chain(u.children[0], n - 1)], u.spare)
  }

  lemma {:induction false} ChainTotal(t: T.Tree, n: nat)
    requires Bare(t)
    ensures T.Total(Chain(t, n)) == n + 1
    decreases n
  {
    if n > 0 {
      BareReveals(t, 1);
      var kid := Chain(Resized(t, 1).children[0], n - 1);
      ChainTotal(Resized(t, 1).children[0], n - 1);
      assert [kid][1..] == [];
      assert T.TotalAll([kid]) == T.Total(kid) + T.TotalAll([]);
    }
  }

  /** Each node of the path has the next one as its only child, and the last one has `last`. */
  ghost predicate Linked(path: seq<TreeNodeImpl>, last: TreeNodeImpl)
    reads path
  {
    && (forall j, k :: 0 <= j < k < |path| ==> path[j] != path[k])
    && (forall j :: 0 <= j < |path| ==> path[j].value == 0 && path[j].len == 1 == |path[j].slots|)
    && (forall j :: 0 <= j < |path| - 1 ==> path[j].slots[0] == path[j + 1])
    && (path != [] ==> path[|path| - 1].slots[0] == last)
  }

  /** Once the walk is over, record bottom up what its nodes have come to show. */
  ghost method SettlePath(path: seq<TreeNodeImpl>, last: TreeNodeImpl, k: nat)
    requires last.Valid() && last.tree == Chain(T.LEAF, k)
    requires Linked(path, last) && forall j :: 0 <= j < |path| ==> path[j] !in last.repr
    modifies path
    ensures var top := if path == [] then last else path[0];
      && top.Valid() && top.tree == Chain(T.LEAF, k + |path|)
      && forall o :: o in top.repr ==> o in old(last.repr) || o in path
    decreases |path|
  {
    if path != [] {
      hide TreeNodeImpl.Valid, Chain;
      var n := |path| - 1;
      var node := path[n];
      assert node.slots == [last];
      OnlyChildShows(node, last, k);
      assert path == path[..n] + [node];
      SettlePath(path[..n], node, k + 1);
    }
  }

  /** Record that a node shows its only child, and that child its own chain. */
  ghost method OnlyChildShows(node: TreeNodeImpl, last: TreeNodeImpl, k: nat)
    requires node.slots == [last] && node.len == 1 && node.value == 0
    requires last.Valid() && last.tree == Chain(T.LEAF, k) && node !in last.repr
    modifies node
    ensures node.Valid() && node.tree == Chain(T.LEAF, k + 1) && node.repr == {node} + last.repr
    ensures node.slots == [last] && node.len == 1 && node.value == 0
  {
    hide TreeNodeImpl.Valid, Chain;
    ChainStep(k);
    node.repr := {node} + last.repr;
    node.Settle(T.Node(0, [last.tree], []));
  }

  lemma ChainStep(k: nat)
    ensures Chain(T.LEAF, k + 1) == T.Node(0, [Chain(T.LEAF, k)], [])
  {
    assert Resized(T.LEAF, 1).children == [T.LEAF];
  }

  /** node.InitChildren(1); node.Child(0): on a zero node, both are new. */
  method Descend(node: TreeNodeImpl) returns (child: TreeNodeImpl)
    requires node.Valid() && node.tree == T.LEAF
    modifies node
    ensures node.slots == [child] && node.len == 1 && node.value == 0
    ensures child.Valid() && child.tree == T.LEAF && fresh(child.repr)
  {
    assert node.slots == [];
    node.InitChildren(1);
    assert node.tree.children[0] == T.LEAF;
    child := node.slots[0];
    node.Child(0);
    assert node.slots == [child];
  }

  /** The loop that walks down from a zero node, giving each node one child. */
  method MakeDeep(root: TreeNodeImpl, n: nat)
    requires root.Valid() && root.tree == T.LEAF
    modifies root
    ensures root.Valid() && fresh(root.repr - old(root.repr))
    ensures root.tree == Chain(T.LEAF, n)
  {
    hide TreeNodeImpl.Valid, Chain;
    var node := root;
    ghost var path: seq<TreeNodeImpl> := [];
    for i := 0 to n
      invariant |path| == i && (if i == 0 then node == root else path[0] == root && fresh(node.repr))
      invariant Linked(path, node) && node.Valid() && node.tree == T.LEAF
      invariant forall j :: 0 <= j < i ==> path[j] !in node.repr && (path[j] == root || fresh(path[j]))
      invariant node.repr <= old(root.repr) || fresh(node.repr)
    {
      var child := Descend(node);
      path := path + [node];
      node := child;
    }
    ChainNone();
    ghost var rest := node.repr;
    SettlePath(path, node, 0);
    forall o | o in root.repr ensures o in old(root.repr) || fresh(o) {
      assert o in rest || o in path;
    }
  }

  lemma ChainNone()
    ensures Chain(T.LEAF, 0) == T.LEAF
  {
  }

  /** The first four trees of newClientHarness: single, deep, broad, dense. */
  function FixedTree(i: nat): T.Tree
    requires i < 4
  {
    if i == 0 then T.LEAF
    else if i == 1 then Chain(T.LEAF, 64)
    else if i == 2 then Resized(T.LEAF, 64)
    else Dense(T.LEAF, 5, 6)
  }

  method MakeFixedTree(i: nat) returns (tree: TreeNodeImpl)
    requires i < 4
    ensures tree.Valid() && fresh(tree.repr) && tree.tree == FixedTree(i)
  {
    hide TreeNodeImpl.Valid, Dense, Chain, Resized;
    tree := new TreeNodeImpl();
    if i == 1 {
      MakeDeep(tree, 64);
    } else if i == 2 {
      tree.InitChildren(64);
    } else if i == 3 {
      MakeDenseTreeNode(tree, 5, 6);
    }
  }

  method MakeRandomTestTree(rng: Rand) returns (tree: TreeNodeImpl)
    modifies rng
    ensures old(rng.drawn) <= rng.drawn && Grows(T.LEAF, 8, 5, rng.drawn[|old(rng.drawn)|..], tree.tree)
    ensures tree.Valid() && fresh(tree.repr) && RandomTree(tree.tree, 8, 5)
  {
    hide TreeNodeImpl.Valid, RandomTree, Bare;
    LeafIsBare();
    tree := new TreeNodeImpl();
    MakeRandomTree(tree, rng, 8, 5);
  }

  /** The test trees of one client: four fixed ones and two random ones, which share nothing. */
  method MakeTestTrees(rng: Rand) returns (trees: seq<TreeNodeImpl>)
    modifies rng
    ensures |trees| == 6
    ensures forall i :: 0 <= i < 6 ==> trees[i].Valid() && fresh(trees[i].repr)
    ensures forall i, j :: 0 <= i < j < 6 ==> trees[i].repr !! trees[j].repr
    ensures forall i :: 0 <= i < 6 ==> if i < 4 then trees[i].tree == FixedTree(i) else RandomTree(trees[i].tree, 8, 5)
  {
    hide TreeNodeImpl.Valid, RandomTree, FixedTree;
    trees := [];
    for i := 0 to 6
      invariant |trees| == i
      invariant forall k :: 0 <= k < i ==> trees[k].Valid() && fresh(trees[k].repr)
      invariant forall j, k :: 0 <= j < k < i ==> trees[j].repr !! trees[k].repr
      invariant forall k :: 0 <= k < i ==>
                  if k < 4 then trees[k].tree == FixedTree(k) else RandomTree(trees[k].tree, 8, 5)
    {
      var tree;
      if i < 4 {
        tree := MakeFixedTree(i);
      } else {
        tree := MakeRandomTestTree(rng);
      }
      trees := trees + [tree];
    }
  }

  lemma BroadTotal(t: T.Tree, n: nat)
    requires Bare(t)
    ensures T.Total(Resized(t, n)) == n + 1
  {
    BareReveals(t, n);
    EqualTotals(Resized(t, n).children, 1);
  }

  lemma LeafIsBare()
    ensures Bare(T.LEAF) && T.Total(T.LEAF) == 1
  {
  }

  lemma DenseFiveSix()
    ensures Geometric(5, 6) == 19531
  {
    assert Geometric(5, 2) == 31;
    assert Geometric(5, 4) == 1 + 5 * (1 + 5 * Geometric(5, 2));
    assert Geometric(5, 6) == 1 + 5 * (1 + 5 * Geometric(5, 4));
  }

  lemma FixedTreeTotals(i: nat)
    requires i < 4
    ensures T.Total(FixedTree(i)) == [1, 65, 65, 19531][i]
  {
    hide Bare, Chain, Resized, Dense, Geometric, T.Total;
    LeafIsBare();
    ChainTotal(T.LEAF, 64);
    BroadTotal(T.LEAF, 64);
    DenseShape(T.LEAF, 5, 6);
    DenseFiveSix();
  }

  /** A node for every level and no branches. */
  ghost predicate Thread(t: T.Tree, depth: nat) {
    if depth == 0 then t.children == [] else |t.children| == 1 && Thread(t.children[0], depth - 1)
  }

  /** Above the given depth every node has d children, at that depth none. */
  ghost predicate Full(t: T.Tree, d: nat, depth: nat) {
    if depth == 0 then t.children == []
    else |t.children| == d && forall i :: 0 <= i < d ==> Full(t.children[i], d, depth - 1)
  }

  lemma {:induction false} ChainIsThread(n: nat)
    ensures Thread(Chain(T.LEAF, n), n)
  {
    if n > 0 {
      ChainStep(n - 1);
      ChainIsThread(n - 1);
    }
  }

  lemma {:induction false} DenseIsFull(t: T.Tree, d: nat, level: nat)
    requires Bare(t)
    ensures Full(Dense(t, d, level), d, level)
    decreases level
  {
    if level > 0 {
      var u := Resized(t, d);
      BareReveals(t, d);
      DenseParts(t, d, level);
      hide Dense, Resized, Bare;
      forall i | 0 <= i < d ensures Full(Dense(u.children[i], d, level - 1), d, level - 1) {
        DenseIsFull(u.children[i], d, level - 1);
      }
    }
  }

  /** One node; 64 levels of one child; 64 leaves below the root; six levels of five children. */
  lemma FixedTreeShapes()
    ensures FixedTree(0).children == []
    ensures Thread(FixedTree(1), 64)
    ensures Full(FixedTree(2), 64, 1)
    ensures Full(FixedTree(3), 5, 6)
  {
    hide Chain, Dense, Thread;
    ChainIsThread(64);
    LeafIsBare();
    DenseIsFull(T.LEAF, 5, 6);
  }

  /** A MultTree call on any of them completes whatever the pipes hold. */
  lemma FixedTreesFit(cfg: TcpSession.Config, i: nat, t: T.Tree, mult: int64)
    requires i < 4 && T.SameShape(t, FixedTree(i))
    ensures TcpLiveness.Fits(cfg, Frames.MultTree(mult, t))
  {
    FixedTreeTotals(i);
    ShapeTotal(t, FixedTree(i));
    TcpLiveness.SmallRepliesFit(cfg, Frames.MultTree(mult, t));
  }

  lemma {:induction false} ShapeTotal(t: T.Tree, u: T.Tree)
    requires T.SameShape(t, u)
    ensures T.Total(t) == T.Total(u)
  {
    ShapeTotalAll(t.children, u.children);
  }

  lemma {:induction false} ShapeTotalAll(ts: seq<T.Tree>, us: seq<T.Tree>)
    requires |ts| == |us| && forall i :: 0 <= i < |ts| ==> T.SameShape(ts[i], us[i])
    ensures T.TotalAll(ts) == T.TotalAll(us)
  {
    if ts != [] {
      ShapeTotal(ts[0], us[0]);
      ShapeTotalAll(ts[1..], us[1..]);
    }
  }

  /** The two random trees have level 8 and branching 5. */
  lemma RandomTreeBound(t: T.Tree)
    requires RandomTree(t, 8, 5)
    ensures T.Total(t) <= 87381
  {
    GeometricFourEight();
  }

  lemma GeometricFourEight()
    ensures Geometric(4, 8) == 87381
  {
    assert Geometric(4, 2) == 21;
    assert Geometric(4, 4) == 1 + 4 * (1 + 4 * Geometric(4, 2));
    assert Geometric(4, 6) == 1 + 4 * (1 + 4 * Geometric(4, 4));
    assert Geometric(4, 8) == 1 + 4 * (1 + 4 * Geometric(4, 6));
  }

  /**
   The bound is attained, and then the call need not return: with pipes of 64 KiB it cannot, however
   the request is read.
   */
  lemma LargestRandomTree(mult: int64)
    ensures RandomTree(Dense(T.LEAF, 4, 8), 8, 5) && T.Total(Dense(T.LEAF, 4, 8)) == 87381
    ensures !TcpBlocking.MayFit(TcpSession.Config(65536, 65536), Frames.MultTree(mult, Dense(T.LEAF, 4, 8)))
  {
    hide Dense, Geometric, T.Total, Bare, LeavesAt, DepthWithin;
    LeafIsBare();
    DenseShape(T.LEAF, 4, 8);
    GeometricFourEight();
    LeavesWithin(Dense(T.LEAF, 4, 8), 8);
  }

  lemma {:induction false} LeavesWithin(t: T.Tree, depth: nat)
    requires LeavesAt(t, depth)
    ensures DepthWithin(t, depth)
  {
    if depth > 0 {
      forall i | 0 <= i < |t.children| ensures DepthWithin(t.children[i], depth - 1) {
        LeavesWithin(t.children[i], depth - 1);
      }
    }
  }
}
