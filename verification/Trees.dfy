/**
 Trees of int64 values as the RPC systems exchange them, on values rather than on the heap.
 A node also records the nodes its children slice keeps in spare capacity: Go re-exposes
 them when the slice is grown again, so a "fresh" tree may be a dirty one.
 */
module Trees {
  import opened Int64

  /** `children` is the visible slice, `spare` the rest of its backing array. */
  datatype Tree = Node(value: int64, children: seq<Tree>, spare: seq<Tree>)

  const LEAF := Node(0, [], [])

  /** What the TreeNode interface shows of a node: spare capacity is invisible. */
  function View(t: Tree): (v: Tree)
    ensures v.value == t.value && |v.children| == |t.children| && v.spare == []
  {
    Node(t.value, ViewAll(t.children), [])
  }

  function ViewAll(ts: seq<Tree>): (vs: seq<Tree>)
    ensures |vs| == |ts|
    ensures forall i :: 0 <= i < |ts| ==> vs[i] == View(ts[i])
  {
    seq(|ts|, i requires 0 <= i < |ts| => View(ts[i]))
  }

  /** The values in the order every traversal of the repository visits them. */
  function Values(t: Tree): (vs: seq<int64>) {
    [t.value] + ValuesAll(t.children)
  }

  function ValuesAll(ts: seq<Tree>): (vs: seq<int64>) {
    if ts == [] then [] else Values(ts[0]) + ValuesAll(ts[1..])
  }

  function Total(t: Tree): (n: nat)
    ensures n >= 1
  {
    1 + TotalAll(t.children)
  }

  function TotalAll(ts: seq<Tree>): nat {
    if ts == [] then 0 else Total(ts[0]) + TotalAll(ts[1..])
  }

  /** Same child counts everywhere. */
  ghost predicate SameShape(t: Tree, u: Tree) {
    && |t.children| == |u.children|
    && forall i :: 0 <= i < |t.children| ==> SameShape(t.children[i], u.children[i])
  }

  /** Same child counts everywhere and the very same spare nodes. */
  ghost predicate SameLayout(t: Tree, u: Tree) {
    && |t.children| == |u.children|
    && t.spare == u.spare
    && forall i :: 0 <= i < |t.children| ==> SameLayout(t.children[i], u.children[i])
  }

  ghost predicate SameLayoutAll(ts: seq<Tree>, us: seq<Tree>) {
    && |ts| == |us|
    && forall i :: 0 <= i < |ts| ==> SameLayout(ts[i], us[i])
  }

  function Mult(t: Tree, m: int64): Tree {
    Node(Mul(t.value, m), MultAll(t.children, m), t.spare)
  }

  function MultAll(ts: seq<Tree>, m: int64): (ms: seq<Tree>)
    ensures |ms| == |ts|
    ensures forall i :: 0 <= i < |ts| ==> ms[i] == Mult(ts[i], m)
  {
    seq(|ts|, i requires 0 <= i < |ts| => Mult(ts[i], m))
  }

  /** t is u with every value multiplied by m as Go does it: the exact product modulo 2^64. */
  ghost predicate Multiplied(t: Tree, u: Tree, m: int64) {
    && (t.value - u.value * m) % TWO64 == 0
    && |t.children| == |u.children|
    && forall i :: 0 <= i < |t.children| ==> Multiplied(t.children[i], u.children[i], m)
  }

  /** What is visible of a tree is a product exactly if it is what multiplying gives. */
  lemma {:induction false} MultipliedIff(t: Tree, u: Tree, m: int64)
    ensures Multiplied(t, u, m) <==> View(t) == View(Mult(u, m))
  {
    var v := Mult(u, m);
    SameResidue(t.value, u.value, m);
    if |t.children| == |u.children| {
      forall i | 0 <= i < |t.children|
        ensures Multiplied(t.children[i], u.children[i], m) <==> View(t).children[i] == View(v).children[i]
      {
        MultipliedIff(t.children[i], u.children[i], m);
      }
      if forall i :: 0 <= i < |t.children| ==> View(t).children[i] == View(v).children[i] {
        assert View(t).children == View(v).children;
      }
    }
  }

  lemma SameResidue(r: int64, a: int64, b: int64)
    ensures (r - a * b) % TWO64 == 0 <==> r == Mul(a, b)
  {
    var x: int := a * b;
    assert (Mul(a, b) - x) % TWO64 == 0;
    if (r - x) % TWO64 == 0 {
      CongruentToSame(r, Mul(a, b), x);
    }
  }

  /** The same of a tree without spare capacity. */
  lemma ProductIff(t: Tree, u: Tree, m: int64)
    requires View(t) == t
    ensures Multiplied(t, u, m) <==> t == View(Mult(u, m))
  {
    hide Multiplied, View, Mult;
    MultipliedIff(t, u, m);
  }

  lemma ViewTwice(t: Tree)
    ensures View(View(t)) == View(t)
  {
    ViewEffect(t);
  }

  /**
   The order of a traversal: a node comes before its children, and child k after the whole of its
   earlier siblings.
   */
  lemma PreOrder(t: Tree, k: nat)
    requires k < |t.children|
    ensures var at, n := 1 + TotalAll(t.children[..k]), Total(t.children[k]);
      at + n <= |Values(t)| && Values(t)[0] == t.value && Values(t)[at..at + n] == Values(t.children[k])
  {
    RootFirst(t);
    hide Values, ValuesAll, Total, TotalAll;
    ChildSlice(t.children, k);
    SliceBehind([t.value], ValuesAll(t.children), TotalAll(t.children[..k]), Total(t.children[k]));
  }

  lemma RootFirst(t: Tree)
    ensures Values(t) == [t.value] + ValuesAll(t.children)
  {
  }

  lemma SliceBehind(a: seq<int64>, b: seq<int64>, at: nat, n: nat)
    requires at + n <= |b|
    ensures (a + b)[|a| + at..|a| + at + n] == b[at..at + n]
  {
  }

  lemma {:induction false} ChildSlice(ts: seq<Tree>, k: nat)
    requires k < |ts|
    ensures TotalAll(ts[..k]) + Total(ts[k]) <= |ValuesAll(ts)|
    ensures ValuesAll(ts)[TotalAll(ts[..k])..TotalAll(ts[..k]) + Total(ts[k])] == Values(ts[k])
  {
    hide Values, Total;
    ValuesLength(ts[0]);
    if k == 0 {
      ValuesAllLength(ts[1..]);
    } else {
      ChildSlice(ts[1..], k - 1);
      assert ts[..k][0] == ts[0] && ts[..k][1..] == ts[1..][..k - 1];
      SliceBehind(Values(ts[0]), ValuesAll(ts[1..]), TotalAll(ts[1..][..k - 1]), Total(ts[k]));
    }
  }

  // ---------- reading values back into an existing tree ----------

  datatype Reading<T> = Reading(got: T, rest: seq<int64>, ok: bool)

  /**
   Store the values vs into the visible nodes in order. When they run out, the node that
   wanted the next one holds 0 and the traversal stops.
   */
  function ReadInto(t: Tree, vs: seq<int64>): Reading<Tree> {
    if vs == [] then
      Reading(t.(value := 0), [], false)
    else
      var r := ReadIntoAll(t.children, vs[1..]);
      Reading(Node(vs[0], r.got, t.spare), r.rest, r.ok)
  }

  function ReadIntoAll(ts: seq<Tree>, vs: seq<int64>): (r: Reading<seq<Tree>>)
    ensures |r.got| == |ts|
  {
    if ts == [] then
      Reading([], vs, true)
    else
      var first := ReadInto(ts[0], vs);
      if !first.ok then
        Reading([first.got] + ts[1..], first.rest, false)
      else
        var others := ReadIntoAll(ts[1..], first.rest);
        Reading([first.got] + others.got, others.rest, others.ok)
  }

  /** The traversal order of `old` after as many values of vs as there are have been stored. */
  function Overlay(olds: seq<int64>, vs: seq<int64>): (r: seq<int64>)
    ensures |r| == |olds|
  {
    if |vs| >= |olds| then vs[..|olds|] else vs + [0] + olds[|vs| + 1..]
  }

  lemma {:induction false} ValuesAllSnoc(ts: seq<Tree>, t: Tree)
    ensures ValuesAll(ts + [t]) == ValuesAll(ts) + Values(t)
  {
    if ts == [] {
      assert ts + [t] == [t] && ValuesAll([t]) == Values(t) + ValuesAll([]);
    } else {
      assert (ts + [t])[1..] == ts[1..] + [t];
      ValuesAllSnoc(ts[1..], t);
    }
  }

  lemma {:induction false} ValuesLength(t: Tree)
    ensures |Values(t)| == Total(t)
  {
    ValuesAllLength(t.children);
  }

  lemma {:induction false} ValuesAllLength(ts: seq<Tree>)
    ensures |ValuesAll(ts)| == TotalAll(ts)
  {
    if ts != [] {
      ValuesLength(ts[0]);
      ValuesAllLength(ts[1..]);
    }
  }

  /**
   Truncated or complete, a read stores exactly the values it was given, zeroes the node
   at which they ran out, and leaves every later node and the whole layout as they were.
   */
  lemma {:induction false} ReadIntoEffect(t: Tree, vs: seq<int64>)
    ensures ReadInto(t, vs).ok <==> |vs| >= Total(t)
    ensures Values(ReadInto(t, vs).got) == Overlay(Values(t), vs)
    ensures ReadInto(t, vs).rest == if |vs| >= Total(t) then vs[Total(t)..] else []
    ensures SameLayout(ReadInto(t, vs).got, t)
  {
    ValuesLength(t);
    if vs == [] {
      LayoutReflexive(t);
    } else {
      ReadIntoAllEffect(t.children, vs[1..]);
      assert Values(t)[1..] == ValuesAll(t.children);
      ValuesAllLength(t.children);
      assert Values(ReadInto(t, vs).got) == [vs[0]] + Overlay(ValuesAll(t.children), vs[1..]);
    }
  }

  /** Values that run out within `a` leave `b` alone. */
  lemma OverlayBefore(a: seq<int64>, b: seq<int64>, vs: seq<int64>)
    requires |vs| < |a|
    ensures Overlay(a + b, vs) == Overlay(a, vs) + b
  {
  }

  /** Values that cover `a` go on into `b`. */
  lemma OverlayBehind(a: seq<int64>, b: seq<int64>, vs: seq<int64>)
    requires |a| <= |vs|
    ensures Overlay(a + b, vs) == Overlay(a, vs) + Overlay(b, vs[|a|..])
  {
  }

  /** The traversal order of a forest after a read. */
  function OverlayAll(ts: seq<Tree>, vs: seq<int64>): seq<int64> {
    if |vs| >= TotalAll(ts) then vs[..TotalAll(ts)] else Overlay(ValuesAll(ts), vs)
  }

  lemma {:induction false} ReadIntoAllEffect(ts: seq<Tree>, vs: seq<int64>)
    ensures ReadIntoAll(ts, vs).ok <==> |vs| >= TotalAll(ts)
    ensures ValuesAll(ReadIntoAll(ts, vs).got) == OverlayAll(ts, vs)
    ensures ReadIntoAll(ts, vs).rest == if |vs| >= TotalAll(ts) then vs[TotalAll(ts)..] else []
    ensures SameLayoutAll(ReadIntoAll(ts, vs).got, ts)
  {
    ValuesAllLength(ts);
    if ts != [] {
      hide ReadInto, Values, Total, SameLayout;
      var first := ReadInto(ts[0], vs);
      ReadIntoEffect(ts[0], vs);
      ValuesLength(ts[0]);
      ValuesAllLength(ts[1..]);
      var r := ReadIntoAll(ts, vs);
      assert r.got[0] == first.got;
      if first.ok {
        ReadIntoAllEffect(ts[1..], first.rest);
        assert r.got[1..] == ReadIntoAll(ts[1..], first.rest).got;
        OverlayBehind(Values(ts[0]), ValuesAll(ts[1..]), vs);
      } else {
        assert r.got[1..] == ts[1..];
        OverlayBefore(Values(ts[0]), ValuesAll(ts[1..]), vs);
        LayoutReflexiveAll(ts[1..]);
      }
    }
  }

  lemma LayoutReflexiveAll(ts: seq<Tree>)
    ensures SameLayoutAll(ts, ts)
  {
    forall i | 0 <= i < |ts| ensures SameLayout(ts[i], ts[i]) {
      LayoutReflexive(ts[i]);
    }
  }

  lemma {:induction false} LayoutReflexive(t: Tree)
    ensures SameLayout(t, t)
  {
    forall i | 0 <= i < |t.children| ensures SameLayout(t.children[i], t.children[i]) {
      LayoutReflexive(t.children[i]);
    }
  }

  /** Layout and value order determine a tree: the wire format need not carry the shape. */
  lemma {:induction false} LayoutAndValuesDetermine(t: Tree, u: Tree)
    requires SameLayout(t, u) && Values(t) == Values(u)
    ensures t == u
  {
    assert t.value == Values(t)[0] == Values(u)[0] == u.value;
    assert ValuesAll(t.children) == Values(t)[1..] == Values(u)[1..] == ValuesAll(u.children);
    LayoutAndValuesDetermineAll(t.children, u.children);
  }

  lemma {:induction false} LayoutAndValuesDetermineAll(ts: seq<Tree>, us: seq<Tree>)
    requires SameLayoutAll(ts, us) && ValuesAll(ts) == ValuesAll(us)
    ensures ts == us
  {
    if ts != [] {
      LayoutTotal(ts[0], us[0]);
      ValuesLength(ts[0]);
      ValuesLength(us[0]);
      var k := Total(ts[0]);
      assert Values(ts[0]) == ValuesAll(ts)[..k] == ValuesAll(us)[..k] == Values(us[0]);
      assert ValuesAll(ts[1..]) == ValuesAll(ts)[k..] == ValuesAll(us)[k..] == ValuesAll(us[1..]);
      LayoutAndValuesDetermine(ts[0], us[0]);
      LayoutAndValuesDetermineAll(ts[1..], us[1..]);
      assert ts == [ts[0]] + ts[1..] && us == [us[0]] + us[1..];
    }
  }

  lemma {:induction false} LayoutTotal(t: Tree, u: Tree)
    requires SameLayout(t, u)
    ensures Total(t) == Total(u)
  {
    LayoutTotalAll(t.children, u.children);
  }

  lemma {:induction false} LayoutTotalAll(ts: seq<Tree>, us: seq<Tree>)
    requires SameLayoutAll(ts, us)
    ensures TotalAll(ts) == TotalAll(us)
  {
    if ts != [] {
      LayoutTotal(ts[0], us[0]);
      LayoutTotalAll(ts[1..], us[1..]);
    }
  }

  /** Multiplying a tree multiplies each value in traversal order and moves nothing. */
  lemma {:induction false} MultEffect(t: Tree, m: int64)
    ensures Values(Mult(t, m)) == MulAll(Values(t), m)
    ensures SameLayout(Mult(t, m), t)
    ensures Total(Mult(t, m)) == Total(t)
  {
    MultAllEffect(t.children, m);
    assert Mult(t, m).children == MultAll(t.children, m);
    MulAllAppend([t.value], ValuesAll(t.children), m);
    assert MulAll([t.value], m) == [Mul(t.value, m)];
    LayoutTotal(Mult(t, m), t);
  }

  lemma {:induction false} MultAllEffect(ts: seq<Tree>, m: int64)
    ensures ValuesAll(MultAll(ts, m)) == MulAll(ValuesAll(ts), m)
    ensures SameLayoutAll(MultAll(ts, m), ts)
  {
    if ts != [] {
      MultEffect(ts[0], m);
      MultAllEffect(ts[1..], m);
      assert MultAll(ts, m)[1..] == MultAll(ts[1..], m);
      MulAllAppend(Values(ts[0]), ValuesAll(ts[1..]), m);
      forall i | 0 <= i < |ts| ensures SameLayout(MultAll(ts, m)[i], ts[i]) {
        if i > 0 {
          assert MultAll(ts, m)[i] == MultAll(ts[1..], m)[i - 1];
          assert ts[i] == ts[1..][i - 1];
        }
      }
    }
  }

  /**
   The streaming server never rebuilds the tree; reading its products back into the request
   tree is the same as multiplying the tree, and later values stay unread.
   */
  lemma ReadBackProducts(t: Tree, m: int64, later: seq<int64>)
    ensures ReadInto(t, MulAll(Values(t), m) + later) == Reading(Mult(t, m), later, true)
  {
    var vs := MulAll(Values(t), m) + later;
    ValuesLength(t);
    ReadIntoEffect(t, vs);
    MultEffect(t, m);
    var got := ReadInto(t, vs).got;
    assert Values(got) == MulAll(Values(t), m);
    LayoutTransitive(got, t, Mult(t, m));
    LayoutAndValuesDetermine(got, Mult(t, m));
  }

  lemma {:induction false} LayoutTransitive(t: Tree, u: Tree, w: Tree)
    requires SameLayout(t, u) && SameLayout(w, u)
    ensures SameLayout(t, w)
  {
    forall i | 0 <= i < |t.children| ensures SameLayout(t.children[i], w.children[i]) {
      LayoutTransitive(t.children[i], u.children[i], w.children[i]);
    }
  }

  lemma {:induction false} ViewEffect(t: Tree)
    ensures Values(View(t)) == Values(t)
    ensures Total(View(t)) == Total(t)
    ensures SameShape(View(t), t)
    ensures View(View(t)) == View(t)
  {
    ViewAllEffect(t.children);
    assert View(View(t)).children == View(t).children;
  }

  lemma {:induction false} ViewAllEffect(ts: seq<Tree>)
    ensures ValuesAll(ViewAll(ts)) == ValuesAll(ts)
    ensures TotalAll(ViewAll(ts)) == TotalAll(ts)
    ensures forall i :: 0 <= i < |ts| ==> SameShape(View(ts[i]), ts[i]) && View(View(ts[i])) == View(ts[i])
  {
    if ts != [] {
      ViewEffect(ts[0]);
      ViewAllEffect(ts[1..]);
      assert ViewAll(ts)[1..] == ViewAll(ts[1..]);
      forall i | 0 <= i < |ts| ensures SameShape(View(ts[i]), ts[i]) && View(View(ts[i])) == View(ts[i]) {
        if i > 0 {
          assert ts[i] == ts[1..][i - 1];
        }
      }
    }
  }

  lemma {:induction false} ViewOfMult(t: Tree, m: int64)
    ensures View(Mult(t, m)) == Mult(View(t), m)
  {
    forall i | 0 <= i < |t.children| ensures View(Mult(t.children[i], m)) == Mult(View(t.children[i]), m) {
      ViewOfMult(t.children[i], m);
    }
    assert View(Mult(t, m)).children == Mult(View(t), m).children;
  }
}
