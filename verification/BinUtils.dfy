/** The binary tree codec and the streaming server: internal/binutils/binutils.go. */
module BinUtils {
  import opened Int64
  import opened ByteIO
  import opened TreeNode
  import opened Frames
  import T = Trees

  // ---------- int64 values ----------

  /** ReadInt64: the next 8 bytes, or an error that leaves nothing to read. */
  method ReadInt64(r: Reader, aux: array<byte>) returns (v: int64, ok: bool)
    requires aux.Length == 8
    modifies r, aux
    ensures ok <==> |old(r.rem)| >= 8
    ensures ok ==> v == Dec(old(r.rem)[..8]) && r.rem == old(r.rem)[8..]
    ensures ok ==> LittleEndian(old(r.rem)[..8], v)
    ensures !ok ==> v == 0 && r.rem == []
  {
    ok := ReadFull(r, aux);
    v := if ok then Dec(aux[..]) else 0;
    DecOfLittleEndian(aux[..], v);
  }

  /** binary.LittleEndian.PutUint64 */
  method PutUint64(aux: array<byte>, u: nat)
    requires aux.Length == 8
    modifies aux
    ensures aux[..] == ToLE(u, 8)
  {
    var x := u;
    for i := 0 to 8
      invariant aux[..i] + ToLE(x, 8 - i) == ToLE(u, 8)
    {
      ghost var before := aux[..i];
      aux[i] := x % 256;
      assert aux[..i + 1] == before + [x % 256];
      assert ToLE(x, 8 - i) == [x % 256] + ToLE(x / 256, 7 - i);
      x := x / 256;
    }
  }

  /** The 8 bytes that were appended are the little-endian form of v. */
  ghost predicate Appends(was: seq<byte>, now: seq<byte>, v: int64) {
    |now| == |was| + 8 && now[..|was|] == was && LittleEndian(now[|was|..], v)
  }

  method WriteInt64(w: Writer, aux: array<byte>, v: int64)
    requires w.Valid() && aux.Length == 8
    modifies w, aux
    ensures w.Valid() && w.Written() == old(w.Written()) + Enc(v)
    ensures Appends(old(w.Written()), w.Written(), v)
    ensures |old(w.buf)| + 8 <= WRITER_SIZE ==> w.sink == old(w.sink) && |w.buf| == |old(w.buf)| + 8
  {
    PutUint64(aux, v % TWO64);
    w.Write(aux[..]);
    PutKeeps(old(w.buf), aux[..]);
    EncIsLittleEndian(v);
    assert w.Written()[|old(w.Written())|..] == Enc(v);
  }

  // ---------- trees ----------

  /** What is left to write of a forest, one tree further. */
  lemma WriteRound(ks: seq<T.Tree>, i: nat)
    requires i < |ks|
    ensures Bytes(T.ValuesAll(ks[i..])) == Bytes(T.Values(ks[i])) + Bytes(T.ValuesAll(ks[i + 1..]))
    ensures T.TotalAll(ks[i..]) == T.Total(ks[i]) + T.TotalAll(ks[i + 1..])
  {
    hide Bytes;
    assert ks[i..][0] == ks[i] && ks[i..][1..] == ks[i + 1..];
    BytesAppend(T.Values(ks[i]), T.ValuesAll(ks[i + 1..]));
  }

  lemma WriteNode(t: T.Tree)
    ensures Bytes(T.Values(t)) == Enc(t.value) + Bytes(T.ValuesAll(t.children[0..]))
    ensures T.Total(t) == 1 + T.TotalAll(t.children[0..])
  {
    hide Enc;
    assert t.children[0..] == t.children;
    assert T.Values(t)[1..] == T.ValuesAll(t.children);
  }

  /** WriteTree: every value in order and nothing of the shape. */
  method WriteTree(w: Writer, aux: array<byte>, tn: TreeNodeImpl)
    requires w.Valid() && aux.Length == 8 && tn.Valid()
    modifies w, aux
    ensures w.Valid() && w.Written() == old(w.Written()) + Bytes(T.Values(tn.tree))
    ensures |old(w.buf)| + 8 * T.Total(tn.tree) <= WRITER_SIZE ==>
              w.sink == old(w.sink) && |w.buf| == |old(w.buf)| + 8 * T.Total(tn.tree)
    decreases tn.repr
  {
    hide Enc, Bytes, T.Values, T.ValuesAll, T.Total, T.TotalAll, TreeNodeImpl.Valid, TreeNodeImpl.Owned, Writer.Written;
    tn.Parts();
    tn.Visible();
    WriteInt64(w, aux, tn.value);
    ghost var kids, start := tn.tree.children, old(w.Written());
    WriteNode(tn.tree);
    assert w.Written() + Bytes(T.ValuesAll(kids[0..])) == start + Bytes(T.Values(tn.tree));
    for i := 0 to tn.len
      invariant w.Valid() && tn.Owned()
      invariant w.Written() + Bytes(T.ValuesAll(kids[i..])) == start + Bytes(T.Values(tn.tree))
      invariant |old(w.buf)| + 8 * T.Total(tn.tree) <= WRITER_SIZE ==>
                  w.sink == old(w.sink) && |w.buf| + 8 * T.TotalAll(kids[i..]) == |old(w.buf)| + 8 * T.Total(tn.tree)
    {
      tn.Child(i);
      WriteRound(kids, i);
      ghost var before := w.Written();
      WriteTree(w, aux, tn.slots[i]);
      assert before + (Bytes(T.Values(kids[i])) + Bytes(T.ValuesAll(kids[i + 1..])))
          == w.Written() + Bytes(T.ValuesAll(kids[i + 1..]));
    }
    NothingLeft(kids, tn.len);
  }

  lemma NothingLeft(ks: seq<T.Tree>, n: nat)
    requires n == |ks|
    ensures Bytes(T.ValuesAll(ks[n..])) == [] && T.TotalAll(ks[n..]) == 0
  {
  }

  /**
   ReadTree: the values that are there are stored in order into the existing nodes. On a
   short stream the node that wanted the next value holds 0 and all later ones are as before.
   */
  method ReadTree(r: Reader, aux: array<byte>, tn: TreeNodeImpl) returns (ok: bool)
    requires aux.Length == 8 && tn.Valid()
    modifies r, aux, tn.repr
    ensures tn.Valid() && tn.repr == old(tn.repr)
    ensures T.Reading(tn.tree, Ints(r.rem), ok) == T.ReadInto(old(tn.tree), Ints(old(r.rem)))
    ensures ok ==> 8 * T.Total(old(tn.tree)) <= |old(r.rem)| && r.rem == old(r.rem)[8 * T.Total(old(tn.tree))..]
    ensures !ok ==> r.rem == []
    decreases tn.repr, 1
  {
    hide Dec, TreeNodeImpl.Valid;
    var v;
    v, ok := ReadInt64(r, aux);
    tn.SetValue(v);
    if ok {
      ghost var vs := Ints(old(r.rem));
      assert vs[0] == v && vs[1..] == Ints(r.rem);
      ok := ReadChildren(r, aux, tn);
    }
  }

  /** The loop of ReadTree. */
  method ReadChildren(r: Reader, aux: array<byte>, tn: TreeNodeImpl) returns (ok: bool)
    requires aux.Length == 8 && tn.Valid()
    modifies r, aux, tn.repr
    ensures tn.Valid() && tn.repr == old(tn.repr)
    ensures tn.tree.value == old(tn.tree).value && tn.tree.spare == old(tn.tree).spare
    ensures T.Reading(tn.tree.children, Ints(r.rem), ok) == T.ReadIntoAll(old(tn.tree).children, Ints(old(r.rem)))
    ensures ok ==> (var size := 8 * T.TotalAll(old(tn.tree).children);
                    size <= |old(r.rem)| && r.rem == old(r.rem)[size..])
    ensures !ok ==> r.rem == []
    decreases tn.repr, 0
  {
    hide Dec, Ints, T.ReadInto, T.ReadIntoAll, T.Total, T.TotalAll, TreeNodeImpl.Valid, TreeNodeImpl.Owned;
    tn.Parts();
    ghost var t, kids := tn.tree, tn.tree.children;
    ghost var whole := T.ReadIntoAll(kids, Ints(r.rem));
    assert kids[0..] == kids && whole.got[0..] == whole.got;
    for i := 0 to tn.len
      invariant tn.slots == old(tn.slots) && tn.len == old(tn.len) && tn.value == old(tn.value)
      invariant tn.repr == old(tn.repr) && tn.tree == t
      invariant tn in tn.repr && tn.Owned()
      invariant forall j :: 0 <= j < i ==> tn.slots[j].tree == whole.got[j]
      invariant forall j :: i <= j < |tn.slots| ==> tn.slots[j].tree == old(tn.slots[j].tree)
      invariant T.ReadIntoAll(kids[i..], Ints(r.rem)) == T.Reading(whole.got[i..], whole.rest, whole.ok)
      invariant T.TotalAll(kids[i..]) <= T.TotalAll(kids)
      invariant 8 * (T.TotalAll(kids) - T.TotalAll(kids[i..])) <= |old(r.rem)|
      invariant r.rem == old(r.rem)[8 * (T.TotalAll(kids) - T.TotalAll(kids[i..]))..]
    {
      label Before:
      tn.Child(i);
      ReadRound(kids, i, Ints(r.rem), whole);
      ok := ReadTree(r, aux, tn.slots[i]);
      tn.OnlyChild@Before(i);
      if !ok {
        IntsOfNone();
        tn.Settle(t.(children := whole.got));
        return;
      }
    }
    ReadDone(kids, tn.len, Ints(r.rem));
    tn.Settle(t.(children := whole.got));
    return true;
  }

  lemma IntsOfNone()
    ensures Ints([]) == []
  {
  }

  lemma ReadDone(ks: seq<T.Tree>, n: nat, vs: seq<int64>)
    requires n == |ks|
    ensures T.ReadIntoAll(ks[n..], vs) == T.Reading([], vs, true)
    ensures T.TotalAll(ks[n..]) == 0
  {
  }

  /** Reading a forest one tree at a time. */
  lemma ReadRound(ks: seq<T.Tree>, i: nat, vs: seq<int64>, whole: T.Reading<seq<T.Tree>>)
    requires i < |ks| == |whole.got|
    requires T.ReadIntoAll(ks[i..], vs) == T.Reading(whole.got[i..], whole.rest, whole.ok)
    ensures T.TotalAll(ks[i..]) == T.Total(ks[i]) + T.TotalAll(ks[i + 1..])
    ensures var first := T.ReadInto(ks[i], vs);
      && whole.got[i] == first.got
      && (first.ok ==> T.ReadIntoAll(ks[i + 1..], first.rest) == T.Reading(whole.got[i + 1..], whole.rest, whole.ok))
      && (!first.ok ==> !whole.ok && whole.rest == first.rest && whole.got[i + 1..] == ks[i + 1..])
  {
    hide T.ReadInto, T.Total;
    assert ks[i..][0] == ks[i] && ks[i..][1..] == ks[i + 1..];
    var r := T.ReadIntoAll(ks[i..], vs);
    assert r.got[0] == whole.got[i] && r.got[1..] == whole.got[i + 1..];
  }

  // ---------- the MultTree call ----------

  method WriteMultTreeRequest(w: Writer, aux: array<byte>, mult: int64, tree: TreeNodeImpl)
    requires w.Valid() && aux.Length == 8 && tree.Valid()
    modifies w, aux
    ensures w.Valid() && w.Written() == old(w.Written()) + MultTreeFrame(mult, tree.tree)
  {
    hide Enc, Bytes, Writer.Written, TreeNodeImpl.Valid;
    WriteInt64(w, aux, mult);
    var n := tree.TotalNodes();
    WriteInt64(w, aux, Wrap(n));
    WriteTree(w, aux, tree);
  }

  datatype Streamed = Streamed(out: seq<byte>, rest: seq<byte>, ok: bool)

  /**
   What the streaming server makes of any input at all: the products of as many values as
   the header asks for and the input holds; a negative count asks for none.
   */
  function StreamProducts(input: seq<byte>): Streamed {
    if |input| < 16 then Streamed([], [], false)
    else
      var m, n, vs := Dec(input[..8]), Dec(input[8..16]), Ints(input[16..]);
      var k := Handled(n, vs);
      Streamed(Bytes(MulAll(vs[..k], m)), if n <= |vs| then input[16 + 8 * k..] else [], n <= |vs|)
  }

  /** How many values the loop handles: none for a negative count. */
  function Handled(n: int64, vs: seq<int64>): (k: nat)
    ensures k <= |vs|
  {
    if n <= 0 then 0 else Min(n, |vs|)
  }

  /** DoMultTreeRequest: multiply in line, without rebuilding the tree; any chunking of the input. */
  method DoMultTreeRequest(r: Reader, w: Writer, aux: array<byte>) returns (ok: bool)
    requires w.Valid() && aux.Length == 8
    modifies r, w, aux
    ensures w.Valid() && w.Written() == old(w.Written()) + StreamProducts(old(r.rem)).out
    ensures ok == StreamProducts(old(r.rem)).ok && r.rem == StreamProducts(old(r.rem)).rest
    ensures |old(w.buf)| + |StreamProducts(old(r.rem)).out| <= WRITER_SIZE ==> w.sink == old(w.sink)
  {
    hide Dec, Ints, Bytes, MulAll, Writer.Written;
    ghost var input := r.rem;
    var mult, totalNodes;
    mult, ok := ReadInt64(r, aux);
    if !ok { return; }
    totalNodes, ok := ReadInt64(r, aux);
    if !ok { return; }
    assert input[8..][..8] == input[8..16] && input[8..][8..] == input[16..];
    ok := StreamValues(r, w, aux, mult, totalNodes);
    ghost var k := Handled(totalNodes, Ints(input[16..]));
    assert input[16..][8 * k..] == input[16 + 8 * k..];
  }

  /** The loop of DoMultTreeRequest. */
  method StreamValues(r: Reader, w: Writer, aux: array<byte>, mult: int64, totalNodes: int64) returns (ok: bool)
    requires w.Valid() && aux.Length == 8
    modifies r, w, aux
    ensures w.Valid()
    ensures var vs := Ints(old(r.rem));
      var k := Handled(totalNodes, vs);
      && w.Written() == old(w.Written()) + Bytes(MulAll(vs[..k], mult))
      && ok == (totalNodes <= |vs|)
      && r.rem == (if ok then old(r.rem)[8 * k..] else [])
      && (|old(w.buf)| + 8 * k <= WRITER_SIZE ==> w.sink == old(w.sink))
  {
    hide Dec, Enc, Ints, Bytes, Mul, MulAll, Writer.Written;
    ghost var body, vs := r.rem, Ints(r.rem);
    assert body[0..] == body;
    StreamStart(vs, mult);
    var i := 0;
    while i < totalNodes
      invariant 0 <= i <= |vs| && (i <= totalNodes || i == 0)
      invariant r.rem == body[8 * i..]
      invariant w.Valid() && w.Written() == old(w.Written()) + Bytes(MulAll(vs[..i], mult))
      invariant |old(w.buf)| + 8 * i <= WRITER_SIZE ==> w.sink == old(w.sink) && |w.buf| == |old(w.buf)| + 8 * i
      decreases totalNodes - i
    {
      IntsAt(body, i);
      var val;
      val, ok := ReadInt64(r, aux);
      if !ok {
        return;
      }
      val := Mul(val, mult);
      WriteInt64(w, aux, val);
      StreamRound(vs, mult, i);
      i := i + 1;
    }
    ok := true;
  }

  lemma StreamStart(vs: seq<int64>, m: int64)
    ensures Bytes(MulAll(vs[..0], m)) == []
  {
  }

  lemma StreamRound(vs: seq<int64>, m: int64, i: nat)
    requires i < |vs|
    ensures Bytes(MulAll(vs[..i + 1], m)) == Bytes(MulAll(vs[..i], m)) + Enc(Mul(vs[i], m))
  {
    hide Enc, Mul;
    assert vs[..i + 1] == vs[..i] + [vs[i]];
    MulAllAppend(vs[..i], [vs[i]], m);
    BytesAppend(MulAll(vs[..i], m), [Mul(vs[i], m)]);
    assert MulAll([vs[i]], m) == [Mul(vs[i], m)];
    assert Bytes([Mul(vs[i], m)]) == Enc(Mul(vs[i], m)) + Bytes([]);
  }

  method ReadMultTreeResponse(r: Reader, aux: array<byte>, tn: TreeNodeImpl) returns (ok: bool)
    requires aux.Length == 8 && tn.Valid()
    modifies r, aux, tn.repr
    ensures tn.Valid() && tn.repr == old(tn.repr)
    ensures T.Reading(tn.tree, Ints(r.rem), ok) == T.ReadInto(old(tn.tree), Ints(old(r.rem)))
    ensures ok ==> 8 * T.Total(old(tn.tree)) <= |old(r.rem)| && r.rem == old(r.rem)[8 * T.Total(old(tn.tree))..]
    ensures !ok ==> r.rem == []
  {
    ok := ReadTree(r, aux, tn);
  }

  lemma SmallIsKept(n: nat)
    requires n < TWO63
    ensures Wrap(n) == n
  {
  }

  /**
   Streaming refines decode, multiply, encode: on the frame of any tree the server's output
   is the encoding of the multiplied tree, and what follows the frame is left unread.
   */
  lemma StreamingRefinesMult(m: int64, t: T.Tree, later: seq<byte>)
    requires T.Total(t) < TWO63
    ensures StreamProducts(MultTreeFrame(m, t) + later) == Streamed(Bytes(T.Values(T.Mult(t, m))), later, true)
  {
    SmallIsKept(T.Total(t));
    hide Enc, Dec, Ints, Mul, Wrap;
    var input, vs, n := MultTreeFrame(m, t) + later, T.Values(t), T.Total(t);
    T.ValuesLength(t);
    assert input[..8] == Enc(m) && input[8..16] == Enc(Wrap(n));
    DecEnc(m);
    DecEnc(Wrap(n));
    assert input[16..] == Bytes(vs) + later;
    IntsOfBytes(vs, later);
    assert Ints(input[16..])[..n] == vs;
    T.MultEffect(t, m);
    assert input[16 + 8 * n..] == later;
  }

  /** Reading the server's output into the request's tree yields the multiplied tree. */
  lemma RoundTripIsMult(m: int64, t: T.Tree, later: seq<byte>)
    ensures T.ReadInto(t, Ints(Bytes(T.Values(T.Mult(t, m))) + later)) == T.Reading(T.Mult(t, m), Ints(later), true)
  {
    var vs := T.Values(T.Mult(t, m));
    T.MultEffect(t, m);
    IntsOfBytes(vs, later);
    T.ReadBackProducts(t, m, Ints(later));
  }
}
