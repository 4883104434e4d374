/** The command automaton run over whole byte strings. */
module Automaton {
  import opened Int64
  import opened ByteIO
  import opened Frames
  import Hex
  import BinUtils

  /** Feed bytes one at a time: the control point reached and everything written on the way. */
  function Feed(k: Ctrl, bs: seq<byte>): Fed
    decreases |bs|
  {
    if bs == [] then Fed(k, [])
    else
      var first := Eat(k, bs[0]);
      var rest := Feed(first.ctrl, bs[1..]);
      Fed(rest.ctrl, first.out + rest.out)
  }

  lemma {:induction false} FeedAppend(k: Ctrl, a: seq<byte>, b: seq<byte>)
    ensures Feed(k, a + b) == Fed(Feed(Feed(k, a).ctrl, b).ctrl, Feed(k, a).out + Feed(Feed(k, a).ctrl, b).out)
    decreases |a|
  {
    hide Eat;
    if a == [] {
      assert a + b == b;
    } else {
      assert (a + b)[0] == a[0] && (a + b)[1..] == a[1..] + b;
      FeedAppend(Eat(k, a[0]).ctrl, a[1..], b);
    }
  }

  lemma FeedSnoc(k: Ctrl, a: seq<byte>, b: byte)
    ensures Feed(k, a + [b]) == Fed(Eat(Feed(k, a).ctrl, b).ctrl, Feed(k, a).out + Eat(Feed(k, a).ctrl, b).out)
  {
    hide Eat;
    FeedAppend(k, a, [b]);
    var k' := Feed(k, a).ctrl;
    assert [b][1..] == [];
    assert Feed(k', [b]) == Fed(Eat(k', b).ctrl, Eat(k', b).out + []);
  }

  /** Within a frame the automaton is where the frame says, and has written what the frame says. */
  lemma {:induction false} FeedFrame(c: Call, n: nat)
    requires ValidCall(c) && n <= |Request(c)|
    ensures Feed(Head, Request(c)[..n]) == Fed(CtrlAt(c, n), OutAt(c, n))
  {
    if n == 0 {
      hide Request, Eat;
      OutAtEnds(c);
    } else {
      hide Request, CtrlAt, OutAt, Eat, Feed, ValidCall, Advances;
      var req := Request(c);
      FeedFrame(c, n - 1);
      EatAdvances(c, n - 1);
      FeedFrameByte(c, n - 1, req[..n - 1], req[n - 1]);
      assert req[..n] == req[..n - 1] + [req[n - 1]];
    }
  }

  lemma FeedFrameByte(c: Call, pos: nat, before: seq<byte>, b: byte)
    requires pos < |Request(c)| && Request(c)[pos] == b && Advances(c, pos)
    requires Feed(Head, before) == Fed(CtrlAt(c, pos), OutAt(c, pos))
    ensures Feed(Head, before + [b]) == Fed(CtrlAt(c, pos + 1), OutAt(c, pos + 1))
  {
    hide Request, CtrlAt, OutAt, Eat, Feed;
    FeedSnoc(Head, before, b);
  }

  // ---------- how long a command is at least ----------

  ghost predicate Partway(k: Ctrl) {
    match k
    case Head => false
    case AddArgs(acc) => |acc| < 16
    case MultArgs(acc) => |acc| < 16
    case MultValue(_, left, acc) => left >= 1 && |acc| < 8
    case HexSize(acc) => |acc| < 8
    case HexData(left) => left >= 1
  }

  /** A command that has got this far needs at least so many more bytes. */
  ghost function Needs(k: Ctrl): nat
    requires Partway(k)
  {
    match k
    case AddArgs(acc) => 16 - |acc|
    case MultArgs(acc) => 16 - |acc|
    case MultValue(_, left, acc) => 8 * left - |acc|
    case HexSize(acc) => 8 - |acc|
    case HexData(left) => left
  }

  lemma {:induction false} NotYet(k: Ctrl, bs: seq<byte>)
    requires Partway(k) && |bs| < Needs(k)
    ensures Partway(Feed(k, bs).ctrl) && Needs(Feed(k, bs).ctrl) >= Needs(k) - |bs|
    ensures Feed(k, bs).ctrl.HexData? == k.HexData?
  {
    if bs != [] {
      var n := |bs| - 1;
      NotYet(k, bs[..n]);
      assert bs == bs[..n] + [bs[n]];
      FeedSnoc(k, bs[..n], bs[n]);
      hide Feed, Enc, Dec, Mul, Hex.Encode;
      EatPartway(Feed(k, bs[..n]).ctrl, bs[n]);
    }
  }

  lemma EatPartway(k: Ctrl, b: byte)
    requires Partway(k) && Needs(k) > 1
    ensures Partway(Eat(k, b).ctrl) && Needs(Eat(k, b).ctrl) >= Needs(k) - 1
    ensures Eat(k, b).ctrl.HexData? == k.HexData?
  {
    hide Enc, Dec, Mul, Hex.Encode;
  }

  /** No proper prefix of bs takes the command from k to its end, or into hex data. */
  ghost predicate Unfinished(k: Ctrl, bs: seq<byte>) {
    forall m :: 0 <= m < |bs| ==> Feed(k, bs[..m]).ctrl != Head && !Feed(k, bs[..m]).ctrl.HexData?
  }

  lemma UnfinishedShort(k: Ctrl, bs: seq<byte>)
    requires Partway(k) && !k.HexData? && |bs| <= Needs(k)
    ensures Unfinished(k, bs)
  {
    forall m | 0 <= m < |bs| ensures Feed(k, bs[..m]).ctrl != Head && !Feed(k, bs[..m]).ctrl.HexData? {
      NotYet(k, bs[..m]);
    }
  }

  /** A header followed by a body. */
  lemma UnfinishedTwo(k: Ctrl, a: seq<byte>, b: seq<byte>)
    requires Unfinished(k, a) && Partway(Feed(k, a).ctrl) && !Feed(k, a).ctrl.HexData? && |b| <= Needs(Feed(k, a).ctrl)
    ensures Unfinished(k, a + b)
  {
    forall m | 0 <= m < |a + b|
      ensures Feed(k, (a + b)[..m]).ctrl != Head && !Feed(k, (a + b)[..m]).ctrl.HexData?
    {
      hide Feed;
      if m < |a| {
        assert (a + b)[..m] == a[..m];
      } else {
        assert (a + b)[..m] == a + b[..m - |a|];
        FeedAppend(k, a, b[..m - |a|]);
        UnfinishedAt(Feed(k, a).ctrl, b, m - |a|);
      }
    }
  }

  lemma UnfinishedAt(k: Ctrl, b: seq<byte>, m: nat)
    requires Partway(k) && !k.HexData? && m < |b| <= Needs(k)
    ensures Feed(k, b[..m]).ctrl != Head && !Feed(k, b[..m]).ctrl.HexData?
  {
    NotYet(k, b[..m]);
  }

  // ---------- what a read of several bytes amounts to ----------

  lemma {:induction false} FeedAddArgs(bs: seq<byte>)
    requires |bs| <= 16
    ensures Feed(AddArgs([]), bs)
         == if |bs| < 16 then Fed(AddArgs(bs), []) else Fed(Head, Enc(Add(Dec(bs[..8]), Dec(bs[8..]))))
  {
    hide Enc, Dec, Add;
    if bs != [] {
      var n := |bs| - 1;
      FeedAddArgs(bs[..n]);
      assert bs == bs[..n] + [bs[n]];
      FeedSnoc(AddArgs([]), bs[..n], bs[n]);
    }
  }

  lemma {:induction false} FeedHexSize(bs: seq<byte>)
    requires |bs| <= 8
    ensures Feed(HexSize([]), bs)
         == if |bs| < 8 then Fed(HexSize(bs), []) else Fed(if Dec(bs) <= 0 then Head else HexData(Dec(bs)), [])
  {
    hide Dec;
    if bs != [] {
      var n := |bs| - 1;
      FeedHexSize(bs[..n]);
      assert bs == bs[..n] + [bs[n]];
      FeedSnoc(HexSize([]), bs[..n], bs[n]);
    }
  }

  lemma {:induction false} FeedMultArgs(bs: seq<byte>)
    requires |bs| <= 16
    ensures Feed(MultArgs([]), bs)
         == if |bs| < 16 then Fed(MultArgs(bs), [])
            else Fed(if Dec(bs[8..]) <= 0 then Head else MultValue(Dec(bs[..8]), Dec(bs[8..]), []), [])
  {
    hide Dec;
    if bs != [] {
      var n := |bs| - 1;
      FeedMultArgs(bs[..n]);
      assert bs == bs[..n] + [bs[n]];
      FeedSnoc(MultArgs([]), bs[..n], bs[n]);
    }
  }

  lemma {:induction false} FeedMultValue(m: int64, left: nat, bs: seq<byte>)
    requires |bs| <= 8
    ensures Feed(MultValue(m, left, []), bs)
         == if |bs| < 8 then Fed(MultValue(m, left, bs), [])
            else Fed(if left <= 1 then Head else MultValue(m, left - 1, []), Enc(Mul(Dec(bs), m)))
  {
    hide Enc, Dec, Mul;
    if bs != [] {
      var n := |bs| - 1;
      FeedMultValue(m, left, bs[..n]);
      assert bs == bs[..n] + [bs[n]];
      FeedSnoc(MultValue(m, left, []), bs[..n], bs[n]);
    }
  }

  /** A run of whole values. */
  lemma {:induction false} FeedMultValues(m: int64, left: nat, body: seq<byte>, k: nat)
    requires 1 <= left && k <= left && 8 * k <= |body|
    ensures Feed(MultValue(m, left, []), body[..8 * k])
         == Fed(if k == left then Head else MultValue(m, left - k, []), Bytes(MulAll(Ints(body)[..k], m)))
  {
    var vs := Ints(body);
    hide Enc, Dec, Mul, Ints, Bytes, MulAll;
    if k == 0 {
      BinUtils.StreamStart(vs, m);
    } else {
      FeedMultValues(m, left, body, k - 1);
      var a, b := body[..8 * (k - 1)], body[8 * (k - 1)..8 * k];
      assert body[..8 * k] == a + b;
      FeedAppend(MultValue(m, left, []), a, b);
      FeedMultValue(m, left - (k - 1), b);
      IntsAt(body, k - 1);
      assert body[8 * (k - 1)..][..8] == b;
      BinUtils.StreamRound(vs, m, k - 1);
    }
  }
}
