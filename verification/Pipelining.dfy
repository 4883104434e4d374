/**
 What the server makes of requests sent one behind the other. Its hex loop may take bytes of the
 next request for hex data, so what it answers can depend on how the bytes happen to arrive.
 */
module Pipelining {
  import opened Int64
  import opened ByteIO
  import opened Frames
  import opened Automaton
  import opened Chunks
  import Hex

  // ---------- the condition ----------

  /**
   Nothing is queued behind hex data, except behind data so long that the hex loop never gets
   past it. A client establishes this by waiting for each reply.
   */
  ghost predicate Tidy(k: Ctrl, bs: seq<byte>)
    decreases |bs|
  {
    || bs == [] || Spins(k)
    || if k.HexData? then |bs| <= k.left else Tidy(Eat(k, bs[0]).ctrl, bs[1..])
  }

  /** The same of one command only. */
  ghost predicate TidyCommand(k: Ctrl, bs: seq<byte>)
    decreases |bs|
  {
    || bs == [] || Spins(k)
    || if k.HexData? then |bs| <= k.left
       else var t := Eat(k, bs[0]).ctrl; t == Head || TidyCommand(t, bs[1..])
  }

  lemma {:induction false} TidyIsTidyCommand(k: Ctrl, bs: seq<byte>)
    requires Tidy(k, bs)
    ensures TidyCommand(k, bs)
    decreases |bs|
  {
    hide Eat;
    if bs != [] && !Spins(k) && !k.HexData? {
      TidyIsTidyCommand(Eat(k, bs[0]).ctrl, bs[1..]);
    }
  }

  // ---------- tidy input: one outcome ----------

  /** The whole input is read, or the hex loop spins. */
  ghost predicate Ended(k: Ctrl, bs: seq<byte>, ns: seq<nat>)
    ensures Ended(k, bs, ns) ==> Reads(k, bs, ns)
  {
    Reads(k, bs, ns) && (Taken(ns) == |bs| || Spins(After(k, bs, ns).ctrl))
  }

  /** With nothing behind it, hex data is read to its end or the end of input, in whatever chunks. */
  lemma {:induction false} HexWithin(left: nat, bs: seq<byte>, ns: seq<nat>)
    requires 1 <= left && |bs| <= left && Reads(HexData(left), bs, ns)
    ensures Taken(ns) <= |bs|
    ensures After(HexData(left), bs, ns)
         == Fed(if Taken(ns) == left then Head else HexData(left - Taken(ns)), Hex.Encode(bs[..Taken(ns)]))
    decreases |ns|
  {
    hide Hex.Encode;
    ReadsTaken(HexData(left), bs, ns);
    if ns == [] {
      EncodeNone();
    } else {
      var n, rest := ns[0], bs[ns[0]..];
      var k := Took(HexData(left), bs[..n]).ctrl;
      ReadsTaken(k, rest, ns[1..]);
      assert bs[..n] + rest[..Taken(ns[1..])] == bs[..Taken(ns)];
      Hex.EncodeAppend(bs[..n], rest[..Taken(ns[1..])]);
      if n < left {
        HexWithin(left - n, rest, ns[1..]);
      } else {
        EncodeNone();
      }
    }
  }

  lemma {:induction false} TidyOutcome(k: Ctrl, bs: seq<byte>, ns: seq<nat>, ms: seq<nat>)
    requires Tidy(k, bs) && Ended(k, bs, ns) && Ended(k, bs, ms) && (k.HexData? ==> k.left >= 1)
    ensures Taken(ns) == Taken(ms) && After(k, bs, ns) == After(k, bs, ms)
    decreases |bs|
  {
    hide Eat;
    if bs != [] && !Spins(k) {
      if k.HexData? {
        hide Reads, After;
        HexWithin(k.left, bs, ns);
        HexWithin(k.left, bs, ms);
      } else {
        assert bs[..1][0] == bs[0];
        EatLeaves(k, bs[0]);
        TidyOutcome(Eat(k, bs[0]).ctrl, bs[1..], ns[1..], ms[1..]);
      }
    }
  }

  lemma EatLeaves(k: Ctrl, b: byte)
    ensures Eat(k, b).ctrl.HexData? ==> Eat(k, b).ctrl.left >= 1
  {
    hide Enc, Dec, Hex.Encode, Mul, Add;
  }

  // ---------- untidy input: more than one ----------

  /** The outcome of reading one byte at a time. */
  ghost function Slowly(k: Ctrl, bs: seq<byte>): Fed
    decreases |bs|
  {
    if bs == [] || Spins(k) then Fed(k, [])
    else
      var first := Eat(k, bs[0]);
      var rest := Slowly(first.ctrl, bs[1..]);
      Fed(rest.ctrl, first.out + rest.out)
  }

  lemma {:induction false} SlowReads(k: Ctrl, bs: seq<byte>) returns (ns: seq<nat>)
    ensures Ended(k, bs, ns) && After(k, bs, ns) == Slowly(k, bs)
    decreases |bs|
  {
    hide Eat, Took;
    if bs == [] || Spins(k) {
      ns := [];
    } else {
      TookOne(k, bs[0]);
      assert bs[..1] == [bs[0]];
      var rest := SlowReads(Eat(k, bs[0]).ctrl, bs[1..]);
      ns := [1] + rest;
      assert ns[1..] == rest;
    }
  }

  /** Hex data read one byte at a time up to its last byte, and that together with j bytes too many. */
  lemma {:induction false} Overrun(left: nat, bs: seq<byte>, j: nat) returns (ns: seq<nat>)
    requires 1 <= left < MAX_HEX_ENCODE_SIZE && left + j <= |bs| && j <= MAX_HEX_ENCODE_SIZE - 2
    ensures Ended(HexData(left), bs, ns)
    ensures After(HexData(left), bs, ns).out == Hex.Encode(bs[..left + j]) + Slowly(Head, bs[left + j..]).out
    decreases left
  {
    hide Hex.Encode, Slowly, Eat;
    if left == 1 {
      var rest := SlowReads(Head, bs[1 + j..]);
      ns := [1 + j] + rest;
      assert ns[1..] == rest;
    } else {
      var rest := Overrun(left - 1, bs[1..], j);
      ns := [1] + rest;
      assert ns[1..] == rest;
      var data := bs[1..][..left - 1 + j];
      assert bs[..left + j] == bs[..1] + data && bs[1..][left - 1 + j..] == bs[left + j..];
      Hex.EncodeAppend(bs[..1], data);
      assert Hex.Encode(bs[..1]) + (Hex.Encode(data) + Slowly(Head, bs[left + j..]).out)
          == (Hex.Encode(bs[..1]) + Hex.Encode(data)) + Slowly(Head, bs[left + j..]).out;
    }
  }

  /** What is answered to r when its first byte is a request's own. */
  ghost function Answer(r: seq<byte>): seq<byte> { Slowly(Head, r).out }

  /** Taking byte j of r for hex data, or leaving it to be a command, makes no difference. */
  ghost predicate Indifferent(r: seq<byte>, j: nat)
    requires j < |r|
  {
    Answer(r[j..]) == Hex.Encode([r[j]]) + Answer(r[j + 1..])
  }

  lemma {:induction false} IndifferentRun(r: seq<byte>, n: nat)
    requires n <= |r| && forall j :: 0 <= j < n ==> Indifferent(r, j)
    ensures |Answer(r)| == 2 * n + |Answer(r[n..])|
  {
    hide Hex.Encode, Slowly;
    if n == 0 {
      assert r[0..] == r;
    } else {
      IndifferentRun(r, n - 1);
      assert Indifferent(r, n - 1);
    }
  }

  /** Reading a command's arguments one by one. */
  lemma {:induction false} SlowlyAppend(k: Ctrl, a: seq<byte>, b: seq<byte>)
    requires Unfinished(k, a)
    ensures Slowly(k, a + b)
         == Fed(Slowly(Feed(k, a).ctrl, b).ctrl, Feed(k, a).out + Slowly(Feed(k, a).ctrl, b).out)
    decreases |a|
  {
    hide Eat;
    if a == [] {
      assert a + b == b;
      assert [] + Slowly(k, b).out == Slowly(k, b).out;
    } else {
      assert a[..0] == [];
      assert (a + b)[0] == a[0] && (a + b)[1..] == a[1..] + b;
      var k' := Eat(k, a[0]).ctrl;
      forall m | 0 <= m < |a[1..]| ensures Feed(k', a[1..][..m]).ctrl != Head && !Feed(k', a[1..][..m]).ctrl.HexData? {
        assert a[..m + 1][0] == a[0] && a[..m + 1][1..] == a[1..][..m];
      }
      SlowlyAppend(k', a[1..], b);
    }
  }

  lemma AnswerOfCommand(r: seq<byte>, k: Ctrl, n: nat)
    requires n < |r| && Eat(Head, r[0]) == Fed(k, []) && !Spins(Head) && Unfinished(k, r[1..n + 1])
    ensures Answer(r) == Feed(k, r[1..n + 1]).out + Slowly(Feed(k, r[1..n + 1]).ctrl, r[n + 1..]).out
  {
    hide Eat, Feed, Unfinished;
    assert r[1..] == r[1..n + 1] + r[n + 1..];
    SlowlyAppend(k, r[1..n + 1], r[n + 1..]);
    assert [] + Slowly(k, r[1..]).out == Slowly(k, r[1..]).out;
  }

  /** A byte that, read as a command, begins a tree or a hex request. */
  predicate Nested(b: byte) { b == CMD_MULT_TREE || b == CMD_TO_HEX }

  /** Any other byte than a tree's or a hex command's does make a difference. */
  lemma PlainByteMatters(r: seq<byte>)
    requires |r| >= 18 && !Nested(r[0])
    ensures !forall j :: 0 <= j < 17 ==> Indifferent(r, j)
  {
    assert r[0..] == r;
    if r[0] == CMD_ADD {
      hide Slowly, Hex.Encode, Enc, Dec, Add;
      CommandByte(r[0]);
      UnfinishedShort(AddArgs([]), r[1..17]);
      AnswerOfCommand(r, AddArgs([]), 16);
      FeedAddArgs(r[1..17]);
      if forall j :: 0 <= j < 17 ==> Indifferent(r, j) {
        IndifferentRun(r, 17);
      }
    } else {
      assert |Answer(r)| <= 1 + |Answer(r[1..])|;
      assert !Indifferent(r, 0);
    }
  }

  lemma CommandByte(cmd: byte)
    ensures cmd == CMD_ADD ==> Eat(Head, cmd) == Fed(AddArgs([]), [])
    ensures cmd == CMD_MULT_TREE ==> Eat(Head, cmd) == Fed(MultArgs([]), [])
    ensures cmd == CMD_TO_HEX ==> Eat(Head, cmd) == Fed(HexSize([]), [])
  {
  }

  lemma {:induction false} NestedRange(bs: seq<byte>)
    requires bs != [] && forall i :: 0 <= i < |bs| ==> Nested(bs[i])
    ensures 3 * Pow256(|bs| - 1) <= FromLE(bs) < 5 * Pow256(|bs| - 1)
  {
    if |bs| > 1 {
      NestedRange(bs[1..]);
    }
  }

  lemma NestedIsHuge(bs: seq<byte>)
    requires |bs| == 8 && forall i :: 0 <= i < |bs| ==> Nested(bs[i])
    ensures Dec(bs) >= MAX_HEX_ENCODE_SIZE
  {
    NestedRange(bs);
    hide FromLE;
    assert Pow256(4) == 0x1_0000_0000;
    assert Pow256(7) == 256 * (256 * (256 * Pow256(4)));
  }

  /** The first wire byte of a product, which here is never the digit '0'. */
  lemma NestedProduct(a: seq<byte>, b: seq<byte>)
    requires |a| == 8 && |b| == 8 && Nested(a[0]) && Nested(b[0])
    ensures Enc(Mul(Dec(a), Dec(b)))[0] in {9, 12, 16}
  {
    hide Enc, Dec, Mul;
    EncDec(a);
    EncDec(b);
    LowByteOf(Dec(a));
    LowByteOf(Dec(b));
    LowByteOf(Mul(Dec(a), Dec(b)));
    ProductLow(Dec(a), Dec(b));
  }

  lemma LowByteOf(v: int64)
    ensures Enc(v)[0] == v % 256
  {
    assert TWO64 == 256 * 0x100_0000_0000_0000;
  }

  lemma ProductLow(x: int64, y: int64)
    requires Nested(x % 256) && Nested(y % 256)
    ensures Mul(x, y) % 256 in {9, 12, 16}
  {
    var z: int := x * y;
    Distribute(x / 256, x % 256, y);
    LowOfSum(x / 256 * y, x % 256, y / 256, y % 256, z);
    WrapLow(z);
  }

  lemma Distribute(p: int, a: int, y: int)
    ensures (256 * p + a) * y == 256 * (p * y) + a * y
  {
  }

  lemma LowOfSum(py: int, a: byte, q: int, b: byte, z: int)
    requires Nested(a) && Nested(b) && z == 256 * py + a * (256 * q + b)
    ensures z % 256 in {9, 12, 16}
  {
    if a == 3 {
      assert z == 256 * (py + 3 * q) + 3 * b;
    } else {
      assert z == 256 * (py + 4 * q) + 4 * b;
    }
  }

  lemma WrapLow(v: int)
    ensures Wrap(v) % 256 == v % 256
  {
    assert TWO64 == 256 * 0x100_0000_0000_0000;
  }

  /** If the first bytes of r could all be taken for data, they would all be nested commands. */
  lemma AllNested(r: seq<byte>, n: nat)
    requires |r| >= n + 18 && forall j :: 0 <= j < n + 17 ==> Indifferent(r, j)
    ensures forall i :: 0 <= i < n ==> Nested(r[i])
  {
    hide Indifferent, Slowly;
    forall i | 0 <= i < n ensures Nested(r[i]) {
      forall j | 0 <= j < 17 ensures Indifferent(r[i..], j) {
        assert Indifferent(r, i + j);
        IndifferentShift(r, i, j);
      }
      if !Nested(r[i]) {
        PlainByteMatters(r[i..]);
      }
    }
  }

  lemma IndifferentShift(r: seq<byte>, i: nat, j: nat)
    requires i + j < |r| && Indifferent(r, i + j)
    ensures Indifferent(r[i..], j)
  {
    assert r[i..][j..] == r[i + j..] && r[i..][j + 1..] == r[i + j + 1..];
  }

  /** A long enough rest is not indifferent everywhere. */
  lemma LongRestMatters(r: seq<byte>)
    requires |r| >= 43
    ensures !forall j :: 0 <= j < 42 ==> Indifferent(r, j)
  {
    hide Slowly, Hex.Encode;
    if forall j :: 0 <= j < 42 ==> Indifferent(r, j) {
      AllNested(r, 25);
      HexDigitOfNested(r[0]);
      assert Indifferent(r, 0) && r[0..] == r;
      if r[0] == CMD_TO_HEX {
        HexAnswersNothing(r);
      } else {
        TreeAnswersProduct(r);
      }
    }
  }

  lemma HexDigitOfNested(b: byte)
    requires Nested(b)
    ensures Hex.Encode([b])[0] == 48
  {
  }

  lemma HexAnswersNothing(r: seq<byte>)
    requires |r| >= 25 && r[0] == CMD_TO_HEX && forall i :: 0 <= i < 25 ==> Nested(r[i])
    ensures Answer(r) == []
  {
    hide Dec;
    CommandByte(r[0]);
    UnfinishedShort(HexSize([]), r[1..9]);
    AnswerOfCommand(r, HexSize([]), 8);
    FeedHexSize(r[1..9]);
    NestedIsHuge(r[1..9]);
  }

  lemma TreeAnswersProduct(r: seq<byte>)
    requires |r| >= 25 && r[0] == CMD_MULT_TREE && forall i :: 0 <= i < 25 ==> Nested(r[i])
    ensures Answer(r) != [] && Answer(r)[0] != 48
  {
    hide Dec, Enc, Mul, Slowly, Feed, Unfinished;
    CommandByte(r[0]);
    var args, value := r[1..17], r[17..25];
    var m, count := Dec(args[..8]), Dec(args[8..]);
    NestedIsHuge(args[8..]);
    UnfinishedShort(MultArgs([]), args);
    FeedMultArgs(args);
    FeedMultValue(m, count, value);
    assert r[1..25] == args + value;
    UnfinishedTwo(MultArgs([]), args, value);
    FeedAppend(MultArgs([]), args, value);
    AnswerOfCommand(r, MultArgs([]), 24);
    NestedProduct(value, args[..8]);
  }

  /** Two ways to read untidy input that are answered differently. */
  lemma {:induction false} UntidyOutcomes(k: Ctrl, bs: seq<byte>) returns (ns: seq<nat>, ms: seq<nat>)
    requires !Tidy(k, bs) && (k.HexData? ==> k.left >= 1)
    ensures Ended(k, bs, ns) && Ended(k, bs, ms) && After(k, bs, ns).out != After(k, bs, ms).out
    decreases |bs|
  {
    if k.HexData? {
      ns, ms := UntidyHex(k.left, bs);
    } else {
      hide Eat;
      EatLeaves(k, bs[0]);
      ns, ms := UntidyOutcomes(Eat(k, bs[0]).ctrl, bs[1..]);
      assert bs[..1][0] == bs[0];
      var first := Eat(k, bs[0]);
      StillDiffer(first.out, After(first.ctrl, bs[1..], ns).out, After(first.ctrl, bs[1..], ms).out);
      assert ([1] + ns)[1..] == ns && ([1] + ms)[1..] == ms;
      ns, ms := [1] + ns, [1] + ms;
    }
  }

  lemma StillDiffer(a: seq<byte>, b: seq<byte>, c: seq<byte>)
    requires b != c
    ensures a + b != a + c
  {
    assert (a + b)[|a|..] == b && (a + c)[|a|..] == c;
  }

  lemma UntidyHex(left: nat, bs: seq<byte>) returns (ns: seq<nat>, ms: seq<nat>)
    requires 1 <= left < MAX_HEX_ENCODE_SIZE && |bs| > left
    ensures Ended(HexData(left), bs, ns) && Ended(HexData(left), bs, ms)
    ensures After(HexData(left), bs, ns).out != After(HexData(left), bs, ms).out
  {
    hide Ended, Reads, After, Slowly, Indifferent;
    var r := bs[left..];
    var j := SomeByteMatters(r);
    ns := Overrun(left, bs, j);
    ms := Overrun(left, bs, j + 1);
    var data := bs[..left + j];
    assert bs[..left + j + 1] == data + [r[j]];
    Hex.EncodeAppend(data, [r[j]]);
    assert bs[left + j..] == r[j..] && bs[left + j + 1..] == r[j + 1..];
    Differs(Hex.Encode(data), r, j);
  }

  lemma Differs(text: seq<byte>, r: seq<byte>, j: nat)
    requires j < |r| && !Indifferent(r, j)
    ensures text + Answer(r[j..]) != (text + Hex.Encode([r[j]])) + Answer(r[j + 1..])
  {
    hide Slowly, Hex.Encode;
    var a, b := text + Answer(r[j..]), (text + Hex.Encode([r[j]])) + Answer(r[j + 1..]);
    assert a[|text|..] == Answer(r[j..]);
    assert b[|text|..] == Hex.Encode([r[j]]) + Answer(r[j + 1..]);
  }

  /** Some byte that one long read can reach makes a difference. */
  lemma SomeByteMatters(r: seq<byte>) returns (j: nat)
    requires r != []
    ensures j < |r| && j + 1 <= MAX_HEX_ENCODE_SIZE - 2 && !Indifferent(r, j)
  {
    hide Indifferent, Slowly;
    if |r| <= MAX_HEX_ENCODE_SIZE - 2 {
      LastByteMatters(r);
      j := |r| - 1;
    } else {
      LongRestMatters(r);
      j :| 0 <= j < 42 && !Indifferent(r, j);
    }
  }

  lemma LastByteMatters(r: seq<byte>)
    requires r != []
    ensures !Indifferent(r, |r| - 1)
  {
    var j := |r| - 1;
    assert r[j..] == [r[j]] && r[j + 1..] == [];
    hide Enc, Dec, Mul, Add, Hex.Encode;
    assert |Eat(Head, r[j]).out| <= 1;
    assert Slowly(Eat(Head, r[j]).ctrl, []).out == [];
  }

  // ---------- the exact condition ----------

  /**
   What a connection answers is independent of how its input arrives, if and only if nothing is
   queued behind hex data that the server can read.
   */
  lemma AnswersDependOnChunksIff(bs: seq<byte>)
    ensures Tidy(Head, bs)
       <==> forall ns, ms :: Ended(Head, bs, ns) && Ended(Head, bs, ms)
                             ==> After(Head, bs, ns).out == After(Head, bs, ms).out
  {
    hide Ended, After, Tidy;
    if Tidy(Head, bs) {
      forall ns, ms | Ended(Head, bs, ns) && Ended(Head, bs, ms)
        ensures After(Head, bs, ns).out == After(Head, bs, ms).out
      {
        TidyOutcome(Head, bs, ns, ms);
      }
    } else {
      var ns, ms := UntidyOutcomes(Head, bs);
    }
  }

  /** A Nop sent right behind a ToHex request may be answered, or be taken for more to encode. */
  lemma PipelinedNopIsMisserved(input: seq<byte>) returns (apart: seq<nat>, together: seq<nat>)
    requires 1 <= |input| < MAX_HEX_ENCODE_SIZE
    ensures var bs := Request(ToHex(input)) + Request(Nop);
      && Ended(Head, bs, apart) && After(Head, bs, apart).out == Hex.Encode(input) + [CMD_NOP]
      && Ended(Head, bs, together) && After(Head, bs, together).out == Hex.Encode(input + [CMD_NOP])
  {
    hide Reads, After, Hex.Encode, Within;
    var bs, data := Request(ToHex(input)) + Request(Nop), input + [CMD_NOP];
    HexRequestHeader(input, Request(Nop));
    var one := Overrun(|input|, data, 0);
    var two := Overrun(|input|, data, 1);
    AfterHeader(bs, |input|, data, one);
    AfterHeader(bs, |input|, data, two);
    apart, together := Ones(9) + one, Ones(9) + two;
    assert data[..|input|] == input && data[..|input| + 1] == data;
    assert data[|input|..] == [CMD_NOP] && data[|input| + 1..] == [];
    SlowNop();
  }

  lemma AfterHeader(bs: seq<byte>, left: nat, data: seq<byte>, ns: seq<nat>)
    requires |bs| >= 9 && bs[9..] == data && Within(Head, bs, Ones(9))
    requires After(Head, bs, Ones(9)) == Fed(HexData(left), []) && Ended(HexData(left), data, ns)
    ensures Ended(Head, bs, Ones(9) + ns)
    ensures After(Head, bs, Ones(9) + ns).out == After(HexData(left), data, ns).out
  {
    hide Reads, After, Within;
    ReadsAppend(Head, bs, Ones(9), ns);
    TakenAppend(Ones(9), ns);
    assert [] + After(HexData(left), data, ns).out == After(HexData(left), data, ns).out;
  }

  lemma SlowNop()
    ensures Slowly(Head, [CMD_NOP]).out == [CMD_NOP] && Slowly(Head, []).out == []
  {
    assert [CMD_NOP][1..] == [];
  }

  lemma HexRequestHeader(input: seq<byte>, tail: seq<byte>)
    requires 1 <= |input| < MAX_HEX_ENCODE_SIZE
    ensures var bs := Request(ToHex(input)) + tail;
      Within(Head, bs, Ones(9)) && After(Head, bs, Ones(9)) == Fed(HexData(|input|), [])
  {
    hide Request, CtrlAt, OutAt, Feed, Within, After;
    var c := ToHex(input);
    var bs := Request(c) + tail;
    RequestLength(c);
    forall m | 0 <= m < 9 ensures !Spins(Feed(Head, bs[..m]).ctrl) && (m > 0 ==> Feed(Head, bs[..m]).ctrl != Head) {
      assert bs[..m] == Request(c)[..m];
      FeedFrame(c, m);
      HexPlace(c, m);
      if m > 0 {
        InsideIsNotHead(c, m);
      }
    }
    OnesWithin(Head, bs, 9);
    assert bs[..9] == Request(c)[..9];
    FeedFrame(c, 9);
    HexStart(input);
  }

  lemma HexStart(input: seq<byte>)
    requires 1 <= |input|
    ensures |Request(ToHex(input))| > 9
    ensures CtrlAt(ToHex(input), 9) == HexData(|input|) && OutAt(ToHex(input), 9) == []
  {
    RequestLength(ToHex(input));
    assert input[..0] == [];
  }

  // ---------- one command ----------

  /** The command is complete, the input is used up, or the hex loop spins. */
  ghost predicate Stopped(k: Ctrl, bs: seq<byte>, ns: seq<nat>)
    ensures Stopped(k, bs, ns) ==> Reads(k, bs, ns)
  {
    && Within(k, bs, ns)
    && ((ns != [] && After(k, bs, ns).ctrl == Head) || Taken(ns) == |bs| || Spins(After(k, bs, ns).ctrl))
  }

  lemma {:induction false} CommandOutcome(k: Ctrl, bs: seq<byte>, ns: seq<nat>, ms: seq<nat>)
    requires TidyCommand(k, bs) && Stopped(k, bs, ns) && Stopped(k, bs, ms) && (k.HexData? ==> k.left >= 1)
    ensures Taken(ns) == Taken(ms) && After(k, bs, ns) == After(k, bs, ms)
    decreases |bs|
  {
    hide Eat;
    if bs != [] && !Spins(k) {
      if k.HexData? {
        hide Reads, After, Within;
        HexWithin(k.left, bs, ns);
        HexWithin(k.left, bs, ms);
      } else {
        assert bs[..1][0] == bs[0];
        EatLeaves(k, bs[0]);
        if Eat(k, bs[0]).ctrl != Head {
          CommandOutcome(Eat(k, bs[0]).ctrl, bs[1..], ns[1..], ms[1..]);
        }
      }
    }
  }

  /** Hex data to its end, and j bytes more. */
  lemma {:induction false} OverrunCommand(left: nat, bs: seq<byte>, j: nat) returns (ns: seq<nat>)
    requires 1 <= left < MAX_HEX_ENCODE_SIZE && left + j <= |bs| && j <= 1
    ensures Within(HexData(left), bs, ns) && ns != []
    ensures After(HexData(left), bs, ns) == Fed(Head, Hex.Encode(bs[..left + j]))
    decreases left
  {
    hide Hex.Encode;
    if left == 1 {
      ns := [1 + j];
      assert ns[1..] == [];
      assert Hex.Encode(bs[..1 + j]) + [] == Hex.Encode(bs[..1 + j]);
    } else {
      var rest := OverrunCommand(left - 1, bs[1..], j);
      ns := [1] + rest;
      assert ns[1..] == rest;
      assert bs[..left + j] == bs[..1] + bs[1..][..left - 1 + j];
      Hex.EncodeAppend(bs[..1], bs[1..][..left - 1 + j]);
    }
  }

  lemma {:induction false} UntidyCommand(k: Ctrl, bs: seq<byte>) returns (ns: seq<nat>, ms: seq<nat>)
    requires !TidyCommand(k, bs) && (k.HexData? ==> k.left >= 1)
    ensures Within(k, bs, ns) && Within(k, bs, ms) && ns != [] && ms != []
    ensures After(k, bs, ns).ctrl == After(k, bs, ms).ctrl == Head
    ensures After(k, bs, ns).out != After(k, bs, ms).out
    decreases |bs|
  {
    hide Eat, Hex.Encode;
    if k.HexData? {
      ns := OverrunCommand(k.left, bs, 0);
      ms := OverrunCommand(k.left, bs, 1);
    } else {
      var first := Eat(k, bs[0]);
      EatLeaves(k, bs[0]);
      ns, ms := UntidyCommand(first.ctrl, bs[1..]);
      assert bs[..1][0] == bs[0];
      StillDiffer(first.out, After(first.ctrl, bs[1..], ns).out, After(first.ctrl, bs[1..], ms).out);
      assert ([1] + ns)[1..] == ns && ([1] + ms)[1..] == ms;
      ns, ms := [1] + ns, [1] + ms;
    }
  }

  // ---------- frames ----------

  lemma {:induction false} TidyFrom(k: Ctrl, bs: seq<byte>)
    requires forall n :: 0 <= n < |bs| && Feed(k, bs[..n]).ctrl.HexData? ==> |bs| - n <= Feed(k, bs[..n]).ctrl.left
    ensures Tidy(k, bs)
    decreases |bs|
  {
    hide Eat;
    if bs != [] {
      assert bs[..0] == [] && Feed(k, bs[..0]).ctrl == k;
      var k', rest := Eat(k, bs[0]).ctrl, bs[1..];
      forall n | 0 <= n < |rest| && Feed(k', rest[..n]).ctrl.HexData?
        ensures |rest| - n <= Feed(k', rest[..n]).ctrl.left
      {
        assert bs[..n + 1][0] == bs[0] && bs[..n + 1][1..] == rest[..n];
        assert Feed(k, bs[..n + 1]).ctrl == Feed(k', rest[..n]).ctrl;
      }
      TidyFrom(k', rest);
    }
  }

  /** The frame of any call is tidy. */
  lemma FrameIsTidy(c: Call)
    requires ValidCall(c)
    ensures Tidy(Head, Request(c))
  {
    hide Feed, Request, CtrlAt, OutAt, Tidy;
    forall n | 0 <= n < |Request(c)| && Feed(Head, Request(c)[..n]).ctrl.HexData?
      ensures |Request(c)| - n <= Feed(Head, Request(c)[..n]).ctrl.left
    {
      FeedFrame(c, n);
      HexPlace(c, n);
    }
    TidyFrom(Head, Request(c));
  }

  lemma HexPlace(c: Call, n: nat)
    requires n < |Request(c)|
    ensures CtrlAt(c, n).HexData? ==> c.ToHex? && n >= 9 && CtrlAt(c, n).left == |Request(c)| - n == 9 + |c.input| - n
    ensures OversizeHex(c) && n == 9 ==> Spins(CtrlAt(c, n))
  {
    RequestLength(c);
  }

  /** How much of a call's frame the server reads: all of it, or the header of an oversize ToHex. */
  function Readable(c: Call): (n: nat)
    ensures 0 < n <= |Request(c)|
  {
    RequestLength(c);
    if OversizeHex(c) then 9 else |Request(c)|
  }

  lemma FrameReads(c: Call)
    requires ValidCall(c)
    ensures Stopped(Head, Request(c), Ones(Readable(c)))
    ensures After(Head, Request(c), Ones(Readable(c))) == Fed(CtrlAt(c, Readable(c)), OutAt(c, Readable(c)))
  {
    hide Feed, Request, CtrlAt, OutAt, Within, After;
    var n := Readable(c);
    forall m | 0 <= m < n
      ensures !Spins(Feed(Head, Request(c)[..m]).ctrl) && (m > 0 ==> Feed(Head, Request(c)[..m]).ctrl != Head)
    {
      FeedFrame(c, m);
      HexPlace(c, m);
      if m > 0 {
        InsideIsNotHead(c, m);
      }
    }
    OnesWithin(Head, Request(c), n);
    FeedFrame(c, n);
    if OversizeHex(c) {
      RequestLength(c);
      HexPlace(c, 9);
    }
  }

  /** However it arrives, the server reads a call's frame to its end and answers with the call's reply. */
  lemma FrameOutcome(c: Call, ns: seq<nat>)
    requires ValidCall(c) && Stopped(Head, Request(c), ns)
    ensures Taken(ns) == Readable(c)
    ensures After(Head, Request(c), ns) == if OversizeHex(c) then Fed(HexData(|c.input|), []) else Fed(Head, Reply(c))
  {
    hide Request, CtrlAt, OutAt, Within, After, Tidy, Stopped;
    FrameIsTidy(c);
    TidyIsTidyCommand(Head, Request(c));
    FrameReads(c);
    CommandOutcome(Head, Request(c), ns, Ones(Readable(c)));
    FrameEnds(c);
  }

  lemma FrameEnds(c: Call)
    ensures CtrlAt(c, Readable(c)) == if OversizeHex(c) then HexData(|c.input|) else Head
    ensures OutAt(c, Readable(c)) == if OversizeHex(c) then [] else Reply(c)
  {
    RequestLength(c);
    OutAtEnds(c);
    if c.ToHex? {
      assert c.input[..0] == [];
    }
  }
}
