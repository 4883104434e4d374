/**
 The request and reply frames of the hand-written binary protocol, and the server's
 command loop as an automaton that consumes its input one byte at a time.
 */
module Frames {
  import opened Int64
  import opened ByteIO
  import opened Trees
  import Hex

  const CMD_NOP: byte := 1
  const CMD_ADD: byte := 2
  const CMD_MULT_TREE: byte := 3
  const CMD_TO_HEX: byte := 4

  // ---------- the plain API ----------

  datatype Call =
    | Nop
    | AddInts(a: int64, b: int64)
    | MultTree(mult: int64, tree: Tree)
    | ToHex(input: seq<byte>)

  datatype Result = NopDone | Sum(value: int64) | Product(tree: Tree) | HexText(text: seq<byte>)

  /** What a caller of the rpcbench Client interface is promised. */
  function Api(c: Call): Result {
    match c
    case Nop => NopDone
    case AddInts(a, b) => Sum(Add(a, b))
    case MultTree(m, t) => Product(Mult(t, m))
    case ToHex(input) => HexText(Hex.Encode(input))
  }

  /** Node counts and lengths fit the int64 in which the frame carries them. */
  ghost predicate ValidCall(c: Call) {
    && (c.MultTree? ==> Total(c.tree) < TWO63)
    && (c.ToHex? ==> |c.input| < TWO63)
  }

  // ---------- frames ----------

  /** The frame of a MultTree call after its command byte. */
  function MultTreeFrame(m: int64, t: Tree): seq<byte> {
    Enc(m) + Enc(Wrap(Total(t))) + Bytes(Values(t))
  }

  function Request(c: Call): (bs: seq<byte>)
    ensures |bs| > 0
  {
    match c
    case Nop => [CMD_NOP]
    case AddInts(a, b) => [CMD_ADD] + Enc(a) + Enc(b)
    case MultTree(m, t) => [CMD_MULT_TREE] + MultTreeFrame(m, t)
    case ToHex(input) => [CMD_TO_HEX] + Enc(Wrap(|input|)) + input
  }

  /** How many reply bytes the client waits for. */
  function ReplySize(c: Call): nat {
    match c
    case Nop => 1
    case AddInts(_, _) => 8
    case MultTree(_, t) => 8 * Total(t)
    case ToHex(input) => 2 * |input|
  }

  function Reply(c: Call): (bs: seq<byte>) {
    match c
    case Nop => [CMD_NOP]
    case AddInts(a, b) => Enc(Add(a, b))
    case MultTree(m, t) => Bytes(MulAll(Values(t), m))
    case ToHex(input) => Hex.Encode(input)
  }

  /** What the client makes of the reply bytes: a tree reply is read into the request's own tree. */
  function Finish(c: Call, got: seq<byte>): Result
    requires |got| == ReplySize(c)
  {
    match c
    case Nop => NopDone
    case AddInts(_, _) => Sum(Dec(got))
    case MultTree(_, t) => Product(ReadInto(t, Ints(got)).got)
    case ToHex(_) => HexText(got)
  }

  lemma ReplyLength(c: Call)
    ensures |Reply(c)| == ReplySize(c)
  {
    if c.MultTree? {
      ValuesLength(c.tree);
    }
  }

  /** Client decoding after server encoding is the plain API. */
  lemma FinishReply(c: Call)
    ensures |Reply(c)| == ReplySize(c) && Finish(c, Reply(c)) == Api(c)
  {
    ReplyLength(c);
    match c
    case Nop =>
    case AddInts(a, b) => DecEnc(Add(a, b));
    case MultTree(m, t) =>
      var vs := MulAll(Values(t), m);
      IntsOfBytes(vs, []);
      assert Bytes(vs) + [] == Bytes(vs);
      assert vs + Ints([]) == vs;
      ReadBackProducts(t, m, []);
    case ToHex(_) =>
  }

  // ---------- the bytes on the wire ----------

  /** Value i of a run of values. */
  ghost predicate ValueOnWire(bs: seq<byte>, i: nat, v: int64) {
    8 * i + 8 <= |bs| && LittleEndian(bs[8 * i..8 * i + 8], v)
  }

  /** Every request, byte by byte, with the command numbers the two ends agree on. */
  lemma RequestOnWire(c: Call)
    requires ValidCall(c)
    ensures var bs := Request(c);
      match c
      case Nop => bs == [1]
      case AddInts(a, b) => |bs| == 17 && bs[0] == 2 && LittleEndian(bs[1..9], a) && LittleEndian(bs[9..17], b)
      case MultTree(m, t) =>
        && |bs| == 17 + 8 * Total(t) && |Values(t)| == Total(t)
        && bs[0] == 3 && LittleEndian(bs[1..9], m) && LittleEndian(bs[9..17], Total(t))
        && forall i :: 0 <= i < Total(t) ==> ValueOnWire(bs[17..], i, Values(t)[i])
      case ToHex(input) => |bs| == 9 + |input| && bs[0] == 4 && LittleEndian(bs[1..9], |input|) && bs[9..] == input
  {
    RequestLength(c);
    hide Enc, Bytes, Values, Total, LittleEndian;
    var bs := Request(c);
    match c
    case Nop =>
    case AddInts(a, b) =>
      assert bs[1..9] == Enc(a) && bs[9..17] == Enc(b);
      EncIsLittleEndian(a);
      EncIsLittleEndian(b);
    case MultTree(m, t) =>
      ValuesLength(t);
      assert bs[1..9] == Enc(m) && bs[9..17] == Enc(Total(t)) && bs[17..] == Bytes(Values(t));
      EncIsLittleEndian(m);
      EncIsLittleEndian(Total(t));
      forall i | 0 <= i < Total(t) ensures ValueOnWire(bs[17..], i, Values(t)[i]) {
        BytesOnWire(Values(t), i);
      }
    case ToHex(input) =>
      assert bs[1..9] == Enc(|input|) && bs[9..] == input;
      EncIsLittleEndian(|input|);
  }

  lemma BytesOnWire(vs: seq<int64>, i: nat)
    requires i < |vs|
    ensures ValueOnWire(Bytes(vs), i, vs[i])
  {
    BytesAt(vs, i);
    EncIsLittleEndian(vs[i]);
  }

  /** Value i of a run of values is the int64 congruent to x modulo 2^64. */
  ghost predicate ResidueOnWire(bs: seq<byte>, i: nat, x: int) {
    8 * i + 8 <= |bs| && (Dec(bs[8 * i..8 * i + 8]) - x) % TWO64 == 0
  }

  /** Every reply: the sum and the products are the exact ones modulo 2^64, products in the tree's order. */
  lemma ReplyOnWire(c: Call)
    ensures var bs := Reply(c);
      match c
      case Nop => bs == [1]
      case AddInts(a, b) => |bs| == 8 && ResidueOnWire(bs, 0, a + b)
      case MultTree(m, t) =>
        && |bs| == 8 * Total(t) && |Values(t)| == Total(t)
        && forall i :: 0 <= i < Total(t) ==> ResidueOnWire(bs, i, Values(t)[i] * m)
      case ToHex(input) => bs == Hex.Encode(input)
  {
    hide Enc, Dec, Bytes, Values, Total, MulAll, ResidueOnWire;
    match c
    case Nop =>
    case AddInts(a, b) =>
      var sum := Add(a, b);
      assert Bytes([sum]) == Enc(sum) by { OneValue(sum); }
      BytesResidue([sum], 0, a + b);
    case MultTree(m, t) =>
      ValuesLength(t);
      var vs, ps := Values(t), MulAll(Values(t), m);
      forall i | 0 <= i < Total(t) ensures ResidueOnWire(Bytes(ps), i, vs[i] * m) {
        assert ps[i] == Mul(vs[i], m);
        BytesResidue(ps, i, vs[i] * m);
      }
    case ToHex(_) =>
  }

  lemma OneValue(v: int64)
    ensures Bytes([v]) == Enc(v)
  {
    assert Bytes([v]) == Enc(v) + Bytes([]);
  }

  lemma BytesResidue(vs: seq<int64>, i: nat, x: int)
    requires i < |vs| && (vs[i] - x) % TWO64 == 0
    ensures ResidueOnWire(Bytes(vs), i, x)
  {
    hide Enc, Dec, Bytes;
    BytesAt(vs, i);
    DecEnc(vs[i]);
  }

  // ---------- the server automaton ----------

  /** Where the command loop stands: what it has read of the current frame and still needs. */
  datatype Ctrl =
    | Head
    | AddArgs(acc: seq<byte>)
    | MultArgs(acc: seq<byte>)
    | MultValue(mult: int64, left: nat, acc: seq<byte>)
    | HexSize(acc: seq<byte>)
    | HexData(left: nat)

  datatype Fed = Fed(ctrl: Ctrl, out: seq<byte>)

  /** One byte read by ReadByte, by ReadInt64 or by the hex loop, and what is written because of it. */
  function Eat(k: Ctrl, b: byte): Fed {
    match k
    case Head =>
      if b == CMD_NOP then Fed(Head, [CMD_NOP])
      else if b == CMD_ADD then Fed(AddArgs([]), [])
      else if b == CMD_MULT_TREE then Fed(MultArgs([]), [])
      else if b == CMD_TO_HEX then Fed(HexSize([]), [])
      else Fed(Head, [])
    case AddArgs(acc) =>
      var bs := acc + [b];
      if |bs| == 16 then Fed(Head, Enc(Add(Dec(bs[..8]), Dec(bs[8..])))) else Fed(AddArgs(bs), [])
    case MultArgs(acc) =>
      var bs := acc + [b];
      if |bs| != 16 then Fed(MultArgs(bs), [])
      else if Dec(bs[8..]) <= 0 then Fed(Head, [])
      else Fed(MultValue(Dec(bs[..8]), Dec(bs[8..]), []), [])
    case MultValue(m, left, acc) =>
      var bs := acc + [b];
      if |bs| != 8 then Fed(MultValue(m, left, bs), [])
      else Fed(if left <= 1 then Head else MultValue(m, left - 1, []), Enc(Mul(Dec(bs), m)))
    case HexSize(acc) =>
      var bs := acc + [b];
      if |bs| != 8 then Fed(HexSize(bs), [])
      else Fed(if Dec(bs) <= 0 then Head else HexData(Dec(bs)), [])
    case HexData(left) =>
      Fed(if left <= 1 then Head else HexData(left - 1), Hex.Encode([b]))
  }

  /**
   The length of the slice the hex loop reads into: readHexBuf from min(len, size) on. It is empty
   from the buffer size on, and below that always shorter than the bufio.Reader's own buffer.
   */
  function HexSlice(left: nat): nat { MAX_HEX_ENCODE_SIZE - Min(MAX_HEX_ENCODE_SIZE, left) }

  /** Hex inputs for which that slice is empty. */
  predicate OversizeHex(c: Call) { c.ToHex? && |c.input| >= MAX_HEX_ENCODE_SIZE }

  /** One read of the hex loop: what it took is encoded, and the loop ends once the count is used up. */
  function EatHex(left: int, chunk: seq<byte>): Fed {
    Fed(if left - |chunk| > 0 then HexData(left - |chunk|) else Head, Hex.Encode(chunk))
  }

  /** The control point after pos bytes of the frame of c. */
  ghost function CtrlAt(c: Call, pos: nat): Ctrl
    requires pos <= |Request(c)|
  {
    RequestLength(c);
    if pos == 0 || pos == |Request(c)| then Head
    else match c
      case Nop => Head
      case AddInts(_, _) => AddArgs(Request(c)[1..pos])
      case MultTree(m, t) =>
        if pos < 17 then MultArgs(Request(c)[1..pos])
        else
          var i := (pos - 17) / 8;
          MultValue(m, Total(t) - i, Request(c)[17 + 8 * i..pos])
      case ToHex(input) =>
        if pos < 9 then HexSize(Request(c)[1..pos]) else HexData(|Request(c)| - pos)
  }

  /** The reply bytes written once pos bytes of the frame of c are consumed. */
  ghost function OutAt(c: Call, pos: nat): seq<byte>
    requires pos <= |Request(c)|
  {
    match c
    case Nop => if pos == 0 then [] else Reply(c)
    case AddInts(_, _) => if pos < 17 then [] else Reply(c)
    case MultTree(m, t) =>
      ValuesLength(t);
      if pos < 17 then [] else Bytes(MulAll(Values(t), m)[..(pos - 17) / 8])
    case ToHex(input) => if pos < 9 then [] else Hex.Encode(input[..pos - 9])
  }

  lemma RequestLength(c: Call)
    ensures |Request(c)| == match c
                            case Nop => 1
                            case AddInts(_, _) => 17
                            case MultTree(_, t) => 17 + 8 * Total(t)
                            case ToHex(input) => 9 + |input|
  {
    if c.MultTree? {
      ValuesLength(c.tree);
    }
  }

  /** Nothing is written before the frame begins and the whole reply once it ends. */
  lemma OutAtEnds(c: Call)
    ensures OutAt(c, 0) == [] && OutAt(c, |Request(c)|) == Reply(c)
  {
    RequestLength(c);
    hide Request, Enc, Bytes, Values, Total, MulAll, Hex.Encode;
    match c
    case Nop =>
    case AddInts(_, _) =>
    case MultTree(m, t) =>
      ValuesLength(t);
      assert MulAll(Values(t), m)[..Total(t)] == MulAll(Values(t), m);
    case ToHex(input) =>
      assert input[..|input|] == input;
      EncodeNone();
  }

  lemma EncodeNone()
    ensures Hex.Encode([]) == []
  {
  }

  /** Inside a frame the server is never at a command byte: frames cannot be confused. */
  lemma InsideIsNotHead(c: Call, pos: nat)
    requires 0 < pos < |Request(c)|
    ensures CtrlAt(c, pos) != Head
  {
    RequestLength(c);
  }

  /** How much of the reply is written where: never all of a non-empty reply before the end. */
  lemma OutAtSize(c: Call, pos: nat)
    requires pos <= |Request(c)|
    ensures OutAt(c, pos) <= Reply(c)
    ensures pos < |Request(c)| && |Reply(c)| > 0 ==> |OutAt(c, pos)| < |Reply(c)|
    ensures c.MultTree? ==> |OutAt(c, pos)| == if pos < 17 then 0 else 8 * ((pos - 17) / 8)
  {
    RequestLength(c);
    match c
    case Nop =>
    case AddInts(_, _) =>
    case MultTree(m, t) =>
      ValuesLength(t);
      if pos >= 17 {
        BytesPrefix(MulAll(Values(t), m), (pos - 17) / 8);
      }
    case ToHex(input) =>
      if pos >= 9 {
        Hex.EncodeAppend(input[..pos - 9], input[pos - 9..]);
        assert input == input[..pos - 9] + input[pos - 9..];
      }
  }

  lemma BytesPrefix(vs: seq<int64>, i: nat)
    requires i <= |vs|
    ensures Bytes(vs[..i]) <= Bytes(vs) && |Bytes(vs[..i])| == 8 * i
  {
    BytesAppend(vs[..i], vs[i..]);
    assert vs == vs[..i] + vs[i..];
  }

  /** Byte pos of the frame takes the automaton from its place before it to its place after it. */
  ghost predicate Advances(c: Call, pos: nat)
    requires pos < |Request(c)|
  {
    var fed := Eat(CtrlAt(c, pos), Request(c)[pos]);
    && fed.ctrl == CtrlAt(c, pos + 1)
    && OutAt(c, pos + 1) == OutAt(c, pos) + fed.out
  }

  lemma EatAdvances(c: Call, pos: nat)
    requires ValidCall(c) && pos < |Request(c)|
    ensures Advances(c, pos)
  {
    match c
    case Nop =>
    case AddInts(a, b) => EatAdvancesAdd(a, b, pos);
    case MultTree(m, t) =>
      if pos < 17 { EatAdvancesMultArgs(m, t, pos); } else { EatAdvancesMultValue(m, t, pos); }
    case ToHex(input) => EatAdvancesHex(input, pos);
  }

  lemma EatAdvancesAdd(a: int64, b: int64, pos: nat)
    requires pos < |Request(AddInts(a, b))|
    ensures Advances(AddInts(a, b), pos)
  {
    var req := Request(AddInts(a, b));
    var (ea, eb) := (Enc(a), Enc(b));
    assert req[1..] == ea + eb && |req| == 17;
    hide Enc, Dec;
    if pos == 0 {
      assert req[1..1] == [];
    } else {
      var bs := req[1..pos] + [req[pos]];
      assert bs == req[1..pos + 1];
      if pos == 16 {
        assert bs == ea + eb;
        assert bs[..8] == ea && bs[8..] == eb;
        DecEnc(a);
        DecEnc(b);
      }
    }
  }

  lemma EatAdvancesMultArgs(m: int64, t: Tree, pos: nat)
    requires pos < 17 && pos < |Request(MultTree(m, t))| && Total(t) < TWO63
    ensures Advances(MultTree(m, t), pos)
  {
    hide Enc, Dec, Bytes, Values, MulAll, Wrap;
    var c := MultTree(m, t);
    var req := Request(c);
    RequestLength(c);
    if pos == 0 {
      assert req[1..1] == [];
    } else {
      var bs := req[1..pos] + [req[pos]];
      assert bs == req[1..pos + 1];
      if pos == 16 {
        MultHeader(m, t);
        assert req[17..17] == [];
      }
    }
  }

  lemma MultHeader(m: int64, t: Tree)
    requires Total(t) < TWO63
    ensures |Request(MultTree(m, t))| > 17
    ensures Dec(Request(MultTree(m, t))[1..17][..8]) == m
    ensures Dec(Request(MultTree(m, t))[1..17][8..]) == Total(t)
    ensures OutAt(MultTree(m, t), 17) == []
  {
    var c := MultTree(m, t);
    RequestLength(c);
    assert Request(c)[1..17][..8] == Enc(m) && Request(c)[1..17][8..] == Enc(Wrap(Total(t)));
    hide Enc, Dec;
    DecEnc(m);
    DecEnc(Wrap(Total(t)));
  }

  /** Bytes of value i: everything but its last byte is just kept, the last one emits the product. */
  lemma EatAdvancesMultValue(m: int64, t: Tree, pos: nat)
    requires 17 <= pos < |Request(MultTree(m, t))|
    ensures Advances(MultTree(m, t), pos)
  {
    hide Request, Enc, Dec, Values, Bytes, MulAll;
    var c := MultTree(m, t);
    RequestLength(c);
    var i, r := (pos - 17) / 8, (pos - 17) % 8;
    assert pos == 17 + 8 * i + r;
    assert Request(c)[17 + 8 * i..pos] + [Request(c)[pos]] == Request(c)[17 + 8 * i..pos + 1];
    if r == 7 {
      EatsWholeValue(m, t, i);
      assert (pos + 1 - 17) / 8 == i + 1;
      assert Request(c)[pos + 1..pos + 1] == [];
    } else {
      assert (pos + 1 - 17) / 8 == i;
    }
  }

  lemma EatsWholeValue(m: int64, t: Tree, i: nat)
    requires i < Total(t)
    ensures |Values(t)| == Total(t) && |Request(MultTree(m, t))| == 17 + 8 * Total(t)
    ensures Request(MultTree(m, t))[17 + 8 * i..25 + 8 * i] == Enc(Values(t)[i])
    ensures Dec(Enc(Values(t)[i])) == Values(t)[i]
    ensures Bytes(MulAll(Values(t), m)[..i + 1])
         == Bytes(MulAll(Values(t), m)[..i]) + Enc(Mul(Values(t)[i], m))
  {
    var c, vs := MultTree(m, t), Values(t);
    RequestLength(c);
    ValuesLength(t);
    assert Request(c)[17..] == Bytes(vs);
    BytesAt(vs, i);
    assert Request(c)[17 + 8 * i..25 + 8 * i] == Bytes(vs)[8 * i..8 * i + 8];
    DecEnc(vs[i]);
    BytesSnoc(MulAll(vs, m), i);
  }

  lemma BytesSnoc(ps: seq<int64>, i: nat)
    requires i < |ps|
    ensures Bytes(ps[..i + 1]) == Bytes(ps[..i]) + Enc(ps[i])
  {
    assert ps[..i + 1] == ps[..i] + [ps[i]];
    BytesAppend(ps[..i], [ps[i]]);
    assert Bytes([ps[i]]) == Enc(ps[i]) + Bytes([]);
  }

  lemma EatAdvancesHex(input: seq<byte>, pos: nat)
    requires pos < |Request(ToHex(input))| && |input| < TWO63
    ensures Advances(ToHex(input), pos)
  {
    hide Enc, Dec, Hex.Encode, Wrap;
    var req := Request(ToHex(input));
    if pos == 0 {
      assert req[1..1] == [];
    } else if pos < 9 {
      var bs := req[1..pos] + [req[pos]];
      assert bs == req[1..pos + 1];
      if pos == 8 {
        HexHeader(input);
      }
    } else {
      var i := pos - 9;
      assert req[pos] == input[i];
      assert input[..i + 1] == input[..i] + [input[i]];
      Hex.EncodeAppend(input[..i], [input[i]]);
    }
  }

  lemma HexHeader(input: seq<byte>)
    requires |input| < TWO63
    ensures |Request(ToHex(input))| >= 9 && Dec(Request(ToHex(input))[1..9]) == |input|
    ensures OutAt(ToHex(input), 9) == []
  {
    assert Request(ToHex(input))[1..9] == Enc(Wrap(|input|));
    assert input[..0] == [];
    hide Enc, Dec;
    DecEnc(Wrap(|input|));
  }

  /** The hex loop may take its bytes in chunks. */
  lemma HexChunkAdvances(c: Call, pos: nat, n: nat)
    requires c.ToHex? && 9 <= pos && pos + n <= |Request(c)|
    ensures OutAt(c, pos + n) == OutAt(c, pos) + Hex.Encode(Request(c)[pos..pos + n])
  {
    hide Enc, Hex.Encode;
    RequestLength(c);
    var i := pos - 9;
    HexBody(c.input, i, n);
    assert c.input[..i + n] == c.input[..i] + c.input[i..i + n];
    Hex.EncodeAppend(c.input[..i], c.input[i..i + n]);
  }

  lemma HexBody(input: seq<byte>, i: nat, n: nat)
    requires i + n <= |input|
    ensures |Request(ToHex(input))| == 9 + |input|
    ensures Request(ToHex(input))[9 + i..9 + i + n] == input[i..i + n]
  {
    hide Enc;
    assert Request(ToHex(input))[9..] == input;
  }
}
