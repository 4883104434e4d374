/** Go's `int64` and its little-endian wire form. Arithmetic wraps modulo 2^64. */
module Int64 {

  const TWO63: int := 0x8000_0000_0000_0000
  const TWO64: int := 0x1_0000_0000_0000_0000

  type byte = x: int | 0 <= x < 256
  type int64 = x: int | -0x8000_0000_0000_0000 <= x < 0x8000_0000_0000_0000

  /** The int64 congruent to x modulo 2^64: what Go keeps of an overflowing result. */
  function Wrap(x: int): (r: int64)
    ensures (r - x) % TWO64 == 0
    ensures -TWO63 <= x < TWO63 ==> r == x
  {
    var u := x % TWO64;
    assert (u - x) % TWO64 == 0 by { ModDifference(x); }
    assert (u - TWO64 - x) % TWO64 == 0 by { ModDifference(x); }
    if u >= TWO63 then u - TWO64 else u
  }

  lemma ModDifference(x: int)
    ensures (x % TWO64 - x) % TWO64 == 0
    ensures (x % TWO64 - TWO64 - x) % TWO64 == 0
  {
    var q := x / TWO64;
    assert x == q * TWO64 + x % TWO64;
    MultipleIsZero(-q);
    MultipleIsZero(-q - 1);
  }

  lemma MultipleIsZero(q: int)
    ensures (q * TWO64) % TWO64 == 0
  {
  }

  function Add(a: int64, b: int64): (r: int64)
    ensures (r - (a + b)) % TWO64 == 0
  {
    Wrap(a + b)
  }

  function Mul(a: int64, b: int64): (r: int64)
    ensures (r - a * b) % TWO64 == 0
  {
    Wrap(a * b)
  }

  /** No two int64 values are congruent modulo 2^64, so a congruence determines a result. */
  lemma CongruentIsEqual(v: int64, w: int64)
    requires (v - w) % TWO64 == 0
    ensures v == w
  {
  }

  lemma CongruentToSame(v: int64, w: int64, x: int)
    requires (v - x) % TWO64 == 0 && (w - x) % TWO64 == 0
    ensures v == w
  {
    var i, j := (v - x) / TWO64, (w - x) / TWO64;
    assert v - w == TWO64 * (i - j);
    CongruentIsEqual(v, w);
  }

  /** The k low base-256 digits of u, least significant first. */
  function ToLE(u: nat, k: nat): (bs: seq<byte>)
    ensures |bs| == k
  {
    if k == 0 then [] else [u % 256] + ToLE(u / 256, k - 1)
  }

  function FromLE(bs: seq<byte>): nat {
    if bs == [] then 0 else bs[0] + 256 * FromLE(bs[1..])
  }

  function Pow256(k: nat): (p: nat)
    ensures p > 0
  {
    if k == 0 then 1 else 256 * Pow256(k - 1)
  }

  /** Byte i of the little-endian form is the digit of weight 256^i. */
  lemma {:induction false} LittleEndianDigit(u: nat, k: nat, i: nat)
    requires i < k
    ensures ToLE(u, k)[i] == (u / Pow256(i)) % 256
  {
    if i > 0 {
      LittleEndianDigit(u / 256, k - 1, i - 1);
      assert ToLE(u, k)[i] == ToLE(u / 256, k - 1)[i - 1];
      DivideTwice(u, 256, Pow256(i - 1));
    }
  }

  lemma DivideTwice(u: nat, a: nat, b: nat)
    requires a > 0 && b > 0
    ensures a * b > 0 && (u / a) / b == u / (a * b)
  {
    var r, r2, q2 := u % a, (u / a) % b, (u / a) / b;
    Regroup(u, a, b, u / a, r, q2, r2);
    SameQuotient(a * b, q2, a * r2 + r, u / (a * b), u % (a * b));
  }

  lemma Regroup(u: nat, a: nat, b: nat, q: nat, r: nat, q2: nat, r2: nat)
    requires a > 0 && b > 0 && u == a * q + r && r < a && q == b * q2 + r2 && r2 < b
    ensures a * b > 0 && u == (a * b) * q2 + (a * r2 + r) && 0 <= a * r2 + r < a * b
  {
    assert a * (b * q2 + r2) == a * (b * q2) + a * r2;
    assert a * (b * q2) == (a * b) * q2;
    assert a * r2 <= a * (b - 1);
    assert a * (b - 1) == a * b - a;
  }

  lemma SameQuotient(d: nat, q: nat, r: nat, q': nat, r': nat)
    requires d * q + r == d * q' + r' && r < d && r' < d
    ensures q == q'
  {
    if q < q' {
      Further(d, q, q' - q);
    } else if q' < q {
      Further(d, q', q - q');
    }
  }

  lemma Further(d: nat, q: nat, e: nat)
    requires e >= 1
    ensures d * (q + e) >= d * q + d
  {
    assert d * (q + e) == d * q + d * e;
    assert d * e == d + d * (e - 1);
  }

  lemma Pow256Of8()
    ensures Pow256(8) == TWO64
  {
    assert Pow256(4) == 0x1_0000_0000;
    assert Pow256(5) == 256 * Pow256(4);
    assert Pow256(6) == 256 * Pow256(5);
    assert Pow256(7) == 256 * Pow256(6);
  }

  /** k digits carry every number below 256^k. */
  lemma {:induction false} FromToLE(u: nat, k: nat)
    requires u < Pow256(k)
    ensures FromLE(ToLE(u, k)) == u
  {
    if k > 0 {
      FromToLE(u / 256, k - 1);
      assert ToLE(u, k)[1..] == ToLE(u / 256, k - 1);
    }
  }

  lemma {:induction false} ToFromLE(bs: seq<byte>)
    ensures FromLE(bs) < Pow256(|bs|)
    ensures ToLE(FromLE(bs), |bs|) == bs
  {
    if bs != [] {
      ToFromLE(bs[1..]);
      var rest := FromLE(bs[1..]);
      assert (bs[0] + 256 * rest) / 256 == rest;
      assert (bs[0] + 256 * rest) % 256 == bs[0];
      assert bs == [bs[0]] + bs[1..];
    }
  }

  /** The 8 bytes that stand for v on the wire. */
  function Enc(v: int64): (bs: seq<byte>)
    ensures |bs| == 8
  {
    ToLE(v % TWO64, 8)
  }

  function Dec(bs: seq<byte>): int64
    requires |bs| == 8
  {
    Wrap(FromLE(bs))
  }

  /** The wire form of v: byte i is the digit of weight 256^i of v modulo 2^64. */
  ghost predicate LittleEndian(bs: seq<byte>, v: int64) {
    |bs| == 8 && forall i :: 0 <= i < 8 ==> bs[i] == (v % TWO64 / Pow256(i)) % 256
  }

  lemma EncIsLittleEndian(v: int64)
    ensures LittleEndian(Enc(v), v)
  {
    hide ToLE, Pow256;
    forall i | 0 <= i < 8 ensures Enc(v)[i] == (v % TWO64 / Pow256(i)) % 256 {
      LittleEndianDigit(v % TWO64, 8, i);
    }
  }

  /** The wire form determines the value, so decoding cannot use another order. */
  lemma DecOfLittleEndian(bs: seq<byte>, v: int64)
    ensures |bs| == 8 && Dec(bs) == v <==> LittleEndian(bs, v)
  {
    hide Enc, Dec;
    EncIsLittleEndian(v);
    DecEnc(v);
    if |bs| == 8 {
      EncDec(bs);
      if LittleEndian(bs, v) {
        assert bs == Enc(v);
      }
    }
  }

  lemma WrapOfMod(v: int64)
    ensures Wrap(v % TWO64) == v
  {
  }

  lemma DecEnc(v: int64)
    ensures Dec(Enc(v)) == v
  {
    hide ToLE, FromLE, Wrap;
    WrapOfMod(v);
    Pow256Of8();
    FromToLE(v % TWO64, 8);
  }

  lemma WrapUnwraps(u: nat)
    requires u < TWO64
    ensures Wrap(u) % TWO64 == u
  {
  }

  /** Every 8 bytes are the encoding of exactly one int64: nothing on the wire is malformed. */
  lemma EncDec(bs: seq<byte>)
    requires |bs| == 8
    ensures Enc(Dec(bs)) == bs
  {
    hide ToLE, FromLE, Wrap;
    Pow256Of8();
    ToFromLE(bs);
    WrapUnwraps(FromLE(bs));
  }

  /** A run of int64 values in wire form. */
  function Bytes(vs: seq<int64>): (bs: seq<byte>)
    ensures |bs| == 8 * |vs|
  {
    if vs == [] then [] else Enc(vs[0]) + Bytes(vs[1..])
  }

  /** The whole int64 values at the front of bs; fewer than 8 trailing bytes are ignored. */
  function Ints(bs: seq<byte>): (vs: seq<int64>)
    ensures |vs| == |bs| / 8
  {
    if |bs| < 8 then [] else [Dec(bs[..8])] + Ints(bs[8..])
  }

  lemma IntsCons(v: int64, tail: seq<byte>)
    ensures Ints(Enc(v) + tail) == [v] + Ints(tail)
  {
    var e := Enc(v);
    var bs := e + tail;
    assert bs[..8] == e;
    assert bs[8..] == tail;
    DecEnc(v);
  }

  lemma {:induction false} IntsOfBytes(vs: seq<int64>, tail: seq<byte>)
    ensures Ints(Bytes(vs) + tail) == vs + Ints(tail)
  {
    hide Enc, Dec, Ints;
    if vs == [] {
      assert Bytes(vs) + tail == tail && vs + Ints(tail) == Ints(tail);
    } else {
      var e, rest := Enc(vs[0]), Bytes(vs[1..]) + tail;
      assert Bytes(vs) + tail == e + rest;
      IntsCons(vs[0], rest);
      IntsOfBytes(vs[1..], tail);
      assert vs + Ints(tail) == [vs[0]] + (vs[1..] + Ints(tail));
    }
  }

  /** Value i of a byte string, and the values from there on. */
  lemma {:induction false} IntsAt(bs: seq<byte>, i: nat)
    requires 8 * i <= |bs|
    ensures Ints(bs[8 * i..]) == Ints(bs)[i..]
    ensures 8 * i + 8 <= |bs| ==> Ints(bs)[i] == Dec(bs[8 * i..][..8])
  {
    hide Dec;
    if i > 0 {
      IntsAt(bs[8..], i - 1);
      assert bs[8..][8 * (i - 1)..] == bs[8 * i..];
      assert Ints(bs)[1..] == Ints(bs[8..]);
      assert Ints(bs)[i..] == Ints(bs)[1..][i - 1..];
    } else {
      assert bs[0..] == bs;
    }
  }

  lemma {:induction false} BytesAppend(vs: seq<int64>, ws: seq<int64>)
    ensures Bytes(vs + ws) == Bytes(vs) + Bytes(ws)
  {
    if vs == [] {
      assert vs + ws == ws;
    } else {
      assert (vs + ws)[1..] == vs[1..] + ws;
      BytesAppend(vs[1..], ws);
    }
  }

  /** Value i of the run occupies bytes 8i to 8i+8. */
  lemma {:induction false} BytesAt(vs: seq<int64>, i: nat)
    requires i < |vs|
    ensures Bytes(vs)[8 * i..8 * i + 8] == Enc(vs[i])
  {
    assert vs == vs[..i] + ([vs[i]] + vs[i + 1..]);
    BytesAppend(vs[..i], [vs[i]] + vs[i + 1..]);
    BytesAppend([vs[i]], vs[i + 1..]);
    assert Bytes([vs[i]]) == Enc(vs[i]) + Bytes([]);
  }

  function MulAll(vs: seq<int64>, m: int64): (ws: seq<int64>)
    ensures |ws| == |vs|
    ensures forall i :: 0 <= i < |vs| ==> ws[i] == Mul(vs[i], m)
  {
    seq(|vs|, i requires 0 <= i < |vs| => Mul(vs[i], m))
  }

  lemma MulAllAppend(vs: seq<int64>, ws: seq<int64>, m: int64)
    ensures MulAll(vs + ws, m) == MulAll(vs, m) + MulAll(ws, m)
  {
    var whole, parts := MulAll(vs + ws, m), MulAll(vs, m) + MulAll(ws, m);
    forall i | 0 <= i < |vs| + |ws| ensures whole[i] == parts[i] {
      assert whole[i] == Mul((vs + ws)[i], m);
    }
  }
}
