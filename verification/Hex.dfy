/** Base 16 as in section 8 of RFC 4648, with lower-case digits on output. */
module Hex {
  import opened Int64

  function Digit(n: int): (b: byte)
    requires 0 <= n < 16
  {
    if n < 10 then 48 + n else 87 + n
  }

  function Encode(bs: seq<byte>): (out: seq<byte>)
    ensures |out| == 2 * |bs|
  {
    if bs == [] then [] else [Digit(bs[0] / 16), Digit(bs[0] % 16)] + Encode(bs[1..])
  }

  const ALPHABET := "0123456789abcdef"
  const UPPER_CASE := "0123456789ABCDEF"

  /** Each byte becomes its high and then its low digit, from the lower-case alphabet. */
  lemma {:induction false} EncodeAt(bs: seq<byte>, i: nat)
    requires i < |bs|
    ensures Encode(bs)[2 * i] == ALPHABET[bs[i] / 16] as int
    ensures Encode(bs)[2 * i + 1] == ALPHABET[bs[i] % 16] as int
  {
    if i == 0 {
      DigitIsLetter(bs[0] / 16);
      DigitIsLetter(bs[0] % 16);
    } else {
      EncodeAt(bs[1..], i - 1);
      assert Encode(bs)[2..] == Encode(bs[1..]);
    }
  }

  lemma DigitIsLetter(n: int)
    requires 0 <= n < 16
    ensures Digit(n) == ALPHABET[n] as int
  {
  }

  /** The value of a digit of either case, or -1. */
  function DigitValue(b: byte): (n: int)
    ensures -1 <= n < 16
  {
    if 48 <= b < 58 then b - 48
    else if 97 <= b < 103 then b - 87
    else if 65 <= b < 71 then b - 55
    else -1
  }

  datatype Decoded = Decoded(bytes: seq<byte>) | Malformed

  function Decode(hs: seq<byte>): Decoded {
    if hs == [] then Decoded([])
    else if |hs| == 1 || DigitValue(hs[0]) < 0 || DigitValue(hs[1]) < 0 then Malformed
    else
      var rest := Decode(hs[2..]);
      if rest.Malformed? then Malformed
      else Decoded([DigitValue(hs[0]) * 16 + DigitValue(hs[1])] + rest.bytes)
  }

  lemma {:induction false} DecodeEncode(bs: seq<byte>)
    ensures Decode(Encode(bs)) == Decoded(bs)
  {
    if bs != [] {
      var hs := Encode(bs);
      assert hs[2..] == Encode(bs[1..]);
      assert hs[0] == Digit(bs[0] / 16) && hs[1] == Digit(bs[0] % 16);
      hide Encode, Digit, DigitValue;
      ValueOfDigit(bs[0] / 16);
      ValueOfDigit(bs[0] % 16);
      DecodeEncode(bs[1..]);
      assert bs == [bs[0]] + bs[1..];
    }
  }

  lemma ValueOfDigit(n: int)
    requires 0 <= n < 16
    ensures DigitValue(Digit(n)) == n
  {
  }

  /** Encoding chunk by chunk is encoding the whole, whatever the chunks. */
  lemma {:induction false} EncodeAppend(a: seq<byte>, b: seq<byte>)
    ensures Encode(a + b) == Encode(a) + Encode(b)
  {
    if a == [] {
      assert a + b == b;
    } else {
      assert (a + b)[1..] == a[1..] + b;
      EncodeAppend(a[1..], b);
    }
  }

  /** Lower-case form of a hex digit; other bytes stay. */
  function Lower(hs: seq<byte>): (ls: seq<byte>)
    ensures |ls| == |hs|
  {
    if hs == [] then [] else [LowerByte(hs[0])] + Lower(hs[1..])
  }

  /**
   Comparing decoded text with the input, as the harness does, accepts a reply exactly when it
   is the encoding of the input up to letter case.
   */
  lemma {:induction false} DecodesToIff(hs: seq<byte>, bs: seq<byte>)
    ensures Decode(hs) == Decoded(bs) <==> Lower(hs) == Encode(bs)
  {
    if |hs| >= 2 && bs != [] {
      DecodesToIff(hs[2..], bs[1..]);
      var d0, d1 := DigitValue(hs[0]), DigitValue(hs[1]);
      assert Lower(hs) == Lower(hs[..2]) + Lower(hs[2..]) by {
        assert hs[1..][1..] == hs[2..];
        assert hs[..2][1..][1..] == [];
        assert hs[..2][1..][0] == hs[1];
      }
      assert Lower(hs)[2..] == Lower(hs[2..]) && Encode(bs)[2..] == Encode(bs[1..]);
      LowerDigit(hs[0], bs[0] / 16);
      LowerDigit(hs[1], bs[0] % 16);
      assert Lower(hs)[0] == LowerByte(hs[0]) && Lower(hs)[1] == LowerByte(hs[1]);
      if Lower(hs) == Encode(bs) {
        assert Encode(bs)[0] == Digit(bs[0] / 16) && Encode(bs)[1] == Digit(bs[0] % 16);
        assert bs == [bs[0]] + bs[1..];
      }
      if Decode(hs) == Decoded(bs) {
        assert bs[0] == d0 * 16 + d1 && bs[1..] == Decode(hs[2..]).bytes;
        assert bs[0] / 16 == d0 && bs[0] % 16 == d1;
        assert Encode(bs) == [Digit(d0), Digit(d1)] + Encode(bs[1..]);
      }
    }
  }

  function LowerByte(b: byte): byte { if 65 <= b < 71 then b + 32 else b }

  lemma LowerDigit(b: byte, n: int)
    requires 0 <= n < 16
    ensures LowerByte(b) == Digit(n) <==> DigitValue(b) == n
  {
  }

  /** Digits of either case are accepted with their value, and nothing else is. */
  lemma DigitsOfEitherCase(b: byte)
    ensures DigitValue(b) >= 0 ==> b == ALPHABET[DigitValue(b)] as int || b == UPPER_CASE[DigitValue(b)] as int
    ensures forall i :: 0 <= i < 16 ==> DigitValue(ALPHABET[i] as int) == i == DigitValue(UPPER_CASE[i] as int)
  {
  }
}
