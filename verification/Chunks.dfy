/**
 The command loop over a byte stream that arrives in chunks. Every read is of one byte, except
 those of the hex loop: they return as many bytes as happen to be there, up to the length of a
 slice that does not stop where the hex data does.
 */
module Chunks {
  import opened Int64
  import opened ByteIO
  import opened Frames
  import opened Automaton
  import Hex

  // ---------- runs of reads ----------

  function Taken(ns: seq<nat>): nat { if ns == [] then 0 else ns[0] + Taken(ns[1..]) }

  lemma {:induction false} TakenAppend(ns: seq<nat>, ms: seq<nat>)
    ensures Taken(ns + ms) == Taken(ns) + Taken(ms)
  {
    if ns == [] {
      assert ns + ms == ms;
    } else {
      assert (ns + ms)[1..] == ns[1..] + ms;
      TakenAppend(ns[1..], ms);
    }
  }

  function Ones(n: nat): (ns: seq<nat>)
    ensures |ns| == n && Taken(ns) == n
  {
    if n == 0 then [] else [1] + Ones(n - 1)
  }

  /** One read of n of the `avail` bytes that are left. */
  predicate CanRead(k: Ctrl, avail: nat, n: nat) {
    1 <= n <= avail && if k.HexData? then n <= HexSlice(k.left) else n == 1
  }

  function Took(k: Ctrl, chunk: seq<byte>): Fed
    requires chunk != []
  {
    if k.HexData? then EatHex(k.left, chunk) else Eat(k, chunk[0])
  }

  /** The hex loop reads into an empty slice: it gets no byte and no error, and goes round for ever. */
  predicate Spins(k: Ctrl) { k.HexData? && HexSlice(k.left) == 0 }

  /** From k on, bs can be read in chunks of these sizes. */
  ghost predicate Reads(k: Ctrl, bs: seq<byte>, ns: seq<nat>)
    decreases |ns|
  {
    ns == [] || (CanRead(k, |bs|, ns[0]) && Reads(Took(k, bs[..ns[0]]).ctrl, bs[ns[0]..], ns[1..]))
  }

  /** Where such reads lead, and what is written because of them. */
  ghost function After(k: Ctrl, bs: seq<byte>, ns: seq<nat>): Fed
    requires Reads(k, bs, ns)
    decreases |ns|
  {
    if ns == [] then Fed(k, [])
    else
      var first := Took(k, bs[..ns[0]]);
      var rest := After(first.ctrl, bs[ns[0]..], ns[1..]);
      Fed(rest.ctrl, first.out + rest.out)
  }

  lemma {:induction false} ReadsTaken(k: Ctrl, bs: seq<byte>, ns: seq<nat>)
    requires Reads(k, bs, ns)
    ensures Taken(ns) <= |bs|
    decreases |ns|
  {
    if ns != [] {
      ReadsTaken(Took(k, bs[..ns[0]]).ctrl, bs[ns[0]..], ns[1..]);
    }
  }

  lemma {:induction false} ReadsAppend(k: Ctrl, bs: seq<byte>, ns: seq<nat>, ms: seq<nat>)
    requires Reads(k, bs, ns) && Taken(ns) <= |bs| && Reads(After(k, bs, ns).ctrl, bs[Taken(ns)..], ms)
    ensures Reads(k, bs, ns + ms)
    ensures var second := After(After(k, bs, ns).ctrl, bs[Taken(ns)..], ms);
      After(k, bs, ns + ms) == Fed(second.ctrl, After(k, bs, ns).out + second.out)
    decreases |ns|
  {
    hide Took;
    if ns == [] {
      assert ns + ms == ms && bs[0..] == bs;
      assert After(k, bs, ms).out == [] + After(k, bs, ms).out;
    } else {
      assert (ns + ms)[1..] == ns[1..] + ms;
      var k', rest := Took(k, bs[..ns[0]]).ctrl, bs[ns[0]..];
      ReadsTaken(k', rest, ns[1..]);
      assert rest[Taken(ns[1..])..] == bs[Taken(ns)..];
      ReadsAppend(k', rest, ns[1..], ms);
    }
  }

  /** The reads of one command: only the last of them may bring the loop back to a command byte. */
  ghost predicate Within(k: Ctrl, bs: seq<byte>, ns: seq<nat>)
    ensures Within(k, bs, ns) ==> Reads(k, bs, ns)
    decreases |ns|
  {
    ns == [] || (CanRead(k, |bs|, ns[0])
                 && var t := Took(k, bs[..ns[0]]).ctrl;
                    (|ns| > 1 ==> t != Head) && Within(t, bs[ns[0]..], ns[1..]))
  }

  lemma {:induction false} WithinAppend(k: Ctrl, bs: seq<byte>, ns: seq<nat>, ms: seq<nat>)
    requires Within(k, bs, ns) && Taken(ns) <= |bs| && Within(After(k, bs, ns).ctrl, bs[Taken(ns)..], ms)
    requires ns == [] || After(k, bs, ns).ctrl != Head
    ensures Within(k, bs, ns + ms)
    decreases |ns|
  {
    hide Took;
    if ns == [] {
      assert ns + ms == ms && bs[0..] == bs;
    } else {
      assert (ns + ms)[1..] == ns[1..] + ms;
      var k', rest := Took(k, bs[..ns[0]]).ctrl, bs[ns[0]..];
      ReadsTaken(k', rest, ns[1..]);
      assert rest[Taken(ns[1..])..] == bs[Taken(ns)..];
      WithinAppend(k', rest, ns[1..], ms);
    }
  }

  /** Reading one byte at a time is feeding the automaton. */
  lemma {:induction false} OnesWithin(k: Ctrl, bs: seq<byte>, n: nat)
    requires n <= |bs|
    requires forall m :: 0 <= m < n ==> !Spins(Feed(k, bs[..m]).ctrl) && (m > 0 ==> Feed(k, bs[..m]).ctrl != Head)
    ensures Within(k, bs, Ones(n)) && After(k, bs, Ones(n)) == Feed(k, bs[..n])
    decreases n
  {
    if n > 0 {
      hide Eat, Took;
      TookOne(k, bs[0]);
      assert bs[..1] == [bs[0]] && bs[..0] == [];
      assert !Spins(Feed(k, bs[..0]).ctrl);
      var k', rest := Eat(k, bs[0]).ctrl, bs[1..];
      assert bs[..n][1..] == rest[..n - 1];
      forall m | 0 <= m < n - 1
        ensures !Spins(Feed(k', rest[..m]).ctrl) && Feed(k', rest[..m]).ctrl != Head
      {
        assert bs[..m + 1][0] == bs[0] && bs[..m + 1][1..] == rest[..m];
        assert Feed(k, bs[..m + 1]).ctrl == Feed(k', rest[..m]).ctrl;
      }
      OnesWithin(k', rest, n - 1);
      assert n > 1 ==> rest[..0] == [] && Feed(k', rest[..0]).ctrl == k';
    }
  }

  lemma TookOne(k: Ctrl, b: byte)
    ensures Took(k, [b]) == Eat(k, b)
  {
  }

  lemma UnfinishedWithin(k: Ctrl, bs: seq<byte>, n: nat)
    requires n <= |bs| && Unfinished(k, bs[..n])
    ensures Within(k, bs, Ones(n)) && After(k, bs, Ones(n)) == Feed(k, bs[..n])
  {
    hide Feed, Within, After;
    forall m | 0 <= m < n ensures !Spins(Feed(k, bs[..m]).ctrl) && Feed(k, bs[..m]).ctrl != Head {
      assert bs[..n][..m] == bs[..m];
    }
    OnesWithin(k, bs, n);
  }

  // ---------- the hex loop ----------

  /** The sizes of the reads of the whole hex loop, from a count of `left` down to its end. */
  ghost predicate HexReads(left: int, avail: nat, ns: seq<nat>)
    decreases |ns|
  {
    if left <= 0 then ns == []
    else
      && ns != [] && CanRead(HexData(left), avail, ns[0])
      && HexReads(left - ns[0], avail - ns[0], ns[1..])
  }

  /** The loop can end exactly when the count is below the buffer size and there are enough bytes. */
  lemma HexLoopEndsIff(left: int, avail: nat)
    ensures (exists ns :: HexReads(left, avail, ns)) <==> left <= 0 || (left < MAX_HEX_ENCODE_SIZE && left <= avail)
  {
    hide HexReads;
    if left <= 0 {
      HexReadsNone(left, avail);
      assert exists ns :: HexReads(left, avail, ns);
    } else if left < MAX_HEX_ENCODE_SIZE && left <= avail {
      var ns := HexReadsOnes(left, avail, 0);
      assert exists ns :: HexReads(left, avail, ns);
    } else if ns :| HexReads(left, avail, ns) {
      HexReadsBounds(left, avail, ns);
      assert false;
    }
  }

  lemma HexReadsNone(left: int, avail: nat)
    requires left <= 0
    ensures HexReads(left, avail, Ones(0))
  {
  }

  lemma {:induction false} HexReadsBounds(left: int, avail: nat, ns: seq<nat>)
    requires HexReads(left, avail, ns)
    ensures left <= Taken(ns) <= avail
    ensures left < MAX_HEX_ENCODE_SIZE
    decreases |ns|
  {
    if left > 0 {
      HexReadsBounds(left - ns[0], avail - ns[0], ns[1..]);
    }
  }

  /** One byte at a time, and then `extra` bytes too many. */
  lemma {:induction false} HexReadsOnes(left: nat, avail: nat, extra: nat) returns (ns: seq<nat>)
    requires 1 <= left < MAX_HEX_ENCODE_SIZE && left + extra <= avail && extra <= MAX_HEX_ENCODE_SIZE - 2
    ensures HexReads(left, avail, ns) && Taken(ns) == left + extra
    decreases left
  {
    if left == 1 {
      ns := [1 + extra];
      assert ns[1..] == [];
    } else {
      var rest := HexReadsOnes(left - 1, avail - 1, extra);
      ns := [1] + rest;
      assert ns[1..] == rest;
    }
  }

  /**
   The loop can take bytes behind its data exactly when there are any. (A single read need not be
   able to: with much data left the slice is short. But reads before it shorten what is left.)
   */
  lemma HexLoopOverrunsIff(left: nat, avail: nat)
    requires 0 < left < MAX_HEX_ENCODE_SIZE
    ensures (exists ns :: HexReads(left, avail, ns) && Taken(ns) > left) <==> avail > left
  {
    hide HexReads;
    if avail > left {
      var ns := HexReadsOnes(left, avail, 1);
    } else if ns :| HexReads(left, avail, ns) && Taken(ns) > left {
      HexReadsBounds(left, avail, ns);
      assert false;
    }
  }

  /** How many bytes behind its data the loop can take: any number there is, up to 131070. */
  lemma HexLoopTakesIff(left: nat, avail: nat, extra: nat)
    requires 0 < left < 131072
    ensures (exists ns :: HexReads(left, avail, ns) && Taken(ns) == left + extra)
       <==> left + extra <= avail && extra <= 131070
  {
    hide HexReads;
    if left + extra <= avail && extra <= 131070 {
      var ns := HexReadsOnes(left, avail, extra);
      assert exists ns :: HexReads(left, avail, ns) && Taken(ns) == left + extra;
    } else if ns :| HexReads(left, avail, ns) && Taken(ns) == left + extra {
      HexReadsBounds(left, avail, ns);
      LastReadBounds(left, avail, ns);
      assert false;
    }
  }

  /** Only the last read can go too far, and with one byte left its slice is the longest. */
  lemma {:induction false} LastReadBounds(left: int, avail: nat, ns: seq<nat>)
    requires left > 0 && HexReads(left, avail, ns)
    ensures Taken(ns) <= left + 131070
    decreases |ns|
  {
    if left - ns[0] > 0 {
      LastReadBounds(left - ns[0], avail - ns[0], ns[1..]);
    } else {
      assert ns[1..] == [];
    }
  }
}
