/** Frames laid end to end in one byte stream. */
module Streams {
  import opened Int64

  /** The first k frames, concatenated. */
  function Stream(fs: seq<seq<byte>>, k: nat): (bs: seq<byte>)
    requires k <= |fs|
  {
    if k == 0 then [] else Stream(fs, k - 1) + fs[k - 1]
  }

  function All(fs: seq<seq<byte>>): seq<byte> { Stream(fs, |fs|) }

  /** Where frame k begins. */
  function At(fs: seq<seq<byte>>, k: nat): nat
    requires k <= |fs|
  {
    |Stream(fs, k)|
  }

  lemma {:induction false} StreamPrefix(fs: seq<seq<byte>>, i: nat, j: nat)
    requires i <= j <= |fs|
    ensures Stream(fs, i) <= Stream(fs, j)
    ensures At(fs, i) <= At(fs, j)
  {
    if i < j {
      StreamPrefix(fs, i, j - 1);
    }
  }

  /** Frame k occupies its own slice of the whole stream. */
  lemma FrameSlice(fs: seq<seq<byte>>, k: nat)
    requires k < |fs|
    ensures At(fs, k + 1) == At(fs, k) + |fs[k]| <= |All(fs)|
    ensures All(fs)[At(fs, k)..At(fs, k + 1)] == fs[k]
  {
    StreamPrefix(fs, k + 1, |fs|);
    assert Stream(fs, k + 1) == Stream(fs, k) + fs[k];
    assert All(fs)[..At(fs, k + 1)] == Stream(fs, k + 1);
  }

  /** A part of frame k, seen as a part of the whole stream. */
  lemma PartOfFrame(fs: seq<seq<byte>>, k: nat, i: nat, j: nat)
    requires k < |fs| && i <= j <= |fs[k]|
    ensures At(fs, k) + j <= At(fs, k + 1) <= |All(fs)|
    ensures All(fs)[At(fs, k) + i..At(fs, k) + j] == fs[k][i..j]
  {
    FrameSlice(fs, k);
    assert All(fs)[At(fs, k)..At(fs, k + 1)][i..j] == All(fs)[At(fs, k) + i..At(fs, k) + j];
  }

  /** When no byte lies between two frames, every frame between them is empty. */
  lemma {:induction false} NothingBetween(fs: seq<seq<byte>>, i: nat, j: nat, k: nat)
    requires i <= k < j <= |fs| && At(fs, i) == At(fs, j)
    ensures fs[k] == []
  {
    StreamPrefix(fs, i, k);
    StreamPrefix(fs, k + 1, j);
    FrameSlice(fs, k);
  }
}
