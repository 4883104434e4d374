/** runParallelBench: workers that share a channel of clients and send their totals back. */
module ParallelBench {

  /** A worker of b.RunParallel: before `<-clients`, in its loop, and after sending its totals. */
  datatype Worker = Waiting | Running(client: nat, n: nat, bytes: nat) | Done

  datatype Totals = Totals(n: nat, bytes: nat)

  /** `pool` and `sent` are the two channels; `calls` records the bytes of every completed call. */
  datatype State = State(
    pool: seq<nat>, workers: seq<Worker>, sent: seq<Totals>,
    collected: nat, n: nat, bytes: nat, calls: seq<nat>)

  /** k clients in their channel and k workers. */
  function Init(k: nat): State {
    State(seq(k, i requires 0 <= i => i), seq(k, i => Waiting), [], 0, 0, 0, [])
  }

  datatype Step = Take(w: nat) | Call(w: nat, bytes: nat) | Finish(w: nat) | Collect

  /** The collecting loop starts once RunParallel has returned. */
  predicate Enabled(k: nat, s: State, step: Step) {
    match step
    case Take(w) => w < |s.workers| && s.workers[w].Waiting? && s.pool != []
    case Call(w, _) => w < |s.workers| && s.workers[w].Running?
    case Finish(w) => w < |s.workers| && s.workers[w].Running? && |s.sent| < k
    case Collect => (forall w :: 0 <= w < |s.workers| ==> s.workers[w].Done?) && s.collected < k && s.sent != []
  }

  function Do(k: nat, s: State, step: Step): State
    requires Enabled(k, s, step)
  {
    match step
    case Take(w) => s.(workers := s.workers[w := Running(s.pool[0], 0, 0)], pool := s.pool[1..])
    case Call(w, b) =>
      var r := s.workers[w];
      s.(workers := s.workers[w := r.(n := r.n + 1, bytes := r.bytes + b)], calls := s.calls + [b])
    case Finish(w) =>
      s.(workers := s.workers[w := Done], sent := s.sent + [Totals(s.workers[w].n, s.workers[w].bytes)])
    case Collect =>
      s.(sent := s.sent[1..], collected := s.collected + 1, n := s.n + s.sent[0].n, bytes := s.bytes + s.sent[0].bytes)
  }

  // ---------- sums ----------

  function Sum(bs: seq<nat>): nat { if bs == [] then 0 else Sum(bs[..|bs| - 1]) + bs[|bs| - 1] }

  /** What the calls of a run returned, in the order in which they completed. */
  function CallBytes(steps: seq<Step>): seq<nat> {
    if steps == [] then []
    else
      var before, last := CallBytes(steps[..|steps| - 1]), steps[|steps| - 1];
      if last.Call? then before + [last.bytes] else before
  }

  function SentN(ts: seq<Totals>): nat { if ts == [] then 0 else ts[0].n + SentN(ts[1..]) }

  function SentBytes(ts: seq<Totals>): nat { if ts == [] then 0 else ts[0].bytes + SentBytes(ts[1..]) }

  function RunN(ws: seq<Worker>): nat {
    if ws == [] then 0 else (if ws[0].Running? then ws[0].n else 0) + RunN(ws[1..])
  }

  function RunBytes(ws: seq<Worker>): nat {
    if ws == [] then 0 else (if ws[0].Running? then ws[0].bytes else 0) + RunBytes(ws[1..])
  }

  function Count(ws: seq<Worker>, p: Worker -> bool): nat {
    if ws == [] then 0 else (if p(ws[0]) then 1 else 0) + Count(ws[1..], p)
  }

  lemma {:induction false} RunUpdate(ws: seq<Worker>, w: nat, x: Worker, p: Worker -> bool)
    requires w < |ws|
    ensures RunN(ws[w := x]) == RunN(ws) - RunN([ws[w]]) + RunN([x])
    ensures RunBytes(ws[w := x]) == RunBytes(ws) - RunBytes([ws[w]]) + RunBytes([x])
    ensures Count(ws[w := x], p) == Count(ws, p) - Count([ws[w]], p) + Count([x], p)
  {
    if w == 0 {
      assert ws[0 := x][1..] == ws[1..];
    } else {
      RunUpdate(ws[1..], w - 1, x, p);
      assert ws[w := x][1..] == ws[1..][w - 1 := x];
    }
  }

  lemma {:induction false} SentAppend(ts: seq<Totals>, t: Totals)
    ensures SentN(ts + [t]) == SentN(ts) + t.n && SentBytes(ts + [t]) == SentBytes(ts) + t.bytes
  {
    if ts == [] {
      assert ts + [t] == [t];
    } else {
      SentAppend(ts[1..], t);
      assert (ts + [t])[1..] == ts[1..] + [t];
    }
  }

  // ---------- the invariant ----------

  const isWaiting: Worker -> bool := (w: Worker) => w.Waiting?
  const isDone: Worker -> bool := (w: Worker) => w.Done?

  /** No client is in two places: not twice in the channel, not with two workers, not in both. */
  ghost predicate Exclusive(s: State) {
    && (forall i, j :: 0 <= i < j < |s.pool| ==> s.pool[i] != s.pool[j])
    && (forall v, w :: 0 <= v < w < |s.workers| && s.workers[v].Running? && s.workers[w].Running? ==>
          s.workers[v].client != s.workers[w].client)
    && (forall i, w :: 0 <= i < |s.pool| && 0 <= w < |s.workers| && s.workers[w].Running? ==>
          s.pool[i] != s.workers[w].client)
  }

  /** Every completed call is accounted for exactly once: collected, sent or still with its worker. */
  ghost predicate Conserved(s: State) {
    && s.n + SentN(s.sent) + RunN(s.workers) == |s.calls|
    && s.bytes + SentBytes(s.sent) + RunBytes(s.workers) == Sum(s.calls)
  }

  ghost predicate AllFinished(s: State) { forall w :: 0 <= w < |s.workers| ==> s.workers[w].Done? }

  ghost predicate Inv(k: nat, s: State) {
    && |s.workers| == k
    && |s.pool| == Count(s.workers, isWaiting)
    && |s.sent| + s.collected == Count(s.workers, isDone)
    && (s.collected > 0 ==> AllFinished(s))
    && Exclusive(s) && Conserved(s)
  }

  lemma {:induction false} AllWaiting(ws: seq<Worker>)
    requires forall i :: 0 <= i < |ws| ==> ws[i].Waiting?
    ensures Count(ws, isWaiting) == |ws| && Count(ws, isDone) == 0 && RunN(ws) == 0 && RunBytes(ws) == 0
  {
    if ws != [] {
      AllWaiting(ws[1..]);
    }
  }

  lemma {:induction false} AllDone(ws: seq<Worker>)
    requires forall i :: 0 <= i < |ws| ==> ws[i].Done?
    ensures Count(ws, isWaiting) == 0 && Count(ws, isDone) == |ws| && RunN(ws) == 0 && RunBytes(ws) == 0
  {
    if ws != [] {
      AllDone(ws[1..]);
    }
  }

  lemma InitInv(k: nat)
    ensures Inv(k, Init(k))
  {
    AllWaiting(Init(k).workers);
  }

  lemma StepInv(k: nat, s: State, step: Step)
    requires Inv(k, s) && Enabled(k, s, step)
    ensures Inv(k, Do(k, s, step))
  {
    var s' := Do(k, s, step);
    match step
    case Take(w) => UpdateWorker(s, w, s'.workers[w]);
    case Call(w, b) =>
      UpdateWorker(s, w, s'.workers[w]);
      assert s'.calls[..|s.calls|] == s.calls;
    case Finish(w) =>
      UpdateWorker(s, w, Done);
      SentAppend(s.sent, Totals(s.workers[w].n, s.workers[w].bytes));
    case Collect =>
  }

  lemma UpdateWorker(s: State, w: nat, x: Worker)
    requires w < |s.workers|
    ensures var was, ws, ws' := s.workers[w], s.workers, s.workers[w := x];
      && RunN(ws') == RunN(ws) - (if was.Running? then was.n else 0) + (if x.Running? then x.n else 0)
      && RunBytes(ws') == RunBytes(ws) - (if was.Running? then was.bytes else 0) + (if x.Running? then x.bytes else 0)
      && Count(ws', isWaiting) == Count(ws, isWaiting) - (if was.Waiting? then 1 else 0) + (if x.Waiting? then 1 else 0)
      && Count(ws', isDone) == Count(ws, isDone) - (if was.Done? then 1 else 0) + (if x.Done? then 1 else 0)
  {
    RunUpdate(s.workers, w, x, isWaiting);
    RunUpdate(s.workers, w, x, isDone);
  }

  ghost predicate IsRun(k: nat, states: seq<State>, steps: seq<Step>) {
    && |states| == |steps| + 1
    && states[0] == Init(k)
    && forall i :: 0 <= i < |steps| ==> Enabled(k, states[i], steps[i]) && states[i + 1] == Do(k, states[i], steps[i])
  }

  lemma {:induction false} RunInv(k: nat, states: seq<State>, steps: seq<Step>, i: nat)
    requires IsRun(k, states, steps) && i <= |steps|
    ensures Inv(k, states[i])
  {
    if i == 0 {
      InitInv(k);
    } else {
      RunInv(k, states, steps, i - 1);
      hide Inv, Do, Enabled;
      StepInv(k, states[i - 1], steps[i - 1]);
    }
  }

  /** In every interleaving no two workers ever hold the same client. */
  lemma NoClientShared(k: nat, states: seq<State>, steps: seq<Step>, i: nat, v: nat, w: nat)
    requires IsRun(k, states, steps) && i <= |steps| && v < w < k
    ensures |states[i].workers| == k
    ensures states[i].workers[v].Running? && states[i].workers[w].Running? ==>
              states[i].workers[v].client != states[i].workers[w].client
  {
    RunInv(k, states, steps, i);
  }

  /** Neither channel ever blocks: a waiting worker finds a client and a finishing one finds room. */
  lemma NeverBlocks(k: nat, states: seq<State>, steps: seq<Step>, i: nat, w: nat)
    requires IsRun(k, states, steps) && i <= |steps| && w < k
    ensures |states[i].workers| == k
    ensures states[i].workers[w].Waiting? ==> Enabled(k, states[i], Take(w))
    ensures states[i].workers[w].Running? ==> Enabled(k, states[i], Finish(w))
  {
    RunInv(k, states, steps, i);
    var ws := states[i].workers;
    CountOthers(ws, w);
  }

  lemma {:induction false} CountOthers(ws: seq<Worker>, w: nat)
    requires w < |ws|
    ensures ws[w].Waiting? ==> Count(ws, isWaiting) >= 1
    ensures !ws[w].Done? ==> Count(ws, isDone) < |ws|
    ensures Count(ws, isDone) <= |ws|
  {
    if w > 0 {
      CountOthers(ws[1..], w - 1);
    } else {
      CountWithin(ws[1..]);
    }
  }

  lemma {:induction false} CountWithin(ws: seq<Worker>)
    ensures Count(ws, isDone) <= |ws|
  {
    if ws != [] {
      CountWithin(ws[1..]);
    }
  }

  /**
   Collection receives exactly k totals: it begins when every worker has sent its own, never gets
   more, and as long as it has fewer, a worker still has to finish or the next totals are there to be
   received. So it cannot wait in vain.
   */
  lemma CollectsAll(k: nat, states: seq<State>, steps: seq<Step>, i: nat)
    requires IsRun(k, states, steps) && i <= |steps|
    ensures var s := states[i];
      && |s.workers| == k && s.collected <= k && |s.sent| <= k
      && (s.collected > 0 ==> forall w :: 0 <= w < k ==> s.workers[w].Done?)
      && ((forall w :: 0 <= w < k ==> s.workers[w].Done?) && s.collected < k ==> Enabled(k, s, Collect))
      && (s.collected < k ==> exists step :: Enabled(k, s, step) && !step.Call?)
  {
    RunInv(k, states, steps, i);
    var s := states[i];
    CountWithin(s.workers);
    if forall w :: 0 <= w < k ==> s.workers[w].Done? {
      AllDone(s.workers);
      assert s.collected < k ==> Enabled(k, s, Collect);
    } else {
      var w :| 0 <= w < k && !s.workers[w].Done?;
      NeverBlocks(k, states, steps, i, w);
      assert Enabled(k, s, if s.workers[w].Waiting? then Take(w) else Finish(w));
    }
  }

  /** The record of completed calls is the run's own. */
  lemma {:induction false} CallsOfRun(k: nat, states: seq<State>, steps: seq<Step>, i: nat)
    requires IsRun(k, states, steps) && i <= |steps|
    ensures states[i].calls == CallBytes(steps[..i])
  {
    if i > 0 {
      CallsOfRun(k, states, steps, i - 1);
      assert steps[..i][..i - 1] == steps[..i - 1] && steps[..i][i - 1] == steps[i - 1];
    }
  }

  lemma SumOfOne(bs: seq<nat>, b: nat)
    ensures Sum([]) == 0 && Sum(bs + [b]) == Sum(bs) + b
  {
    assert (bs + [b])[..|bs|] == bs;
  }

  /** After the last totals are collected, N and the bytes are those of all the calls of the run. */
  lemma FinalTotals(k: nat, states: seq<State>, steps: seq<Step>, i: nat)
    requires IsRun(k, states, steps) && i <= |steps| && states[i].collected == k
    ensures states[i].n == |CallBytes(steps[..i])| && states[i].bytes == Sum(CallBytes(steps[..i]))
    ensures states[i].sent == []
  {
    RunInv(k, states, steps, i);
    CallsOfRun(k, states, steps, i);
    var s := states[i];
    EveryoneDone(s.workers, k);
    AllDone(s.workers);
  }

  lemma {:induction false} EveryoneDone(ws: seq<Worker>, k: nat)
    requires Count(ws, isDone) >= k == |ws|
    ensures Count(ws, isDone) == k && forall i :: 0 <= i < |ws| ==> ws[i].Done?
  {
    CountWithin(ws);
    if k > 0 {
      CountWithin(ws[1..]);
      EveryoneDone(ws[1..], k - 1);
      forall i | 0 <= i < |ws| ensures ws[i].Done? {
        if i > 0 {
          assert ws[i] == ws[1..][i - 1];
        }
      }
    }
  }

  /**
   Where only further calls could happen, everyone is done, all k totals are collected, and N and
   the bytes are those of all the calls of the run.
   */
  lemma CollectionEnds(k: nat, states: seq<State>, steps: seq<Step>, i: nat)
    requires IsRun(k, states, steps) && i <= |steps|
    requires forall step :: Enabled(k, states[i], step) ==> step.Call?
    ensures states[i].collected == k && states[i].sent == []
    ensures states[i].n == |CallBytes(steps[..i])| && states[i].bytes == Sum(CallBytes(steps[..i]))
  {
    CollectsAll(k, states, steps, i);
    FinalTotals(k, states, steps, i);
  }
}
