/**
 * The learning-rate schedule of the training run: Adam starts at 0.001 and a
 * reduce-on-plateau callback (factor 0.5, patience 3, floor 1e-5, no cooldown)
 * watches the validation loss after each of the 50 epochs. Training has no
 * early stop. Learning rates are exact reals here.
 */
module Plateau {
  import opened Wrappers

  const InitialLr: real := 0.001
  const Factor: real := 0.5
  const Patience: nat := 3
  const MinLr: real := 0.00001
  const Epochs: nat := 50

  /** Learning rate, best validation loss so far (none = +infinity) and epochs waited since. */
  datatype Schedule = Schedule(lr: real, best: Option<real>, wait: nat)

  const Start: Schedule := Schedule(InitialLr, None, 0)

  /** The callback's improvement test in `min` mode: below the best by more than `minDelta`. */
  predicate Improves(current: real, best: Option<real>, minDelta: real) {
    best.None? || current < best.value - minDelta
  }

  function Max(a: real, b: real): real {
    if a >= b then a else b
  }

  /** The callback's end-of-epoch update. */
  function Step(s: Schedule, current: real, minDelta: real): Schedule {
    if Improves(current, s.best, minDelta) then Schedule(s.lr, Some(current), 0)
    else if s.wait + 1 >= Patience && s.lr > MinLr then Schedule(Max(s.lr * Factor, MinLr), s.best, 0)
    else Schedule(s.lr, s.best, s.wait + 1)
  }

  /** The schedule after the epochs whose validation losses are `losses`. */
  function Run(s: Schedule, losses: seq<real>, minDelta: real): Schedule {
    if losses == [] then s
    else Step(Run(s, losses[..|losses| - 1], minDelta), losses[|losses| - 1], minDelta)
  }

  /** The rate lies between the floor and the start, and above the floor the wait stays below the patience. */
  predicate Valid(s: Schedule) {
    MinLr <= s.lr <= InitialLr && (s.lr > MinLr ==> s.wait < Patience)
  }

  /**
   * One epoch end: an improvement records the loss and clears the wait; the
   * rate changes exactly when the third non-improving epoch in a row ends above
   * the floor, and then to max(lr * 0.5, 1e-5), strictly lower, clearing the wait.
   */
  lemma StepEffect(s: Schedule, current: real, minDelta: real)
    requires Valid(s)
    ensures var t := Step(s, current, minDelta);
      && Valid(t)
      && (Improves(current, s.best, minDelta) ==> t == Schedule(s.lr, Some(current), 0))
      && (t.lr != s.lr <==> !Improves(current, s.best, minDelta) && s.wait + 1 == Patience && s.lr > MinLr)
      && (t.lr != s.lr ==> t.lr == Max(s.lr * Factor, MinLr) && t.lr < s.lr && t.wait == 0)
      && (t.lr == s.lr && !Improves(current, s.best, minDelta) ==> t.wait == s.wait + 1)
      && (!Improves(current, s.best, minDelta) ==> t.best == s.best)
  {
  }

  /**
   * With a non-negative threshold, the recorded best is one of the losses seen
   * (none before the first epoch), and no loss seen lies below it by more than
   * the threshold; with threshold 0 it is the minimum loss so far.
   */
  lemma {:induction false} BestSoFar(losses: seq<real>, minDelta: real)
    requires minDelta >= 0.0
    ensures var b := Run(Start, losses, minDelta).best;
      && (b.None? <==> losses == [])
      && (b.Some? ==> b.value in losses && forall k :: 0 <= k < |losses| ==> losses[k] >= b.value - minDelta)
  {
    if losses != [] {
      var prev := losses[..|losses| - 1];
      BestSoFar(prev, minDelta);
      assert losses == prev + [losses[|losses| - 1]];
    }
  }

  /** However the losses go, the rate stays within [1e-5, 0.001] and never rises. */
  lemma {:induction false} RunValid(losses: seq<real>, minDelta: real)
    ensures Valid(Run(Start, losses, minDelta))
    ensures losses != [] ==>
      Run(Start, losses, minDelta).lr <= Run(Start, losses[..|losses| - 1], minDelta).lr
  {
    if losses != [] {
      var prev := losses[..|losses| - 1];
      RunValid(prev, minDelta);
      StepEffect(Run(Start, prev, minDelta), losses[|losses| - 1], minDelta);
    }
  }

  /** The wait counts the most recent epochs, all of them non-improving. */
  lemma {:induction false} WaitCountsStagnation(losses: seq<real>, minDelta: real)
    ensures Run(Start, losses, minDelta).wait <= |losses|
    ensures forall k :: |losses| - Run(Start, losses, minDelta).wait <= k < |losses| ==>
      !Improves(losses[k], Run(Start, losses[..k], minDelta).best, minDelta)
  {
    if losses != [] {
      var n := |losses|;
      var prev := losses[..n - 1];
      WaitCountsStagnation(prev, minDelta);
      var s := Run(Start, prev, minDelta);
      var t := Run(Start, losses, minDelta);
      assert t == Step(s, losses[n - 1], minDelta);
      forall k | n - t.wait <= k < n
        ensures !Improves(losses[k], Run(Start, losses[..k], minDelta).best, minDelta)
      {
        if k < n - 1 {
          assert losses[..k] == prev[..k];
          assert losses[k] == prev[k];
        } else {
          assert losses[..k] == prev;
        }
      }
    }
  }

  /** A reduction at an epoch end comes after that epoch and the two before it failed to improve. */
  lemma ReductionAfterPatience(losses: seq<real>, minDelta: real)
    requires losses != []
    requires Run(Start, losses, minDelta).lr != Run(Start, losses[..|losses| - 1], minDelta).lr
    ensures |losses| >= Patience
    ensures forall k :: |losses| - Patience <= k < |losses| ==>
      !Improves(losses[k], Run(Start, losses[..k], minDelta).best, minDelta)
  {
    var n := |losses|;
    var prev := losses[..n - 1];
    var s := Run(Start, prev, minDelta);
    RunValid(prev, minDelta);
    StepEffect(s, losses[n - 1], minDelta);
    assert s.wait + 1 == Patience && !Improves(losses[n - 1], s.best, minDelta);
    WaitCountsStagnation(prev, minDelta);
    assert losses[..n - 1] == prev;
    forall k | n - Patience <= k < n
      ensures !Improves(losses[k], Run(Start, losses[..k], minDelta).best, minDelta)
    {
      if k < n - 1 {
        assert losses[..k] == prev[..k];
        assert losses[k] == prev[k];
      } else {
        assert losses[..k] == prev;
      }
    }
  }

  /**
   * With a non-negative threshold, a loss that stays flat after the first epoch
   * keeps the rate at 0.001 through the third flat epoch and halves it to 0.0005
   * at the end of the fourth epoch overall.
   */
  lemma FlatLossExample(minDelta: real)
    requires minDelta >= 0.0
    ensures Run(Start, [1.0, 1.0, 1.0], minDelta).lr == 0.001
    ensures Run(Start, [1.0, 1.0, 1.0, 1.0], minDelta) == Schedule(0.0005, Some(1.0), 0)
  {
    var l := [1.0, 1.0, 1.0, 1.0];
    assert l[..3] == [1.0, 1.0, 1.0];
    assert l[..3][..2] == [1.0, 1.0];
    assert l[..3][..2][..1] == [1.0];
    assert l[..3][..2][..1][..0] == [];
    assert Run(Start, [1.0], minDelta) == Schedule(0.001, Some(1.0), 0);
    assert Run(Start, [1.0, 1.0], minDelta) == Schedule(0.001, Some(1.0), 1);
    assert Run(Start, [1.0, 1.0, 1.0], minDelta) == Schedule(0.001, Some(1.0), 2);
  }

  /** The reduce-on-plateau callback, with its state in fields updated at each epoch end. */
  class ReduceLrOnPlateau {
    var lr: real
    var best: Option<real>
    var wait: nat
    const minDelta: real

    function State(): Schedule
      reads this
    {
      Schedule(lr, best, wait)
    }

    constructor (minDelta: real)
      ensures State() == Start && this.minDelta == minDelta
    {
      lr, best, wait := InitialLr, None, 0;
      this.minDelta := minDelta;
    }

    method OnEpochEnd(current: real)
      modifies this
      ensures State() == Step(old(State()), current, minDelta)
    {
      if Improves(current, best, minDelta) {
        best := Some(current);
        wait := 0;
      } else {
        wait := wait + 1;
        if wait >= Patience && lr > MinLr {
          lr := Max(lr * Factor, MinLr);
          wait := 0;
        }
      }
    }
  }

  /**
   * The 50 epochs of `model.fit`, given the validation loss each epoch ends
   * with: returns the rate each epoch trained with, and the final callback state.
   */
  method Fit(valLosses: seq<real>, minDelta: real) returns (rates: seq<real>, final: Schedule)
    requires |valLosses| == Epochs
    ensures |rates| == Epochs
    ensures rates[0] == InitialLr
    ensures forall e :: 0 <= e < Epochs ==> rates[e] == Run(Start, valLosses[..e], minDelta).lr
    ensures forall e :: 0 <= e < Epochs ==> MinLr <= rates[e] <= InitialLr
    ensures forall e :: 0 < e < Epochs ==> rates[e] <= rates[e - 1]
    ensures final == Run(Start, valLosses, minDelta)
  {
    var callback := new ReduceLrOnPlateau(minDelta);
    rates := [];
    for e := 0 to Epochs
      invariant |rates| == e
      invariant callback.minDelta == minDelta
      invariant callback.State() == Run(Start, valLosses[..e], minDelta)
      invariant forall i :: 0 <= i < e ==> rates[i] == Run(Start, valLosses[..i], minDelta).lr
    {
      rates := rates + [callback.lr];
      callback.OnEpochEnd(valLosses[e]);
      assert valLosses[..e + 1][..e] == valLosses[..e];
    }
    assert valLosses[..Epochs] == valLosses;
    final := callback.State();
    forall e | 0 <= e < Epochs
      ensures MinLr <= rates[e] <= InitialLr
      ensures 0 < e ==> rates[e] <= rates[e - 1]
    {
      RunValid(valLosses[..e], minDelta);
      if 0 < e { assert valLosses[..e][..e - 1] == valLosses[..e - 1]; }
    }
  }
}
