/** The two-tap scheduler of test/voinuoc.c.  It keeps only how far each tap is still behind the
    other one (`v1`, `v2`); the reference keeps the total load of each tap. */
module Taps {

  datatype Tap = One | Two

  function Max(a: int, b: int): int { if a < b then b else a }

  /** Total volume that an assignment sends to a tap. */
  function Load(vols: seq<nat>, taps: seq<Tap>, tap: Tap): (l: nat)
    requires |vols| == |taps|
  {
    if vols == [] then 0
    else
      var n := |vols| - 1;
      Load(vols[..n], taps[..n], tap) + (if taps[n] == tap then vols[n] else 0)
  }

  function Sum(vols: seq<nat>): nat {
    if vols == [] then 0 else Sum(vols[..|vols| - 1]) + vols[|vols| - 1]
  }

  function Largest(vols: seq<nat>): nat {
    if vols == [] then 0 else Max(Largest(vols[..|vols| - 1]), vols[|vols| - 1])
  }

  /** When both taps run side by side, the time until the last bottle is full. */
  function FinishTime(vols: seq<nat>, taps: seq<Tap>): int
    requires |vols| == |taps|
  {
    Max(Load(vols, taps, One), Load(vols, taps, Two))
  }

  /** The reference scheduler: each volume goes to the tap with the smaller load, ties to tap one. */
  function Greedy(vols: seq<nat>): (taps: seq<Tap>)
    ensures |taps| == |vols|
  {
    if vols == [] then []
    else
      var n := |vols| - 1;
      var before := Greedy(vols[..n]);
      before + [if Load(vols[..n], before, One) <= Load(vols[..n], before, Two) then One else Two]
  }

  lemma LoadSnoc(vols: seq<nat>, taps: seq<Tap>, v: nat, t: Tap, tap: Tap)
    requires |vols| == |taps|
    ensures Load(vols + [v], taps + [t], tap) == Load(vols, taps, tap) + (if t == tap then v else 0)
  {
    assert (vols + [v])[..|vols|] == vols && (taps + [t])[..|taps|] == taps;
  }

  lemma GreedySnoc(vols: seq<nat>, v: nat)
    ensures var g := Greedy(vols);
            Greedy(vols + [v]) == g + [if Load(vols, g, One) <= Load(vols, g, Two) then One else Two]
  {
    assert (vols + [v])[..|vols|] == vols;
  }

  /** The residuals stand for the difference of the loads: one of them is zero, and they differ by
      exactly what the loads differ by. */
  ghost predicate Residual(vols: seq<nat>, taps: seq<Tap>, v1: int, v2: int)
    requires |vols| == |taps|
  {
    && v1 >= 0 && v2 >= 0 && (v1 == 0 || v2 == 0)
    && v1 - v2 == Load(vols, taps, One) - Load(vols, taps, Two)
  }

  /** One bottle, from the residuals alone: the tap chosen and the residuals after it. */
  function Poured(v1: int, v2: int, v: int): (Tap, int, int) {
    if v1 == 0 then
      if v > v2 then (One, v - v2, 0) else (One, v1, v2 - v)
    else
      if v > v1 then (Two, 0, v - v1) else (Two, v1 - v, v2)
  }

  /** The residual step does what the reference does to the loads. */
  lemma PouredIsGreedy(vols: seq<nat>, v1: int, v2: int, v: nat)
    requires Residual(vols, Greedy(vols), v1, v2)
    ensures var (tap, v1', v2') := Poured(v1, v2, v);
            Greedy(vols + [v]) == Greedy(vols) + [tap] && Residual(vols + [v], Greedy(vols + [v]), v1', v2')
  {
    var tap := Poured(v1, v2, v).0;
    GreedySnoc(vols, v);
    LoadSnoc(vols, Greedy(vols), v, tap, One);
    LoadSnoc(vols, Greedy(vols), v, tap, Two);
  }

  method Pour(v1: int, v2: int, v: int) returns (tap: Tap, v1': int, v2': int)
    ensures (tap, v1', v2') == Poured(v1, v2, v)
  {
    v1', v2' := v1, v2;
    if v1 == 0 {
      tap := One;
      if v > v2 {
        v1' := v - v2;
        v2' := 0;
      } else {
        v2' := v2 - v;
      }
    } else {
      tap := Two;
      if v > v1 {
        v2' := v - v1;
        v1' := 0;
      } else {
        v1' := v1 - v;
      }
    }
  }

  /** The volumes that come before the first zero, which ends the run. */
  function UpToZero(vols: seq<nat>): (r: seq<nat>)
    ensures |r| <= |vols| && r == vols[..|r|] && (|r| < |vols| ==> vols[|r|] == 0)
    ensures forall i | 0 <= i < |r| :: r[i] > 0
  {
    if vols == [] || vols[0] == 0 then [] else [vols[0]] + UpToZero(vols[1..])
  }

  lemma NothingPoured()
    ensures Greedy([]) == [] && Residual([], [], 0, 0)
  {
  }

  /** One turn of the scheduler's loop, after the volumes `done`. */
  method PourNext(taps: seq<Tap>, v1: int, v2: int, v: nat, ghost done: seq<nat>)
    returns (taps': seq<Tap>, v1': int, v2': int)
    requires taps == Greedy(done) && Residual(done, taps, v1, v2)
    ensures taps' == Greedy(done + [v]) && Residual(done + [v], taps', v1', v2')
  {
    hide Greedy, Residual, Poured;
    PouredIsGreedy(done, v1, v2, v);
    var tap;
    tap, v1', v2' := Pour(v1, v2, v);
    taps' := taps + [tap];
  }

  /** The scheduler's loop gives exactly the taps of the reference scheduler. */
  method Schedule(vols: seq<nat>) returns (taps: seq<Tap>, v1: int, v2: int)
    ensures taps == Greedy(UpToZero(vols))
    ensures Residual(UpToZero(vols), taps, v1, v2)
  {
    hide Greedy, Residual;
    v1, v2, taps := 0, 0, [];
    NothingPoured();
    ghost var all := UpToZero(vols);
    var i := 0;
    while i < |vols| && vols[i] != 0
      invariant 0 <= i <= |all|
      invariant taps == Greedy(all[..i]) && Residual(all[..i], taps, v1, v2)
    {
      NextVolume(vols, i);
      taps, v1, v2 := PourNext(taps, v1, v2, vols[i], all[..i]);
      i := i + 1;
    }
    assert all[..i] == all;
  }

  lemma NextVolume(vols: seq<nat>, i: nat)
    requires i <= |UpToZero(vols)| && i < |vols| && vols[i] != 0
    ensures i < |UpToZero(vols)| && UpToZero(vols)[..i + 1] == UpToZero(vols)[..i] + [vols[i]]
  {
    hide UpToZero;
    assert UpToZero(vols) == vols[..|UpToZero(vols)|];
  }

  // ---------------------------------------------------------------------------
  // How good the schedule is

  lemma {:induction false} LoadsAddUp(vols: seq<nat>, taps: seq<Tap>)
    requires |vols| == |taps|
    ensures Load(vols, taps, One) + Load(vols, taps, Two) == Sum(vols)
  {
    if vols != [] {
      var n := |vols| - 1;
      LoadsAddUp(vols[..n], taps[..n]);
    }
  }

  lemma {:induction false} LargestIsLoaded(vols: seq<nat>, taps: seq<Tap>)
    requires |vols| == |taps|
    ensures Largest(vols) <= FinishTime(vols, taps)
  {
    if vols != [] {
      var n := |vols| - 1;
      LargestIsLoaded(vols[..n], taps[..n]);
    }
  }

  /** The loads of the greedy schedule never differ by more than the largest volume. */
  lemma {:induction false} GreedyIsBalanced(vols: seq<nat>)
    ensures var g := Greedy(vols);
            0 - Largest(vols) <= Load(vols, g, One) - Load(vols, g, Two) <= Largest(vols)
  {
    if vols != [] {
      var n := |vols| - 1;
      GreedyIsBalanced(vols[..n]);
      assert Greedy(vols)[..n] == Greedy(vols[..n]);
    }
  }

  /** The greedy schedule finishes within one and a half times any other assignment's time. */
  lemma WithinThreeHalves(vols: seq<nat>, any: seq<Tap>)
    requires |any| == |vols|
    ensures 2 * FinishTime(vols, Greedy(vols)) <= 3 * FinishTime(vols, any)
  {
    LoadsAddUp(vols, Greedy(vols));
    LoadsAddUp(vols, any);
    GreedyIsBalanced(vols);
    LargestIsLoaded(vols, any);
  }

  /** The factor cannot be improved: volumes 1, 1, 2 reach it. */
  lemma ThreeHalvesIsReached()
    ensures 2 * FinishTime([1, 1, 2], Greedy([1, 1, 2])) == 3 * FinishTime([1, 1, 2], [One, One, Two])
  {
    hide Greedy, Load;
    GreedyOnExample();
    LoadsOfThree(1, 1, 2, One, Two, One, One);
    LoadsOfThree(1, 1, 2, One, Two, One, Two);
    LoadsOfThree(1, 1, 2, One, One, Two, One);
    LoadsOfThree(1, 1, 2, One, One, Two, Two);
  }

  lemma GreedyOnExample()
    ensures Greedy([1, 1, 2]) == [One, Two, One]
  {
    hide Greedy, Load;
    var a: seq<nat>, b: seq<nat> := [1], [1, 1];
    NothingPoured();
    LoadsOfThree(1, 1, 2, One, Two, One, One);
    LoadsOfThree(1, 1, 2, One, Two, One, Two);
    GreedySnoc([], 1);
    assert [] + [1] == a && Greedy([]) + [One] == [One];
    GreedySnoc(a, 1);
    assert a + [1] == b && [One] + [Two] == [One, Two];
    GreedySnoc(b, 2);
    assert b + [2] == [1, 1, 2] && [One, Two] + [One] == [One, Two, One];
  }

  lemma LoadsOfThree(u: nat, v: nat, w: nat, p: Tap, q: Tap, r: Tap, t: Tap)
    ensures Load([], [], t) == 0
    ensures Load([u], [p], t) == (if p == t then u else 0)
    ensures Load([u, v], [p, q], t) == Load([u], [p], t) + (if q == t then v else 0)
    ensures Load([u, v, w], [p, q, r], t) == Load([u, v], [p, q], t) + (if r == t then w else 0)
  {
    assert Load([], [], t) == 0;
    hide Load;
    LoadSnoc([], [], u, p, t);
    LoadSnoc([u], [p], v, q, t);
    LoadSnoc([u, v], [p, q], w, r, t);
    assert [] + [u] == [u] && [] + [p] == [p];
    assert [u] + [v] == [u, v] && [p] + [q] == [p, q];
    assert [u, v] + [w] == [u, v, w] && [p, q] + [r] == [p, q, r];
  }
}
