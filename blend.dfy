/** The per-tick weighted blend of InternalUpdateCameraState, as a fold over the
    child cache, and what it computes: the total and highest qualifying weight,
    the dominant child, the live-child percentage and the blended state. */
module Blend {
  import opened Cameras
  import opened WeightTable

  /** What the blend reads from the engine: which cameras are active and enabled,
      each camera's own State, and CameraState.Lerp. */
  datatype Engine<!S> = Engine(enabled: set<nat>, stateOf: Cam -> S, lerp: (S, S, real) -> S)

  /** The loop variables of the blend: totalWeight, highestWeight, liveChild and
      the running m_CameraState. */
  datatype Tally<S> = Tally(total: real, highest: real, live: Cam, state: S)

  /** The weight the blend gives cache index i: Mathf.Max(0, GetWeight(i)). It is
      read from the TABLE at the same index i, whichever camera the cache holds there. */
  function BlendWeight(t: seq<Pair>, i: nat): real
  {
    Max0(WeightAt(t, i))
  }

  /** Cache index i takes part in the blend: its camera is active and its weight
      exceeds Epsilon. */
  predicate Qualifies<S>(e: Engine<S>, children: seq<Cam>, t: seq<Pair>, i: nat)
    requires i < |children|
  {
    Active(e.enabled, children[i]) && BlendWeight(t, i) > Epsilon
  }

  /** One pass of the loop body, for child `vcam` whose table weight is `raw` */
  function Step<S>(e: Engine<S>, acc: Tally<S>, vcam: Cam, raw: real): Tally<S>
    requires acc.total >= 0.0
  {
    if !Active(e.enabled, vcam) then acc
    else
      var w := Max0(raw);
      if w <= Epsilon then acc
      else
        var total := acc.total + w;
        var state := if total == w then e.stateOf(vcam)
                     else e.lerp(acc.state, e.stateOf(vcam), w / total);
        if w > acc.highest then Tally(total, w, vcam, state)
        else Tally(total, acc.highest, acc.live, state)
  }

  /** The loop variables after the first n children, starting from nothing
      counted and the previous tick's state `s0` */
  function Fold<S>(e: Engine<S>, children: seq<Cam>, t: seq<Pair>, n: nat, s0: S): (r: Tally<S>)
    requires n <= |children|
    ensures r.total >= 0.0
  {
    if n == 0 then Tally(0.0, 0.0, NoCamera, s0)
    else Step(e, Fold(e, children, t, n - 1, s0), children[n - 1], WeightAt(t, n - 1))
  }

  /** What index i adds to the total: its weight when it qualifies, else nothing */
  function Contribution<S>(e: Engine<S>, children: seq<Cam>, t: seq<Pair>, i: nat): real
    requires i < |children|
  {
    if Qualifies(e, children, t, i) then BlendWeight(t, i) else 0.0
  }

  /** The sum of the qualifying weights among the first n children */
  function TotalWeight<S>(e: Engine<S>, children: seq<Cam>, t: seq<Pair>, n: nat): real
    requires n <= |children|
  {
    if n == 0 then 0.0
    else TotalWeight(e, children, t, n - 1) + Contribution(e, children, t, n - 1)
  }

  /** m_LiveChildPercent from the final totals */
  function LivePercent(total: real, highest: real): real
  {
    if total > 0.001 then highest * 100.0 / total else 0.0
  }

  ghost predicate NoneQualifies<S>(e: Engine<S>, children: seq<Cam>, t: seq<Pair>, n: nat)
    requires n <= |children|
  {
    forall i :: 0 <= i < n ==> !Qualifies(e, children, t, i)
  }

  /** totalWeight is the sum of the qualifying weights and highestWeight bounds each
      of them; highestWeight is 0, and liveChild is null, exactly when nothing
      qualifies, in which case the state is the previous tick's. */
  lemma {:induction false} FoldTotals<S>(e: Engine<S>, children: seq<Cam>, t: seq<Pair>, n: nat, s0: S)
    requires n <= |children|
    ensures var r := Fold(e, children, t, n, s0);
      && r.total == TotalWeight(e, children, t, n)
      && 0.0 <= r.highest <= r.total
      && (forall i :: 0 <= i < n && Qualifies(e, children, t, i) ==> BlendWeight(t, i) <= r.highest)
      && (r.highest == 0.0 <==> NoneQualifies(e, children, t, n))
      && (r.live == NoCamera <==> NoneQualifies(e, children, t, n))
      && (NoneQualifies(e, children, t, n) ==> r.total == 0.0 && r.state == s0)
  {
    if n > 0 {
      FoldTotals(e, children, t, n - 1, s0);
    }
  }

  /** When something qualifies, liveChild is the child at the FIRST cache index
      whose weight is the maximum: the strict `>` keeps earlier children on ties. */
  lemma {:induction false} FoldDominant<S>(e: Engine<S>, children: seq<Cam>, t: seq<Pair>, n: nat, s0: S)
    requires n <= |children|
    requires !NoneQualifies(e, children, t, n)
    ensures var r := Fold(e, children, t, n, s0);
      exists k :: 0 <= k < n && Qualifies(e, children, t, k)
        && BlendWeight(t, k) == r.highest && r.live == children[k]
        && forall j :: 0 <= j < k && Qualifies(e, children, t, j) ==> BlendWeight(t, j) < r.highest
  {
    var prev := Fold(e, children, t, n - 1, s0);
    var r := Fold(e, children, t, n, s0);
    FoldTotals(e, children, t, n - 1, s0);
    StepDominant(e, prev, children[n - 1], WeightAt(t, n - 1), r);
    if Qualifies(e, children, t, n - 1) && BlendWeight(t, n - 1) > prev.highest {
      assert forall j :: 0 <= j < n - 1 && Qualifies(e, children, t, j) ==> BlendWeight(t, j) < r.highest;
    } else {
      assert !NoneQualifies(e, children, t, n - 1);
      FoldDominant(e, children, t, n - 1, s0);
      var k :| 0 <= k < n - 1 && Qualifies(e, children, t, k)
        && BlendWeight(t, k) == prev.highest && prev.live == children[k]
        && forall j :: 0 <= j < k && Qualifies(e, children, t, j) ==> BlendWeight(t, j) < prev.highest;
      assert Qualifies(e, children, t, k);
    }
  }

  /** One step moves highestWeight and liveChild exactly when the child qualifies
      with a weight above the highest so far. */
  lemma StepDominant<S>(e: Engine<S>, acc: Tally<S>, vcam: Cam, raw: real, r: Tally<S>)
    requires acc.total >= 0.0 && r == Step(e, acc, vcam, raw)
    ensures Active(e.enabled, vcam) && Max0(raw) > Epsilon && Max0(raw) > acc.highest
      ==> r.highest == Max0(raw) && r.live == vcam
    ensures !(Active(e.enabled, vcam) && Max0(raw) > Epsilon && Max0(raw) > acc.highest)
      ==> r.highest == acc.highest && r.live == acc.live
  {
  }

  /** The previous tick's state only matters when nothing qualifies: the totals
      and the dominant child never depend on it, and once something qualifies
      the first qualifying child's State replaces it. */
  lemma {:induction false} FoldIgnoresStart<S>(e: Engine<S>, children: seq<Cam>, t: seq<Pair>, n: nat, s0: S, s1: S)
    requires n <= |children|
    ensures var a, b := Fold(e, children, t, n, s0), Fold(e, children, t, n, s1);
      && a.total == b.total && a.highest == b.highest && a.live == b.live
      && (!NoneQualifies(e, children, t, n) ==> a.state == b.state)
  {
    if n > 0 {
      FoldIgnoresStart(e, children, t, n - 1, s0, s1);
      FoldTotals(e, children, t, n - 1, s0);
    }
  }

  /** Blending the same children against the same table again, from the state
      the first blend left, gives that same result: a repeated tick with nothing
      changed in between is stable. */
  lemma FoldRepeat<S>(e: Engine<S>, children: seq<Cam>, t: seq<Pair>, n: nat, s0: S)
    requires n <= |children|
    ensures var a := Fold(e, children, t, n, s0);
      Fold(e, children, t, n, a.state) == a
  {
    var a := Fold(e, children, t, n, s0);
    FoldIgnoresStart(e, children, t, n, s0, a.state);
    FoldTotals(e, children, t, n, s0);
    FoldTotals(e, children, t, n, a.state);
  }

  /** The percentage lies in [0, 100] and is 0 when nothing qualifies. */
  lemma FoldPercent<S>(e: Engine<S>, children: seq<Cam>, t: seq<Pair>, n: nat, s0: S)
    requires n <= |children|
    ensures var r := Fold(e, children, t, n, s0);
      && 0.0 <= LivePercent(r.total, r.highest) <= 100.0
      && (NoneQualifies(e, children, t, n) ==> LivePercent(r.total, r.highest) == 0.0)
  {
    var r := Fold(e, children, t, n, s0);
    FoldTotals(e, children, t, n, s0);
    PercentRange(r.total, r.highest);
  }

  lemma PercentRange(total: real, highest: real)
    requires 0.0 <= highest <= total
    ensures 0.0 <= LivePercent(total, highest) <= 100.0
  {
    if total > 0.001 {
      var p := highest * 100.0 / total;
      assert p * total == highest * 100.0;
    }
  }

  /** With exactly one qualifying child, the state is that child's own state, it is
      the live child, and the percentage is 100 (0 when its weight is at most 0.001,
      the threshold of the percentage). */
  lemma {:induction false} FoldSingle<S>(e: Engine<S>, children: seq<Cam>, t: seq<Pair>, n: nat, s0: S, k: nat)
    requires k < n <= |children|
    requires Qualifies(e, children, t, k)
    requires forall j :: 0 <= j < n && j != k ==> !Qualifies(e, children, t, j)
    ensures var r := Fold(e, children, t, n, s0);
      && r.state == e.stateOf(children[k]) && r.live == children[k]
      && r.total == BlendWeight(t, k) && r.highest == BlendWeight(t, k)
      && LivePercent(r.total, r.highest) == if BlendWeight(t, k) > 0.001 then 100.0 else 0.0
  {
    var prev := Fold(e, children, t, n - 1, s0);
    if n - 1 == k {
      FoldTotals(e, children, t, n - 1, s0);
      PercentOfWhole(BlendWeight(t, k));
    } else {
      FoldSingle(e, children, t, n - 1, s0, k);
      assert !Qualifies(e, children, t, n - 1);
      assert Fold(e, children, t, n, s0) == prev;
    }
  }

  lemma PercentOfWhole(w: real)
    requires w > 0.0
    ensures LivePercent(w, w) == if w > 0.001 then 100.0 else 0.0
  {
    if w > 0.001 {
      assert w * 100.0 / w == 100.0;
    }
  }

  /** The sum of weight times state over the qualifying children, for states that are numbers */
  function WeightedSum(e: Engine<real>, children: seq<Cam>, t: seq<Pair>, n: nat): real
    requires n <= |children|
  {
    if n == 0 then 0.0
    else WeightedSum(e, children, t, n - 1) + Contribution(e, children, t, n - 1) * e.stateOf(children[n - 1])
  }

  /** Lerp instantiated on numbers, at one point: Lerp(a, b, x) = a + (b - a) * x */
  predicate LerpIsAffineAt(e: Engine<real>, a: real, b: real, x: real)
  {
    e.lerp(a, b, x) == a + (b - a) * x
  }

  /** Lerp instantiated on numbers */
  ghost predicate AffineLerp(e: Engine<real>)
  {
    forall a: real, b: real, x: real :: LerpIsAffineAt(e, a, b, x)
  }

  /** The blended number weighted by the total weight */
  function Product(r: Tally<real>): real
  {
    r.state * r.total
  }

  /** The incremental Lerp computes the weighted average: state times total weight
      equals the sum of weight times state over the qualifying children. */
  lemma {:induction false} FoldWeightedSum(e: Engine<real>, children: seq<Cam>, t: seq<Pair>, n: nat, s0: real)
    requires n <= |children|
    requires AffineLerp(e)
    ensures Product(Fold(e, children, t, n, s0)) == WeightedSum(e, children, t, n)
  {
    if n > 0 {
      FoldWeightedSum(e, children, t, n - 1, s0);
      FoldWeightedSumStep(e, children, t, n, s0);
    } else {
      NothingWeighted(e, children, t, s0);
    }
  }

  lemma FoldWeightedSumStep(e: Engine<real>, children: seq<Cam>, t: seq<Pair>, n: nat, s0: real)
    requires 0 < n <= |children|
    requires AffineLerp(e)
    requires Product(Fold(e, children, t, n - 1, s0)) == WeightedSum(e, children, t, n - 1)
    ensures Product(Fold(e, children, t, n, s0)) == WeightedSum(e, children, t, n)
  {
    StepContribution(e, children, t, n - 1);
    StepWeightedSum(e, Fold(e, children, t, n - 1, s0), children[n - 1], WeightAt(t, n - 1),
                    WeightedSum(e, children, t, n - 1), Contribution(e, children, t, n - 1),
                    Fold(e, children, t, n, s0), WeightedSum(e, children, t, n));
  }

  /** What child i contributes, in terms of its camera and raw weight */
  lemma StepContribution<S>(e: Engine<S>, children: seq<Cam>, t: seq<Pair>, i: nat)
    requires i < |children|
    ensures Contribution(e, children, t, i) ==
      if Active(e.enabled, children[i]) && Max0(WeightAt(t, i)) > Epsilon then Max0(WeightAt(t, i)) else 0.0
  {
  }

  lemma NothingWeighted(e: Engine<real>, children: seq<Cam>, t: seq<Pair>, s0: real)
    ensures Product(Fold(e, children, t, 0, s0)) == 0.0 == WeightedSum(e, children, t, 0)
  {
  }

  /** One pass of the loop body adds the child's weight times its state to the
      weighted state, when the child qualifies, and nothing otherwise. */
  lemma StepWeightedSum(e: Engine<real>, acc: Tally<real>, vcam: Cam, raw: real, sum: real, c: real,
                        r: Tally<real>, sum': real)
    requires AffineLerp(e)
    requires acc.total >= 0.0 && Product(acc) == sum
    requires c == if Active(e.enabled, vcam) && Max0(raw) > Epsilon then Max0(raw) else 0.0
    requires r == Step(e, acc, vcam, raw)
    requires sum' == sum + c * e.stateOf(vcam)
    ensures Product(r) == sum'
  {
    var w := Max0(raw);
    var q := Active(e.enabled, vcam) && w > Epsilon;
    WeightedStep(e, acc.state, acc.total, sum, q, w, c, e.stateOf(vcam), r.state, r.total, sum');
  }

  /** The arithmetic of one pass: a qualifying child with weight w and state x
      moves the state towards x by w / (total + w), which is the affine update
      of a weighted average. */
  lemma WeightedStep(e: Engine<real>, s: real, total: real, sum: real, q: bool, w: real, c: real, x: real,
                     s': real, total': real, sum': real)
    requires AffineLerp(e)
    requires total >= 0.0 && s * total == sum
    requires c == if q then w else 0.0
    requires q ==> w > 0.0
    requires q ==> total' == total + w && s' == if total + w == w then x else e.lerp(s, x, w / (total + w))
    requires !q ==> total' == total && s' == s
    requires sum' == sum + c * x
    ensures s' * total' == sum'
  {
    if q && total + w != w {
      var f := w / (total + w);
      assert LerpIsAffineAt(e, s, x, f);
      assert f * (total + w) == w;
      calc {
        s' * total';
        (s + (x - s) * f) * (total + w);
        s * (total + w) + (x - s) * (f * (total + w));
        s * (total + w) + (x - s) * w;
      }
    }
  }

  /** Something qualifies exactly when the total is positive. */
  lemma FoldTotalPositive<S>(e: Engine<S>, children: seq<Cam>, t: seq<Pair>, n: nat, s0: S)
    requires n <= |children|
    ensures Fold(e, children, t, n, s0).total > 0.0 <==> !NoneQualifies(e, children, t, n)
  {
    FoldTotals(e, children, t, n, s0);
    var r := Fold(e, children, t, n, s0);
    if !NoneQualifies(e, children, t, n) {
      var i :| 0 <= i < n && Qualifies(e, children, t, i);
      assert r.highest >= BlendWeight(t, i) > 0.0;
    }
  }

  /** Hence, when anything qualifies, the blended state is the weighted average
      of the qualifying children's states. */
  lemma FoldWeightedAverage(e: Engine<real>, children: seq<Cam>, t: seq<Pair>, n: nat, s0: real)
    requires n <= |children|
    requires AffineLerp(e)
    requires !NoneQualifies(e, children, t, n)
    ensures Fold(e, children, t, n, s0).total > 0.0
    ensures Fold(e, children, t, n, s0).state == WeightedSum(e, children, t, n) / Fold(e, children, t, n, s0).total
  {
    FoldTotalPositive(e, children, t, n, s0);
    FoldWeightedSum(e, children, t, n, s0);
    Quotient(Fold(e, children, t, n, s0), WeightedSum(e, children, t, n));
  }

  lemma Quotient(r: Tally<real>, sum: real)
    requires r.total > 0.0 && Product(r) == sum
    ensures r.state == sum / r.total
  {
  }

  /** The table [(A, 1), (B, 3)], both active: the rebuilt cache is [B, A], and B is
      paired with the weight of row 0 and A with that of row 1. So the tick blends
      towards A with factor 3/4, total 4, and A is the live child at 75%. */
  lemma TwoCameraTick<S>(e: Engine<S>, s0: S)
    requires 0 in e.enabled && 1 in e.enabled
    ensures var t := [Pair(Camera(0), 1.0), Pair(Camera(1), 3.0)];
      var children := CacheOf(t);
      var r := Fold(e, children, t, |children|, s0);
      && children == [Camera(1), Camera(0)]
      && r.total == 4.0 && r.highest == 3.0 && r.live == Camera(0)
      && r.state == e.lerp(e.stateOf(Camera(1)), e.stateOf(Camera(0)), 0.75)
      && LivePercent(r.total, r.highest) == 75.0
  {
    var t := [Pair(Camera(0), 1.0), Pair(Camera(1), 3.0)];
    var children := CacheOf(t);
    assert children == [Camera(1), Camera(0)];
    var r0 := Fold(e, children, t, 0, s0);
    assert r0 == Tally(0.0, 0.0, NoCamera, s0);
    assert children[0] == Camera(1) && WeightAt(t, 0) == 1.0;
    var r1 := Fold(e, children, t, 1, s0);
    assert r1 == Step(e, r0, Camera(1), 1.0);
    assert r1 == Tally(1.0, 1.0, Camera(1), e.stateOf(Camera(1)));
  }

}
