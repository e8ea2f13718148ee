/** The few Python float operations the classifiers rely on: comparison,
    addition and subtraction with NaN, the `max`/`min` builtins, and
    `round(x, 6)`. A float is modelled as an exact real or NaN; rounding
    error and infinities are not part of this model. */
module PyFloat {

  datatype Freq = Num(r: real) | NaN

  /** IEEE comparisons: every comparison involving NaN is false. */
  predicate Gt(a: Freq, b: Freq) { a.Num? && b.Num? && a.r > b.r }
  predicate Lt(a: Freq, b: Freq) { a.Num? && b.Num? && a.r < b.r }
  predicate Ge(a: Freq, b: Freq) { a.Num? && b.Num? && a.r >= b.r }

  /** Arithmetic propagates NaN. */
  function Add(a: Freq, b: Freq): (c: Freq)
    ensures c.NaN? <==> a.NaN? || b.NaN?
  {
    if a.Num? && b.Num? then Num(a.r + b.r) else NaN
  }

  function Sub(a: Freq, b: Freq): (c: Freq)
    ensures c.NaN? <==> a.NaN? || b.NaN?
  {
    if a.Num? && b.Num? then Num(a.r - b.r) else NaN
  }

  /** Additions may be regrouped and reordered: exact sums, and NaN either way. */
  lemma AddSwap(x: Freq, y: Freq, z: Freq)
    ensures Add(x, Add(y, z)) == Add(y, Add(x, z))
  {
  }

  lemma AddAssoc(x: Freq, y: Freq, z: Freq)
    ensures Add(Add(x, y), z) == Add(x, Add(y, z))
  {
  }

  /** 0 is neutral, also for NaN. */
  lemma AddZero(x: Freq)
    ensures Add(x, Num(0.0)) == x
  {
  }

  predicate NoNaN(vals: seq<Freq>) {
    forall i :: 0 <= i < |vals| ==> vals[i].Num?
  }

  /** The comparison `max` (greater) or `min` (not greater) applies to a
      later element against the running best. */
  predicate Beats(a: Freq, b: Freq, greater: bool) {
    if greater then Gt(a, b) else Lt(a, b)
  }

  /** CPython's `max`/`min` loop: the first element is the running best and
      is replaced only by a later element that beats it strictly. */
  function BestIndexFrom(vals: seq<Freq>, greater: bool, k: nat, best: nat): (i: nat)
    requires best < k <= |vals|
    ensures best <= i < |vals|
    decreases |vals| - k
  {
    if k == |vals| then best
    else BestIndexFrom(vals, greater, k + 1, if Beats(vals[k], vals[best], greater) then k else best)
  }

  function BestIndex(vals: seq<Freq>, greater: bool): (i: nat)
    requires |vals| > 0
    ensures i < |vals|
  {
    BestIndexFrom(vals, greater, 1, 0)
  }

  /** `max(vals)` */
  function PyMax(vals: seq<Freq>): Freq
    requires |vals| > 0
  {
    vals[BestIndex(vals, true)]
  }

  /** `min(vals)` */
  function PyMin(vals: seq<Freq>): Freq
    requires |vals| > 0
  {
    vals[BestIndex(vals, false)]
  }

  lemma {:induction false} BestIndexFromIsFirstBest(vals: seq<Freq>, greater: bool, k: nat, best: nat)
    requires best < k <= |vals| && NoNaN(vals)
    requires forall j :: 0 <= j < k ==> !Beats(vals[j], vals[best], greater)
    requires forall j :: 0 <= j < best ==> Beats(vals[best], vals[j], greater)
    ensures var i := BestIndexFrom(vals, greater, k, best);
      && (forall j :: 0 <= j < |vals| ==> !Beats(vals[j], vals[i], greater))
      && (forall j :: 0 <= j < i ==> Beats(vals[i], vals[j], greater))
    decreases |vals| - k
  {
    if k < |vals| {
      var next := if Beats(vals[k], vals[best], greater) then k else best;
      BestIndexFromIsFirstBest(vals, greater, k + 1, next);
    }
  }

  /** Without NaN, `max` returns the first occurrence of the largest value. */
  lemma MaxIsFirstMaximum(vals: seq<Freq>)
    requires |vals| > 0 && NoNaN(vals)
    ensures var i := BestIndex(vals, true);
      && (forall j :: 0 <= j < |vals| ==> vals[j].r <= vals[i].r)
      && (forall j :: 0 <= j < i ==> vals[j].r < vals[i].r)
  {
    BestIndexFromIsFirstBest(vals, true, 1, 0);
  }

  /** Without NaN, `min` returns the first occurrence of the smallest value. */
  lemma MinIsFirstMinimum(vals: seq<Freq>)
    requires |vals| > 0 && NoNaN(vals)
    ensures var i := BestIndex(vals, false);
      && (forall j :: 0 <= j < |vals| ==> vals[j].r >= vals[i].r)
      && (forall j :: 0 <= j < i ==> vals[j].r > vals[i].r)
  {
    BestIndexFromIsFirstBest(vals, false, 1, 0);
  }

  lemma {:induction false} BestIndexFromNaN(vals: seq<Freq>, greater: bool, k: nat, best: nat)
    requires best < k <= |vals|
    requires vals[0].NaN? ==> best == 0
    requires vals[0].Num? ==> vals[best].Num?
    ensures vals[BestIndexFrom(vals, greater, k, best)].NaN? <==> vals[0].NaN?
    decreases |vals| - k
  {
    if k < |vals| {
      var next := if Beats(vals[k], vals[best], greater) then k else best;
      BestIndexFromNaN(vals, greater, k + 1, next);
    }
  }

  /** Nothing beats NaN and NaN beats nothing, so `max` and `min` return NaN
      exactly when the FIRST element is NaN; a later NaN is skipped. */
  lemma BestIsNaNIffFirstIsNaN(vals: seq<Freq>, greater: bool)
    requires |vals| > 0
    ensures vals[BestIndex(vals, greater)].NaN? <==> vals[0].NaN?
  {
    BestIndexFromNaN(vals, greater, 1, 0);
  }

  lemma {:induction false} BestIndexFromBoundsFirst(vals: seq<Freq>, greater: bool, k: nat, best: nat)
    requires best < k <= |vals| && vals[0].Num? && vals[best].Num?
    requires if greater then vals[best].r >= vals[0].r else vals[best].r <= vals[0].r
    ensures var i := BestIndexFrom(vals, greater, k, best);
      vals[i].Num? && if greater then vals[i].r >= vals[0].r else vals[i].r <= vals[0].r
    decreases |vals| - k
  {
    if k < |vals| {
      var next := if Beats(vals[k], vals[best], greater) then k else best;
      BestIndexFromBoundsFirst(vals, greater, k + 1, next);
    }
  }

  /** When the first value is a number, `max` and `min` are numbers, at
      least and at most that first value, whatever NaNs follow. */
  lemma MaxMinBoundFirst(vals: seq<Freq>)
    requires |vals| > 0 && vals[0].Num?
    ensures PyMax(vals).Num? && PyMax(vals).r >= vals[0].r
    ensures PyMin(vals).Num? && PyMin(vals).r <= vals[0].r
  {
    BestIndexFromBoundsFirst(vals, true, 1, 0);
    BestIndexFromBoundsFirst(vals, false, 1, 0);
  }

  /** The threshold test `max(vals) >= x`: passing it means some value reaches
      x; without NaN, some value reaching x is also enough to pass it. */
  lemma MaxAtLeast(vals: seq<Freq>, x: real)
    requires |vals| > 0
    ensures Ge(PyMax(vals), Num(x)) ==> exists j :: 0 <= j < |vals| && vals[j].Num? && vals[j].r >= x
    ensures NoNaN(vals) && (exists j :: 0 <= j < |vals| && vals[j].r >= x) ==> Ge(PyMax(vals), Num(x))
  {
    if NoNaN(vals) {
      MaxIsFirstMaximum(vals);
    }
  }

  /** `round(x, 6)`: the nearest multiple of 10^-6, ties to the even multiple. */
  function Round6(x: real): (y: real)
    ensures -0.0000005 <= y - x <= 0.0000005
  {
    var scaled := x * 1000000.0;
    var n := scaled.Floor;
    var frac := scaled - n as real;
    var m := if frac > 0.5 then n + 1
             else if frac < 0.5 then n
             else if n % 2 == 0 then n else n + 1;
    m as real / 1000000.0
  }

  /** Rounding never reverses the order of two scores. */
  lemma Round6Monotone(x: real, y: real)
    requires x <= y
    ensures Round6(x) <= Round6(y)
  {
    var sx, sy := x * 1000000.0, y * 1000000.0;
    assert sx <= sy;
    assert sx.Floor <= sy.Floor;
  }
}
