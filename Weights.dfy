/**
 * `WeightsStabiliser`: cleansing of importance weights (thresholding,
 * replacing infinities and NaNs, renormalising in place), the degeneracy
 * check, and index resampling from the weights or from their reciprocals.
 *
 * A weight is a float that may also be an infinity or NaN; finite values
 * are modelled as reals. The multinomial draw and the random permutation are
 * parameters.
 */
module Weights {
  import opened Wrappers
  import opened Indexing

  datatype Weight = Finite(value: real) | PosInf | NegInf | NaN

  /** `torch.finfo().eps` for the default dtype `float32`: 2^-23. */
  const DefaultEps: real := 1.0 / 8388608.0
  const DefaultThresh: int := 5

  /** `sum`, accumulated from the left. */
  function Total(s: seq<real>): real
  {
    if s == [] then 0.0 else Total(s[..|s| - 1]) + s[|s| - 1]
  }

  function Finites(s: seq<real>): (ws: seq<Weight>)
    ensures |ws| == |s|
    ensures forall i :: 0 <= i < |s| ==> ws[i] == Finite(s[i])
  {
    seq(|s|, i requires 0 <= i < |s| => Finite(s[i]))
  }

  /** Every entry divided by `t`. */
  function Normalise(s: seq<real>, t: real): (r: seq<real>)
    requires t != 0.0
    ensures |r| == |s|
    ensures forall i :: 0 <= i < |s| ==> r[i] == s[i] / t
  {
    seq(|s|, i requires 0 <= i < |s| => s[i] / t)
  }

  /** `ones(n) / n`. */
  function UniformVector(n: nat): (r: seq<real>)
    ensures |r| == n
    ensures forall i :: 0 <= i < n ==> r[i] == 1.0 / n as real
  {
    seq(n, i requires 0 <= i < n => 1.0 / n as real)
  }

  /** The distinct values of a vector, as `unique` collects them. */
  function Values(s: seq<real>): set<real>
  {
    set i | 0 <= i < |s| :: s[i]
  }

  /** Strictly positive, as `weights > 0` tests it: NaN and the infinities below zero are not. */
  predicate Positive(w: Weight)
  {
    (w.Finite? && w.value > 0.0) || w.PosInf?
  }

  /** `arange(len(weights))[weights > 0]`: the positions of the positive weights, in order. */
  function PositiveIndices(ws: seq<Weight>): (pos: seq<int>)
    ensures |pos| <= |ws|
  {
    if ws == [] then []
    else PositiveIndices(ws[..|ws| - 1]) + (if Positive(ws[|ws| - 1]) then [|ws| - 1] else [])
  }

  /** The positive positions are increasing, in range, and exactly those of positive weight. */
  lemma PositiveIndicesMeaning(ws: seq<Weight>)
    ensures Increasing(PositiveIndices(ws))
    ensures forall k :: 0 <= k < |PositiveIndices(ws)| ==>
      0 <= PositiveIndices(ws)[k] < |ws| && Positive(ws[PositiveIndices(ws)[k]])
    ensures forall i :: i in PositiveIndices(ws) <==> 0 <= i < |ws| && Positive(ws[i])
  {
    PositiveIndicesRange(ws);
    PositiveIndicesIncreasing(ws);
    forall i ensures i in PositiveIndices(ws) <==> 0 <= i < |ws| && Positive(ws[i]) {
      PositiveIndicesHas(ws, i);
    }
  }

  lemma {:induction false} PositiveIndicesRange(ws: seq<Weight>)
    ensures forall k :: 0 <= k < |PositiveIndices(ws)| ==>
      0 <= PositiveIndices(ws)[k] < |ws| && Positive(ws[PositiveIndices(ws)[k]])
  {
    if ws != [] {
      var n := |ws|;
      var init := ws[..n - 1];
      var p := PositiveIndices(init);
      PositiveIndicesRange(init);
      var r := PositiveIndices(ws);
      assert r == p + (if Positive(ws[n - 1]) then [n - 1] else []);
      forall k | 0 <= k < |r| ensures 0 <= r[k] < n && Positive(ws[r[k]]) {
        if k < |p| {
          assert r[k] == p[k] && init[p[k]] == ws[p[k]];
        }
      }
    }
  }

  lemma {:induction false} PositiveIndicesIncreasing(ws: seq<Weight>)
    ensures Increasing(PositiveIndices(ws))
  {
    if ws != [] {
      var n := |ws|;
      var init := ws[..n - 1];
      var p := PositiveIndices(init);
      PositiveIndicesIncreasing(init);
      PositiveIndicesRange(init);
      var r := PositiveIndices(ws);
      assert r == p + (if Positive(ws[n - 1]) then [n - 1] else []);
      forall i, j | 0 <= i < j < |r| ensures r[i] < r[j] {
        assert r[i] == p[i];
        if j < |p| {
          assert r[j] == p[j];
        }
      }
    }
  }

  lemma {:induction false} PositiveIndicesHas(ws: seq<Weight>, i: int)
    ensures i in PositiveIndices(ws) <==> 0 <= i < |ws| && Positive(ws[i])
  {
    if ws != [] {
      var n := |ws|;
      var init := ws[..n - 1];
      PositiveIndicesHas(init, i);
      assert PositiveIndices(ws) == PositiveIndices(init) + (if Positive(ws[n - 1]) then [n - 1] else []);
      if 0 <= i < n - 1 {
        assert init[i] == ws[i];
      }
    }
  }

  /** The entries of `perm` whose weight is not positive, in the order of `perm`. */
  function NonPositiveOf(perm: seq<int>, ws: seq<Weight>): (r: seq<int>)
    requires InRange(perm, |ws|)
    ensures |r| <= |perm|
  {
    if perm == [] then []
    else
      var rest := NonPositiveOf(perm[1..], ws);
      if Positive(ws[perm[0]]) then rest else [perm[0]] + rest
  }

  /** The non-positive entries of `perm` are in range, of non-positive weight, and distinct when `perm` is. */
  lemma {:induction false} NonPositiveOfMeaning(perm: seq<int>, ws: seq<Weight>)
    requires InRange(perm, |ws|)
    ensures forall k :: 0 <= k < |NonPositiveOf(perm, ws)| ==>
      0 <= NonPositiveOf(perm, ws)[k] < |ws| && !Positive(ws[NonPositiveOf(perm, ws)[k]])
    ensures forall i :: i in NonPositiveOf(perm, ws) <==> i in perm && !Positive(ws[i])
    ensures Distinct(perm) ==> Distinct(NonPositiveOf(perm, ws))
  {
    if perm != [] {
      NonPositiveOfMeaning(perm[1..], ws);
      assert forall i :: i in perm <==> i == perm[0] || i in perm[1..];
      if Distinct(perm) {
        assert Distinct(perm[1..]) by {
          forall i, j | 0 <= i < j < |perm[1..]| ensures perm[1..][i] != perm[1..][j] {
            assert perm[1..][i] == perm[i + 1] && perm[1..][j] == perm[j + 1];
          }
        }
        assert perm[0] !in perm[1..] by {
          forall k | 0 <= k < |perm[1..]| ensures perm[1..][k] != perm[0] {
            assert perm[1..][k] == perm[k + 1];
          }
        }
      }
    }
  }

  /** `multinomial` accepts the weights: every one finite and non-negative. */
  predicate ValidDistribution(ws: seq<Weight>)
  {
    forall i :: 0 <= i < |ws| ==> ws[i].Finite? && ws[i].value >= 0.0
  }

  datatype ResampleError = InvalidMultinomial

  /**
   * What `multinomial(weights, n)` without replacement can return when it
   * is called and accepts its input: `n` distinct positions, each of
   * positive weight.
   */
  predicate DrawFits(ws: seq<Weight>, n: int, draws: seq<int>)
  {
    (|PositiveIndices(ws)| > n && n > 0 && ValidDistribution(ws)) ==>
      && |draws| == n && Distinct(draws)
      && forall k :: 0 <= k < |draws| ==> 0 <= draws[k] < |ws| && Positive(ws[draws[k]])
  }

  /** `1 / weights` for one entry (a zero is taken as `+0.0`). */
  function Reciprocal(w: Weight): Weight
  {
    match w
    case Finite(v) => if v == 0.0 then PosInf else Finite(1.0 / v)
    case PosInf => Finite(0.0)
    case NegInf => Finite(0.0)
    case NaN => NaN
  }

  function Reciprocals(ws: seq<Weight>): (r: seq<Weight>)
    ensures |r| == |ws|
    ensures forall i :: 0 <= i < |ws| ==> r[i] == Reciprocal(ws[i])
  {
    seq(|ws|, i requires 0 <= i < |ws| => Reciprocal(ws[i]))
  }

  /** `WeightsStabiliser(eps, thresh)`. */
  datatype Stabiliser = Stabiliser(eps: real, thresh: int)
  {
    /** The entries the first pass zeroes: those below `eps`, `-inf` among them; NaN compares false. */
    predicate BelowEps(w: Weight)
    {
      (w.Finite? && w.value < eps) || w.NegInf?
    }

    /** First pass: `weights[weights < eps] = 0`. */
    function Clip(w: Weight): Weight
    {
      if BelowEps(w) then Finite(0.0) else w
    }

    /** Second pass: `weights[weights.isinf()] = eps`. */
    function FillInf(w: Weight): Weight
    {
      if w.PosInf? || w.NegInf? then Finite(eps) else w
    }

    /** Third pass: `weights[weights.isnan()] = eps`. */
    function FillNaN(w: Weight): Weight
    {
      if w.NaN? then Finite(eps) else w
    }

    /** One entry after the three passes: always finite. */
    function Stage(w: Weight): (r: Weight)
      ensures r.Finite?
    {
      FillNaN(FillInf(Clip(w)))
    }

    function Staged(ws: seq<Weight>): (s: seq<real>)
      ensures |s| == |ws|
      ensures forall i :: 0 <= i < |ws| ==> s[i] == Stage(ws[i]).value
    {
      seq(|ws|, i requires 0 <= i < |ws| => Stage(ws[i]).value)
    }

    /** What `cleansing_weights` returns: the staged weights over their sum, or the uniform vector when the sum is 0. */
    function Cleansed(ws: seq<Weight>): (c: seq<real>)
      ensures |c| == |ws|
    {
      var s := Staged(ws);
      var t := Total(s);
      if t != 0.0 then Normalise(s, t) else UniformVector(|ws|)
    }

    /**
     * `cleansing_weights`: three masked passes over the array, then either an
     * in-place division by the sum (the same array is returned) or, when the
     * sum is 0, a fresh uniform array, the input being left as the passes
     * made it.
     */
    method Cleanse(w: array<Weight>) returns (r: array<Weight>)
      modifies w
      ensures r[..] == Finites(Cleansed(old(w[..])))
      ensures Total(Staged(old(w[..]))) != 0.0 ==> r == w
      ensures Total(Staged(old(w[..]))) == 0.0 ==> fresh(r) && w[..] == Finites(Staged(old(w[..])))
    {
      ghost var s := Staged(w[..]);
      MaskedPasses(w);
      var sum := SumOf(w, s);
      if sum != 0.0 {
        DivideBy(w, sum);
        assert w[..] == Finites(Normalise(s, sum));
        r := w;
      } else {
        r := new Weight[w.Length](_ => Finite(0.0));
        for i := 0 to r.Length
          invariant forall k :: 0 <= k < i ==> r[k] == Finite(1.0 / r.Length as real)
          invariant w[..] == Finites(s)
        {
          r[i] := Finite(1.0 / r.Length as real);
        }
        assert r[..] == Finites(UniformVector(r.Length));
      }
    }

    /** The three masked assignments of `cleansing_weights`, in order, over the whole array. */
    method MaskedPasses(w: array<Weight>)
      modifies w
      ensures w[..] == Finites(Staged(old(w[..])))
    {
      ghost var w0 := w[..];
      var n := w.Length;
      for i := 0 to n
        invariant forall k :: 0 <= k < i ==> w[k] == Clip(w0[k])
        invariant forall k :: i <= k < n ==> w[k] == w0[k]
      {
        if BelowEps(w[i]) {
          w[i] := Finite(0.0);
        }
      }
      for i := 0 to n
        invariant forall k :: 0 <= k < i ==> w[k] == FillInf(Clip(w0[k]))
        invariant forall k :: i <= k < n ==> w[k] == Clip(w0[k])
      {
        if w[i].PosInf? || w[i].NegInf? {
          w[i] := Finite(eps);
        }
      }
      for i := 0 to n
        invariant forall k :: 0 <= k < i ==> w[k] == Stage(w0[k])
        invariant forall k :: i <= k < n ==> w[k] == FillInf(Clip(w0[k]))
      {
        if w[i].NaN? {
          w[i] := Finite(eps);
        }
      }
      assert w[..] == Finites(Staged(w0));
    }

    /** `weights.sum()` over an array of finite entries with values `s`. */
    static method SumOf(w: array<Weight>, ghost s: seq<real>) returns (sum: real)
      requires w[..] == Finites(s)
      ensures sum == Total(s)
    {
      sum := 0.0;
      for i := 0 to w.Length
        invariant sum == Total(s[..i])
      {
        assert s[..i + 1][..i] == s[..i];
        assert w[i] == w[..][i];
        sum := sum + w[i].value;
      }
      assert s[..w.Length] == s;
    }

    /** `weights /= weights.sum()`, in place. */
    static method DivideBy(w: array<Weight>, t: real)
      requires t != 0.0
      requires forall k :: 0 <= k < w.Length ==> w[k].Finite?
      modifies w
      ensures forall k :: 0 <= k < w.Length ==> w[k].Finite?
      ensures forall k :: 0 <= k < w.Length ==> w[k] == Finite(old(w[k]).value / t)
    {
      for i := 0 to w.Length
        invariant forall k :: 0 <= k < i ==> w[k] == Finite(old(w[k]).value / t)
        invariant forall k :: i <= k < w.Length ==> w[k] == old(w[k])
      {
        w[i] := Finite(w[i].value / t);
      }
    }

    /** `check_weights`: the weights are usable when their sum is not 0 and they take at least `thresh` distinct values. */
    predicate CheckWeights(ws: seq<real>): (ok: bool)
      ensures ok ==> |ws| >= thresh
      ensures ok ==> exists i :: 0 <= i < |ws| && ws[i] != 0.0
    {
      ValuesCard(ws);
      NonZeroTotal(ws);
      Total(ws) != 0.0 && |Values(ws)| >= thresh
    }

    /**
     * `weighted_resampling` as written: a multinomial draw when more than
     * `n_nys` weights are positive; otherwise every positive position,
     * followed by the first `n_nys - n_positive` entries of a random
     * permutation of all positions.
     */
    function WeightedResamplingAsWritten(ws: seq<Weight>, nNys: int, draws: seq<int>, perm: seq<int>): (r: Result<seq<int>, ResampleError>)
      requires IsPermutation(perm, |ws|)
      ensures r.Failure? <==> |PositiveIndices(ws)| > nNys && (nNys <= 0 || !ValidDistribution(ws))
      ensures r.Success? && |PositiveIndices(ws)| <= nNys ==>
        PositiveIndices(ws) <= r.value && |r.value| == |PositiveIndices(ws)| + SliceEnd(|ws|, nNys - |PositiveIndices(ws)|)
    {
      var pos := PositiveIndices(ws);
      if |pos| > nNys then
        if nNys > 0 && ValidDistribution(ws) then Success(draws) else Failure(InvalidMultinomial)
      else
        Success(pos + perm[..SliceEnd(|ws|, nNys - |pos|)])
    }

    /**
     * `weighted_resampling` with the top-up drawn from the positions of
     * non-positive weight only, so that no position is picked twice.
     */
    function WeightedResampling(ws: seq<Weight>, nNys: int, draws: seq<int>, perm: seq<int>): (r: Result<seq<int>, ResampleError>)
      requires IsPermutation(perm, |ws|)
      ensures r.Failure? <==> |PositiveIndices(ws)| > nNys && (nNys <= 0 || !ValidDistribution(ws))
      ensures r.Success? && |PositiveIndices(ws)| <= nNys ==> PositiveIndices(ws) <= r.value && |r.value| <= nNys
    {
      var pos := PositiveIndices(ws);
      if |pos| > nNys then
        if nNys > 0 && ValidDistribution(ws) then Success(draws) else Failure(InvalidMultinomial)
      else
        var rest := NonPositiveOf(perm, ws);
        Success(pos + rest[..SliceEnd(|rest|, nNys - |pos|)])
    }

    /** `deweighted_resampling`: cleanse the reciprocals of the weights, then resample from them. */
    method DeweightedResampling(ws: seq<Weight>, nSamples: int, draws: seq<int>, perm: seq<int>)
      returns (r: Result<seq<int>, ResampleError>)
      requires IsPermutation(perm, |ws|)
      ensures r == WeightedResampling(Finites(Cleansed(Reciprocals(ws))), nSamples, draws, perm)
    {
      var inv := new Weight[|ws|](i requires 0 <= i < |ws| => Reciprocal(ws[i]));
      assert inv[..] == Reciprocals(ws);
      var cleansed := Cleanse(inv);
      r := WeightedResampling(cleansed[..], nSamples, draws, perm);
    }
  }

  // ------------------------------------------------------------ arithmetic

  lemma DivAdd(a: real, b: real, t: real)
    requires t != 0.0
    ensures a / t + b / t == (a + b) / t
  {
  }

  lemma DivBounds(a: real, t: real)
    requires 0.0 <= a <= t && t > 0.0
    ensures 0.0 <= a / t <= 1.0
  {
  }

  lemma DivMono(a: real, b: real, t: real)
    requires b <= a && t > 0.0
    ensures b / t <= a / t
  {
  }

  lemma DivZero(a: real, t: real)
    requires t != 0.0
    ensures a / t == 0.0 <==> a == 0.0
  {
  }

  lemma DivPositive(a: real, t: real)
    requires a > 0.0 && t > 0.0
    ensures a / t > 0.0
  {
  }

  lemma ReciprocalMono(a: real, b: real)
    requires 0.0 < a <= b
    ensures 1.0 / a >= 1.0 / b > 0.0
  {
  }

  lemma MulInverse(n: nat)
    requires n >= 1
    ensures (n as real) * (1.0 / n as real) == 1.0
    ensures 0.0 < 1.0 / n as real <= 1.0
  {
  }

  // ------------------------------------------------------------------ sums

  lemma {:induction false} TotalNormalise(s: seq<real>, t: real)
    requires t != 0.0
    ensures Total(Normalise(s, t)) == Total(s) / t
  {
    if s != [] {
      var n := |s|;
      assert Normalise(s, t)[..n - 1] == Normalise(s[..n - 1], t);
      TotalNormalise(s[..n - 1], t);
      DivAdd(Total(s[..n - 1]), s[n - 1], t);
    }
  }

  lemma {:induction false} TotalOfConstant(s: seq<real>, c: real)
    requires forall k :: 0 <= k < |s| ==> s[k] == c
    ensures Total(s) == |s| as real * c
  {
    if s != [] {
      TotalOfConstant(s[..|s| - 1], c);
    }
  }

  /** A sum of non-negative entries is at least each of them. */
  lemma {:induction false} TotalBound(s: seq<real>)
    requires forall k :: 0 <= k < |s| ==> s[k] >= 0.0
    ensures Total(s) >= 0.0
    ensures forall k :: 0 <= k < |s| ==> s[k] <= Total(s)
  {
    if s != [] {
      TotalBound(s[..|s| - 1]);
      assert forall k :: 0 <= k < |s| - 1 ==> s[..|s| - 1][k] == s[k];
    }
  }

  /** A sum that is not 0 has an entry that is not 0. */
  lemma {:induction false} NonZeroTotal(s: seq<real>)
    ensures Total(s) != 0.0 ==> exists i :: 0 <= i < |s| && s[i] != 0.0
  {
    if s != [] && Total(s) != 0.0 {
      var n := |s|;
      NonZeroTotal(s[..n - 1]);
      if s[n - 1] == 0.0 {
        var i :| 0 <= i < n - 1 && s[..n - 1][i] != 0.0;
        assert s[i] != 0.0;
      }
    }
  }

  lemma {:induction false} ValuesCard(s: seq<real>)
    ensures |Values(s)| <= |s|
  {
    if s != [] {
      var n := |s|;
      ValuesCard(s[..n - 1]);
      assert Values(s) == Values(s[..n - 1]) + {s[n - 1]} by {
        forall x ensures x in Values(s) <==> x in Values(s[..n - 1]) + {s[n - 1]} {
          if x in Values(s) {
            var i :| 0 <= i < n && s[i] == x;
            if i < n - 1 {
              assert s[..n - 1][i] == x;
            }
          }
        }
      }
    }
  }

  // ------------------------------------------------------------- cleansing

  /** With `eps >= 0` no entry is negative after the passes, and an entry survives the first pass only with a value of at least `eps`. */
  lemma StageValue(st: Stabiliser, w: Weight)
    requires st.eps >= 0.0
    ensures st.Stage(w).value >= 0.0
    ensures st.BelowEps(w) ==> st.Stage(w).value == 0.0
    ensures !st.BelowEps(w) ==> st.Stage(w).value >= st.eps
    ensures w.Finite? && !st.BelowEps(w) ==> st.Stage(w) == w
  {
  }

  /** On finite values the passes keep the order of the weights. */
  lemma StageMono(st: Stabiliser, x: real, y: real)
    requires st.eps >= 0.0 && y <= x
    ensures st.Stage(Finite(y)).value <= st.Stage(Finite(x)).value
  {
  }

  lemma StagedNonNegative(st: Stabiliser, ws: seq<Weight>)
    requires st.eps >= 0.0
    ensures forall k :: 0 <= k < |ws| ==> st.Staged(ws)[k] >= 0.0
    ensures Total(st.Staged(ws)) >= 0.0
    ensures forall k :: 0 <= k < |ws| ==> st.Staged(ws)[k] <= Total(st.Staged(ws))
  {
    forall k | 0 <= k < |ws| {
      StageValue(st, ws[k]);
    }
    TotalBound(st.Staged(ws));
  }

  /** A cleansed non-empty vector sums to 1, whichever branch produced it. */
  lemma CleansedSumsToOne(st: Stabiliser, ws: seq<Weight>)
    requires |ws| > 0
    ensures Total(st.Cleansed(ws)) == 1.0
  {
    var s := st.Staged(ws);
    var t := Total(s);
    if t != 0.0 {
      TotalNormalise(s, t);
    } else {
      TotalOfConstant(UniformVector(|ws|), 1.0 / |ws| as real);
      MulInverse(|ws|);
    }
  }

  /** With `eps >= 0` every cleansed entry lies in `[0, 1]`, so the result is a probability vector. */
  lemma CleansedRange(st: Stabiliser, ws: seq<Weight>)
    requires st.eps >= 0.0
    ensures forall k :: 0 <= k < |ws| ==> 0.0 <= st.Cleansed(ws)[k] <= 1.0
    ensures ValidDistribution(Finites(st.Cleansed(ws)))
  {
    var s := st.Staged(ws);
    var t := Total(s);
    StagedNonNegative(st, ws);
    forall k | 0 <= k < |ws|
      ensures 0.0 <= st.Cleansed(ws)[k] <= 1.0
    {
      if t != 0.0 {
        DivBounds(s[k], t);
      } else {
        MulInverse(|ws|);
      }
    }
  }

  /**
   * When the sum after the passes is not 0, a cleansed entry is 0 exactly
   * when the weight was below `eps` (or `-inf`); infinities and NaNs keep a
   * positive share.
   */
  lemma CleansedZero(st: Stabiliser, ws: seq<Weight>, i: nat)
    requires st.eps > 0.0 && i < |ws| && Total(st.Staged(ws)) != 0.0
    ensures st.Cleansed(ws)[i] == 0.0 <==> st.BelowEps(ws[i])
    ensures ws[i].PosInf? || ws[i].NaN? ==> st.Cleansed(ws)[i] > 0.0
  {
    var s := st.Staged(ws);
    StageValue(st, ws[i]);
    StagedNonNegative(st, ws);
    DivZero(s[i], Total(s));
  }

  /** The uniform fallback is taken only when every weight was below `eps` (or `-inf`). */
  lemma CleansedFallback(st: Stabiliser, ws: seq<Weight>)
    requires st.eps > 0.0 && Total(st.Staged(ws)) == 0.0
    ensures forall k :: 0 <= k < |ws| ==> st.BelowEps(ws[k])
    ensures st.Cleansed(ws) == UniformVector(|ws|)
  {
    StagedNonNegative(st, ws);
    forall k | 0 <= k < |ws|
      ensures st.BelowEps(ws[k])
    {
      StageValue(st, ws[k]);
    }
  }

  /** The uniform vector is cleansed to itself as long as `1/n` is not below `eps`. */
  lemma UniformFixedPoint(st: Stabiliser, n: nat)
    requires n >= 1 && st.eps <= 1.0 / n as real
    ensures st.Cleansed(Finites(UniformVector(n))) == UniformVector(n)
  {
    var ws := Finites(UniformVector(n));
    var s := st.Staged(ws);
    var u := 1.0 / n as real;
    forall k | 0 <= k < n ensures s[k] == u {
      assert ws[k] == Finite(u);
      assert !st.BelowEps(ws[k]);
    }
    TotalOfConstant(s, u);
    MulInverse(n);
    assert Total(s) == 1.0;
    assert Normalise(s, 1.0) == UniformVector(n);
  }

  /**
   * Cleansing twice differs from cleansing once: an entry equal to `eps`
   * survives the first pass, drops below `eps` once divided by the sum, and is
   * zeroed the second time.
   */
  lemma CleanseNotIdempotent()
    ensures var st := Stabiliser(DefaultEps, DefaultThresh);
      var once := st.Cleansed([Finite(1.0), Finite(DefaultEps)]);
      && once[1] > 0.0
      && st.Cleansed(Finites(once))[1] == 0.0
  {
    var st := Stabiliser(DefaultEps, DefaultThresh);
    var e := DefaultEps;
    var ws := [Finite(1.0), Finite(e)];
    var s := st.Staged(ws);
    assert s == [1.0, e];
    assert s[..1] == [1.0] && [1.0][..0] == [];
    assert Total(s) == 1.0 + e;
    var once := st.Cleansed(ws);
    assert once == [1.0 / (1.0 + e), e / (1.0 + e)];
    assert e / (1.0 + e) < e;
    var s2 := st.Staged(Finites(once));
    assert s2 == [1.0 / (1.0 + e), 0.0];
    assert s2[..1] == [1.0 / (1.0 + e)];
    assert Total(s2) == 1.0 / (1.0 + e);
  }

  // ----------------------------------------------------------------- check

  /** Passing the check needs at least `thresh` entries. */
  /** After cleansing the sum test always passes, so the check depends on the number of distinct values alone. */
  lemma CheckAfterCleanse(st: Stabiliser, ws: seq<Weight>)
    requires |ws| > 0
    ensures st.CheckWeights(st.Cleansed(ws)) <==> |Values(st.Cleansed(ws))| >= st.thresh
  {
    CleansedSumsToOne(st, ws);
  }

  /** The uniform vector has one distinct value, so it fails the check for any `thresh >= 2`. */
  lemma UniformFailsCheck(st: Stabiliser, n: nat)
    requires n >= 1 && st.thresh >= 2
    ensures !st.CheckWeights(UniformVector(n))
  {
    var u := UniformVector(n);
    assert u[0] in Values(u);
    assert forall x :: x in Values(u) ==> x == 1.0 / n as real;
    assert Values(u) == {1.0 / n as real};
  }

  /** What the cleansing fallback returns is rejected by the check for any `thresh >= 2`. */
  lemma FallbackFailsCheck(st: Stabiliser, ws: seq<Weight>)
    requires |ws| >= 1 && st.thresh >= 2 && Total(st.Staged(ws)) == 0.0
    ensures !st.CheckWeights(st.Cleansed(ws))
  {
    UniformFailsCheck(st, |ws|);
  }

  // ------------------------------------------------------------ resampling

  /** The written fallback can pick a position twice: weights `[1, 0, 0]`, `n_nys = 2`, permutation `[0, 1, 2]`. */
  lemma ResamplingAsWrittenRepeats(st: Stabiliser)
    ensures IsPermutation([0, 1, 2], 3)
    ensures st.WeightedResamplingAsWritten([Finite(1.0), Finite(0.0), Finite(0.0)], 2, [], [0, 1, 2]) == Success([0, 0])
    ensures st.WeightedResampling([Finite(1.0), Finite(0.0), Finite(0.0)], 2, [], [0, 1, 2]) == Success([0, 1])
  {
    var ws, perm := [Finite(1.0), Finite(0.0), Finite(0.0)], [0, 1, 2];
    SmallPermutation();
    OnePositive();
    TwoNonPositive();
    assert SliceEnd(3, 1) == 1 && SliceEnd(2, 1) == 1;
    assert perm[..1] == [0] && [1, 2][..1] == [1];
    assert st.WeightedResamplingAsWritten(ws, 2, [], perm) == Success([0] + perm[..1]);
    assert st.WeightedResampling(ws, 2, [], perm) == Success([0] + [1, 2][..1]);
    assert [0] + perm[..1] == [0, 0] && [0] + [1, 2][..1] == [0, 1];
  }

  lemma SmallPermutation()
    ensures IsPermutation([0, 1, 2], 3)
  {
    var p := [0, 1, 2];
    forall i, j | 0 <= i < j < 3 ensures p[i] != p[j] {
      assert p[i] == i && p[j] == j;
    }
  }

  lemma OnePositive()
    ensures PositiveIndices([Finite(1.0), Finite(0.0), Finite(0.0)]) == [0]
  {
    var w1, w2, w3 := [Finite(1.0)], [Finite(1.0), Finite(0.0)], [Finite(1.0), Finite(0.0), Finite(0.0)];
    assert w1[..0] == [] && w2[..1] == w1 && w3[..2] == w2;
    assert PositiveIndices(w1) == [0];
    assert PositiveIndices(w2) == PositiveIndices(w1);
  }

  lemma TwoNonPositive()
    ensures NonPositiveOf([0, 1, 2], [Finite(1.0), Finite(0.0), Finite(0.0)]) == [1, 2]
  {
    var ws := [Finite(1.0), Finite(0.0), Finite(0.0)];
    assert [0, 1, 2][1..] == [1, 2] && [1, 2][1..] == [2] && [2][1..] == [];
    assert NonPositiveOf([], ws) == [];
    assert NonPositiveOf([2], ws) == [2] + NonPositiveOf([], ws);
    assert NonPositiveOf([1, 2], ws) == [1] + NonPositiveOf([2], ws);
    assert NonPositiveOf([0, 1, 2], ws) == NonPositiveOf([1, 2], ws);
  }

  lemma SubsetSameCard(a: set<int>, b: set<int>)
    requires a <= b && |a| == |b|
    ensures a == b
  {
    assert b == a + (b - a);
    assert |b - a| == 0;
  }

  /** A permutation of `0 .. n-1` holds each of them. */
  lemma PermutationCovers(perm: seq<int>, n: nat)
    requires IsPermutation(perm, n)
    ensures forall i :: 0 <= i < n ==> i in perm
  {
    var a, b := PositionSet(perm), PositionSet(Range(n));
    DistinctCard(perm);
    DistinctCard(Range(n));
    forall x | x in a ensures x in b {
      assert 0 <= x < n;
      assert Range(n)[x] == x;
    }
    SubsetSameCard(a, b);
    forall i | 0 <= i < n ensures i in perm {
      assert Range(n)[i] == i;
      assert i in b;
    }
  }

  /** The positive positions and the non-positive entries of a permutation split `0 .. n-1` between them. */
  lemma SplitCount(ws: seq<Weight>, perm: seq<int>)
    requires IsPermutation(perm, |ws|)
    ensures |PositiveIndices(ws)| + |NonPositiveOf(perm, ws)| == |ws|
  {
    var pos, rest := PositiveIndices(ws), NonPositiveOf(perm, ws);
    PositiveIndicesMeaning(ws);
    NonPositiveOfMeaning(perm, ws);
    PermutationCovers(perm, |ws|);
    DistinctCard(pos);
    DistinctCard(rest);
    DistinctCard(Range(|ws|));
    assert PositionSet(Range(|ws|)) == PositionSet(pos) + PositionSet(rest) by {
      forall x ensures x in PositionSet(Range(|ws|)) <==> x in PositionSet(pos) + PositionSet(rest) {
        if 0 <= x < |ws| {
          assert Range(|ws|)[x] == x;
        }
      }
    }
    assert PositionSet(pos) * PositionSet(rest) == {};
  }

  /**
   * With the top-up restricted to non-positive positions, resampling fails
   * exactly when the multinomial branch rejects its input; otherwise it
   * returns `min(n_nys, n)` distinct positions, every positive position
   * among them when there are no more than `n_nys` of those, and only
   * positive positions when there are more.
   */
  lemma WeightedResamplingMeaning(st: Stabiliser, ws: seq<Weight>, nNys: int, draws: seq<int>, perm: seq<int>)
    requires IsPermutation(perm, |ws|) && DrawFits(ws, nNys, draws)
    ensures var r := st.WeightedResampling(ws, nNys, draws, perm);
      var pos := PositiveIndices(ws);
      && (r.Failure? <==> |pos| > nNys && (nNys <= 0 || !ValidDistribution(ws)))
      && (r.Success? ==> InRange(r.value, |ws|) && Distinct(r.value))
      && (r.Success? ==> |r.value| == if nNys < |ws| then nNys else |ws|)
      && (r.Success? && |pos| <= nNys ==> forall i :: 0 <= i < |ws| && Positive(ws[i]) ==> i in r.value)
      && (r.Success? && |pos| > nNys ==> forall k :: 0 <= k < |r.value| ==> Positive(ws[r.value[k]]))
  {
    if |PositiveIndices(ws)| <= nNys {
      PositiveIndicesMeaning(ws);
      NonPositiveOfMeaning(perm, ws);
      SplitCount(ws, perm);
      FallbackMeaning(ws, PositiveIndices(ws), NonPositiveOf(perm, ws), nNys);
    }
  }

  /**
   * `weighted_resampling` as written returns positions in range, and in the
   * fallback every positive position followed by `min(n_nys - n_positive, n)`
   * more; in the multinomial branch it returns the draw, `n_nys` distinct
   * positions of positive weight.
   */
  lemma WeightedResamplingAsWrittenMeaning(st: Stabiliser, ws: seq<Weight>, nNys: int, draws: seq<int>, perm: seq<int>)
    requires IsPermutation(perm, |ws|) && DrawFits(ws, nNys, draws)
    ensures var r := st.WeightedResamplingAsWritten(ws, nNys, draws, perm);
      && (r.Success? ==> InRange(r.value, |ws|))
      && (r.Success? && |PositiveIndices(ws)| <= nNys ==> forall i :: 0 <= i < |ws| && Positive(ws[i]) ==> i in r.value)
      && (r.Success? && |PositiveIndices(ws)| > nNys ==>
            |r.value| == nNys && Distinct(r.value) && forall k :: 0 <= k < nNys ==> Positive(ws[r.value[k]]))
  {
    var pos := PositiveIndices(ws);
    PositiveIndicesMeaning(ws);
    if |pos| <= nNys {
      var r := pos + perm[..SliceEnd(|ws|, nNys - |pos|)];
      forall k | 0 <= k < |r| ensures 0 <= r[k] < |ws| {
        if k >= |pos| {
          assert r[k] == perm[k - |pos|];
        }
      }
      forall i | 0 <= i < |ws| && Positive(ws[i]) ensures i in r {
        var k :| 0 <= k < |pos| && pos[k] == i;
        assert r[k] == i;
      }
    }
  }

  /**
   * The fallback branch: all positive positions, topped up with distinct
   * non-positive ones, is a selection of `min(n_nys, n)` distinct positions.
   */
  lemma FallbackMeaning(ws: seq<Weight>, pos: seq<int>, rest: seq<int>, nNys: int)
    requires Increasing(pos) && forall k :: 0 <= k < |pos| ==> 0 <= pos[k] < |ws| && Positive(ws[pos[k]])
    requires forall i :: 0 <= i < |ws| && Positive(ws[i]) ==> i in pos
    requires Distinct(rest) && forall k :: 0 <= k < |rest| ==> 0 <= rest[k] < |ws| && !Positive(ws[rest[k]])
    requires |pos| + |rest| == |ws| && |pos| <= nNys
    ensures var r := pos + rest[..SliceEnd(|rest|, nNys - |pos|)];
      && InRange(r, |ws|) && Distinct(r)
      && |r| == (if nNys < |ws| then nNys else |ws|)
      && forall i :: 0 <= i < |ws| && Positive(ws[i]) ==> i in r
  {
    var top := rest[..SliceEnd(|rest|, nNys - |pos|)];
    assert Distinct(top) by {
      forall i, j | 0 <= i < j < |top| ensures top[i] != top[j] {
        assert top[i] == rest[i] && top[j] == rest[j];
      }
    }
    FallbackDistinct(ws, pos, top);
    forall i | 0 <= i < |ws| && Positive(ws[i]) ensures i in pos + top {
      var k :| 0 <= k < |pos| && pos[k] == i;
      assert (pos + top)[k] == i;
    }
  }

  /** The positive positions followed by distinct non-positive ones repeat nothing and miss no positive position. */
  lemma FallbackDistinct(ws: seq<Weight>, pos: seq<int>, top: seq<int>)
    requires Increasing(pos) && forall k :: 0 <= k < |pos| ==> 0 <= pos[k] < |ws| && Positive(ws[pos[k]])
    requires Distinct(top) && forall k :: 0 <= k < |top| ==> 0 <= top[k] < |ws| && !Positive(ws[top[k]])
    ensures InRange(pos + top, |ws|) && Distinct(pos + top)
  {
    var r := pos + top;
    forall k | 0 <= k < |r| ensures 0 <= r[k] < |ws| {
      if k < |pos| {
        assert r[k] == pos[k];
      } else {
        assert r[k] == top[k - |pos|];
      }
    }
    forall i, j | 0 <= i < j < |r| ensures r[i] != r[j] {
      if j < |pos| {
        assert r[i] == pos[i] && r[j] == pos[j];
      } else if i >= |pos| {
        assert r[i] == top[i - |pos|] && r[j] == top[j - |pos|];
      } else {
        assert r[i] == pos[i] && r[j] == top[j - |pos|];
        assert Positive(ws[r[i]]) && !Positive(ws[r[j]]);
      }
    }
  }


  // ----------------------------------------------------------- deweighting

  /** A vector that sums to 1 has a positive entry. */
  lemma CleansedHasPositive(st: Stabiliser, ws: seq<Weight>)
    requires |ws| > 0 && st.eps >= 0.0
    ensures |PositiveIndices(Finites(st.Cleansed(ws)))| >= 1
  {
    var c := st.Cleansed(ws);
    CleansedSumsToOne(st, ws);
    CleansedRange(st, ws);
    if forall k :: 0 <= k < |c| ==> c[k] <= 0.0 {
      TotalOfConstant(c, 0.0);
      assert false;
    }
    var k :| 0 <= k < |c| && c[k] > 0.0;
    PositiveIndicesMeaning(Finites(c));
    assert k in PositiveIndices(Finites(c));
  }

  /**
   * Deweighted resampling of a non-empty vector succeeds exactly when at
   * least one sample is asked for: the cleansed reciprocals always form a
   * valid distribution with a positive entry.
   */
  lemma DeweightedSucceeds(st: Stabiliser, ws: seq<Weight>, n: int, draws: seq<int>, perm: seq<int>)
    requires st.eps >= 0.0 && |ws| > 0 && IsPermutation(perm, |ws|)
    requires DrawFits(Finites(st.Cleansed(Reciprocals(ws))), n, draws)
    ensures st.WeightedResampling(Finites(st.Cleansed(Reciprocals(ws))), n, draws, perm).Success? <==> n > 0
  {
    CleansedRange(st, Reciprocals(ws));
    CleansedHasPositive(st, Reciprocals(ws));
  }

  /** A zero weight has an infinite reciprocal, cleansed to `eps`, so its position keeps a positive share and can be drawn. */
  lemma ZeroWeightSelectable(st: Stabiliser, ws: seq<Weight>, i: nat)
    requires st.eps > 0.0 && i < |ws| && ws[i] == Finite(0.0)
    ensures st.Cleansed(Reciprocals(ws))[i] > 0.0
  {
    var inv := Reciprocals(ws);
    var s := st.Staged(inv);
    StagedNonNegative(st, inv);
    assert s[i] == st.eps;
    DivPositive(s[i], Total(s));
  }

  /** Of two positive finite weights, the smaller gets at least the share of the larger after deweighting. */
  lemma DeweightReversesOrder(st: Stabiliser, ws: seq<Weight>, i: nat, j: nat)
    requires st.eps >= 0.0 && i < |ws| && j < |ws|
    requires ws[i].Finite? && ws[j].Finite? && 0.0 < ws[i].value <= ws[j].value
    ensures st.Cleansed(Reciprocals(ws))[i] >= st.Cleansed(Reciprocals(ws))[j]
  {
    var inv := Reciprocals(ws);
    var s := st.Staged(inv);
    ReciprocalMono(ws[i].value, ws[j].value);
    StageMono(st, 1.0 / ws[i].value, 1.0 / ws[j].value);
    StagedNonNegative(st, inv);
    if Total(s) != 0.0 {
      DivMono(s[i], s[j], Total(s));
    }
  }
}
