/**
 * The analytic priors: the uniform box with its strict-interior support, the
 * evenly spaced categorical grid, and the two mixed priors that place a
 * continuous block and a discrete block side by side in a configurable order.
 *
 * Random draws (the scrambled Sobol sequence or `torch.rand`, the categorical
 * and Bernoulli samplers) are parameters: a draw of `u` in [0, 1) per
 * continuous coordinate, a level index per categorical coordinate, a 0/1 value
 * per binary coordinate.
 */
module Priors {
  import opened Wrappers
  import opened Indexing

  type Row = seq<real>

  /** Product of the entries, as `prod` reduces a row. */
  function Prod(s: seq<real>): real
  {
    if s == [] then 1.0 else s[0] * Prod(s[1..])
  }

  /** `(1/(maxs - mins)).prod()` for bounds of equal length with every side of positive length. */
  function ReciprocalProd(mins: Row, maxs: Row): (v: real)
    requires |mins| == |maxs| && forall j :: 0 <= j < |mins| ==> mins[j] < maxs[j]
    ensures v > 0.0
  {
    if mins == [] then 1.0
    else
      var side := maxs[0] - mins[0];
      var rest := ReciprocalProd(mins[1..], maxs[1..]);
      assert 1.0 / side > 0.0;
      (1.0 / side) * rest
  }

  lemma PositiveProduct(a: real, b: real)
    requires a > 0.0 && b > 0.0
    ensures a * b > 0.0
  {
  }

  /** `p` multiplied `d` times. */
  function Power(p: real, d: nat): real
  {
    if d == 0 then 1.0 else p * Power(p, d - 1)
  }

  lemma {:induction false} ProdConstant(p: real, s: seq<real>)
    requires forall k :: 0 <= k < |s| ==> s[k] == p
    ensures Prod(s) == Power(p, |s|)
  {
    if s != [] {
      ProdConstant(p, s[1..]);
    }
  }

  lemma {:induction false} PowerBounds(p: real, d: nat)
    requires 0.0 < p <= 1.0
    ensures 0.0 < Power(p, d) <= 1.0
  {
    if d > 0 {
      PowerBounds(p, d - 1);
      assert p * Power(p, d - 1) <= Power(p, d - 1);
    }
  }

  /** `(1/n)^d * n^d == 1`: the categorical masses over all `n^d` grid points add up to 1. */
  lemma {:induction false} PowerReciprocal(n: nat, d: nat)
    requires n >= 1
    ensures Power(1.0 / n as real, d) * Power(n as real, d) == 1.0
  {
    if d > 0 {
      PowerReciprocal(n, d - 1);
      var a, b := Power(1.0 / n as real, d - 1), Power(n as real, d - 1);
      calc {
        Power(1.0 / n as real, d) * Power(n as real, d);
        (1.0 / n as real) * a * (n as real * b);
        ((1.0 / n as real) * n as real) * (a * b);
        1.0;
      }
    }
  }

  /** A log-density value: `LogOf(v)` is `log v` for `v > 0`, `LogZero` is `log 0 = -inf`. */
  datatype LogDensity = LogOf(arg: real) | LogZero

  /** The density a log-density stands for. */
  function Exp(l: LogDensity): real
  {
    match l
    case LogOf(v) => v
    case LogZero => 0.0
  }

  // ---------------------------------------------------------------- Uniform

  /** `Uniform(mins, maxs, n_dims)`: the box `[mins, maxs]` in `n_dims` coordinates. */
  datatype Uniform = Uniform(mins: Row, maxs: Row, nDims: nat)
  {
    /** Bounds of the right length and every side of positive length, so that the density is finite. */
    predicate Valid()
    {
      && |mins| == nDims && |maxs| == nDims
      && forall j :: 0 <= j < nDims ==> mins[j] < maxs[j]
    }

    /** `(1/(maxs - mins)).prod()`: the reciprocal of the volume of the box. */
    function InvVolume(): (v: real)
      requires Valid()
      ensures v > 0.0
    {
      ReciprocalProd(mins, maxs)
    }

    /** A row lies strictly inside the box: no coordinate at or above its max, none at or below its min. */
    predicate InSupport(x: Row)
      requires Valid() && |x| == nDims
    {
      !((exists j :: 0 <= j < nDims && x[j] >= maxs[j]) || (exists j :: 0 <= j < nDims && x[j] <= mins[j]))
    }

    /** `pdf` of one row: the constant density masked by the support indicator. */
    function Density(x: Row): (d: real)
      requires Valid() && |x| == nDims
      ensures d >= 0.0
      ensures d > 0.0 <==> InSupport(x)
    {
      if InSupport(x) then InvVolume() else 0.0
    }

    /** `pdf` over a batch: one density per row, aligned with the input. */
    function Pdf(samples: seq<Row>): (r: seq<real>)
      requires Valid() && forall i :: 0 <= i < |samples| ==> |samples[i]| == nDims
      ensures |r| == |samples|
      ensures forall i :: 0 <= i < |samples| ==> r[i] == Density(samples[i])
    {
      seq(|samples|, i requires 0 <= i < |samples| => Density(samples[i]))
    }

    /** `logpdf` of one row as written: the log density times the 0/1 support mask, so 0 outside the box. */
    function LogDensityAsWritten(x: Row): (r: LogDensity)
      requires Valid() && |x| == nDims
      ensures r.LogOf? && r.arg > 0.0
      ensures InSupport(x) ==> Exp(r) == Density(x)
    {
      // log(v) * 0 == 0 == log(1)
      if InSupport(x) then LogOf(InvVolume()) else LogOf(1.0)
    }

    /** `logpdf` of one row with the support applied as a density of 0: `-inf` outside the box. */
    function LogDensityOf(x: Row): (r: LogDensity)
      requires Valid() && |x| == nDims
      ensures Exp(r) == Density(x)
      ensures r == LogZero <==> Density(x) == 0.0
      ensures r.LogOf? ==> r.arg > 0.0
    {
      if InSupport(x) then LogOf(InvVolume()) else LogZero
    }

    /** `sample` for one draw `u`: the affine map `mins + (maxs - mins) * u`. */
    function MapDraw(u: Row): (x: Row)
      requires Valid() && |u| == nDims
      ensures |x| == nDims
    {
      seq(nDims, j requires 0 <= j < nDims => Affine(mins[j], maxs[j] - mins[j], u[j]))
    }

    /** `sample(n)`: one mapped row per draw. */
    function Sample(draws: seq<Row>): (r: seq<Row>)
      requires Valid() && forall i :: 0 <= i < |draws| ==> |draws[i]| == nDims
      ensures |r| == |draws|
      ensures forall i :: 0 <= i < |draws| ==> r[i] == MapDraw(draws[i])
    {
      seq(|draws|, i requires 0 <= i < |draws| => MapDraw(draws[i]))
    }
  }

  /** The density is positive exactly on the open box, and there it is the reciprocal volume. */
  lemma UniformSupport(p: Uniform, x: Row)
    requires p.Valid() && |x| == p.nDims
    ensures p.Density(x) > 0.0 <==> forall j :: 0 <= j < p.nDims ==> p.mins[j] < x[j] < p.maxs[j]
    ensures p.Density(x) > 0.0 ==> p.Density(x) == p.InvVolume()
    ensures p.Density(x) == 0.0 || p.Density(x) == p.InvVolume()
  {
  }

  /** A point on a face of the box has density 0. */
  lemma UniformBoundary(p: Uniform, x: Row, j: nat)
    requires p.Valid() && |x| == p.nDims && j < p.nDims
    requires x[j] == p.mins[j] || x[j] == p.maxs[j]
    ensures p.Density(x) == 0.0
  {
  }

  /** Every draw in `[0, 1)` lands in `[mins, maxs)`; a draw strictly above 0 lands inside, where the density is the reciprocal volume. */
  lemma {:induction false} UniformSampleInBox(p: Uniform, u: Row)
    requires p.Valid() && |u| == p.nDims
    requires forall j :: 0 <= j < p.nDims ==> 0.0 <= u[j] < 1.0
    ensures forall j :: 0 <= j < p.nDims ==> p.mins[j] <= p.MapDraw(u)[j] < p.maxs[j]
    ensures (forall j :: 0 <= j < p.nDims ==> u[j] > 0.0) ==> p.Density(p.MapDraw(u)) == p.InvVolume()
  {
    var x := p.MapDraw(u);
    forall j | 0 <= j < p.nDims
      ensures p.mins[j] <= x[j] < p.maxs[j]
      ensures u[j] > 0.0 ==> p.mins[j] < x[j]
    {
      AffineBelow(p.mins[j], p.maxs[j] - p.mins[j], u[j]);
      AffineAbove(p.mins[j], p.maxs[j] - p.mins[j], u[j]);
    }
  }

  /** One coordinate of a uniform sample: `lo + side * u`. */
  function Affine(lo: real, side: real, u: real): real
  {
    lo + side * u
  }

  /** A draw below 1 stays below the far end of its side. */
  lemma AffineBelow(lo: real, side: real, u: real)
    requires side > 0.0 && u < 1.0
    ensures Affine(lo, side, u) < lo + side
  {
    assert side * (1.0 - u) > 0.0;
  }

  /** A draw of at least 0 stays at or above the near end of its side, strictly above for a draw above 0. */
  lemma AffineAbove(lo: real, side: real, u: real)
    requires side > 0.0 && 0.0 <= u
    ensures lo <= Affine(lo, side, u)
    ensures u > 0.0 ==> lo < Affine(lo, side, u)
  {
  }

  /** A draw of exactly 0 in some coordinate (the scrambled sequence and `rand` can both give it) yields a sample of density 0. */
  lemma UniformSampleOnFace(p: Uniform, u: Row, j: nat)
    requires p.Valid() && |u| == p.nDims && j < p.nDims && u[j] == 0.0
    ensures p.MapDraw(u)[j] == p.mins[j]
    ensures p.Density(p.MapDraw(u)) == 0.0
  {
    UniformBoundary(p, p.MapDraw(u), j);
  }

  /** As written, `logpdf` outside the box is `log 1 = 0`, a density of 1 where `pdf` gives 0. */
  lemma UniformLogDensityAsWrittenOutside(p: Uniform, x: Row)
    requires p.Valid() && |x| == p.nDims && !p.InSupport(x)
    ensures Exp(p.LogDensityAsWritten(x)) == 1.0
    ensures p.Density(x) == 0.0
    ensures Exp(p.LogDensityAsWritten(x)) != p.Density(x)
  {
  }

  /** Inside the box the written `logpdf` agrees with the corrected one. */
  lemma UniformLogDensityAsWrittenInside(p: Uniform, x: Row)
    requires p.Valid() && |x| == p.nDims && p.InSupport(x)
    ensures p.LogDensityAsWritten(x) == p.LogDensityOf(x)
    ensures Exp(p.LogDensityAsWritten(x)) == p.Density(x)
  {
  }

  /** The unit square: density 0 at the corner `[0, 0]`, 1 at the centre, and `logpdf` at the corner as written gives 0. */
  lemma UnitSquare()
    ensures Uniform([0.0, 0.0], [1.0, 1.0], 2).Valid()
    ensures Uniform([0.0, 0.0], [1.0, 1.0], 2).Density([0.0, 0.0]) == 0.0
    ensures Uniform([0.0, 0.0], [1.0, 1.0], 2).Density([0.5, 0.5]) == 1.0
    ensures Uniform([0.0, 0.0], [1.0, 1.0], 2).LogDensityAsWritten([0.0, 0.0]) == LogOf(1.0)
  {
    var p := Uniform([0.0, 0.0], [1.0, 1.0], 2);
    assert [0.0, 0.0][1..] == [0.0] && [1.0, 1.0][1..] == [1.0];
    assert ReciprocalProd([0.0], [1.0]) == 1.0 * ReciprocalProd([], []);
    assert p.InvVolume() == 1.0;
    assert p.InSupport([0.5, 0.5]);
    UniformBoundary(p, [0.0, 0.0], 0);
  }

  // ------------------------------------------------------------ Categorical

  /** `CategoricalPrior(n_dims, min, max, n_discrete)`: `n_discrete` evenly spaced levels per coordinate. */
  datatype Categorical = Categorical(nDims: nat, min: real, max: real, nDiscrete: nat)
  {
    /** At least one level: with none, the mass `unique()[0]` of an empty tensor raises. */
    predicate Valid()
    {
      nDiscrete >= 1
    }

    /** Level `i` of `linspace(min, max, n_discrete)`; a single level is `min`. */
    function Level(i: nat): real
      requires Valid() && i < nDiscrete
    {
      if nDiscrete == 1 then min
      else
        var step := (max - min) / ((nDiscrete - 1) as real);
        min + (i as real) * step
    }

    /** `discrete_candidates`. */
    function Candidates(): (c: seq<real>)
      requires Valid()
      ensures |c| == nDiscrete
      ensures forall i :: 0 <= i < nDiscrete ==> c[i] == Level(i)
    {
      seq(nDiscrete, i requires 0 <= i < nDiscrete => Level(i))
    }

    /** `pmf`: the mass of each level. */
    function Pmf(): real
      requires Valid()
    {
      1.0 / nDiscrete as real
    }

    /** Every index of a draw names a level. */
    predicate ValidIndices(indices: seq<seq<nat>>)
    {
      forall i, j :: 0 <= i < |indices| && 0 <= j < |indices[i]| ==> indices[i][j] < nDiscrete
    }

    /** The levels named by one row of indices. */
    function Levels(row: seq<nat>): (x: Row)
      requires Valid() && forall j :: 0 <= j < |row| ==> row[j] < nDiscrete
      ensures |x| == |row|
    {
      seq(|row|, j requires 0 <= j < |row| => Level(row[j]))
    }

    /** `sample_both`: the levels at the drawn indices, and the indices themselves. */
    function SampleBoth(indices: seq<seq<nat>>): (r: (seq<Row>, seq<seq<nat>>))
      requires Valid() && ValidIndices(indices)
      ensures |r.0| == |indices| && r.1 == indices
      ensures forall i :: 0 <= i < |indices| ==> r.0[i] == Levels(indices[i])
    {
      (seq(|indices|, i requires 0 <= i < |indices| => Levels(indices[i])), indices)
    }

    /** `sample`: the first half of `sample_both`. */
    function Sample(indices: seq<seq<nat>>): seq<Row>
      requires Valid() && ValidIndices(indices)
    {
      SampleBoth(indices).0
    }

    /** `pdf` of one row: the mass multiplied once per column, whatever the values. */
    function Density(x: Row): (d: real)
      requires Valid()
      ensures 0.0 < d <= 1.0
    {
      var masses := seq(|x|, _ => Pmf());
      ProdConstant(Pmf(), masses);
      PowerBounds(Pmf(), |x|);
      Prod(masses)
    }
  }

  /** Levels run from `min` to `max` inclusive, in increasing order when `min < max`. */
  lemma CategoricalLevels(c: Categorical, i: nat, k: nat)
    requires c.Valid() && i < c.nDiscrete && k < c.nDiscrete
    ensures c.Level(0) == c.min
    ensures c.nDiscrete >= 2 ==> c.Level(c.nDiscrete - 1) == c.max
    ensures c.min <= c.max ==> c.min <= c.Level(i) <= c.max
    ensures c.min < c.max && i < k ==> c.Level(i) < c.Level(k)
  {
    if c.nDiscrete >= 2 {
      var m := (c.nDiscrete - 1) as real;
      var step := (c.max - c.min) / m;
      assert c.Level(c.nDiscrete - 1) == c.min + m * step;
      assert m * step == c.max - c.min;
      if c.min <= c.max {
        assert step >= 0.0;
        assert (i as real) * step <= m * step;
      }
      if c.min < c.max && i < k {
        assert step > 0.0;
        assert (i as real) * step < (k as real) * step;
      }
    }
  }

  /** When `min < max` the levels are distinct, so a sampled value determines its index. */
  lemma CategoricalIndexRecoverable(c: Categorical, i: nat, k: nat)
    requires c.Valid() && i < c.nDiscrete && k < c.nDiscrete && c.min < c.max
    ensures c.Level(i) == c.Level(k) <==> i == k
  {
    if i < k {
      CategoricalLevels(c, i, k);
    } else if k < i {
      CategoricalLevels(c, k, i);
    }
  }

  /** Each sampled value is the candidate at its drawn index and lies within `[min, max]`. */
  lemma CategoricalSampleOnGrid(c: Categorical, indices: seq<seq<nat>>, i: nat, j: nat)
    requires c.Valid() && c.ValidIndices(indices) && i < |indices| && j < |indices[i]|
    ensures c.Sample(indices)[i][j] == c.Candidates()[indices[i][j]]
    ensures c.min <= c.max ==> c.min <= c.Sample(indices)[i][j] <= c.max
  {
    CategoricalLevels(c, indices[i][j], indices[i][j]);
  }

  /** The mass of a row of `d` coordinates is `(1/n_discrete)^d`, in `(0, 1]`, and sums to 1 over the `n_discrete^d` grid points. */
  lemma CategoricalDensity(c: Categorical, x: Row)
    requires c.Valid()
    ensures c.Density(x) == Power(c.Pmf(), |x|)
    ensures 0.0 < c.Density(x) <= 1.0
    ensures c.Density(x) * Power(c.nDiscrete as real, |x|) == 1.0
  {
    ProdConstant(c.Pmf(), seq(|x|, _ => c.Pmf()));
    PowerBounds(c.Pmf(), |x|);
    PowerReciprocal(c.nDiscrete, |x|);
  }

  // ----------------------------------------------------------------- Layout

  /** The block layout of a mixed prior: the widths of the two blocks and which comes first. */
  datatype Layout = Layout(nCont: nat, nDisc: nat, continuousFirst: bool)
  {
    /** `torch.hstack` of one continuous row and one discrete row, in the configured order. */
    function Join(cont: Row, disc: Row): (x: Row)
      ensures |x| == |cont| + |disc|
    {
      if continuousFirst then cont + disc else disc + cont
    }

    /**
     * `separate_samples` on one row: cut after the leading block's width
     * (the continuous width or the discrete width, by the order); a cut
     * beyond the row clamps as a slice does.
     */
    function Split(x: Row): (r: (Row, Row))
      ensures |r.0| + |r.1| == |x|
      ensures |x| == nCont + nDisc ==> |r.0| == nCont && |r.1| == nDisc
    {
      if continuousFirst then
        var k := SliceEnd(|x|, nCont);
        (x[..k], x[k..])
      else
        var k := SliceEnd(|x|, nDisc);
        (x[k..], x[..k])
    }

    /** `hstack` over a batch: row by row. */
    function JoinRows(conts: seq<Row>, discs: seq<Row>): (x: seq<Row>)
      requires |conts| == |discs|
      ensures |x| == |conts|
      ensures forall i :: 0 <= i < |conts| ==> x[i] == Join(conts[i], discs[i])
    {
      seq(|conts|, i requires 0 <= i < |conts| => Join(conts[i], discs[i]))
    }
  }

  /** Splitting a joined row gives back both blocks, for either order. */
  lemma SplitJoin(l: Layout, cont: Row, disc: Row)
    requires |cont| == l.nCont && |disc| == l.nDisc
    ensures l.Split(l.Join(cont, disc)) == (cont, disc)
  {
    var x := l.Join(cont, disc);
    if l.continuousFirst {
      assert x[..|cont|] == cont && x[|cont|..] == disc;
    } else {
      assert x[..|disc|] == disc && x[|disc|..] == cont;
    }
  }

  /** Joining the two parts of a split restores the row, whatever its width. */
  lemma JoinSplit(l: Layout, x: Row)
    ensures l.Join(l.Split(x).0, l.Split(x).1) == x
  {
    if l.continuousFirst {
      var k := SliceEnd(|x|, l.nCont);
      assert x[..k] + x[k..] == x;
    } else {
      var k := SliceEnd(|x|, l.nDisc);
      assert x[..k] + x[k..] == x;
    }
  }

  /** The uniform block of a mixed prior: `min * ones`, `max * ones` over the continuous width. */
  function BlockUniform(n: nat, lo: real, hi: real): (p: Uniform)
    ensures p.nDims == n && |p.mins| == n && |p.maxs| == n
    ensures lo < hi ==> p.Valid()
  {
    Uniform(seq(n, _ => lo), seq(n, _ => hi), n)
  }

  // ------------------------------------------------------ MixedCategorical

  /** `MixedCategoricalPrior`: a uniform block and a categorical block sharing `min` and `max`. */
  datatype MixedCategorical = MixedCategorical(layout: Layout, nDiscrete: nat, min: real, max: real)
  {
    predicate Valid()
    {
      min < max && nDiscrete >= 1
    }

    function Cont(): (p: Uniform)
      requires Valid()
      ensures p.Valid() && p.nDims == layout.nCont
    {
      BlockUniform(layout.nCont, min, max)
    }

    function Disc(): (c: Categorical)
      requires Valid()
      ensures c.Valid() && c.nDims == layout.nDisc
    {
      Categorical(layout.nDisc, min, max, nDiscrete)
    }

    /** Draws of the right shape: `n_cont` values in `[0, 1)` and `n_disc` level indices per row. */
    predicate Draws(draws: seq<Row>, indices: seq<seq<nat>>)
    {
      && |draws| == |indices|
      && (forall i :: 0 <= i < |draws| ==> |draws[i]| == layout.nCont)
      && (forall i :: 0 <= i < |indices| ==> |indices[i]| == layout.nDisc)
      && (forall i, j :: 0 <= i < |indices| && 0 <= j < |indices[i]| ==> indices[i][j] < nDiscrete)
    }

    /** `sample`: the uniform rows and the categorical rows joined in the configured order. */
    function Sample(draws: seq<Row>, indices: seq<seq<nat>>): (r: seq<Row>)
      requires Valid() && Draws(draws, indices)
      ensures |r| == |draws|
      ensures forall i :: 0 <= i < |r| ==> |r[i]| == layout.nCont + layout.nDisc
    {
      layout.JoinRows(Cont().Sample(draws), Disc().Sample(indices))
    }

    /**
     * `sample_both`: the joined samples, and the same rows with the
     * categorical block replaced by its level indices (as numbers, as
     * `hstack` promotes them).
     */
    function SampleBoth(draws: seq<Row>, indices: seq<seq<nat>>): (r: (seq<Row>, seq<Row>))
      requires Valid() && Draws(draws, indices)
      ensures |r.0| == |draws| && |r.1| == |draws|
    {
      var cont := Cont().Sample(draws);
      var both := Disc().SampleBoth(indices);
      (layout.JoinRows(cont, both.0), layout.JoinRows(cont, seq(|indices|, i requires 0 <= i < |indices| => AsReals(both.1[i]))))
    }

    /**
     * `pdf` of one joint row: the product of the two block densities, which
     * is 0 exactly when the continuous block is outside the open box.
     */
    function Density(x: Row): (d: real)
      requires Valid() && |x| == layout.nCont + layout.nDisc
      ensures d >= 0.0
      ensures d == 0.0 <==> !Cont().InSupport(layout.Split(x).0)
    {
      var parts := layout.Split(x);
      Cont().Density(parts.0) * Disc().Density(parts.1)
    }
  }

  function AsReals(s: seq<nat>): (r: seq<real>)
    ensures |r| == |s| && forall j :: 0 <= j < |s| ==> r[j] == s[j] as real
  {
    seq(|s|, j requires 0 <= j < |s| => s[j] as real)
  }

  /** `sample` puts each row's uniform draw and categorical levels where `separate_samples` finds them. */
  lemma MixedCategoricalSampleSplits(p: MixedCategorical, draws: seq<Row>, indices: seq<seq<nat>>, i: nat)
    requires p.Valid() && p.Draws(draws, indices) && i < |draws|
    ensures p.layout.Split(p.Sample(draws, indices)[i]) == (p.Cont().MapDraw(draws[i]), p.Disc().Levels(indices[i]))
  {
    SplitJoin(p.layout, p.Cont().MapDraw(draws[i]), p.Disc().Levels(indices[i]));
  }

  /**
   * Both outputs of `sample_both` keep the same order and the same
   * continuous block, and the level in the first output at each categorical
   * coordinate is the candidate named by the index in the second.
   */
  lemma MixedCategoricalSampleBoth(p: MixedCategorical, draws: seq<Row>, indices: seq<seq<nat>>, i: nat)
    requires p.Valid() && p.Draws(draws, indices) && i < |draws|
    ensures var r := p.SampleBoth(draws, indices);
      && p.layout.Split(r.0[i]).0 == p.layout.Split(r.1[i]).0 == p.Cont().MapDraw(draws[i])
      && p.layout.Split(r.1[i]).1 == AsReals(indices[i])
      && forall j :: 0 <= j < p.layout.nDisc ==> p.layout.Split(r.0[i]).1[j] == p.Disc().Candidates()[indices[i][j]]
  {
    var cont := p.Cont().MapDraw(draws[i]);
    SplitJoin(p.layout, cont, p.Disc().Levels(indices[i]));
    SplitJoin(p.layout, cont, AsReals(indices[i]));
  }

  // ----------------------------------------------------------- MixedBinary

  /** `MixedBinaryPrior`: a uniform block and a block of independent fair bits. */
  datatype MixedBinary = MixedBinary(layout: Layout, min: real, max: real)
  {
    predicate Valid()
    {
      min < max
    }

    /** The uniform block, as `set_prior` builds it (the same construction as the categorical mixture's). */
    function Cont(): Uniform
    {
      BlockUniform(layout.nCont, min, max)
    }

    /** Draws of the right shape: `n_cont` values per row and `n_binary` Bernoulli outcomes, each 0 or 1, per row. */
    predicate Draws(draws: seq<Row>, bits: seq<Row>)
    {
      && |draws| == |bits|
      && (forall i :: 0 <= i < |draws| ==> |draws[i]| == layout.nCont)
      && (forall i :: 0 <= i < |bits| ==> |bits[i]| == layout.nDisc)
      && (forall i, j :: 0 <= i < |bits| && 0 <= j < |bits[i]| ==> bits[i][j] == 0.0 || bits[i][j] == 1.0)
    }

    /** `sample`: the uniform rows and the Bernoulli rows joined in the configured order. */
    function Sample(draws: seq<Row>, bits: seq<Row>): (r: seq<Row>)
      requires Valid() && Draws(draws, bits)
      ensures |r| == |draws|
      ensures forall i :: 0 <= i < |r| ==> |r[i]| == layout.nCont + layout.nDisc
    {
      layout.JoinRows(Cont().Sample(draws), bits)
    }

    /** Every entry is 0 or 1: the support `Bernoulli.log_prob` validates its input against. */
    predicate IsBits(b: Row)
    {
      forall j :: 0 <= j < |b| ==> b[j] == 0.0 || b[j] == 1.0
    }

    /**
     * `pdf` of one joint row: the uniform density of the continuous block
     * times `0.5` per bit; a bit outside `{0, 1}` is rejected by the
     * Bernoulli distribution (`None`).
     */
    function Density(x: Row): (r: Option<real>)
      requires Valid() && |x| == layout.nCont + layout.nDisc
      ensures r.None? <==> !IsBits(layout.Split(x).1)
      ensures r.Some? ==> r.value >= 0.0
      ensures r.Some? ==> (r.value == 0.0 <==> !Cont().InSupport(layout.Split(x).0))
    {
      var parts := layout.Split(x);
      if !IsBits(parts.1) then None
      else
        PowerBounds(0.5, layout.nDisc);
        Some(Cont().Density(parts.0) * Power(0.5, layout.nDisc))
    }

    /**
     * `logpdf` of one joint row as written: the written uniform `logpdf` of
     * the continuous block plus `log 0.5` per bit, i.e. the logarithm of
     * the product of their arguments.
     */
    function LogDensityAsWritten(x: Row): (r: Option<LogDensity>)
      requires Valid() && |x| == layout.nCont + layout.nDisc
      ensures r.None? <==> !IsBits(layout.Split(x).1)
      ensures r.Some? ==> r.value.LogOf? && r.value.arg > 0.0
      ensures r.Some? && Cont().InSupport(layout.Split(x).0) ==> Exp(r.value) == Density(x).value
    {
      var parts := layout.Split(x);
      if !IsBits(parts.1) then None
      else
        var a, b := Cont().LogDensityAsWritten(parts.0).arg, Power(0.5, layout.nDisc);
        PowerBounds(0.5, layout.nDisc);
        PositiveProduct(a, b);
        Some(LogOf(a * b))
    }
  }

  /**
   * The written `logpdf` inherits the uniform block's defect: outside the
   * box it stands for the density `0.5^n_binary` where `pdf` gives 0.
   */
  lemma MixedBinaryLogDensityAsWrittenOutside(p: MixedBinary, x: Row)
    requires p.Valid() && |x| == p.layout.nCont + p.layout.nDisc
    requires p.IsBits(p.layout.Split(x).1) && !p.Cont().InSupport(p.layout.Split(x).0)
    ensures p.Density(x) == Some(0.0)
    ensures Exp(p.LogDensityAsWritten(x).value) == Power(0.5, p.layout.nDisc) > 0.0
  {
    PowerBounds(0.5, p.layout.nDisc);
    UniformLogDensityAsWrittenOutside(p.Cont(), p.layout.Split(x).0);
  }

  /** `separate_samples` recovers both blocks of every row `sample` builds. */
  lemma MixedBinarySampleSplits(p: MixedBinary, draws: seq<Row>, bits: seq<Row>, i: nat)
    requires p.Valid() && p.Draws(draws, bits) && i < |draws|
    ensures p.layout.Split(p.Sample(draws, bits)[i]) == (p.Cont().MapDraw(draws[i]), bits[i])
  {
    SplitJoin(p.layout, p.Cont().MapDraw(draws[i]), bits[i]);
  }
}
