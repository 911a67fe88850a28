/** The background model: a per-cell mean and spread of the empty scene.

    During warm-up every frame is folded into the background with Welford's
    update (the mean moves by `(x - mean) / (n + 1)`, the sum of squared
    deviations by `(x - mean') * (x - mean)`); when the warm-up count reaches
    `runningAverageSize` the sums of squares become standard deviations,
    `sqrt(m2 / (n - 1))`. Afterwards, frames without lasting activity are
    blended in with a rolling weight. The square root is a parameter.
 */
module Background {
  import opened Config
  import opened Numerics

  /** A FRAME_HEIGHT x FRAME_WIDTH grid of temperatures, indexed `[row][column]`. */
  type Grid = seq<seq<real>>

  predicate IsGrid(g: Grid) {
    |g| == FRAME_HEIGHT && forall i :: 0 <= i < |g| ==> |g[i]| == FRAME_WIDTH
  }

  predicate InGrid(i: int, j: int) {
    0 <= i < FRAME_HEIGHT && 0 <= j < FRAME_WIDTH
  }

  /** `pixel_averages`, `pixel_variance` and `num_background_frames`. */
  datatype Background = Background(averages: Grid, variances: Grid, count: int)

  predicate ValidBackground(bg: Background) {
    IsGrid(bg.averages) && IsGrid(bg.variances) && bg.count >= 0
  }

  /** Combine three grids cell by cell. */
  function Cellwise(a: Grid, b: Grid, c: Grid, f: (real, real, real) -> real): (r: Grid)
    requires IsGrid(a) && IsGrid(b) && IsGrid(c)
    ensures IsGrid(r)
    ensures forall i, j :: InGrid(i, j) ==> r[i][j] == f(a[i][j], b[i][j], c[i][j])
  {
    seq(FRAME_HEIGHT, i requires 0 <= i < FRAME_HEIGHT =>
      seq(FRAME_WIDTH, j requires 0 <= j < FRAME_WIDTH => f(a[i][j], b[i][j], c[i][j])))
  }

  const ZeroGrid: Grid := seq(FRAME_HEIGHT, i => seq(FRAME_WIDTH, j => 0.0))

  /** Welford's mean after a sample `x` joins `n` earlier samples. */
  function WelfordMean(mean: real, x: real, n: nat): real {
    mean + (x - mean) / (n + 1) as real
  }

  /** Welford's sum of squared deviations after the same step. */
  function WelfordM2(mean: real, m2: real, x: real, n: nat): real {
    m2 + (x - WelfordMean(mean, x, n)) * (x - mean)
  }

  /** `is_background_finished`. */
  predicate IsBackgroundFinished(bg: Background, runningAverageSize: int) {
    bg.count >= runningAverageSize
  }

  /** `reset_background`: only the counter goes back to zero. */
  function ResetBackground(bg: Background): (r: Background)
    ensures r.count == 0
    ensures r.averages == bg.averages && r.variances == bg.variances
  {
    bg.(count := 0)
  }

  /** `build_background`: fold one frame into the warm-up background. The first
      frame becomes the mean with zero spread; when the count reaches
      `runningAverageSize`, the spread becomes `sqrt(m2 / (count - 1))`, which
      divides by zero if that size is 1. */
  function BuildBackground(bg: Background, frame: Grid, runningAverageSize: int, sqrt: real -> real): (r: Background)
    requires ValidBackground(bg) && IsGrid(frame)
    requires bg.count + 1 == runningAverageSize ==> runningAverageSize >= 2
    ensures ValidBackground(r)
    ensures r.count == bg.count + 1
    ensures bg.count == 0 ==> r.averages == frame
    ensures r.count != runningAverageSize ==> forall i, j :: InGrid(i, j) ==>
              r.variances[i][j] == (if bg.count == 0 then 0.0 else WelfordM2(bg.averages[i][j], bg.variances[i][j], frame[i][j], bg.count))
    ensures bg.count > 0 ==> forall i, j :: InGrid(i, j) ==>
              r.averages[i][j] == WelfordMean(bg.averages[i][j], frame[i][j], bg.count)
  {
    var n: nat := bg.count;
    var averages := if n == 0 then frame else Cellwise(bg.averages, bg.variances, frame, (a, v, x) => WelfordMean(a, x, n));
    var m2 := if n == 0 then ZeroGrid else Cellwise(bg.averages, bg.variances, frame, (a, v, x) => WelfordM2(a, v, x, n));
    var variances := if n + 1 == runningAverageSize
      then Cellwise(m2, m2, m2, (v, v', v'') => sqrt(v / (n as real)))
      else m2;
    Background(averages, variances, n + 1)
  }

  /** Every frame of a run is a full grid. */
  predicate AllGrids(frames: seq<Grid>) {
    forall k :: 0 <= k < |frames| ==> IsGrid(frames[k])
  }

  /** The value of one cell across a run of frames. */
  function Column(frames: seq<Grid>, i: int, j: int): (r: seq<real>)
    requires AllGrids(frames) && InGrid(i, j)
    ensures |r| == |frames|
  {
    if |frames| == 0 then [] else Column(frames[..|frames| - 1], i, j) + [frames[|frames| - 1][i][j]]
  }

  function Sum(xs: seq<real>): real {
    if |xs| == 0 then 0.0 else Sum(xs[..|xs| - 1]) + xs[|xs| - 1]
  }

  function SumSq(xs: seq<real>): real {
    if |xs| == 0 then 0.0 else SumSq(xs[..|xs| - 1]) + xs[|xs| - 1] * xs[|xs| - 1]
  }

  /** What Welford's method keeps: the mean times the count is the sum of the
      samples, and `m2` is the sum of squared deviations from that mean,
      written as `sum(x^2) - mean * sum(x)`. */
  predicate WelfordInvariant(mean: real, m2: real, xs: seq<real>) {
    mean * |xs| as real == Sum(xs) && m2 == SumSq(xs) - mean * Sum(xs)
  }

  /** The finished background: the mean as above and the spread as the sample
      standard deviation. */
  predicate FinishedCell(mean: real, deviation: real, xs: seq<real>, sqrt: real -> real)
    requires |xs| >= 2
  {
    mean * |xs| as real == Sum(xs) && deviation == sqrt((SumSq(xs) - mean * Sum(xs)) / (|xs| - 1) as real)
  }

  /** The algebra of one Welford step. */
  lemma {:induction false} WelfordAlgebra(mean: real, m2: real, s: real, q: real, n: real, x: real)
    requires n >= 1.0 && mean * n == s && m2 == q - mean * s
    ensures var mean' := mean + (x - mean) / (n + 1.0);
            mean' * (n + 1.0) == s + x && m2 + (x - mean') * (x - mean) == q + x * x - mean' * (s + x)
  {
    var e := x - mean;
    var d := e / (n + 1.0);
    assert d * (n + 1.0) == e;
    var mean' := mean + d;
    assert mean' * (n + 1.0) == mean * n + mean + e;
    assert s + mean == mean * (n + 1.0);
    assert d * (s + mean) == mean * e by {
      calc {
        d * (s + mean);
        d * (mean * (n + 1.0));
        mean * (d * (n + 1.0));
        mean * e;
      }
    }
    assert (x - mean') * e == e * e - d * e;
    assert mean' * (s + x) == mean * s + mean * x + d * (s + x);
    assert d * (s + x) == d * (s + mean) + d * e;
  }

  lemma {:induction false} WelfordStep(mean: real, m2: real, xs: seq<real>, x: real)
    requires |xs| >= 1 && WelfordInvariant(mean, m2, xs)
    ensures WelfordInvariant(WelfordMean(mean, x, |xs|), WelfordM2(mean, m2, x, |xs|), xs + [x])
  {
    var ys := xs + [x];
    assert ys[..|ys| - 1] == xs;
    assert Sum(ys) == Sum(xs) + x;
    assert SumSq(ys) == SumSq(xs) + x * x;
    WelfordAlgebra(mean, m2, Sum(xs), SumSq(xs), |xs| as real, x);
  }

  /** Fold a run of frames into the background, one `build_background` each. */
  function BuildAll(bg: Background, frames: seq<Grid>, runningAverageSize: int, sqrt: real -> real): (r: Background)
    requires ValidBackground(bg) && AllGrids(frames) && runningAverageSize >= 2
    ensures ValidBackground(r) && r.count == bg.count + |frames|
  {
    if |frames| == 0 then bg
    else BuildBackground(BuildAll(bg, frames[..|frames| - 1], runningAverageSize, sqrt), frames[|frames| - 1], runningAverageSize, sqrt)
  }

  /** One `build_background` step on one cell keeps Welford's invariant, as
      long as it is not the step that ends warm-up. */
  lemma {:induction false} BuildCellStep(p: Background, frame: Grid, runningAverageSize: int, sqrt: real -> real,
                                         xs: seq<real>, i: int, j: int)
    requires ValidBackground(p) && IsGrid(frame) && InGrid(i, j) && runningAverageSize >= 2
    requires p.count == |xs| >= 1 && p.count + 1 < runningAverageSize
    requires WelfordInvariant(p.averages[i][j], p.variances[i][j], xs)
    ensures var r := BuildBackground(p, frame, runningAverageSize, sqrt);
            WelfordInvariant(r.averages[i][j], r.variances[i][j], xs + [frame[i][j]])
  {
    WelfordStep(p.averages[i][j], p.variances[i][j], xs, frame[i][j]);
  }

  /** The step that ends warm-up turns Welford's invariant into the finished
      mean and standard deviation. */
  lemma {:induction false} FinishCellStep(p: Background, frame: Grid, runningAverageSize: int, sqrt: real -> real,
                                          xs: seq<real>, i: int, j: int)
    requires ValidBackground(p) && IsGrid(frame) && InGrid(i, j) && runningAverageSize >= 2
    requires p.count == |xs| >= 1 && p.count + 1 == runningAverageSize
    requires WelfordInvariant(p.averages[i][j], p.variances[i][j], xs)
    ensures var r := BuildBackground(p, frame, runningAverageSize, sqrt);
            FinishedCell(r.averages[i][j], r.variances[i][j], xs + [frame[i][j]], sqrt)
  {
    WelfordStep(p.averages[i][j], p.variances[i][j], xs, frame[i][j]);
  }

  lemma {:induction false} ColumnLast(frames: seq<Grid>, i: int, j: int)
    requires AllGrids(frames) && InGrid(i, j) && |frames| >= 1
    ensures AllGrids(frames[..|frames| - 1])
    ensures Column(frames, i, j) == Column(frames[..|frames| - 1], i, j) + [frames[|frames| - 1][i][j]]
  {
  }

  /** Before warm-up ends, every cell of the background holds Welford's mean and
      sum of squared deviations of that cell over the frames seen since the
      counter was last zero. */
  lemma {:induction false} WarmUpIsWelford(bg: Background, frames: seq<Grid>, runningAverageSize: int, sqrt: real -> real)
    requires ValidBackground(bg) && bg.count == 0 && AllGrids(frames) && runningAverageSize >= 2
    requires 1 <= |frames| < runningAverageSize
    ensures var r := BuildAll(bg, frames, runningAverageSize, sqrt);
            forall i, j :: InGrid(i, j) ==> WelfordInvariant(r.averages[i][j], r.variances[i][j], Column(frames, i, j))
  {
    var r := BuildAll(bg, frames, runningAverageSize, sqrt);
    var before := frames[..|frames| - 1];
    var frame := frames[|frames| - 1];
    var p := BuildAll(bg, before, runningAverageSize, sqrt);
    assert r == BuildBackground(p, frame, runningAverageSize, sqrt);
    if |frames| == 1 {
      forall i, j | InGrid(i, j)
        ensures WelfordInvariant(r.averages[i][j], r.variances[i][j], Column(frames, i, j))
      {
        ColumnLast(frames, i, j);
        assert Column(frames, i, j) == [frame[i][j]];
      }
    } else {
      WarmUpIsWelford(bg, before, runningAverageSize, sqrt);
      forall i, j | InGrid(i, j)
        ensures WelfordInvariant(r.averages[i][j], r.variances[i][j], Column(frames, i, j))
      {
        ColumnLast(frames, i, j);
        BuildCellStep(p, frame, runningAverageSize, sqrt, Column(before, i, j), i, j);
      }
    }
  }

  /** When warm-up ends, every cell holds the mean and the sample standard
      deviation of that cell over the warm-up frames. */
  lemma {:induction false} WarmUpFinishes(bg: Background, frames: seq<Grid>, runningAverageSize: int, sqrt: real -> real)
    requires ValidBackground(bg) && bg.count == 0 && AllGrids(frames) && runningAverageSize >= 2
    requires |frames| == runningAverageSize
    ensures var r := BuildAll(bg, frames, runningAverageSize, sqrt);
            && IsBackgroundFinished(r, runningAverageSize)
            && forall i, j :: InGrid(i, j) ==> FinishedCell(r.averages[i][j], r.variances[i][j], Column(frames, i, j), sqrt)
  {
    var r := BuildAll(bg, frames, runningAverageSize, sqrt);
    var before := frames[..|frames| - 1];
    var frame := frames[|frames| - 1];
    var p := BuildAll(bg, before, runningAverageSize, sqrt);
    assert r == BuildBackground(p, frame, runningAverageSize, sqrt);
    WarmUpIsWelford(bg, before, runningAverageSize, sqrt);
    forall i, j | InGrid(i, j)
      ensures FinishedCell(r.averages[i][j], r.variances[i][j], Column(frames, i, j), sqrt)
    {
      ColumnLast(frames, i, j);
      FinishCellStep(p, frame, runningAverageSize, sqrt, Column(before, i, j), i, j);
    }
  }

  /** One cell of `add_current_frame_to_background`: the mean moves a
      `1 / runningAverageSize` part of the way towards the new temperature. */
  function RollingMean(average: real, temperature: real, runningAverageSize: int): (r: real)
    requires runningAverageSize >= 1
    ensures r - average == (temperature - average) / (runningAverageSize as real)
    ensures average <= temperature ==> average <= r <= temperature
    ensures temperature <= average ==> temperature <= r <= average
  {
    var k := runningAverageSize as real;
    RollingBetween(average, temperature, k);
    (average * (k - 1.0) + temperature) / k
  }

  lemma {:induction false} RollingBetween(a: real, t: real, k: real)
    requires k >= 1.0
    ensures (a * (k - 1.0) + t) / k - a == (t - a) / k
    ensures a <= t ==> a <= (a * (k - 1.0) + t) / k <= t
    ensures t <= a ==> t <= (a * (k - 1.0) + t) / k <= a
  {
    var r := (a * (k - 1.0) + t) / k;
    assert r * k == a * (k - 1.0) + t;
    assert r - a == (t - a) / k by {
      assert (r - a) * k == t - a;
    }
    assert t - r == (t - a) * (k - 1.0) / k by {
      assert (t - r) * k == (t - a) * (k - 1.0);
    }
  }

  /** One cell of the rolling spread: the absolute deviation from the new mean,
      blended in with the same weight. */
  function RollingSpread(variance: real, average: real, temperature: real, runningAverageSize: int): (r: real)
    requires runningAverageSize >= 1
    ensures variance >= 0.0 ==> r >= 0.0
  {
    var k := runningAverageSize as real;
    RollingBetween(variance, Abs(temperature - average), k);
    (variance * (k - 1.0) + Abs(temperature - average)) / k
  }

  /** `add_current_frame_to_background`: the rolling refresh. The warm-up
      counter does not move. */
  function AddFrameToBackground(bg: Background, frame: Grid, runningAverageSize: int): (r: Background)
    requires ValidBackground(bg) && IsGrid(frame) && runningAverageSize >= 1
    ensures ValidBackground(r) && r.count == bg.count
    ensures forall i, j :: InGrid(i, j) ==>
              r.averages[i][j] - bg.averages[i][j] == (frame[i][j] - bg.averages[i][j]) / (runningAverageSize as real)
    ensures forall i, j :: InGrid(i, j) ==>
              Min(bg.averages[i][j], frame[i][j]) <= r.averages[i][j] <= Max(bg.averages[i][j], frame[i][j])
    ensures forall i, j :: InGrid(i, j) && bg.variances[i][j] >= 0.0 ==> r.variances[i][j] >= 0.0
  {
    var averages := Cellwise(bg.averages, bg.variances, frame, (a, v, x) => RollingMean(a, x, runningAverageSize));
    var variances := Cellwise(bg.variances, averages, frame, (v, a, x) => RollingSpread(v, a, x, runningAverageSize));
    Background(averages, variances, bg.count)
  }

  function Min(a: real, b: real): real { if a <= b then a else b }
  function Max(a: real, b: real): real { if a <= b then b else a }
}
