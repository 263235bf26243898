/**
The adaptive controller: a loss estimator, a mode manager that moves between
redundancy modes, and the cross-fade between an old and a new encoder and
decoder. Floating-point numbers are real numbers here, and the clock readings
(dwell time, time since the last update) are parameters.
 */
module Adaptive {
  import opened Encoding

  datatype FecMode = Zero | Light | Normal | Medium | Strong | Extreme

  function Rank(mode: FecMode): nat {
    match mode
    case Zero => 0 case Light => 1 case Normal => 2 case Medium => 3 case Strong => 4 case Extreme => 5
  }

  function WindowRange(mode: FecMode): (nat, nat) {
    match mode
    case Zero => (0, 0)
    case Light => (8, 32)
    case Normal => (32, 128)
    case Medium => (64, 256)
    case Strong => (256, 1024)
    case Extreme => (1024, 4096)
  }

  function OverheadRatio(mode: FecMode): real {
    match mode
    case Zero => 1.0 case Light => 1.05 case Normal => 1.15 case Medium => 1.30 case Strong => 1.50 case Extreme => 2.0
  }

  function Threshold(mode: FecMode): real {
    match mode
    case Zero => 0.01 case Light => 0.05 case Normal => 0.15 case Medium => 0.30 case Strong => 0.50 case Extreme => 1.0
  }

  function DefaultWindow(mode: FecMode): nat {
    match mode
    case Zero => 0 case Light => 16 case Normal => 64 case Medium => 128 case Strong => 512 case Extreme => 1024
  }

  function NextMode(mode: FecMode): FecMode {
    match mode
    case Zero => Light case Light => Normal case Normal => Medium case Medium => Strong case _ => Extreme
  }

  function PrevMode(mode: FecMode): FecMode {
    match mode
    case Extreme => Strong case Strong => Medium case Medium => Normal case Normal => Light case _ => Zero
  }

  /** A stronger mode has a higher threshold, more overhead and larger windows. */
  lemma ModesAreOrdered(a: FecMode, b: FecMode)
    requires Rank(a) < Rank(b)
    ensures Threshold(a) < Threshold(b) && OverheadRatio(a) < OverheadRatio(b) && DefaultWindow(a) < DefaultWindow(b)
    ensures WindowRange(a).0 < WindowRange(b).0 && WindowRange(a).1 < WindowRange(b).1
  {
  }

  predicate InWindowRange(mode: FecMode, window: nat) {
    WindowRange(mode).0 <= window <= WindowRange(mode).1
  }

  function Ceil(x: real): int {
    -((-x).Floor)
  }

  /** Source packets per window, and source plus repair packets. */
  function ParamsFor(mode: FecMode, window: nat): (nat, nat) {
    var n := Ceil(window as real * OverheadRatio(mode));
    (window, if n < 0 then 0 else n)
  }

  /** The source count is the window, and the total is the least number not below window times overhead. */
  lemma ParamsExact(mode: FecMode, window: nat)
    ensures
      var (k, n) := ParamsFor(mode, window);
      k == window && window as real * OverheadRatio(mode) <= n as real < window as real * OverheadRatio(mode) + 1.0
  {
    var x := window as real * OverheadRatio(mode);
    assert x >= 0.0;
    CeilBounds(x);
  }

  // ----- Which windows the code can encode -----

  /** Every repair row of a window can be generated. */
  ghost predicate RepairsDefined(k: nat, n: nat) {
    forall index: nat :: index < n - k ==> Invertible(k, index)
  }

  /** The repair rows are defined exactly when source and repair indices fit one byte. */
  lemma RepairsDefinedIff(k: nat, n: nat)
    requires 0 < k < n
    ensures RepairsDefined(k, n) <==> n <= 256
  {
    if n <= 256 {
      forall index: nat | index < n - k
        ensures Invertible(k, index)
      {
        InvertibleIff(k, index);
      }
    } else {
      // The first parameter that wraps around is a source index.
      var index: nat := if k >= 256 then 0 else 256 - k;
      InvertibleIff(k, index);
      assert Param(k, index) < k;
      assert !Invertible(k, index);
    }
  }

  /** Rounding up: the least integer not below x. */
  lemma CeilBounds(x: real)
    ensures x <= Ceil(x) as real < x + 1.0
  {
  }

  /**
  In Light and Normal every window can be encoded; in Medium exactly the
  windows up to 196; in Strong none.
   */
  lemma EncodableModes(mode: FecMode, window: nat)
    requires InWindowRange(mode, window) && (mode.Light? || mode.Normal? || mode.Medium? || mode.Strong?)
    ensures
      var (k, n) := ParamsFor(mode, window);
      RepairsDefined(k, n) <==> mode.Light? || mode.Normal? || (mode.Medium? && window <= 196)
  {
    var (k, n) := ParamsFor(mode, window);
    var x := window as real * OverheadRatio(mode);
    CeilBounds(x);
    assert x > window as real;
    assert k < n;
    RepairsDefinedIff(k, n);
    match mode
    case Light => assert x <= 34.0;
    case Normal => assert x <= 148.0;
    case Medium =>
      if window <= 196 {
        assert x <= 254.8;
      } else {
        assert x >= 256.1;
      }
    case Strong => assert x >= 384.0;
  }

  // ----- Configuration -----

  datatype Config = Config(
    lambda: real,
    burstWindow: nat,
    hysteresis: real,
    kp: real,
    ki: real,
    kd: real,
    initialMode: FecMode,
    kalmanEnabled: bool,
    kalmanQ: real,
    kalmanR: real,
    windowSizes: map<FecMode, nat>
  )

  /** The configuration checks of the code. */
  predicate Validated(c: Config) {
    && 0.0 <= c.lambda <= 1.0
    && c.burstWindow > 0
    && 0.0 <= c.hysteresis < 1.0
    && (c.kalmanEnabled ==> c.kalmanQ > 0.0 && c.kalmanR > 0.0)
  }

  predicate WindowsInRange(sizes: map<FecMode, nat>) {
    forall mode :: mode in sizes ==> InWindowRange(mode, sizes[mode])
  }

  function InitialWindow(sizes: map<FecMode, nat>, mode: FecMode): nat {
    if mode in sizes then sizes[mode] else DefaultWindow(mode)
  }

  lemma InitialWindowInRange(sizes: map<FecMode, nat>, mode: FecMode)
    requires WindowsInRange(sizes)
    ensures InWindowRange(mode, InitialWindow(sizes, mode))
    ensures mode in sizes ==> InitialWindow(sizes, mode) == sizes[mode]
    ensures mode !in sizes ==> InitialWindow(sizes, mode) == DefaultWindow(mode)
  {
  }

  // ----- Loss estimation -----

  lemma Shrinks(k: real, d: real)
    requires 0.0 <= k <= 1.0 && d >= 0.0
    ensures 0.0 <= k * d <= d
  {
    assert (1.0 - k) * d >= 0.0;
    assert (1.0 - k) * d == d - k * d;
  }

  /** A step of weight k from a towards b. */
  function Blend(k: real, a: real, b: real): real {
    a + k * (b - a)
  }

  lemma MeanUp(k: real, a: real, b: real)
    requires 0.0 <= k <= 1.0 && a <= b
    ensures a <= Blend(k, a, b) <= b
  {
    var d := b - a;
    Shrinks(k, d);
    assert Blend(k, a, b) == a + k * d;
  }

  lemma MeanDown(k: real, a: real, b: real)
    requires 0.0 <= k <= 1.0 && b <= a
    ensures b <= Blend(k, a, b) <= a
  {
    var d := a - b;
    Shrinks(k, d);
    assert Blend(k, a, b) == a - k * d;
  }

  /** A weighted mean lies between its two values. */
  lemma Mean(k: real, a: real, b: real)
    requires 0.0 <= k <= 1.0
    ensures a <= b ==> a <= Blend(k, a, b) <= b
    ensures b <= a ==> b <= Blend(k, a, b) <= a
  {
    hide Blend;
    if a <= b {
      MeanUp(k, a, b);
    }
    if b <= a {
      MeanDown(k, a, b);
    }
  }

  lemma BlendForms(k: real, a: real, b: real)
    ensures k * b + (1.0 - k) * a == Blend(k, a, b)
  {
    assert k * (b - a) == k * b - k * a;
    assert (1.0 - k) * a == a - k * a;
  }

  lemma MeanOfRates(k: real, a: real, b: real)
    requires 0.0 <= k <= 1.0 && 0.0 <= a <= 1.0 && 0.0 <= b <= 1.0
    ensures 0.0 <= k * b + (1.0 - k) * a <= 1.0
  {
    hide Blend;
    Mean(k, a, b);
    BlendForms(k, a, b);
  }

  lemma GainInRange(p: real, r: real)
    requires p > 0.0 && r > 0.0
    ensures 0.0 < p / (p + r) < 1.0
    ensures 0.0 < p * (1.0 - p / (p + r)) < r
  {
    var s := p + r;
    var k := p / s;
    assert k * s == p;
    assert (1.0 - k) * s == r;
    assert p * (1.0 - k) == k * (s * (1.0 - k)) == k * r;
    assert k * r < r;
  }

  /** The step of the filter: the gain p / (p + r) moves the estimate and shrinks the error. */
  lemma FilterStep(p: real, r: real, before: real, measurement: real)
    requires p > 0.0 && r > 0.0
    ensures
      var gain := p / (p + r);
      && (measurement - Blend(gain, before, measurement)) * (p + r) == r * (measurement - before)
      && p * (1.0 - gain) * (p + r) == r * p
  {
    var gain := p / (p + r);
    var d := measurement - before;
    assert gain * (p + r) == p;
    assert measurement - Blend(gain, before, measurement) == d - gain * d;
    assert (d - gain * d) * (p + r) == d * (p + r) - d * (gain * (p + r));
    assert p * (1.0 - gain) * (p + r) == p * (p + r) - p * (gain * (p + r));
  }

  class KalmanFilter {
    var estimate: real
    var errorCov: real
    const q: real
    const r: real

    ghost predicate Valid()
      reads this
    {
      q > 0.0 && r > 0.0 && errorCov > 0.0 && 0.0 <= estimate <= 1.0
    }

    constructor (q: real, r: real)
      requires q > 0.0 && r > 0.0
      ensures Valid() && estimate == 0.0 && errorCov == 1.0 && this.q == q && this.r == r
    {
      estimate := 0.0;
      errorCov := 1.0;
      this.q := q;
      this.r := r;
    }

    /**
    The distance to the measurement shrinks by the factor r / (p + r), where p is
    the predicted error, and the error becomes r * p / (p + r), below r.
     */
    method Update(measurement: real) returns (result: real)
      requires Valid() && 0.0 <= measurement <= 1.0
      modifies this`estimate, this`errorCov
      ensures Valid() && result == estimate
      ensures old(estimate) <= measurement ==> old(estimate) <= estimate <= measurement
      ensures measurement <= old(estimate) ==> measurement <= estimate <= old(estimate)
      ensures errorCov < r
      ensures
        var p := old(errorCov) + q;
        && (measurement - estimate) * (p + r) == r * (measurement - old(estimate))
        && errorCov * (p + r) == r * p
    {
      var cov, before := errorCov + q, estimate;
      var k := cov / (cov + r);
      GainInRange(cov, r);
      Mean(k, before, measurement);
      FilterStep(cov, r, before, measurement);
      estimate := before + k * (measurement - before);
      errorCov := cov * (1.0 - k);
      result := estimate;
    }
  }

  /** One step of the exponential moving average. */
  function Smoothed(lambda: real, average: real, rate: real): (r: real)
    requires 0.0 <= lambda <= 1.0 && 0.0 <= average <= 1.0 && 0.0 <= rate <= 1.0
    ensures 0.0 <= r <= 1.0
  {
    MeanOfRates(lambda, average, rate);
    lambda * rate + (1.0 - lambda) * average
  }

  /** The average moves towards the rate: the distance shrinks by the factor 1 - lambda. */
  lemma SmoothedMoves(lambda: real, average: real, rate: real)
    requires 0.0 <= lambda <= 1.0 && 0.0 <= average <= 1.0 && 0.0 <= rate <= 1.0
    ensures Smoothed(lambda, average, rate) - rate == (1.0 - lambda) * (average - rate)
  {
    assert (1.0 - lambda) * (average - rate) == (1.0 - lambda) * average - (1.0 - lambda) * rate;
  }

  function RealPower(x: real, m: nat): real {
    if m == 0 then 1.0 else x * RealPower(x, m - 1)
  }

  /** The average after `m` reports of the same rate. */
  function AfterReports(lambda: real, average: real, rate: real, m: nat): (r: real)
    requires 0.0 <= lambda <= 1.0 && 0.0 <= average <= 1.0 && 0.0 <= rate <= 1.0
    ensures 0.0 <= r <= 1.0
  {
    if m == 0 then average else Smoothed(lambda, AfterReports(lambda, average, rate, m - 1), rate)
  }

  /** After `m` reports of one rate the distance to it is (1 - lambda)^m of what it was. */
  lemma {:induction false} SteadyRate(lambda: real, average: real, rate: real, m: nat)
    requires 0.0 <= lambda <= 1.0 && 0.0 <= average <= 1.0 && 0.0 <= rate <= 1.0
    ensures AfterReports(lambda, average, rate, m) == rate - RealPower(1.0 - lambda, m) * (rate - average)
  {
    if m > 0 {
      hide Smoothed;
      SteadyRate(lambda, average, rate, m - 1);
      SmoothedMoves(lambda, AfterReports(lambda, average, rate, m - 1), rate);
      var x, p, d := 1.0 - lambda, RealPower(1.0 - lambda, m - 1), rate - average;
      assert x * (p * d) == (x * p) * d;
    }
  }

  /** The rate is lost packets per packet; nothing sent counts as no loss. */
  lemma RateOfLoss(lost: nat, total: nat)
    requires lost <= total
    ensures LossRate(lost, total) * total as real == lost as real
    ensures total == 0 ==> LossRate(lost, total) == 0.0
  {
    if total > 0 {
      var x := lost as real / total as real;
      assert x * total as real == lost as real;
    }
  }

  function LossRate(lost: nat, total: nat): (r: real)
    requires lost <= total
    ensures 0.0 <= r <= 1.0
  {
    if total > 0 then
      RateInRange(lost, total);
      lost as real / total as real
    else 0.0
  }

  function Repeat(b: bool, n: nat): (s: seq<bool>)
    ensures |s| == n
  {
    seq(n, _ => b)
  }

  /** The last `cap` elements. */
  function Tail<T>(s: seq<T>, cap: nat): seq<T> {
    if |s| <= cap then s else s[|s| - cap..]
  }

  function CountLost(window: seq<bool>): (n: nat)
    ensures n <= |window|
  {
    if |window| == 0 then 0 else CountLost(window[..|window| - 1]) + if window[|window| - 1] then 1 else 0
  }

  ghost function LostAt(window: seq<bool>): set<nat> {
    set i: nat | i < |window| && window[i]
  }

  /** The count is the number of positions that hold a loss. */
  lemma {:induction false} CountIsNumber(window: seq<bool>)
    ensures CountLost(window) == |LostAt(window)|
  {
    if |window| == 0 {
      assert LostAt(window) == {};
    } else {
      var n := |window| - 1;
      CountIsNumber(window[..n]);
      var before: set<nat> := LostAt(window[..n]);
      if window[n] {
        assert LostAt(window) == before + {n} && n !in before;
      } else {
        assert LostAt(window) == before;
      }
    }
  }

  lemma {:induction false} CountAppend(s: seq<bool>, t: seq<bool>)
    ensures CountLost(s + t) == CountLost(s) + CountLost(t)
    decreases |t|
  {
    if |t| == 0 {
      assert s + t == s;
    } else {
      var n := |t| - 1;
      assert (s + t)[..|s + t| - 1] == s + t[..n];
      CountAppend(s, t[..n]);
    }
  }

  lemma {:induction false} CountRepeat(b: bool, n: nat)
    ensures CountLost(Repeat(b, n)) == if b then n else 0
  {
    if n > 0 {
      assert Repeat(b, n)[..n - 1] == Repeat(b, n - 1);
      CountRepeat(b, n - 1);
    }
  }

  /** One report into an empty burst window that holds it: the burst count is the number lost. */
  lemma BurstOfReport(lost: nat, total: nat)
    requires lost <= total
    ensures CountLost(Repeat(true, lost) + Repeat(false, total - lost)) == lost
  {
    CountAppend(Repeat(true, lost), Repeat(false, total - lost));
    CountRepeat(true, lost);
    CountRepeat(false, total - lost);
  }

  /** What is kept of a sequence is its end, as long as the capacity allows. */
  lemma TailIsEnd<T>(s: seq<T>, cap: nat)
    ensures
      var t := Tail(s, cap);
      && |t| == (if |s| < cap then |s| else cap)
      && forall i :: 0 <= i < |t| ==> t[i] == s[|s| - |t| + i]
  {
  }

  class LossEstimator {
    var emaLossRate: real
    const lambda: real
    var burstWindow: seq<bool>
    const burstCapacity: nat
    const kalman: KalmanFilter?

    ghost predicate Valid()
      reads this, kalman
    {
      && 0.0 <= lambda <= 1.0 && burstCapacity > 0
      && 0.0 <= emaLossRate <= 1.0
      && |burstWindow| <= burstCapacity
      && (kalman != null ==> kalman.Valid())
    }

    constructor (lambda: real, burstCapacity: nat, kalman: KalmanFilter?)
      requires 0.0 <= lambda <= 1.0 && burstCapacity > 0 && (kalman != null ==> kalman.Valid())
      ensures Valid() && emaLossRate == 0.0 && burstWindow == []
      ensures this.lambda == lambda && this.burstCapacity == burstCapacity && this.kalman == kalman
    {
      emaLossRate := 0.0;
      this.lambda := lambda;
      burstWindow := [];
      this.burstCapacity := burstCapacity;
      this.kalman := kalman;
    }

    /** Pushes a flag `n` times, dropping the oldest flags beyond the capacity. */
    method PushFlags(flag: bool, n: nat)
      requires Valid()
      modifies this`burstWindow
      ensures Valid() && burstWindow == Tail(old(burstWindow) + Repeat(flag, n), burstCapacity)
    {
      hide Tail;
      TailPush(old(burstWindow), [], burstCapacity);
      assert old(burstWindow) + Repeat(flag, 0) == old(burstWindow);
      for i := 0 to n
        invariant Valid() && burstWindow == Tail(old(burstWindow) + Repeat(flag, i), burstCapacity)
      {
        TailPush(old(burstWindow) + Repeat(flag, i), [flag], burstCapacity);
        if |burstWindow| == burstCapacity {
          burstWindow := burstWindow[1..];
        }
        burstWindow := burstWindow + [flag];
        assert old(burstWindow) + Repeat(flag, i + 1) == old(burstWindow) + Repeat(flag, i) + [flag];
      }
    }

    method ReportLoss(lost: nat, total: nat)
      requires Valid() && lost <= total
      modifies this, kalman
      ensures Valid()
      ensures burstWindow == Tail(old(burstWindow) + Repeat(true, lost) + Repeat(false, total - lost), burstCapacity)
      ensures kalman == null ==>
        && emaLossRate == Smoothed(lambda, old(emaLossRate), LossRate(lost, total))
        && emaLossRate - LossRate(lost, total) == (1.0 - lambda) * (old(emaLossRate) - LossRate(lost, total))
      ensures kalman != null ==>
        && emaLossRate == Smoothed(lambda, old(emaLossRate), kalman.estimate)
        && emaLossRate - kalman.estimate == (1.0 - lambda) * (old(emaLossRate) - kalman.estimate)
        && (old(kalman.estimate) <= kalman.estimate <= LossRate(lost, total)
            || LossRate(lost, total) <= kalman.estimate <= old(kalman.estimate))
    {
      hide Smoothed;
      hide LossRate;
      hide Tail;
      var current := LossRate(lost, total);
      if kalman != null {
        current := kalman.Update(current);
      }
      SmoothedMoves(lambda, emaLossRate, current);
      emaLossRate := Smoothed(lambda, emaLossRate, current);
      ghost var before := burstWindow;
      PushFlags(true, lost);
      ghost var middle := burstWindow;
      PushFlags(false, total - lost);
      TailTail(before + Repeat(true, lost), Repeat(false, total - lost), burstCapacity);
    }

    /** The larger of the long-term average and the recent burst rate. */
    method GetEstimatedLoss() returns (loss: real)
      requires Valid()
      ensures 0.0 <= loss <= 1.0
      ensures loss >= emaLossRate
      ensures burstWindow != [] ==> loss >= CountLost(burstWindow) as real / |burstWindow| as real
      ensures loss == emaLossRate
        || (burstWindow != [] && loss == CountLost(burstWindow) as real / |burstWindow| as real)
        || (burstWindow == [] && loss == 0.0)
    {
      var burst := 0.0;
      if burstWindow != [] {
        burst := CountLost(burstWindow) as real / |burstWindow| as real;
        RateInRange(CountLost(burstWindow), |burstWindow|);
      }
      loss := if emaLossRate >= burst then emaLossRate else burst;
    }
  }

  lemma RateInRange(lost: nat, total: nat)
    requires lost <= total && total > 0
    ensures 0.0 <= lost as real / total as real <= 1.0
  {
    var x := lost as real / total as real;
    assert x * total as real == lost as real;
  }

  /** Pushing into a full window drops the oldest element first. */
  lemma TailPush<T>(s: seq<T>, more: seq<T>, cap: nat)
    requires |more| <= 1 <= cap
    ensures |s| <= cap ==> Tail(s, cap) == s
    ensures |Tail(s, cap)| <= cap
    ensures Tail(s + more, cap) == (if |Tail(s, cap)| == cap && more != [] then Tail(s, cap)[1..] else Tail(s, cap)) + more
  {
  }

  lemma TailTail<T>(s: seq<T>, t: seq<T>, cap: nat)
    ensures Tail(Tail(s, cap) + t, cap) == Tail(s + t, cap)
  {
  }
}
