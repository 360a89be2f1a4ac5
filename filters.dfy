/** Temporal noise filters: exponential smoothing (used per pixel by the
    renderer) and a scalar Kalman filter (used for the battery voltage). */
module Filters {
  import opened Arith

  /** One exponential-smoothing step: the new measurement weighted by the
      smoothing factor, the previous output by the rest. Its distance to the
      measurement is the old distance scaled by (1 - factor). */
  function FilterExponential(measurement: real, lastFiltered: real, smoothing: real): (r: real)
    ensures r - measurement == (1.0 - smoothing) * (lastFiltered - measurement)
  {
    measurement * smoothing + lastFiltered * (1.0 - smoothing)
  }

  /** For a factor in [0, 1] the output lies between the previous output and
      the measurement, both included. */
  lemma FilterBetween(measurement: real, lastFiltered: real, smoothing: real)
    requires 0.0 <= smoothing <= 1.0
    ensures Min(measurement, lastFiltered) <= FilterExponential(measurement, lastFiltered, smoothing)
         <= Max(measurement, lastFiltered)
  {
    BlendBetween(measurement, lastFiltered, smoothing);
  }

  /** The two extreme factors: 1 follows the measurement, 0 keeps the old output. */
  lemma FilterExtremeFactors(measurement: real, lastFiltered: real)
    ensures FilterExponential(measurement, lastFiltered, 1.0) == measurement
    ensures FilterExponential(measurement, lastFiltered, 0.0) == lastFiltered
  {
  }

  /** A filter already at the measurement stays there, whatever the factor. */
  lemma FilterFixedPoint(measurement: real, smoothing: real)
    ensures FilterExponential(measurement, measurement, smoothing) == measurement
  {
  }

  /** The worked example: factor 0.5 between 10 and 20 gives 15. */
  lemma FilterHalfway()
    ensures FilterExponential(20.0, 10.0, 0.5) == 15.0
  {
  }

  function Pow(base: real, n: nat): real
  {
    if n == 0 then 1.0 else base * Pow(base, n - 1)
  }

  /** The filter output after `n` frames of the same measurement. */
  function Smoothed(measurement: real, start: real, smoothing: real, n: nat): real
  {
    if n == 0 then start
    else FilterExponential(measurement, Smoothed(measurement, start, smoothing, n - 1), smoothing)
  }

  /** Under a constant measurement the error decays geometrically:
      after `n` frames it is (1 - factor)^n times the starting error. */
  lemma {:induction false} SmoothedError(measurement: real, start: real, smoothing: real, n: nat)
    ensures Smoothed(measurement, start, smoothing, n) - measurement
         == Pow(1.0 - smoothing, n) * (start - measurement)
  {
    if n > 0 {
      SmoothedError(measurement, start, smoothing, n - 1);
      SmoothedErrorStep(measurement, start, smoothing, n);
    }
  }

  /** The inductive step: if the error after n - 1 frames is (1 - factor)^(n-1)
      times the starting error, the error after n frames is (1 - factor)^n times it. */
  lemma SmoothedErrorStep(measurement: real, start: real, smoothing: real, n: nat)
    requires n > 0
    requires Smoothed(measurement, start, smoothing, n - 1) - measurement
          == Pow(1.0 - smoothing, n - 1) * (start - measurement)
    ensures Smoothed(measurement, start, smoothing, n) - measurement
         == Pow(1.0 - smoothing, n) * (start - measurement)
  {
    SmoothedStep(measurement, start, smoothing, n);
    PowStep(1.0 - smoothing, n);
    ErrorStep(Smoothed(measurement, start, smoothing, n), Smoothed(measurement, start, smoothing, n - 1),
              measurement, 1.0 - smoothing, Pow(1.0 - smoothing, n - 1), Pow(1.0 - smoothing, n),
              start - measurement);
  }

  /** One more frame scales the distance to the measurement by (1 - factor). */
  lemma SmoothedStep(measurement: real, start: real, smoothing: real, n: nat)
    requires n > 0
    ensures Smoothed(measurement, start, smoothing, n) - measurement
         == (1.0 - smoothing) * (Smoothed(measurement, start, smoothing, n - 1) - measurement)
  {
    var prev := Smoothed(measurement, start, smoothing, n - 1);
    assert FilterExponential(measurement, prev, smoothing) - measurement == (1.0 - smoothing) * (prev - measurement);
  }

  lemma PowStep(base: real, n: nat)
    requires n > 0
    ensures Pow(base, n) == base * Pow(base, n - 1)
  {
  }

  lemma ErrorStep(r: real, prev: real, target: real, q: real, p: real, qp: real, e: real)
    requires r - target == q * (prev - target)
    requires prev - target == p * e
    requires qp == q * p
    ensures r - target == qp * e
  {
    MulAssociates(q, p, e);
  }

  lemma MulAssociates(x: real, y: real, z: real)
    ensures x * (y * z) == (x * y) * z
  {
  }

  lemma {:induction false} PowUnitInterval(base: real, n: nat)
    requires 0.0 <= base <= 1.0
    ensures 0.0 <= Pow(base, n) <= 1.0
  {
    if n > 0 {
      PowUnitInterval(base, n - 1);
      UnitProduct(base, Pow(base, n - 1));
    }
  }

  lemma UnitProduct(x: real, y: real)
    requires 0.0 <= x <= 1.0 && 0.0 <= y <= 1.0
    ensures 0.0 <= x * y <= 1.0
  {
    MulRealMonotone(x, y, 1.0);
    assert x * y <= x * 1.0;
    assert x * y <= x;
    MulRealMonotone(x, 0.0, y);
    assert x * 0.0 <= x * y;
  }

  /** With a factor in [0, 1] the error under a constant measurement never grows. */
  lemma SmoothedApproaches(measurement: real, start: real, smoothing: real, n: nat)
    requires 0.0 <= smoothing <= 1.0
    ensures Abs(Smoothed(measurement, start, smoothing, n) - measurement) <= Abs(start - measurement)
  {
    var p, e := Pow(1.0 - smoothing, n), start - measurement;
    var d := Smoothed(measurement, start, smoothing, n) - measurement;
    assert d == p * e by {
      SmoothedError(measurement, start, smoothing, n);
    }
    assert Abs(p * e) <= Abs(e) by {
      PowUnitInterval(1.0 - smoothing, n);
      AbsScaled(p, e);
    }
  }

  /** Scaling by a factor in [0, 1] never increases a magnitude. */
  lemma AbsScaled(p: real, e: real)
    requires 0.0 <= p <= 1.0
    ensures Abs(p * e) <= Abs(e)
  {
    if e >= 0.0 {
      MulRealMonotone(p, 0.0, e);
      MulRealMonotone(e, p, 1.0);
      assert 0.0 <= p * e <= e;
    } else {
      MulRealMonotone(p, e, 0.0);
      MulRealMonotone(-e, p, 1.0);
      assert e <= p * e <= 0.0;
    }
  }

  /** Kalman gain: the share of the predicted covariance in the total.
      It is below one because the measurement variance is positive. */
  function KalmanGain(predicted: real, inputVariance: real): (g: real)
    requires predicted >= 0.0 && inputVariance > 0.0
    ensures 0.0 <= g < 1.0
    ensures g * (predicted + inputVariance) == predicted
  {
    var g := predicted / (predicted + inputVariance);
    assert g * (predicted + inputVariance) == predicted;
    assert 0.0 <= g < 1.0 by {
      if g < 0.0 {
        MulRealMonotone(predicted + inputVariance, g, 0.0);
      } else if g >= 1.0 {
        MulRealMonotone(predicted + inputVariance, 1.0, g);
      }
    }
    g
  }

  /** Posterior covariance (1 - G) * Pc: never negative, never above the
      predicted covariance and always below the measurement variance. */
  function PosteriorCovariance(predicted: real, inputVariance: real): (p: real)
    requires predicted >= 0.0 && inputVariance > 0.0
    ensures 0.0 <= p <= predicted
    ensures p < inputVariance
    ensures p * (predicted + inputVariance) == predicted * inputVariance
  {
    var g := KalmanGain(predicted, inputVariance);
    var p := (1.0 - g) * predicted;
    assert 0.0 <= p <= predicted by {
      MulRealMonotone(predicted, 0.0, 1.0 - g);
      MulRealMonotone(predicted, 1.0 - g, 1.0);
    }
    assert p * (predicted + inputVariance) == predicted * inputVariance by {
      calc {
        p * (predicted + inputVariance);
        predicted * ((predicted + inputVariance) - g * (predicted + inputVariance));
        predicted * inputVariance;
      }
    }
    ShareBelowRest(predicted, inputVariance, g);
    p
  }

  /** With G * (Pc + R) == Pc and G < 1, the remaining share (1 - G) * Pc
      is below R, since R itself is (1 - G) * (Pc + R). */
  lemma ShareBelowRest(predicted: real, inputVariance: real, g: real)
    requires predicted >= 0.0 && inputVariance > 0.0 && g < 1.0
    requires g * (predicted + inputVariance) == predicted
    ensures (1.0 - g) * predicted < inputVariance
  {
    var total := predicted + inputVariance;
    assert (1.0 - g) * total == total - g * total;
    MulRealStrict(1.0 - g, predicted, total);
  }

  /** Kalman estimate update: the old estimate moved by the gain towards the
      measurement. For a gain in [0, 1] it lies between the two, and the new
      error is the old one scaled by (1 - gain). */
  function KalmanEstimate(estimate: real, gain: real, measurement: real): (e: real)
    ensures e - measurement == (1.0 - gain) * (estimate - measurement)
    ensures 0.0 <= gain <= 1.0 ==> Min(estimate, measurement) <= e <= Max(estimate, measurement)
  {
    var e := gain * (measurement - estimate) + estimate;
    assert e == measurement * gain + estimate * (1.0 - gain);
    assert 0.0 <= gain <= 1.0 ==> Min(estimate, measurement) <= e <= Max(estimate, measurement) by {
      if 0.0 <= gain <= 1.0 { BlendBetween(measurement, estimate, gain); }
    }
    e
  }

  /** A scalar Kalman filter with fixed process and measurement variances. */
  class KalmanFilter {
    const inputVariance: real
    const varianceProcess: real
    var Pc: real
    var G: real
    var P: real
    var Xp: real
    var Zp: real
    var Xe: real

    /** Configured variances make sense and the error covariance is non-negative. */
    ghost predicate Valid()
      reads this
    {
      varianceProcess >= 0.0 && inputVariance > 0.0 && P >= 0.0
    }

    /** Only the two variances are configured; every other field keeps its
        declared initial value: estimate 0 and error covariance 1. */
    constructor (varianceProcess: real, inputVariance: real)
      ensures this.varianceProcess == varianceProcess && this.inputVariance == inputVariance
      ensures Pc == 0.0 && G == 0.0 && P == 1.0 && Xp == 0.0 && Zp == 0.0 && Xe == 0.0
      ensures varianceProcess >= 0.0 && inputVariance > 0.0 ==> Valid()
    {
      this.varianceProcess := varianceProcess;
      this.inputVariance := inputVariance;
      Pc, G, P := 0.0, 0.0, 1.0;
      Xp, Zp, Xe := 0.0, 0.0, 0.0;
    }

    /** One filter step: predict, compute the gain, shrink the covariance and
        move the estimate towards the measurement; the new estimate is returned. */
    method Process(measurement: real) returns (estimate: real)
      requires Valid()
      modifies this
      ensures Valid()
      ensures Pc == old(P) + varianceProcess
      ensures G == KalmanGain(Pc, inputVariance) && 0.0 <= G < 1.0
      ensures P == PosteriorCovariance(Pc, inputVariance) && 0.0 <= P <= Pc
      ensures Xp == old(Xe) && Zp == old(Xe)
      ensures Xe == KalmanEstimate(old(Xe), G, measurement) && estimate == Xe
      ensures Min(old(Xe), measurement) <= Xe <= Max(old(Xe), measurement)
    {
      Pc := P + varianceProcess;
      G := Pc / (Pc + inputVariance);
      P := (1.0 - G) * Pc;
      Xp := Xe;
      Zp := Xp;
      Xe := G * (measurement - Zp) + Xp;
      estimate := Xe;
      assert G == KalmanGain(Pc, inputVariance);
      assert P == PosteriorCovariance(Pc, inputVariance);
      assert Xe == KalmanEstimate(old(Xe), G, measurement);
    }
  }

  /** Under a constant measurement a Kalman step never moves the estimate
      away from it: the error is scaled by 1 - G with 0 <= G < 1. */
  lemma KalmanApproaches(estimate: real, predicted: real, inputVariance: real, measurement: real)
    requires predicted >= 0.0 && inputVariance > 0.0
    ensures Abs(KalmanEstimate(estimate, KalmanGain(predicted, inputVariance), measurement) - measurement)
         <= Abs(estimate - measurement)
  {
    var g := KalmanGain(predicted, inputVariance);
    AbsScaled(1.0 - g, estimate - measurement);
  }
}
