/**
 * The streaming statistics accumulator both benchmark programs keep: a count,
 * Welford's running mean and sum of squared deviations, and the extremes.
 * Samples are exact reals here; the accumulator is proved against the
 * two-pass definitions over the whole sample history.
 */
module OnlineStatistics {

  /** A double that may hold one of the infinities the extremes start from. */
  datatype Bound = NegInf | Finite(v: real) | PosInf

  /** x < b, for a bound that may be infinite. */
  predicate Below(x: real, b: Bound) {
    match b
    case NegInf => false
    case Finite(v) => x < v
    case PosInf => true
  }

  /** x > b, for a bound that may be infinite. */
  predicate Above(x: real, b: Bound) {
    match b
    case NegInf => true
    case Finite(v) => x > v
    case PosInf => false
  }

  /** Integer samples (nanosecond differences) as the accumulator's values, in order. */
  function AsReals(s: seq<int>): (r: seq<real>)
    ensures |r| == |s|
  {
    if s == [] then [] else AsReals(s[..|s| - 1]) + [s[|s| - 1] as real]
  }

  lemma AsRealsAppend(s: seq<int>, x: int)
    ensures AsReals(s + [x]) == AsReals(s) + [x as real]
  {
    assert (s + [x])[..|s|] == s;
  }

  function Sum(s: seq<real>): real {
    if s == [] then 0.0 else Sum(s[..|s| - 1]) + s[|s| - 1]
  }

  function SumSq(s: seq<real>): real {
    if s == [] then 0.0 else SumSq(s[..|s| - 1]) + s[|s| - 1] * s[|s| - 1]
  }

  /** Arithmetic mean; 0 for no samples, as the accumulator starts. */
  function Mean(s: seq<real>): real {
    if s == [] then 0.0 else Sum(s) / |s| as real
  }

  /** Sum of squared deviations of the samples from c. */
  function SqDev(s: seq<real>, c: real): real {
    if s == [] then 0.0 else SqDev(s[..|s| - 1], c) + (s[|s| - 1] - c) * (s[|s| - 1] - c)
  }

  /** The two-pass sum of squared deviations from the mean. */
  function M2(s: seq<real>): real {
    SqDev(s, Mean(s))
  }

  /** Sample variance (divisor n - 1); 0 for fewer than two samples. */
  function SampleVariance(s: seq<real>): real {
    if |s| >= 2 then M2(s) / (|s| - 1) as real else 0.0
  }

  /** The smallest sample, by one comparison per sample. */
  function MinOf(s: seq<real>): real
    requires s != []
  {
    if |s| == 1 then s[0]
    else
      var m := MinOf(s[..|s| - 1]);
      if s[|s| - 1] < m then s[|s| - 1] else m
  }

  /** The largest sample, by one comparison per sample. */
  function MaxOf(s: seq<real>): real
    requires s != []
  {
    if |s| == 1 then s[0]
    else
      var m := MaxOf(s[..|s| - 1]);
      if s[|s| - 1] > m then s[|s| - 1] else m
  }

  /** MinOf is a sample and no sample is smaller. */
  lemma {:induction false} MinOfIsMinimum(s: seq<real>)
    requires s != []
    ensures MinOf(s) in s && forall i :: 0 <= i < |s| ==> MinOf(s) <= s[i]
  {
    if |s| > 1 {
      var t := s[..|s| - 1];
      MinOfIsMinimum(t);
      assert forall i :: 0 <= i < |t| ==> s[i] == t[i];
    }
  }

  /** MaxOf is a sample and no sample is larger. */
  lemma {:induction false} MaxOfIsMaximum(s: seq<real>)
    requires s != []
    ensures MaxOf(s) in s && forall i :: 0 <= i < |s| ==> s[i] <= MaxOf(s)
  {
    if |s| > 1 {
      var t := s[..|s| - 1];
      MaxOfIsMaximum(t);
      assert forall i :: 0 <= i < |t| ==> s[i] == t[i];
    }
  }

  lemma {:induction false} SqDevNonNegative(s: seq<real>, c: real)
    ensures SqDev(s, c) >= 0.0
  {
    if s != [] {
      SqDevNonNegative(s[..|s| - 1], c);
      var d := s[|s| - 1] - c;
      assert d * d >= 0.0;
    }
  }

  /** SqDev(s, c) expanded as sum of squares, linear and constant terms in c. */
  lemma {:induction false} SqDevExpand(s: seq<real>, c: real)
    ensures SqDev(s, c) == SumSq(s) - 2.0 * c * Sum(s) + |s| as real * c * c
  {
    if s != [] {
      var t, x := s[..|s| - 1], s[|s| - 1];
      SqDevExpand(t, c);
      ExpandStep(SumSq(t), Sum(t), |t| as real, x, c);
    }
  }

  /** One more sample x adds (x - c)^2 to the expanded form. */
  lemma ExpandStep(q: real, u: real, k: real, x: real, c: real)
    ensures (q - 2.0 * c * u + k * c * c) + (x - c) * (x - c)
         == (q + x * x) - 2.0 * c * (u + x) + (k + 1.0) * c * c
  {
    assert (x - c) * (x - c) == x * x - 2.0 * c * x + c * c;
    assert (k + 1.0) * c * c == k * c * c + c * c;
  }

  /** The two-pass M2 as sum of squares minus n times the squared mean. */
  lemma M2Closed(s: seq<real>)
    ensures M2(s) == SumSq(s) - |s| as real * Mean(s) * Mean(s)
  {
    SqDevExpand(s, Mean(s));
    if s != [] {
      var k, m := |s| as real, Mean(s);
      assert Sum(s) == m * k;
      assert 2.0 * m * (m * k) == 2.0 * k * m * m;
    }
  }

  lemma AppendLast(s: seq<real>, x: real)
    ensures (s + [x])[..|s|] == s && (s + [x])[|s|] == x
  {
  }

  /** The pure algebra of one Welford step, with mean m of k samples and new mean m'. */
  lemma WelfordAlgebra(k: real, q: real, m: real, m': real, x: real)
    requires k >= 0.0
    requires (k + 1.0) * m' == k * m + x
    ensures m' == m + (x - m) / (k + 1.0)
    ensures (q - k * m * m) + (x - m) * (x - m') == (q + x * x) - (k + 1.0) * m' * m'
  {
    assert m' == (k * m + x) / (k + 1.0);
    assert (k * m + x) / (k + 1.0) == m + (x - m) / (k + 1.0) by {
      assert k * m + x == m * (k + 1.0) + (x - m);
    }
    assert (k + 1.0) * m' * m' == m' * (k * m + x);
    assert m * (k * m + x) == k * m * m + m * x;
  }

  /**
   * One step of Welford's update on exact reals: from the mean and M2 of s,
   * the incremental formulas give the mean and M2 of s + [x].
   */
  lemma WelfordStep(s: seq<real>, x: real)
    ensures var m := Mean(s);
            var m' := m + (x - m) / (|s| + 1) as real;
            m' == Mean(s + [x]) && M2(s) + (x - m) * (x - m') == M2(s + [x])
  {
    var s' := s + [x];
    SumsAppend(s, x);
    SumIsCountTimesMean(s);
    SumIsCountTimesMean(s');
    M2Closed(s);
    M2Closed(s');
    WelfordAlgebra(|s| as real, SumSq(s), Mean(s), Mean(s'), x);
  }

  lemma SumsAppend(s: seq<real>, x: real)
    ensures Sum(s + [x]) == Sum(s) + x && SumSq(s + [x]) == SumSq(s) + x * x
  {
    AppendLast(s, x);
  }

  lemma SumIsCountTimesMean(s: seq<real>)
    ensures Sum(s) == |s| as real * Mean(s)
  {
    if s != [] {
      var k := |s| as real;
      assert Mean(s) == Sum(s) / k;
    }
  }

  /** The extremes of s + [x] follow from those of s by one comparison each. */
  lemma ExtremesStep(s: seq<real>, x: real)
    requires s != []
    ensures MinOf(s + [x]) == if x < MinOf(s) then x else MinOf(s)
    ensures MaxOf(s + [x]) == if x > MaxOf(s) then x else MaxOf(s)
  {
    AppendLast(s, x);
  }

  /** The accumulator's update statements, read as equations, yield the mean and M2 of s + [x]. */
  lemma WelfordUpdate(s: seq<real>, x: real, mean: real, m2: real, n: nat,
                      delta: real, mean': real, delta2: real, m2': real)
    requires mean == Mean(s) && m2 == M2(s) && n == |s| + 1
    requires delta == x - mean && mean' == mean + delta / n as real
    requires delta2 == x - mean' && m2' == m2 + delta * delta2
    ensures mean' == Mean(s + [x]) && m2' == M2(s + [x])
  {
    WelfordStep(s, x);
  }

  /** The sample variance is never negative. */
  lemma SampleVarianceNonNegative(s: seq<real>)
    ensures SampleVariance(s) >= 0.0
  {
    SqDevNonNegative(s, Mean(s));
  }

  /** OnlineStats: count, running mean, running M2, and the extremes seen so far. */
  class OnlineStats {
    var n: nat
    var mean: real
    var m2: real
    var minV: Bound
    var maxV: Bound
    /** Every sample added, in order. */
    ghost var samples: seq<real>

    ghost predicate Valid()
      reads this
    {
      && n == |samples|
      && mean == Mean(samples)
      && m2 == M2(samples)
      && (n == 0 ==> minV == PosInf && maxV == NegInf)
      && (n > 0 ==> minV == Finite(MinOf(samples)) && maxV == Finite(MaxOf(samples)))
    }

    constructor ()
      ensures Valid() && samples == []
    {
      n, mean, m2 := 0, 0.0, 0.0;
      minV, maxV := PosInf, NegInf;
      samples := [];
    }

    /** add: one more sample; n rises by one and every statistic follows it. */
    method Add(x: real)
      requires Valid()
      modifies this
      ensures Valid() && samples == old(samples) + [x]
      ensures n == old(n) + 1
    {
      if samples != [] { ExtremesStep(samples, x); }
      ghost var s', mean0, m20 := samples + [x], mean, m2;
      n := n + 1;
      if Below(x, minV) { minV := Finite(x); }
      if Above(x, maxV) { maxV := Finite(x); }
      var delta := x - mean;
      mean := mean + delta / n as real;
      var delta2 := x - mean;
      m2 := m2 + delta * delta2;
      WelfordUpdate(samples, x, mean0, m20, n, delta, mean, delta2, m2);
      samples := s';
    }

    /** variance(): the two-pass sample variance of everything added. */
    function Variance(): (r: real)
      reads this
      requires Valid()
      ensures r == SampleVariance(samples)
      ensures r >= 0.0
      ensures n < 2 ==> r == 0.0
    {
      SampleVarianceNonNegative(samples);
      if n >= 2 then m2 / (n - 1) as real else 0.0
    }
  }
}
