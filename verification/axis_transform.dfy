/**
 * The per-axis deadzone, saturation and range transform of the virtual controller, as the
 * ApplyAxisProperties tests of Source/Test/Case/VirtualControllerTest.cpp describe it.
 *
 * A raw axis value in the analog domain [analogMin, analogMax] around analogNeutral falls into
 * one of five regions, separated by four cutoffs:
 * - below the negative saturation cutoff the output is pinned to rangeMin;
 * - between the negative saturation and deadzone cutoffs it ramps from rangeMin to the range's
 *   neutral value;
 * - inside the deadzone it is the neutral value;
 * - between the positive deadzone and saturation cutoffs it ramps up to rangeMax;
 * - above the positive saturation cutoff it is pinned to rangeMax.
 *
 * Deadzone and saturation are proportions of the physical range of motion, out of their
 * respective maxima. The implementation itself is not part of this model: `Apply` is an integer
 * reference function that meets every property the tests check.
 */
module AxisTransform {
  import opened Wrappers
  import opened Arithmetic

  /**
   * C++ integer division, which truncates toward zero. Dafny's `/` is Euclidean, so the two
   * differ for a negative dividend.
   */
  function TruncDiv(a: int, b: int): (q: int)
    requires b > 0
    ensures a >= 0 ==> q == a / b
    ensures a >= 0 ==> 0 <= q * b <= a < q * b + b
    ensures a < 0 ==> a <= q * b <= 0 && q * b < a + b
    ensures a <= 0 ==> q == -((-a) / b)
  {
    if a >= 0 then
      DivBounds(a, b);
      a / b
    else
      DivBounds(-a, b);
      assert -((-a) / b) * b == -(((-a) / b) * b);
      -((-a) / b)
  }

  /** The controller constants the transform is defined over. */
  datatype Limits = Limits(
    analogMin: int, analogNeutral: int, analogMax: int,
    deadzoneMin: int, deadzoneMax: int,
    saturationMin: int, saturationMax: int)
  {
    ghost predicate Valid() {
      && analogMin < analogNeutral < analogMax
      && 0 <= deadzoneMin < deadzoneMax
      && 0 <= saturationMin < saturationMax
    }
  }

  /** The properties configured for one axis. */
  datatype AxisProperties = AxisProperties(deadzone: int, saturation: int, rangeMin: int, rangeMax: int)

  /** Properties the setters can have produced. */
  ghost predicate PropertiesValid(lim: Limits, a: AxisProperties) {
    && lim.deadzoneMin <= a.deadzone <= lim.deadzoneMax
    && lim.saturationMin <= a.saturation <= lim.saturationMax
    && a.rangeMin < a.rangeMax
  }

  /** The deadzone is no larger a proportion of the range of motion than the saturation. */
  ghost predicate DeadzoneWithinSaturation(lim: Limits, a: AxisProperties) {
    a.deadzone * lim.saturationMax <= a.saturation * lim.deadzoneMax
  }

  /** SetAxisDeadzone: accepted exactly inside [deadzoneMin, deadzoneMax]; only the deadzone changes. */
  function SetDeadzone(lim: Limits, a: AxisProperties, v: int): (r: Option<AxisProperties>)
    ensures r.Some? <==> lim.deadzoneMin <= v <= lim.deadzoneMax
    ensures r.Some? ==> r.value == a.(deadzone := v)
  {
    if lim.deadzoneMin <= v <= lim.deadzoneMax then Some(a.(deadzone := v)) else None
  }

  /** SetAxisSaturation: accepted exactly inside [saturationMin, saturationMax]; only the saturation changes. */
  function SetSaturation(lim: Limits, a: AxisProperties, v: int): (r: Option<AxisProperties>)
    ensures r.Some? <==> lim.saturationMin <= v <= lim.saturationMax
    ensures r.Some? ==> r.value == a.(saturation := v)
  {
    if lim.saturationMin <= v <= lim.saturationMax then Some(a.(saturation := v)) else None
  }

  /** SetAxisRange: accepted exactly when the minimum is below the maximum. */
  function SetRange(a: AxisProperties, lo: int, hi: int): (r: Option<AxisProperties>)
    ensures r.Some? <==> lo < hi
    ensures r.Some? ==> r.value == a.(rangeMin := lo, rangeMax := hi)
  {
    if lo < hi then Some(a.(rangeMin := lo, rangeMax := hi)) else None
  }

  /** Setters never produce properties outside their valid set. */
  lemma SettersKeepPropertiesValid(lim: Limits, a: AxisProperties, v: int, lo: int, hi: int)
    requires PropertiesValid(lim, a)
    ensures SetDeadzone(lim, a, v).Some? ==> PropertiesValid(lim, SetDeadzone(lim, a, v).value)
    ensures SetSaturation(lim, a, v).Some? ==> PropertiesValid(lim, SetSaturation(lim, a, v).value)
    ensures SetRange(a, lo, hi).Some? ==> PropertiesValid(lim, SetRange(a, lo, hi).value)
  {
  }

  /**
   * A cutoff point: the neutral value moved toward the extreme `e` by the proportion
   * `p / pMax`, truncated toward zero as the int32 cast does.
   */
  function Cutoff(neutral: int, e: int, p: int, pMax: int): (c: int)
    requires pMax > 0 && 0 <= p <= pMax
    ensures e <= neutral ==> e <= c <= neutral
    ensures e >= neutral ==> neutral <= c <= e
    ensures p == 0 ==> c == neutral
    ensures p == pMax ==> c == e
  {
    CutoffBetween(neutral, e, p, pMax);
    neutral + TruncDiv((e - neutral) * p, pMax)
  }

  lemma CutoffBetween(neutral: int, e: int, p: int, pMax: int)
    requires pMax > 0 && 0 <= p <= pMax
    ensures var c := neutral + TruncDiv((e - neutral) * p, pMax);
            && (e <= neutral ==> e <= c <= neutral)
            && (e >= neutral ==> neutral <= c <= e)
            && (p == 0 ==> c == neutral)
            && (p == pMax ==> c == e)
  {
    var k := e - neutral;
    if k >= 0 {
      ScaleBetween(k, p, pMax);
      MulNonNegative(k, p);
      assert TruncDiv(k * p, pMax) == (k * p) / pMax;
    } else {
      ScaleBetween(-k, p, pMax);
      MulNonNegative(-k, p);
      assert k * p == -((-k) * p);
      assert TruncDiv(k * p, pMax) == -(((-k) * p) / pMax);
    }
  }

  /** A proportion p/pMax of a non-negative span, rounded down, stays inside the span. */
  lemma ScaleBetween(m: int, p: int, pMax: int)
    requires 0 <= m && pMax > 0 && 0 <= p <= pMax
    ensures 0 <= (m * p) / pMax <= m
    ensures p == 0 ==> (m * p) / pMax == 0
    ensures p == pMax ==> (m * p) / pMax == m
  {
    MulNonNegative(m, p);
    DivBounds(m * p, pMax);
    MulMono(p, pMax, m);
    MulRightCancel((m * p) / pMax, m, pMax);
    if p == pMax {
      DivExact(m, pMax);
    }
  }

  /** The four cutoffs in increasing order of raw value. */
  datatype Cutoffs = Cutoffs(saturationNegative: int, deadzoneNegative: int, deadzonePositive: int, saturationPositive: int)

  /**
   * The cutoffs of an axis: the saturation and deadzone proportions of the way from the neutral
   * value to each extreme. Each lies between the neutral value and its extreme; no deadzone puts
   * the deadzone cutoffs at the neutral value, and full saturation puts the saturation cutoffs at
   * the extremes.
   */
  function CutoffsOf(lim: Limits, a: AxisProperties): (c: Cutoffs)
    requires lim.Valid() && PropertiesValid(lim, a)
    ensures lim.analogMin <= c.saturationNegative <= lim.analogNeutral && lim.analogMin <= c.deadzoneNegative <= lim.analogNeutral
    ensures lim.analogNeutral <= c.deadzonePositive <= lim.analogMax && lim.analogNeutral <= c.saturationPositive <= lim.analogMax
    ensures a.deadzone == 0 ==> c.deadzoneNegative == lim.analogNeutral == c.deadzonePositive
    ensures a.saturation == lim.saturationMax ==> c.saturationNegative == lim.analogMin && c.saturationPositive == lim.analogMax
  {
    Cutoffs(
      Cutoff(lim.analogNeutral, lim.analogMin, a.saturation, lim.saturationMax),
      Cutoff(lim.analogNeutral, lim.analogMin, a.deadzone, lim.deadzoneMax),
      Cutoff(lim.analogNeutral, lim.analogMax, a.deadzone, lim.deadzoneMax),
      Cutoff(lim.analogNeutral, lim.analogMax, a.saturation, lim.saturationMax))
  }

  /** With the deadzone inside the saturation, the cutoffs are ordered around the neutral value. */
  lemma CutoffsOrdered(lim: Limits, a: AxisProperties)
    requires lim.Valid() && PropertiesValid(lim, a) && DeadzoneWithinSaturation(lim, a)
    ensures var c := CutoffsOf(lim, a);
            lim.analogMin <= c.saturationNegative <= c.deadzoneNegative <= lim.analogNeutral
            && lim.analogNeutral <= c.deadzonePositive <= c.saturationPositive <= lim.analogMax
  {
    var n := lim.analogNeutral;
    ProportionOrdered(n - lim.analogMin, a.deadzone, lim.deadzoneMax, a.saturation, lim.saturationMax);
    ProportionOrdered(lim.analogMax - n, a.deadzone, lim.deadzoneMax, a.saturation, lim.saturationMax);
    assert (lim.analogMin - n) * a.saturation == -((n - lim.analogMin) * a.saturation);
    assert (lim.analogMin - n) * a.deadzone == -((n - lim.analogMin) * a.deadzone);
    MulNonNegative(n - lim.analogMin, a.saturation);
    MulNonNegative(n - lim.analogMin, a.deadzone);
    MulNonNegative(lim.analogMax - n, a.saturation);
    MulNonNegative(lim.analogMax - n, a.deadzone);
  }

  /** A larger proportion moves a cutoff no nearer to the neutral value: it goes farther toward its extreme. */
  lemma CutoffMovesOutward(neutral: int, e: int, p1: int, p2: int, pMax: int)
    requires pMax > 0 && 0 <= p1 <= p2 <= pMax
    ensures e <= neutral ==> Cutoff(neutral, e, p2, pMax) <= Cutoff(neutral, e, p1, pMax)
    ensures e >= neutral ==> Cutoff(neutral, e, p1, pMax) <= Cutoff(neutral, e, p2, pMax)
  {
    var k := if e >= neutral then e - neutral else neutral - e;
    MulLeftMonotone(pMax, p1, p2);
    assert p1 * pMax <= p2 * pMax;
    ProportionOrdered(k, p1, pMax, p2, pMax);
    MulNonNegative(k, p1);
    MulNonNegative(k, p2);
    if e < neutral {
      assert (e - neutral) * p1 == -(k * p1);
      assert (e - neutral) * p2 == -(k * p2);
    }
  }

  /**
   * The deadzone and saturation sweeps: raising the deadzone or the saturation never moves a
   * cutoff back toward the neutral value, so each step of a sweep widens the regions it grows.
   */
  lemma SweepWidensCutoffs(lim: Limits, a: AxisProperties, b: AxisProperties)
    requires lim.Valid() && PropertiesValid(lim, a) && PropertiesValid(lim, b)
    requires a.deadzone <= b.deadzone && a.saturation <= b.saturation
    ensures var ca := CutoffsOf(lim, a);
            var cb := CutoffsOf(lim, b);
            && cb.saturationNegative <= ca.saturationNegative && cb.deadzoneNegative <= ca.deadzoneNegative
            && ca.deadzonePositive <= cb.deadzonePositive && ca.saturationPositive <= cb.saturationPositive
  {
    var n := lim.analogNeutral;
    CutoffMovesOutward(n, lim.analogMin, a.saturation, b.saturation, lim.saturationMax);
    CutoffMovesOutward(n, lim.analogMin, a.deadzone, b.deadzone, lim.deadzoneMax);
    CutoffMovesOutward(n, lim.analogMax, a.deadzone, b.deadzone, lim.deadzoneMax);
    CutoffMovesOutward(n, lim.analogMax, a.saturation, b.saturation, lim.saturationMax);
  }

  /**
   * Every configuration of the two sweeps, a deadzone with full saturation or a saturation with
   * no deadzone, keeps the deadzone within the saturation.
   */
  lemma SweepsKeepDeadzoneWithinSaturation(lim: Limits, a: AxisProperties)
    requires lim.Valid() && PropertiesValid(lim, a)
    requires a.saturation == lim.saturationMax || a.deadzone == 0
    ensures DeadzoneWithinSaturation(lim, a)
  {
    if a.saturation == lim.saturationMax {
      MulMono(a.deadzone, lim.deadzoneMax, lim.saturationMax);
    } else {
      MulNonNegative(a.saturation, lim.deadzoneMax);
    }
  }

  /** A smaller proportion of the same span rounds down to no more: (k*p1)/m1 <= (k*p2)/m2 when p1/m1 <= p2/m2. */
  lemma ProportionOrdered(k: int, p1: int, m1: int, p2: int, m2: int)
    requires 0 <= k && 0 <= p1 && 0 <= p2 && 0 < m1 && 0 < m2
    requires p1 * m2 <= p2 * m1
    ensures (k * p1) / m1 <= (k * p2) / m2
  {
    MulNonNegative(k, p1);
    MulNonNegative(k, p2);
    var q := (k * p1) / m1;
    assert q * m1 <= k * p1;
    assert q >= 0;
    assert q * m1 * m2 <= k * p1 * m2 by { MulLeftMonotone(m2, q * m1, k * p1); }
    assert k * p1 * m2 <= k * p2 * m1 by {
      MulLeftMonotone(k, p1 * m2, p2 * m1);
      assert k * (p1 * m2) == k * p1 * m2;
      assert k * (p2 * m1) == k * p2 * m1;
    }
    assert (q * m2) * m1 <= (k * p2) * m1;
    MulRightCancel(q * m2, k * p2, m1);
    DivLowerBound(q, k * p2, m2);
  }

  /** The neutral value of the configured range: (rangeMin + rangeMax) / 2 with C++ truncation. */
  function RangeNeutral(a: AxisProperties): (n: int)
    requires a.rangeMin < a.rangeMax
    ensures a.rangeMin <= n <= a.rangeMax
    ensures a.rangeMin + a.rangeMax >= 0 ==> 2 * n <= a.rangeMin + a.rangeMax <= 2 * n + 1
    ensures a.rangeMin + a.rangeMax < 0 ==> 2 * n - 1 <= a.rangeMin + a.rangeMax <= 2 * n
  {
    TruncDiv(a.rangeMin + a.rangeMax, 2)
  }

  /** How far a ramp has come: `span * progress / length`, rounded down. */
  function Ramp(progress: int, length: int, span: int): (r: int)
    requires 0 <= progress <= length && 0 < length && 0 <= span
    ensures 0 <= r <= span
  {
    MulLeftMonotone(span, progress, length);
    MulNonNegative(progress, span);
    assert span * length / length == span;
    DivMonotone(progress * span, span * length, length);
    progress * span / length
  }

  /** A ramp advances with its progress. */
  lemma RampMonotone(p1: int, p2: int, length: int, span: int)
    requires 0 <= p1 <= p2 <= length && 0 < length && 0 <= span
    ensures Ramp(p1, length, span) <= Ramp(p2, length, span)
  {
    MulLeftMonotone(span, p1, p2);
    DivMonotone(p1 * span, p2 * span, length);
  }

  /** The cutoffs in increasing order. */
  ghost predicate Ordered(c: Cutoffs) {
    c.saturationNegative <= c.deadzoneNegative <= c.deadzonePositive <= c.saturationPositive
  }

  /**
   * The five-region shape over given cutoffs, from `lo` through the neutral value `n` to `hi`.
   */
  function Shape(c: Cutoffs, lo: int, n: int, hi: int, x: int): (r: int)
    requires Ordered(c) && lo <= n <= hi
    ensures lo <= r <= hi
  {
    if x < c.saturationNegative then lo
    else if x < c.deadzoneNegative then
      lo + Ramp(x - c.saturationNegative, c.deadzoneNegative - c.saturationNegative, n - lo)
    else if x <= c.deadzonePositive then n
    else if x <= c.saturationPositive then
      n + Ramp(x - c.deadzonePositive, c.saturationPositive - c.deadzonePositive, hi - n)
    else hi
  }

  /** ApplyProperties for one axis: the output for raw value `x`. */
  function Apply(lim: Limits, a: AxisProperties, x: int): (r: int)
    requires lim.Valid() && PropertiesValid(lim, a) && DeadzoneWithinSaturation(lim, a)
    requires lim.analogMin <= x <= lim.analogMax
    ensures a.rangeMin <= r <= a.rangeMax
  {
    CutoffsOrdered(lim, a);
    Shape(CutoffsOf(lim, a), a.rangeMin, RangeNeutral(a), a.rangeMax, x)
  }

  /** Regions 1, 3 and 5: the plateaus. */
  lemma Plateaus(lim: Limits, a: AxisProperties, x: int)
    requires lim.Valid() && PropertiesValid(lim, a) && DeadzoneWithinSaturation(lim, a)
    requires lim.analogMin <= x <= lim.analogMax
    ensures var c := CutoffsOf(lim, a);
            && (x < c.saturationNegative ==> Apply(lim, a, x) == a.rangeMin)
            && (c.deadzoneNegative <= x <= c.deadzonePositive ==> Apply(lim, a, x) == RangeNeutral(a))
            && (x > c.saturationPositive ==> Apply(lim, a, x) == a.rangeMax)
  {
    CutoffsOrdered(lim, a);
    var c := CutoffsOf(lim, a);
    assert Apply(lim, a, x) == Shape(c, a.rangeMin, RangeNeutral(a), a.rangeMax, x);
  }

  /** The rounding of an integer quotient is less than one away from the exact quotient. */
  lemma FloorWithinOne(n: int, d: int)
    requires 0 <= n && 0 < d
    ensures (n / d) as real <= n as real / d as real < (n / d) as real + 1.0
  {
    var q := n / d;
    var m := n % d;
    assert n == q * d + m && 0 <= m < d;
    assert n as real == q as real * d as real + m as real;
    assert n as real / d as real == q as real + m as real / d as real;
    assert 0.0 <= m as real / d as real < 1.0;
  }

  /** A ramp is within one below the straight line of slope span/length. */
  lemma RampNearLinear(progress: int, length: int, span: int)
    requires 0 <= progress <= length && 0 < length && 0 <= span
    ensures var exact := progress as real * (span as real / length as real);
            exact - 1.0 < Ramp(progress, length, span) as real <= exact
  {
    MulNonNegative(progress, span);
    FloorWithinOne(progress * span, length);
    assert (progress * span) as real / length as real == progress as real * (span as real / length as real);
  }

  /**
   * Region 2: the output is within one of the straight line from (saturation cutoff, rangeMin)
   * to (deadzone cutoff, range neutral).
   */
  lemma ShapeNegativeRamp(c: Cutoffs, lo: int, n: int, hi: int, x: int)
    requires Ordered(c) && lo <= n <= hi
    requires c.saturationNegative <= x < c.deadzoneNegative
    ensures var step := (n - lo) as real / (c.deadzoneNegative - c.saturationNegative) as real;
            var expected := lo as real + (x - c.saturationNegative) as real * step;
            expected - 1.0 < Shape(c, lo, n, hi, x) as real <= expected
  {
    RampNearLinear(x - c.saturationNegative, c.deadzoneNegative - c.saturationNegative, n - lo);
  }

  /**
   * Region 4: the output is within one of the straight line from (deadzone cutoff, range
   * neutral) to (saturation cutoff, rangeMax).
   */
  lemma ShapePositiveRamp(c: Cutoffs, lo: int, n: int, hi: int, x: int)
    requires Ordered(c) && lo <= n <= hi
    requires c.deadzonePositive < x <= c.saturationPositive
    ensures var step := (hi - n) as real / (c.saturationPositive - c.deadzonePositive) as real;
            var expected := n as real + (x - c.deadzonePositive) as real * step;
            expected - 1.0 < Shape(c, lo, n, hi, x) as real <= expected
  {
    RampNearLinear(x - c.deadzonePositive, c.saturationPositive - c.deadzonePositive, hi - n);
  }

  /** The shape never decreases as the raw value increases. */
  lemma ShapeMonotone(c: Cutoffs, lo: int, n: int, hi: int, x: int, y: int)
    requires Ordered(c) && lo <= n <= hi && x <= y
    ensures Shape(c, lo, n, hi, x) <= Shape(c, lo, n, hi, y)
  {
    if c.saturationNegative <= x && y < c.deadzoneNegative {
      RampMonotone(x - c.saturationNegative, y - c.saturationNegative, c.deadzoneNegative - c.saturationNegative, n - lo);
    } else if c.deadzonePositive < x && y <= c.saturationPositive {
      RampMonotone(x - c.deadzonePositive, y - c.deadzonePositive, c.saturationPositive - c.deadzonePositive, hi - n);
    }
  }

  /** The output never decreases as the raw value increases. */
  lemma Monotone(lim: Limits, a: AxisProperties, x: int, y: int)
    requires lim.Valid() && PropertiesValid(lim, a) && DeadzoneWithinSaturation(lim, a)
    requires lim.analogMin <= x <= y <= lim.analogMax
    ensures Apply(lim, a, x) <= Apply(lim, a, y)
  {
    CutoffsOrdered(lim, a);
    ShapeMonotone(CutoffsOf(lim, a), a.rangeMin, RangeNeutral(a), a.rangeMax, x, y);
  }
}
