/** Chart arithmetic in exact reals: tick selection, linear scales, plotted points and bar slots. */
module ChartTicks {
  import opened Options

  // Powers of ten.

  function Pow10(e: int): (p: real)
    ensures p > 0.0
    decreases if e < 0 then -e else e
  {
    if e == 0 then 1.0 else if e > 0 then 10.0 * Pow10(e - 1) else Pow10(e + 1) / 10.0
  }

  lemma {:induction false} Pow10Step(e: int)
    ensures Pow10(e + 1) == 10.0 * Pow10(e)
  {
  }

  lemma {:induction false} Pow10Grows(n: nat)
    ensures Pow10(n) >= n as real + 1.0
  {
    if n == 0 {
    } else {
      Pow10Grows(n - 1);
    }
  }

  lemma {:induction false} Pow10Inverse(n: int)
    requires n >= 0
    ensures Pow10(-n) * Pow10(n) == 1.0
    decreases n
  {
    if n == 0 {
    } else {
      Pow10Inverse(n - 1);
      Pow10Step(-n);
      assert Pow10(n) == 10.0 * Pow10(n - 1);
    }
  }

  lemma {:induction false} Pow10Monotone(d: int, e: int)
    requires d <= e
    ensures Pow10(d) <= Pow10(e)
    decreases e - d
  {
    if d < e {
      Pow10Monotone(d, e - 1);
      Pow10Step(e - 1);
    }
  }

  /** Some power of ten is at most `x`, some power of ten is above it. */
  lemma {:induction false} Pow10Brackets(x: real) returns (low: int, high: int)
    requires x > 0.0
    ensures low <= 0 <= high && Pow10(low) <= x < Pow10(high)
  {
    high := x.Floor + 1;
    Pow10Grows(high);
    var n := (1.0 / x).Floor + 1;
    Pow10Grows(n);
    Pow10Inverse(n);
    assert Pow10(n) >= 1.0 / x;
    low := -n;
    Reciprocal(x, Pow10(n), Pow10(low));
  }

  lemma {:induction false} Reciprocal(x: real, p: real, q: real)
    requires x > 0.0 && p >= 1.0 / x && q > 0.0 && q * p == 1.0
    ensures q <= x
  {
    assert x * (1.0 / x) == 1.0;
    assert x * p >= 1.0 by {
      assert x * p - x * (1.0 / x) == x * (p - 1.0 / x);
    }
    assert q * (x * p) == x * (q * p);
    assert q * (x * p) - q == q * (x * p - 1.0);
  }

  /** The whole decades below `x`: the exponent of the largest power of ten not above it. */
  method Log10Floor(x: real) returns (e: int)
    requires x > 0.0
    ensures Pow10(e) <= x < Pow10(e + 1)
  {
    ghost var low, high := Pow10Brackets(x);
    e := 0;
    while Pow10(e) > x
      invariant low <= e <= 0
      invariant e < 0 ==> x < Pow10(e + 1)
      decreases e - low
    {
      if e == low {
        assert false;
      }
      e := e - 1;
    }
    while Pow10(e + 1) <= x
      invariant low <= e < high
      invariant Pow10(e) <= x
      decreases high - e
    {
      if e + 1 >= high {
        Pow10Monotone(high, e + 1);
        assert false;
      }
      e := e + 1;
    }
  }

  // Tick selection.

  function Max1(target: int): (r: nat)
  {
    if target < 1 then 1 else target
  }

  /** The range an axis must cover: in order, and widened around a single value. */
  function Widen(lo: real, hi: real): (r: (real, real))
    ensures r.0 < r.1 && r.0 <= lo <= r.1 && r.0 <= hi <= r.1
  {
    if hi < lo then (hi, lo)
    else if lo < hi then (lo, hi)
    else
      var size := if hi < 0.0 then -hi else hi;
      var pad := if size == 0.0 then 1.0 else size * 0.1;
      (lo - pad, hi + pad)
  }

  /** Only a single value widens the range: by a tenth of its size on either side, or by one around zero. */
  lemma {:induction false} WidenIs(lo: real, hi: real)
    ensures lo != hi ==> Widen(lo, hi) == (if lo < hi then lo else hi, if lo < hi then hi else lo)
    ensures lo == hi && hi != 0.0 ==>
              && Widen(lo, hi).1 - hi == hi - Widen(lo, hi).0
              && 10.0 * (Widen(lo, hi).1 - hi) == if hi < 0.0 then -hi else hi
    ensures lo == hi == 0.0 ==> Widen(lo, hi) == (-1.0, 1.0)
  {
  }

  const Multiples := [1.0, 2.0, 2.5, 5.0, 10.0]

  /** The multiple number `i` of a power of ten. */
  function Nice(e: int, i: nat): (r: real)
    requires i < |Multiples|
  {
    Pow10(e) * Multiples[i]
  }

  /** One of the multiples 1, 2, 2.5, 5 and 10 of a power of ten. */
  ghost predicate IsRound(step: real)
  {
    exists e: int, i: nat :: i < |Multiples| && step == Nice(e, i)
  }

  /** The least round number that is not below `raw`. */
  ghost predicate IsLeastRound(raw: real, step: real)
  {
    raw <= step && IsRound(step) && forall t :: IsRound(t) && raw <= t ==> step <= t
  }

  /** Round numbers of other decades are either too small or no smaller than the multiples of this one. */
  lemma {:induction false} OtherDecades(raw: real, e: int, d: int, i: nat)
    requires Pow10(e) <= raw < Pow10(e + 1) && i < |Multiples| && raw <= Nice(d, i)
    ensures d < e ==> raw == Pow10(e)
    ensures d > e ==> 10.0 * Pow10(e) <= Nice(d, i)
  {
    Pow10Step(e);
    if d < e {
      Pow10Monotone(d, e - 1);
      Pow10Step(e - 1);
    } else if d > e {
      Pow10Monotone(e + 1, d);
    }
  }

  lemma {:induction false} StepBounds(raw: real, e: int, i: nat)
    requires Pow10(e) <= raw && i < |Multiples|
    requires forall j :: 0 <= j < i ==> Nice(e, j) < raw
    ensures Nice(e, i) < 2.0 * raw && Nice(e, i) <= 10.0 * Pow10(e)
    ensures raw == Pow10(e) ==> Nice(e, i) == raw
  {
    hide Pow10;
    assert i > 0 ==> Nice(e, i - 1) < raw && Nice(e, 0) < raw;
  }

  lemma {:induction false} FirstMultipleIsLeast(raw: real, e: int, i: nat)
    requires Pow10(e) <= raw < Pow10(e + 1) && i < |Multiples| && raw <= Nice(e, i)
    requires forall j :: 0 <= j < i ==> Nice(e, j) < raw
    ensures IsLeastRound(raw, Nice(e, i)) && Nice(e, i) < 2.0 * raw
  {
    StepBounds(raw, e, i);
    hide Pow10, Nice;
    forall t | IsRound(t) && raw <= t
      ensures Nice(e, i) <= t
    {
      var d: int, k: nat :| k < |Multiples| && t == Nice(d, k);
      OtherDecades(raw, e, d, k);
      if d == e {
        SameDecade(raw, e, i, k);
      }
    }
  }

  lemma {:induction false} SameDecade(raw: real, e: int, i: nat, k: nat)
    requires i < |Multiples| && k < |Multiples| && raw <= Nice(e, k)
    requires forall j :: 0 <= j < i ==> Nice(e, j) < raw
    ensures Nice(e, i) <= Nice(e, k)
  {
    assert i <= k;
    assert Multiples[i] <= Multiples[k];
  }

  method PickStep(raw: real) returns (step: real)
    requires raw > 0.0
    ensures IsLeastRound(raw, step) && raw <= step < 2.0 * raw
  {
    var e := Log10Floor(raw);
    Pow10Step(e);
    var magnitude := Pow10(e);
    var i := 0;
    step := magnitude;
    while i < |Multiples|
      invariant 0 <= i <= |Multiples|
      invariant forall j :: 0 <= j < i ==> Nice(e, j) < raw
      invariant i < |Multiples|
    {
      step := magnitude * Multiples[i];
      if step >= raw {
        break;
      }
      i := i + 1;
    }
    FirstMultipleIsLeast(raw, e, i);
  }

  function Ceil(x: real): (n: int)
    ensures x <= n as real < x + 1.0
  {
    -((-x).Floor)
  }

  function Round(x: real): (n: int)
  {
    (x + 0.5).Floor
  }

  // Products and quotients, behind names so that the proofs about them stay linear.

  function Mul(a: real, b: real): (r: real)
  {
    a * b
  }

  function Div(a: real, b: real): (r: real)
    requires b != 0.0
  {
    a / b
  }

  lemma {:induction false} MulOrder(a: real, b: real, s: real)
    requires s >= 0.0
    ensures a <= b ==> Mul(a, s) <= Mul(b, s)
    ensures a < b && s > 0.0 ==> Mul(a, s) < Mul(b, s)
  {
    var d := b - a;
    assert Mul(b, s) == Mul(a, s) + d * s;
    hide Mul;
    if d > 0.0 && s > 0.0 {
      assert d * s > 0.0;
    } else if d >= 0.0 {
      assert d * s >= 0.0;
    }
  }

  lemma {:induction false} MulLaws(a: real, b: real, s: real)
    ensures Mul(a + b, s) == Mul(a, s) + Mul(b, s)
    ensures Mul(a, b) == Mul(b, a) && Mul(a, -s) == -Mul(a, s) && Mul(2.0 * a, b / 2.0) == Mul(b, a)
    ensures Mul(0.0, s) == 0.0 && Mul(1.0, s) == s && Mul(0.5, s) == 0.5 * s
  {
  }

  lemma {:induction false} DivOrder(a: real, b: real, s: real)
    requires s > 0.0
    ensures a < b ==> Div(a, s) < Div(b, s)
    ensures b > 0.0 ==> Div(b, s) > 0.0
  {
    var d := b - a;
    assert b / s - a / s == d / s;
    assert d > 0.0 ==> d / s > 0.0;
  }

  lemma {:induction false} DivLaws(x: real, s: real)
    requires s != 0.0
    ensures Mul(Div(x, s), s) == x && Div(Mul(x, s), s) == x
    ensures Div(0.0, s) == 0.0 && Div(s, s) == 1.0
  {
  }

  /** `k` steps. */
  function Steps(k: int, step: real): (r: real)
  {
    Mul(k as real, step)
  }

  /** The last multiple of the step at or below `x`, and the first at or above it, as counts of steps. */
  function Below(x: real, step: real): (k: int)
    requires step > 0.0
  {
    Div(x, step).Floor
  }

  function Above(x: real, step: real): (n: int)
    requires step > 0.0
  {
    Ceil(Div(x, step))
  }

  lemma {:induction false} BelowBounds(x: real, step: real)
    requires step > 0.0
    ensures Steps(Below(x, step), step) <= x < Steps(Below(x, step) + 1, step)
  {
    hide Mul, Div;
    var q := Div(x, step);
    DivLaws(x, step);
    MulOrder(q.Floor as real, q, step);
    MulOrder(q, (q.Floor + 1) as real, step);
  }

  lemma {:induction false} AboveBounds(x: real, step: real)
    requires step > 0.0
    ensures Steps(Above(x, step) - 1, step) < x <= Steps(Above(x, step), step)
  {
    hide Mul, Div;
    var q := Div(x, step);
    DivLaws(x, step);
    MulOrder((Ceil(q) - 1) as real, q, step);
    MulOrder(q, Ceil(q) as real, step);
  }

  lemma {:induction false} StepsAdd(a: int, b: int, step: real)
    ensures Steps(a + b, step) == Steps(a, step) + Steps(b, step)
    ensures Steps(1, step) == step && Steps(0, step) == 0.0
  {
    hide Mul;
    MulLaws(a as real, b as real, step);
    MulLaws(0.0, 0.0, step);
  }

  lemma {:induction false} WholeSteps(c: int, step: real)
    requires step > 0.0
    ensures Round(Div(Steps(c, step), step)) == c
  {
    hide Mul, Div;
    DivLaws(c as real, step);
  }

  /** `count` steps reach over `target` raw steps, and overshoot at both ends by less than two. */
  lemma {:induction false} StepsForTarget(raw: real, step: real, target: nat, count: int)
    requires 0.0 < raw <= step < 2.0 * raw && target >= 1
    requires Steps(count, step) >= Steps(target, raw) && Steps(count - 2, step) < Steps(target, raw)
    ensures target < 2 * count && count <= target + 1
  {
    hide Mul;
    var t := target as real;
    if 2 * count <= target {
      MulOrder(count as real, t / 2.0, step);
      MulLaws(t / 2.0, step, 0.0);
      MulOrder(step, 2.0 * raw, t / 2.0);
      MulLaws(raw, t, 0.0);
    }
    if count >= target + 2 {
      MulOrder(t, (count - 2) as real, step);
      MulLaws(t, step, 0.0);
      MulOrder(raw, step, t);
      MulLaws(raw, t, 0.0);
    }
  }

  lemma {:induction false} RawStep(span: real, target: nat)
    requires span > 0.0 && target >= 1
    ensures Div(span, target as real) > 0.0 && Steps(target, Div(span, target as real)) == span
  {
    hide Mul, Div;
    DivLaws(span, target as real);
    MulLaws(Div(span, target as real), target as real, 0.0);
    DivOrder(0.0, span, target as real);
  }

  lemma {:induction false} TickFacts(l: real, h: real, raw: real, step: real, target: nat)
    requires l < h && target >= 1 && h - l == Steps(target, raw) && 0.0 < raw <= step < 2.0 * raw
    ensures var loT, hiT := Steps(Below(l, step), step), Steps(Above(h, step), step);
            var count := Round(Div(hiT - loT, step));
            && loT <= l < loT + step && hiT - step < h <= hiT
            && target < 2 * count && count <= target + 1
            && loT + Steps(count, step) == hiT
  {
    hide Steps, Below, Above, Mul, Div;
    var k, n := Below(l, step), Above(h, step);
    BelowBounds(l, step);
    AboveBounds(h, step);
    StepsAdd(k, 1, step);
    StepsAdd(n - 1, 1, step);
    StepsAdd(k, n - k, step);
    StepsAdd(n - k - 2, 1, step);
    StepsAdd(n - k - 1, 1, step);
    WholeSteps(n - k, step);
    StepsForTarget(raw, step, target, n - k);
  }

  ghost predicate IsMultiple(x: real, step: real)
  {
    exists k: int :: x == Steps(k, step)
  }

  /** The step is the least round number that is not below the span divided by the target; the bounds are the
      multiples of the step next to the range, the ticks run evenly from one to the other. */
  method NiceTicks(lo: real, hi: real, target: int) returns (loT: real, hiT: real, ticks: seq<real>, step: real)
    ensures var (l, h) := Widen(lo, hi);
            var raw := Div(h - l, Max1(target) as real);
            && IsLeastRound(raw, step) && step < 2.0 * raw
            && IsMultiple(loT, step) && IsMultiple(hiT, step)
            && loT <= l < loT + step && hiT - step < h <= hiT
    ensures Max1(target) < 2 * (|ticks| - 1) && |ticks| - 1 <= Max1(target) + 1
    ensures forall i :: 0 <= i < |ticks| ==> ticks[i] == loT + Steps(i, step)
    ensures ticks[0] == loT && ticks[|ticks| - 1] == hiT
  {
    hide Steps, Below, Above, IsLeastRound, Mul, Div;
    var (l, h) := Widen(lo, hi);
    var raw := Div(h - l, Max1(target) as real);
    RawStep(h - l, Max1(target));
    step := PickStep(raw);
    TickFacts(l, h, raw, step, Max1(target));
    loT, hiT := Steps(Below(l, step), step), Steps(Above(h, step), step);
    var count := Round(Div(hiT - loT, step));
    StepsAdd(0, 0, step);
    ticks := EvenTicks(loT, step, count);
  }

  method EvenTicks(from: real, step: real, count: int) returns (ticks: seq<real>)
    requires count >= 0
    ensures |ticks| == count + 1
    ensures forall i :: 0 <= i < |ticks| ==> ticks[i] == from + Steps(i, step)
  {
    ticks := [];
    var i := 0;
    while i < count + 1
      invariant 0 <= i <= count + 1 && |ticks| == i
      invariant forall j :: 0 <= j < i ==> ticks[j] == from + Steps(j, step)
    {
      ticks := ticks + [from + Steps(i, step)];
      i := i + 1;
    }
  }

  // Linear scales.

  /** How far along the axis a value lies. */
  function Fraction(lo: real, hi: real, v: real): (f: real)
  {
    Div(v - lo, if hi - lo == 0.0 then 1.0 else hi - lo)
  }

  function Scale(lo: real, hi: real, pixLo: real, pixHi: real, v: real): (p: real)
  {
    pixLo + Mul(Fraction(lo, hi, v), pixHi - pixLo)
  }

  lemma {:induction false} FractionIsMonotone(lo: real, hi: real, v: real, w: real)
    requires lo < hi && v < w
    ensures Fraction(lo, hi, v) < Fraction(lo, hi, w)
    ensures Fraction(lo, hi, lo) == 0.0 && Fraction(lo, hi, hi) == 1.0
  {
    hide Div;
    DivOrder(v - lo, w - lo, hi - lo);
    DivLaws(0.0, hi - lo);
  }

  /** The axis bounds map exactly onto the plot edges, in either direction, and order is kept strictly. */
  lemma {:induction false} ScaleIsMonotone(lo: real, hi: real, pixLo: real, pixHi: real, v: real, w: real)
    requires lo < hi && v < w
    ensures Scale(lo, hi, pixLo, pixHi, lo) == pixLo && Scale(lo, hi, pixLo, pixHi, hi) == pixHi
    ensures pixLo < pixHi ==> Scale(lo, hi, pixLo, pixHi, v) < Scale(lo, hi, pixLo, pixHi, w)
    ensures pixLo > pixHi ==> Scale(lo, hi, pixLo, pixHi, v) > Scale(lo, hi, pixLo, pixHi, w)
  {
    hide Fraction, Mul;
    FractionIsMonotone(lo, hi, v, w);
    var f, g, d := Fraction(lo, hi, v), Fraction(lo, hi, w), pixHi - pixLo;
    MulLaws(0.0, 0.0, d);
    if d > 0.0 {
      MulOrder(f, g, d);
    } else if d < 0.0 {
      MulOrder(f, g, -d);
      MulLaws(f, 0.0, d);
      MulLaws(g, 0.0, d);
    }
  }

  lemma {:induction false} ScaleStaysInside(lo: real, hi: real, pixLo: real, pixHi: real, v: real)
    requires lo < hi && lo <= v <= hi
    ensures var p := Scale(lo, hi, pixLo, pixHi, v);
            (pixLo <= pixHi ==> pixLo <= p <= pixHi) && (pixHi <= pixLo ==> pixHi <= p <= pixLo)
  {
    hide Fraction, Mul;
    FractionIsMonotone(lo, hi, lo, hi);
    if lo < v {
      FractionIsMonotone(lo, hi, lo, v);
    }
    if v < hi {
      FractionIsMonotone(lo, hi, v, hi);
    }
    var f, d := Fraction(lo, hi, v), pixHi - pixLo;
    MulLaws(0.0, 0.0, d);
    MulLaws(0.0, 0.0, -d);
    MulLaws(f, 0.0, d);
    if d >= 0.0 {
      MulOrder(0.0, f, d);
      MulOrder(f, 1.0, d);
    } else {
      MulOrder(0.0, f, -d);
      MulOrder(f, 1.0, -d);
    }
  }

  // The line chart.

  type Point = (real, real)

  const X0 := 78.0
  const Y0 := 56.0
  const X1 := 858.0
  const Y1 := 376.0

  /** The plot rectangle. */
  predicate InPlot(p: Point)
  {
    X0 <= p.0 <= X1 && Y0 <= p.1 <= Y1
  }

  /** The two axes' bounds. */
  datatype Axes = Axes(xLo: real, xHi: real, yLo: real, yHi: real)

  /** Where a sample is drawn: the value axis grows upwards. */
  function Pixel(axes: Axes, p: Point): (pixel: Point)
  {
    (Scale(axes.xLo, axes.xHi, X0, X1, p.0), Scale(axes.yLo, axes.yHi, Y1, Y0, p.1))
  }

  predicate Covers(axes: Axes, p: Point)
  {
    axes.xLo <= p.0 <= axes.xHi && axes.yLo <= p.1 <= axes.yHi
  }

  /** What is drawn for one series: each of its points, scaled, in order. */
  ghost predicate Traces(axes: Axes, points: seq<Point>, pixels: seq<Point>)
  {
    |pixels| == |points| && forall j :: 0 <= j < |pixels| ==> pixels[j] == Pixel(axes, points[j]) && InPlot(pixels[j])
  }

  /** A drawn series: its index, and its points in pixels. */
  datatype Drawn = Drawn(index: nat, points: seq<Point>)

  /** The least axes that cover these points: each bound is the coordinate of one of them. */
  ghost predicate Hulls(axes: Axes, points: seq<Point>)
  {
    && (forall p :: p in points ==> Covers(axes, p))
    && (exists p :: p in points && p.0 == axes.xLo)
    && (exists p :: p in points && p.0 == axes.xHi)
    && (exists p :: p in points && p.1 == axes.yLo)
    && (exists p :: p in points && p.1 == axes.yHi)
  }

  function Least(a: real, b: real): (r: real)
  {
    if b < a then b else a
  }

  function Greatest(a: real, b: real): (r: real)
  {
    if b > a then b else a
  }

  lemma {:induction false} HullGrows(axes: Axes, points: seq<Point>, p: Point)
    requires Hulls(axes, points)
    ensures Hulls(Axes(Least(axes.xLo, p.0), Greatest(axes.xHi, p.0), Least(axes.yLo, p.1), Greatest(axes.yHi, p.1)),
                  points + [p])
  {
    var more := points + [p];
    assert p in more && forall q :: q in points ==> q in more;
    assert exists q :: q in more && q.0 == Least(axes.xLo, p.0);
    assert exists q :: q in more && q.0 == Greatest(axes.xHi, p.0);
    assert exists q :: q in more && q.1 == Least(axes.yLo, p.1);
    assert exists q :: q in more && q.1 == Greatest(axes.yHi, p.1);
  }

  method Extent(points: seq<Point>) returns (axes: Axes)
    requires points != []
    ensures Hulls(axes, points)
  {
    axes := Axes(points[0].0, points[0].0, points[0].1, points[0].1);
    assert Hulls(axes, points[..1]) by {
      assert points[0] in points[..1];
    }
    var i := 1;
    while i < |points|
      invariant 1 <= i <= |points| && Hulls(axes, points[..i])
    {
      var p := points[i];
      HullGrows(axes, points[..i], p);
      assert points[..i] + [p] == points[..i + 1];
      axes := Axes(Least(axes.xLo, p.0), Greatest(axes.xHi, p.0), Least(axes.yLo, p.1), Greatest(axes.yHi, p.1));
      i := i + 1;
    }
    assert points[..i] == points;
  }

  /** The points of all series, in order. */
  function AllPoints(series: seq<seq<Point>>): (r: seq<Point>)
  {
    if series == [] then [] else series[0] + AllPoints(series[1..])
  }

  lemma {:induction false} AllPointsHold(series: seq<seq<Point>>, i: nat)
    requires i < |series|
    ensures forall p :: p in series[i] ==> p in AllPoints(series)
  {
    if i == 0 {
    } else {
      AllPointsHold(series[1..], i - 1);
    }
  }

  /** The order of drawing: every series once, the highlighted one last. */
  function DrawOrder(n: nat, highlight: Option<nat>): (order: seq<nat>)
  {
    Others(n, highlight) + (if highlight.Some? then [highlight.value] else [])
  }

  function Others(n: nat, highlight: Option<nat>): (order: seq<nat>)
  {
    if n == 0 then []
    else Others(n - 1, highlight) + (if highlight == Some(n - 1) then [] else [n - 1])
  }

  ghost predicate Ascending(others: seq<nat>, n: nat, highlight: Option<nat>)
  {
    && (forall a :: 0 <= a < |others| ==> others[a] < n && highlight != Some(others[a]))
    && (forall a, b :: 0 <= a < b < |others| ==> others[a] < others[b])
  }

  lemma {:induction false} OthersAscend(n: nat, highlight: Option<nat>)
    ensures Ascending(Others(n, highlight), n, highlight)
  {
    if n == 0 {
    } else {
      OthersAscend(n - 1, highlight);
    }
  }

  lemma {:induction false} OthersHold(n: nat, highlight: Option<nat>, i: nat)
    requires i < n && highlight != Some(i)
    ensures i in Others(n, highlight)
  {
    if i < n - 1 {
      OthersHold(n - 1, highlight, i);
    }
  }

  /** Every series is drawn exactly once, and nothing is drawn after the highlighted one. */
  lemma {:induction false} DrawOrderIsComplete(n: nat, highlight: Option<nat>)
    requires highlight.Some? ==> highlight.value < n
    ensures var order := DrawOrder(n, highlight);
            && (forall i: nat :: i < n ==> i in order)
            && (forall a :: 0 <= a < |order| ==> order[a] < n)
            && (forall a, b :: 0 <= a < b < |order| ==> order[a] != order[b])
            && (highlight.Some? ==> |order| > 0 && order[|order| - 1] == highlight.value)
            && (forall a, b :: 0 <= a < b < |order| ==> order[a] < order[b] || highlight == Some(order[b]))
  {
    OthersAscend(n, highlight);
    forall i: nat | i < n
      ensures i in DrawOrder(n, highlight)
    {
      if highlight != Some(i) {
        OthersHold(n, highlight, i);
      }
    }
  }

  ghost predicate ComesBefore(order: seq<nat>, o: nat, x: nat, y: nat)
  {
    exists a, b :: 0 <= a < b < o && b < |order| && order[a] == x && order[b] == y
  }

  /** What has been drawn after the first `o` series of the drawing order. */
  ghost predicate DrawnSoFar(axes: Axes, series: seq<seq<Point>>, order: seq<nat>, o: nat, drawn: seq<Drawn>)
  {
    && o <= |order|
    && (forall d :: 0 <= d < |drawn| ==>
          && drawn[d].index < |series| && drawn[d].index in order[..o]
          && drawn[d].points != [] && Traces(axes, series[drawn[d].index], drawn[d].points))
    && (forall a :: 0 <= a < o && order[a] < |series| && series[order[a]] != [] ==>
          IsDrawn(drawn, order[a]))
    && (forall c, d :: 0 <= c < d < |drawn| ==> drawn[c].index != drawn[d].index)
    && (forall c, d :: 0 <= c < d < |drawn| ==> ComesBefore(order, o, drawn[c].index, drawn[d].index))
    && (o > 0 && order[o - 1] < |series| && series[order[o - 1]] != [] ==>
          drawn != [] && drawn[|drawn| - 1].index == order[o - 1])
  }

  lemma {:induction false} DrawnOneMore(
    axes: Axes, series: seq<seq<Point>>, order: seq<nat>, o: nat, drawn: seq<Drawn>, d: Drawn)
    requires DrawnSoFar(axes, series, order, o, drawn) && o < |order| && order[o] < |series|
    requires forall a :: 0 <= a < o ==> order[a] != order[o]
    requires d.index == order[o] && d.points != [] && Traces(axes, series[order[o]], d.points)
    ensures DrawnSoFar(axes, series, order, o + 1, drawn + [d])
  {
    hide Traces;
    var after := drawn + [d];
    assert order[..o + 1] == order[..o] + [order[o]];
    assert order[o] !in order[..o];
    forall a | 0 <= a < o + 1 && order[a] < |series| && series[order[a]] != []
      ensures IsDrawn(after, order[a])
    {
      if a < o {
        assert IsDrawn(drawn, order[a]);
        DrawnStays(drawn, d, order[a]);
      } else {
        assert after[|drawn|].index == order[a];
      }
    }
  }

  ghost predicate IsDrawn(drawn: seq<Drawn>, i: nat)
  {
    exists d :: 0 <= d < |drawn| && drawn[d].index == i
  }

  lemma {:induction false} DrawnStays(drawn: seq<Drawn>, d: Drawn, i: nat)
    requires IsDrawn(drawn, i)
    ensures IsDrawn(drawn + [d], i)
  {
    var c :| 0 <= c < |drawn| && drawn[c].index == i;
    assert (drawn + [d])[c] == drawn[c];
  }

  lemma {:induction false} NothingMore(axes: Axes, series: seq<seq<Point>>, order: seq<nat>, o: nat, drawn: seq<Drawn>)
    requires DrawnSoFar(axes, series, order, o, drawn) && o < |order| && order[o] < |series| && series[order[o]] == []
    ensures DrawnSoFar(axes, series, order, o + 1, drawn)
  {
    assert forall x :: x in order[..o] ==> x in order[..o + 1];
  }

  method DrawSeries(series: seq<seq<Point>>, order: seq<nat>, axes: Axes) returns (drawn: seq<Drawn>)
    requires axes.xLo < axes.xHi && axes.yLo < axes.yHi
    requires forall i, j :: 0 <= i < |series| && 0 <= j < |series[i]| ==> Covers(axes, series[i][j])
    requires forall a :: 0 <= a < |order| ==> order[a] < |series|
    requires forall a, b :: 0 <= a < b < |order| ==> order[a] != order[b]
    ensures DrawnSoFar(axes, series, order, |order|, drawn)
  {
    drawn := [];
    var o := 0;
    assert DrawnSoFar(axes, series, order, 0, []);
    hide DrawnSoFar, Traces;
    while o < |order|
      invariant 0 <= o <= |order| && DrawnSoFar(axes, series, order, o, drawn)
    {
      var i := order[o];
      if series[i] == [] {
        NothingMore(axes, series, order, o, drawn);
      } else {
        var points := PlotPoints(series[i], axes);
        DrawnOneMore(axes, series, order, o, drawn, Drawn(i, points));
        drawn := drawn + [Drawn(i, points)];
      }
      o := o + 1;
    }
  }

  /** The bounds `NiceTicks` gives a range: multiples of the least round step, next to the range. */
  ghost predicate IsAxis(lo: real, hi: real, target: int, a: real, b: real)
  {
    var (l, h) := Widen(lo, hi);
    exists step :: IsLeastRound(Div(h - l, Max1(target) as real), step) && IsMultiple(a, step) && IsMultiple(b, step)
                   && a <= l < a + step && b - step < h <= b
  }

  /** An axis with the default target covers both values it is built for. */
  method Axis(lo: real, hi: real) returns (a: real, b: real)
    ensures a < b && a <= lo <= b && a <= hi <= b && IsAxis(lo, hi, 6, a, b)
  {
    hide IsLeastRound, IsMultiple, Div, Steps;
    var ticks, step;
    a, b, ticks, step := NiceTicks(lo, hi, 6);
  }

  /** The chart's axes are the nice bounds of the data, the value axis reaching down to zero at least. */
  ghost predicate AxesFor(series: seq<seq<Point>>, axes: Axes)
  {
    exists hull ::
      && Hulls(hull, AllPoints(series))
      && IsAxis(hull.xLo, hull.xHi, 6, axes.xLo, axes.xHi)
      && IsAxis(Least(hull.yLo, 0.0), hull.yHi, 6, axes.yLo, axes.yHi)
  }

  /** Every non-empty series is drawn once and point for point on these axes, in order, the highlighted one last,
      and every point drawn lies inside the plot rectangle. */
  ghost predicate Shows(axes: Axes, series: seq<seq<Point>>, highlight: Option<nat>, drawn: seq<Drawn>)
  {
    && (forall d :: 0 <= d < |drawn| ==>
          drawn[d].index < |series| && Traces(axes, series[drawn[d].index], drawn[d].points))
    && (forall i :: 0 <= i < |series| && series[i] != [] ==> IsDrawn(drawn, i))
    && (forall c, d :: 0 <= c < d < |drawn| ==> drawn[c].index != drawn[d].index)
    && (forall c, d :: 0 <= c < d < |drawn| ==>
          drawn[c].index < drawn[d].index || highlight == Some(drawn[d].index))
    && (highlight.Some? && highlight.value < |series| && series[highlight.value] != [] ==>
          drawn != [] && drawn[|drawn| - 1].index == highlight.value)
  }

  /** Without any point nothing is drawn; otherwise the whole chart is. */
  method LineChart(series: seq<seq<Point>>, highlight: Option<nat>) returns (axes: Option<Axes>, drawn: seq<Drawn>)
    requires highlight.Some? ==> highlight.value < |series|
    ensures axes.None? <==> AllPoints(series) == []
    ensures axes.None? ==> drawn == []
    ensures axes.Some? ==> AxesFor(series, axes.value) && Shows(axes.value, series, highlight, drawn)
  {
    if AllPoints(series) == [] {
      return None, [];
    }
    var bounds := ChooseAxes(series);
    var order := DrawOrder(|series|, highlight);
    DrawOrderIsComplete(|series|, highlight);
    hide AllPoints, DrawnSoFar, AxesFor, Shows, Others;
    drawn := DrawSeries(series, order, bounds);
    AllDrawn(bounds, series, order, highlight, drawn);
    axes := Some(bounds);
  }

  method ChooseAxes(series: seq<seq<Point>>) returns (axes: Axes)
    requires AllPoints(series) != []
    ensures AxesFor(series, axes) && axes.xLo < axes.xHi && axes.yLo < axes.yHi
    ensures forall i, j :: 0 <= i < |series| && 0 <= j < |series[i]| ==> Covers(axes, series[i][j])
  {
    hide IsAxis, AllPoints, Hulls;
    var hull := Extent(AllPoints(series));
    var xa, xb := Axis(hull.xLo, hull.xHi);
    var ya, yb := Axis(Least(hull.yLo, 0.0), hull.yHi);
    axes := Axes(xa, xb, ya, yb);
    AxesCover(series, hull, axes);
  }

  lemma {:induction false} AllDrawn(
    axes: Axes, series: seq<seq<Point>>, order: seq<nat>, highlight: Option<nat>, drawn: seq<Drawn>)
    requires DrawnSoFar(axes, series, order, |order|, drawn) && forall i: nat :: i < |series| ==> i in order
    requires highlight.Some? ==> |order| > 0 && order[|order| - 1] == highlight.value
    requires forall a, b :: 0 <= a < b < |order| ==> order[a] < order[b] || highlight == Some(order[b])
    ensures Shows(axes, series, highlight, drawn)
  {
    hide Traces, IsDrawn;
    forall c, d | 0 <= c < d < |drawn|
      ensures drawn[c].index < drawn[d].index || highlight == Some(drawn[d].index)
    {
      assert ComesBefore(order, |order|, drawn[c].index, drawn[d].index);
    }
    forall i | 0 <= i < |series| && series[i] != []
      ensures IsDrawn(drawn, i)
    {
      assert i in order;
      var a :| 0 <= a < |order| && order[a] == i;
    }
  }

  lemma {:induction false} AxesCover(series: seq<seq<Point>>, hull: Axes, axes: Axes)
    requires Hulls(hull, AllPoints(series))
    requires axes.xLo <= hull.xLo && hull.xHi <= axes.xHi && axes.yLo <= hull.yLo && hull.yHi <= axes.yHi
    ensures forall i, j :: 0 <= i < |series| && 0 <= j < |series[i]| ==> Covers(axes, series[i][j])
  {
    forall i, j | 0 <= i < |series| && 0 <= j < |series[i]|
      ensures Covers(axes, series[i][j])
    {
      AllPointsHold(series, i);
      assert Covers(hull, series[i][j]);
    }
  }

  method PlotPoints(points: seq<Point>, axes: Axes) returns (pixels: seq<Point>)
    requires axes.xLo < axes.xHi && axes.yLo < axes.yHi
    requires forall j :: 0 <= j < |points| ==> Covers(axes, points[j])
    ensures Traces(axes, points, pixels)
  {
    hide Scale;
    pixels := [];
    var j := 0;
    while j < |points|
      invariant 0 <= j <= |points| && Traces(axes, points[..j], pixels)
    {
      ScaleStaysInside(axes.xLo, axes.xHi, X0, X1, points[j].0);
      ScaleStaysInside(axes.yLo, axes.yHi, Y1, Y0, points[j].1);
      pixels := pixels + [Pixel(axes, points[j])];
      j := j + 1;
    }
    assert points[..j] == points;
  }

  // Grouped bars.

  function GroupWidth(groups: nat): (w: real)
    requires groups > 0
  {
    Div(X1 - X0, groups as real)
  }

  function BarWidth(groups: nat, series: nat): (w: real)
    requires groups > 0 && series > 0
  {
    Div(GroupWidth(groups) * 0.8, series as real)
  }

  /** The left edge of the bar of series `s` in group `g`. */
  function BarLeft(groups: nat, series: nat, g: nat, s: nat): (x: real)
    requires groups > 0 && series > 0
  {
    var w, b := GroupWidth(groups), BarWidth(groups, series);
    X0 + Mul(g as real + 0.5, w) - Mul(series as real, b) / 2.0 + Mul(s as real, b)
  }

  lemma {:induction false} GroupsFillThePlot(groups: nat)
    requires groups > 0
    ensures GroupWidth(groups) > 0.0 && Mul(groups as real, GroupWidth(groups)) == X1 - X0
  {
    hide Mul, Div;
    DivLaws(X1 - X0, groups as real);
    MulLaws(groups as real, GroupWidth(groups), 0.0);
    DivOrder(0.0, X1 - X0, groups as real);
  }

  lemma {:induction false} BarsFillTheGroup(groups: nat, series: nat)
    requires groups > 0 && series > 0
    ensures BarWidth(groups, series) > 0.0 && Mul(series as real, BarWidth(groups, series)) == 0.8 * GroupWidth(groups)
  {
    GroupsFillThePlot(groups);
    hide Mul, Div, GroupWidth;
    DivLaws(GroupWidth(groups) * 0.8, series as real);
    MulLaws(series as real, BarWidth(groups, series), 0.0);
    DivOrder(0.0, GroupWidth(groups) * 0.8, series as real);
  }

  /** A bar slot lies in the middle four fifths of its group, counted in group widths from the left. */
  lemma {:induction false} BarInGroup(groups: nat, series: nat, g: nat, s: nat)
    requires g < groups && s < series
    ensures var w, x := GroupWidth(groups), BarLeft(groups, series, g, s);
            && X0 + Mul(g as real, w) + 0.1 * w <= x
            && x + BarWidth(groups, series) <= X0 + Mul(g as real, w) + 0.9 * w
  {
    hide Mul, GroupWidth, BarWidth;
    BarsFillTheGroup(groups, series);
    var w, b := GroupWidth(groups), BarWidth(groups, series);
    MulOrder(0.0, s as real, b);
    MulOrder(s as real + 1.0, series as real, b);
    MulLaws(s as real, 1.0, b);
    MulLaws(0.0, 0.0, b);
    MulLaws(g as real, 0.5, w);
    MulLaws(0.0, 0.0, w);
  }

  lemma {:induction false} LaterSlot(groups: nat, series: nat, g: nat, s: nat, r: nat)
    requires g < groups && s < r < series
    ensures BarLeft(groups, series, g, s) + BarWidth(groups, series) <= BarLeft(groups, series, g, r)
  {
    hide Mul, GroupWidth, BarWidth;
    BarsFillTheGroup(groups, series);
    var b := BarWidth(groups, series);
    MulOrder(s as real + 1.0, r as real, b);
    MulLaws(s as real, 1.0, b);
    MulLaws(0.0, 0.0, b);
  }

  /** No two bars overlap, and every bar lies inside the plot, whatever the numbers of groups and series. */
  lemma {:induction false} BarsAreDisjoint(groups: nat, series: nat, g: nat, s: nat, h: nat, r: nat)
    requires g < groups && h < groups && s < series && r < series
    requires g < h || (g == h && s < r)
    ensures X0 <= BarLeft(groups, series, g, s)
    ensures BarLeft(groups, series, g, s) + BarWidth(groups, series) <= BarLeft(groups, series, h, r)
    ensures BarLeft(groups, series, h, r) + BarWidth(groups, series) <= X1
  {
    hide Mul, GroupWidth, BarWidth, BarLeft;
    GroupsFillThePlot(groups);
    BarInGroup(groups, series, g, s);
    BarInGroup(groups, series, h, r);
    var w := GroupWidth(groups);
    MulLaws(0.0, 0.0, w);
    MulOrder(0.0, g as real, w);
    MulOrder(h as real + 1.0, groups as real, w);
    MulLaws(h as real, 1.0, w);
    if g < h {
      MulOrder(g as real + 1.0, h as real, w);
      MulLaws(g as real, 1.0, w);
    } else {
      LaterSlot(groups, series, g, s, r);
    }
  }
}
