/** Natural cubic splines over the reals: what the linear system of ntg_user_spline.c means for the
    curve, and that it has at most one solution. */
module SplineCurve {

  // ----- the system

  /** At least three control points with ascending abscissas. */
  ghost predicate Knots(x: seq<real>, y: seq<real>) {
    3 <= |x| == |y| && forall i {:trigger x[i + 1]} :: 0 <= i < |x| - 1 ==> x[i] < x[i + 1]
  }

  function Gap(x: seq<real>, i: int): real
    requires 0 <= i < |x| - 1
  {
    x[i + 1] - x[i]
  }

  lemma GapIsPositive(x: seq<real>, y: seq<real>, i: int)
    requires Knots(x, y) && 0 <= i < |x| - 1
    ensures Gap(x, i) > 0.0
  {
    assert x[i] < x[i + 1];
  }

  /** The mean slope of the i-th piece. */
  ghost function Mean(x: seq<real>, y: seq<real>, i: int): real
    requires Knots(x, y) && 0 <= i < |x| - 1
  {
    GapIsPositive(x, y, i);
    (y[i + 1] - y[i]) / Gap(x, i)
  }

  /** The coefficient of the next slope in row i; 1 minus it is that of the slope before. */
  ghost function Upper(x: seq<real>, y: seq<real>, i: int): real
    requires Knots(x, y) && 0 <= i < |x|
  {
    if i == 0 then 1.0
    else if i == |x| - 1 then 0.0
    else
      GapIsPositive(x, y, i - 1);
      GapIsPositive(x, y, i);
      Gap(x, i - 1) / (Gap(x, i - 1) + Gap(x, i))
  }

  ghost function Right(x: seq<real>, y: seq<real>, i: int): real
    requires Knots(x, y) && 0 <= i < |x|
  {
    if i == 0 then 3.0 * Mean(x, y, 0)
    else if i == |x| - 1 then 3.0 * Mean(x, y, i - 1)
    else 3.0 * ((1.0 - Upper(x, y, i)) * Mean(x, y, i - 1) + Upper(x, y, i) * Mean(x, y, i))
  }

  function Or0(m: seq<real>, i: int): real { if 0 <= i < |m| then m[i] else 0.0 }

  /** Row i of the system holds for the slopes m. */
  ghost predicate Row(x: seq<real>, y: seq<real>, m: seq<real>, i: int)
    requires Knots(x, y) && |m| == |x| && 0 <= i < |x|
  {
    (1.0 - Upper(x, y, i)) * Or0(m, i - 1) + 2.0 * m[i] + Upper(x, y, i) * Or0(m, i + 1) == Right(x, y, i)
  }

  ghost predicate Solves(x: seq<real>, y: seq<real>, m: seq<real>)
    requires Knots(x, y)
  {
    |m| == |x| && forall i {:trigger Row(x, y, m, i)} :: 0 <= i < |x| ==> Row(x, y, m, i)
  }

  lemma UpperIsWeight(x: seq<real>, y: seq<real>, i: int)
    requires Knots(x, y) && 0 <= i < |x|
    ensures 0.0 <= Upper(x, y, i) <= 1.0
    ensures 0 < i < |x| - 1 ==> Upper(x, y, i) * (Gap(x, i - 1) + Gap(x, i)) == Gap(x, i - 1)
  {
    if 0 < i < |x| - 1 {
      GapIsPositive(x, y, i - 1);
      GapIsPositive(x, y, i);
      Fraction(Gap(x, i - 1), Gap(x, i));
    }
  }

  lemma Fraction(p: real, q: real)
    requires p > 0.0 && q > 0.0
    ensures 0.0 <= p / (p + q) <= 1.0 && p / (p + q) * (p + q) == p
  {
    var f := p / (p + q);
    assert f * (p + q) == p;
  }

  // ----- the curve

  /** c0 + c1 t + c2 t^2 + c3 t^3 */
  datatype Cubic = Cubic(c0: real, c1: real, c2: real, c3: real) {
    function Value(t: real): real { c0 + t * (c1 + t * (c2 + t * c3)) }
    /** First and second derivative. */
    function Slope(t: real): real { c1 + t * (2.0 * c2 + t * (3.0 * c3)) }
    function Bend(t: real): real { 2.0 * c2 + t * (6.0 * c3) }
  }

  lemma Powers(t: real, h: real)
    ensures (t + h) * (t + h) == t * t + 2.0 * (t * h) + h * h
    ensures (t + h) * ((t + h) * (t + h)) == t * t * t + 3.0 * (t * t * h) + 3.0 * (t * h * h) + h * h * h
  {
    assert (t + h) * (t + h) == t * t + 2.0 * (t * h) + h * h;
  }

  lemma ByPower(p: Cubic, t: real)
    ensures p.Value(t) == p.c0 + p.c1 * t + p.c2 * (t * t) + p.c3 * (t * (t * t))
  {
  }

  lemma SlopeTimes(p: Cubic, t: real, h: real)
    ensures h * p.Slope(t) == p.c1 * h + p.c2 * (2.0 * (t * h)) + p.c3 * (3.0 * (t * t * h))
  {
  }

  lemma BendTimes(p: Cubic, t: real, h: real)
    ensures h * h * (p.Bend(t) / 2.0) == p.c2 * (h * h) + p.c3 * (3.0 * (t * h * h))
  {
  }

  /** The same with the powers of t + h in place of their values. */
  lemma Collected(c0: real, a: real, b: real, c: real, t: real, h: real, t2: real, th: real, h2: real, t3: real, tth: real, thh: real, h3: real,
                  s2: real, s3: real)
    requires s2 == t2 + 2.0 * th + h2 && s3 == t3 + 3.0 * tth + 3.0 * thh + h3
    ensures c0 + a * (t + h) + b * s2 + c * s3
         == (c0 + a * t + b * t2 + c * t3) + (a * h + b * (2.0 * th) + c * (3.0 * tth)) + (b * h2 + c * (3.0 * thh)) + c * h3
  {
  }

  lemma Cube(t: real)
    ensures t * (t * t) == t * t * t
  {
  }

  /** Slope and Bend are the derivatives: Taylor's formula, exact for a cubic. */
  lemma Taylor(p: Cubic, t: real, h: real)
    ensures p.Value(t + h) == p.Value(t) + h * p.Slope(t) + h * h * (p.Bend(t) / 2.0) + p.c3 * (h * h * h)
  {
    hide Cubic.Value, Cubic.Slope, Cubic.Bend;
    ByPower(p, t + h);
    ByPower(p, t);
    SlopeTimes(p, t, h);
    BendTimes(p, t, h);
    Powers(t, h);
    Cube(t);
    Collected(p.c0, p.c1, p.c2, p.c3, t, h, t * t, t * h, h * h, t * (t * t), t * t * h, t * h * h, h * h * h,
              (t + h) * (t + h), (t + h) * ((t + h) * (t + h)));
  }

  /** The i-th piece, as a polynomial in the distance from x[i]. */
  ghost function Piece(x: seq<real>, y: seq<real>, m: seq<real>, i: int): Cubic
    requires Knots(x, y) && |m| == |x| && 0 <= i < |x| - 1
  {
    GapIsPositive(x, y, i);
    var h, s := Gap(x, i), Mean(x, y, i);
    Cubic(y[i], m[i], (3.0 * s - 2.0 * m[i] - m[i + 1]) / h, (m[i] + m[i + 1] - 2.0 * s) / h / h)
  }

  /** The piece that serves the abscissa t; beyond the ends, the outer ones go on. */
  function Index(x: seq<real>, t: real, j: nat): (k: nat)
    requires j + 2 <= |x|
    ensures j <= k < |x| - 1 && (k > j ==> x[k] < t) && (k < |x| - 2 ==> t <= x[k + 1])
    decreases |x| - j
  {
    if j + 2 == |x| || t <= x[j + 1] then j else Index(x, t, j + 1)
  }

  ghost function Curve(x: seq<real>, y: seq<real>, m: seq<real>, t: real): real
    requires Knots(x, y) && |m| == |x|
  {
    var j := Index(x, t, 0);
    Piece(x, y, m, j).Value(t - x[j])
  }

  lemma MeanTimesGap(x: seq<real>, y: seq<real>, i: int)
    requires Knots(x, y) && 0 <= i < |x| - 1
    ensures Mean(x, y, i) * Gap(x, i) == y[i + 1] - y[i]
  {
    GapIsPositive(x, y, i);
  }

  /** The scaled coefficients of the i-th piece. */
  lemma Scaled(x: seq<real>, y: seq<real>, m: seq<real>, i: int)
    requires Knots(x, y) && |m| == |x| && 0 <= i < |x| - 1
    ensures var h, s, p := Gap(x, i), Mean(x, y, i), Piece(x, y, m, i);
            && h > 0.0 && p.c0 == y[i] && p.c1 == m[i]
            && p.c2 * h == 3.0 * s - 2.0 * m[i] - m[i + 1] && p.c3 * h * h == m[i] + m[i + 1] - 2.0 * s
  {
    GapIsPositive(x, y, i);
    var h, c := Gap(x, i), m[i] + m[i + 1] - 2.0 * Mean(x, y, i);
    assert (c / h / h) * h == c / h;
  }

  /** Where a piece ends: its value, slope and bend, from the coefficients. */
  lemma EndOf(p: Cubic, h: real, s: real, m: real, m': real)
    requires h > 0.0 && p.c1 == m
    requires p.c2 * h == 3.0 * s - 2.0 * m - m' && p.c3 * h * h == m + m' - 2.0 * s
    ensures p.Value(h) == p.c0 + s * h
    ensures p.Slope(h) == m'
    ensures p.Bend(h) * h == 2.0 * m + 4.0 * m' - 6.0 * s && p.Bend(0.0) * h == 6.0 * s - 4.0 * m - 2.0 * m'
  {
    assert h * (h * p.c3) == m + m' - 2.0 * s;
    assert h * (p.c2 + h * p.c3) == h * p.c2 + h * (h * p.c3);
    assert p.c1 + h * (p.c2 + h * p.c3) == s;
    assert h * (2.0 * p.c2 + h * (3.0 * p.c3)) == 2.0 * (p.c2 * h) + 3.0 * (p.c3 * h * h);
    assert p.Bend(h) * h == 2.0 * (p.c2 * h) + 6.0 * (p.c3 * h * h);
  }

  // ----- the system says exactly that the curve is a natural spline

  /** Neighbouring pieces meet with the same value, slope and bend, and the ends do not bend. */
  ghost predicate Natural(x: seq<real>, y: seq<real>, m: seq<real>)
    requires Knots(x, y) && |m| == |x|
  {
    && Piece(x, y, m, 0).Bend(0.0) == 0.0
    && Piece(x, y, m, |x| - 2).Bend(Gap(x, |x| - 2)) == 0.0
    && forall i {:trigger Meets(x, y, m, i)} :: 0 < i < |x| - 1 ==> Meets(x, y, m, i)
  }

  ghost predicate Meets(x: seq<real>, y: seq<real>, m: seq<real>, i: int)
    requires Knots(x, y) && |m| == |x| && 0 < i < |x| - 1
  {
    var p, q, h := Piece(x, y, m, i - 1), Piece(x, y, m, i), Gap(x, i - 1);
    p.Value(h) == q.Value(0.0) && p.Slope(h) == q.Slope(0.0) && p.Bend(h) == q.Bend(0.0)
  }

  lemma Ends(x: seq<real>, y: seq<real>, m: seq<real>, i: int)
    requires Knots(x, y) && |m| == |x| && 0 <= i < |x| - 1
    ensures var h, s, p := Gap(x, i), Mean(x, y, i), Piece(x, y, m, i);
            && h > 0.0 && p.Value(0.0) == y[i] && p.Slope(0.0) == m[i] && p.Value(h) == y[i + 1] && p.Slope(h) == m[i + 1]
            && p.Bend(h) * h == 2.0 * m[i] + 4.0 * m[i + 1] - 6.0 * s && p.Bend(0.0) * h == 6.0 * s - 4.0 * m[i] - 2.0 * m[i + 1]
  {
    hide Piece, Mean, Gap;
    Scaled(x, y, m, i);
    MeanTimesGap(x, y, i);
    EndOf(Piece(x, y, m, i), Gap(x, i), Mean(x, y, i), m[i], m[i + 1]);
  }

  /** Equal bends on the two sides of a knot, and a row of the system. */
  lemma Joint(a: real, h0: real, h1: real, s0: real, s1: real, l: real, m: real, r: real, b0: real, b1: real)
    requires h0 > 0.0 && h1 > 0.0 && a * (h0 + h1) == h0
    requires b0 * h0 == 2.0 * l + 4.0 * m - 6.0 * s0 && b1 * h1 == 6.0 * s1 - 4.0 * m - 2.0 * r
    ensures b0 == b1 <==> (1.0 - a) * l + 2.0 * m + a * r == 3.0 * ((1.0 - a) * s0 + a * s1)
  {
    var t := h0 + h1;
    assert (1.0 - a) * t == h1;
    var d := (1.0 - a) * l + 2.0 * m + a * r - 3.0 * ((1.0 - a) * s0 + a * s1);
    assert d * t == h1 * l + 2.0 * t * m + h0 * r - 3.0 * (h1 * s0 + h0 * s1) by {
      Distribute(1.0 - a, t, h1, l);
      Distribute(a, t, h0, r);
      Distribute(1.0 - a, t, h1, s0);
      Distribute(a, t, h0, s1);
      Sum(t, (1.0 - a) * l, a * r, (1.0 - a) * s0, a * s1, m);
    }
    assert (b0 * h0) * h1 == 2.0 * (h1 * l) + 4.0 * (h1 * m) - 6.0 * (h1 * s0);
    assert (b1 * h1) * h0 == 6.0 * (h0 * s1) - 4.0 * (h0 * m) - 2.0 * (h0 * r);
    assert (b0 - b1) * (h0 * h1) == (b0 * h0) * h1 - (b1 * h1) * h0;
    assert (b0 - b1) * (h0 * h1) == 2.0 * (d * t);
    Zero(b0 - b1, h0 * h1);
    Zero(d, t);
  }

  lemma Distribute(a: real, t: real, h: real, l: real)
    requires a * t == h
    ensures (a * l) * t == h * l
  {
    assert (a * l) * t == (a * t) * l;
  }

  lemma Sum(t: real, p: real, q: real, u: real, v: real, m: real)
    ensures (p + 2.0 * m + q - 3.0 * (u + v)) * t == p * t + 2.0 * t * m + q * t - 3.0 * (u * t + v * t)
  {
  }

  lemma Zero(p: real, q: real)
    requires q > 0.0
    ensures q > 0.0 && (p * q == 0.0 <==> p == 0.0)
  {
  }

  lemma RowMeets(x: seq<real>, y: seq<real>, m: seq<real>, i: int)
    requires Knots(x, y) && |m| == |x| && 0 < i < |x| - 1
    ensures Row(x, y, m, i) <==> Meets(x, y, m, i)
  {
    hide Piece, Mean, Gap, Upper, Cubic.Bend, Cubic.Slope, Cubic.Value;
    Ends(x, y, m, i - 1);
    Ends(x, y, m, i);
    UpperIsWeight(x, y, i);
    var p, q := Piece(x, y, m, i - 1), Piece(x, y, m, i);
    Joint(Upper(x, y, i), Gap(x, i - 1), Gap(x, i), Mean(x, y, i - 1), Mean(x, y, i), m[i - 1], m[i], m[i + 1],
          p.Bend(Gap(x, i - 1)), q.Bend(0.0));
  }

  /** The slopes solve the system exactly when they make the curve a natural spline. */
  lemma NaturalIsSolved(x: seq<real>, y: seq<real>, m: seq<real>)
    requires Knots(x, y) && |m| == |x|
    ensures Natural(x, y, m) <==> Solves(x, y, m)
  {
    var n := |x| - 1;
    FirstRow(x, y, m);
    LastRow(x, y, m);
    forall i | 0 < i < n ensures Row(x, y, m, i) <==> Meets(x, y, m, i) { RowMeets(x, y, m, i); }
  }

  lemma FirstRow(x: seq<real>, y: seq<real>, m: seq<real>)
    requires Knots(x, y) && |m| == |x|
    ensures Row(x, y, m, 0) <==> Piece(x, y, m, 0).Bend(0.0) == 0.0
  {
    Ends(x, y, m, 0);
    hide Piece, Mean, Gap, Cubic.Bend;
    Zero(Piece(x, y, m, 0).Bend(0.0), Gap(x, 0));
  }

  lemma LastRow(x: seq<real>, y: seq<real>, m: seq<real>)
    requires Knots(x, y) && |m| == |x|
    ensures Row(x, y, m, |x| - 1) <==> Piece(x, y, m, |x| - 2).Bend(Gap(x, |x| - 2)) == 0.0
  {
    Ends(x, y, m, |x| - 2);
    hide Piece, Mean, Gap, Cubic.Bend;
    Zero(Piece(x, y, m, |x| - 2).Bend(Gap(x, |x| - 2)), Gap(x, |x| - 2));
  }

  // ----- the curve passes through its control points

  lemma KnotsAscend(x: seq<real>, y: seq<real>, i: int, j: int)
    requires Knots(x, y) && 0 <= i < j < |x|
    ensures x[i] < x[j]
    decreases j
  {
    GapIsPositive(x, y, j - 1);
    if i < j - 1 { KnotsAscend(x, y, i, j - 1); }
  }

  lemma {:induction false} IndexOfKnot(x: seq<real>, y: seq<real>, i: int, j: nat)
    requires Knots(x, y) && 0 <= i < |x| && j + 2 <= |x| && j <= (if i == 0 then 0 else i - 1)
    ensures Index(x, x[i], j) == if i == 0 then 0 else i - 1
    decreases |x| - j
  {
    if j + 1 < i {
      KnotsAscend(x, y, j + 1, i);
      IndexOfKnot(x, y, i, j + 1);
    } else if i < j + 1 {
      KnotsAscend(x, y, i, j + 1);
    }
  }

  lemma ThroughKnots(x: seq<real>, y: seq<real>, m: seq<real>, i: int)
    requires Knots(x, y) && |m| == |x| && 0 <= i < |x|
    ensures Curve(x, y, m, x[i]) == y[i]
  {
    IndexOfKnot(x, y, i, 0);
    hide Piece, Cubic.Value, Mean;
    var j := if i == 0 then 0 else i - 1;
    Ends(x, y, m, j);
    assert x[i] - x[j] == if i == 0 then 0.0 else Gap(x, j);
  }

  // ----- there is only one such curve

  function Abs(r: real): real { if r < 0.0 then -r else r }

  lemma {:induction false} Largest(d: seq<real>, n: nat) returns (k: nat)
    requires 0 < n <= |d|
    ensures k < n && forall i :: 0 <= i < n ==> Abs(d[i]) <= Abs(d[k])
  {
    if n == 1 { return 0; }
    k := Largest(d, n - 1);
    if Abs(d[n - 1]) > Abs(d[k]) { k := n - 1; }
  }

  lemma Weighted(a: real, l: real, b: real) returns (p: real, x: real)
    requires 0.0 <= a && Abs(l) <= b
    ensures p == a * l && x == a * b && -x <= p <= x
  {
    p, x := a * l, a * b;
    assert a * (b - l) >= 0.0 && a * (b + l) >= 0.0;
  }

  lemma WeightsAdd(w: real, a: real, b: real)
    requires w + a == 1.0
    ensures w * b + a * b == b
  {
    assert w * b + a * b == (w + a) * b;
  }

  lemma Balance(p: real, m: real, q: real, x: real, y: real)
    requires p + 2.0 * m + q == 0.0 && -x <= p <= x && -y <= q <= y && x + y == Abs(m)
    ensures m == 0.0
  {
  }

  /** In a row whose right side is 0, the middle unknown is not the largest unless it is 0. */
  lemma Dominated(w: real, a: real, l: real, m: real, r: real, b: real)
    requires 0.0 <= w && 0.0 <= a && w + a == 1.0 && Abs(l) <= b && Abs(r) <= b && b == Abs(m)
    requires w * l + 2.0 * m + a * r == 0.0
    ensures m == 0.0
  {
    hide Abs;
    var p, x := Weighted(w, l, b);
    var q, y := Weighted(a, r, b);
    WeightsAdd(w, a, b);
    Balance(p, m, q, x, y);
  }

  /** The matrix is diagonally dominant, so two solutions agree. */
  lemma SolutionIsUnique(x: seq<real>, y: seq<real>, m: seq<real>, m': seq<real>)
    requires Knots(x, y) && Solves(x, y, m) && Solves(x, y, m')
    ensures m == m'
  {
    hide Upper, Right, Row;
    var d := seq(|m|, i requires 0 <= i < |m| => m[i] - m'[i]);
    var k: int := Largest(d, |d|);
    RowsDiffer(x, y, m, m', d, k);
    UpperIsWeight(x, y, k);
    Dominated(1.0 - Upper(x, y, k), Upper(x, y, k), Or0(d, k - 1), d[k], Or0(d, k + 1), Abs(d[k]));
    forall i | 0 <= i < |m| ensures m[i] == m'[i] { assert Abs(d[i]) <= 0.0; }
  }

  lemma RowsDiffer(x: seq<real>, y: seq<real>, m: seq<real>, m': seq<real>, d: seq<real>, k: int)
    requires Knots(x, y) && Solves(x, y, m) && Solves(x, y, m') && |d| == |x| && 0 <= k < |x|
    requires forall i :: 0 <= i < |x| ==> d[i] == m[i] - m'[i]
    ensures (1.0 - Upper(x, y, k)) * Or0(d, k - 1) + 2.0 * d[k] + Upper(x, y, k) * Or0(d, k + 1) == 0.0
  {
    hide Upper, Right;
    assert Row(x, y, m, k) && Row(x, y, m', k);
    assert Or0(d, k - 1) == Or0(m, k - 1) - Or0(m', k - 1) && Or0(d, k + 1) == Or0(m, k + 1) - Or0(m', k + 1);
    var a := Upper(x, y, k);
    Difference(1.0 - a, a, Or0(m, k - 1), Or0(m', k - 1), m[k], m'[k], Or0(m, k + 1), Or0(m', k + 1));
  }

  lemma Difference(w: real, a: real, l: real, l': real, m: real, m': real, r: real, r': real)
    requires w * l + 2.0 * m + a * r == w * l' + 2.0 * m' + a * r'
    ensures w * (l - l') + 2.0 * (m - m') + a * (r - r') == 0.0
  {
  }
}
