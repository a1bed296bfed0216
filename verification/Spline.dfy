/** ntg_user_spline.c on its own arrays, with float as real: the in-place tridiagonal solver finds
    the slopes of the natural cubic spline, and the evaluator follows that curve. */
module Spline {
  import opened SplineCurve

  const INPUT_MAX: nat := 24
  const OUTPUT_MAX: nat := 1440

  // ----- one row of the elimination

  /** Substituting back through row k satisfies the row of the system. */
  lemma BackThrough(u: real, rhs: real, a0: real, b0: real, a: real, b: real, d: real, l: real, m: real, r: real)
    requires a * d == u && d == 2.0 - (1.0 - u) * a0 && b * d == rhs - (1.0 - u) * b0
    requires l == b0 - a0 * m && m == b - a * r
    ensures (1.0 - u) * l + 2.0 * m + u * r == rhs
  {
    var c := 1.0 - u;
    assert c * l == c * b0 - (c * a0) * m by { Spread(c, b0, a0, m); }
    assert d * m == b * d - (a * d) * r by { Spread(d, b, a, r); }
    assert d * m == 2.0 * m - (c * a0) * m by { Less(c * a0, m); }
  }

  lemma Spread(c: real, b: real, a: real, m: real)
    ensures c * (b - a * m) == b * c - (a * c) * m && a * c == c * a && b * c == c * b
  {
  }

  lemma Less(p: real, m: real)
    ensures (2.0 - p) * m == 2.0 * m - p * m
  {
  }

  lemma SignOf(p: real, d: real)
    requires d > 0.0
    ensures p * d >= 0.0 <==> p >= 0.0
  {
  }

  lemma NotNegative(p: real, q: real)
    requires 0.0 <= p && 0.0 <= q
    ensures 0.0 <= p * q
  {
  }

  lemma Product(w: real, a: real)
    requires 0.0 <= w <= 1.0 && 0.0 <= a <= 1.0
    ensures 0.0 <= w * a <= 1.0
  {
    NotNegative(w, a);
    NotNegative(1.0 - w, a);
    assert (1.0 - w) * a == a - w * a;
  }

  function Over(p: real, d: real): real
    requires d != 0.0
  {
    p / d
  }

  lemma OverIs(p: real, d: real)
    requires 1.0 <= d
    ensures Over(p, d) * d == p && (0.0 <= p <= 1.0 ==> 0.0 <= Over(p, d) <= 1.0)
  {
    Quotient(p, d);
  }

  function NextPivot(a: real, c: real, d: real): real { a * (-c) + d }

  function NextRight(c: real, b: real, b': real): real { -c * b + b' }

  /** Row k with the row above subtracted: u and rhs are its coefficients, a0 and b0 what the row
      above has become. */
  predicate Pending(u: real, rhs: real, a0: real, b0: real, a: real, b: real, d: real) {
    1.0 <= d <= 2.0 && 0.0 <= a <= 1.0 && a == u && d == 2.0 - (1.0 - u) * a0 && b == rhs - (1.0 - u) * b0
  }

  /** And then divided by its pivot d. */
  predicate Swept(u: real, rhs: real, a0: real, b0: real, a: real, b: real, d: real) {
    1.0 <= d <= 2.0 && 0.0 <= a <= 1.0 && a * d == u && d == 2.0 - (1.0 - u) * a0 && b * d == rhs - (1.0 - u) * b0
  }

  lemma Divided(u: real, rhs: real, a0: real, b0: real, a: real, b: real, d: real)
    requires Pending(u, rhs, a0, b0, a, b, d)
    ensures 1.0 <= d && Swept(u, rhs, a0, b0, Over(a, d), Over(b, d), d) && 0.0 <= Over(a, d) <= 1.0
  {
    OverIs(a, d);
    OverIs(b, d);
  }

  lemma Subtracted(u: real, rhs: real, a0: real, b0: real, c: real)
    requires 0.0 <= u <= 1.0 && 0.0 <= a0 <= 1.0 && c == 1.0 - u
    ensures Pending(u, rhs, a0, b0, u, NextRight(c, b0, rhs), NextPivot(a0, c, 2.0))
  {
    Product(c, a0);
  }

  /** The last row has no upper coefficient to divide. */
  lemma LastDivided(rhs: real, a0: real, b0: real, a: real, b: real, d: real)
    requires Pending(0.0, rhs, a0, b0, a, b, d)
    ensures 1.0 <= d && Swept(0.0, rhs, a0, b0, a, Over(b, d), d)
  {
    OverIs(b, d);
  }

  lemma EndWeights(x: seq<real>, y: seq<real>)
    requires Knots(x, y)
    ensures Upper(x, y, 0) == 1.0 && Upper(x, y, |x| - 1) == 0.0
  {
  }

  lemma FirstPending(rhs: real)
    ensures Pending(1.0, rhs, 0.0, 0.0, 1.0, rhs, 2.0)
  {
  }

  function Back(b: real, a: real, m: real): real { b - a * m }

  /** Row k, swept to a and b by its pivot d, holds for the slopes found by substituting back. */
  lemma SweptRow(x: seq<real>, y: seq<real>, m: seq<real>, k: int, a0: real, b0: real, a: real, b: real, d: real)
    requires Knots(x, y) && |m| == |x| && 0 <= k < |x|
    requires Swept(Upper(x, y, k), Right(x, y, k), a0, b0, a, b, d)
    requires if k == 0 then a0 == b0 == 0.0 else m[k - 1] == Back(b0, a0, m[k])
    requires if k == |x| - 1 then m[k] == b else m[k] == Back(b, a, m[k + 1])
    ensures Row(x, y, m, k)
  {
    hide Upper, Right, Swept;
    SweptBack(Upper(x, y, k), Right(x, y, k), a0, b0, a, b, d, Or0(m, k - 1), m[k], Or0(m, k + 1));
  }

  lemma SweptBack(u: real, rhs: real, a0: real, b0: real, a: real, b: real, d: real, l: real, m: real, r: real)
    requires Swept(u, rhs, a0, b0, a, b, d) && l == b0 - a0 * m && m == b - a * r
    ensures (1.0 - u) * l + 2.0 * m + u * r == rhs
  {
    BackThrough(u, rhs, a0, b0, a, b, d, l, m, r);
  }

  function Scale(w: real, p: real, h: real): real
    requires h != 0.0
  {
    w * p / h
  }

  /** Scaling before dividing is scaling the quotient. */
  lemma ScaleIs(w: real, p: real, h: real, s: real)
    requires h > 0.0 && s * h == p
    ensures Scale(w, p, h) == w * s
  {
    var t := Scale(w, p, h);
    assert t * h == w * p == (w * s) * h;
    assert (t - w * s) * h == 0.0;
  }

  lemma Quotient(u: real, d: real)
    requires 1.0 <= d
    ensures u / d * d == u && (0.0 <= u <= 1.0 ==> 0.0 <= u / d <= 1.0)
  {
    var q := u / d;
    assert q * d == u && (1.0 - q) * d == d - u;
    SignOf(q, d);
    SignOf(1.0 - q, d);
  }

  lemma InnerUpper(x: seq<real>, y: seq<real>, i: int, h0: real, h1: real)
    requires Knots(x, y) && 0 < i < |x| - 1 && h0 == Gap(x, i - 1) && h1 == Gap(x, i)
    ensures h0 > 0.0 && h1 > 0.0 && h0 / (h0 + h1) == Upper(x, y, i)
  {
    GapIsPositive(x, y, i - 1);
    GapIsPositive(x, y, i);
  }

  /** The right side of an inner row, in the order in which the code computes it. */
  lemma InnerRight(x: seq<real>, y: seq<real>, i: int, h0: real, h1: real)
    requires Knots(x, y) && 0 < i < |x| - 1 && h0 == Gap(x, i - 1) > 0.0 && h1 == Gap(x, i) > 0.0
    ensures var a := Upper(x, y, i);
            3.0 * (Scale(1.0 - a, y[i] - y[i - 1], h0) + Scale(a, y[i + 1] - y[i], h1)) == Right(x, y, i)
  {
    hide Upper, Gap, Mean, Scale;
    MeanTimesGap(x, y, i - 1);
    MeanTimesGap(x, y, i);
    ScaleIs(1.0 - Upper(x, y, i), y[i] - y[i - 1], h0, Mean(x, y, i - 1));
    ScaleIs(Upper(x, y, i), y[i + 1] - y[i], h1, Mean(x, y, i));
  }

  /** The first and the last row. */
  lemma OuterRow(x: seq<real>, y: seq<real>, i: int, j: int, h: real)
    requires Knots(x, y) && ((i == 0 && j == 0) || (i == |x| - 1 && j == |x| - 2)) && h == Gap(x, j)
    ensures Upper(x, y, i) == if i == 0 then 1.0 else 0.0
    ensures h > 0.0 && Scale(3.0, y[j + 1] - y[j], h) == Right(x, y, i)
  {
    hide Gap, Mean, Scale;
    GapIsPositive(x, y, j);
    MeanTimesGap(x, y, j);
    ScaleIs(3.0, y[j + 1] - y[j], h, Mean(x, y, j));
  }

  // ----- the evaluator's formula

  /** The weight of a control value; e is the distance to the other end and e1 its square. */
  function Weight(e: real, e1: real, h: real): real
    requires h != 0.0
  {
    3.0 * e1 - Over(2.0 * e1 * e, h)
  }

  lemma WeightIs(e: real, e1: real, h: real)
    requires h > 0.0 && e1 == e * e
    ensures Weight(e, e1, h) * h == 3.0 * h * (e * e) - 2.0 * (e * e) * e
  {
    var q := Over(2.0 * e1 * e, h);
    assert q * h == 2.0 * e1 * e;
    assert (3.0 * e1 - q) * h == 3.0 * h * e1 - q * h;
  }

  lemma WeightsMakeOne(e: real, e1: real, k: real, k1: real, h: real)
    requires h > 0.0 && e + k == h && e1 == e * e && k1 == k * k
    ensures Weight(e, e1, h) + Weight(k, k1, h) == h * h
    ensures Weight(k, k1, h) * h == k * k * (3.0 * h - 2.0 * k)
  {
    hide Weight;
    WeightIs(e, e1, h);
    WeightIs(k, k1, h);
    assert e == h - k;
    Cube(h, k);
    var t := Weight(e, e1, h) + Weight(k, k1, h);
    assert t * h == h * h * h;
    assert (t - h * h) * h == 0.0;
    assert k * k * (3.0 * h - 2.0 * k) == 3.0 * h * (k * k) - 2.0 * (k * k) * k;
  }

  lemma Cube(h: real, k: real)
    ensures var e := h - k;
            3.0 * h * (e * e) - 2.0 * (e * e) * e + (3.0 * h * (k * k) - 2.0 * (k * k) * k) == h * h * h
  {
    var e := h - k;
    assert e * e == h * h - 2.0 * h * k + k * k;
    assert (e * e) * e == h * h * h - 3.0 * h * h * k + 3.0 * h * k * k - k * k * k;
  }

  lemma Mixed(we: real, wk: real, y0: real, y1: real, s: real, h: real)
    requires we + wk == h * h && y1 == y0 + s * h
    ensures we * y0 + wk * y1 == h * h * y0 + (wk * h) * s
  {
    assert wk * y1 == wk * y0 + wk * (s * h);
    assert (we + wk) * y0 == we * y0 + wk * y0;
  }

  /** What the evaluator divides by the squared gap, in the order in which it is summed. */
  function Numerator(e: real, e1: real, k: real, k1: real, h: real, y0: real, y1: real, m0: real, m1: real): real
    requires h != 0.0
  {
    Weight(e, e1, h) * y0 + Weight(k, k1, h) * y1 + (h * e1 - e1 * e) * m0 - (h * k1 - k1 * k) * m1
  }

  /** The numerator, arranged by the distances to the two ends and by the powers of one of them. */
  function ByEnds(e: real, k: real, h: real, y0: real, m0: real, m1: real, s: real): real {
    h * h * y0 + (k * k * (3.0 * h - 2.0 * k)) * s + (k * e * e * m0 - k * k * e * m1)
  }

  function ByPowers(k: real, h: real, y0: real, m0: real, m1: real, s: real): real {
    h * h * y0 + h * h * k * m0 + k * k * h * (3.0 * s - 2.0 * m0 - m1) + k * k * k * (m0 + m1 - 2.0 * s)
  }

  lemma NumeratorIs(e: real, e1: real, k: real, k1: real, h: real, y0: real, y1: real, m0: real, m1: real, s: real)
    requires h > 0.0 && e + k == h && e1 == e * e && k1 == k * k && y1 == y0 + s * h
    ensures Numerator(e, e1, k, k1, h, y0, y1, m0, m1) == ByEnds(e, k, h, y0, m0, m1, s)
  {
    hide Weight;
    WeightsMakeOne(e, e1, k, k1, h);
    Mixed(Weight(e, e1, h), Weight(k, k1, h), y0, y1, s, h);
    assert h * e1 - e1 * e == k * e * e by { assert h == e + k; }
    assert h * k1 - k1 * k == k * k * e by { assert h == e + k; }
  }

  /** The cubic, scaled. */
  lemma CubicScaled(k: real, h: real, y0: real, m0: real, m1: real, s: real, c2: real, c3: real, v: real, d: real)
    requires c2 * h == 3.0 * s - 2.0 * m0 - m1 && c3 * h * h == m0 + m1 - 2.0 * s
    requires v == y0 + k * (m0 + k * (c2 + k * c3)) && d == h * h
    ensures v * d == ByPowers(k, h, y0, m0, m1, s)
  {
    assert (y0 + k * (m0 + k * (c2 + k * c3))) * (h * h) == h * h * y0 + h * h * k * m0 + k * k * h * (c2 * h) + k * k * k * (c3 * h * h);
  }

  lemma SamePolynomial(e: real, k: real, h: real, y0: real, m0: real, m1: real, s: real)
    requires e + k == h
    ensures ByEnds(e, k, h, y0, m0, m1, s) == ByPowers(k, h, y0, m0, m1, s)
  {
    assert e == h - k;
    assert k * e * e * m0 == h * h * k * m0 - 2.0 * (k * k * h) * m0 + k * k * k * m0;
    assert k * k * e * m1 == k * k * h * m1 - k * k * k * m1;
  }

  lemma Positive(p: real, q: real, d: real)
    requires p > 0.0 && q > 0.0 && d == p * q
    ensures d > 0.0
  {
  }

  lemma OverCancels(n: real, d: real, v: real)
    requires d > 0.0 && v * d == n
    ensures Over(n, d) == v
  {
    assert (Over(n, d) - v) * d == 0.0;
  }

  /** The formula is the value of the piece, e and k being the distances to its two ends. */
  lemma FormulaIsPiece(x: seq<real>, y: seq<real>, m: seq<real>, j: int, e: real, e1: real, k: real, k1: real, h: real, d: real)
    requires Knots(x, y) && |m| == |x| && 0 <= j < |x| - 1 && h == Gap(x, j) && e + k == h
    requires e1 == e * e && k1 == k * k && d == h * h
    ensures h > 0.0 && d > 0.0
    ensures Over(Numerator(e, e1, k, k1, h, y[j], y[j + 1], m[j], m[j + 1]), d) == Piece(x, y, m, j).Value(k)
  {
    hide Numerator, Over, Piece, Gap, Mean, Cubic.Value;
    var s, p := Mean(x, y, j), Piece(x, y, m, j);
    Scaled(x, y, m, j);
    MeanTimesGap(x, y, j);
    ScaledIsValue(e, e1, k, k1, h, y[j], y[j + 1], m[j], m[j + 1], s, p, d);
  }

  lemma ScaledIsValue(e: real, e1: real, k: real, k1: real, h: real, y0: real, y1: real, m0: real, m1: real, s: real,
                      p: Cubic, d: real)
    requires h > 0.0 && e + k == h && e1 == e * e && k1 == k * k && d == h * h
    requires s * h == y1 - y0 && p.c0 == y0 && p.c1 == m0
    requires p.c2 * h == 3.0 * s - 2.0 * m0 - m1 && p.c3 * h * h == m0 + m1 - 2.0 * s
    ensures d > 0.0 && Over(Numerator(e, e1, k, k1, h, y0, y1, m0, m1), d) == p.Value(k)
  {
    hide Numerator, Over, ByEnds, ByPowers;
    var v := p.Value(k);
    Positive(h, h, d);
    NumeratorIs(e, e1, k, k1, h, y0, y1, m0, m1, s);
    CubicScaled(k, h, y0, m0, m1, s, p.c2, p.c3, v, d);
    SamePolynomial(e, k, h, y0, m0, m1, s);
    OverCancels(Numerator(e, e1, k, k1, h, y0, y1, m0, m1), d, v);
  }

  lemma {:induction false} IndexBeyond(x: seq<real>, y: seq<real>, t: real, j: nat)
    requires Knots(x, y) && j + 2 <= |x| && t > x[|x| - 1]
    ensures Index(x, t, j) == |x| - 2
    decreases |x| - j
  {
    if j + 2 < |x| {
      KnotsAscend(x, y, j + 1, |x| - 1);
      IndexBeyond(x, y, t, j + 1);
    }
  }

  // ----- evenly spaced abscissas

  function StepTo(from: real, step: real, i: int): real { from + step * (i as real) }

  lemma StepToNext(from: real, step: real, i: int)
    ensures StepTo(from, step, i + 1) - StepTo(from, step, i) == step
  {
    assert (i + 1) as real == i as real + 1.0;
  }

  lemma StepToEnds(from: real, to: real, m: int)
    requires m > 0
    ensures StepTo(from, Over(to - from, m as real), 0) == from && StepTo(from, Over(to - from, m as real), m) == to
  {
    var q := Over(to - from, m as real);
    assert q * (m as real) == to - from;
  }

  ghost function Uppers(x: seq<real>, y: seq<real>): seq<real>
    requires Knots(x, y)
  {
    seq(|x|, j requires 0 <= j < |x| => Upper(x, y, j))
  }

  ghost function Rights(x: seq<real>, y: seq<real>): seq<real>
    requires Knots(x, y)
  {
    seq(|x|, j requires 0 <= j < |x| => Right(x, y, j))
  }

  // ----- the object

  class CubicSpline {
    var N: nat
    var M: nat
    var created: bool
    const X: array<real>
    const Y: array<real>
    const Z: array<real>
    const F: array<real>
    const H: array<real>
    const A: array<real>
    const B: array<real>
    const C: array<real>
    const D: array<real>

    constructor ()
      ensures Shaped() && !created
      ensures fresh({X, Y, Z, F, H, A, B, C, D})
    {
      N, M, created := 0, 0, false;
      X, Y := new real[INPUT_MAX](_ => 0.0), new real[INPUT_MAX](_ => 0.0);
      Z, F := new real[OUTPUT_MAX](_ => 0.0), new real[OUTPUT_MAX](_ => 0.0);
      H, A := new real[INPUT_MAX](_ => 0.0), new real[INPUT_MAX](_ => 0.0);
      B, C := new real[INPUT_MAX](_ => 0.0), new real[INPUT_MAX](_ => 0.0);
      D := new real[INPUT_MAX](_ => 0.0);
    }

    /** The arrays are the object's own, as inside the struct. */
    predicate Shaped() {
      && X.Length == Y.Length == H.Length == A.Length == B.Length == C.Length == D.Length == INPUT_MAX
      && Z.Length == F.Length == OUTPUT_MAX
      && X !in {Y, Z, F, H, A, B, C, D} && Y !in {Z, F, H, A, B, C, D} && Z !in {F, H, A, B, C, D} && F !in {H, A, B, C, D}
      && H !in {A, B, C, D} && A !in {B, C, D} && B !in {C, D} && C != D
    }

    ghost function Xs(): seq<real>
      requires Shaped() && N < INPUT_MAX
      reads this`N, X
    {
      X[..N + 1]
    }

    ghost function Ys(): seq<real>
      requires Shaped() && N < INPUT_MAX
      reads this`N, Y
    {
      Y[..N + 1]
    }

    /** Enough control points, and their abscissas ascend. */
    ghost predicate Ready()
      reads this`N, X, Y
    {
      Shaped() && N < INPUT_MAX && Knots(Xs(), Ys())
    }

    /** What a created spline holds: the gaps and the slopes. */
    ghost predicate Valid()
      reads this`N, this`created, X, Y, H, B
    {
      Shaped() && (created ==> Ready() && Gapped(H[..N], N) && Solves(Xs(), Ys(), B[..N + 1]))
    }

    ghost predicate Gapped(h: seq<real>, k: nat)
      reads this`N, X, Y
    {
      Ready() && k <= |h| && k <= N && forall j {:trigger h[j]} :: 0 <= j < k ==> h[j] == Gap(Xs(), j)
    }

    /** Row j of the system, as the coefficient loops leave it. */
    ghost predicate Filled(j: int)
      requires Ready() && 0 <= j <= N
      reads this`N, X, Y, A, B
    {
      A[j] == Upper(Xs(), Ys(), j) && B[j] == Right(Xs(), Ys(), j)
    }

    method FillGaps()
      requires Ready()
      modifies H
      ensures Gapped(H[..N], N)
    {
      for i := 1 to N + 1
        invariant Gapped(H[..i - 1], i - 1)
      {
        H[i - 1] := X[i] - X[i - 1];
        assert H[..i][..i - 1] == H[..i - 1];
      }
    }

    /** One turn of the coefficient loop. */
    method FillRow(i: nat)
      requires Ready() && Gapped(H[..N], N) && 0 < i < N
      modifies A, B
      ensures A[i] == Upper(Xs(), Ys(), i) && B[i] == Right(Xs(), Ys(), i)
      ensures forall j :: 0 <= j < INPUT_MAX && j != i ==> A[j] == old(A[j]) && B[j] == old(B[j])
    {
      hide Right, Upper, Gap, Scale;
      assert H[..N][i - 1] == Gap(Xs(), i - 1) && H[..N][i] == Gap(Xs(), i);
      InnerUpper(Xs(), Ys(), i, H[i - 1], H[i]);
      InnerRight(Xs(), Ys(), i, H[i - 1], H[i]);
      A[i] := H[i - 1] / (H[i - 1] + H[i]);
      B[i] := 3.0 * (Scale(1.0 - A[i], Y[i] - Y[i - 1], H[i - 1]) + Scale(A[i], Y[i + 1] - Y[i], H[i]));
    }

    /** The two flat ends. */
    method FillEnds()
      requires Ready() && Gapped(H[..N], N)
      modifies A, B
      ensures Filled(0) && Filled(N)
      ensures forall j :: 1 <= j < N ==> A[j] == old(A[j]) && B[j] == old(B[j])
    {
      hide Right, Upper, Gap, Scale;
      assert H[..N][0] == Gap(Xs(), 0) && H[..N][N - 1] == Gap(Xs(), N - 1);
      OuterRow(Xs(), Ys(), 0, 0, H[0]);
      OuterRow(Xs(), Ys(), N, N - 1, H[N - 1]);
      A[0] := 1.0;
      A[N] := 0.0;
      B[0] := Scale(3.0, Y[1] - Y[0], H[0]);
      B[N] := Scale(3.0, Y[N] - Y[N - 1], H[N - 1]);
    }

    method FillRows()
      requires Ready() && Gapped(H[..N], N)
      modifies A, B
      ensures forall j {:trigger Filled(j)} :: 0 <= j <= N ==> Filled(j)
    {
      hide Right, Upper, Gap, Scale, Gapped;
      ghost var u, r := Uppers(Xs(), Ys()), Rights(Xs(), Ys());
      var L := N - 1;
      for i := 1 to L + 1
        invariant forall j :: 1 <= j < i ==> A[j] == u[j] && B[j] == r[j]
      {
        FillRow(i);
      }
      FillEnds();
      forall j | 0 <= j <= N ensures Filled(j) {
        if 0 < j < N { assert A[j] == u[j] && B[j] == r[j]; }
      }
    }

    method FillOthers()
      requires Ready()
      modifies C, D
      ensures forall j :: 0 <= j <= N ==> C[j] == 1.0 - A[j] && D[j] == 2.0
    {
      for i := 0 to N + 1
        invariant forall j :: 0 <= j < i ==> D[j] == 2.0
      {
        D[i] := 2.0;
      }
      for i := 0 to N + 1
        invariant forall j :: 0 <= j <= N ==> D[j] == 2.0
        invariant forall j :: 0 <= j < i ==> C[j] == 1.0 - A[j]
      {
        C[i] := 1.0 - A[i];
      }
    }

    // ----- the elimination

    ghost function Before(a: array<real>, k: int): real
      requires k <= a.Length
      reads a
    {
      if k <= 0 then 0.0 else a[k - 1]
    }

    ghost predicate Fresh(k: int)
      requires Ready() && 0 <= k <= N
      reads this`N, X, Y, A, B, C, D
    {
      Filled(k) && C[k] == 1.0 - Upper(Xs(), Ys(), k) && D[k] == 2.0
    }

    ghost predicate PendingAt(k: int)
      requires Ready() && 0 <= k <= N
      reads this`N, X, Y, A, B, D
    {
      Pending(Upper(Xs(), Ys(), k), Right(Xs(), Ys(), k), Before(A, k), Before(B, k), A[k], B[k], D[k])
    }

    ghost predicate SweptAt(k: int)
      requires Ready() && 0 <= k <= N
      reads this`N, X, Y, A, B, D
    {
      Swept(Upper(Xs(), Ys(), k), Right(Xs(), Ys(), k), Before(A, k), Before(B, k), A[k], B[k], D[k])
    }

    /** One turn of the elimination loop; its test never fires, since D[i] is still the 2.0 it was filled with. */
    method EliminateRow(i: nat) returns (ok: bool)
      requires Ready() && 1 <= i <= N && PendingAt(i - 1) && Fresh(i)
      modifies A, B, D
      ensures ok && SweptAt(i - 1) && PendingAt(i)
      ensures forall j :: 0 <= j < INPUT_MAX && j != i - 1 ==> A[j] == old(A[j])
      ensures forall j :: 0 <= j < INPUT_MAX && j != i - 1 && j != i ==> B[j] == old(B[j])
      ensures forall j :: 0 <= j < INPUT_MAX && j != i ==> D[j] == old(D[j])
    {
      hide Upper, Right, Over, Pending, Swept, NextPivot, NextRight;
      ghost var x, y := Xs(), Ys();
      if -0.000001 <= D[i] <= 0.000001 {
        return false;
      }
      UpperIsWeight(x, y, i);
      Divided(Upper(x, y, i - 1), Right(x, y, i - 1), Before(A, i - 1), Before(B, i - 1), A[i - 1], B[i - 1], D[i - 1]);
      A[i - 1] := Over(A[i - 1], D[i - 1]);
      B[i - 1] := Over(B[i - 1], D[i - 1]);
      Subtracted(Upper(x, y, i), Right(x, y, i), A[i - 1], B[i - 1], C[i]);
      D[i] := NextPivot(A[i - 1], C[i], D[i]);
      B[i] := NextRight(C[i], B[i - 1], B[i]);
      ok := true;
    }

    /** The elimination loop and the division of the last row. */
    method Eliminate() returns (ok: bool)
      requires Ready() && forall j {:trigger Fresh(j)} :: 0 <= j <= N ==> Fresh(j)
      modifies A, B, D
      ensures ok && forall j {:trigger SweptAt(j)} :: 0 <= j <= N ==> SweptAt(j)
    {
      hide Upper, Right, Over, Pending, Swept, NextPivot, NextRight;
      var P := N;
      EndWeights(Xs(), Ys());
      assert Fresh(0);
      FirstPending(Right(Xs(), Ys(), 0));
      for i := 1 to P + 1
        invariant PendingAt(i - 1)
        invariant forall j {:trigger Fresh(j)} :: i <= j <= N ==> Fresh(j)
        invariant forall j {:trigger SweptAt(j)} :: 0 <= j < i - 1 ==> SweptAt(j)
      {
        label Turn:
        ok := EliminateRow(i);
        if !ok {
          return;
        }
        forall j | i < j <= N ensures Fresh(j) { assert old@Turn(Fresh(j)); }
        forall j | 0 <= j < i - 1 ensures SweptAt(j) { assert old@Turn(SweptAt(j)); }
      }
      label Last:
      LastDivided(Right(Xs(), Ys(), N), Before(A, N), Before(B, N), A[N], B[N], D[N]);
      B[P] := Over(B[P], D[P]);
      ok := true;
      forall j | 0 <= j < N ensures SweptAt(j) { assert old@Last(SweptAt(j)); }
    }

    method BackSubstitute()
      requires Ready() && forall j {:trigger SweptAt(j)} :: 0 <= j <= N ==> SweptAt(j)
      modifies B
      ensures Solves(Xs(), Ys(), B[..N + 1])
    {
      hide Upper, Right, Swept, Back, Row;
      ghost var q := B[..];
      var P := N;
      for i := 1 to P + 1
        invariant forall j :: 0 <= j <= P - i ==> B[j] == q[j]
        invariant B[P] == q[P] && forall j :: P - i < j < P ==> B[j] == Back(q[j], A[j], B[j + 1])
      {
        B[P - i] := Back(B[P - i], A[P - i], B[P - i + 1]);
      }
      ghost var m := B[..N + 1];
      forall k | 0 <= k <= N ensures Row(Xs(), Ys(), m, k) {
        assert old(SweptAt(k)) && (k > 0 ==> q[k - 1] == old(B[k - 1])) && q[k] == old(B[k]);
        SweptRow(Xs(), Ys(), m, k, Before(A, k), old(Before(B, k)), A[k], q[k], D[k]);
      }
    }

    // ----- the operations

    /** ntg_cubic_spline: the system always has a solution, and B becomes it. */
    method Create() returns (ok: bool)
      requires Ready()
      modifies this`created, H, A, B, C, D
      ensures ok && created && Valid()
    {
      hide Upper, Right, Gap, Row, Swept;
      FillGaps();
      FillRows();
      FillOthers();
      forall j | 0 <= j <= N ensures Fresh(j) { assert Filled(j); }
      created := Eliminate();
      ok := created;
      if ok {
        BackSubstitute();
      }
    }

    /** ntg_cubic_spline_get_y_by_x: the ordinate of the curve, for every abscissa. */
    method GetYByX(x: real) returns (ok: bool, y: real)
      requires Valid()
      ensures ok == created
      ensures ok ==> y == Curve(Xs(), Ys(), B[..N + 1], x)
    {
      hide Solves, Gap, Piece;
      if !created {
        return false, 0.0;
      }
      var j: int;
      if x < X[0] {
        j := 0;
        KnotsAscend(Xs(), Ys(), 0, 1);
      } else if x > X[N] {
        j := N - 1;
        IndexBeyond(Xs(), Ys(), x, 0);
      } else {
        j := 1;
        while j <= N
          invariant 1 <= j <= N && Index(Xs(), x, 0) == Index(Xs(), x, j - 1)
          decreases N - j
        {
          if x <= X[j] {
            j := j - 1;
            break;
          }
          j := j + 1;
        }
      }
      assert j == Index(Xs(), x, 0);
      ok := true;
      y := Evaluate(x, j);
    }

    method Evaluate(x: real, j: int) returns (y: real)
      requires Valid() && created && 0 <= j < N
      ensures y == Piece(Xs(), Ys(), B[..N + 1], j).Value(x - Xs()[j])
    {
      hide Solves, Piece, Over, Numerator, Cubic.Value, Gap;
      var E := X[j + 1] - x;
      var E1 := E * E;
      var K := x - X[j];
      var K1 := K * K;
      var H1 := H[j] * H[j];
      GapIs(j);
      FormulaIsPiece(Xs(), Ys(), B[..N + 1], j, E, E1, K, K1, H[j], H1);
      y := Combine(E, E1, K, K1, H[j], H1, Y[j], Y[j + 1], B[j], B[j + 1]);
    }

    static method Combine(E: real, E1: real, K: real, K1: real, h: real, H1: real, y0: real, y1: real, b0: real, b1: real)
      returns (y: real)
      requires h != 0.0 && H1 != 0.0
      ensures y == Over(Numerator(E, E1, K, K1, h, y0, y1, b0, b1), H1)
    {
      hide Over;
      y := (3.0 * E1 - Over(2.0 * E1 * E, h)) * y0 + (3.0 * K1 - Over(2.0 * K1 * K, h)) * y1;
      y := y + (h * E1 - E1 * E) * b0 - (h * K1 - K1 * K) * b1;
      assert y == Numerator(E, E1, K, K1, h, y0, y1, b0, b1);
      y := Over(y, H1);
    }

    lemma GapIs(j: int)
      requires Valid() && created && 0 <= j < N
      ensures H[j] == Gap(Xs(), j) == X[j + 1] - X[j]
    {
      assert H[..N][j] == H[j];
    }

    /** The slopes that B holds. */
    ghost function Slopes(): seq<real>
      requires Shaped() && N < INPUT_MAX
      reads this`N, B
    {
      B[..N + 1]
    }

    /** memzero, then memcpy of the first n control values. */
    method Load(to: array<real>, from: array<real>, n: nat)
      requires n <= from.Length && n <= to.Length && to != from
      modifies to
      ensures to[..n] == from[..n]
    {
      forall i | 0 <= i < to.Length {
        to[i] := 0.0;
      }
      forall i | 0 <= i < n {
        to[i] := from[i];
      }
    }

    /** ntg_cubic_spline_interpolation_init */
    method Init(ctrlX: array?<real>, ctrlY: array?<real>, n: int) returns (ok: bool)
      requires Shaped()
      requires ctrlX != null && ctrlY != null && 3 <= n <= INPUT_MAX ==>
        n <= ctrlX.Length && n <= ctrlY.Length && Knots(ctrlX[..n], ctrlY[..n]) && ctrlX != X && ctrlY != X && ctrlX != Y && ctrlY != Y
      modifies this, X, Y, H, A, B, C, D
      ensures Valid() && ok == created
      ensures ok <==> ctrlX != null && ctrlY != null && 3 <= n <= INPUT_MAX
      ensures ok ==> N == n - 1 && Xs() == old(ctrlX[..n]) && Ys() == old(ctrlY[..n])
    {
      N, M, created := 0, 0, false;
      if ctrlX == null || ctrlY == null || n < 3 || n > INPUT_MAX {
        return false;
      }
      N := n - 1;
      Load(X, ctrlX, n);
      Load(Y, ctrlY, n);
      ok := Create();
    }

    /** The evenly spaced abscissas. */
    method FillAbscissas(step: real)
      requires Valid() && created && 1 <= M < OUTPUT_MAX && step == Over(X[N] - X[0], M as real)
      modifies Z
      ensures Z[0] == X[0] && Z[M] == X[N]
      ensures forall i :: 0 <= i < M ==> Z[i + 1] - Z[i] == step
    {
      hide Solves, Knots, StepTo, Over;
      for i := 0 to M + 1
        invariant forall j :: 0 <= j < i ==> Z[j] == StepTo(X[0], step, j)
      {
        Z[i] := StepTo(X[0], step, i);
      }
      forall i | 0 <= i < M ensures Z[i + 1] - Z[i] == step {
        StepToNext(X[0], step, i);
      }
      StepToEnds(X[0], X[N], M);
    }

    /** ntg_cubic_spline_get_interpolation_points: evenly spaced points of the curve, ends included. */
    method GetInterpolationPoints(outN: int) returns (ok: bool)
      requires Valid() && outN != 1
      modifies this`M, Z, F
      ensures Valid()
      ensures ok <==> created && 1 <= outN <= OUTPUT_MAX
      ensures ok ==> M == outN - 1 && Z[0] == X[0] && Z[M] == X[N] && F[0] == Y[0] && F[M] == Y[N]
      ensures ok ==> forall i :: 0 <= i < M ==> Z[i + 1] - Z[i] == Over(X[N] - X[0], M as real)
      ensures ok ==> forall i :: 0 <= i <= M ==> F[i] == Curve(Xs(), Ys(), Slopes(), Z[i])
    {
      hide Solves, Curve, Over;
      if !created || outN > OUTPUT_MAX || outN < 1 {
        return false;
      }
      M := outN - 1;
      var dbStep := Over(X[N] - X[0], M as real);
      FillAbscissas(dbStep);
      for i := 1 to M + 1
        invariant forall j :: 1 <= j < i ==> F[j] == Curve(Xs(), Ys(), Slopes(), Z[j])
        modifies F
      {
        var y;
        ok, y := GetYByX(Z[i]);
        F[i] := y;
      }
      F[0] := Y[0];
      ThroughKnots(Xs(), Ys(), Slopes(), 0);
      ThroughKnots(Xs(), Ys(), Slopes(), N);
      ok := true;
    }
  }
}
