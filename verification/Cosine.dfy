/**
  Cosine similarity over exact reals. The square root is a parameter, given by its
  defining equation; nothing else about it is used.
 */
module Cosine {
  type Vector = seq<real>

  function Square(d: real): (r: real)
    ensures r >= 0.0
  {
    d * d
  }

  lemma SquarePositive(d: real)
    ensures d != 0.0 ==> Square(d) > 0.0
  {
    if d != 0.0 {
      var z := d * d;
      assert z / d == d;
    }
  }

  lemma ZeroSquare(d: real)
    requires Square(d) == 0.0
    ensures d == 0.0
  {
    hide Square;
    SquarePositive(d);
  }

  /** A product, named so that proofs can treat it as a whole. */
  function Times(x: real, y: real): real {
    x * y
  }

  function Dot(a: Vector, b: Vector): real
    requires |a| == |b|
  {
    if a == [] then 0.0 else Times(a[0], b[0]) + Dot(a[1..], b[1..])
  }

  /** The sum of squares, `sum(x**2 for x in a)`. */
  function Squares(a: Vector): (r: real)
    ensures r >= 0.0
  {
    if a == [] then 0.0 else Square(a[0]) + Squares(a[1..])
  }

  ghost predicate IsSqrt(sqrt: real -> real) {
    forall x: real :: x >= 0.0 ==> sqrt(x) >= 0.0 && Square(sqrt(x)) == x
  }

  /** `MemoryRepository._cosine_similarity`. */
  function Similarity(sqrt: real -> real, a: Vector, b: Vector): real {
    if a == [] || b == [] || |a| != |b| then 0.0
    else
      var normA, normB := sqrt(Squares(a)), sqrt(Squares(b));
      if normA == 0.0 || normB == 0.0 then 0.0 else Ratio(Dot(a, b), normA, normB)
  }

  function Ratio(dot: real, normA: real, normB: real): real
    requires normA != 0.0 && normB != 0.0
  {
    NonzeroProduct(normA, normB);
    dot / (normA * normB)
  }

  function Scale(k: real, a: Vector): (r: Vector)
    ensures |r| == |a| && forall i :: 0 <= i < |a| ==> r[i] == k * a[i]
  {
    if a == [] then [] else [Times(k, a[0])] + Scale(k, a[1..])
  }

  // ---------- arithmetic ----------

  lemma NonzeroProduct(x: real, y: real)
    requires x != 0.0 && y != 0.0
    ensures x * y != 0.0
  {
    var z := x * y;
    assert z / y == x;
  }

  lemma PositiveProduct(x: real, y: real)
    requires x > 0.0 && y > 0.0
    ensures x * y > 0.0
  {
  }

  lemma SquareOfProduct(x: real, y: real)
    ensures Times(Square(x), Square(y)) == Square(Times(x, y))
  {
  }

  lemma SquareOfDifference(p: real, q: real)
    ensures Square(p - q) == Square(p) - 2.0 * Times(p, q) + Square(q)
  {
  }

  lemma Associate(x: real, y: real, z: real)
    ensures Times(Times(x, y), z) == Times(x, Times(y, z))
  {
  }

  lemma Regroup(x: real, v: real, y: real, u: real)
    ensures Times(Times(x, v), Times(y, u)) == Times(Times(x, y), Times(u, v))
  {
    assert (x * v) * (y * u) == x * (v * (y * u)) == x * (y * (u * v));
  }

  lemma Distribute(k: real, x: real, y: real)
    ensures Times(k, x + y) == Times(k, x) + Times(k, y)
  {
  }

  lemma SquareGrows(x: real, y: real)
    requires 0.0 <= x < y
    ensures Square(x) < Square(y)
  {
    var d, t := y - x, x + y;
    PositiveProduct(d, t);
    assert d * t == y * y - x * x;
  }

  /** Nonnegative numbers with one square are one number. */
  lemma RootUnique(x: real, y: real)
    requires x >= 0.0 && y >= 0.0 && Square(x) == Square(y)
    ensures x == y
  {
    hide Square;
    if x < y {
      SquareGrows(x, y);
    } else if y < x {
      SquareGrows(y, x);
    }
  }

  lemma RatioRange(dot: real, n: real, m: real)
    requires n > 0.0 && m > 0.0
    ensures -(n * m) <= dot <= n * m ==> -1.0 <= Ratio(dot, n, m) <= 1.0
    ensures Ratio(dot, n, m) == 1.0 <==> dot == n * m
  {
    PositiveProduct(n, m);
    var q := Ratio(dot, n, m);
    assert q * (n * m) == dot;
  }

  lemma RatioSwapped(dot: real, n: real, m: real)
    requires n > 0.0 && m > 0.0
    ensures Ratio(dot, n, m) == Ratio(dot, m, n)
  {
    assert n * m == m * n;
  }

  lemma RatioScaled(k: real, dot: real, n: real, m: real)
    requires k > 0.0 && n > 0.0 && m > 0.0
    ensures Times(k, n) > 0.0 && Ratio(Times(k, dot), Times(k, n), m) == Ratio(dot, n, m)
  {
    PositiveProduct(n, m);
    PositiveProduct(k, n);
    PositiveProduct(k * n, m);
    var q, p := Ratio(dot, n, m), n * m;
    assert q * p == dot;
    assert k * dot == k * (q * p) == q * ((k * n) * m);
  }

  // ---------- Cauchy-Schwarz ----------

  /** The squared length of x*b - y*a, from A = |a|^2, B = |b|^2 and the dot product D. */
  function Form(x: real, y: real, A: real, B: real, D: real): real {
    Times(Square(x), B) - 2.0 * Times(Times(x, y), D) + Times(Square(y), A)
  }

  /** The same length, component by component. */
  function Gap(a: Vector, b: Vector, x: real, y: real): (r: real)
    requires |a| == |b|
    ensures r >= 0.0
  {
    if a == [] then 0.0 else Square(Times(x, b[0]) - Times(y, a[0])) + Gap(a[1..], b[1..], x, y)
  }

  lemma FormStep(x: real, y: real, u: real, v: real, A: real, B: real, D: real)
    ensures Form(x, y, Square(u) + A, Square(v) + B, Times(u, v) + D) ==
            Square(Times(x, v) - Times(y, u)) + Form(x, y, A, B, D)
  {
    hide Times, Square;
    SquareOfDifference(Times(x, v), Times(y, u));
    SquareOfProduct(x, v);
    SquareOfProduct(y, u);
    Regroup(x, v, y, u);
    Distribute(Square(x), Square(v), B);
    Distribute(Square(y), Square(u), A);
    Distribute(Times(x, y), Times(u, v), D);
  }

  lemma {:induction false} GapIsForm(a: Vector, b: Vector, x: real, y: real)
    requires |a| == |b|
    ensures Gap(a, b, x, y) == Form(x, y, Squares(a), Squares(b), Dot(a, b))
  {
    if a != [] {
      hide Form, Square, Times;
      GapIsForm(a[1..], b[1..], x, y);
      FormStep(x, y, a[0], b[0], Squares(a[1..]), Squares(b[1..]), Dot(a[1..], b[1..]));
    }
  }

  lemma {:induction false} NoGap(a: Vector, b: Vector, x: real, y: real)
    requires |a| == |b| && Gap(a, b, x, y) == 0.0
    ensures Parallel(a, b, x, y)
  {
    if a != [] {
      NoGap(a[1..], b[1..], x, y);
      ZeroSquare(Times(x, b[0]) - Times(y, a[0]));
      hide Square, Times;
      forall i | 0 <= i < |a|
        ensures Times(x, b[i]) == Times(y, a[i])
      {
        if i > 0 {
          assert a[i] == a[1..][i - 1] && b[i] == b[1..][i - 1];
        }
      }
    }
  }

  lemma FormValue(n: real, m: real, D: real)
    ensures Form(n, m, Square(n), Square(m), D) == 2.0 * ((n * m) * (n * m - D))
  {
    SquareOfProduct(n, m);
    SquareOfProduct(m, n);
    var p := n * m;
    assert p * (p - D) == p * p - p * D;
  }

  lemma SignOfFactor(p: real, q: real)
    requires p > 0.0
    ensures 2.0 * (p * q) >= 0.0 ==> q >= 0.0
    ensures q == 0.0 ==> 2.0 * (p * q) == 0.0
  {
  }

  lemma FormBounds(n: real, m: real, D: real)
    requires n * m > 0.0
    ensures Square(-m) == Square(m)
    ensures Form(n, m, Square(n), Square(m), D) >= 0.0 ==> D <= n * m
    ensures Form(n, -m, Square(n), Square(m), D) >= 0.0 ==> -(n * m) <= D
    ensures D == n * m ==> Form(n, m, Square(n), Square(m), D) == 0.0
  {
    assert Square(-m) == Square(m) && n * -m == -(n * m);
    hide Form, Square;
    var p := n * m;
    FormValue(n, m, D);
    SignOfFactor(p, p - D);
    FormValue(n, -m, D);
    assert (-p) * (-p - D) == p * (p + D);
    SignOfFactor(p, p + D);
  }

  /** The norms n and m bound the dot product, and at the upper bound the vectors are parallel. */
  lemma DotBound(a: Vector, b: Vector, n: real, m: real)
    requires |a| == |b|
    requires n > 0.0 && Square(n) == Squares(a) && m > 0.0 && Square(m) == Squares(b)
    ensures -(n * m) <= Dot(a, b) <= n * m
    ensures Dot(a, b) == n * m ==> Gap(a, b, n, m) == 0.0
  {
    hide Dot, Squares, Gap;
    hide Square, Form;
    PositiveProduct(n, m);
    GapIsForm(a, b, n, m);
    GapIsForm(a, b, n, -m);
    FormBounds(n, m, Dot(a, b));
  }

  /** The score of two nonzero vectors of one length, with its norms. */
  lemma ScoreOf(sqrt: real -> real, a: Vector, b: Vector) returns (n: real, m: real)
    requires IsSqrt(sqrt) && |a| == |b| && Squares(a) != 0.0 && Squares(b) != 0.0
    ensures n > 0.0 && Square(n) == Squares(a) && m > 0.0 && Square(m) == Squares(b)
    ensures n == sqrt(Squares(a)) && m == sqrt(Squares(b))
    ensures Similarity(sqrt, a, b) == Ratio(Dot(a, b), n, m)
  {
    assert a != [];
    hide Dot, Squares, Ratio;
    n, m := sqrt(Squares(a)), sqrt(Squares(b));
    assert Square(n) == Squares(a) && Square(m) == Squares(b);
  }

  /** A zero vector scores zero, as vectors of different lengths do. */
  lemma ZeroScore(sqrt: real -> real, a: Vector, b: Vector)
    requires IsSqrt(sqrt) && (|a| != |b| || Squares(a) == 0.0 || Squares(b) == 0.0)
    ensures Similarity(sqrt, a, b) == 0.0
  {
    var n, m := sqrt(Squares(a)), sqrt(Squares(b));
    assert Square(n) == Squares(a) && Square(m) == Squares(b);
    SquarePositive(n);
    SquarePositive(m);
  }

  /** Every similarity lies in [-1, 1]. */
  lemma SimilarityRange(sqrt: real -> real, a: Vector, b: Vector)
    requires IsSqrt(sqrt)
    ensures -1.0 <= Similarity(sqrt, a, b) <= 1.0
  {
    if |a| != |b| || Squares(a) == 0.0 || Squares(b) == 0.0 {
      ZeroScore(sqrt, a, b);
    } else {
      hide Dot, Squares, Square, Similarity, Ratio;
      var n, m := ScoreOf(sqrt, a, b);
      DotBound(a, b, n, m);
      RatioRange(Dot(a, b), n, m);
    }
  }

  lemma {:induction false} DotSymmetric(a: Vector, b: Vector)
    requires |a| == |b|
    ensures Dot(a, b) == Dot(b, a)
  {
    if a != [] {
      assert Times(a[0], b[0]) == Times(b[0], a[0]);
      hide Times;
      DotSymmetric(a[1..], b[1..]);
    }
  }

  lemma SimilaritySymmetric(sqrt: real -> real, a: Vector, b: Vector)
    requires IsSqrt(sqrt)
    ensures Similarity(sqrt, a, b) == Similarity(sqrt, b, a)
  {
    if |a| != |b| || Squares(a) == 0.0 || Squares(b) == 0.0 {
      ZeroScore(sqrt, a, b);
      ZeroScore(sqrt, b, a);
    } else {
      DotSymmetric(a, b);
      hide Dot, Squares, Square, Similarity, Ratio;
      var n, m := ScoreOf(sqrt, a, b);
      var m', n' := ScoreOf(sqrt, b, a);
      RatioSwapped(Dot(a, b), n, m);
    }
  }

  // ---------- the value of a score ----------

  /** The squared length of the difference of two vectors. */
  function SquaredDistance(a: Vector, b: Vector): real
    requires |a| == |b|
  {
    if a == [] then 0.0 else (a[0] - b[0]) * (a[0] - b[0]) + SquaredDistance(a[1..], b[1..])
  }

  function Origin(n: nat): (r: Vector)
    ensures |r| == n
  {
    seq(n, i => 0.0)
  }

  lemma {:induction false} DistanceExpands(a: Vector, b: Vector)
    requires |a| == |b|
    ensures SquaredDistance(a, b) == Squares(a) - 2.0 * Dot(a, b) + Squares(b)
  {
    if a != [] {
      DistanceExpands(a[1..], b[1..]);
      SquareOfDifference(a[0], b[0]);
      assert SquaredDistance(a, b) == Square(a[0] - b[0]) + SquaredDistance(a[1..], b[1..]);
      hide Square, Times, SquaredDistance;
    }
  }

  lemma {:induction false} LengthIsDistance(a: Vector)
    ensures SquaredDistance(a, Origin(|a|)) == Squares(a)
  {
    if a != [] {
      LengthIsDistance(a[1..]);
      assert Origin(|a|)[1..] == Origin(|a[1..]|);
    }
  }

  lemma RatioTimes(dot: real, n: real, m: real)
    requires n > 0.0 && m > 0.0
    ensures Ratio(dot, n, m) * (n * m) == dot
  {
    PositiveProduct(n, m);
  }

  /** The score, times both norms, is the dot product. */
  lemma ScoreIsDot(sqrt: real -> real, a: Vector, b: Vector)
    requires IsSqrt(sqrt) && |a| == |b| && Squares(a) != 0.0 && Squares(b) != 0.0
    ensures Similarity(sqrt, a, b) * (sqrt(Squares(a)) * sqrt(Squares(b))) == Dot(a, b)
  {
    hide Dot, Squares, Square, Similarity, Ratio;
    var n, m := ScoreOf(sqrt, a, b);
    RatioTimes(Dot(a, b), n, m);
  }

  /**
    The law of cosines fixes every score: the squared distance of two vectors is the sum
    of the squared lengths, less twice the product of the lengths and the score.
   */
  lemma LawOfCosines(sqrt: real -> real, a: Vector, b: Vector)
    requires IsSqrt(sqrt) && |a| == |b|
    ensures var A, B := SquaredDistance(a, Origin(|a|)), SquaredDistance(b, Origin(|b|));
      SquaredDistance(a, b) == A + B - 2.0 * (Similarity(sqrt, a, b) * (sqrt(A) * sqrt(B)))
  {
    hide Similarity, SquaredDistance, Dot, Squares;
    LengthIsDistance(a);
    LengthIsDistance(b);
    DistanceExpands(a, b);
    if Squares(a) == 0.0 || Squares(b) == 0.0 {
      ZeroScore(sqrt, a, b);
      ZeroDot(a, b);
    } else {
      ScoreIsDot(sqrt, a, b);
    }
  }

  lemma {:induction false} ZeroDot(a: Vector, b: Vector)
    requires |a| == |b| && (Squares(a) == 0.0 || Squares(b) == 0.0)
    ensures Dot(a, b) == 0.0
  {
    if a != [] {
      ZeroDot(a[1..], b[1..]);
      if Squares(a) == 0.0 {
        ZeroSquare(a[0]);
      } else {
        ZeroSquare(b[0]);
      }
    }
  }

  /** A score strictly between 0 and 1. */
  lemma ScoreExample(sqrt: real -> real)
    requires IsSqrt(sqrt)
    ensures Similarity(sqrt, [1.0, 0.0], [3.0, 4.0]) == 0.6
  {
    var v: Vector, w: Vector := [1.0, 0.0], [3.0, 4.0];
    assert v[1..] == [0.0] && w[1..] == [4.0] && v[1..][1..] == [] && w[1..][1..] == [];
    assert Squares(v) == 1.0 && Squares(w) == 25.0 && Dot(v, w) == 3.0;
    RootUnique(sqrt(1.0), 1.0);
    RootUnique(sqrt(25.0), 5.0);
    ScoreIsDot(sqrt, v, w);
  }

  // ---------- direction only ----------

  lemma ScaledTerms(k: real, u: real, v: real, D: real, A: real)
    ensures Times(k, Times(u, v) + D) == Times(Times(k, u), v) + Times(k, D)
    ensures Times(Square(k), Square(u) + A) == Square(Times(k, u)) + Times(Square(k), A)
  {
    hide Square, Times;
    Associate(k, u, v);
    Distribute(k, Times(u, v), D);
    SquareOfProduct(k, u);
    Distribute(Square(k), Square(u), A);
  }

  lemma {:induction false} ScaledProducts(k: real, a: Vector, b: Vector)
    requires |a| == |b|
    ensures Dot(Scale(k, a), b) == Times(k, Dot(a, b))
    ensures Squares(Scale(k, a)) == Times(Square(k), Squares(a))
  {
    if a != [] {
      ScaledProducts(k, a[1..], b[1..]);
      assert Scale(k, a)[1..] == Scale(k, a[1..]);
      ScaledTerms(k, a[0], b[0], Dot(a[1..], b[1..]), Squares(a[1..]));
      hide Times, Square;
    }
  }

  lemma ScaledNorm(sqrt: real -> real, k: real, a: Vector)
    requires IsSqrt(sqrt) && k > 0.0
    ensures Squares(a) == 0.0 <==> Squares(Scale(k, a)) == 0.0
    ensures sqrt(Squares(Scale(k, a))) == Times(k, sqrt(Squares(a)))
  {
    ScaledProducts(k, a, a);
    ScaledRoot(k, Squares(a), sqrt(Squares(a)));
    hide Squares, Square, Scale, Times;
    RootUnique(sqrt(Squares(Scale(k, a))), Times(k, sqrt(Squares(a))));
  }

  lemma ScaledRoot(k: real, A: real, n: real)
    requires k > 0.0 && A >= 0.0 && n >= 0.0 && Square(n) == A
    ensures Times(Square(k), A) == Square(Times(k, n)) && Times(k, n) >= 0.0
    ensures A == 0.0 <==> Times(Square(k), A) == 0.0
  {
    SquareOfProduct(k, n);
    if A != 0.0 {
      SquarePositive(k);
      hide Square;
      PositiveProduct(Square(k), A);
    }
  }

  lemma ScaleLeft(sqrt: real -> real, k: real, a: Vector, b: Vector)
    requires IsSqrt(sqrt) && k > 0.0
    ensures Similarity(sqrt, Scale(k, a), b) == Similarity(sqrt, a, b)
  {
    ScaledNorm(sqrt, k, a);
    if |a| != |b| || Squares(a) == 0.0 || Squares(b) == 0.0 {
      ZeroScore(sqrt, a, b);
      ZeroScore(sqrt, Scale(k, a), b);
    } else {
      ScaledProducts(k, a, b);
      hide Dot, Squares, Square, Similarity, Ratio, Scale, Times;
      var n, m := ScoreOf(sqrt, a, b);
      var n', m' := ScoreOf(sqrt, Scale(k, a), b);
      RatioScaled(k, Dot(a, b), n, m);
      assert n' == Times(k, n) && m' == m;
    }
  }

  /** Scaling a vector by a positive factor does not change its similarity to anything. */
  lemma SimilarityScaleFree(sqrt: real -> real, k: real, a: Vector, b: Vector)
    requires IsSqrt(sqrt) && k > 0.0
    ensures Similarity(sqrt, Scale(k, a), b) == Similarity(sqrt, a, b)
    ensures Similarity(sqrt, a, Scale(k, b)) == Similarity(sqrt, a, b)
  {
    ScaleLeft(sqrt, k, a, b);
    ScaleLeft(sqrt, k, b, a);
    SimilaritySymmetric(sqrt, b, a);
    SimilaritySymmetric(sqrt, Scale(k, b), a);
  }

  // ---------- exact matches ----------

  /** Whether n*b == m*a, component by component. */
  ghost predicate Parallel(a: Vector, b: Vector, n: real, m: real)
    requires |a| == |b|
  {
    forall i :: 0 <= i < |a| ==> Times(n, b[i]) == Times(m, a[i])
  }

  lemma ParallelStep(n: real, m: real, u: real, v: real, D: real, A: real)
    requires Times(n, v) == Times(m, u)
    ensures Times(n, Times(u, v) + D) == Times(m, Square(u) + A) <==> Times(n, D) == Times(m, A)
  {
    assert Times(n, Times(u, v)) == Times(m, Square(u)) by {
      assert n * (u * v) == u * (n * v) == u * (m * u) == m * (u * u);
    }
    hide Square, Times;
    Distribute(n, Times(u, v), D);
    Distribute(m, Square(u), A);
  }

  lemma {:induction false} DotOfParallel(a: Vector, b: Vector, n: real, m: real)
    requires |a| == |b| && Parallel(a, b, n, m)
    ensures Times(n, Dot(a, b)) == Times(m, Squares(a))
  {
    if a != [] {
      DotOfParallel(a[1..], b[1..], n, m);
      ParallelStep(n, m, a[0], b[0], Dot(a[1..], b[1..]), Squares(a[1..]));
      hide Square, Times;
    }
  }

  lemma SameFactor(n: real, m: real, D: real)
    requires n > 0.0 && Times(n, D) == Times(m, Square(n))
    ensures D == n * m
  {
    assert m * Square(n) == n * (n * m);
    assert n * (D - n * m) == n * D - n * (n * m);
    if D - n * m != 0.0 {
      NonzeroProduct(n, D - n * m);
    }
  }

  /**
    A pair of nonzero vectors reaches the top score 1 exactly when both point the same
    way: each component of one, times the other's norm, equals the other's component
    times its norm.
   */
  lemma TopScore(sqrt: real -> real, a: Vector, b: Vector)
    requires IsSqrt(sqrt) && |a| == |b| && Squares(a) != 0.0 && Squares(b) != 0.0
    ensures Similarity(sqrt, a, b) == 1.0 <==> Parallel(a, b, sqrt(Squares(a)), sqrt(Squares(b)))
  {
    hide Dot, Squares, Square, Times, Parallel, Similarity, Ratio;
    var n, m := ScoreOf(sqrt, a, b);
    DotBound(a, b, n, m);
    RatioRange(Dot(a, b), n, m);
    if Dot(a, b) == n * m {
      NoGap(a, b, n, m);
    }
    if Parallel(a, b, n, m) {
      DotOfParallel(a, b, n, m);
      SameFactor(n, m, Dot(a, b));
    }
  }

  /** A nonzero vector scores exactly 1 against itself. */
  lemma SelfSimilarity(sqrt: real -> real, a: Vector)
    requires IsSqrt(sqrt) && Squares(a) != 0.0
    ensures Similarity(sqrt, a, a) == 1.0
  {
    TopScore(sqrt, a, a);
  }
}
