/** The in-memory learnings store, crates/ar-index/src/learnings.rs, over exact reals. */
module Learnings {
  import opened Text
  import opened Ranking
  import Command

  type Vector = seq<real>

  datatype Source = Chat | Guideline | Inferred

  datatype Record = Record(id: nat, text: string, source: Source, embedding: Vector, createdAt: int)

  datatype Scored = Scored(learning: Record, score: real)

  datatype RemoveResult = Removed | NotFound(id: nat)

  // ----- Cosine similarity -----

  /** The product, named so that proofs can treat it as opaque. */
  function Times(x: real, y: real): real {
    x * y
  }

  function Dot(a: Vector, b: Vector): real
    requires |a| == |b|
  {
    if a == [] then 0.0 else Times(a[0], b[0]) + Dot(a[1..], b[1..])
  }

  ghost predicate IsSquareRoot(sqrt: real -> real) {
    forall x :: x >= 0.0 ==> sqrt(x) >= 0.0 && Times(sqrt(x), sqrt(x)) == x
  }

  function Cosine(sqrt: real -> real, a: Vector, b: Vector): real {
    if |a| != |b| || a == [] then 0.0
    else
      var normA, normB := sqrt(Dot(a, a)), sqrt(Dot(b, b));
      if normA == 0.0 || normB == 0.0 then 0.0
      else
        TimesNonzero(normA, normB);
        Dot(a, b) / Times(normA, normB)
  }

  // Facts about products of reals, each proved on its own.

  lemma TimesNonzero(x: real, y: real)
    requires x != 0.0 && y != 0.0
    ensures Times(x, y) != 0.0
  {
  }

  lemma TimesPositive(x: real, y: real)
    requires (x > 0.0 && y > 0.0) || (x < 0.0 && y < 0.0)
    ensures Times(x, y) > 0.0
  {
  }

  lemma TimesZero(x: real, y: real)
    requires y == 0.0
    ensures Times(x, y) == 0.0 && Times(y, x) == 0.0
  {
  }

  lemma SquarePositive(x: real)
    ensures if x == 0.0 then Times(x, x) == 0.0 else Times(x, x) > 0.0
  {
    if x == 0.0 {
      TimesZero(x, x);
    } else {
      TimesPositive(x, x);
    }
    hide Times;
  }

  lemma FactorNonnegative(x: real, y: real)
    requires x > 0.0 && Times(x, y) >= 0.0
    ensures y >= 0.0
  {
  }

  lemma TimesCommutes(x: real, y: real)
    ensures Times(x, y) == Times(y, x)
  {
  }

  lemma MoveScalar(p: real, x: real, y: real)
    ensures Times(Times(p, x), y) == Times(p, Times(x, y))
  {
  }

  lemma Distribute(p: real, x: real, y: real)
    ensures Times(p, x + y) == Times(p, x) + Times(p, y)
    ensures Times(p, x - y) == Times(p, x) - Times(p, y)
    ensures Times(x - y, p) == Times(x, p) - Times(y, p)
  {
  }

  lemma DifferenceOfSquares(d: real, n: real)
    ensures Times(d, d) - Times(n, n) == Times(d - n, d + n)
  {
  }

  /** A number whose square is at most that of n lies between -n and n. */
  lemma SquareBound(d: real, n: real)
    requires n > 0.0 && Times(d, d) <= Times(n, n)
    ensures -n <= d <= n
  {
    hide Times;
    DifferenceOfSquares(d, n);
    if d > n || d < -n {
      TimesPositive(d - n, d + n);
    }
  }

  lemma QuotientIsFactor(d: real, n: real)
    requires n != 0.0
    ensures Times(n, 1.0 - d / n) == n - d
    ensures Times(n, 1.0 + d / n) == n + d
  {
    assert (d / n) * n == d;
  }

  lemma QuotientOfSame(n: real)
    requires n != 0.0
    ensures n / n == 1.0
  {
  }

  lemma QuotientBound(d: real, n: real)
    requires n > 0.0 && -n <= d <= n
    ensures -1.0 <= d / n <= 1.0
  {
    hide Times;
    QuotientIsFactor(d, n);
    FactorNonnegative(n, 1.0 - d / n);
    FactorNonnegative(n, 1.0 + d / n);
  }

  // The dot product is symmetric, linear and positive.

  function Scale(p: real, a: Vector): (r: Vector)
    ensures |r| == |a|
  {
    if a == [] then [] else [Times(p, a[0])] + Scale(p, a[1..])
  }

  function Minus(a: Vector, b: Vector): (r: Vector)
    requires |a| == |b|
    ensures |r| == |a|
  {
    if a == [] then [] else [a[0] - b[0]] + Minus(a[1..], b[1..])
  }

  lemma {:induction false} DotSymmetric(a: Vector, b: Vector)
    requires |a| == |b|
    ensures Dot(a, b) == Dot(b, a)
  {
    hide Times;
    if a != [] {
      DotSymmetric(a[1..], b[1..]);
      TimesCommutes(a[0], b[0]);
    }
  }

  lemma {:induction false} DotScale(p: real, a: Vector, b: Vector)
    requires |a| == |b|
    ensures Dot(Scale(p, a), b) == Times(p, Dot(a, b))
  {
    hide Times;
    if a != [] {
      DotScale(p, a[1..], b[1..]);
      MoveScalar(p, a[0], b[0]);
      Distribute(p, Times(a[0], b[0]), Dot(a[1..], b[1..]));
      assert Scale(p, a)[1..] == Scale(p, a[1..]);
    } else {
      TimesZero(p, 0.0);
    }
  }

  lemma {:induction false} DotMinus(a: Vector, b: Vector, c: Vector)
    requires |a| == |b| == |c|
    ensures Dot(Minus(a, b), c) == Dot(a, c) - Dot(b, c)
  {
    hide Times;
    if a != [] {
      DotMinus(a[1..], b[1..], c[1..]);
      Distribute(c[0], a[0], b[0]);
      assert Minus(a, b)[1..] == Minus(a[1..], b[1..]);
    }
  }

  /** Nonnegative, and 0 for the null vector only. */
  lemma {:induction false} DotDefinite(a: Vector)
    ensures Dot(a, a) >= 0.0
    ensures Dot(a, a) == 0.0 ==> forall i :: 0 <= i < |a| ==> a[i] == 0.0
  {
    hide Times;
    if a != [] {
      DotDefinite(a[1..]);
      SquarePositive(a[0]);
      assert a == [a[0]] + a[1..];
    }
  }

  lemma {:induction false} NullVectorDot(a: Vector, b: Vector)
    requires |a| == |b| && forall i :: 0 <= i < |b| ==> b[i] == 0.0
    ensures Dot(a, b) == 0.0
  {
    hide Times;
    if a != [] {
      NullVectorDot(a[1..], b[1..]);
      TimesZero(a[0], b[0]);
    }
  }

  lemma DotWithCombination(p: real, a: Vector, q: real, b: Vector, c: Vector)
    requires |a| == |b| == |c|
    ensures Dot(c, Minus(Scale(p, a), Scale(q, b))) == Times(p, Dot(a, c)) - Times(q, Dot(b, c))
  {
    hide Times, Dot, Scale, Minus;
    DotSymmetric(c, Minus(Scale(p, a), Scale(q, b)));
    DotMinus(Scale(p, a), Scale(q, b), c);
    DotScale(p, a, c);
    DotScale(q, b, c);
  }

  /** With aa, ab, bb the products of a and b, the vector v = bb*a - ab*b is orthogonal to b
      and has v.v = bb * (bb*aa - ab*ab). */
  lemma DotOfResidual(a: Vector, b: Vector)
    requires |a| == |b|
    ensures var aa, ab, bb := Dot(a, a), Dot(a, b), Dot(b, b);
            var v := Minus(Scale(bb, a), Scale(ab, b));
            Dot(v, v) == Times(bb, Times(bb, aa) - Times(ab, ab))
  {
    hide Times, Dot, Scale, Minus;
    var ab, bb := Dot(a, b), Dot(b, b);
    var v := Minus(Scale(bb, a), Scale(ab, b));
    DotWithCombination(bb, a, ab, b, v);
    DotWithCombination(bb, a, ab, b, a);
    DotWithCombination(bb, a, ab, b, b);
    DotSymmetric(a, b);
    DotSymmetric(a, v);
    DotSymmetric(b, v);
    TimesCommutes(ab, bb);
    TimesZero(ab, Dot(b, v));
  }

  lemma CauchySchwarz(a: Vector, b: Vector)
    requires |a| == |b|
    ensures Times(Dot(a, b), Dot(a, b)) <= Times(Dot(b, b), Dot(a, a))
  {
    hide Times, Dot, Scale, Minus;
    var aa, ab, bb := Dot(a, a), Dot(a, b), Dot(b, b);
    DotDefinite(b);
    if bb == 0.0 {
      NullVectorDot(a, b);
      TimesZero(ab, ab);
      TimesZero(aa, bb);
    } else {
      DotOfResidual(a, b);
      DotDefinite(Minus(Scale(bb, a), Scale(ab, b)));
      FactorNonnegative(bb, Times(bb, aa) - Times(ab, ab));
    }
  }

  lemma SquareOfProduct(x: real, y: real)
    ensures Times(Times(y, y), Times(x, x)) == Times(Times(x, y), Times(x, y))
  {
    hide Times;
    MoveScalar(y, y, Times(x, x));
    MoveScalar(y, x, x);
    MoveScalar(x, y, Times(x, y));
    TimesCommutes(x, Times(y, Times(x, y)));
    TimesCommutes(x, y);
    MoveScalar(y, Times(y, x), x);
  }

  /** Every score lies between -1 and 1, for vectors of any length. */
  lemma CosineWithinUnit(sqrt: real -> real, a: Vector, b: Vector)
    requires IsSquareRoot(sqrt)
    ensures -1.0 <= Cosine(sqrt, a, b) <= 1.0
  {
    hide Times, Dot;
    if |a| == |b| && a != [] {
      var x, y, d := sqrt(Dot(a, a)), sqrt(Dot(b, b)), Dot(a, b);
      DotDefinite(a);
      DotDefinite(b);
      CauchySchwarz(a, b);
      if x != 0.0 && y != 0.0 {
        TimesPositive(x, y);
        SquareOfProduct(x, y);
        SquareBound(d, Times(x, y));
        QuotientBound(d, Times(x, y));
      }
    }
  }

  /** A vector that is not null scores 1 against itself, which nothing exceeds. */
  lemma SelfScoreIsOne(sqrt: real -> real, a: Vector)
    requires IsSquareRoot(sqrt) && Dot(a, a) != 0.0
    ensures Cosine(sqrt, a, a) == 1.0
  {
    assert a != [];
    hide Times, Dot;
    DotDefinite(a);
    var n := Dot(a, a);
    if sqrt(n) == 0.0 {
      TimesZero(0.0, sqrt(n));
    }
    QuotientOfSame(n);
  }

  // ----- What the score means -----

  /** The dot product is the sum of the products of the coordinates. */
  lemma {:induction false} DotIsSumOfProducts(x: real, y: real, a: Vector, b: Vector, c: Vector, d: Vector)
    requires |a| == |b| && |c| == |d|
    ensures Dot([], []) == 0.0 && Dot([x], [y]) == x * y
    ensures Dot(a + c, b + d) == Dot(a, b) + Dot(c, d)
  {
    if a == [] {
      assert a + c == c && b + d == d;
    } else {
      DotIsSumOfProducts(x, y, a[1..], b[1..], c, d);
      assert (a + c)[1..] == a[1..] + c && (b + d)[1..] == b[1..] + d;
    }
  }

  lemma {:induction false} Coordinates(p: real, a: Vector, b: Vector, i: nat)
    requires |a| == |b| && i < |a|
    ensures Scale(p, a)[i] == p * a[i] && Minus(a, b)[i] == a[i] - b[i]
  {
    if i > 0 {
      Coordinates(p, a[1..], b[1..], i - 1);
    }
  }

  lemma TimesAssociates(x: real, y: real, z: real)
    ensures Times(Times(x, y), z) == Times(x, Times(y, z)) && Times(Times(x, y), z) == Times(Times(x, z), y)
  {
  }

  lemma QuotientTimes(d: real, n: real)
    requires n != 0.0
    ensures Times(d / n, n) == d
  {
  }

  lemma TimesOfZero(x: real, y: real)
    requires Times(x, y) == 0.0
    ensures x == 0.0 || y == 0.0
  {
    hide Times;
    if x != 0.0 && y != 0.0 {
      TimesNonzero(x, y);
    }
  }

  /** Null is what scores as having no length. */
  lemma RootIsZeroIff(sqrt: real -> real, a: Vector)
    requires IsSquareRoot(sqrt)
    ensures sqrt(Dot(a, a)) >= 0.0 && Times(sqrt(Dot(a, a)), sqrt(Dot(a, a))) == Dot(a, a)
    ensures sqrt(Dot(a, a)) == 0.0 <==> Dot(a, a) == 0.0
  {
    hide Times, Dot;
    DotDefinite(a);
    TimesZero(0.0, 0.0);
    if Dot(a, a) == 0.0 {
      TimesOfZero(sqrt(Dot(a, a)), sqrt(Dot(a, a)));
    }
  }

  /** The score times both lengths is the dot product, for any two vectors of the same length. */
  lemma ScoreTimesLengths(sqrt: real -> real, a: Vector, b: Vector)
    requires IsSquareRoot(sqrt) && |a| == |b|
    ensures Times(Cosine(sqrt, a, b), Times(sqrt(Dot(a, a)), sqrt(Dot(b, b)))) == Dot(a, b)
  {
    hide IsSquareRoot, Times, Dot;
    var x, y := sqrt(Dot(a, a)), sqrt(Dot(b, b));
    RootIsZeroIff(sqrt, a);
    RootIsZeroIff(sqrt, b);
    if x == 0.0 || y == 0.0 {
      if y == 0.0 {
        TimesZero(x, y);
      } else {
        TimesZero(y, x);
      }
      TimesZero(Cosine(sqrt, a, b), Times(x, y));
      NullOnEitherSide(a, b);
    } else {
      LongIsNonempty(a);
      TimesNonzero(x, y);
      QuotientTimes(Dot(a, b), Times(x, y));
    }
  }

  lemma LongIsNonempty(a: Vector)
    requires Dot(a, a) != 0.0
    ensures a != []
  {
  }

  lemma NullOnEitherSide(a: Vector, b: Vector)
    requires |a| == |b| && (Dot(a, a) == 0.0 || Dot(b, b) == 0.0)
    ensures Dot(a, b) == 0.0
  {
    hide Times, Dot;
    DotDefinite(a);
    DotDefinite(b);
    if Dot(b, b) == 0.0 {
      NullVectorDot(a, b);
    } else {
      NullVectorDot(b, a);
      DotSymmetric(a, b);
    }
  }

  /** Vectors of different lengths and null vectors score 0. */
  lemma NoScore(sqrt: real -> real, a: Vector, b: Vector)
    requires IsSquareRoot(sqrt) && (|a| != |b| || Dot(a, a) == 0.0 || Dot(b, b) == 0.0)
    ensures Cosine(sqrt, a, b) == 0.0
  {
    hide Times, Dot, IsSquareRoot;
    RootIsZeroIff(sqrt, a);
    RootIsZeroIff(sqrt, b);
  }

  function SquaredDistance(a: Vector, b: Vector): real
    requires |a| == |b|
  {
    Dot(Minus(a, b), Minus(a, b))
  }

  lemma DistanceByProducts(a: Vector, b: Vector)
    requires |a| == |b|
    ensures SquaredDistance(a, b) == Dot(a, a) + Dot(b, b) - Dot(a, b) - Dot(a, b)
  {
    hide Times, Dot, Minus;
    var v := Minus(a, b);
    DotMinus(a, b, v);
    DotSymmetric(a, v);
    DotSymmetric(b, v);
    DotMinus(a, b, a);
    DotMinus(a, b, b);
    DotSymmetric(a, b);
  }

  /** The law of cosines: the score is the cosine of the angle between the vectors. */
  lemma LawOfCosines(sqrt: real -> real, a: Vector, b: Vector)
    requires IsSquareRoot(sqrt) && |a| == |b|
    ensures SquaredDistance(a, b)
            == Dot(a, a) + Dot(b, b) - 2.0 * Times(Cosine(sqrt, a, b), Times(sqrt(Dot(a, a)), sqrt(Dot(b, b))))
  {
    hide Times, Dot, IsSquareRoot, SquaredDistance, Cosine;
    DistanceByProducts(a, b);
    ScoreTimesLengths(sqrt, a, b);
  }

  lemma RootOfOne(sqrt: real -> real)
    requires IsSquareRoot(sqrt)
    ensures sqrt(1.0) == 1.0
  {
    var r := sqrt(1.0);
    assert Times(r, r) == 1.0 && r >= 0.0;
    DifferenceOfSquares(r, 1.0);
    assert Times(1.0, 1.0) == 1.0;
    hide Times;
    TimesOfZero(r - 1.0, r + 1.0);
  }

  lemma TimesOne(x: real)
    ensures Times(1.0, 1.0) == 1.0 && Times(x, 1.0) == x
  {
  }

  /** Between unit vectors, the score says how far they are apart. */
  lemma UnitScoreIsDistance(sqrt: real -> real, a: Vector, b: Vector)
    requires IsSquareRoot(sqrt) && |a| == |b| && Dot(a, a) == 1.0 && Dot(b, b) == 1.0
    ensures SquaredDistance(a, b) == 2.0 - 2.0 * Cosine(sqrt, a, b)
  {
    hide Times, Dot, IsSquareRoot, SquaredDistance, Cosine;
    LawOfCosines(sqrt, a, b);
    RootOfOne(sqrt);
    TimesOne(Cosine(sqrt, a, b));
  }

  // Stretching an embedding does not change its score, and turning it round negates it.

  lemma SquareOf(p: real, x: real)
    ensures Times(Times(p, x), Times(p, x)) == Times(p, Times(p, Times(x, x)))
    ensures Times(-p, Times(-p, x)) == Times(p, Times(p, x))
  {
  }

  /** The nonnegative root is unique. */
  lemma RootIsUnique(sqrt: real -> real, n: real, r: real)
    requires IsSquareRoot(sqrt) && r >= 0.0 && Times(r, r) == n
    ensures sqrt(n) == r
  {
    NonnegativeSquare(r);
    assert Times(sqrt(n), sqrt(n)) == n && sqrt(n) >= 0.0;
    hide Times, IsSquareRoot;
    DifferenceOfSquares(sqrt(n), r);
    TimesOfZero(sqrt(n) - r, sqrt(n) + r);
  }

  lemma NonnegativeSquare(r: real)
    ensures Times(r, r) >= 0.0
  {
    hide Times;
    SquarePositive(r);
  }

  lemma NonnegativeTimes(p: real, x: real)
    requires p > 0.0 && x >= 0.0
    ensures Times(p, x) >= 0.0
  {
  }

  lemma LengthOfScaled(sqrt: real -> real, p: real, b: Vector)
    requires IsSquareRoot(sqrt) && p != 0.0
    ensures sqrt(Dot(Scale(p, b), Scale(p, b))) == Times(if p > 0.0 then p else -p, sqrt(Dot(b, b)))
  {
    hide Times, Dot, IsSquareRoot, Scale;
    var size := if p > 0.0 then p else -p;
    DotScale(p, b, Scale(p, b));
    DotSymmetric(b, Scale(p, b));
    DotScale(p, b, b);
    RootIsZeroIff(sqrt, b);
    SquareOf(size, sqrt(Dot(b, b)));
    SquareOf(p, Dot(b, b));
    NonnegativeTimes(size, sqrt(Dot(b, b)));
    RootIsUnique(sqrt, Dot(Scale(p, b), Scale(p, b)), Times(size, sqrt(Dot(b, b))));
  }

  lemma SignedQuotient(p: real, d: real, x: real, y: real)
    requires p != 0.0 && x != 0.0 && y != 0.0
    ensures var size := if p > 0.0 then p else -p;
            && Times(x, Times(size, y)) != 0.0 && Times(x, y) != 0.0
            && Times(p, d) / Times(x, Times(size, y))
               == if p > 0.0 then d / Times(x, y) else -(d / Times(x, y))
  {
    var size := if p > 0.0 then p else -p;
    TimesNonzero(x, y);
    TimesNonzero(size, Times(x, y));
    TimesCommutes(x, Times(size, y));
    MoveScalar(size, y, x);
    TimesCommutes(x, y);
    CancelFactor(size, d, Times(x, y));
    CancelFactor(size, -d, Times(x, y));
    NegatedFactor(p, d);
    hide Times;
    NegatedQuotient(d, Times(x, y));
  }

  lemma NegatedFactor(p: real, d: real)
    ensures Times(-p, -d) == Times(p, d)
  {
  }

  lemma NegatedQuotient(d: real, n: real)
    requires n != 0.0
    ensures (-d) / n == -(d / n)
  {
  }

  lemma CancelFactor(p: real, d: real, n: real)
    requires p != 0.0 && n != 0.0
    ensures Times(p, n) != 0.0 && Times(p, d) / Times(p, n) == d / n
  {
    TimesNonzero(p, n);
    hide Times;
    QuotientTimes(d, n);
    QuotientTimes(Times(p, d), Times(p, n));
    SameQuotient(p, d, n);
  }

  lemma SameQuotient(p: real, d: real, n: real)
    requires p != 0.0 && n != 0.0 && Times(p, n) != 0.0
    ensures Times(p, d) / Times(p, n) == d / n
  {
    var q := d / n;
    assert q * n == d;
    assert p * d == q * (p * n);
  }

  lemma ScaledScore(sqrt: real -> real, p: real, a: Vector, b: Vector)
    requires IsSquareRoot(sqrt) && p != 0.0 && |a| == |b|
    ensures Cosine(sqrt, a, Scale(p, b)) == if p > 0.0 then Cosine(sqrt, a, b) else -Cosine(sqrt, a, b)
  {
    hide Times, Dot, IsSquareRoot, Scale;
    var x, y := sqrt(Dot(a, a)), sqrt(Dot(b, b));
    var size := if p > 0.0 then p else -p;
    LengthOfScaled(sqrt, p, b);
    DotSymmetric(a, Scale(p, b));
    DotScale(p, b, a);
    DotSymmetric(b, a);
    if y == 0.0 {
      TimesZero(size, y);
    } else if x != 0.0 {
      TimesNonzero(size, y);
      SignedQuotient(p, Dot(a, b), x, y);
    }
  }

  /** Query and embeddings of one length, all unit vectors. */
  ghost predicate AllUnit(query: Vector, records: seq<Record>) {
    && Dot(query, query) == 1.0
    && forall i :: 0 <= i < |records| ==>
         |records[i].embedding| == |query| && Dot(records[i].embedding, records[i].embedding) == 1.0
  }

  /** Over unit vectors a score that is no higher is a distance that is no smaller. */
  lemma NearerIsHigher(sqrt: real -> real, query: Vector, records: seq<Record>, i: nat, k: nat)
    requires IsSquareRoot(sqrt) && AllUnit(query, records) && i < |records| && k < |records|
    ensures Cosine(sqrt, query, records[k].embedding) <= Cosine(sqrt, query, records[i].embedding)
            <==> SquaredDistance(query, records[i].embedding) <= SquaredDistance(query, records[k].embedding)
  {
    hide IsSquareRoot, Dot, SquaredDistance, Cosine;
    UnitScoreIsDistance(sqrt, query, records[i].embedding);
    UnitScoreIsDistance(sqrt, query, records[k].embedding);
  }

  // ----- The store -----

  /** Ids are handed out in increasing order and never reused. */
  ghost predicate StoreInv(records: seq<Record>, nextId: nat) {
    && (forall i :: 0 <= i < |records| ==> records[i].id < nextId)
    && (forall i, j :: 0 <= i < j < |records| ==> records[i].id < records[j].id)
  }

  /** `retain(|r| r.id != id)`. */
  function Without(records: seq<Record>, id: nat): seq<Record> {
    if records == [] then []
    else Without(records[..|records| - 1], id)
         + if records[|records| - 1].id == id then [] else [records[|records| - 1]]
  }

  lemma NothingWithout(id: nat)
    ensures Without([], id) == []
  {
  }

  lemma WithoutSnoc(records: seq<Record>, i: nat, id: nat)
    requires i < |records|
    ensures Without(records[..i + 1], id)
            == Without(records[..i], id) + if records[i].id == id then [] else [records[i]]
  {
    assert records[..i + 1][..i] == records[..i];
  }

  lemma {:induction false} WithoutExactly(records: seq<Record>, id: nat)
    ensures |Without(records, id)| <= |records|
    ensures forall r :: r in Without(records, id) <==> r in records && r.id != id
    ensures (forall r :: r in records ==> r.id != id) <==> Without(records, id) == records
    ensures Without(records, id) == records <==> |Without(records, id)| == |records|
  {
    if records != [] {
      var n := |records| - 1;
      WithoutExactly(records[..n], id);
      assert records == records[..n] + [records[n]];
    }
  }

  lemma {:induction false} WithoutKeepsInv(records: seq<Record>, id: nat, nextId: nat)
    requires StoreInv(records, nextId)
    ensures StoreInv(Without(records, id), nextId)
  {
    if records != [] {
      var n := |records| - 1;
      WithoutKeepsInv(records[..n], id, nextId);
      WithoutExactly(records[..n], id);
      InvSnoc(Without(records[..n], id), records[n], nextId, records);
    }
  }

  lemma InvSnoc(rest: seq<Record>, last: Record, nextId: nat, records: seq<Record>)
    requires StoreInv(rest, nextId) && StoreInv(records, nextId)
    requires records != [] && last == records[|records| - 1]
    requires forall r :: r in rest ==> r in records[..|records| - 1]
    ensures StoreInv(rest + [last], nextId) && StoreInv(rest + [], nextId)
  {
    forall i | 0 <= i < |rest|
      ensures rest[i].id < last.id
    {
      assert rest[i] in rest;
    }
    assert rest + [] == rest;
  }

  /** Breaks ties by insertion order, as a stable sort does. */
  function ByScore(scores: seq<real>): (nat, nat) -> bool {
    (i: nat, j: nat) =>
      var x, y := (if i < |scores| then scores[i] else 0.0), (if j < |scores| then scores[j] else 0.0);
      x > y || (x == y && i < j)
  }

  function Scores(sqrt: real -> real, records: seq<Record>, query: Vector): seq<real> {
    seq(|records|, i requires 0 <= i < |records| => Cosine(sqrt, query, records[i].embedding))
  }

  /** The places of the nearest records, nearest first: nothing left out lies nearer than anything
      kept. */
  ghost predicate NearestFirst(query: Vector, records: seq<Record>, order: seq<nat>)
    requires forall i :: 0 <= i < |records| ==> |records[i].embedding| == |query|
    requires forall i :: 0 <= i < |order| ==> order[i] < |records|
  {
    && (forall i, j :: 0 <= i < j < |order| ==>
          SquaredDistance(query, records[order[i]].embedding) <= SquaredDistance(query, records[order[j]].embedding))
    && forall k, i :: 0 <= k < |records| && k !in order && 0 <= i < |order| ==>
         SquaredDistance(query, records[order[i]].embedding) <= SquaredDistance(query, records[k].embedding)
  }

  lemma HighestIsNearest(sqrt: real -> real, query: Vector, records: seq<Record>, order: seq<nat>)
    requires IsSquareRoot(sqrt) && AllUnit(query, records)
    requires forall i :: 0 <= i < |order| ==> order[i] < |records|
    requires forall i, j :: 0 <= i < j < |order| ==>
               Cosine(sqrt, query, records[order[j]].embedding) <= Cosine(sqrt, query, records[order[i]].embedding)
    requires forall k, i :: 0 <= k < |records| && k !in order && 0 <= i < |order| ==>
               Cosine(sqrt, query, records[k].embedding) <= Cosine(sqrt, query, records[order[i]].embedding)
    ensures NearestFirst(query, records, order)
  {
    hide IsSquareRoot, SquaredDistance, Cosine, Dot;
    forall i, j | 0 <= i < j < |order|
      ensures SquaredDistance(query, records[order[i]].embedding) <= SquaredDistance(query, records[order[j]].embedding)
    {
      NearerIsHigher(sqrt, query, records, order[i], order[j]);
    }
    forall k, i | 0 <= k < |records| && k !in order && 0 <= i < |order|
      ensures SquaredDistance(query, records[order[i]].embedding) <= SquaredDistance(query, records[k].embedding)
    {
      NearerIsHigher(sqrt, query, records, order[i], k);
    }
  }

  class InMemoryLearningsStore {
    var nextId: nat
    var records: seq<Record>

    ghost predicate Valid()
      reads this
    {
      StoreInv(records, nextId)
    }

    ghost function State(): Store
      reads this
    {
      Store(records, nextId)
    }

    constructor ()
      ensures Valid() && nextId == 1 && records == []
    {
      nextId := 1;
      records := [];
    }

    method Add(text: string, source: Source, embedding: Vector, now: int) returns (r: Record)
      requires Valid()
      modifies this
      ensures Valid()
      ensures r == Record(old(nextId), text, source, embedding, now)
      ensures nextId == old(nextId) + 1 && records == old(records) + [r]
      ensures State() == After(old(State()), Adding(text, source, embedding, now))
    {
      r := Record(nextId, text, source, embedding, now);
      nextId := nextId + 1;
      records := records + [r];
    }

    method Remove(id: nat) returns (result: RemoveResult)
      requires Valid()
      modifies this
      ensures Valid()
      ensures nextId == old(nextId) && records == Without(old(records), id)
      ensures State() == After(old(State()), Removing(id))
      ensures result == if exists r :: r in old(records) && r.id == id then Removed else NotFound(id)
    {
      hide Without;
      var kept: seq<Record> := [];
      NothingWithout(id);
      for i := 0 to |records|
        invariant records == old(records) && nextId == old(nextId)
        invariant kept == Without(records[..i], id)
      {
        WithoutSnoc(records, i, id);
        if records[i].id != id {
          kept := kept + [records[i]];
        }
      }
      assert records[..|records|] == records;
      WithoutExactly(records, id);
      WithoutKeepsInv(records, id, nextId);
      result := if |kept| == |records| then NotFound(id) else Removed;
      records := kept;
    }

    /** The `topK` best records: scores never rise along the list, equal scores keep their
        insertion order, and nothing left out scores above anything kept. */
    method QueryNearest(sqrt: real -> real, query: Vector, topK: nat) returns (r: seq<Scored>, ghost order: seq<nat>)
      ensures |r| == |order| == if topK < |records| then topK else |records|
      ensures forall i :: 0 <= i < |r| ==> order[i] < |records| && r[i].learning == records[order[i]]
      ensures forall i :: 0 <= i < |r| ==> r[i].score == Cosine(sqrt, query, r[i].learning.embedding)
      ensures forall i, j :: 0 <= i < j < |r| ==>
                r[i].score > r[j].score || (r[i].score == r[j].score && order[i] < order[j])
      ensures forall k, i :: 0 <= k < |records| && k !in order && 0 <= i < |r| ==>
                Cosine(sqrt, query, records[k].embedding) <= r[i].score
      ensures IsSquareRoot(sqrt) && AllUnit(query, records) ==> NearestFirst(query, records, order)
    {
      hide Cosine, NearestFirst, AllUnit, IsSquareRoot, StrictTotalOrder, ByScore;
      var all, scores := records, Scores(sqrt, records, query);
      var indices: seq<nat> := seq(|all|, i => i);
      var top := Truncate(Sort(indices, ByScore(scores)), topK);
      order := top;
      ByScoreIsTotal(scores);
      IndicesCounted(indices);
      SortedPrefixIsTop(indices, topK, ByScore(scores));
      BestFirst(sqrt, query, records, topK, indices, order);
      r := seq(|top|, i requires 0 <= i < |top| => Scored(all[top[i]], scores[top[i]]));
      if IsSquareRoot(sqrt) && AllUnit(query, records) {
        HighestIsNearest(sqrt, query, records, order);
      }
    }
  }

  lemma BestFirst(sqrt: real -> real, query: Vector, records: seq<Record>, topK: nat, indices: seq<nat>,
                  order: seq<nat>)
    requires |indices| == |records| && forall i :: 0 <= i < |indices| ==> indices[i] == i
    requires IsTop(Elements(indices), topK, ByScore(Scores(sqrt, records, query)), order)
    ensures |order| == if topK < |records| then topK else |records|
    ensures forall i :: 0 <= i < |order| ==> order[i] < |records|
    ensures forall i, j :: 0 <= i < j < |order| ==>
              var x, y := Cosine(sqrt, query, records[order[i]].embedding),
                          Cosine(sqrt, query, records[order[j]].embedding);
              x > y || (x == y && order[i] < order[j])
    ensures forall k, i :: 0 <= k < |records| && k !in order && 0 <= i < |order| ==>
              Cosine(sqrt, query, records[k].embedding) <= Cosine(sqrt, query, records[order[i]].embedding)
  {
    hide Cosine;
    var scores := Scores(sqrt, records, query);
    IndicesCounted(indices);
    forall i | 0 <= i < |order|
      ensures order[i] < |records|
    {
      assert order[i] in Elements(order);
      assert order[i] in Elements(indices);
    }
    forall k, i | 0 <= k < |records| && k !in order && 0 <= i < |order|
      ensures Cosine(sqrt, query, records[k].embedding) <= Cosine(sqrt, query, records[order[i]].embedding)
    {
      assert indices[k] in Elements(indices);
      assert ByScore(scores)(order[i], k);
    }
    forall i, j | 0 <= i < j < |order|
      ensures scores[order[i]] > scores[order[j]] || (scores[order[i]] == scores[order[j]] && order[i] < order[j])
    {
      assert ByScore(scores)(order[i], order[j]);
    }
  }

  lemma {:induction false} IndicesCounted(indices: seq<nat>)
    requires forall i :: 0 <= i < |indices| ==> indices[i] == i
    ensures |Elements(indices)| == |indices|
  {
    if indices != [] {
      var n := |indices| - 1;
      IndicesCounted(indices[..n]);
      var x: nat := indices[n];
      assert indices == indices[..n] + [x];
      assert x !in Elements(indices[..n]);
      assert Elements(indices) == Elements(indices[..n]) + {x};
    }
  }

  lemma ByScoreIsTotal(scores: seq<real>)
    ensures StrictTotalOrder(ByScore(scores))
  {
  }

  // ----- Remember, then revoke -----

  lemma WithoutNewest(records: seq<Record>, nextId: nat, r: Record)
    requires StoreInv(records, nextId) && r.id == nextId
    ensures Without(records + [r], r.id) == records && StoreInv(records, nextId + 1)
  {
    assert (records + [r])[..|records|] == records;
    WithoutExactly(records, nextId);
  }

  /** What happens to a store between an add and its revoke. */
  datatype Change = Adding(text: string, source: Source, embedding: Vector, now: int) | Removing(id: nat)

  datatype Store = Store(records: seq<Record>, nextId: nat)

  function After(s: Store, change: Change): Store {
    match change
    case Adding(text, source, embedding, now) =>
      Store(s.records + [Record(s.nextId, text, source, embedding, now)], s.nextId + 1)
    case Removing(id) => s.(records := Without(s.records, id))
  }

  function AfterAll(s: Store, changes: seq<Change>): Store {
    if changes == [] then s else After(AfterAll(s, changes[..|changes| - 1]), changes[|changes| - 1])
  }

  lemma {:induction false} WithoutCommutes(records: seq<Record>, i: nat, j: nat)
    ensures Without(Without(records, i), j) == Without(Without(records, j), i)
  {
    hide Without;
    if records == [] {
      NothingWithout(i);
      NothingWithout(j);
    } else {
      var n := |records| - 1;
      var front, last := records[..n], records[n];
      assert records == front + [last];
      WithoutCommutes(front, i, j);
      WithoutLast(front, last, i);
      WithoutLast(front, last, j);
      WithoutLast(Without(front, i), last, j);
      WithoutLast(Without(front, j), last, i);
      WithoutNothingMore(front, i, j);
    }
  }

  lemma WithoutNothingMore(front: seq<Record>, i: nat, j: nat)
    ensures Without(front, i) + [] == Without(front, i) && Without(front, j) + [] == Without(front, j)
    ensures Without(Without(front, i), j) + [] == Without(Without(front, i), j)
    ensures Without(Without(front, j), i) + [] == Without(Without(front, j), i)
  {
    hide Without;
  }

  lemma WithoutLast(records: seq<Record>, r: Record, id: nat)
    ensures Without(records + [r], id) == Without(records, id) + if r.id == id then [] else [r]
  {
    assert (records + [r])[..|records|] == records;
  }

  /** A record that was added makes no difference to what is left when it is taken out. */
  lemma {:induction false} RemovalUndoesAdd(s: Store, r: Record, changes: seq<Change>)
    requires StoreInv(s.records, s.nextId) && r.id == s.nextId
    ensures var added, skipped := Store(s.records + [r], s.nextId + 1), s.(nextId := s.nextId + 1);
            && AfterAll(added, changes).nextId == AfterAll(skipped, changes).nextId > r.id
            && Without(AfterAll(added, changes).records, r.id) == AfterAll(skipped, changes).records
  {
    hide Without, StoreInv;
    if changes == [] {
      WithoutNewest(s.records, s.nextId, r);
    } else {
      var n := |changes| - 1;
      RemovalUndoesAdd(s, r, changes[..n]);
      var before := AfterAll(Store(s.records + [r], s.nextId + 1), changes[..n]);
      match changes[n]
      case Adding(text, source, embedding, now) =>
        WithoutLast(before.records, Record(before.nextId, text, source, embedding, now), r.id);
      case Removing(id) =>
        WithoutCommutes(before.records, id, r.id);
    }
  }

  /** Running the command that `remember` printed takes out exactly the record that it added,
      whatever was added and removed in between: the store is as if it never had been there, but
      for its id, which is not handed out again. With no change in between, the prior list is
      back. */
  lemma RevokeRestores(s: Store, r: Record, changes: seq<Change>)
    requires StoreInv(s.records, s.nextId) && r.id == s.nextId < U64_LIMIT
    ensures var cmd := Command.ParseChatCommand(Command.QuotedCommand(Command.RememberReply(r.id)), "auto-review");
            && cmd.Forget?
            && Without(AfterAll(Store(s.records + [r], s.nextId + 1), changes).records, cmd.id)
               == AfterAll(s.(nextId := s.nextId + 1), changes).records
  {
    hide *;
    Command.ReplyQuotesTheCommand(r.id);
    Command.RevokeOfAutoReview(r.id);
    RemovalUndoesAdd(s, r, changes);
  }
}
