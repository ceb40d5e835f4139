/** Dot product, magnitude and cosine of record vectors, over the reals (node/backend/naive.go and
    node/wrapper/record.go). The square root is a parameter: any non-negative number whose square is the argument. */
module Similarity {

  function DotSpec(a: seq<real>, b: seq<real>): real
    requires |a| <= |b|
    decreases |a|
  {
    if a == [] then 0.0
    else DotSpec(a[..|a| - 1], b[..|a| - 1]) + a[|a| - 1] * b[|a| - 1]
  }

  /** The loop runs over `a`; a longer `b` is read only as far as `a` goes. */
  method Dot(a: seq<real>, b: seq<real>) returns (dot: real)
    requires |a| <= |b|
    ensures dot == DotSpec(a, b)
  {
    dot := 0.0;
    for i := 0 to |a|
      invariant dot == DotSpec(a[..i], b[..i])
    {
      assert a[..i + 1][..i] == a[..i] && b[..i + 1][..i] == b[..i];
      dot := dot + a[i] * b[i];
    }
    assert a[..|a|] == a;
    DotPrefix(a, b);
  }

  lemma {:induction false} DotPrefix(a: seq<real>, b: seq<real>)
    requires |a| <= |b|
    ensures DotSpec(a, b) == DotSpec(a, b[..|a|])
  {
    if a != [] {
      assert b[..|a|][..|a| - 1] == b[..|a| - 1];
    }
  }

  lemma {:induction false} DotSymmetric(a: seq<real>, b: seq<real>)
    requires |a| == |b|
    ensures DotSpec(a, b) == DotSpec(b, a)
  {
    if a != [] {
      DotSymmetric(a[..|a| - 1], b[..|b| - 1]);
    }
  }

  /** Adding vectors and scaling them carry over to their dot products with any one vector; and the dot product with
      the i-th unit vector is the i-th component. Together these fix it. */
  lemma {:induction false} DotLinear(a: seq<real>, a': seq<real>, b: seq<real>, x: real)
    requires |a| == |a'| == |b|
    ensures DotSpec(Combined(a, a', x), b) == DotSpec(a, b) + x * DotSpec(a', b)
  {
    if a != [] {
      var k := |a| - 1;
      var c := Combined(a, a', x);
      CombinedPrefix(a, a', x, k);
      DotSplit(c, b);
      DotLinear(a[..k], a'[..k], b[..k], x);
      DotSplit(a, b);
      DotSplit(a', b);
      Distribute(a[k], a'[k], b[k], x, DotSpec(a'[..k], b[..k]));
    }
  }

  /** a + x * a' */
  function Combined(a: seq<real>, a': seq<real>, x: real): (c: seq<real>)
    requires |a| == |a'|
    ensures |c| == |a|
  {
    seq(|a|, i requires 0 <= i < |a| => a[i] + x * a'[i])
  }

  lemma CombinedPrefix(a: seq<real>, a': seq<real>, x: real, k: nat)
    requires |a| == |a'| && k <= |a|
    ensures Combined(a, a', x)[..k] == Combined(a[..k], a'[..k], x)
  {
    var c, d := Combined(a, a', x), Combined(a[..k], a'[..k], x);
    forall i | 0 <= i < k
      ensures c[i] == d[i]
    {
      assert a[..k][i] == a[i] && a'[..k][i] == a'[i];
    }
  }

  lemma Distribute(p: real, q: real, r: real, x: real, s: real)
    ensures (p + x * q) * r == p * r + x * (q * r)
    ensures x * (s + q * r) == x * s + x * (q * r)
  {
    assert (p + x * q) * r == p * r + x * q * r;
  }

  function Unit(n: nat, i: nat): (u: seq<real>)
    ensures |u| == n
  {
    seq(n, j requires 0 <= j < n => if j == i then 1.0 else 0.0)
  }

  lemma {:induction false} DotUnit(b: seq<real>, i: nat)
    ensures DotSpec(Unit(|b|, i), b) == if i < |b| then b[i] else 0.0
  {
    if b != [] {
      var k := |b| - 1;
      assert Unit(|b|, i)[..k] == Unit(k, i);
      DotUnit(b[..k], i);
      DotSplit(Unit(|b|, i), b);
    }
  }

  lemma SquareNonNegative(x: real)
    ensures x * x >= 0.0
  {
  }

  lemma {:induction false} DotSelfNonNegative(a: seq<real>)
    ensures DotSpec(a, a) >= 0.0
  {
    if a != [] {
      DotSelfNonNegative(a[..|a| - 1]);
      SquareNonNegative(a[|a| - 1]);
    }
  }

  /** The quadratic form x^2*sb - 2*x*y*sd + y^2*sa is not negative. */
  ghost predicate FormNonNegative(x: real, y: real, sa: real, sb: real, sd: real) {
    x * x * sb - 2.0 * x * y * sd + y * y * sa >= 0.0
  }

  lemma Expand(x: real, y: real, p: real, q: real, sa: real, sb: real, sd: real, sa': real, sb': real, sd': real)
    requires FormNonNegative(x, y, sa, sb, sd)
    requires sa' == sa + p * p && sb' == sb + q * q && sd' == sd + p * q
    ensures FormNonNegative(x, y, sa', sb', sd')
  {
    var z := x * q - y * p;
    SquareNonNegative(z);
    assert z * z == x * x * q * q - 2.0 * x * y * p * q + y * y * p * p;
  }

  lemma ZeroForm(x: real, y: real)
    ensures FormNonNegative(x, y, 0.0, 0.0, 0.0)
  {
  }

  lemma {:induction false} DotSplit(a: seq<real>, b: seq<real>)
    requires |a| == |b| && a != []
    ensures DotSpec(a, b) == DotSpec(a[..|a| - 1], b[..|b| - 1]) + a[|a| - 1] * b[|b| - 1]
  {
  }

  /** The sum of (x*b[i] - y*a[i])^2 is not negative. */
  lemma {:induction false} Quadratic(a: seq<real>, b: seq<real>, x: real, y: real)
    requires |a| == |b|
    ensures FormNonNegative(x, y, DotSpec(a, a), DotSpec(b, b), DotSpec(a, b))
  {
    hide FormNonNegative;
    if a == [] {
      ZeroForm(x, y);
    } else {
      var a', b' := a[..|a| - 1], b[..|b| - 1];
      Quadratic(a', b', x, y);
      DotSplit(a, b);
      DotSplit(a, a);
      DotSplit(b, b);
      Expand(x, y, a[|a| - 1], b[|b| - 1], DotSpec(a', a'), DotSpec(b', b'), DotSpec(a', b'),
             DotSpec(a, a), DotSpec(b, b), DotSpec(a, b));
    }
  }

  ghost predicate SquareWithin(d: real, x: real, y: real) {
    d * d <= x * y
  }

  lemma CauchyStep(sa: real, sb: real, sd: real, p: real, q: real, sa': real, sb': real, sd': real)
    requires SquareWithin(sd, sa, sb) && FormNonNegative(p, q, sa, sb, sd)
    requires sa' == sa + p * p && sb' == sb + q * q && sd' == sd + p * q
    ensures SquareWithin(sd', sa', sb')
  {
  }

  /** The Cauchy-Schwarz inequality: the square of a dot product is within the product of the self products. */
  lemma {:induction false} CauchySchwarz(a: seq<real>, b: seq<real>)
    requires |a| == |b|
    ensures SquareWithin(DotSpec(a, b), DotSpec(a, a), DotSpec(b, b))
  {
    hide SquareWithin, FormNonNegative;
    if a == [] {
      ZeroWithin();
    } else {
      var a', b' := a[..|a| - 1], b[..|b| - 1];
      CauchySchwarz(a', b');
      Quadratic(a', b', a[|a| - 1], b[|b| - 1]);
      DotSplit(a, b);
      DotSplit(a, a);
      DotSplit(b, b);
      CauchyStep(DotSpec(a', a'), DotSpec(b', b'), DotSpec(a', b'), a[|a| - 1], b[|b| - 1],
                 DotSpec(a, a), DotSpec(b, b), DotSpec(a, b));
    }
  }

  lemma ZeroWithin()
    ensures SquareWithin(0.0, 0.0, 0.0)
  {
  }

  /** Dropping the tail of a vector does not raise its self product. */
  lemma {:induction false} SelfGrows(b: seq<real>, n: nat)
    requires n <= |b|
    ensures DotSpec(b[..n], b[..n]) <= DotSpec(b, b)
    decreases |b|
  {
    if n == |b| {
      assert b[..n] == b;
    } else {
      var b' := b[..|b| - 1];
      SelfGrows(b', n);
      assert b'[..n] == b[..n];
      SquareNonNegative(b[|b| - 1]);
    }
  }

  lemma ScaleUp(x: real, y: real, z: real)
    requires x >= 0.0 && y <= z
    ensures x * y <= x * z
  {
  }

  /** The same when the second vector is longer and its tail is not read. */
  lemma {:induction false} CauchySchwarzLonger(a: seq<real>, b: seq<real>)
    requires |a| <= |b|
    ensures SquareWithin(DotSpec(a, b), DotSpec(a, a), DotSpec(b, b))
  {
    var c := b[..|a|];
    DotPrefix(a, b);
    CauchySchwarz(a, c);
    SelfGrows(b, |a|);
    DotSelfNonNegative(a);
    ScaleUp(DotSpec(a, a), DotSpec(c, c), DotSpec(b, b));
  }

  // ----- cosine -----

  predicate IsRoot(m: real, x: real) {
    m >= 0.0 && m * m == x
  }

  /** The cosine as the handler computes it from the two magnitudes. */
  function CosineOf(a: seq<real>, b: seq<real>, ma: real, mb: real): real
    requires |a| <= |b|
  {
    if ma * mb != 0.0 then DotSpec(a, b) / (ma * mb) else 0.0
  }

  method Cosine(a: seq<real>, b: seq<real>, ma: real, mb: real) returns (cos: real)
    requires |a| <= |b| && IsRoot(ma, DotSpec(a, a)) && IsRoot(mb, DotSpec(b, b))
    ensures cos == CosineOf(a, b, ma, mb)
    ensures -1.0 <= cos <= 1.0
    ensures cos * (ma * mb) == DotSpec(a, b)
  {
    cos := 0.0;
    var den := ma * mb;
    CosineBounded(a, b, ma, mb);
    CosineTimesMagnitudes(a, b, ma, mb);
    if den != 0.0 {
      var dot := Dot(a, b);
      cos := dot / den;
    }
  }

  lemma PositiveProduct(x: real, y: real)
    requires x > 0.0 && y > 0.0
    ensures x * y > 0.0
  {
  }

  lemma SquareGrows(x: real, y: real)
    requires 0.0 <= y < x
    ensures y * y < x * x
  {
    PositiveProduct(x - y, x + y);
    assert (x - y) * (x + y) == x * x - y * y;
  }

  /** |d| <= m whenever d*d <= m*m and m is not negative. */
  lemma RootMonotone(d: real, m: real)
    requires m >= 0.0 && d * d <= m * m
    ensures -m <= d <= m
  {
    if d > m {
      SquareGrows(d, m);
      assert false;
    } else if d < -m {
      SquareGrows(-d, m);
      assert false;
    }
  }

  lemma QuotientBounded(d: real, den: real)
    requires den > 0.0 && -den <= d <= den
    ensures -1.0 <= d / den <= 1.0
  {
  }

  lemma ProductOfRoots(ma: real, mb: real, x: real, y: real)
    requires IsRoot(ma, x) && IsRoot(mb, y)
    ensures ma * mb >= 0.0 && (ma * mb) * (ma * mb) == x * y
  {
  }

  lemma {:induction false} CosineBounded(a: seq<real>, b: seq<real>, ma: real, mb: real)
    requires |a| <= |b| && IsRoot(ma, DotSpec(a, a)) && IsRoot(mb, DotSpec(b, b))
    ensures -1.0 <= CosineOf(a, b, ma, mb) <= 1.0
  {
    CauchySchwarzLonger(a, b);
    ProductOfRoots(ma, mb, DotSpec(a, a), DotSpec(b, b));
    RootMonotone(DotSpec(a, b), ma * mb);
    if ma * mb != 0.0 {
      QuotientBounded(DotSpec(a, b), ma * mb);
    }
  }

  /** The cosine times both magnitudes is the dot product, also when a magnitude is zero. */
  lemma {:induction false} CosineTimesMagnitudes(a: seq<real>, b: seq<real>, ma: real, mb: real)
    requires |a| <= |b| && IsRoot(ma, DotSpec(a, a)) && IsRoot(mb, DotSpec(b, b))
    ensures CosineOf(a, b, ma, mb) * (ma * mb) == DotSpec(a, b)
  {
    CauchySchwarzLonger(a, b);
    ProductOfRoots(ma, mb, DotSpec(a, a), DotSpec(b, b));
    RootMonotone(DotSpec(a, b), ma * mb);
    if ma * mb != 0.0 {
      TimesQuotient(DotSpec(a, b), ma * mb);
    }
  }

  lemma TimesQuotient(d: real, den: real)
    requires den != 0.0
    ensures d / den * den == d
  {
  }

  lemma ProductPositive(x: real, y: real, z: real)
    requires x > 0.0 && y > 0.0 && z == x * y
    ensures z > 0.0
  {
  }

  lemma SquareZeroIff(x: real, y: real)
    requires y == x * x
    ensures y >= 0.0 && (y == 0.0 <==> x == 0.0)
  {
    if x > 0.0 {
      ProductPositive(x, x, y);
    } else if x < 0.0 {
      ProductPositive(-x, -x, y);
    }
  }

  lemma SelfQuotient(x: real, c: real)
    requires x > 0.0 && c * x == x
    ensures c == 1.0
  {
    assert (c - 1.0) * x == c * x - x;
    assert (1.0 - c) * x == x - c * x;
    if c > 1.0 {
      PositiveProduct(c - 1.0, x);
      assert false;
    } else if c < 1.0 {
      PositiveProduct(1.0 - c, x);
      assert false;
    }
  }

  lemma {:induction false} ZeroIffSelfZero(a: seq<real>)
    ensures IsZero(a) <==> DotSpec(a, a) == 0.0
  {
    if a != [] {
      var a', x := a[..|a| - 1], a[|a| - 1];
      ZeroIffSelfZero(a');
      DotSelfNonNegative(a');
      DotSplit(a, a);
      assert IsZero(a) <==> IsZero(a') && x == 0.0 by {
        assert forall i :: 0 <= i < |a| - 1 ==> a'[i] == a[i];
      }
      SquareZeroIff(x, x * x);
      assert DotSpec(a, a) == DotSpec(a', a') + x * x;
    }
  }

  ghost predicate IsZero(a: seq<real>) {
    forall i :: 0 <= i < |a| ==> a[i] == 0.0
  }

  lemma {:induction false} ZeroDot(a: seq<real>)
    requires IsZero(a)
    ensures DotSpec(a, a) == 0.0
  {
    if a != [] {
      ZeroDot(a[..|a| - 1]);
    }
  }

  lemma RootOfZero(m: real)
    requires IsRoot(m, 0.0)
    ensures m == 0.0
  {
    if m != 0.0 {
      SquareGrows(m, 0.0);
      assert false;
    }
  }

  /** The cosine is symmetric, lies in [-1, 1], is 0 when either vector is zero and 1 of a non-zero vector with itself,
      and times both magnitudes it is the dot product. */
  lemma {:induction false} CosineLaws(a: seq<real>, b: seq<real>, ma: real, mb: real)
    requires |a| == |b| && IsRoot(ma, DotSpec(a, a)) && IsRoot(mb, DotSpec(b, b))
    ensures CosineOf(a, b, ma, mb) == CosineOf(b, a, mb, ma)
    ensures -1.0 <= CosineOf(a, b, ma, mb) <= 1.0
    ensures IsZero(a) || IsZero(b) ==> CosineOf(a, b, ma, mb) == 0.0
    ensures CosineOf(a, b, ma, mb) * (ma * mb) == DotSpec(a, b)
    ensures !IsZero(a) ==> CosineOf(a, a, ma, ma) == 1.0
  {
    DotSymmetric(a, b);
    CosineBounded(a, b, ma, mb);
    CosineTimesMagnitudes(a, b, ma, mb);
    if !IsZero(a) {
      ZeroIffSelfZero(a);
      CosineTimesMagnitudes(a, a, ma, ma);
      DotSelfNonNegative(a);
      SelfQuotient(DotSpec(a, a), CosineOf(a, a, ma, ma));
    }
    if IsZero(a) {
      ZeroDot(a);
      RootOfZero(ma);
    }
    if IsZero(b) {
      ZeroDot(b);
      RootOfZero(mb);
    }
    assert ma * mb == mb * ma;
  }
}
