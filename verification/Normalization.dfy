/**
 * The normal form of the integer vectors that describe a dependent variable
 * (`_identifyPolyVars`), and the extended Euclid (`_euclid`).  Division and
 * remainder truncate toward zero.
 */
module Normalization {
  import opened LinearExpressions

  function Abs(a: int): nat { if a < 0 then -a else a }

  function TruncDiv(a: int, b: int): int
    requires b != 0
  {
    if a >= 0 then a / b else -((-a) / b)
  }

  function TruncRem(a: int, b: int): int
    requires b != 0
  {
    a - b * TruncDiv(a, b)
  }

  // ----- products, kept away from the solver -----

  function Product(a: int, b: int): int { a * b }

  lemma ProductLess(k: nat, a: int, b: int)
    requires k > 0
    ensures a < b ==> k * a < k * b
    ensures k * a < k * b ==> a < b
  {
  }

  lemma {:induction false} QuotientUnique(a: int, b: int, q: int, r: int)
    requires b != 0 && a == b * q + r && 0 <= r < Abs(b)
    ensures a / b == q
  {
    var d, r' := q - a / b, a % b;
    assert a == b * (a / b) + r';
    assert b * d == r' - r by {
      assert b * d == b * q - b * (a / b);
    }
    MultipleApart(b, d);
  }

  lemma MultipleApart(b: int, d: int)
    ensures d == 0 || Abs(b * d) >= Abs(b)
  {
  }

  lemma TruncRemBound(a: int, b: int)
    requires b != 0
    ensures Abs(TruncRem(a, b)) < Abs(b)
  {
    var p := Abs(a);
    assert p == b * (p / b) + p % b;
    if a < 0 {
      assert b * -(p / b) == -(b * (p / b));
    }
  }

  lemma TruncDivScales(a: int, b: int, k: int)
    requires b != 0 && k != 0
    ensures k * b != 0 && TruncDiv(k * a, k * b) == TruncDiv(a, b)
  {
    var m, p := Abs(k), Abs(a);
    DivisionOf(p, b);
    ScaledQuotient(p, b, p / b, p % b, m);
    SignedProducts(k, a);
    SignedProducts(k, b);
    SignedProducts(m, a);
    SignedProducts(m, b);
    QuotientSigns(a, b, k, p / b, m * p, m * b, k * a, k * b);
  }

  lemma DivisionOf(p: nat, b: int)
    requires b != 0
    ensures p == b * (p / b) + p % b && 0 <= p % b < Abs(b) && (p == 0 ==> p / b == 0)
  {
  }

  lemma QuotientSigns(a: int, b: int, k: int, q: int, mp: int, mb: int, ka: int, kb: int)
    requires b != 0 && k != 0 && q == Abs(a) / b && mb != 0
    requires mp >= 0 && (mp == 0 <==> a == 0) && (a == 0 ==> q == 0)
    requires mp / mb == q && mp / -mb == -q
    requires kb == (if k > 0 then mb else -mb) && ka == if (k > 0) == (a >= 0) then mp else -mp
    ensures TruncDiv(ka, kb) == TruncDiv(a, b)
  {
  }

  // Scaling both operands, even by a negative factor, scales the remainder.
  lemma TruncScales(a: int, b: int, k: int)
    requires b != 0 && k != 0
    ensures k * b != 0 && TruncDiv(k * a, k * b) == TruncDiv(a, b)
    ensures TruncRem(k * a, k * b) == k * TruncRem(a, b)
  {
    TruncDivScales(a, b, k);
    Factor(k, a, b, TruncDiv(a, b));
  }

  lemma Factor(k: int, a: int, b: int, q: int)
    ensures k * a - (k * b) * q == k * (a - b * q)
  {
  }

  lemma SignedProducts(k: int, a: int)
    ensures (-k) * a == -(k * a) && k * -a == -(k * a)
    ensures k > 0 ==> (k * a >= 0 <==> a >= 0)
    ensures k < 0 ==> (k * a >= 0 <==> a <= 0)
    ensures k != 0 ==> (k * a == 0 <==> a == 0)
  {
  }

  // |k| * p over k * b, for p >= 0.
  lemma ScaledQuotient(p: nat, b: int, q: int, r: int, k: int)
    requires b != 0 && k != 0 && p == b * q + r && 0 <= r < Abs(b)
    ensures k > 0 ==> k * b != 0 && (k * p) / (k * b) == q
    ensures k > 0 ==> k * -b != 0 && (k * p) / (k * -b) == -q
  {
    if k > 0 {
      assert k * p == (k * b) * q + k * r;
      ProductLess(k, r, Abs(b));
      SignedProducts(k, b);
      QuotientUnique(k * p, k * b, q, k * r);
      assert k * p == (k * -b) * (-q) + k * r;
      QuotientUnique(k * p, k * -b, -q, k * r);
    }
  }

  // ----- the greatest common divisor, with the sign Euclid gives it -----

  function Gcd(a: int, b: int): int
    decreases Abs(b)
  {
    if b == 0 then a else
      TruncRemBound(a, b);
      Gcd(b, TruncRem(a, b))
  }

  lemma {:induction false} GcdScales(a: int, b: int, k: int)
    requires k != 0
    ensures Gcd(k * a, k * b) == k * Gcd(a, b)
    decreases Abs(b)
  {
    SignedProducts(k, b);
    if b != 0 {
      TruncRemBound(a, b);
      TruncScales(a, b, k);
      GcdScales(b, TruncRem(a, b), k);
    }
  }

  ghost predicate Divides(d: int, a: int) {
    exists q :: a == Product(d, q)
  }

  lemma {:induction false} GcdDivides(a: int, b: int)
    ensures Divides(Gcd(a, b), a) && Divides(Gcd(a, b), b)
    decreases Abs(b)
  {
    if b == 0 {
      assert a == Product(a, 1) && 0 == Product(a, 0);
    } else {
      TruncRemBound(a, b);
      var g, q := Gcd(a, b), TruncDiv(a, b);
      GcdDivides(b, TruncRem(a, b));
      var x :| b == Product(g, x);
      var y :| TruncRem(a, b) == Product(g, y);
      Combine(g, x, q, y);
      assert a == Product(g, x * q + y);
    }
  }

  lemma Combine(g: int, x: int, q: int, y: int)
    ensures Product(g, x * q + y) == Product(g, x) * q + Product(g, y)
  {
  }

  // ----- the normal form -----

  // The last entry first, then the others from the left.
  function VectorGcd(u: seq<int>, n: nat): int
    requires n < |u|
  {
    if n == 0 then u[|u| - 1] else Gcd(VectorGcd(u, n - 1), u[n - 1])
  }

  function PGcd(u: seq<int>): int
    requires u != []
  {
    VectorGcd(u, |u| - 1)
  }

  lemma {:induction false} VectorGcdDivides(u: seq<int>, n: nat)
    requires n < |u|
    ensures Divides(VectorGcd(u, n), u[|u| - 1])
    ensures forall i :: 0 <= i < n ==> Divides(VectorGcd(u, n), u[i])
  {
    if n == 0 {
      assert u[|u| - 1] == Product(u[|u| - 1], 1);
    } else {
      VectorGcdDivides(u, n - 1);
      var g := VectorGcd(u, n - 1);
      GcdDivides(g, u[n - 1]);
      DividesBoth(VectorGcd(u, n), g, u[|u| - 1]);
      forall i | 0 <= i < n - 1
        ensures Divides(VectorGcd(u, n), u[i])
      {
        DividesBoth(VectorGcd(u, n), g, u[i]);
      }
    }
  }

  lemma DividesBoth(d: int, e: int, a: int)
    requires Divides(d, e) && Divides(e, a)
    ensures Divides(d, a)
  {
    var x :| e == Product(d, x);
    var y :| a == Product(e, y);
    assert a == Product(d, x * y);
  }

  lemma PGcdDivides(u: seq<int>, k: nat)
    requires k < |u|
    ensures Divides(PGcd(u), u[k])
    ensures u[k] != 0 ==> PGcd(u) != 0
  {
    VectorGcdDivides(u, |u| - 1);
    if PGcd(u) == 0 {
      var q :| u[k] == Product(0, q);
    }
  }

  ghost function Scaled(u: seq<int>, k: int): seq<int> {
    seq(|u|, i requires 0 <= i < |u| => k * u[i])
  }

  lemma {:induction false} VectorGcdScales(u: seq<int>, k: int, n: nat)
    requires n < |u| && k != 0
    ensures VectorGcd(Scaled(u, k), n) == k * VectorGcd(u, n)
  {
    if n > 0 {
      VectorGcdScales(u, k, n - 1);
      GcdScales(VectorGcd(u, n - 1), u[n - 1], k);
    }
  }

  function Norm(u: seq<int>): seq<int>
    requires u != [] && PGcd(u) != 0
  {
    var g := PGcd(u);
    seq(|u|, i requires 0 <= i < |u| => TruncDiv(u[i], g))
  }

  // A description of a dependent variable: its own coefficient, the last but
  // one entry, is not zero.
  predicate Describing(u: seq<int>) {
    |u| >= 2 && u[|u| - 2] != 0
  }

  lemma DescribingHasGcd(u: seq<int>)
    requires Describing(u)
    ensures PGcd(u) != 0
  {
    PGcdDivides(u, |u| - 2);
  }

  lemma ExactQuotient(a: int, g: int)
    requires g != 0 && Divides(g, a)
    ensures g * TruncDiv(a, g) == a
  {
    var q :| a == Product(g, q);
    SignedProducts(g, q);
    if a >= 0 {
      QuotientUnique(a, g, q, 0);
    } else {
      QuotientUnique(-a, g, -q, 0);
    }
  }

  // The vector is its normal form times its divisor.
  lemma NormTimesGcd(u: seq<int>)
    requires Describing(u)
    ensures PGcd(u) != 0 && |Norm(u)| == |u| && Describing(Norm(u))
    ensures forall i :: 0 <= i < |u| ==> u[i] == PGcd(u) * Norm(u)[i]
  {
    DescribingHasGcd(u);
    forall i | 0 <= i < |u|
      ensures u[i] == PGcd(u) * Norm(u)[i]
    {
      PGcdDivides(u, i);
      ExactQuotient(u[i], PGcd(u));
    }
    SignedProducts(PGcd(u), Norm(u)[|u| - 2]);
  }

  lemma NormOfScaled(u: seq<int>, k: int)
    requires Describing(u) && k != 0
    ensures Describing(Scaled(u, k)) && PGcd(u) != 0 && PGcd(Scaled(u, k)) != 0
    ensures Norm(Scaled(u, k)) == Norm(u)
  {
    DescribingHasGcd(u);
    VectorGcdScales(u, k, |u| - 1);
    SignedProducts(k, u[|u| - 2]);
    SignedProducts(k, PGcd(u));
    forall i | 0 <= i < |u|
      ensures TruncDiv(Scaled(u, k)[i], PGcd(Scaled(u, k))) == TruncDiv(u[i], PGcd(u))
    {
      TruncScales(u[i], PGcd(u), k);
    }
  }

  // Non-zero multiples of one vector.
  ghost predicate Proportional(u: seq<int>, w: seq<int>) {
    |u| == |w| && exists a, b :: a != 0 && b != 0 && Scaled(u, a) == Scaled(w, b)
  }

  lemma Exchange(a: int, b: int, n: int)
    ensures a * (b * n) == b * (a * n)
  {
  }

  // The normal form is canonical, negative factors included.
  lemma NormIsCanonical(u: seq<int>, w: seq<int>)
    requires Describing(u) && Describing(w) && |u| == |w|
    ensures PGcd(u) != 0 && PGcd(w) != 0 && (Norm(u) == Norm(w) <==> Proportional(u, w))
  {
    NormTimesGcd(u);
    NormTimesGcd(w);
    if Norm(u) == Norm(w) {
      var a, b := PGcd(w), PGcd(u);
      forall i | 0 <= i < |u|
        ensures a * u[i] == b * w[i]
      {
        Exchange(a, b, Norm(u)[i]);
      }
      assert Scaled(u, a) == Scaled(w, b);
    }
    if Proportional(u, w) {
      var a, b :| a != 0 && b != 0 && Scaled(u, a) == Scaled(w, b);
      NormOfScaled(u, a);
      NormOfScaled(w, b);
    }
  }

  // ----- what a vector says about its variable -----

  ghost function Dot(u: seq<int>, xs: seq<real>, n: nat): real
    requires n <= |u| && n <= |xs|
  {
    if n == 0 then 0.0 else Dot(u, xs, n - 1) + Times(u[n - 1], xs[n - 1])
  }

  // `0 = u . (xs, x, 1)`: the equality on the base variables and the variable.
  ghost predicate Defines(u: seq<int>, xs: seq<real>, x: real)
    requires |u| == |xs| + 2
  {
    Dot(u, xs, |xs|) + Times(u[|xs|], x) + u[|xs| + 1] as real == 0.0
  }

  lemma {:induction false} DotScales(u: seq<int>, w: seq<int>, k: int, xs: seq<real>, n: nat)
    requires n <= |u| == |w| && n <= |xs| && forall i :: 0 <= i < |u| ==> u[i] == k * w[i]
    ensures Dot(u, xs, n) == Times(k, Dot(w, xs, n))
  {
    if n > 0 {
      DotScales(u, w, k, xs, n - 1);
      TimesAssociates(w[n - 1], k, xs[n - 1]);
      assert w[n - 1] * k == k * w[n - 1];
      TimesPlus(k, Dot(w, xs, n - 1), Times(w[n - 1], xs[n - 1]));
    }
  }

  lemma DefinesScales(u: seq<int>, w: seq<int>, k: int, xs: seq<real>, x: real)
    requires |u| == |w| == |xs| + 2 && k != 0 && forall i :: 0 <= i < |u| ==> u[i] == k * w[i]
    ensures Defines(u, xs, x) <==> Defines(w, xs, x)
  {
    var n := |xs|;
    DotScales(u, w, k, xs, n);
    TimesAssociates(w[n], k, x);
    assert w[n] * k == k * w[n] && w[n + 1] * k == k * w[n + 1];
    TimesCast(w[n + 1], k);
    var d, t, c := Dot(w, xs, n), Times(w[n], x), w[n + 1] as real;
    TimesPlus(k, d, t);
    TimesPlus(k, d + t, c);
    NonZeroTimes(k, d + t + c);
  }

  lemma NonZeroTimes(k: int, x: real)
    requires k != 0
    ensures Times(k, x) == 0.0 <==> x == 0.0
  {
    assert k as real != 0.0;
  }

  // Normalising does not change what is said, and the variable is determined.
  lemma NormDefines(u: seq<int>, xs: seq<real>, x: real)
    requires Describing(u) && |u| == |xs| + 2
    ensures PGcd(u) != 0 && |Norm(u)| == |u| && (Defines(Norm(u), xs, x) <==> Defines(u, xs, x))
  {
    NormTimesGcd(u);
    DefinesScales(u, Norm(u), PGcd(u), xs, x);
  }

  // Variables matched by equal vectors have equal values whenever the base
  // variables agree.
  lemma MatchedValuesAgree(u: seq<int>, w: seq<int>, xs: seq<real>, x: real, y: real)
    requires Describing(u) && Describing(w) && |u| == |w| == |xs| + 2
    requires PGcd(u) != 0 && PGcd(w) != 0 && Norm(u) == Norm(w)
    requires Defines(u, xs, x) && Defines(w, xs, y)
    ensures x == y
  {
    NormTimesGcd(u);
    NormDefines(u, xs, x);
    NormDefines(w, xs, y);
    var a := Norm(u)[|xs|];
    TimesPlus(a, x, -y);
    TimesPlus(a, y, -y);
    NonZeroTimes(a, x - y);
    NonZeroTimes(a, 0.0);
  }

  // ----- the loops -----

  method ComputeGcd(vect: array<int>) returns (pgcd: int)
    requires vect.Length > 0
    ensures pgcd == PGcd(vect[..])
  {
    pgcd := vect[vect.Length - 1];
    for i := 0 to vect.Length - 1
      invariant pgcd == VectorGcd(vect[..], i)
    {
      var coef2 := vect[i];
      while coef2 != 0
        invariant Gcd(pgcd, coef2) == VectorGcd(vect[..], i + 1)
        decreases Abs(coef2)
      {
        TruncRemBound(pgcd, coef2);
        var tmp := pgcd;
        pgcd := coef2;
        coef2 := TruncRem(tmp, coef2);
      }
    }
  }

  method Normalize(vect: array<int>)
    requires Describing(vect[..])
    modifies vect
    ensures PGcd(old(vect[..])) != 0 && vect[..] == Norm(old(vect[..]))
  {
    ghost var u := vect[..];
    DescribingHasGcd(u);
    var pgcd := ComputeGcd(vect);
    if pgcd != 1 {
      for i := 0 to vect.Length
        invariant forall k :: 0 <= k < i ==> vect[k] == TruncDiv(u[k], pgcd)
        invariant forall k :: i <= k < vect.Length ==> vect[k] == u[k]
      {
        vect[i] := TruncDiv(vect[i], pgcd);
      }
    } else {
      forall k | 0 <= k < |u|
        ensures TruncDiv(u[k], 1) == u[k]
      {
      }
    }
    assert vect[..] == Norm(u);
  }

  // ----- the extended algorithm -----

  const INT_MAX := 0x7fff_ffff

  predicate FitsInt(a: int) { -INT_MAX <= a <= INT_MAX }

  ghost predicate GreatestCommonDivisor(g: int, a: int, b: int) {
    && g > 0 && Divides(g, a) && Divides(g, b)
    && (forall d :: Divides(d, a) && Divides(d, b) ==> Divides(d, g))
  }

  ghost predicate SameDivisors(a: int, b: int, c: int, d: int) {
    forall e :: (Divides(e, a) && Divides(e, b)) <==> (Divides(e, c) && Divides(e, d))
  }

  // `x` is congruent to `k * b` modulo `a`.
  ghost predicate Multiple(a: int, b: int, x: int, k: int) {
    Divides(a, x - Product(k, b))
  }

  // What the loop keeps of the coefficients: each remainder is a multiple of
  // `b` modulo `a`, the signs alternate, and one sum stays equal to `a`.
  ghost predicate Bezout(a: int, b: int, oldRest: int, rest: int, oldBezout: int, bezout: int) {
    && oldRest > 0 && rest >= 0
    && Multiple(a, b, oldRest, oldBezout) && Multiple(a, b, rest, bezout)
    && Product(Abs(bezout), oldRest) + Product(Abs(oldBezout), rest) == a
    && (bezout <= 0 <= oldBezout || oldBezout <= 0 <= bezout)
    && Abs(bezout) <= a && Abs(oldBezout) <= a
  }

  lemma BezoutStart(a: int, b: int)
    requires a > 0 && b >= 0
    ensures Bezout(a, b, a, b, 0, 1) && SameDivisors(a, b, a, b)
  {
    assert a - Product(0, b) == Product(a, 1);
    assert b - Product(1, b) == Product(a, 0);
  }

  lemma MultipleStep(a: int, b: int, x: int, k: int, y: int, l: int, q: int)
    requires Multiple(a, b, x, k) && Multiple(a, b, y, l)
    ensures Multiple(a, b, x - q * y, k - q * l)
  {
    var i :| x - Product(k, b) == Product(a, i);
    var j :| y - Product(l, b) == Product(a, j);
    Difference(k, l, q, b);
    Difference(i, j, q, a);
    assert x - q * y - Product(k - q * l, b) == Product(a, i - q * j) by {
      Opposite(a, i - q * j);
      Opposite(a, i);
      Opposite(a, j);
      assert q * y == q * (Product(l, b) + Product(a, j));
    }
  }

  lemma Difference(k: int, l: int, q: int, b: int)
    ensures Product(k - q * l, b) == Product(k, b) - q * Product(l, b)
  {
  }

  lemma Opposite(a: int, b: int)
    ensures Product(a, b) == Product(b, a)
  {
  }

  // One division: the quotient and both products fit, and the sum is kept.
  lemma BezoutStep(a: int, b: int, oldRest: int, rest: int, oldBezout: int, bezout: int)
    requires a > 0 && Bezout(a, b, oldRest, rest, oldBezout, bezout) && rest > 0
    ensures var q := oldRest / rest;
      && 0 <= q * rest <= oldRest && Abs(q * bezout) <= a
      && oldRest - q * rest == oldRest % rest
      && Bezout(a, b, rest, oldRest - q * rest, bezout, oldBezout - q * bezout)
  {
    var q := oldRest / rest;
    var next, n := oldRest - q * rest, oldBezout - q * bezout;
    var o, t := Abs(oldBezout), Abs(bezout);
    DivisionStep(oldRest, rest);
    MultipleStep(a, b, oldRest, oldBezout, rest, bezout, q);
    SignedStep(q, oldBezout, bezout);
    SumKept(o, t, q, oldRest, rest);
    hide Product, Multiple;
    AtMost(o + q * t, rest, t, next, a);
  }

  lemma DivisionStep(a: nat, b: nat)
    requires b > 0
    ensures 0 <= (a / b) * b <= a && a - (a / b) * b == a % b && a / b >= 0
  {
  }

  lemma SumKept(o: nat, t: nat, q: int, oldRest: int, rest: int)
    ensures Product(o + q * t, rest) + Product(t, oldRest - q * rest) == Product(o, rest) + Product(t, oldRest)
  {
    Difference(o, t, -q, rest);
    DifferenceRight(t, oldRest, q, rest);
  }

  lemma SignedStep(q: nat, oldBezout: int, bezout: int)
    requires bezout <= 0 <= oldBezout || oldBezout <= 0 <= bezout
    ensures Abs(oldBezout - q * bezout) == Abs(oldBezout) + q * Abs(bezout)
    ensures Abs(q * bezout) == q * Abs(bezout)
    ensures oldBezout - q * bezout <= 0 <= bezout || bezout <= 0 <= oldBezout - q * bezout
  {
    assert bezout <= 0 ==> q * bezout <= 0;
    assert bezout >= 0 ==> q * bezout >= 0;
  }

  lemma AtMost(n: nat, rest: nat, t: nat, next: nat, a: int)
    requires rest > 0 && Product(n, rest) + Product(t, next) == a
    ensures n <= a
  {
    assert Product(n, rest) >= n;
    assert Product(t, next) >= 0;
  }

  lemma DivisorsStep(a: int, b: int, oldRest: int, rest: int, q: int)
    requires SameDivisors(a, b, oldRest, rest)
    ensures SameDivisors(a, b, rest, oldRest - q * rest)
  {
    forall e
      ensures Divides(e, oldRest) && Divides(e, rest) <==> Divides(e, rest) && Divides(e, oldRest - q * rest)
    {
      if Divides(e, oldRest) && Divides(e, rest) {
        DividesDifference(e, oldRest, rest, q);
      }
      if Divides(e, rest) && Divides(e, oldRest - q * rest) {
        DividesDifference(e, oldRest - q * rest, rest, -q);
      }
    }
  }

  lemma DividesDifference(e: int, a: int, b: int, q: int)
    requires Divides(e, a) && Divides(e, b)
    ensures Divides(e, a - q * b)
  {
    var x :| a == Product(e, x);
    var y :| b == Product(e, y);
    DifferenceRight(e, x, q, y);
    assert a - q * b == Product(e, x - q * y);
  }

  lemma DifferenceRight(e: int, x: int, q: int, y: int)
    ensures Product(e, x - q * y) == Product(e, x) - q * Product(e, y)
  {
  }

  lemma EndsWithGcd(a: int, b: int, g: int)
    requires g > 0 && SameDivisors(a, b, g, 0)
    ensures GreatestCommonDivisor(g, a, b)
  {
    assert g == Product(g, 1) && 0 == Product(g, 0);
    forall d | Divides(d, a) && Divides(d, b)
      ensures Divides(d, g)
    {
    }
  }

  lemma ReduceMultiple(a: int, b: int, x: int, k: int)
    requires a > 0 && Multiple(a, b, x, k)
    ensures Multiple(a, b, x, TruncRem(k, a)) && Abs(TruncRem(k, a)) < a
  {
    TruncRemBound(k, a);
    var q := TruncDiv(k, a);
    var i :| x - Product(k, b) == Product(a, i);
    Difference(k, q, a, b);
    DifferenceRight(a, i, -1, Product(q, b));
    TimesIsProduct(a, Product(q, b));
    hide Product;
    assert x - Product(TruncRem(k, a), b) == Product(a, i + Product(q, b));
  }

  lemma TimesIsProduct(a: int, b: int)
    ensures a * b == Product(a, b)
  {
  }

  // For positive `a`, the greatest common divisor and an inverse of `b` up to
  // it, modulo `a`.  No 32-bit intermediate result overflows.
  method Euclid(a: int, b: int) returns (gcd: int, inverse: int)
    requires 0 < a <= INT_MAX && 0 <= b <= INT_MAX
    ensures GreatestCommonDivisor(gcd, a, b)
    ensures Multiple(a, b, gcd, inverse) && Abs(inverse) < a
  {
    var rest, oldRest, bezout, oldBezout := b, a, 1, 0;
    BezoutStart(a, b);
    hide Bezout, SameDivisors, Multiple;
    while rest != 0
      invariant Bezout(a, b, oldRest, rest, oldBezout, bezout) && SameDivisors(a, b, oldRest, rest)
      invariant 0 < oldRest <= INT_MAX && 0 <= rest <= INT_MAX
      decreases rest
    {
      BezoutStep(a, b, oldRest, rest, oldBezout, bezout);
      DivisorsStep(a, b, oldRest, rest, oldRest / rest);
      var quotient := oldRest / rest;
      assert FitsInt(quotient * rest) && FitsInt(quotient * bezout);
      var tmp := rest;
      rest := oldRest - quotient * rest;
      oldRest := tmp;
      tmp := bezout;
      bezout := oldBezout - quotient * bezout;
      oldBezout := tmp;
      CoefficientsFit(a, b, oldRest, rest, oldBezout, bezout);
      assert FitsInt(bezout) && FitsInt(oldBezout);
    }
    gcd := oldRest;
    inverse := TruncRem(oldBezout, a);
    EndsWithGcd(a, b, gcd);
    EndsWithInverse(a, b, gcd, oldBezout, bezout);
  }

  lemma CoefficientsFit(a: int, b: int, oldRest: int, rest: int, oldBezout: int, bezout: int)
    requires Bezout(a, b, oldRest, rest, oldBezout, bezout)
    ensures Abs(bezout) <= a && Abs(oldBezout) <= a
  {
  }

  lemma EndsWithInverse(a: int, b: int, gcd: int, oldBezout: int, bezout: int)
    requires a > 0 && Bezout(a, b, gcd, 0, oldBezout, bezout)
    ensures Multiple(a, b, gcd, TruncRem(oldBezout, a)) && Abs(TruncRem(oldBezout, a)) < a
  {
    ReduceMultiple(a, b, gcd, oldBezout);
  }
}
