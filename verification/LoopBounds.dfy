/**
 * Loop bounds: what `getLoopBound` reads off the loop counter's maximum, and
 * that it bounds the number of back edges of every run.
 */
module LoopBounds {
  import opened LinearExpressions
  import opened Polyhedra
  import opened SparsePolyhedra
  import opened Mappings
  import opened AbstractStates
  import opened Instructions
  import opened Transfers
  import opened Domains
  import opened Words

  const UNREACHABLE := -1
  const UNBOUNDED := -2

  // The machine word a big integer is cut to: its magnitude, truncated.
  function GetUi(z: int): nat {
    (if z < 0 then -z else z) % TWO64
  }

  // The bound read off a maximum; an absent one has denominator zero.
  function BoundOf(hi: Option<Fraction>): int {
    match hi
    case None => UNBOUNDED
    case Some(f) => if GetUi(f.den) == 0 then UNBOUNDED else Signed(GetUi(f.num) / GetUi(f.den))
  }

  function UpperBound(lib: Ppl, s: Sparse, g: nat): Option<Fraction> {
    if g in s.adapter then lib.maximize(s.poly, Var(s.adapter[g])) else None
  }

  // The maximum of a variable: no element exceeds it, and some element has it.
  ghost predicate Maximum(s: Sparse, g: nat, f: Fraction)
    requires s.Ok()
  {
    && f.den > 0
    && (forall v: Valuation :: Has(s, v) ==> Times(f.den, v(g)) <= f.num as real)
    && (exists v: Valuation :: Has(s, v) && Times(f.den, v(g)) == f.num as real)
  }

  // The library finds a maximum where there is one.
  ghost predicate FindsMaxima(lib: Ppl) {
    forall p: Poly, e: LinExpr, f: Fraction {:trigger Bounds(p, e, f, true)} ::
      p.Wf() && Bounds(p, e, f, true) ==> lib.maximize(p, e).Some?
  }

  // What is read off a state is the maximum of the variable, and nothing only
  // where it has none.
  lemma UpperBoundExact(lib: Ppl, s: Sparse, g: nat)
    requires lib.Lawful() && s.Ok()
    ensures UpperBound(lib, s, g).Some? ==> Maximum(s, g, UpperBound(lib, s, g).value)
    ensures FindsMaxima(lib) && UpperBound(lib, s, g).None? ==> forall f: Fraction :: !Maximum(s, g, f)
  {
    if UpperBound(lib, s, g).Some? {
      MaximumOfBounds(s, g, UpperBound(lib, s, g).value);
    } else if FindsMaxima(lib) {
      forall f: Fraction
        ensures !Maximum(s, g, f)
      {
        if Maximum(s, g, f) {
          MaximumTracked(s, g, f);
          BoundsOfMaximum(s, g, f);
        }
      }
    }
  }

  lemma MaximumOfBounds(s: Sparse, g: nat, f: Fraction)
    requires s.Ok() && g in s.adapter && Bounds(s.poly, Var(s.adapter[g]), f, true)
    ensures Maximum(s, g, f)
  {
    var i := s.adapter[g];
    forall v: Valuation | Has(s, v)
      ensures Times(f.den, v(g)) <= f.num as real
    {
      EvalVar(i, Coord(PointOf(s.adapter, s.poly.dim, v)));
    }
    var x :| x in s.poly.pts && Times(f.den, Eval(Var(i), Coord(x))) == f.num as real;
    EvalVar(i, Coord(x));
    ValuationOfPoint(s.adapter, s.poly.dim, x);
    var v := ValuationOf(s.adapter, x);
    assert Has(s, v) && Times(f.den, v(g)) == f.num as real;
  }

  lemma BoundsOfMaximum(s: Sparse, g: nat, f: Fraction)
    requires s.Ok() && g in s.adapter && Maximum(s, g, f)
    ensures Bounds(s.poly, Var(s.adapter[g]), f, true)
  {
    var i := s.adapter[g];
    forall x | x in s.poly.pts
      ensures Times(f.den, Eval(Var(i), Coord(x))) <= f.num as real
    {
      EvalVar(i, Coord(x));
      ValuationOfPoint(s.adapter, s.poly.dim, x);
      assert Has(s, ValuationOf(s.adapter, x));
    }
    var v: Valuation :| Has(s, v) && Times(f.den, v(g)) == f.num as real;
    var x := PointOf(s.adapter, s.poly.dim, v);
    EvalVar(i, Coord(x));
    assert x in s.poly.pts && Times(f.den, Eval(Var(i), Coord(x))) == f.num as real;
  }

  // A variable that is not tracked has no maximum.
  lemma MaximumTracked(s: Sparse, g: nat, f: Fraction)
    requires s.Ok() && Maximum(s, g, f)
    ensures g in s.adapter
  {
    var v: Valuation :| Has(s, v) && Times(f.den, v(g)) == f.num as real;
    if g !in s.adapter {
      var w := Update(v, g, v(g) + 1.0);
      HasAgree(s, v, w);
      TimesPlus(f.den, v(g), 1.0);
    }
  }

  // The maximum fits the words it is cut to.
  predicate Fits(f: Fraction) {
    0 <= f.num < TWO64 && 0 < f.den < TWO64 && f.num / f.den < TWO63
  }

  // Then the bound is the maximum rounded down: some element is at least the
  // bound, and less than one above it.
  lemma BoundReached(s: Sparse, g: nat, f: Fraction)
    requires s.Ok() && Maximum(s, g, f) && Fits(f)
    ensures
      var bound := BoundOf(Some(f));
      exists v: Valuation :: Has(s, v) && bound as real <= v(g) < (bound + 1) as real
  {
    var v: Valuation :| Has(s, v) && Times(f.den, v(g)) == f.num as real;
    var q := f.num / f.den;
    FitsBound(f);
    Rounded(f, v(g));
    assert Has(s, v) && q as real <= v(g) < (q + 1) as real;
  }

  lemma FitsBound(f: Fraction)
    requires Fits(f)
    ensures BoundOf(Some(f)) == f.num / f.den
  {
    hide BoundOf, Signed;
    var q := f.num / f.den;
    SmallWord(f.num);
    SmallWord(f.den);
    QuotientSmaller(f.num, f.den);
    BoundIsQuotient(f);
    SignedCases(q);
  }

  lemma SmallWord(n: nat)
    requires n < TWO64
    ensures n % TWO64 == n
  {
  }

  lemma Rounded(f: Fraction, x: real)
    requires f.num >= 0 && f.den > 0 && Times(f.den, x) == f.num as real
    ensures (f.num / f.den) as real <= x < (f.num / f.den + 1) as real
  {
    var q := f.num / f.den;
    QuotientBounds(f.num, f.den, q);
    TimesCast(q, f.den);
    TimesCast(q + 1, f.den);
    TimesOrder(f.den, q as real, x);
    TimesOrder(f.den, x, (q + 1) as real);
    TimesOrder(f.den, (q + 1) as real, x);
    hide Times;
  }

  lemma TimesOrder(d: int, x: real, y: real)
    requires d > 0
    ensures Times(d, x) <= Times(d, y) <==> x <= y
  {
    assert Times(d, y) - Times(d, x) == d as real * (y - x);
  }

  // A bound that a loop exit imposes without excluding the count `c`.
  predicate Admits(bound: int, c: int) {
    bound < 0 || c <= bound
  }

  lemma DivisionCovers(n: nat, d: nat, c: nat)
    requires d > 0 && d * c <= n
    ensures c <= n / d
  {
    QuotientBounds(n, d, n / d);
    if c > n / d {
      MulOrder(n / d + 1, c, d);
    }
  }

  lemma QuotientSmaller(n: nat, d: nat)
    requires d > 0
    ensures 0 <= n / d <= n
  {
    QuotientBounds(n, d, n / d);
    MulOrder(1, d, n / d);
  }

  // Cutting the numerator to a word that it does not fit makes the quotient
  // smaller.
  lemma CutQuotient(n: nat, d: nat)
    requires 0 < d < TWO64
    ensures 0 <= (n % TWO64) / d < TWO64
    ensures n < TWO64 ==> (n % TWO64) / d == n / d
    ensures n >= TWO64 ==> (n % TWO64) / d < n / d
  {
    var m := n % TWO64;
    QuotientSmaller(m, d);
    if n >= TWO64 {
      LaterQuotient(m, n, d);
    }
  }

  lemma LaterQuotient(m: nat, n: nat, d: nat)
    requires d > 0 && m + d <= n
    ensures m / d < n / d
  {
    QuotientBounds(m, d, m / d);
    assert d * (m / d + 1) == (m / d) * d + d;
    DivisionCovers(n, d, m / d + 1);
  }

  // The quotient of the two words.
  function WordQuotient(f: Fraction): nat
    requires f.num >= 0 && f.den > 0 && f.den % TWO64 != 0
  {
    (f.num % TWO64) / (f.den % TWO64)
  }

  // When the bound read off a maximum is not below the maximum: the numerator
  // fits a word and the quotient a signed one, or the quotient happens to be
  // the word that stands for "unbounded".  When the denominator itself does not
  // fit a word, the quotient of the words bears no relation to the true one,
  // and the condition can only compare the two.
  predicate BoundKept(f: Fraction)
    requires f.den > 0
  {
    if f.num < 0 || f.den % TWO64 == 0 then true
    else if f.den < TWO64 then (f.num < TWO64 && f.num / f.den < TWO63) || WordQuotient(f) == TWO64 - 2
    else (f.num / f.den <= WordQuotient(f) < TWO63) || WordQuotient(f) == TWO64 - 2
  }

  // When a loop exit under that bound, which it receives as a C `int`, does
  // not exclude the maximum: the quotient fits the `int`, or is cut to a
  // negative one.
  predicate ExitKept(f: Fraction)
    requires f.den > 0
  {
    if f.num < 0 || f.den % TWO64 == 0 then true
    else if f.den < TWO64 then (f.num < TWO64 && f.num / f.den < TWO31) || WordQuotient(f) % TWO32 >= TWO31
    else f.num / f.den <= WordQuotient(f) % TWO32 || WordQuotient(f) % TWO32 >= TWO31
  }

  lemma BoundIsQuotient(f: Fraction)
    requires f.den > 0 && f.num >= 0
    ensures f.den % TWO64 == 0 ==> BoundOf(Some(f)) == UNBOUNDED
    ensures f.den % TWO64 != 0 ==> BoundOf(Some(f)) == Signed(WordQuotient(f)) && WordQuotient(f) < TWO64
  {
    if f.den % TWO64 != 0 {
      QuotientSmaller(f.num % TWO64, f.den % TWO64);
    }
  }

  // `getLoopBound` is at least the maximum it was read off, or unbounded, if
  // and only if the words keep it.
  lemma BoundExact(f: Fraction)
    requires f.den > 0 && f.num >= 0
    ensures BoundOf(Some(f)) == UNBOUNDED || f.num / f.den <= BoundOf(Some(f)) <==> BoundKept(f)
  {
    hide BoundOf, Signed, WordQuotient;
    BoundIsQuotient(f);
    QuotientNonNegative(f.num, f.den);
    if f.den % TWO64 != 0 {
      SignedCases(WordQuotient(f));
      WordQuotientMeans(f);
    }
  }

  lemma SignedCases(u: nat)
    requires u < TWO64
    ensures Signed(u) == if u < TWO63 then u else u - TWO64
  {
  }

  lemma WordQuotientMeans(f: Fraction)
    requires f.den > 0 && f.num >= 0 && f.den % TWO64 != 0
    ensures f.den < TWO64 && f.num < TWO64 ==> WordQuotient(f) == f.num / f.den
    ensures f.den < TWO64 && f.num >= TWO64 ==> WordQuotient(f) < f.num / f.den
  {
    if f.den < TWO64 {
      CutQuotient(f.num, f.den);
    }
  }

  // The loop exit, given the bound as a C `int`, admits the maximum if and
  // only if the narrower word keeps it.
  lemma ExitExact(f: Fraction)
    requires f.den > 0 && f.num >= 0
    ensures Admits(CutInt(BoundOf(Some(f))), f.num / f.den) <==> ExitKept(f)
  {
    hide BoundOf, Signed, WordQuotient;
    BoundIsQuotient(f);
    QuotientNonNegative(f.num, f.den);
    if f.den % TWO64 != 0 {
      CutOfSigned(WordQuotient(f));
      WordQuotientMeans(f);
    }
  }

  lemma QuotientNonNegative(n: nat, d: nat)
    requires d > 0
    ensures n / d >= 0
  {
    QuotientSmaller(n, d);
  }

  // For a whole maximum the two conditions in plain numbers.
  lemma WholeBoundExact(n: nat)
    ensures BoundOf(Some(Fraction(n, 1))) == UNBOUNDED || n <= BoundOf(Some(Fraction(n, 1)))
       <==> n < TWO63 || n % TWO64 == TWO64 - 2
    ensures Admits(CutInt(BoundOf(Some(Fraction(n, 1)))), n) <==> n < TWO31 || n % TWO32 >= TWO31
  {
    BoundExact(Fraction(n, 1));
    ExitExact(Fraction(n, 1));
    WholeQuotient(n);
    hide BoundOf, WordQuotient, CutInt;
  }

  lemma WholeQuotient(n: nat)
    ensures WordQuotient(Fraction(n, 1)) == n % TWO64 && n / 1 == n && n % TWO64 % TWO32 == n % TWO32
  {
    assert n == n % TWO64 + TWO32 * (TWO32 * (n / TWO64));
  }

  // The sign of a negative maximum is lost: the bound is its magnitude, though
  // no count of back edges is covered.
  lemma NegativeMaximum(f: Fraction)
    requires f.den > 0 && f.num < 0
    ensures BoundOf(Some(f)) == BoundOf(Some(Fraction(-f.num, f.den)))
    ensures BoundOf(Some(Fraction(-1, 1))) == 1
  {
    FitsBound(Fraction(1, 1));
    hide Signed;
  }

  // A counter that can reach 2^32 is bounded correctly, but the exit receives
  // zero and loses every state that took a back edge; one that can reach 2^64
  // is itself reported as bounded by zero.
  lemma TruncationLosesRuns()
    ensures BoundOf(Some(Fraction(TWO32, 1))) == TWO32 && CutInt(TWO32) == 0
    ensures forall c :: 1 <= c ==> !Admits(CutInt(BoundOf(Some(Fraction(TWO32, 1)))), c)
    ensures BoundOf(Some(Fraction(TWO64, 1))) == 0 && !Admits(0, TWO64)
  {
    BoundIsQuotient(Fraction(TWO32, 1));
    BoundIsQuotient(Fraction(TWO64, 1));
  }

  // Every covered count is below the maximum.
  lemma BoundCovers(f: Fraction, c: nat)
    requires f.den > 0 && f.den * c <= f.num
    ensures BoundKept(f) ==> BoundOf(Some(f)) == UNBOUNDED || c <= BoundOf(Some(f))
    ensures ExitKept(f) ==> Admits(CutInt(BoundOf(Some(f))), c)
  {
    Product(f.den, c);
    BoundExact(f);
    ExitExact(f);
    DivisionCovers(f.num, f.den, c);
    hide BoundOf, BoundKept, ExitKept, CutInt;
  }

  lemma Product(d: nat, c: nat)
    requires d > 0
    ensures d * c >= 0 && (c > 0 ==> d * c >= d)
  {
    if c > 0 {
      MulOrder(1, c, d);
    }
  }

  lemma CounterBounded(lib: Ppl, s: AState, id: Ident, env: Env)
    requires lib.Lawful() && s.poly.Ok() && id in s.idmap && Gamma(s, env)
    ensures
      var hi := UpperBound(lib, s.poly, s.idmap[id].g);
      hi.Some? ==> hi.value.den > 0 && hi.value.den * env(id) <= hi.value.num
  {
    var g := s.idmap[id].g;
    var hi := UpperBound(lib, s.poly, g);
    if hi.Some? {
      var v: Valuation :| Has(s.poly, v) && Represents(s.idmap, v, env);
      BoundMeans(lib, s.poly, g, hi.value, true, v);
      TimesCast(env(id), hi.value.den);
    }
  }

  // The two conditions on an optional maximum: an absent one is unbounded.
  predicate Kept(hi: Option<Fraction>) {
    hi.Some? && hi.value.den > 0 ==> BoundKept(hi.value)
  }

  predicate KeptAtExit(hi: Option<Fraction>) {
    hi.Some? && hi.value.den > 0 ==> ExitKept(hi.value)
  }

  lemma CountCovered(lib: Ppl, s: AState, id: Ident, env: Env)
    requires lib.Lawful() && s.poly.Ok() && id in s.idmap && Gamma(s, env) && env(id) >= 0
    ensures
      var hi := UpperBound(lib, s.poly, s.idmap[id].g);
      && (Kept(hi) ==> BoundOf(hi) == UNBOUNDED || env(id) <= BoundOf(hi))
      && (KeptAtExit(hi) ==> Admits(CutInt(BoundOf(hi)), env(id)))
  {
    var hi := UpperBound(lib, s.poly, s.idmap[id].g);
    CounterBounded(lib, s, id, env);
    if hi.Some? {
      BoundCovers(hi.value, env(id));
    }
  }

  // When some covered run attains the maximum, rounded down, the bound covers
  // all of them if and only if the words keep it; and likewise the exit.
  lemma CountExact(lib: Ppl, s: AState, id: Ident, env: Env)
    requires lib.Lawful() && s.poly.Ok() && id in s.idmap && Gamma(s, env) && env(id) >= 0
    requires UpperBound(lib, s.poly, s.idmap[id].g).Some? && UpperBound(lib, s.poly, s.idmap[id].g).value.den > 0
    requires
      var f := UpperBound(lib, s.poly, s.idmap[id].g).value;
      f.num >= 0 && env(id) == f.num / f.den
    ensures
      var hi := UpperBound(lib, s.poly, s.idmap[id].g);
      && (Kept(hi) <==> forall e :: Gamma(s, e) && e(id) >= 0 ==> BoundOf(hi) == UNBOUNDED || e(id) <= BoundOf(hi))
      && (KeptAtExit(hi) <==> forall e :: Gamma(s, e) && e(id) >= 0 ==> Admits(CutInt(BoundOf(hi)), e(id)))
  {
    var hi := UpperBound(lib, s.poly, s.idmap[id].g);
    BoundExact(hi.value);
    ExitExact(hi.value);
    forall e | Gamma(s, e) && e(id) >= 0
      ensures Kept(hi) ==> BoundOf(hi) == UNBOUNDED || e(id) <= BoundOf(hi)
      ensures KeptAtExit(hi) ==> Admits(CutInt(BoundOf(hi)), e(id))
    {
      CountCovered(lib, s, id, e);
    }
  }

  method GetLoopBound(d: PPLDomain, loop: int) returns (bound: int)
    requires d.Valid()
    requires !Empty(d.State()) ==> Counter(loop) in d.idmap
    ensures Empty(d.State()) ==> bound == UNREACHABLE
    ensures !Empty(d.State()) ==> bound == BoundOf(UpperBound(d.lib, d.poly.Value(), d.idmap[Counter(loop)].g))
    ensures !Empty(d.State()) && Kept(UpperBound(d.lib, d.poly.Value(), d.idmap[Counter(loop)].g)) ==>
              forall env :: Gamma(d.State(), env) && env(Counter(loop)) >= 0 ==>
                bound == UNBOUNDED || env(Counter(loop)) <= bound
    ensures !Empty(d.State()) ==>
              var g := d.idmap[Counter(loop)].g;
              match UpperBound(d.lib, d.poly.Value(), g)
              case None => bound == UNBOUNDED && (FindsMaxima(d.lib) ==> forall f :: !Maximum(d.poly.Value(), g, f))
              case Some(f) =>
                && Maximum(d.poly.Value(), g, f)
                && (Fits(f) ==> exists v: Valuation ::
                      Has(d.poly.Value(), v) && bound as real <= v(g) < (bound + 1) as real)
  {
    var bottom := d.IsBottom();
    if bottom {
      return UNREACHABLE;
    }
    var hi := UpperBound(d.lib, Sparse(d.poly.adapter, d.poly.poly), d.idmap[Counter(loop)].g);
    bound := BoundOf(hi);
    UpperBoundExact(d.lib, d.poly.Value(), d.idmap[Counter(loop)].g);
    if hi.Some? && Fits(hi.value) {
      BoundReached(d.poly.Value(), d.idmap[Counter(loop)].g, hi.value);
    }
    forall env | Gamma(d.State(), env) && env(Counter(loop)) >= 0
      ensures Kept(hi) ==> bound == UNBOUNDED || env(Counter(loop)) <= bound
    {
      CountCovered(d.lib, d.State(), Counter(loop), env);
    }
  }
}
