/**
 * Describing a variable by the base variables it depends on
 * (`_identifyPolyVars`), and matching the variables of two states by equal
 * descriptions.
 */
module VariableMatches {
  import opened LinearExpressions
  import opened Polyhedra
  import opened SparsePolyhedra
  import opened WPolys
  import opened ConstraintSystems
  import opened BaseSelections
  import opened Normalization

  ghost predicate DistinctBase(indep: seq<nat>) {
    forall i, j :: 0 <= i < j < |indep| ==> indep[i] != indep[j]
  }

  ghost function SetOf(indep: seq<nat>): set<nat> { set g | g in indep }

  // The coefficients of the base variables, of the variable itself, and the
  // constant.
  function VectorOf(e: LinExpr, indep: seq<nat>, u: nat): (vec: seq<int>)
    ensures |vec| == |indep| + 2
    ensures forall i :: 0 <= i < |indep| ==> vec[i] == At(e, indep[i])
    ensures vec[|indep|] == At(e, u) && vec[|indep| + 1] == e.cst
  {
    seq(|indep| + 2, i requires 0 <= i < |indep| + 2 =>
      if i < |indep| then At(e, indep[i]) else if i == |indep| then At(e, u) else e.cst)
  }

  ghost function Values(indep: seq<nat>, v: Valuation): (xs: seq<real>)
    ensures |xs| == |indep|
  {
    seq(|indep|, i requires 0 <= i < |indep| => v(indep[i]))
  }

  lemma {:induction false} SumIsDot(e: LinExpr, indep: seq<nat>, u: nat, v: Valuation, n: nat)
    requires DistinctBase(indep) && n <= |indep|
    ensures SumOver(SetOf(indep[..n]), (k: nat) => At(e, k), v) == Dot(VectorOf(e, indep, u), Values(indep, v), n)
  {
    var f := (k: nat) => At(e, k);
    if n == 0 {
      assert SetOf(indep[..0]) == {};
    } else {
      SumIsDot(e, indep, u, v, n - 1);
      var g := indep[n - 1];
      assert indep[..n] == indep[..n - 1] + [g];
      assert g !in indep[..n - 1];
      assert SetOf(indep[..n]) - {g} == SetOf(indep[..n - 1]);
      SumOverRemove(SetOf(indep[..n]), g, f, v);
    }
  }

  // The equality says of the variables what the vector says of their values.
  lemma VectorDefines(e: LinExpr, indep: seq<nat>, u: nat, v: Valuation)
    requires DistinctBase(indep) && u !in indep && e.coefs.Keys <= SetOf(indep) + {u}
    ensures Eval(e, v) == 0.0 <==> Defines(VectorOf(e, indep, u), Values(indep, v), v(u))
  {
    var f := (k: nat) => At(e, k);
    var s := SetOf(indep) + {u};
    SumCovers(e.coefs, s, f, v);
    SumOverRemove(s, u, f, v);
    assert s - {u} == SetOf(indep);
    assert indep[..|indep|] == indep;
    SumIsDot(e, indep, u, v, |indep|);
  }

  // On `s`, the vector relates the variable to the base.
  ghost predicate Described(s: Sparse, indep: seq<nat>, u: nat, vec: seq<int>)
    requires s.Ok()
  {
    && |vec| == |indep| + 2 && Describing(vec)
    && (forall v: Valuation :: Has(s, v) ==> Defines(vec, Values(indep, v), v(u)))
  }

  lemma NormDescribes(s: Sparse, indep: seq<nat>, u: nat, vec: seq<int>)
    requires s.Ok() && Described(s, indep, u, vec)
    ensures Describing(vec) && PGcd(vec) != 0 && Described(s, indep, u, Norm(vec))
  {
    NormTimesGcd(vec);
    forall v: Valuation | Has(s, v)
      ensures Defines(Norm(vec), Values(indep, v), v(u))
    {
      NormDefines(vec, Values(indep, v), v(u));
    }
  }

  // Two variables with one description have the same value in any two elements
  // that agree on the base.
  lemma MatchedVariablesAgree(s: Sparse, t: Sparse, indep: seq<nat>, u: nat, w: nat, vec: seq<int>, v1: Valuation,
                              v2: Valuation)
    requires s.Ok() && t.Ok() && Described(s, indep, u, vec) && Described(t, indep, w, vec)
    requires Has(s, v1) && Has(t, v2) && forall g :: g in indep ==> v1(g) == v2(g)
    ensures v1(u) == v2(w)
  {
    assert Values(indep, v1) == Values(indep, v2);
    DescribingHasGcd(vec);
    MatchedValuesAgree(vec, vec, Values(indep, v1), v1(u), v2(w));
  }

  // ----- completeness of the matching -----

  // `p * a + q * b`, entry by entry.
  ghost function Combined(a: seq<int>, b: seq<int>, p: int, q: int): (c: seq<int>)
    requires |a| == |b|
    ensures |c| == |a|
    ensures forall i :: 0 <= i < |c| ==> c[i] == p * a[i] + q * b[i]
  {
    seq(|a|, i requires 0 <= i < |a| => p * a[i] + q * b[i])
  }

  lemma {:induction false} DotCombines(a: seq<int>, b: seq<int>, p: int, q: int, xs: seq<real>, n: nat)
    requires n <= |a| == |b| && n <= |xs|
    ensures Dot(Combined(a, b, p, q), xs, n) == Times(p, Dot(a, xs, n)) + Times(q, Dot(b, xs, n))
  {
    if n > 0 {
      DotCombines(a, b, p, q, xs, n - 1);
      var x := xs[n - 1];
      TimesCombines(a[n - 1], b[n - 1], p, q, x);
      TimesPlus(p, Dot(a, xs, n - 1), Times(a[n - 1], x));
      TimesPlus(q, Dot(b, xs, n - 1), Times(b[n - 1], x));
    }
  }

  lemma TimesCombines(a: int, b: int, p: int, q: int, x: real)
    ensures Times(p * a + q * b, x) == Times(p, Times(a, x)) + Times(q, Times(b, x))
  {
    TimesDistributes(p * a, q * b, x);
    TimesAssociates(a, p, x);
    TimesAssociates(b, q, x);
    assert a * p == p * a && b * q == q * b;
  }

  lemma DefinesCombines(a: seq<int>, b: seq<int>, p: int, q: int, xs: seq<real>, x: real)
    requires |a| == |b| == |xs| + 2 && Defines(a, xs, x) && Defines(b, xs, x)
    ensures Defines(Combined(a, b, p, q), xs, x)
  {
    var n := |xs|;
    var da, ta, ca := Dot(a, xs, n), Times(a[n], x), a[n + 1] as real;
    var db, tb, cb := Dot(b, xs, n), Times(b[n], x), b[n + 1] as real;
    DotCombines(a, b, p, q, xs, n);
    TimesCombines(a[n], b[n], p, q, x);
    TimesCombines(a[n + 1], b[n + 1], p, q, 1.0);
    TimesPlus(p, da, ta);
    TimesPlus(p, da + ta, ca);
    TimesPlus(q, db, tb);
    TimesPlus(q, db + tb, cb);
    ScaledZero(p);
    ScaledZero(q);
    hide Dot;
  }

  lemma ScaledZero(p: int)
    ensures Times(p, 0.0) == 0.0
  {
  }

  // The equality on the base that a vector without its variable stands for.
  ghost function OnBase(vec: seq<int>, indep: seq<nat>): LinExpr
    requires |vec| == |indep| + 2
  {
    LinExpr(map g | g in SetOf(indep) :: vec[IndexOf(indep, g)], vec[|indep| + 1])
  }

  ghost function IndexOf(indep: seq<nat>, g: nat): (i: nat)
    requires g in SetOf(indep)
    ensures i < |indep| && indep[i] == g
  {
    var i :| 0 <= i < |indep| && indep[i] == g;
    i
  }

  lemma OnBaseVector(vec: seq<int>, indep: seq<nat>, u: nat)
    requires |vec| == |indep| + 2 && DistinctBase(indep) && u !in indep && vec[|indep|] == 0
    ensures VectorOf(OnBase(vec, indep), indep, u) == vec
    ensures OnBase(vec, indep).coefs.Keys == SetOf(indep)
  {
    var e := OnBase(vec, indep);
    forall i | 0 <= i < |indep|
      ensures At(e, indep[i]) == vec[i]
    {
      assert indep[i] in SetOf(indep) && IndexOf(indep, indep[i]) == i;
    }
    assert u !in SetOf(indep);
  }

  // On an independent base, a relation that does not involve the variable is
  // zero throughout.
  lemma NoRelationOnBase(s: Sparse, indep: seq<nat>, u: nat, vec: seq<int>)
    requires s.Ok() && NonEmpty(s) && Independent(s, SetOf(indep)) && DistinctBase(indep) && u !in indep
    requires |vec| == |indep| + 2 && vec[|indep|] == 0
    requires forall v: Valuation :: Has(s, v) ==> Defines(vec, Values(indep, v), v(u))
    ensures forall i :: 0 <= i < |vec| ==> vec[i] == 0
  {
    var e := OnBase(vec, indep);
    OnBaseVector(vec, indep, u);
    forall v: Valuation | Has(s, v)
      ensures Eval(e, v) == 0.0
    {
      VectorDefines(e, indep, u, v);
    }
    assert Vanishes(s, e);
    forall i | 0 <= i < |indep|
      ensures vec[i] == 0
    {
      assert indep[i] in e.coefs && e.coefs[indep[i]] == VectorOf(e, indep, u)[i];
    }
    var v: Valuation :| Has(s, v);
    DotOfZeros(vec, Values(indep, v), |indep|);
    assert Times(0, v(u)) == 0.0;
  }

  lemma {:induction false} DotOfZeros(vec: seq<int>, xs: seq<real>, n: nat)
    requires n <= |vec| && n <= |xs| && forall i :: 0 <= i < n ==> vec[i] == 0
    ensures Dot(vec, xs, n) == 0.0
  {
    if n > 0 {
      DotOfZeros(vec, xs, n - 1);
    }
  }

  // So a variable has one description on it, up to a factor.
  lemma DescriptionUnique(s: Sparse, indep: seq<nat>, u: nat, a: seq<int>, b: seq<int>)
    requires s.Ok() && NonEmpty(s) && Independent(s, SetOf(indep)) && DistinctBase(indep) && u !in indep
    requires Described(s, indep, u, a) && Described(s, indep, u, b)
    ensures PGcd(a) != 0 && PGcd(b) != 0 && Norm(a) == Norm(b)
  {
    hide Has, Norm, NonEmpty;
    var n := |indep|;
    var p, q := b[n], -a[n];
    var c := Combined(a, b, p, q);
    Cancels(a[n], b[n]);
    forall v: Valuation | Has(s, v)
      ensures Defines(c, Values(indep, v), v(u))
    {
      DefinesCombines(a, b, p, q, Values(indep, v), v(u));
    }
    NoRelationOnBase(s, indep, u, c);
    forall i | 0 <= i < |a|
      ensures Scaled(a, p)[i] == Scaled(b, -q)[i]
    {
      assert c[i] == p * a[i] + q * b[i];
      Opposites(q, b[i]);
    }
    assert Scaled(a, p) == Scaled(b, -q);
    assert Proportional(a, b);
    NormIsCanonical(a, b);
  }

  lemma Cancels(x: int, y: int)
    ensures y * x + -x * y == 0
  {
  }

  lemma Opposites(q: int, b: int)
    ensures -q * b == -(q * b)
  {
  }

  lemma NormIsNormal(a: seq<int>)
    requires Describing(a)
    ensures PGcd(a) != 0 && Describing(Norm(a)) && PGcd(Norm(a)) != 0 && Norm(Norm(a)) == Norm(a)
  {
    NormTimesGcd(a);
    var k := PGcd(a);
    forall i | 0 <= i < |a|
      ensures 1 * a[i] == k * Norm(a)[i]
    {
    }
    assert Scaled(a, 1) == Scaled(Norm(a), k);
    assert Proportional(a, Norm(a));
    NormIsCanonical(a, Norm(a));
  }

  // Two variables that are the same affine function of a base, independent in
  // both states, have the same description in normal form: none is missed.
  lemma MatchingIsComplete(s: Sparse, t: Sparse, indep: seq<nat>, u: nat, w: nat, common: seq<int>, a: seq<int>,
                           b: seq<int>)
    requires s.Ok() && NonEmpty(s) && Independent(s, SetOf(indep)) && t.Ok() && NonEmpty(t)
              && Independent(t, SetOf(indep))
    requires DistinctBase(indep) && u !in indep && w !in indep
    requires Described(s, indep, u, common) && Described(t, indep, w, common)
    requires Described(s, indep, u, a) && Described(t, indep, w, b)
    requires PGcd(a) != 0 && a == Norm(a) && PGcd(b) != 0 && b == Norm(b)
    ensures a == b
  {
    DescriptionUnique(s, indep, u, a, common);
    DescriptionUnique(t, indep, w, b, common);
  }

  // ----- the loops -----

  method FindMention(cs: seq<Cons>, u: nat) returns (i: nat)
    ensures i <= |cs| && (i < |cs| ==> cs[i].equality && u in cs[i].expr.coefs)
    ensures forall k :: 0 <= k < i && cs[k].equality ==> u !in cs[k].expr.coefs
  {
    i := 0;
    while i < |cs| && !(cs[i].equality && u in cs[i].expr.coefs)
      invariant 0 <= i <= |cs|
      invariant forall k :: 0 <= k < i && cs[k].equality ==> u !in cs[k].expr.coefs
    {
      i := i + 1;
    }
  }

  method Position(indep: seq<nat>, g: nat) returns (i: nat)
    requires g in indep
    ensures i < |indep| && indep[i] == g
  {
    i := 0;
    while indep[i] != g
      invariant 0 <= i < |indep| && g in indep[i..]
      decreases |indep| - i
    {
      i := i + 1;
    }
  }

  method FillVector(e: LinExpr, indep: seq<nat>, u: nat) returns (vect: array<int>)
    requires DistinctBase(indep) && u !in indep && e.coefs.Keys <= SetOf(indep) + {u}
    ensures fresh(vect) && vect[..] == VectorOf(e, indep, u)
  {
    vect := new int[|indep| + 2](_ => 0);
    var todo := e.coefs.Keys;
    while todo != {}
      invariant todo <= e.coefs.Keys && fresh(vect) && vect.Length == |indep| + 2
      invariant forall i :: 0 <= i < |indep| ==> vect[i] == if indep[i] in todo then 0 else At(e, indep[i])
      invariant vect[|indep|] == if u in todo then 0 else At(e, u)
      decreases todo
    {
      var g :| g in todo;
      if g != u {
        assert g in SetOf(indep);
        var i := Position(indep, g);
        vect[i] := e.coefs[g];
      } else {
        vect[|indep|] := e.coefs[g];
      }
      todo := todo - {g};
    }
    vect[|indep| + 1] := e.cst;
    assert vect[..] == VectorOf(e, indep, u);
  }

  // The normal form of an equality that relates a variable to the base, if
  // the projection onto them has one.
  method IdentifyPolyVar(poly: WPoly, indep: seq<nat>, u: nat) returns (found: bool, vect: array<int>)
    requires poly.Valid() && DistinctBase(indep) && SetOf(indep) <= poly.adapter.Keys && u in poly.adapter
              && u !in indep
    ensures fresh(vect) && (found ==> Described(poly.Value(), indep, u, vect[..]))
    ensures found ==> PGcd(vect[..]) != 0 && Norm(vect[..]) == vect[..]
    ensures found ==> exists e: LinExpr ::
              && e.coefs.Keys <= SetOf(indep) + {u} && Vanishes(poly.Value(), e)
              && Describing(VectorOf(e, indep, u)) && PGcd(VectorOf(e, indep, u)) != 0
              && vect[..] == Norm(VectorOf(e, indep, u))
    ensures Minimizes(poly.lib) && NonEmpty(poly.Value()) && Independent(poly.Value(), SetOf(indep)) ==>
              (found <==> DependsOn(poly.Value(), u, SetOf(indep)))
  {
    hide Minimizes, NonEmpty, Independent, DependsOn, Has, Projects, Translation, Bijective, Described;
    ghost var s := poly.Value();
    var keep := set g | g in indep;
    var temp := ProjectTo(poly, keep + {u});
    var cs := Constraints(temp);
    var i := FindMention(cs, u);
    found := i < |cs|;
    NotFoundMeans(poly.lib, s, temp.Value(), cs, SetOf(indep), u, i);
    if found {
      FoundMeans(s, temp.Value(), cs, indep, u, i);
      vect := FillVector(cs[i].expr, indep, u);
      ghost var vec := vect[..];
      NormDescribes(s, indep, u, vec);
      NormIsNormal(vec);
      Normalize(vect);
    } else {
      vect := new int[0];
    }
  }

  lemma FoundMeans(s: Sparse, t: Sparse, cs: seq<Cons>, indep: seq<nat>, u: nat, i: nat)
    requires s.Ok() && t.Ok() && t.adapter.Keys == SetOf(indep) + {u} && DistinctBase(indep) && u !in indep
    requires forall w: Valuation :: Has(t, w) <==> Projects(s, Identity(t.adapter.Keys), w)
    requires Presents(cs, t) && i < |cs| && cs[i].equality && u in cs[i].expr.coefs
    ensures
      var e := cs[i].expr;
      && e.coefs.Keys <= SetOf(indep) + {u} && Vanishes(s, e)
      && Described(s, indep, u, VectorOf(e, indep, u))
  {
    var e := cs[i].expr;
    assert cs[i] in cs;
    assert VectorOf(e, indep, u)[|indep|] == e.coefs[u] != 0;
    forall v: Valuation | Has(t, v)
      ensures Eval(e, v) == 0.0
    {
      assert Sat(cs[i], v);
    }
    VanishesOnProjection(s, t, e);
    forall v: Valuation | Has(s, v)
      ensures Defines(VectorOf(e, indep, u), Values(indep, v), v(u))
    {
      VectorDefines(e, indep, u, v);
    }
  }

  // With minimized constraints and an independent base, the search decides
  // whether the variable depends on the base.
  lemma NotFoundMeans(lib: Ppl, s: Sparse, t: Sparse, cs: seq<Cons>, base: set<nat>, u: nat, i: nat)
    requires lib.Lawful() && s.Ok() && t.Ok() && t.adapter.Keys == base + {u}
    requires forall w: Valuation :: Has(t, w) <==> Projects(s, Identity(t.adapter.Keys), w)
    requires Presents(cs, t) && |cs| == |lib.constraints(t.poly)|
    requires forall k :: 0 <= k < |cs| ==> Translation(cs[k], lib.constraints(t.poly)[k], t.adapter, t.poly.dim)
    requires i <= |cs| && (i < |cs| ==> cs[i].equality && u in cs[i].expr.coefs)
    requires i == |cs| ==> forall k :: 0 <= k < |cs| && cs[k].equality ==> u !in cs[k].expr.coefs
    ensures Minimizes(lib) && NonEmpty(s) && Independent(s, base) ==> (i < |cs| <==> DependsOn(s, u, base))
  {
    if Minimizes(lib) && NonEmpty(s) && Independent(s, base) {
      if i < |cs| {
        EqualityFound(lib, s, t, cs, i, base, u);
      } else {
        NoEquality(lib, s, t, cs, base, u);
        EqualitiesKept(cs, lib.constraints(t.poly), t.adapter, t.poly.dim);
        NoEqualityFound(lib, s, t);
        IndependentOf(s, base, u);
      }
    }
  }

  // An equality that does not mention the variable would relate the base.
  lemma NoEquality(lib: Ppl, s: Sparse, t: Sparse, cs: seq<Cons>, base: set<nat>, u: nat)
    requires lib.Lawful() && Minimizes(lib) && s.Ok() && t.Ok() && NonEmpty(s) && t.adapter.Keys == base + {u}
    requires forall w: Valuation :: Has(t, w) <==> Projects(s, Identity(t.adapter.Keys), w)
    requires Presents(cs, t) && |cs| == |lib.constraints(t.poly)|
    requires forall k :: 0 <= k < |cs| ==> Translation(cs[k], lib.constraints(t.poly)[k], t.adapter, t.poly.dim)
    requires forall k :: 0 <= k < |cs| && cs[k].equality ==> u !in cs[k].expr.coefs
    requires Independent(s, base)
    ensures !HasEquality(cs)
  {
    if HasEquality(cs) {
      var k :| 0 <= k < |cs| && cs[k].equality;
      RelatesBase(lib, s, t, cs, k, base, u);
    }
  }

  lemma RelatesBase(lib: Ppl, s: Sparse, t: Sparse, cs: seq<Cons>, k: nat, base: set<nat>, u: nat)
    requires lib.Lawful() && Minimizes(lib) && s.Ok() && t.Ok() && NonEmpty(s) && t.adapter.Keys == base + {u}
    requires forall w: Valuation :: Has(t, w) <==> Projects(s, Identity(t.adapter.Keys), w)
    requires Presents(cs, t) && k < |cs| == |lib.constraints(t.poly)| && cs[k].equality && u !in cs[k].expr.coefs
    requires Translation(cs[k], lib.constraints(t.poly)[k], t.adapter, t.poly.dim)
    ensures !Independent(s, base)
  {
    var e := cs[k].expr;
    assert cs[k] in cs;
    ProjectionNonEmpty(s, t);
    assert lib.constraints(t.poly)[k] in lib.constraints(t.poly);
    StillNonTrivial(cs[k], lib.constraints(t.poly)[k], t.adapter, t.poly.dim);
    forall v: Valuation | Has(t, v)
      ensures Eval(e, v) == 0.0
    {
      assert Sat(cs[k], v);
    }
    VanishesOnProjection(s, t, e);
  }

  lemma IndependentOf(s: Sparse, base: set<nat>, u: nat)
    requires s.Ok() && Independent(s, base + {u})
    ensures !DependsOn(s, u, base)
  {
  }
}
