/**
 * The constraints of a sparse polyhedron, translated back from dimensions to
 * variables (`invMap`, `back_translate`, `ConsIterator`).
 */
module ConstraintSystems {
  import opened LinearExpressions
  import opened Polyhedra
  import opened SparsePolyhedra
  import opened WPolys

  // The terms of a constraint on dimensions, in terms of variables.
  ghost predicate Terms(m: map<nat, nat>, e: LinExpr, n: nat, coefs: map<nat, int>) {
    && (forall g :: g in coefs <==> g in m && m[g] < n && At(e, m[g]) != 0)
    && (forall g :: g in coefs ==> coefs[g] == At(e, m[g]))
  }

  lemma OneTerm(a: LinExpr, g: nat, k: int)
    requires g !in a.coefs && k != 0 && forall h :: h in a.coefs ==> a.coefs[h] != 0
    ensures Plus(a, Scale(Var(g), k)) == LinExpr(a.coefs[g := k], a.cst)
  {
    assert Scale(Var(g), k).coefs == map[g := k];
  }

  lemma ComparedToZero(a: LinExpr, eq: bool)
    requires forall h :: h in a.coefs ==> a.coefs[h] != 0
    ensures (if eq then EqCons(a, Constant(0)) else GeCons(a, Constant(0))) == Cons(a, eq)
  {
    assert Scale(Constant(0), -1).coefs == map[];
  }

  // Terms with a zero coefficient do not matter.
  lemma {:induction false} SumSupport(c: map<nat, int>, d: map<nat, int>, v: Valuation)
    requires forall k :: k in d ==> k in c && c[k] == d[k]
    requires forall k :: k in c && k !in d ==> c[k] == 0
    ensures SumTerms(c, v) == SumTerms(d, v)
    decreases |c|
  {
    if c == map[] {
      assert d == map[];
    } else {
      var k :| k in c;
      SumRemove(c, k, v);
      if k in d {
        SumRemove(d, k, v);
        SumSupport(c - {k}, d - {k}, v);
      } else {
        SumSupport(c - {k}, d, v);
      }
    }
  }

  method InvMap(adapter: map<nat, nat>) returns (inv: map<nat, nat>)
    requires Injective(adapter)
    ensures forall i :: i in inv <==> i in adapter.Values
    ensures forall g :: g in adapter ==> adapter[g] in inv && inv[adapter[g]] == g
  {
    inv := map[];
    var todo := adapter.Keys;
    while todo != {}
      invariant todo <= adapter.Keys
      invariant forall g :: g in adapter && g !in todo ==> adapter[g] in inv && inv[adapter[g]] == g
      invariant forall i :: i in inv ==> i in adapter.Values
      decreases todo
    {
      var g :| g in todo;
      inv := inv[adapter[g] := g];
      todo := todo - {g};
    }
  }

  // The non-zero coefficients of the first `n` dimensions.
  ghost predicate Support(e: LinExpr, n: nat, d: map<nat, int>) {
    && (forall k: nat :: k in d <==> k < n && At(e, k) != 0)
    && (forall k: nat :: k in d ==> d[k] == At(e, k))
  }

  lemma TermsStep(m: map<nat, nat>, e: LinExpr, i: nat, le: LinExpr, g: nat)
    requires Injective(m) && g in m && m[g] == i && At(e, i) != 0 && Terms(m, e, i, le.coefs)
    ensures g !in le.coefs
    ensures Plus(le, Scale(Var(g), At(e, i))) == LinExpr(le.coefs[g := At(e, i)], le.cst)
    ensures Terms(m, e, i + 1, le.coefs[g := At(e, i)])
  {
    OneTerm(le, g, At(e, i));
    hide Plus, Scale;
  }

  lemma SupportStep(e: LinExpr, i: nat, d: map<nat, int>)
    requires Support(e, i, d)
    ensures Support(e, i + 1, if At(e, i) != 0 then d[i := At(e, i)] else d)
  {
  }

  lemma TermsSkip(m: map<nat, nat>, e: LinExpr, i: nat, coefs: map<nat, int>)
    requires Terms(m, e, i, coefs) && At(e, i) == 0
    ensures Terms(m, e, i + 1, coefs)
  {
  }

  // `c` says of the variables what `d` says of the dimensions, and mentions
  // exactly those with a non-zero coefficient.
  ghost predicate Translation(c: Cons, d: Cons, m: map<nat, nat>, n: nat)
    requires Bijective(m, n)
  {
    && c.equality == d.equality && c.expr.cst == d.expr.cst
    && Terms(m, d.expr, n, c.expr.coefs)
    && (forall v: Valuation :: Sat(c, v) <==> Sat(d, Coord(PointOf(m, n, v))))
  }

  lemma TermsMean(c: Cons, d: Cons, m: map<nat, nat>, n: nat, support: map<nat, int>)
    requires Bijective(m, n) && Terms(m, d.expr, n, c.expr.coefs)
    requires c.equality == d.equality && c.expr.cst == d.expr.cst && forall i :: i in d.expr.coefs ==> i < n
    requires IsRenaming(c.expr.coefs, m, support) && Support(d.expr, n, support)
    ensures Translation(c, d, m, n)
  {
    forall v: Valuation
      ensures Sat(c, v) <==> Sat(d, Coord(PointOf(m, n, v)))
    {
      TermsMeanAt(c, d, m, n, support, v);
    }
  }

  lemma TermsMeanAt(c: Cons, d: Cons, m: map<nat, nat>, n: nat, support: map<nat, int>, v: Valuation)
    requires Bijective(m, n) && Terms(m, d.expr, n, c.expr.coefs)
    requires c.equality == d.equality && c.expr.cst == d.expr.cst && forall i :: i in d.expr.coefs ==> i < n
    requires IsRenaming(c.expr.coefs, m, support) && Support(d.expr, n, support)
    ensures Sat(c, v) <==> Sat(d, Coord(PointOf(m, n, v)))
  {
    var w := Coord(PointOf(m, n, v));
    AtPoint(m, n, v, d.expr, c.expr.coefs);
    SupportOf(d.expr, n, support);
    hide Terms, Support, IsRenaming, Bijective;
    SumRenamed(c.expr.coefs, m, support, v, w);
    SumSupport(d.expr.coefs, support, w);
  }

  lemma AtPoint(m: map<nat, nat>, n: nat, v: Valuation, e: LinExpr, coefs: map<nat, int>)
    requires Bijective(m, n) && Terms(m, e, n, coefs)
    ensures forall g :: g in coefs ==> g in m && Coord(PointOf(m, n, v))(m[g]) == v(g)
  {
  }

  lemma SupportOf(e: LinExpr, n: nat, support: map<nat, int>)
    requires Support(e, n, support) && forall i :: i in e.coefs ==> i < n
    ensures forall k :: k in support ==> k in e.coefs && e.coefs[k] == support[k]
    ensures forall k :: k in e.coefs && k !in support ==> e.coefs[k] == 0
  {
  }

  method BackTranslate(adapter: map<nat, nat>, dim: nat, c: Cons) returns (res: Cons)
    requires Bijective(adapter, dim) && forall i :: i in c.expr.coefs ==> i < dim
    ensures Translation(res, c, adapter, dim)
  {
    var le := Constant(0);
    var inv := InvMap(adapter);
    ghost var d: map<nat, int> := map[];
    hide Plus, Scale, IsRenaming, Terms, Support, At, Translation, Bijective;
    NoTerms(adapter, c.expr);
    for i := 0 to dim
      invariant Terms(adapter, c.expr, i, le.coefs) && le.cst == 0
      invariant IsRenaming(le.coefs, adapter, d) && Support(c.expr, i, d)
    {
      var coef := At(c.expr, i);
      var g := inv[i];
      FoundInverse(adapter, dim, inv, i);
      SupportStep(c.expr, i, d);
      if coef != 0 {
        TermsStep(adapter, c.expr, i, le, g);
        RenamingInsert(le.coefs, adapter, d, g, coef, adapter);
        le := Plus(le, Scale(Var(g), coef));
        d := d[i := coef];
      } else {
        TermsSkip(adapter, c.expr, i, le.coefs);
      }
    }
    WithConstant(adapter, c.expr, dim, le, c.equality);
    le := Plus(le, Constant(c.expr.cst));
    res := if c.equality then EqCons(le, Constant(0)) else GeCons(le, Constant(0));
    TermsMean(res, c, adapter, dim, d);
  }

  lemma NoTerms(m: map<nat, nat>, e: LinExpr)
    ensures Terms(m, e, 0, map[]) && IsRenaming(map[], m, map[]) && Support(e, 0, map[])
  {
  }

  lemma FoundInverse(m: map<nat, nat>, n: nat, inv: map<nat, nat>, i: nat)
    requires Bijective(m, n) && i < n && i in inv
    requires forall g :: g in m ==> m[g] in inv && inv[m[g]] == g
    ensures inv[i] in m && m[inv[i]] == i
  {
    var h := VariableAt(m, i);
  }

  lemma WithConstant(m: map<nat, nat>, from: LinExpr, n: nat, le: LinExpr, eq: bool)
    requires Terms(m, from, n, le.coefs) && le.cst == 0
    ensures var e := Plus(le, Constant(from.cst));
      (if eq then EqCons(e, Constant(0)) else GeCons(e, Constant(0))) == Cons(LinExpr(le.coefs, from.cst), eq)
  {
    ComparedToZero(LinExpr(le.coefs, from.cst), eq);
    assert Plus(le, Constant(from.cst)) == LinExpr(le.coefs, from.cst);
  }

  // The constraints of a polyhedron, in terms of its variables.
  ghost predicate Presents(cs: seq<Cons>, s: Sparse)
    requires s.Ok()
  {
    && (forall c :: c in cs ==> c.expr.coefs.Keys <= s.adapter.Keys)
    && (forall c, g :: c in cs && g in c.expr.coefs ==> c.expr.coefs[g] != 0)
    && (forall v: Valuation :: Has(s, v) <==> SatAll(cs, v))
  }

  method Constraints(p: WPoly) returns (cs: seq<Cons>)
    requires p.Valid()
    ensures Presents(cs, p.Value())
    ensures |cs| == |p.lib.constraints(p.poly)|
    ensures forall k :: 0 <= k < |cs| ==> Translation(cs[k], p.lib.constraints(p.poly)[k], p.adapter, p.poly.dim)
  {
    var ds := p.lib.constraints(p.poly);
    cs := TranslateAll(p.adapter, p.poly.dim, ds);
    Translated(cs, ds, p.Value());
  }

  method TranslateAll(adapter: map<nat, nat>, dim: nat, ds: seq<Cons>) returns (cs: seq<Cons>)
    requires Bijective(adapter, dim) && forall d, i :: d in ds && i in d.expr.coefs ==> i < dim
    ensures |cs| == |ds| && forall k :: 0 <= k < |cs| ==> Translation(cs[k], ds[k], adapter, dim)
  {
    cs := [];
    for i := 0 to |ds|
      invariant |cs| == i
      invariant forall k :: 0 <= k < i ==> Translation(cs[k], ds[k], adapter, dim)
    {
      assert ds[i] in ds;
      var c := BackTranslate(adapter, dim, ds[i]);
      hide Translation, Bijective;
      cs := cs + [c];
    }
  }

  lemma Translated(cs: seq<Cons>, ds: seq<Cons>, s: Sparse)
    requires s.Ok() && Describes(ds, s.poly) && |cs| == |ds|
    requires forall k :: 0 <= k < |cs| ==> Translation(cs[k], ds[k], s.adapter, s.poly.dim)
    ensures Presents(cs, s)
  {
    forall c | c in cs
      ensures c.expr.coefs.Keys <= s.adapter.Keys
      ensures forall g :: g in c.expr.coefs ==> c.expr.coefs[g] != 0
    {
      var k :| 0 <= k < |cs| && cs[k] == c;
    }
    forall v: Valuation
      ensures Has(s, v) <==> SatAll(cs, v)
    {
      var x := PointOf(s.adapter, s.poly.dim, v);
      assert Has(s, v) <==> SatAll(ds, Coord(x));
      if SatAll(ds, Coord(x)) {
        forall c | c in cs
          ensures Sat(c, v)
        {
          var k :| 0 <= k < |cs| && cs[k] == c;
          assert ds[k] in ds;
        }
      }
      if SatAll(cs, v) {
        forall d | d in ds
          ensures Sat(d, Coord(x))
        {
          var k :| 0 <= k < |ds| && ds[k] == d;
          assert cs[k] in cs;
        }
      }
    }
  }
}
