/**
 * Splitting a variable into an upper and a lower one (`_doAvatarSplit`): each
 * constraint keeps only the side on which it bounds the variable.
 */
module AvatarSplits {
  import opened LinearExpressions
  import opened Polyhedra
  import opened SparsePolyhedra
  import opened WPolys
  import opened AbstractStates
  import opened Domains
  import opened ConstraintSystems

  // `w` with the value of `to` at `from`.
  ghost function Redirect(w: Valuation, from: nat, to: nat): Valuation {
    Update(w, from, w(to))
  }

  ghost predicate Redirected(le: LinExpr, coefs: map<nat, int>, cst: int, from: nat, to: nat) {
    forall w: Valuation :: Eval(le, w) == Eval(LinExpr(coefs, cst), Redirect(w, from, to))
  }

  lemma RedirectTerm(le: LinExpr, coefs: map<nat, int>, g: nat, k: int, from: nat, to: nat)
    requires Redirected(le, coefs, 0, from, to) && g !in coefs
    ensures Redirected(Plus(le, Scale(Var(if g == from then to else g), k)), coefs[g := k], 0, from, to)
  {
    var h := if g == from then to else g;
    forall w: Valuation
      ensures Eval(Plus(le, Scale(Var(h), k)), w) == Eval(LinExpr(coefs[g := k], 0), Redirect(w, from, to))
    {
      EvalPlus(le, Scale(Var(h), k), w);
      EvalScale(Var(h), k, w);
      EvalVar(h, w);
      SumInsert(coefs, g, k, Redirect(w, from, to));
      hide Plus, Scale;
    }
  }

  // The two expressions built from one constraint: with the upper variable
  // where a larger value helps, and with the lower one there.
  method SplitTerms(e: LinExpr, vminus: nat, vplus: nat) returns (le: LinExpr, le2: LinExpr)
    requires vminus in e.coefs && forall g :: g in e.coefs ==> e.coefs[g] != 0
    ensures var up := e.coefs[vminus] > 0;
      && Redirected(le, e.coefs, e.cst, vminus, if up then vplus else vminus)
      && Redirected(le2, e.coefs, e.cst, vminus, if up then vminus else vplus)
  {
    le, le2 := Constant(0), Constant(0);
    var up := e.coefs[vminus] > 0;
    var todo := e.coefs.Keys;
    hide Plus, Scale;
    while todo != {}
      invariant todo <= e.coefs.Keys
      invariant Redirected(le, e.coefs - todo, 0, vminus, if up then vplus else vminus)
      invariant Redirected(le2, e.coefs - todo, 0, vminus, if up then vminus else vplus)
      decreases todo
    {
      var g :| g in todo;
      var k := e.coefs[g];
      RedirectTerm(le, e.coefs - todo, g, k, vminus, if up then vplus else vminus);
      RedirectTerm(le2, e.coefs - todo, g, k, vminus, if up then vminus else vplus);
      if g == vminus {
        if up {
          le := Plus(le, Scale(Var(vplus), k));
          le2 := Plus(le2, Scale(Var(g), k));
        } else {
          le := Plus(le, Scale(Var(g), k));
          le2 := Plus(le2, Scale(Var(vplus), k));
        }
      } else {
        le := Plus(le, Scale(Var(g), k));
        le2 := Plus(le2, Scale(Var(g), k));
      }
      WPoly.OneTermLess(e.coefs, todo, g);
      todo := todo - {g};
    }
    assert e.coefs - todo == e.coefs;
    WithInhomogeneous(le, e, vminus, if up then vplus else vminus);
    WithInhomogeneous(le2, e, vminus, if up then vminus else vplus);
    le := Plus(le, Constant(e.cst));
    le2 := Plus(le2, Constant(e.cst));
  }

  lemma WithInhomogeneous(le: LinExpr, e: LinExpr, from: nat, to: nat)
    requires Redirected(le, e.coefs, 0, from, to)
    ensures Redirected(Plus(le, Constant(e.cst)), e.coefs, e.cst, from, to)
  {
    forall w: Valuation
      ensures Eval(Plus(le, Constant(e.cst)), w) == Eval(e, Redirect(w, from, to))
    {
      EvalPlus(le, Constant(e.cst), w);
      EvalConstant(e.cst, w);
    }
  }

  // ----- the split system -----

  // What becomes of one constraint.
  ghost predicate SplitSat(c: Cons, vminus: nat, vplus: nat, w: Valuation) {
    if vminus !in c.expr.coefs then Sat(c, w)
    else
      var up := c.expr.coefs[vminus] > 0;
      && Eval(c.expr, Redirect(w, vminus, if up then vplus else vminus)) >= 0.0
      && (c.equality ==> Eval(c.expr, Redirect(w, vminus, if up then vminus else vplus)) <= 0.0)
  }

  ghost predicate SplitAll(cs: seq<Cons>, vminus: nat, vplus: nat, w: Valuation) {
    forall c :: c in cs ==> SplitSat(c, vminus, vplus, w)
  }

  // The constraints that do not mention a variable.
  ghost predicate OthersHold(cs: seq<Cons>, g: nat, w: Valuation) {
    forall c :: c in cs && g !in c.expr.coefs ==> Sat(c, w)
  }

  // The constraints of a polyhedron, none mentioning the new variable.
  ghost predicate Splittable(cs: seq<Cons>, vplus: nat) {
    && (forall c :: c in cs ==> vplus !in c.expr.coefs)
    && (forall c, g :: c in cs && g in c.expr.coefs ==> c.expr.coefs[g] != 0)
  }

  // The part of an expression that does not depend on one variable.
  ghost function Rest(e: LinExpr, g: nat, w: Valuation): real {
    Eval(LinExpr(e.coefs - {g}, e.cst), w)
  }

  lemma AtVariable(e: LinExpr, g: nat, x: real, w: Valuation)
    requires g in e.coefs
    ensures Eval(e, Update(w, g, x)) == Times(e.coefs[g], x) + Rest(e, g, w)
  {
    SumRemove(e.coefs, g, Update(w, g, x));
    EvalAgree(LinExpr(e.coefs - {g}, e.cst), w, Update(w, g, x));
  }

  // The split constraint, as a bound on one variable and on the other.
  lemma SplitBounds(c: Cons, vminus: nat, vplus: nat, w: Valuation)
    requires vminus in c.expr.coefs
    ensures var a := c.expr.coefs[vminus];
      SplitSat(c, vminus, vplus, w) <==>
        && Times(a, w(if a > 0 then vplus else vminus)) + Rest(c.expr, vminus, w) >= 0.0
        && (c.equality ==> Times(a, w(if a > 0 then vminus else vplus)) + Rest(c.expr, vminus, w) <= 0.0)
  {
    AtVariable(c.expr, vminus, w(vplus), w);
    AtVariable(c.expr, vminus, w(vminus), w);
  }

  // With both variables equal, the split system is the original one.
  lemma SplitCollapses(cs: seq<Cons>, vminus: nat, vplus: nat, w: Valuation)
    requires w(vplus) == w(vminus)
    ensures SplitAll(cs, vminus, vplus, w) <==> SatAll(cs, w)
  {
    forall c | c in cs
      ensures SplitSat(c, vminus, vplus, w) <==> Sat(c, w)
    {
      EvalAgree(c.expr, w, Redirect(w, vminus, vplus));
      EvalAgree(c.expr, w, Redirect(w, vminus, vminus));
    }
  }

  lemma TimesMonotone(a: int, x: real, y: real)
    requires x <= y
    ensures a >= 0 ==> Times(a, x) <= Times(a, y)
    ensures a <= 0 ==> Times(a, x) >= Times(a, y)
  {
    TimesPlus(a, x, y - x);
  }

  // A larger upper variable or a smaller lower one is always accepted.
  lemma SplitWidens(cs: seq<Cons>, vminus: nat, vplus: nat, w: Valuation, w': Valuation)
    requires Splittable(cs, vplus) && vminus != vplus
    requires w(vplus) <= w'(vplus) && w'(vminus) <= w(vminus)
    requires forall g :: g != vplus && g != vminus ==> w'(g) == w(g)
    requires SplitAll(cs, vminus, vplus, w)
    ensures SplitAll(cs, vminus, vplus, w')
  {
    forall c | c in cs
      ensures SplitSat(c, vminus, vplus, w')
    {
      assert SplitSat(c, vminus, vplus, w);
      if vminus in c.expr.coefs {
        var a := c.expr.coefs[vminus];
        EvalAgree(LinExpr(c.expr.coefs - {vminus}, c.expr.cst), w, w');
        SplitBounds(c, vminus, vplus, w);
        SplitBounds(c, vminus, vplus, w');
        TimesMonotone(a, w(vplus), w'(vplus));
        TimesMonotone(a, w'(vminus), w(vminus));
        hide SplitSat;
      } else {
        EvalAgree(c.expr, w, w');
      }
    }
  }

  // Any bound can be met by moving far enough.
  lemma FarEnough(a: int, r: real) returns (x: real)
    requires a != 0
    ensures Times(a, x) + r >= 0.0
  {
    var k := a as real;
    assert k != 0.0;
    x := -r / k;
    assert k * x == -r;
  }

  ghost function Spread(w: Valuation, vminus: nat, vplus: nat, lo: real, hi: real): Valuation {
    Update(Update(w, vplus, hi), vminus, lo)
  }

  // One constraint that mentions the variable can be met.
  lemma SplitOneExtends(c: Cons, vminus: nat, vplus: nat, w: Valuation) returns (lo: real, hi: real)
    requires vminus != vplus && vplus !in c.expr.coefs && vminus in c.expr.coefs && c.expr.coefs[vminus] != 0
    ensures SplitSat(c, vminus, vplus, Spread(w, vminus, vplus, lo, hi))
  {
    var a := c.expr.coefs[vminus];
    var r := Rest(c.expr, vminus, w);
    var x := FarEnough(a, r);
    var y := FarEnough(-a, -r);
    TimesDistributes(a, -a, y);
    assert Times(a, y) + r <= 0.0;
    if a > 0 { hi, lo := x, y; } else { lo, hi := x, y; }
    var w' := Spread(w, vminus, vplus, lo, hi);
    EvalAgree(LinExpr(c.expr.coefs - {vminus}, c.expr.cst), w, w');
    SplitBounds(c, vminus, vplus, w');
    assert w'(vplus) == hi && w'(vminus) == lo;
  }

  // The split system never blocks: whatever satisfies the constraints that do
  // not mention the variable extends to a solution, even when the variable
  // had no value at all.
  lemma {:induction false} SplitExtends(cs: seq<Cons>, vminus: nat, vplus: nat, w: Valuation)
    returns (lo: real, hi: real)
    requires Splittable(cs, vplus) && vminus != vplus
    requires OthersHold(cs, vminus, w)
    ensures SplitAll(cs, vminus, vplus, Spread(w, vminus, vplus, lo, hi))
  {
    lo, hi := 0.0, 0.0;
    if cs != [] {
      var c, rest := cs[0], cs[1..];
      assert cs == [c] + rest;
      assert c in cs;
      var lo1, hi1 := SplitExtends(rest, vminus, vplus, w);
      var lo2, hi2 := lo1, hi1;
      if vminus in c.expr.coefs {
        lo2, hi2 := SplitOneExtends(c, vminus, vplus, w);
      } else {
        EvalAgree(c.expr, w, Spread(w, vminus, vplus, lo1, hi1));
      }
      assert SplitAll([c], vminus, vplus, Spread(w, vminus, vplus, lo2, hi2));
      lo := if lo1 < lo2 then lo1 else lo2;
      hi := if hi1 > hi2 then hi1 else hi2;
      var w' := Spread(w, vminus, vplus, lo, hi);
      SplitWidens(rest, vminus, vplus, Spread(w, vminus, vplus, lo1, hi1), w');
      SplitWidens([c], vminus, vplus, Spread(w, vminus, vplus, lo2, hi2), w');
    }
  }

  // What the split means for the polyhedra: equating the two variables gives
  // the original back, the upper variable may grow, the lower one may shrink,
  // and nothing is lost of what the other constraints allow.
  lemma SplitMeaning(cs: seq<Cons>, s: Sparse, t: Sparse, vminus: nat, vplus: nat)
    requires s.Ok() && t.Ok() && Presents(cs, s) && Splittable(cs, vplus) && vminus != vplus
    requires forall w: Valuation :: Has(t, w) <==> SplitAll(cs, vminus, vplus, w)
    ensures forall w: Valuation :: w(vplus) == w(vminus) ==> (Has(t, w) <==> Has(s, w))
    ensures forall w: Valuation, x: real :: Has(t, w) && w(vplus) <= x ==> Has(t, Update(w, vplus, x))
    ensures forall w: Valuation, x: real :: Has(t, w) && x <= w(vminus) ==> Has(t, Update(w, vminus, x))
    ensures forall w: Valuation :: OthersHold(cs, vminus, w) ==>
              exists lo, hi :: Has(t, Spread(w, vminus, vplus, lo, hi))
  {
    hide Has, SplitSat;
    forall w: Valuation | w(vplus) == w(vminus)
      ensures Has(t, w) <==> Has(s, w)
    {
      SplitCollapses(cs, vminus, vplus, w);
    }
    forall w: Valuation, x: real | Has(t, w) && w(vplus) <= x
      ensures Has(t, Update(w, vplus, x))
    {
      SplitWidens(cs, vminus, vplus, w, Update(w, vplus, x));
    }
    forall w: Valuation, x: real | Has(t, w) && x <= w(vminus)
      ensures Has(t, Update(w, vminus, x))
    {
      SplitWidens(cs, vminus, vplus, w, Update(w, vminus, x));
    }
    forall w: Valuation | OthersHold(cs, vminus, w)
      ensures exists lo, hi :: Has(t, Spread(w, vminus, vplus, lo, hi))
    {
      var lo, hi := SplitExtends(cs, vminus, vplus, w);
      assert Has(t, Spread(w, vminus, vplus, lo, hi));
    }
  }

  // ----- the operation -----

  lemma SplitBuilt(c: Cons, vminus: nat, vplus: nat, le: LinExpr, le2: LinExpr)
    requires vminus in c.expr.coefs
    requires var up := c.expr.coefs[vminus] > 0;
      && Redirected(le, c.expr.coefs, c.expr.cst, vminus, if up then vplus else vminus)
      && Redirected(le2, c.expr.coefs, c.expr.cst, vminus, if up then vminus else vplus)
    ensures forall w: Valuation :: SplitSat(c, vminus, vplus, w) <==>
      Sat(GeCons(le, Constant(0)), w) && (c.equality ==> Sat(LeCons(le2, Constant(0)), w))
  {
    forall w: Valuation
      ensures SplitSat(c, vminus, vplus, w) <==>
        Sat(GeCons(le, Constant(0)), w) && (c.equality ==> Sat(LeCons(le2, Constant(0)), w))
    {
      BuildersMean(le, Constant(0), w);
      BuildersMean(le2, Constant(0), w);
      EvalConstant(0, w);
      hide Plus, Scale, Minus;
    }
  }

  lemma NotSplit(c: Cons, vminus: nat, vplus: nat)
    requires vminus !in c.expr.coefs
    ensures forall w: Valuation :: SplitSat(c, vminus, vplus, w) <==> Sat(c, w)
  {
  }

  lemma PresentedSplittable(cs: seq<Cons>, s: Sparse, vplus: nat)
    requires s.Ok() && Presents(cs, s) && vplus !in s.adapter
    ensures Splittable(cs, vplus)
  {
    forall c | c in cs
      ensures vplus !in c.expr.coefs
    {
      assert c.expr.coefs.Keys <= s.adapter.Keys;
    }
  }

  method AddSplit(result: WPoly, c: Cons, vminus: nat, vplus: nat)
    requires result.Valid() && forall g :: g in c.expr.coefs ==> c.expr.coefs[g] != 0
    modifies result
    ensures result.Valid()
    ensures forall w: Valuation :: Has(result.Value(), w) <==>
              Has(old(result.Value()), w) && SplitSat(c, vminus, vplus, w)
  {
    hide Plus, Scale, Has, SplitSat, Redirected;
    if vminus in c.expr.coefs {
      var le, le2 := SplitTerms(c.expr, vminus, vplus);
      SplitBuilt(c, vminus, vplus, le, le2);
      result.AddConstraint(GeCons(le, Constant(0)));
      if c.equality {
        result.AddConstraint(LeCons(le2, Constant(0)));
      }
    } else {
      NotSplit(c, vminus, vplus);
      result.AddConstraint(c);
    }
  }

  // The new polyhedron is the split system of the old one's constraints.
  method DoAvatarSplit(poly: WPoly, gen: GuidGenerator, vminus: nat)
    returns (vplus: nat, result: WPoly, ghost cs: seq<Cons>)
    requires poly.Valid() && vminus < gen.next && forall g :: g in poly.adapter ==> g < gen.next
    modifies gen
    ensures vplus == old(gen.next) && gen.next == vplus + 1
    ensures fresh(result) && result.Valid() && result.lib == poly.lib
    ensures Presents(cs, poly.Value()) && Splittable(cs, vplus)
    ensures forall w: Valuation :: Has(result.Value(), w) <==> SplitAll(cs, vminus, vplus, w)
  {
    vplus := gen.Fresh();
    result := new WPoly(poly.lib, false);
    var all := Constraints(poly);
    cs := all;
    PresentedSplittable(cs, poly.Value(), vplus);
    AddAllSplit(result, all, vminus, vplus);
  }

  method AddAllSplit(result: WPoly, cs: seq<Cons>, vminus: nat, vplus: nat)
    requires result.Valid() && forall w: Valuation :: Has(result.Value(), w)
    requires forall c, g :: c in cs && g in c.expr.coefs ==> c.expr.coefs[g] != 0
    modifies result
    ensures result.Valid() && forall w: Valuation :: Has(result.Value(), w) <==> SplitAll(cs, vminus, vplus, w)
  {
    hide Has, SplitSat, Ppl.Lawful, Bijective;
    for i := 0 to |cs|
      invariant result.Valid()
      invariant forall w: Valuation :: Has(result.Value(), w) <==> SplitAll(cs[..i], vminus, vplus, w)
    {
      assert cs[..i + 1] == cs[..i] + [cs[i]];
      AddSplit(result, cs[i], vminus, vplus);
    }
    assert cs[..|cs|] == cs;
  }
}
