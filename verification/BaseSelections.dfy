/**
 * The choice of the base variables of a merge (`_doUnify`): a set of common
 * variables without affine relations, on which all others depend.
 */
module BaseSelections {
  import opened LinearExpressions
  import opened Polyhedra
  import opened SparsePolyhedra
  import opened UpperBounds
  import opened WPolys
  import opened ConstraintSystems

  ghost predicate NonTrivial(e: LinExpr) {
    exists k :: k in e.coefs && e.coefs[k] != 0
  }

  ghost predicate VanishesOn(p: Poly, e: LinExpr) {
    forall x :: x in p.pts ==> Eval(e, Coord(x)) == 0.0
  }

  // Minimized constraint systems: the equalities are those of the affine
  // hull.  A non-empty polyhedron that lies in a hyperplane has one, and none
  // is trivial.
  ghost predicate Minimizes(lib: Ppl) {
    && (forall p: Poly, e: LinExpr ::
          p.Wf() && p.pts != iset{} && NonTrivial(e) && (forall i :: i in e.coefs ==> i < p.dim) && VanishesOn(p, e) ==>
          HasEquality(lib.constraints(p)))
    && (forall p: Poly, k: int ::
          p.Wf() && p.pts != iset{} && 0 <= k < |lib.constraints(p)| && lib.constraints(p)[k].equality ==>
          NonTrivial(lib.constraints(p)[k].expr))
  }

  ghost predicate HasEquality(cs: seq<Cons>) {
    exists k :: 0 <= k < |cs| && cs[k].equality
  }

  // ----- affine relations on a sparse polyhedron -----

  ghost predicate Vanishes(s: Sparse, e: LinExpr)
    requires s.Ok()
  {
    forall v: Valuation :: Has(s, v) ==> Eval(e, v) == 0.0
  }

  ghost predicate NonEmpty(s: Sparse)
    requires s.Ok()
  {
    exists v: Valuation :: Has(s, v)
  }

  // No non-trivial affine equality holds between these variables.
  ghost predicate Independent(s: Sparse, base: set<nat>)
    requires s.Ok()
  {
    forall e: LinExpr :: e.coefs.Keys <= base && NonTrivial(e) ==> !Vanishes(s, e)
  }

  // On `s`, the variable is an affine function of the base.
  ghost predicate DependsOn(s: Sparse, u: nat, base: set<nat>)
    requires s.Ok()
  {
    exists e: LinExpr :: u in e.coefs && e.coefs[u] != 0 && e.coefs.Keys <= base + {u} && Vanishes(s, e)
  }

  lemma DependsOnMore(s: Sparse, u: nat, base: set<nat>, more: set<nat>)
    requires s.Ok() && DependsOn(s, u, base) && base <= more
    ensures DependsOn(s, u, more)
  {
    var e: LinExpr :| u in e.coefs && e.coefs[u] != 0 && e.coefs.Keys <= base + {u} && Vanishes(s, e);
    assert e.coefs.Keys <= more + {u};
  }

  // What depends on the base there depends on it in every part.
  lemma DependsOnPart(s: Sparse, t: Sparse, u: nat, base: set<nat>)
    requires s.Ok() && t.Ok() && DependsOn(s, u, base)
    requires forall v: Valuation :: Has(t, v) ==> Has(s, v)
    ensures DependsOn(t, u, base)
  {
    var e: LinExpr :| u in e.coefs && e.coefs[u] != 0 && e.coefs.Keys <= base + {u} && Vanishes(s, e);
    assert Vanishes(t, e);
  }

  // ----- an expression on variables, on dimensions -----

  lemma {:induction false} OnDimensions(coefs: map<nat, int>, m: map<nat, nat>) returns (d: map<nat, int>)
    requires Injective(m) && coefs.Keys <= m.Keys
    ensures IsRenaming(coefs, m, d)
    decreases |coefs|
  {
    d := map[];
    NoTerms(m, Constant(0));
    if coefs != map[] {
      hide IsRenaming, Injective;
      var g :| g in coefs;
      var fewer := coefs - {g};
      TakeOut(coefs, g);
      d := OnDimensions(fewer, m);
      TermOnDimensions(fewer, m, d, g, coefs[g]);
      d := d[m[g] := coefs[g]];
    }
  }

  lemma TakeOut(c: map<nat, int>, g: nat)
    requires g in c
    ensures |c - {g}| < |c| && g !in c - {g} && (c - {g})[g := c[g]] == c
  {
  }

  lemma TermOnDimensions(coefs: map<nat, int>, m: map<nat, nat>, d: map<nat, int>, g: nat, a: int)
    requires Injective(m) && IsRenaming(coefs, m, d) && g in m && g !in coefs
    ensures IsRenaming(coefs[g := a], m, d[m[g] := a])
  {
    RenamingInsert(coefs, m, d, g, a, m);
  }

  lemma RelationOnDimensions(s: Sparse, e: LinExpr) returns (d: LinExpr)
    requires s.Ok() && e.coefs.Keys <= s.adapter.Keys && NonTrivial(e) && Vanishes(s, e)
    ensures NonTrivial(d) && (forall i :: i in d.coefs ==> i < s.poly.dim) && VanishesOn(s.poly, d)
  {
    var coefs := OnDimensions(e.coefs, s.adapter);
    d := LinExpr(coefs, e.cst);
    RenamingInRange(e.coefs, s.adapter, coefs, s.poly.dim);
    var k :| k in e.coefs && e.coefs[k] != 0;
    assert s.adapter[k] in d.coefs;
    forall x | x in s.poly.pts
      ensures Eval(d, Coord(x)) == 0.0
    {
      var v := ValuationOf(s.adapter, x);
      ValuationOfPoint(s.adapter, s.poly.dim, x);
      assert Has(s, v);
      SumRenamed(e.coefs, s.adapter, coefs, v, Coord(x));
    }
  }

  // ----- one step of the choice -----

  lemma VanishesOnProjection(s: Sparse, t: Sparse, e: LinExpr)
    requires s.Ok() && t.Ok() && e.coefs.Keys <= t.adapter.Keys
    requires forall w: Valuation :: Has(t, w) <==> Projects(s, Identity(t.adapter.Keys), w)
    ensures Vanishes(s, e) <==> Vanishes(t, e)
  {
    var id := Identity(t.adapter.Keys);
    if Vanishes(s, e) {
      forall w: Valuation | Has(t, w)
        ensures Eval(e, w) == 0.0
      {
        var v: Valuation :| Has(s, v) && Via(id, v, w);
        forall g | g in e.coefs
          ensures v(g) == w(g)
        {
          assert g in id && id[g] == g;
        }
        EvalAgree(e, v, w);
      }
    }
    if Vanishes(t, e) {
      forall v: Valuation | Has(s, v)
        ensures Eval(e, v) == 0.0
      {
        ProjectMeaning(s, t.adapter.Keys, v);
      }
    }
  }

  // The points of the projection, when there are any.
  lemma ProjectionNonEmpty(s: Sparse, t: Sparse)
    requires s.Ok() && t.Ok() && NonEmpty(s)
    requires forall w: Valuation :: Has(t, w) <==> Projects(s, Identity(t.adapter.Keys), w)
    ensures t.poly.pts != iset{}
  {
    var v: Valuation :| Has(s, v);
    ProjectMeaning(s, t.adapter.Keys, v);
    EmptyHasNothing(t);
  }

  lemma RelationFound(lib: Ppl, t: Sparse, e: LinExpr)
    requires Minimizes(lib) && t.Ok() && t.poly.pts != iset{}
    requires e.coefs.Keys <= t.adapter.Keys && NonTrivial(e) && Vanishes(t, e)
    ensures HasEquality(lib.constraints(t.poly))
  {
    var d := RelationOnDimensions(t, e);
  }

  // Without an equality in the projection, the variables are independent.
  lemma NoEqualityFound(lib: Ppl, s: Sparse, t: Sparse)
    requires Minimizes(lib) && s.Ok() && t.Ok() && NonEmpty(s)
    requires forall w: Valuation :: Has(t, w) <==> Projects(s, Identity(t.adapter.Keys), w)
    requires !HasEquality(lib.constraints(t.poly))
    ensures Independent(s, t.adapter.Keys)
  {
    ProjectionNonEmpty(s, t);
    forall e: LinExpr | e.coefs.Keys <= t.adapter.Keys && NonTrivial(e)
      ensures !Vanishes(s, e)
    {
      VanishesOnProjection(s, t, e);
      if Vanishes(t, e) {
        RelationFound(lib, t, e);
      }
    }
  }

  // With one, the new variable depends on the ones chosen before.
  lemma EqualityFound(lib: Ppl, s: Sparse, t: Sparse, cs: seq<Cons>, k: nat, base: set<nat>, u: nat)
    requires lib.Lawful() && Minimizes(lib) && s.Ok() && t.Ok() && NonEmpty(s) && t.adapter.Keys == base + {u}
    requires forall w: Valuation :: Has(t, w) <==> Projects(s, Identity(t.adapter.Keys), w)
    requires Presents(cs, t) && k < |cs| == |lib.constraints(t.poly)| && cs[k].equality
    requires Translation(cs[k], lib.constraints(t.poly)[k], t.adapter, t.poly.dim)
    requires Independent(s, base)
    ensures DependsOn(s, u, base)
  {
    var e := cs[k].expr;
    assert cs[k] in cs;
    ProjectionNonEmpty(s, t);
    assert lib.constraints(t.poly)[k] in lib.constraints(t.poly);
    StillNonTrivial(cs[k], lib.constraints(t.poly)[k], t.adapter, t.poly.dim);
    forall v: Valuation | Has(t, v)
      ensures Eval(e, v) == 0.0
    {
      assert Sat(cs[k], v);
    }
    VanishesOnProjection(s, t, e);
    assert !(e.coefs.Keys <= base);
  }

  lemma StillNonTrivial(c: Cons, d: Cons, m: map<nat, nat>, n: nat)
    requires Bijective(m, n) && Translation(c, d, m, n) && NonTrivial(d.expr)
    requires forall i :: i in d.expr.coefs ==> i < n
    ensures NonTrivial(c.expr)
  {
    var i :| i in d.expr.coefs && d.expr.coefs[i] != 0;
    var g := VariableAt(m, i);
    assert g in c.expr.coefs;
  }

  // ----- the loops -----

  ghost predicate MentionedBy(ds: seq<Cons>, i: nat) {
    exists k :: 0 <= k < |ds| && At(ds[k].expr, i) != 0
  }

  // The variables of the dimensions that the library's constraints mention.
  ghost function Mentioned(lib: Ppl, s: Sparse): set<nat> {
    set g | g in s.adapter && MentionedBy(lib.constraints(s.poly), s.adapter[g])
  }

  // The variables that a constraint mentions; the others are unconstrained.
  method CollectPolyVars(poly: WPoly) returns (vars: set<nat>)
    requires poly.Valid()
    ensures vars <= poly.adapter.Keys && vars == Mentioned(poly.lib, poly.Value())
    ensures forall v: Valuation, w: Valuation :: (forall g :: g in vars ==> v(g) == w(g)) ==>
              (Has(poly.Value(), v) <==> Has(poly.Value(), w))
  {
    var cs := Constraints(poly);
    MentionedTracked(poly.Value(), cs);
    vars := MentionedVars(cs, poly.adapter.Keys);
    MentionedMatter(poly.Value(), cs, vars);
    MentionsTranslated(poly.lib, poly.Value(), cs);
  }

  ghost predicate MentionedIn(cs: seq<Cons>, n: int, g: nat)
    requires n <= |cs|
  {
    exists k :: 0 <= k < n && g in cs[k].expr.coefs
  }

  lemma MentionsTranslated(lib: Ppl, s: Sparse, cs: seq<Cons>)
    requires s.Ok() && |cs| == |lib.constraints(s.poly)|
    requires forall k :: 0 <= k < |cs| ==> Translation(cs[k], lib.constraints(s.poly)[k], s.adapter, s.poly.dim)
    ensures forall g :: g in Mentioned(lib, s) <==> MentionedIn(cs, |cs|, g)
  {
    var ds := lib.constraints(s.poly);
    forall g
      ensures g in Mentioned(lib, s) <==> MentionedIn(cs, |cs|, g)
    {
      if g in Mentioned(lib, s) {
        var k :| 0 <= k < |ds| && At(ds[k].expr, s.adapter[g]) != 0;
        assert Terms(s.adapter, ds[k].expr, s.poly.dim, cs[k].expr.coefs);
      }
      if MentionedIn(cs, |cs|, g) {
        var k :| 0 <= k < |cs| && g in cs[k].expr.coefs;
        assert Terms(s.adapter, ds[k].expr, s.poly.dim, cs[k].expr.coefs);
      }
    }
  }

  lemma MentionedTracked(s: Sparse, cs: seq<Cons>)
    requires s.Ok() && Presents(cs, s)
    ensures forall k :: 0 <= k < |cs| ==> cs[k].expr.coefs.Keys <= s.adapter.Keys
  {
    assert forall k :: 0 <= k < |cs| ==> cs[k] in cs;
  }

  method MentionedVars(cs: seq<Cons>, ghost all: set<nat>) returns (vars: set<nat>)
    requires forall k :: 0 <= k < |cs| ==> cs[k].expr.coefs.Keys <= all
    ensures vars <= all && forall k :: 0 <= k < |cs| ==> cs[k].expr.coefs.Keys <= vars
    ensures forall g :: g in vars <==> MentionedIn(cs, |cs|, g)
  {
    vars := {};
    for i := 0 to |cs|
      invariant vars <= all && forall g :: g in vars <==> MentionedIn(cs, i, g)
      invariant forall k :: 0 <= k < i ==> cs[k].expr.coefs.Keys <= vars
    {
      vars := vars + cs[i].expr.coefs.Keys;
    }
  }

  lemma MentionedMatter(s: Sparse, cs: seq<Cons>, vars: set<nat>)
    requires s.Ok() && Presents(cs, s)
    requires forall k :: 0 <= k < |cs| ==> cs[k].expr.coefs.Keys <= vars
    ensures forall v: Valuation, w: Valuation :: (forall g :: g in vars ==> v(g) == w(g)) ==> (Has(s, v) <==> Has(s, w))
  {
    forall v: Valuation, w: Valuation | forall g :: g in vars ==> v(g) == w(g)
      ensures Has(s, v) <==> Has(s, w)
    {
      SameOnMentioned(cs, vars, v, w);
    }
  }

  lemma SameOnMentioned(cs: seq<Cons>, vars: set<nat>, v: Valuation, w: Valuation)
    requires forall k :: 0 <= k < |cs| ==> cs[k].expr.coefs.Keys <= vars
    requires forall g :: g in vars ==> v(g) == w(g)
    ensures SatAll(cs, v) <==> SatAll(cs, w)
  {
    forall c | c in cs
      ensures Sat(c, v) <==> Sat(c, w)
    {
      EvalAgree(c.expr, v, w);
    }
  }

  // One candidate: kept when the projection onto it and the base has no
  // equality.
  method Candidate(common: WPoly, u: nat, base: set<nat>) returns (chosen: bool)
    requires common.Valid() && Minimizes(common.lib) && NonEmpty(common.Value())
    requires base <= common.adapter.Keys && u in common.adapter && u !in base && Independent(common.Value(), base)
    ensures if chosen then Independent(common.Value(), base + {u}) else DependsOn(common.Value(), u, base)
  {
    ghost var s := common.Value();
    var temp := ProjectTo(common, base + {u});
    hide Minimizes, NonEmpty, Independent, Has, Projects, Bijective, DependsOn;
    var cs := Constraints(temp);
    var i := FindEquality(cs);
    chosen := i == |cs|;
    if chosen {
      EqualitiesKept(cs, common.lib.constraints(temp.poly), temp.adapter, temp.poly.dim);
      NoEqualityFound(common.lib, s, temp.Value());
    } else {
      EqualityFound(common.lib, s, temp.Value(), cs, i, base, u);
    }
  }

  lemma EqualitiesKept(cs: seq<Cons>, ds: seq<Cons>, m: map<nat, nat>, n: nat)
    requires Bijective(m, n) && |cs| == |ds|
    requires forall k :: 0 <= k < |cs| ==> Translation(cs[k], ds[k], m, n)
    ensures HasEquality(cs) <==> HasEquality(ds)
  {
    if HasEquality(ds) {
      var k :| 0 <= k < |ds| && ds[k].equality;
      assert Translation(cs[k], ds[k], m, n);
    }
  }

  method FindEquality(cs: seq<Cons>) returns (i: nat)
    ensures i <= |cs| && (i < |cs| ==> cs[i].equality)
    ensures i == |cs| <==> !HasEquality(cs)
  {
    i := 0;
    while i < |cs| && !cs[i].equality
      invariant 0 <= i <= |cs|
      invariant forall k :: 0 <= k < i ==> !cs[k].equality
    {
      i := i + 1;
    }
  }

  // `filter_lambda`: projection onto some of the tracked variables.
  method ProjectTo(p: WPoly, keep: set<nat>) returns (temp: WPoly)
    requires p.Valid() && keep <= p.adapter.Keys
    ensures fresh(temp) && temp.Valid() && temp.lib == p.lib && temp.adapter.Keys == keep
    ensures forall w: Valuation :: Has(temp.Value(), w) <==> Projects(p.Value(), Identity(keep), w)
  {
    hide Has, Projects, Bijective, RenamesBack, Ppl.Lawful;
    temp := new WPoly.Copy(p);
    ghost var src := temp.MapVars(g => if g in keep then Some(g) else None);
    IsProjection(p.Value(), src, keep);
  }

  lemma IsProjection(s: Sparse, src: map<nat, nat>, keep: set<nat>)
    requires RenamesBack(src, s.adapter.Keys, g => if g in keep then Some(g) else None) && keep <= s.adapter.Keys
    ensures src == Identity(keep) && src.Keys == keep
  {
    var f := g => if g in keep then Some(g) else None;
    forall g | g in keep
      ensures g in src && src[g] == g
    {
      assert f(g) == Some(g);
    }
    forall j | j in src
      ensures j in keep
    {
      assert f(src[j]) == Some(j);
    }
  }

  // On a non-empty hull, the base satisfies no affine equality, and every
  // other common variable is an affine function of it in both states.
  method SelectBase(l: WPoly, r: WPoly) returns (ok: bool, common: WPoly, commonVars: set<nat>, base: set<nat>)
    requires l.Valid() && r.Valid() && l.lib == r.lib && Minimizes(l.lib)
    requires NonEmpty(l.Value()) || NonEmpty(r.Value())
    ensures ok <==> l.adapter.Keys * r.adapter.Keys != {}
    ensures ok ==> common.Valid() && fresh(common) && base <= commonVars <= common.adapter.Keys
    ensures ok ==> Independent(common.Value(), base)
    ensures ok ==> forall u :: u in commonVars - base ==> DependsOn(l.Value(), u, base) && DependsOn(r.Value(), u, base)
    ensures ok ==> IsHull(l.lib, l.Value(), Identity(l.adapter.Keys), r.Value(), common.Value())
    ensures ok ==> commonVars == Mentioned(l.lib, l.Value()) * Mentioned(l.lib, r.Value())
    ensures ok ==> InOrder(common.Value(), commonVars, base)
  {
    common := new WPoly.Copy(l);
    commonVars, base := {}, {};
    ok := common.PolyHullAssign(r);
    if !ok {
      return;
    }
    var leftVars := CollectPolyVars(l);
    var rightVars := CollectPolyVars(r);
    commonVars := leftVars * rightVars;
    ghost var s := common.Value();
    NothingIndependent(s, l.Value(), r.Value());
    hide Minimizes, NonEmpty, Independent, DependsOn, Has, InOrder, IsHull, Mentioned;
    base := ChooseBase(common, commonVars);
    forall u | u in commonVars - base
      ensures DependsOn(l.Value(), u, base) && DependsOn(r.Value(), u, base)
    {
      DependsOnPart(s, l.Value(), u, base);
      DependsOnPart(s, r.Value(), u, base);
    }
  }

  ghost predicate OthersDepend(s: Sparse, vars: set<nat>, base: set<nat>)
    requires s.Ok()
  {
    forall u :: u in vars - base ==> DependsOn(s, u, base)
  }

  ghost function Smaller(base: set<nat>, u: nat): set<nat> {
    set w | w in base && w < u
  }

  // A common variable is left out exactly when it depends on the smaller ones
  // that are not.
  ghost predicate InOrder(s: Sparse, vars: set<nat>, base: set<nat>)
    requires s.Ok()
  {
    base <= vars && forall u :: u in vars - base ==> DependsOn(s, u, Smaller(base, u))
  }

  // There is only one such base.
  lemma {:induction false} BaseUnique(s: Sparse, vars: set<nat>, base1: set<nat>, base2: set<nat>, u: nat)
    requires s.Ok() && InOrder(s, vars, base1) && InOrder(s, vars, base2)
    requires Independent(s, base1) && Independent(s, base2)
    ensures u in base1 <==> u in base2
    decreases u
  {
    forall w: nat | w < u
      ensures w in base1 <==> w in base2
    {
      BaseUnique(s, vars, base1, base2, w);
    }
    assert Smaller(base1, u) == Smaller(base2, u);
    if u in base1 && u !in base2 {
      BothNot(s, base1, u);
    }
    if u in base2 && u !in base1 {
      BothNot(s, base2, u);
    }
  }

  lemma BothNot(s: Sparse, base: set<nat>, u: nat)
    requires s.Ok() && Independent(s, base) && u in base
    ensures !DependsOn(s, u, Smaller(base, u))
  {
    if DependsOn(s, u, Smaller(base, u)) {
      var e: LinExpr :| u in e.coefs && e.coefs[u] != 0 && e.coefs.Keys <= Smaller(base, u) + {u} && Vanishes(s, e);
      assert e.coefs.Keys <= base && NonTrivial(e);
    }
  }

  lemma OneMoreDecided(s: Sparse, vars: set<nat>, base: set<nat>, more: set<nat>, u: nat)
    requires s.Ok() && OthersDepend(s, vars, base) && base <= more
    requires u in more || DependsOn(s, u, more)
    ensures OthersDepend(s, vars + {u}, more)
  {
    forall w | w in vars - more
      ensures DependsOn(s, w, more)
    {
      DependsOnMore(s, w, base, more);
    }
  }

  lemma SmallerKept(vars: set<nat>, base: set<nat>, more: set<nat>, u: nat)
    requires base <= vars && base <= more <= base + {u} && forall w :: w in vars ==> w < u
    ensures Smaller(more, u) == base
    ensures forall w :: w in vars ==> Smaller(more, w) == Smaller(base, w)
  {
  }

  // The candidates are taken in increasing order.
  method ChooseBase(common: WPoly, commonVars: set<nat>) returns (base: set<nat>)
    requires common.Valid() && Minimizes(common.lib) && NonEmpty(common.Value()) && commonVars <= common.adapter.Keys
    requires Independent(common.Value(), {})
    ensures base <= commonVars && Independent(common.Value(), base)
    ensures OthersDepend(common.Value(), commonVars, base)
    ensures InOrder(common.Value(), commonVars, base)
  {
    hide Minimizes, NonEmpty, Independent, DependsOn, Has, Ppl.Lawful, Bijective;
    base := {};
    ghost var s := common.Value();
    var todo := commonVars;
    while todo != {}
      invariant todo <= commonVars && base <= commonVars - todo
      invariant Independent(s, base)
      invariant OthersDepend(s, commonVars - todo, base)
      invariant forall u, w :: u in commonVars - todo && w in todo ==> u < w
      invariant forall u :: u in commonVars - todo - base ==> DependsOn(s, u, Smaller(base, u))
      decreases todo
    {
      ghost var x :| x in todo;
      HasLeast(todo, x, 0);
      var u :| u in todo && forall w :: w in todo ==> u <= w;
      ghost var before := base;
      var chosen := Candidate(common, u, base);
      if chosen {
        base := base + {u};
      }
      OneMoreDecided(s, commonVars - todo, before, base, u);
      SmallerKept(commonVars - todo, before, base, u);
      assert commonVars - (todo - {u}) == commonVars - todo + {u};
      todo := todo - {u};
    }
    assert commonVars - todo == commonVars;
  }

  lemma {:induction false} HasLeast(s: set<nat>, x: nat, n: nat)
    requires x in s && n <= x && forall w :: w in s ==> n <= w
    ensures exists u :: u in s && forall w :: w in s ==> u <= w
    decreases x - n
  {
    if n !in s {
      HasLeast(s, x, n + 1);
    }
  }

  lemma NothingIndependent(s: Sparse, l: Sparse, r: Sparse)
    requires s.Ok() && l.Ok() && r.Ok() && (NonEmpty(l) || NonEmpty(r))
    requires forall v: Valuation :: Has(l, v) || Has(r, v) ==> Has(s, v)
    ensures NonEmpty(s) && Independent(s, {})
  {
  }
}
