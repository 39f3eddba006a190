/**
 * Copying a variable and merging two variables into one (`doExpand`,
 * `doFold`): summaries of several memory cells.
 */
module Expansions {
  import opened LinearExpressions
  import opened Polyhedra
  import opened SparsePolyhedra
  import opened UpperBounds
  import opened WPolys
  import opened AbstractStates

  function Swap(s: nat, t: nat, g: nat): nat {
    if g == s then t else if g == t then s else g
  }

  // `w` with the values of two variables exchanged.
  ghost function Swapped(w: Valuation, s: nat, t: nat): Valuation {
    (g: nat) => w(Swap(s, t, g))
  }

  lemma SwapMeaning(p: Sparse, src: map<nat, nat>, s: nat, t: nat, w: Valuation)
    requires p.Ok() && RenamesBack(src, p.adapter.Keys, g => Some(Swap(s, t, g)))
    ensures Projects(p, src, w) <==> Has(p, Swapped(w, s, t))
  {
    var u := Swapped(w, s, t);
    forall h | h in src
      ensures src[h] == Swap(s, t, h) && u(src[h]) == w(h)
    {
    }
    if Has(p, u) {
      assert Via(src, u, w);
    }
    if Projects(p, src, w) {
      var v: Valuation :| Has(p, v) && Via(src, v, w);
      forall g | g in p.adapter
        ensures v(g) == u(g)
      {
        var h := Swap(s, t, g);
        assert h in src && src[h] == g;
      }
      HasAgree(p, v, u);
    }
  }

  // An untracked copy: the value with the two exchanged is the value with `s`
  // replaced by the copy.
  lemma SwapWithFresh(p: Sparse, s: nat, t: nat, w: Valuation)
    requires p.Ok() && t !in p.adapter
    ensures Has(p, Swapped(w, s, t)) <==> Has(p, Update(w, s, w(t)))
  {
    var u, x := Swapped(w, s, t), w(t);
    forall g | g in p.adapter
      ensures u(g) == Update(w, s, x)(g)
    {
      assert u(g) == w(Swap(s, t, g));
      assert Update(w, s, x)(g) == if g == s then x else w(g);
    }
    HasAgree(p, u, Update(w, s, x));
  }

  lemma NothingRenamed(src: map<nat, nat>, f: nat -> Option<nat>)
    requires RenamesBack(src, {}, f)
    ensures src == map[]
  {
  }

  // Only a polyhedron without tracked variables reaches the abort.
  method DoExpand(poly: WPoly, s: nat, t: nat) returns (ok: bool)
    requires poly.Valid()
    modifies poly
    ensures ok <==> old(poly.adapter) != map[]
    ensures ok ==> poly.Valid()
    ensures ok ==> forall w: Valuation :: Has(poly.Value(), w) <==>
      Has(old(poly.Value()), w) && Has(old(poly.Value()), Swapped(w, s, t))
    ensures ok && t !in old(poly.adapter) ==> forall w: Valuation :: Has(poly.Value(), w) <==>
      Has(old(poly.Value()), w) && Has(old(poly.Value()), Update(w, s, w(t)))
  {
    hide Has, Projects, Ppl.Lawful;
    ghost var p := poly.Value();
    var tmp := new WPoly.Copy(poly);
    ghost var src := tmp.MapVars(g => Some(Swap(s, t, g)));
    if t !in p.adapter {
      forall w: Valuation
        ensures Has(p, Swapped(w, s, t)) <==> Has(p, Update(w, s, w(t)))
      {
        SwapWithFresh(p, s, t, w);
      }
    }
    forall w: Valuation
      ensures Has(tmp.Value(), w) <==> Has(p, Swapped(w, s, t))
    {
      SwapMeaning(p, src, s, t, w);
    }
    if poly.adapter != map[] {
      var g :| g in poly.adapter;
      assert g in poly.adapter.Keys + tmp.adapter.Keys;
    } else {
      NothingRenamed(src, g => Some(Swap(s, t, g)));
    }
    ok := poly.IntersectionAssign(tmp);
  }

  // The elements in which two variables are equal.
  ghost predicate Equates(p: Sparse, s: nat, v: nat, q: Sparse) {
    && p.Ok() && q.Ok() && q.adapter.Keys == p.adapter.Keys + Both(s, v)
    && (forall w: Valuation :: Has(q, w) <==> Has(p, w) && w(s) == w(v))
  }

  // The hull of the two equalities.
  ghost predicate Folded(lib: Ppl, p: Sparse, s: nat, v1: nat, v2: nat, t: Sparse) {
    exists p1, p2 :: Equates(p, s, v1, p1) && Equates(p, s, v2, p2) && IsHull(lib, p1, Identity(p1.adapter.Keys), p2, t)
  }

  // Both variables' values are among those of the merged one.
  method DoFold(poly: WPoly, s: nat, v1: nat, v2: nat) returns (ok: bool)
    requires poly.Valid()
    modifies poly
    ensures ok <==> old(poly.adapter) != map[] || (s != v1 && s != v2)
    ensures ok ==> poly.Valid()
    ensures ok ==> forall w: Valuation :: Has(old(poly.Value()), w) && (w(s) == w(v1) || w(s) == w(v2)) ==>
              Has(poly.Value(), w)
    ensures ok && LeastHull(poly.lib) ==> forall r: Poly {:trigger Encloses(Sparse(poly.adapter, r), poly.Value())} ::
              EnclosesFold(Sparse(poly.adapter, r), old(poly.Value()), s, v1, v2) ==>
                  Encloses(Sparse(poly.adapter, r), poly.Value())
    ensures ok ==> Folded(poly.lib, old(poly.Value()), s, v1, v2, poly.Value())
  {
    hide Has, Equates, IsHull, LeastHull, Encloses, EnclosesFold, Folded, Bijective, Ppl.Lawful;
    var tmp := new WPoly.Copy(poly);
    ghost var p := poly.Value();
    AddEquality(poly, s, v1);
    AddEquality(tmp, s, v2);
    CommonVariable(p.adapter.Keys, s, v1, v2);
    ghost var p1, p2 := poly.Value(), tmp.Value();
    ok := poly.PolyHullAssign(tmp);
    if ok {
      FoldedBy(poly.lib, p, p1, p2, s, v1, v2, poly.Value());
    }
  }

  method AddEquality(poly: WPoly, s: nat, v: nat)
    requires poly.Valid()
    modifies poly
    ensures poly.Valid() && poly.adapter.Keys == old(poly.adapter).Keys + Both(s, v)
    ensures Equates(old(poly.Value()), s, v, poly.Value())
  {
    SameVariable(s, v);
    hide Has, Plus, Scale, EqCons, Sat, Both;
    poly.AddConstraint(EqCons(Var(s), Var(v)));
  }

  lemma FoldedBy(lib: Ppl, p: Sparse, p1: Sparse, p2: Sparse, s: nat, v1: nat, v2: nat, t: Sparse)
    requires Equates(p, s, v1, p1) && Equates(p, s, v2, p2) && IsHull(lib, p1, Identity(p1.adapter.Keys), p2, t)
    requires forall w: Valuation :: Has(p1, w) || Has(p2, w) ==> Has(t, w)
    requires LeastHull(lib) ==> forall r: Poly {:trigger Encloses(Sparse(t.adapter, r), t)} ::
               Encloses(Sparse(t.adapter, r), p1) && Encloses(Sparse(t.adapter, r), p2) ==>
                   Encloses(Sparse(t.adapter, r), t)
    ensures Folded(lib, p, s, v1, v2, t)
    ensures forall w: Valuation :: Has(p, w) && (w(s) == w(v1) || w(s) == w(v2)) ==> Has(t, w)
    ensures LeastHull(lib) ==> forall r: Poly {:trigger Encloses(Sparse(t.adapter, r), t)} ::
              EnclosesFold(Sparse(t.adapter, r), p, s, v1, v2) ==> Encloses(Sparse(t.adapter, r), t)
  {
    hide Has, IsHull, LeastHull, Encloses;
    forall r: Poly | LeastHull(lib) && EnclosesFold(Sparse(t.adapter, r), p, s, v1, v2)
      ensures Encloses(Sparse(t.adapter, r), t)
    {
      FoldParts(Sparse(t.adapter, r), p, p1, p2, s, v1, v2);
    }
  }

  // `u` contains the valuations of `p` that either variable agrees with.
  ghost predicate EnclosesFold(u: Sparse, p: Sparse, s: nat, v1: nat, v2: nat) {
    u.Ok() && p.Ok() && forall w: Valuation :: Has(p, w) && (w(s) == w(v1) || w(s) == w(v2)) ==> Has(u, w)
  }

  lemma FoldParts(u: Sparse, p: Sparse, p1: Sparse, p2: Sparse, s: nat, v1: nat, v2: nat)
    requires EnclosesFold(u, p, s, v1, v2) && p1.Ok() && p2.Ok()
    requires forall w: Valuation :: Has(p1, w) ==> Has(p, w) && w(s) == w(v1)
    requires forall w: Valuation :: Has(p2, w) ==> Has(p, w) && w(s) == w(v2)
    ensures Encloses(u, p1) && Encloses(u, p2)
  {
  }

  ghost function Both(s: nat, v: nat): set<nat> { if s == v then {} else {s, v} }

  lemma CommonVariable(keys: set<nat>, s: nat, v1: nat, v2: nat)
    ensures (keys + Both(s, v1)) * (keys + Both(s, v2)) != {} <==> keys != {} || (s != v1 && s != v2)
  {
    var both := (keys + Both(s, v1)) * (keys + Both(s, v2));
    if keys != {} {
      var g :| g in keys;
      assert g in both;
    } else if s != v1 && s != v2 {
      assert s in both;
    }
  }

  lemma SameVariable(s: nat, v: nat)
    ensures forall w: Valuation :: Sat(EqCons(Var(s), Var(v)), w) <==> w(s) == w(v)
    ensures EqCons(Var(s), Var(v)).expr.coefs.Keys == Both(s, v)
  {
    forall w: Valuation
      ensures Sat(EqCons(Var(s), Var(v)), w) <==> w(s) == w(v)
    {
      EqMeans(Var(s), Var(v), w);
      EvalVar(s, w);
      EvalVar(v, w);
    }
  }
}
