/**
 * What a sparse polyhedron means: a set of total valuations of the globally
 * numbered variables, of which only the tracked ones are constrained.
 */
module SparsePolyhedra {
  import opened LinearExpressions
  import opened Polyhedra

  // `adapter` sends each tracked variable to a dimension of `poly`.
  datatype Sparse = Sparse(adapter: map<nat, nat>, poly: Poly) {
    // The adapter is a bijection from the tracked variables onto 0..dim-1.
    ghost predicate Ok() {
      && poly.Wf()
      && Bijective(adapter, poly.dim)
    }
  }

  ghost predicate Bijective(m: map<nat, nat>, n: nat) {
    && Injective(m)
    && (forall g :: g in m ==> m[g] < n)
    && (forall i: nat :: i < n ==> i in m.Values)
  }

  ghost predicate Injective(m: map<nat, nat>) {
    forall g, h :: g in m && h in m && m[g] == m[h] ==> g == h
  }

  ghost function VariableAt(m: map<nat, nat>, i: nat): (g: nat)
    requires i in m.Values
    ensures g in m && m[g] == i
  {
    var g :| g in m && m[g] == i;
    g
  }

  // The dense point a valuation projects to.
  ghost function PointOf(m: map<nat, nat>, n: nat, v: Valuation): (x: seq<real>)
    requires Bijective(m, n)
    ensures |x| == n
    ensures forall g :: g in m ==> x[m[g]] == v(g)
  {
    var x := seq(n, i requires 0 <= i < n => v(VariableAt(m, i)));
    assert forall g :: g in m ==> VariableAt(m, m[g]) == g;
    x
  }

  // The denotation.
  ghost predicate Has(s: Sparse, v: Valuation)
    requires s.Ok()
  {
    PointOf(s.adapter, s.poly.dim, v) in s.poly.pts
  }

  // `v` read through the renaming `src` (new variable to old) is `w`.
  ghost predicate Via(src: map<nat, nat>, v: Valuation, w: Valuation) {
    forall h :: h in src ==> w(h) == v(src[h])
  }

  // `w` is a projection of some element, after renaming along `src`.
  ghost predicate Projects(s: Sparse, src: map<nat, nat>, w: Valuation)
    requires s.Ok()
  {
    exists v: Valuation :: Has(s, v) && Via(src, v, w)
  }

  ghost function Identity(keys: set<nat>): map<nat, nat> {
    map g | g in keys :: g
  }

  // ----- points and valuations -----

  lemma PointUnique(m: map<nat, nat>, n: nat, x: seq<real>, v: Valuation)
    requires Bijective(m, n) && |x| == n
    requires forall g :: g in m ==> x[m[g]] == v(g)
    ensures x == PointOf(m, n, v)
  {
    forall i: nat | i < n
      ensures x[i] == PointOf(m, n, v)[i]
    {
      var g := VariableAt(m, i);
    }
  }

  ghost function ValuationOf(m: map<nat, nat>, x: seq<real>): Valuation {
    (g: nat) => if g in m && m[g] < |x| then x[m[g]] else 0.0
  }

  lemma ValuationOfPoint(m: map<nat, nat>, n: nat, x: seq<real>)
    requires Bijective(m, n) && |x| == n
    ensures PointOf(m, n, ValuationOf(m, x)) == x
  {
    PointUnique(m, n, x, ValuationOf(m, x));
  }

  // Untracked variables are unconstrained.
  lemma HasAgree(s: Sparse, v: Valuation, w: Valuation)
    requires s.Ok()
    requires forall g :: g in s.adapter ==> v(g) == w(g)
    ensures Has(s, v) <==> Has(s, w)
  {
    PointUnique(s.adapter, s.poly.dim, PointOf(s.adapter, s.poly.dim, v), w);
  }

  lemma EmptyHasNothing(s: Sparse)
    requires s.Ok()
    ensures s.poly.pts == iset{} <==> forall v: Valuation :: !Has(s, v)
  {
    if s.poly.pts != iset{} {
      var x :| x in s.poly.pts;
      ValuationOfPoint(s.adapter, s.poly.dim, x);
      assert Has(s, ValuationOf(s.adapter, x));
    }
  }

  // ----- adding dimensions -----

  lemma EmbedMeaning(s: Sparse, t: Sparse, k: nat, v: Valuation)
    requires s.Ok() && t.Ok()
    requires t.poly == EmbedSpec(s.poly, k)
    requires forall g :: g in s.adapter ==> g in t.adapter && t.adapter[g] == s.adapter[g]
    ensures Has(t, v) <==> Has(s, v)
  {
    var y := PointOf(t.adapter, t.poly.dim, v);
    PointUnique(s.adapter, s.poly.dim, y[..s.poly.dim], v);
  }

  // ----- one constraint -----

  lemma ConsMeaning(s: Sparse, c: Cons, d: Cons, v: Valuation)
    requires s.Ok()
    requires c.expr.coefs.Keys <= s.adapter.Keys
    requires IsRenaming(c.expr.coefs, s.adapter, d.expr.coefs)
    requires d.expr.cst == c.expr.cst && d.equality == c.equality
    requires Sparse(s.adapter, ConsSpec(s.poly, d)).Ok()
    ensures Has(Sparse(s.adapter, ConsSpec(s.poly, d)), v) <==> Has(s, v) && Sat(c, v)
  {
    var x := PointOf(s.adapter, s.poly.dim, v);
    SumRenamed(c.expr.coefs, s.adapter, d.expr.coefs, v, Coord(x));
  }

  lemma RenamingInRange(c: map<nat, int>, m: map<nat, nat>, d: map<nat, int>, n: nat)
    requires IsRenaming(c, m, d)
    requires forall g :: g in m ==> m[g] < n
    ensures forall i :: i in d ==> i < n
  {
    RenamingOnto(c, m, d);
  }

  // ----- dimension mapping -----

  // The new adapter reads the old one through `src` and the dimension map.
  ghost predicate MappedBy(s: Sparse, src: map<nat, nat>, f: DimMap, t: Sparse) {
    && s.Ok() && t.Ok()
    && t.poly == MapSpec(s.poly, f, t.poly.dim)
    && t.adapter.Keys == src.Keys
    && (forall h :: h in src ==> src[h] in s.adapter && f.Maps(s.adapter[src[h]]) == Some(t.adapter[h]))
  }

  lemma MapForward(s: Sparse, src: map<nat, nat>, f: DimMap, t: Sparse, w: Valuation)
    requires MappedBy(s, src, f, t)
    requires Has(t, w)
    ensures Projects(s, src, w)
  {
    var y := PointOf(t.adapter, t.poly.dim, w);
    var x :| x in s.poly.pts && Carries(f, x, y);
    var v := ValuationOf(s.adapter, x);
    ValuationOfPoint(s.adapter, s.poly.dim, x);
    assert Has(s, v);
    forall h | h in src
      ensures w(h) == v(src[h])
    {
      var i := s.adapter[src[h]];
      assert f.Maps(i) == Some(t.adapter[h]);
      assert y[t.adapter[h]] == x[i];
    }
    assert Via(src, v, w);
  }

  lemma MapBackward(s: Sparse, src: map<nat, nat>, f: DimMap, t: Sparse, w: Valuation)
    requires MappedBy(s, src, f, t) && IsDimMap(f, s.poly.dim, t.poly.dim)
    requires Projects(s, src, w)
    ensures Has(t, w)
  {
    var y := PointOf(t.adapter, t.poly.dim, w);
    var v: Valuation :| Has(s, v) && Via(src, v, w);
    var x := PointOf(s.adapter, s.poly.dim, v);
    forall i: nat | i < |x| && f.Maps(i).Some?
      ensures f.Maps(i).value < |y| && y[f.Maps(i).value] == x[i]
    {
      var h := VariableAt(t.adapter, f.Maps(i).value);
      var j := s.adapter[src[h]];
      assert f.Maps(j) == f.Maps(i);
      assert w(h) == v(src[h]);
    }
    assert Carries(f, x, y);
  }

  // Mapping the dimensions is projection followed by renaming.
  lemma MapMeaning(s: Sparse, src: map<nat, nat>, f: DimMap, t: Sparse, w: Valuation)
    requires MappedBy(s, src, f, t) && IsDimMap(f, s.poly.dim, t.poly.dim)
    ensures Has(t, w) <==> Projects(s, src, w)
  {
    if Has(t, w) {
      MapForward(s, src, f, t, w);
    }
    if Projects(s, src, w) {
      MapBackward(s, src, f, t, w);
    }
  }

  // A permutation of the dimensions changes nothing.
  lemma ProjectAll(s: Sparse, w: Valuation)
    requires s.Ok()
    ensures Projects(s, Identity(s.adapter.Keys), w) <==> Has(s, w)
  {
    var id := Identity(s.adapter.Keys);
    if Projects(s, id, w) {
      var v: Valuation :| Has(s, v) && Via(id, v, w);
      forall g | g in s.adapter
        ensures v(g) == w(g)
      {
        assert id[g] == g;
      }
      HasAgree(s, v, w);
    }
    if Has(s, w) {
      assert Via(id, w, w);
    }
  }

  // Projection loses no element.
  lemma ProjectMeaning(s: Sparse, keys: set<nat>, w: Valuation)
    requires s.Ok()
    ensures Has(s, w) ==> Projects(s, Identity(keys), w)
  {
    assert Has(s, w) ==> Via(Identity(keys), w, w);
  }

  // ----- intersection and upper bounds, on a common adapter -----

  lemma MeetMeaning(m: map<nat, nat>, p: Poly, q: Poly, v: Valuation)
    requires Sparse(m, p).Ok() && Sparse(m, q).Ok() && p.dim == q.dim
    requires Sparse(m, MeetSpec(p, q)).Ok()
    ensures Has(Sparse(m, MeetSpec(p, q)), v) <==> Has(Sparse(m, p), v) && Has(Sparse(m, q), v)
  {
  }

  lemma SubsetMeaning(m: map<nat, nat>, p: Poly, q: Poly)
    requires Sparse(m, p).Ok() && Sparse(m, q).Ok() && p.dim == q.dim
    ensures p.pts <= q.pts <==> forall v: Valuation :: Has(Sparse(m, p), v) ==> Has(Sparse(m, q), v)
  {
    if forall v: Valuation :: Has(Sparse(m, p), v) ==> Has(Sparse(m, q), v) {
      forall x | x in p.pts
        ensures x in q.pts
      {
        ValuationOfPoint(m, p.dim, x);
        assert Has(Sparse(m, p), ValuationOf(m, x));
      }
    }
  }

  // Two polyhedra on a common adapter are equal exactly when the denotations
  // they stand for are.
  lemma EqualMeaning(m: map<nat, nat>, p: Poly, q: Poly, s: Sparse, t: Sparse)
    requires Sparse(m, p).Ok() && Sparse(m, q).Ok() && p.dim == q.dim && s.Ok() && t.Ok()
    requires forall v: Valuation :: Has(Sparse(m, p), v) <==> Has(s, v)
    requires forall v: Valuation :: Has(Sparse(m, q), v) <==> Has(t, v)
    ensures p == q <==> forall v: Valuation :: Has(s, v) <==> Has(t, v)
  {
    SubsetMeaning(m, p, q);
    SubsetMeaning(m, q, p);
    if forall v: Valuation :: Has(s, v) <==> Has(t, v) {
      assert forall v: Valuation :: Has(Sparse(m, p), v) <==> Has(Sparse(m, q), v);
      assert p.pts == q.pts;
    }
  }
}
