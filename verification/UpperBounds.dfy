/**
 * Which polyhedron a join or a widening is: the library's hull or
 * extrapolation of the two arguments, on the dimensions of the result.
 */
module UpperBounds {
  import opened LinearExpressions
  import opened Polyhedra
  import opened SparsePolyhedra

  // A renaming, on some of its targets only.
  ghost function Only(src: map<nat, nat>, keys: set<nat>): map<nat, nat> {
    map g | g in src && g in keys :: src[g]
  }

  // One renaming after another.
  ghost function Through(src1: map<nat, nat>, src2: map<nat, nat>): map<nat, nat>
    requires forall h :: h in src2 ==> src2[h] in src1
  {
    map h | h in src2 :: src1[src2[h]]
  }

  lemma ProjectsThrough(s: Sparse, src1: map<nat, nat>, t: Sparse, src2: map<nat, nat>, w: Valuation)
    requires s.Ok() && t.Ok() && forall h :: h in src2 ==> src2[h] in src1
    requires forall v: Valuation :: Has(t, v) <==> Projects(s, src1, v)
    ensures Projects(t, src2, w) <==> Projects(s, Through(src1, src2), w)
  {
    hide Has;
    var src := Through(src1, src2);
    if Projects(t, src2, w) {
      var v: Valuation :| Has(t, v) && Via(src2, v, w);
      var u: Valuation :| Has(s, u) && Via(src1, u, v);
      assert Via(src, u, w);
    }
    if Projects(s, src, w) {
      var u: Valuation :| Has(s, u) && Via(src, u, w);
      var v: Valuation := (g: nat) => if g in src1 then u(src1[g]) else 0.0;
      assert Via(src1, u, v) && Via(src2, v, w);
    }
  }

  // ----- a denotation on given dimensions -----

  // What `s`, read through `src`, says of the variables of `m`, as points.
  ghost function Onto(m: map<nat, nat>, n: nat, s: Sparse, src: map<nat, nat>): Poly
    requires s.Ok()
  {
    Poly(n, iset x: seq<real> | |x| == n && Projects(s, Only(src, m.Keys), ValuationOf(m, x)))
  }

  lemma OntoIs(m: map<nat, nat>, p: Poly, s: Sparse, src: map<nat, nat>)
    requires Sparse(m, p).Ok() && s.Ok()
    requires forall w: Valuation :: Has(Sparse(m, p), w) <==> Projects(s, Only(src, m.Keys), w)
    ensures p == Onto(m, p.dim, s, src)
  {
    forall x: seq<real> | |x| == p.dim
      ensures x in p.pts <==> Projects(s, Only(src, m.Keys), ValuationOf(m, x))
    {
      ValuationOfPoint(m, p.dim, x);
      assert Has(Sparse(m, p), ValuationOf(m, x)) <==> x in p.pts;
    }
    assert p.pts == Onto(m, p.dim, s, src).pts;
  }

  // Projecting and renaming first makes no difference.
  lemma OntoThrough(m: map<nat, nat>, n: nat, s: Sparse, src1: map<nat, nat>, t: Sparse, src2: map<nat, nat>,
                    src: map<nat, nat>)
    requires s.Ok() && t.Ok() && forall h :: h in src2 && h in m ==> src2[h] in src1
    requires forall v: Valuation :: Has(t, v) <==> Projects(s, src1, v)
    requires Only(src, m.Keys) == Through(src1, Only(src2, m.Keys))
    ensures Onto(m, n, t, src2) == Onto(m, n, s, src)
  {
    forall x: seq<real>
      ensures Projects(t, Only(src2, m.Keys), ValuationOf(m, x)) <==> Projects(s, Only(src, m.Keys), ValuationOf(m, x))
    {
      ProjectsThrough(s, src1, t, Only(src2, m.Keys), ValuationOf(m, x));
    }
  }

  // ----- hull and extrapolation -----

  // `u` is the library's hull of `s`, read through `src`, and `t`, over the
  // variables they share.
  ghost predicate IsHull(lib: Ppl, s: Sparse, src: map<nat, nat>, t: Sparse, u: Sparse) {
    && s.Ok() && t.Ok() && u.Ok() && u.adapter.Keys == src.Keys * t.adapter.Keys
    && Onto(u.adapter, u.poly.dim, s, src).Wf()
    && Onto(u.adapter, u.poly.dim, t, Identity(t.adapter.Keys)).Wf()
    && u.poly == lib.hull(Onto(u.adapter, u.poly.dim, s, src), Onto(u.adapter, u.poly.dim, t, Identity(t.adapter.Keys)))
  }

  // `u` is the library's extrapolation of `s` from `t`.
  ghost predicate IsExtrapolation(lib: Ppl, s: Sparse, t: Sparse, u: Sparse) {
    && s.Ok() && t.Ok() && u.Ok() && u.adapter.Keys == s.adapter.Keys * t.adapter.Keys
    && u.poly == lib.extrapolation(Onto(u.adapter, u.poly.dim, s, Identity(s.adapter.Keys)),
                                   Onto(u.adapter, u.poly.dim, t, Identity(t.adapter.Keys)))
  }

  // A hull of what was read through `src` is a hull through `src`.
  lemma HullThrough(lib: Ppl, s: Sparse, src: map<nat, nat>, p: Sparse, t: Sparse, u: Sparse)
    requires s.Ok() && p.Ok() && p.adapter.Keys == src.Keys
    requires forall w: Valuation :: Has(p, w) <==> Projects(s, src, w)
    requires IsHull(lib, p, Identity(p.adapter.Keys), t, u)
    ensures IsHull(lib, s, src, t, u)
  {
    hide Has, Projects;
    var id := Identity(p.adapter.Keys);
    assert Only(src, u.adapter.Keys) == Through(src, Only(id, u.adapter.Keys));
    OntoThrough(u.adapter, u.poly.dim, s, src, p, id, src);
  }

  // Two arguments brought onto the dimensions `m`.
  ghost predicate Brought(s: Sparse, t: Sparse, m: map<nat, nat>, p: Poly, q: Poly) {
    && s.Ok() && t.Ok() && Sparse(m, p).Ok() && Sparse(m, q).Ok() && p.dim == q.dim
    && m.Keys == s.adapter.Keys * t.adapter.Keys
    && (forall w: Valuation :: Has(Sparse(m, p), w) <==> Projects(s, Identity(m.Keys), w))
    && (forall w: Valuation :: Has(Sparse(m, q), w) <==> Projects(t, Identity(m.Keys), w))
  }

  lemma BroughtIs(s: Sparse, t: Sparse, m: map<nat, nat>, p: Poly, q: Poly)
    requires Brought(s, t, m, p, q)
    ensures p == Onto(m, p.dim, s, Identity(s.adapter.Keys)) && q == Onto(m, p.dim, t, Identity(t.adapter.Keys))
  {
    assert Only(Identity(s.adapter.Keys), m.Keys) == Identity(m.Keys);
    assert Only(Identity(t.adapter.Keys), m.Keys) == Identity(m.Keys);
    OntoIs(m, p, s, Identity(s.adapter.Keys));
    OntoIs(m, q, t, Identity(t.adapter.Keys));
  }

  lemma HullIs(lib: Ppl, s: Sparse, t: Sparse, m: map<nat, nat>, p: Poly, q: Poly)
    requires Brought(s, t, m, p, q) && Sparse(m, lib.hull(p, q)).Ok() && lib.hull(p, q).dim == p.dim
    ensures IsHull(lib, s, Identity(s.adapter.Keys), t, Sparse(m, lib.hull(p, q)))
  {
    BroughtIs(s, t, m, p, q);
  }

  lemma ExtrapolationIs(lib: Ppl, s: Sparse, t: Sparse, m: map<nat, nat>, p: Poly, q: Poly)
    requires Brought(s, t, m, p, q) && Sparse(m, lib.extrapolation(p, q)).Ok() && lib.extrapolation(p, q).dim == p.dim
    ensures IsExtrapolation(lib, s, t, Sparse(m, lib.extrapolation(p, q)))
  {
    BroughtIs(s, t, m, p, q);
  }

  // What is read through `src` of `s` lies in `c`.
  ghost predicate Contains(c: Sparse, s: Sparse, src: map<nat, nat>) {
    c.Ok() && s.Ok() && forall w: Valuation :: Projects(s, Only(src, c.adapter.Keys), w) ==> Has(c, w)
  }

  // With a least hull in the library, a hull is contained in every polyhedron
  // on its variables that contains both arguments.
  lemma HullLeast(lib: Ppl, s: Sparse, src: map<nat, nat>, t: Sparse, u: Sparse, c: Sparse)
    requires lib.Lawful() && LeastHull(lib) && IsHull(lib, s, src, t, u)
    requires c.Ok() && c.adapter.Keys <= u.adapter.Keys
    requires Contains(c, s, src) && forall w: Valuation :: Has(t, w) ==> Has(c, w)
    ensures forall w: Valuation :: Has(u, w) ==> Has(c, w)
  {
    var m, n := u.adapter, u.poly.dim;
    var r := Spread(c, m, n);
    var p, q := Onto(m, n, s, src), Onto(m, n, t, Identity(t.adapter.Keys));
    forall x | x in p.pts
      ensures x in r.pts
    {
      FewerVariables(s, src, m.Keys, c.adapter.Keys, ValuationOf(m, x));
      InSpread(c, m, n, r, x);
    }
    forall x | x in q.pts
      ensures x in r.pts
    {
      ProjectionInside(t, m.Keys, c, ValuationOf(m, x));
      InSpread(c, m, n, r, x);
    }
    assert lib.hull(p, q).pts <= r.pts;
  }

  lemma InSpread(c: Sparse, m: map<nat, nat>, n: nat, r: Poly, x: seq<real>)
    requires c.Ok() && Sparse(m, r).Ok() && r.dim == n && |x| == n
    requires forall w: Valuation :: Has(Sparse(m, r), w) <==> Has(c, w)
    requires Has(c, ValuationOf(m, x))
    ensures x in r.pts
  {
    ValuationOfPoint(m, n, x);
    assert Has(Sparse(m, r), ValuationOf(m, x));
  }

  lemma FewerVariables(s: Sparse, src: map<nat, nat>, keys: set<nat>, fewer: set<nat>, w: Valuation)
    requires s.Ok() && fewer <= keys && Projects(s, Only(src, keys), w)
    ensures Projects(s, Only(src, fewer), w)
  {
    var v: Valuation :| Has(s, v) && Via(Only(src, keys), v, w);
    forall h | h in Only(src, fewer)
      ensures w(h) == v(src[h])
    {
      assert h in Only(src, keys);
    }
    assert Via(Only(src, fewer), v, w);
  }

  lemma ProjectionInside(t: Sparse, keys: set<nat>, c: Sparse, w: Valuation)
    requires t.Ok() && c.Ok() && c.adapter.Keys <= keys && keys <= t.adapter.Keys
    requires forall v: Valuation :: Has(t, v) ==> Has(c, v)
    requires Projects(t, Only(Identity(t.adapter.Keys), keys), w)
    ensures Has(c, w)
  {
    var id := Only(Identity(t.adapter.Keys), keys);
    var v: Valuation :| Has(t, v) && Via(id, v, w);
    forall g | g in c.adapter
      ensures v(g) == w(g)
    {
      assert g in id && id[g] == g;
    }
    HasAgree(c, v, w);
  }

  // ----- the same denotation on more dimensions -----

  // The points whose valuation lies in `c`.
  ghost function SpreadSpec(c: Sparse, m: map<nat, nat>, n: nat): Poly
    requires c.Ok()
  {
    Poly(n, iset x: seq<real> | |x| == n && Has(c, ValuationOf(m, x)))
  }

  lemma Spread(c: Sparse, m: map<nat, nat>, n: nat) returns (r: Poly)
    requires c.Ok() && Bijective(m, n) && c.adapter.Keys <= m.Keys
    ensures Sparse(m, r).Ok() && r.dim == n
    ensures forall w: Valuation :: Has(Sparse(m, r), w) <==> Has(c, w)
  {
    r := SpreadSpec(c, m, n);
    SpreadWf(c, m, n);
    forall w: Valuation
      ensures Has(Sparse(m, r), w) <==> Has(c, w)
    {
      var x := PointOf(m, n, w);
      HasAgree(c, ValuationOf(m, x), w);
    }
  }

  // It satisfies the renamed constraints.
  lemma SpreadWf(c: Sparse, m: map<nat, nat>, n: nat)
    requires c.Ok() && Bijective(m, n) && c.adapter.Keys <= m.Keys
    ensures SpreadSpec(c, m, n).Wf()
  {
    var cs :| Describes(cs, c.poly);
    var ren := Dimensions(c.adapter, c.poly.dim, m, n);
    var ds := RenameAll(cs, ren, n);
    hide SatAll, Has;
    forall x: seq<real> | |x| == n
      ensures x in SpreadSpec(c, m, n).pts <==> SatAll(ds, Coord(x))
    {
      SpreadSat(c, m, n, cs, ren, ds, x);
    }
    assert Describes(ds, SpreadSpec(c, m, n));
  }

  // The new number of a dimension.
  ghost function NewDimension(a: map<nat, nat>, dim: nat, m: map<nat, nat>, i: nat): nat
    requires Bijective(a, dim) && a.Keys <= m.Keys && i < dim
  {
    m[VariableAt(a, i)]
  }

  lemma NewDimensions(a: map<nat, nat>, dim: nat, m: map<nat, nat>, n: nat, i: nat, j: nat)
    requires Bijective(a, dim) && Bijective(m, n) && a.Keys <= m.Keys && i < dim && j < dim
    ensures NewDimension(a, dim, m, i) < n
    ensures NewDimension(a, dim, m, i) == NewDimension(a, dim, m, j) ==> i == j
  {
  }

  ghost predicate Renumbers(ren: map<nat, nat>, a: map<nat, nat>, dim: nat, m: map<nat, nat>)
    requires Bijective(a, dim) && a.Keys <= m.Keys
  {
    (forall i: nat :: i in ren <==> i < dim) && forall i: nat :: i in ren ==> ren[i] == NewDimension(a, dim, m, i)
  }

  lemma Dimensions(a: map<nat, nat>, dim: nat, m: map<nat, nat>, n: nat) returns (ren: map<nat, nat>)
    requires Bijective(a, dim) && Bijective(m, n) && a.Keys <= m.Keys
    ensures Renumbers(ren, a, dim, m) && Injective(ren) && forall i :: i in ren ==> ren[i] < n
  {
    hide NewDimension, Bijective;
    ren := map i: nat | i < dim :: NewDimension(a, dim, m, i);
    forall i, j | i in ren && j in ren
      ensures ren[i] < n && (ren[i] == ren[j] ==> i == j)
    {
      NewDimensions(a, dim, m, n, i, j);
    }
  }

  lemma SpreadSat(c: Sparse, m: map<nat, nat>, n: nat, cs: seq<Cons>, ren: map<nat, nat>, ds: seq<Cons>, x: seq<real>)
    requires c.Ok() && Bijective(m, n) && c.adapter.Keys <= m.Keys && |x| == n
    requires Describes(cs, c.poly) && Renumbers(ren, c.adapter, c.poly.dim, m)
    requires forall v: Valuation, w: Valuation ::
               (forall i :: i in ren ==> w(ren[i]) == v(i)) ==> (SatAll(cs, v) <==> SatAll(ds, w))
    ensures x in SpreadSpec(c, m, n).pts <==> SatAll(ds, Coord(x))
  {
    hide SatAll;
    var y := PointOf(c.adapter, c.poly.dim, ValuationOf(m, x));
    SameCoordinates(c.adapter, c.poly.dim, m, n, x);
    hide Bijective, Injective, VariableAt;
    assert SatAll(cs, Coord(y)) <==> SatAll(ds, Coord(x));
  }

  lemma SameCoordinates(a: map<nat, nat>, dim: nat, m: map<nat, nat>, n: nat, x: seq<real>)
    requires Bijective(a, dim) && Bijective(m, n) && a.Keys <= m.Keys && |x| == n
    ensures forall i: nat :: i < dim ==>
              Coord(PointOf(a, dim, ValuationOf(m, x)))(i) == Coord(x)(m[VariableAt(a, i)])
  {
    var y := PointOf(a, dim, ValuationOf(m, x));
    forall i: nat | i < dim
      ensures Coord(y)(i) == Coord(x)(m[VariableAt(a, i)])
    {
      var g := VariableAt(a, i);
      assert y[a[g]] == ValuationOf(m, x)(g);
    }
  }

  lemma {:induction false} RenameAll(cs: seq<Cons>, ren: map<nat, nat>, n: nat) returns (ds: seq<Cons>)
    requires Injective(ren) && (forall i :: i in ren ==> ren[i] < n)
    requires forall c, i :: c in cs && i in c.expr.coefs ==> i in ren
    ensures forall d, i :: d in ds && i in d.expr.coefs ==> i < n
    ensures forall v: Valuation, w: Valuation ::
              (forall i :: i in ren ==> w(ren[i]) == v(i)) ==> (SatAll(cs, v) <==> SatAll(ds, w))
  {
    if cs == [] {
      ds := [];
    } else {
      var c := cs[0];
      var coefs := RenameTerms(c.expr.coefs, ren);
      var d := Cons(LinExpr(coefs, c.expr.cst), c.equality);
      RenamingOnto(c.expr.coefs, ren, coefs);
      var rest := RenameAll(cs[1..], ren, n);
      ds := [d] + rest;
      assert cs == [c] + cs[1..];
      forall v: Valuation, w: Valuation | forall i :: i in ren ==> w(ren[i]) == v(i)
        ensures SatAll(cs, v) <==> SatAll(ds, w)
      {
        SumRenamed(c.expr.coefs, ren, coefs, v, w);
        assert Sat(c, v) <==> Sat(d, w);
        assert SatAll(cs, v) <==> Sat(c, v) && SatAll(cs[1..], v);
        assert SatAll(ds, w) <==> Sat(d, w) && SatAll(rest, w);
      }
    }
  }

  lemma {:induction false} RenameTerms(c: map<nat, int>, ren: map<nat, nat>) returns (d: map<nat, int>)
    requires Injective(ren) && c.Keys <= ren.Keys
    ensures IsRenaming(c, ren, d)
    decreases |c|
  {
    if c == map[] {
      d := map[];
    } else {
      var k :| k in c;
      var fewer := c - {k};
      TermPutBack(c, k);
      var rest := RenameTerms(fewer, ren);
      hide IsRenaming;
      RenamingInsert(fewer, ren, rest, k, c[k], ren);
      d := rest[ren[k] := c[k]];
    }
  }
  lemma TermPutBack(c: map<nat, int>, k: nat)
    requires k in c
    ensures c == (c - {k})[k := c[k]] && |c - {k}| < |c|
  {
  }
}
