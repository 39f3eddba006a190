/**
 * What an abstract state means for the program: the environments (values of
 * the identifiers) that some element of its polyhedron agrees with.
 */
module AbstractStates {
  import opened LinearExpressions
  import opened Polyhedra
  import opened SparsePolyhedra
  import opened Mappings

  type Env = Ident -> int

  datatype AState = AState(poly: Sparse, idmap: map<Ident, IdVal>)

  ghost predicate Represents(m: map<Ident, IdVal>, v: Valuation, env: Env) {
    forall id :: id in m ==> v(m[id].g) == env(id) as real
  }

  // The concretisation.
  ghost predicate Gamma(s: AState, env: Env)
    requires s.poly.Ok()
  {
    exists v: Valuation :: Has(s.poly, v) && Represents(s.idmap, v, env)
  }

  // `env2` is `env1` with `x` at `id`.
  ghost predicate Assigned(env1: Env, id: Ident, x: int, env2: Env) {
    forall i :: env2(i) == if i == id then x else env1(i)
  }

  // Distinct identifiers have distinct variables.
  ghost predicate Separate(m: map<Ident, IdVal>) {
    forall i, j :: i in m && j in m && m[i].g == m[j].g ==> i == j
  }

  ghost predicate Unmapped(m: map<Ident, IdVal>, g: nat) {
    forall i :: i in m ==> m[i].g != g
  }

  ghost function Update(v: Valuation, g: nat, x: real): Valuation {
    (h: nat) => if h == g then x else v(h)
  }

  // Fewer identifiers and a larger polyhedron cover more.
  lemma GammaMonotone(s: AState, t: AState, env: Env)
    requires s.poly.Ok() && t.poly.Ok()
    requires Submap(t.idmap, s.idmap)
    requires forall v: Valuation :: Has(s.poly, v) ==> Has(t.poly, v)
    requires Gamma(s, env)
    ensures Gamma(t, env)
  {
    var v: Valuation :| Has(s.poly, v) && Represents(s.idmap, v, env);
    assert Represents(t.idmap, v, env);
  }

  ghost predicate Empty(s: AState)
    requires s.poly.Ok()
  {
    forall v: Valuation :: !Has(s.poly, v)
  }

  lemma NothingCovered(s: AState)
    requires s.poly.Ok()
    requires Empty(s)
    ensures forall env :: !Gamma(s, env)
  {
  }

  // An environment that differs on unmapped identifiers only is covered too.
  lemma GammaAgree(s: AState, env1: Env, env2: Env)
    requires s.poly.Ok()
    requires forall id :: id in s.idmap ==> env1(id) == env2(id)
    requires Gamma(s, env1)
    ensures Gamma(s, env2)
  {
    var v: Valuation :| Has(s.poly, v) && Represents(s.idmap, v, env1);
    assert Represents(s.idmap, v, env2);
  }

  // Mapping `id` to a fresh variable and constraining it: the new state covers
  // every assignment whose value meets the constraint.
  lemma AssignSound(s: AState, t: AState, id: Ident, g: nat, c: Cons, env1: Env, x: int, env2: Env)
    requires s.poly.Ok() && t.poly.Ok()
    requires g !in s.poly.adapter && Unmapped(s.idmap, g)
    requires t.idmap == s.idmap[id := IdVal(g, NO_STEP)]
    requires forall v: Valuation :: Has(t.poly, v) <==> Has(s.poly, v) && Sat(c, v)
    requires forall v: Valuation :: Has(s.poly, v) && Represents(s.idmap, v, env1) ==> Sat(c, Update(v, g, x as real))
    requires Gamma(s, env1) && Assigned(env1, id, x, env2)
    ensures Gamma(t, env2)
  {
    var v: Valuation :| Has(s.poly, v) && Represents(s.idmap, v, env1);
    var w := Update(v, g, x as real);
    HasAgree(s.poly, v, w);
    forall i | i in t.idmap
      ensures w(t.idmap[i].g) == env2(i) as real
    {
    }
    assert Has(t.poly, w) && Represents(t.idmap, w, env2);
  }

  // Mapping `id` to a fresh variable and saying nothing about it covers every
  // value.
  lemma FreshSound(s: AState, t: AState, id: Ident, g: nat, env1: Env, x: int, env2: Env)
    requires s.poly.Ok() && t.poly.Ok()
    requires g !in s.poly.adapter && Unmapped(s.idmap, g)
    requires t.idmap == s.idmap[id := IdVal(g, NO_STEP)] && t.poly == s.poly
    requires Gamma(s, env1) && Assigned(env1, id, x, env2)
    ensures Gamma(t, env2)
  {
    var c := Cons(Constant(0), true);
    forall v: Valuation
      ensures Sat(c, v)
    {
      EvalConstant(0, v);
    }
    AssignSound(s, t, id, g, c, env1, x, env2);
  }

  // Projecting out the variable of `id` covers every value of `id`.
  lemma ScratchSound(s: AState, t: AState, id: Ident, env1: Env, x: int, env2: Env)
    requires s.poly.Ok() && t.poly.Ok() && Separate(s.idmap)
    requires id in s.idmap && t.idmap == s.idmap
    requires forall w: Valuation :: Has(t.poly, w) <==>
              Projects(s.poly, Identity(s.poly.adapter.Keys - {s.idmap[id].g}), w)
    requires Gamma(s, env1) && Assigned(env1, id, x, env2)
    ensures Gamma(t, env2)
  {
    var v: Valuation :| Has(s.poly, v) && Represents(s.idmap, v, env1);
    var w := Update(v, s.idmap[id].g, x as real);
    assert Via(Identity(s.poly.adapter.Keys - {s.idmap[id].g}), v, w);
    assert Has(t.poly, w) && Represents(t.idmap, w, env2);
  }

  // Projecting out one variable that no identifier uses changes nothing.
  lemma ProjectExact(s: AState, t: AState, g: nat, env: Env)
    requires s.poly.Ok() && t.poly.Ok() && t.idmap == s.idmap
    requires forall w: Valuation :: Has(t.poly, w) <==> Projects(s.poly, Identity(s.poly.adapter.Keys - {g}), w)
    ensures Gamma(s, env) ==> Gamma(t, env)
    ensures Unmapped(s.idmap, g) && Gamma(t, env) ==> Gamma(s, env)
  {
    var id := Identity(s.poly.adapter.Keys - {g});
    if Gamma(s, env) {
      var v: Valuation :| Has(s.poly, v) && Represents(s.idmap, v, env);
      assert Via(id, v, v);
      assert Has(t.poly, v);
    }
    if Unmapped(s.idmap, g) && Gamma(t, env) {
      var w: Valuation :| Has(t.poly, w) && Represents(t.idmap, w, env);
      var v: Valuation :| Has(s.poly, v) && Via(id, v, w);
      var u := Update(w, g, v(g));
      forall h | h in s.poly.adapter
        ensures u(h) == v(h)
      {
        if h != g {
          assert h in id && id[h] == h;
        }
      }
      HasAgree(s.poly, u, v);
      assert Represents(s.idmap, u, env);
    }
  }

  // Filtering by a constraint keeps the environments that meet it.
  lemma FilterSound(s: AState, t: AState, c: Cons, env: Env)
    requires s.poly.Ok() && t.poly.Ok() && t.idmap == s.idmap
    requires forall v: Valuation :: Has(t.poly, v) <==> Has(s.poly, v) && Sat(c, v)
    requires forall v: Valuation :: Has(s.poly, v) && Represents(s.idmap, v, env) ==> Sat(c, v)
    requires Gamma(s, env)
    ensures Gamma(t, env)
  {
    var v: Valuation :| Has(s.poly, v) && Represents(s.idmap, v, env);
    assert Has(t.poly, v) && Represents(t.idmap, v, env);
  }

  // Renaming: the identifiers that survive keep their values.
  lemma RenameSound(s: AState, t: AState, src: map<nat, nat>, env: Env)
    requires s.poly.Ok() && t.poly.Ok()
    requires forall w: Valuation :: Has(t.poly, w) <==> Projects(s.poly, src, w)
    requires forall id :: id in t.idmap ==> id in s.idmap
    requires forall id :: id in t.idmap ==>
               if t.idmap[id].g in src then src[t.idmap[id].g] == s.idmap[id].g
               else s.idmap[id].g !in s.poly.adapter
    requires Separate(t.idmap)
    requires Gamma(s, env)
    ensures Gamma(t, env)
  {
    var v: Valuation :| Has(s.poly, v) && Represents(s.idmap, v, env);
    var w := Renamed(src, t.idmap, v, env);
    forall id | id in t.idmap
      ensures w(t.idmap[id].g) == env(id) as real
    {
      ValueOfMapped(t.idmap, id, env);
    }
    assert Via(src, v, w);
    assert Has(t.poly, w) && Represents(t.idmap, w, env);
  }

  // When every identifier survives, renaming adds nothing either.
  lemma RenameExact(s: AState, t: AState, src: map<nat, nat>, env: Env)
    requires s.poly.Ok() && t.poly.Ok() && t.idmap.Keys == s.idmap.Keys
    requires forall w: Valuation :: Has(t.poly, w) <==> Projects(s.poly, src, w)
    requires forall id :: id in t.idmap ==>
               if t.idmap[id].g in src then src[t.idmap[id].g] == s.idmap[id].g
               else s.idmap[id].g !in s.poly.adapter
    requires Separate(s.idmap)
    requires Gamma(t, env)
    ensures Gamma(s, env)
  {
    var w: Valuation :| Has(t.poly, w) && Represents(t.idmap, w, env);
    var v: Valuation :| Has(s.poly, v) && Via(src, v, w);
    var u := Completed(s, v, env);
    HasAgree(s.poly, v, u);
    forall id | id in s.idmap
      ensures u(s.idmap[id].g) == env(id) as real
    {
      ValueOfMapped(s.idmap, id, env);
      if s.idmap[id].g in s.poly.adapter {
        assert id in t.idmap;
        assert w(t.idmap[id].g) == v(src[t.idmap[id].g]);
      }
    }
    assert Represents(s.idmap, u, env);
  }

  // `v` on the tracked variables, the identifiers' values elsewhere.
  ghost function Completed(s: AState, v: Valuation, env: Env): Valuation {
    (g: nat) => if g in s.poly.adapter then v(g) else ValueOf(s.idmap, g, env)
  }

  ghost function Renamed(src: map<nat, nat>, m: map<Ident, IdVal>, v: Valuation, env: Env): Valuation {
    (h: nat) => if h in src then v(src[h]) else ValueOf(m, h, env)
  }

  // The value of the identifier that a variable stands for.
  ghost function ValueOf(m: map<Ident, IdVal>, g: nat, env: Env): real {
    if exists id :: id in m && m[id].g == g then
      var id :| id in m && m[id].g == g;
      env(id) as real
    else 0.0
  }

  lemma ValueOfMapped(m: map<Ident, IdVal>, id: Ident, env: Env)
    requires Separate(m) && id in m
    ensures ValueOf(m, m[id].g, env) == env(id) as real
  {
  }

  // ----- known constants -----

  // The value a variable is pinned to: its maximum and its minimum exist and
  // are the same fraction.  An untracked variable has neither.
  function GetConstant(lib: Ppl, s: Sparse, g: nat): Option<Fraction> {
    if g !in s.adapter then None
    else
      var e := Var(s.adapter[g]);
      match (lib.maximize(s.poly, e), lib.minimize(s.poly, e))
      case (Some(hi), Some(lo)) => if hi == lo then Some(hi) else None
      case _ => None
  }

  lemma BoundMeans(lib: Ppl, s: Sparse, g: nat, b: Fraction, above: bool, v: Valuation)
    requires lib.Lawful() && s.Ok() && g in s.adapter
    requires Bounds(s.poly, Var(s.adapter[g]), b, above)
    requires Has(s, v)
    ensures b.den > 0
    ensures above ==> Times(b.den, v(g)) <= b.num as real
    ensures !above ==> Times(b.den, v(g)) >= b.num as real
  {
    var x := PointOf(s.adapter, s.poly.dim, v);
    EvalVar(s.adapter[g], Coord(x));
  }

  lemma ConstantMeans(lib: Ppl, s: Sparse, g: nat, v: Valuation)
    requires lib.Lawful() && s.Ok() && Has(s, v)
    ensures GetConstant(lib, s, g).Some? ==>
              GetConstant(lib, s, g).value.den > 0
              && Times(GetConstant(lib, s, g).value.den, v(g)) == GetConstant(lib, s, g).value.num as real
  {
    if GetConstant(lib, s, g).Some? {
      var b := GetConstant(lib, s, g).value;
      BoundMeans(lib, s, g, b, true, v);
      BoundMeans(lib, s, g, b, false, v);
    }
  }

  // In every element the variable has the value of the fraction.
  ghost predicate Fixed(s: Sparse, g: nat, f: Fraction)
    requires s.Ok()
  {
    f.den > 0 && forall v: Valuation :: Has(s, v) ==> Times(f.den, v(g)) == f.num as real
  }

  // The library reports one extremum where the two coincide.
  ghost predicate FindsFractions(lib: Ppl) {
    forall p: Poly, e: LinExpr, f: Fraction {:trigger Bounds(p, e, f, true), Bounds(p, e, f, false)} ::
      p.Wf() && Bounds(p, e, f, true) && Bounds(p, e, f, false) ==>
        lib.maximize(p, e).Some? && lib.maximize(p, e) == lib.minimize(p, e)
  }

  // So a variable with one value, whole or not, is found to be a constant.
  lemma ConstantFound(lib: Ppl, s: Sparse, g: nat, f: Fraction)
    requires FindsFractions(lib) && s.Ok() && s.poly.pts != iset{} && g in s.adapter && Fixed(s, g, f)
    ensures GetConstant(lib, s, g).Some?
  {
    var e := Var(s.adapter[g]);
    forall x | x in s.poly.pts
      ensures Times(f.den, Eval(e, Coord(x))) == f.num as real
    {
      ValuationOfPoint(s.adapter, s.poly.dim, x);
      assert Has(s, ValuationOf(s.adapter, x));
      EvalVar(s.adapter[g], Coord(x));
    }
    var x :| x in s.poly.pts;
    assert Bounds(s.poly, e, f, true) && Bounds(s.poly, e, f, false);
  }

  // ----- identifiers with one value -----

  // In every element of the state the identifier has the value `n`.
  ghost predicate Pinned(s: AState, id: Ident, n: int)
    requires s.poly.Ok()
  {
    id in s.idmap && forall v: Valuation :: Has(s.poly, v) ==> v(s.idmap[id].g) == n as real
  }

  ghost predicate PinnedBy(s: AState, m: map<Ident, int>) {
    s.poly.Ok() && (Empty(s) || forall id :: id in m ==> Pinned(s, id, m[id]))
  }

  // `t` has fewer elements, and only `id` has another variable.
  ghost predicate Narrowed(s: AState, t: AState, id: Ident) {
    && s.poly.Ok() && t.poly.Ok()
    && (forall v: Valuation :: Has(t.poly, v) ==> Has(s.poly, v))
    && (forall i :: i in s.idmap && i != id ==> i in t.idmap && t.idmap[i] == s.idmap[i])
  }

  lemma NarrowedPins(s: AState, t: AState, id: Ident, m: map<Ident, int>)
    requires Narrowed(s, t, id) && PinnedBy(s, m)
    ensures PinnedBy(t, m - {id})
  {
  }

  lemma NarrowedPinsMore(s: AState, t: AState, id: Ident, m: map<Ident, int>, n: int)
    requires Narrowed(s, t, id) && PinnedBy(s, m) && Pinned(t, id, n)
    ensures PinnedBy(t, m[id := n])
  {
  }

  // Projecting out another variable keeps the value.
  lemma ProjectedPin(s: AState, t: AState, g: nat, id: Ident, n: int)
    requires s.poly.Ok() && t.poly.Ok() && t.idmap == s.idmap && Pinned(s, id, n) && s.idmap[id].g != g
    requires forall w: Valuation :: Has(t.poly, w) <==> Projects(s.poly, Identity(s.poly.adapter.Keys - {g}), w)
    ensures Pinned(t, id, n)
  {
    var src := Identity(s.poly.adapter.Keys - {g});
    forall w: Valuation | Has(t.poly, w)
      ensures w(t.idmap[id].g) == n as real
    {
      var v: Valuation :| Has(s.poly, v) && Via(src, v, w);
      var u := Update(w, g, v(g));
      forall h | h in s.poly.adapter
        ensures u(h) == v(h)
      {
        if h != g {
          assert h in src && src[h] == h;
        }
      }
      HasAgree(s.poly, u, v);
    }
  }

  // What the library reports of a constant: its extrema, in lowest terms.
  ghost predicate FindsConstants(lib: Ppl) {
    forall p: Poly, e: LinExpr, n: int {:trigger Constantly(p, e, n)} ::
      p.Wf() && p.pts != iset{} && Constantly(p, e, n) ==>
        lib.maximize(p, e) == Some(Fraction(n, 1)) && lib.minimize(p, e) == Some(Fraction(n, 1))
  }

  ghost predicate Constantly(p: Poly, e: LinExpr, n: int) {
    forall x :: x in p.pts ==> Eval(e, Coord(x)) == n as real
  }

  lemma PinnedIsTracked(s: AState, id: Ident, n: int)
    requires s.poly.Ok() && !Empty(s) && Pinned(s, id, n)
    ensures s.idmap[id].g in s.poly.adapter
  {
    var g := s.idmap[id].g;
    if g !in s.poly.adapter {
      var v: Valuation :| Has(s.poly, v);
      HasAgree(s.poly, v, Update(v, g, n as real + 1.0));
    }
  }

  // So a pinned identifier is a known constant.
  lemma PinnedIsKnown(lib: Ppl, s: AState, id: Ident, n: int)
    requires FindsConstants(lib) && s.poly.Ok() && !Empty(s) && Pinned(s, id, n)
    ensures GetConstant(lib, s.poly, s.idmap[id].g) == Some(Fraction(n, 1))
  {
    var g := s.idmap[id].g;
    PinnedIsTracked(s, id, n);
    var e := Var(s.poly.adapter[g]);
    forall x | x in s.poly.poly.pts
      ensures Eval(e, Coord(x)) == n as real
    {
      ValuationOfPoint(s.poly.adapter, s.poly.poly.dim, x);
      assert Has(s.poly, ValuationOf(s.poly.adapter, x));
      EvalVar(s.poly.adapter[g], Coord(x));
    }
    assert Constantly(s.poly.poly, e, n);
    EmptyHasNothing(s.poly);
  }
}
