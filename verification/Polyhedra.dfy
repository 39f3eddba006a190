/**
 * The polyhedra library the sparse layer is written against, as a parameter.
 *
 * A polyhedron is its space dimension and its set of points.  Embedding,
 * intersection, constraint insertion and dimension mapping have one meaning,
 * given here as set operations; hull and extrapolation are only known to
 * contain their arguments.
 */
module Polyhedra {
  import opened LinearExpressions

  datatype Option<+T> = None | Some(value: T)

  datatype Poly = Poly(dim: nat, pts: iset<seq<real>>) {
    ghost predicate Wf() {
      && (forall x :: x in pts ==> |x| == dim)
      && Polyhedral(this)
    }
  }

  ghost predicate SatAll(cs: seq<Cons>, v: Valuation) {
    forall c :: c in cs ==> Sat(c, v)
  }

  // A constraint system whose solutions are exactly the polyhedron.
  ghost predicate Describes(cs: seq<Cons>, p: Poly) {
    && (forall c, i :: c in cs && i in c.expr.coefs ==> i < p.dim)
    && (forall x: seq<real> :: |x| == p.dim ==> (x in p.pts <==> SatAll(cs, Coord(x))))
  }

  ghost predicate Polyhedral(p: Poly) {
    exists cs :: Describes(cs, p)
  }

  // A point read as a valuation of the dimensions.
  ghost function Coord(x: seq<real>): Valuation {
    (i: nat) => if i < |x| then x[i] else 0.0
  }

  // A rational bound reached by the polyhedron.
  datatype Fraction = Fraction(num: int, den: int)

  // ----- partial functions on dimensions -----

  // The two functors that are passed to the dimension mapping: one drops
  // dimensions and closes the gaps, the other is a table with the maximum of
  // its targets (zero for an empty table).
  datatype DimMap =
    | Eliminator(victims: seq<nat>, space: nat)
    | MapHash(remap: map<nat, nat>, maxTarget: nat)
  {
    function Maps(i: nat): Option<nat> {
      match this
      case Eliminator(victims, _) =>
        if i in victims || i < CountBelow(victims, i) then None else Some(i - CountBelow(victims, i))
      case MapHash(remap, _) =>
        if i in remap then Some(remap[i]) else None
    }

    function MaxInCodomain(): int {
      match this
      case Eliminator(victims, space) => space - 1 - |victims|
      case MapHash(_, maxTarget) => maxTarget
    }

    predicate HasEmptyCodomain() {
      match this
      case Eliminator(victims, space) => space == |victims|
      case MapHash(_, _) => false
    }

    ghost predicate Wf() {
      MapHash? ==>
        && (forall i :: i in remap ==> remap[i] <= maxTarget)
        && (if remap == map[] then maxTarget == 0 else maxTarget in remap.Values)
    }
  }

  function CountBelow(victims: seq<nat>, i: nat): nat {
    if victims == [] then 0
    else (if victims[0] < i then 1 else 0) + CountBelow(victims[1..], i)
  }

  // The dimension after mapping: a zero-dimensional space is left alone, an
  // empty codomain gives dimension zero, otherwise the maximum decides.
  function TargetDim(dim: nat, f: DimMap): int {
    if dim == 0 || f.HasEmptyCodomain() then 0 else f.MaxInCodomain() + 1
  }

  // What the library asks of a mapping: injective, onto an initial segment.
  ghost predicate IsDimMap(f: DimMap, dim: nat, n: nat) {
    && (forall i: nat :: i < dim && f.Maps(i).Some? ==> f.Maps(i).value < n)
    && (forall i: nat, j: nat :: i < dim && j < dim && f.Maps(i).Some? && f.Maps(i) == f.Maps(j) ==> i == j)
    && (forall k: nat :: k < n ==> Hit(f, dim, k))
  }

  ghost predicate Hit(f: DimMap, dim: nat, k: nat) {
    exists i: nat :: i < dim && f.Maps(i) == Some(k)
  }

  // ----- meanings -----

  ghost function EmbedSpec(p: Poly, k: nat): Poly {
    Poly(p.dim + k, iset x: seq<real> | |x| == p.dim + k && x[..p.dim] in p.pts)
  }

  ghost function ConsSpec(p: Poly, c: Cons): Poly {
    Poly(p.dim, iset x: seq<real> | x in p.pts && Sat(c, Coord(x)))
  }

  ghost function MeetSpec(p: Poly, q: Poly): Poly {
    Poly(p.dim, p.pts * q.pts)
  }

  ghost predicate Carries(f: DimMap, x: seq<real>, y: seq<real>) {
    forall i: nat :: i < |x| && f.Maps(i).Some? ==> f.Maps(i).value < |y| && y[f.Maps(i).value] == x[i]
  }

  ghost function MapSpec(p: Poly, f: DimMap, n: nat): Poly {
    Poly(n, iset y: seq<real> | |y| == n && exists x :: x in p.pts && Carries(f, x, y))
  }

  ghost predicate Bounds(p: Poly, e: LinExpr, b: Fraction, above: bool) {
    && b.den > 0
    && (forall x :: x in p.pts ==>
          if above then Times(b.den, Eval(e, Coord(x))) <= b.num as real
          else Times(b.den, Eval(e, Coord(x))) >= b.num as real)
    && (exists x :: x in p.pts && Times(b.den, Eval(e, Coord(x))) == b.num as real)
  }

  // ----- the library -----

  datatype Ppl = Ppl(
    embed: (Poly, nat) -> Poly,
    addConstraint: (Poly, Cons) -> Poly,
    intersection: (Poly, Poly) -> Poly,
    mapDimensions: (Poly, DimMap) -> Poly,
    hull: (Poly, Poly) -> Poly,
    extrapolation: (Poly, Poly) -> Poly,
    isEmpty: Poly -> bool,
    equal: (Poly, Poly) -> bool,
    maximize: (Poly, LinExpr) -> Option<Fraction>,
    minimize: (Poly, LinExpr) -> Option<Fraction>,
    constraints: Poly -> seq<Cons>)
  {
    ghost predicate Lawful() {
      && (forall p: Poly, k: nat {:trigger embed(p, k)} :: p.Wf() ==> embed(p, k) == EmbedSpec(p, k))
      && (forall p: Poly, c: Cons {:trigger addConstraint(p, c)} ::
            p.Wf() && (forall i :: i in c.expr.coefs ==> i < p.dim) ==>
            addConstraint(p, c) == ConsSpec(p, c))
      && (forall p: Poly, q: Poly {:trigger intersection(p, q)} :: p.Wf() && q.Wf() && p.dim == q.dim ==>
            intersection(p, q) == MeetSpec(p, q))
      && (forall p: Poly, f: DimMap {:trigger mapDimensions(p, f)} ::
            p.Wf() && TargetDim(p.dim, f) >= 0 && IsDimMap(f, p.dim, TargetDim(p.dim, f)) ==>
            mapDimensions(p, f).Wf() && mapDimensions(p, f) == MapSpec(p, f, TargetDim(p.dim, f)))
      && (forall p: Poly, q: Poly {:trigger hull(p, q)} :: p.Wf() && q.Wf() && p.dim == q.dim ==>
            && hull(p, q).Wf() && hull(p, q).dim == p.dim
            && p.pts <= hull(p, q).pts && q.pts <= hull(p, q).pts)
      && (forall p: Poly, q: Poly {:trigger extrapolation(p, q)} ::
            p.Wf() && q.Wf() && p.dim == q.dim && q.pts <= p.pts ==>
            && extrapolation(p, q).Wf() && extrapolation(p, q).dim == p.dim
            && p.pts <= extrapolation(p, q).pts)
      && (forall p: Poly {:trigger isEmpty(p)} :: isEmpty(p) <==> p.pts == iset{})
      && (forall p: Poly, q: Poly {:trigger equal(p, q)} :: equal(p, q) <==> p == q)
      && (forall p: Poly, e: LinExpr {:trigger maximize(p, e)} ::
            p.Wf() && maximize(p, e).Some? ==> Bounds(p, e, maximize(p, e).value, true))
      && (forall p: Poly, e: LinExpr {:trigger minimize(p, e)} ::
            p.Wf() && minimize(p, e).Some? ==> Bounds(p, e, minimize(p, e).value, false))
      && (forall p: Poly {:trigger constraints(p)} :: p.Wf() ==> Describes(constraints(p), p))
    }
  }

  // The hull is the least polyhedron that contains both arguments.
  ghost predicate LeastHull(lib: Ppl) {
    forall p: Poly, q: Poly, r: Poly ::
      p.Wf() && q.Wf() && r.Wf() && p.dim == q.dim == r.dim && p.pts <= r.pts && q.pts <= r.pts ==>
          lib.hull(p, q).pts <= r.pts
  }

  // Embedding, one more constraint and intersection stay polyhedral.  That
  // projection does is part of the library's contract.

  lemma EmbedWf(p: Poly, k: nat)
    requires p.Wf()
    ensures EmbedSpec(p, k).Wf()
  {
    var cs :| Describes(cs, p);
    var q := EmbedSpec(p, k);
    forall x: seq<real> | |x| == q.dim
      ensures x in q.pts <==> SatAll(cs, Coord(x))
    {
      forall c | c in cs
        ensures Sat(c, Coord(x)) <==> Sat(c, Coord(x[..p.dim]))
      {
        EvalAgree(c.expr, Coord(x), Coord(x[..p.dim]));
      }
    }
    assert Describes(cs, q);
  }

  lemma ConsWf(p: Poly, c: Cons)
    requires p.Wf() && forall i :: i in c.expr.coefs ==> i < p.dim
    ensures ConsSpec(p, c).Wf()
  {
    var cs :| Describes(cs, p);
    assert Describes(cs + [c], ConsSpec(p, c));
  }

  lemma MeetWf(p: Poly, q: Poly)
    requires p.Wf() && q.Wf() && p.dim == q.dim
    ensures MeetSpec(p, q).Wf()
  {
    var cs :| Describes(cs, p);
    var ds :| Describes(ds, q);
    assert Describes(cs + ds, MeetSpec(p, q));
  }

  // ----- the eliminator closes the gaps, in order -----

  ghost predicate Distinct(s: seq<nat>) {
    forall i, j :: 0 <= i < j < |s| ==> s[i] != s[j]
  }

  lemma {:induction false} CountStep(victims: seq<nat>, i: nat)
    requires Distinct(victims)
    ensures CountBelow(victims, i + 1) == CountBelow(victims, i) + if i in victims then 1 else 0
  {
    if victims != [] {
      var rest := victims[1..];
      CountStep(rest, i);
      assert victims == [victims[0]] + rest;
      assert i in victims <==> i == victims[0] || i in rest;
      assert i == victims[0] ==> i !in rest;
    }
  }

  lemma {:induction false} CountBounds(victims: seq<nat>, i: nat)
    requires Distinct(victims)
    ensures CountBelow(victims, i) <= i
    decreases i
  {
    if i == 0 {
      CountNone(victims);
    } else {
      CountBounds(victims, i - 1);
      CountStep(victims, i - 1);
    }
  }

  lemma {:induction false} CountNone(victims: seq<nat>)
    ensures CountBelow(victims, 0) == 0
  {
    if victims != [] {
      CountNone(victims[1..]);
    }
  }

  lemma {:induction false} CountAll(victims: seq<nat>, dim: nat)
    requires forall k :: k in victims ==> k < dim
    ensures CountBelow(victims, dim) == |victims|
  {
    if victims != [] {
      assert victims[0] in victims;
      assert forall k :: k in victims[1..] ==> k in victims;
      CountAll(victims[1..], dim);
    }
  }

  // Survivors keep their order.
  lemma {:induction false} CountMonotone(victims: seq<nat>, i: nat, j: nat)
    requires Distinct(victims) && i <= j
    ensures i - CountBelow(victims, i) <= j - CountBelow(victims, j)
    ensures i < j && i !in victims ==> i - CountBelow(victims, i) < j - CountBelow(victims, j)
    decreases j - i
  {
    if i < j {
      CountStep(victims, i);
      CountMonotone(victims, i + 1, j);
    }
  }

  lemma {:induction false} SurvivorAt(victims: seq<nat>, m: nat, k: nat) returns (i: nat)
    requires Distinct(victims)
    requires k < m - CountBelow(victims, m)
    ensures i < m && i !in victims && i - CountBelow(victims, i) == k
    decreases m
  {
    CountBounds(victims, m);
    CountStep(victims, m - 1);
    CountBounds(victims, m - 1);
    if k < m - 1 - CountBelow(victims, m - 1) {
      i := SurvivorAt(victims, m - 1, k);
    } else {
      i := m - 1;
    }
  }

  // The eliminator is an order-preserving bijection from the dimensions that
  // survive onto the initial segment of length `dim - |victims|`.
  lemma EliminatorIsDimMap(victims: seq<nat>, dim: nat)
    requires Distinct(victims) && forall k :: k in victims ==> k < dim
    ensures |victims| <= dim
    ensures TargetDim(dim, Eliminator(victims, dim)) == dim - |victims|
    ensures IsDimMap(Eliminator(victims, dim), dim, dim - |victims|)
    ensures forall i: nat :: i < dim ==> (Eliminator(victims, dim).Maps(i).Some? <==> i !in victims)
    ensures forall i: nat, j: nat :: i < j < dim && i !in victims && j !in victims ==>
              Eliminator(victims, dim).Maps(i).value < Eliminator(victims, dim).Maps(j).value
  {
    var f := Eliminator(victims, dim);
    CountAll(victims, dim);
    CountBounds(victims, dim);
    forall i: nat | i < dim
      ensures f.Maps(i).Some? <==> i !in victims
      ensures f.Maps(i).Some? ==> f.Maps(i).value < dim - |victims|
    {
      CountBounds(victims, i);
      CountMonotone(victims, i, dim);
    }
    forall i: nat, j: nat | i < j < dim && i !in victims && j !in victims
      ensures f.Maps(i).value < f.Maps(j).value
    {
      CountMonotone(victims, i, j);
    }
    forall k: nat | k < dim - |victims|
      ensures Hit(f, dim, k)
    {
      var i := SurvivorAt(victims, dim, k);
      assert f.Maps(i) == Some(k);
    }
  }

  // The counting loop of the eliminator.
  method EliminatorMaps(victims: seq<nat>, i: nat) returns (j: Option<nat>)
    requires Distinct(victims)
    ensures j == Eliminator(victims, 0).Maps(i)
  {
    var k := 0;
    var it := 0;
    while it < |victims|
      invariant 0 <= it <= |victims|
      invariant i !in victims[..it]
      invariant k + CountBelow(victims[it..], i) == CountBelow(victims, i)
    {
      if victims[it] == i {
        return None;
      }
      if victims[it] < i {
        k := k + 1;
      }
      assert victims[it..][1..] == victims[it + 1..];
      it := it + 1;
    }
    CountBounds(victims, i);
    assert victims[..it] == victims;
    j := Some(i - k);
  }

  // The scan made when a table functor is built.
  method NewMapHash(remap: map<nat, nat>) returns (f: DimMap)
    ensures f.MapHash? && f.remap == remap && f.Wf()
  {
    var maxTarget := 0;
    var todo := remap.Keys;
    while todo != {}
      invariant todo <= remap.Keys
      invariant forall i :: i in remap && i !in todo ==> remap[i] <= maxTarget
      invariant maxTarget == 0 || maxTarget in remap.Values
      invariant remap.Keys == todo || remap != map[]
      invariant maxTarget == 0 ==> forall i :: i in remap && i !in todo ==> remap[i] == 0
      decreases todo
    {
      var i :| i in todo;
      if remap[i] > maxTarget {
        maxTarget := remap[i];
      }
      todo := todo - {i};
    }
    if remap != map[] && maxTarget == 0 {
      var i :| i in remap;
      assert remap[i] == 0;
    }
    f := MapHash(remap, maxTarget);
  }
}
