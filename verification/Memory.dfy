/**
 * Weak update of an abstract memory cell: the cell may have taken the new
 * value or kept the old one, and both outcomes stay covered.
 */
module Memory {
  import opened LinearExpressions
  import opened Polyhedra
  import opened SparsePolyhedra
  import opened UpperBounds
  import opened WPolys
  import opened Mappings
  import opened AbstractStates
  import opened Instructions
  import opened Transfers
  import opened Domains

  // The identifiers of cell `k`: base address, count, and either one value or
  // an upper and a lower "avatar" of it.
  function Addr(k: int): Ident { Ident(k, ID_MEM_ADDR) }
  function Count(k: int): Ident { Ident(k, ID_MEM_COUNT) }
  function Val(k: int): Ident { Ident(k, ID_MEM_VAL) }
  function ValPlus(k: int): Ident { Ident(k, ID_MEM_VAL_PLUS) }
  function ValMinus(k: int): Ident { Ident(k, ID_MEM_VAL_MINUS) }

  function CellIds(k: int): set<Ident> {
    {Addr(k), Count(k), Val(k), ValPlus(k), ValMinus(k)}
  }

  // Cell `k` is present, in one of its two forms.
  predicate HasCell(m: map<Ident, IdVal>, k: int) {
    && Addr(k) in m && m[Addr(k)].s != NO_STEP
    && Count(k) in m && m[Count(k)].s == NO_STEP
    && (if Avatar(m, k) then ValPlus(k) in m && ValMinus(k) in m else ValPlus(k) !in m && ValMinus(k) !in m)
  }

  predicate Avatar(m: map<Ident, IdVal>, k: int) { Val(k) !in m }

  // No identifier of cell `k` is in use yet.
  predicate NoCell(m: map<Ident, IdVal>, k: int) {
    forall id :: id in CellIds(k) ==> id !in m
  }

  // The mapping once cell `k` has been replaced by the plain cell `n`, with
  // the three variables from `g` on.
  function Replaced(m: map<Ident, IdVal>, k: int, n: int, g: nat): map<Ident, IdVal>
    requires Addr(k) in m
  {
    WithCell(m, n, m[Addr(k)].s, g) - CellIds(k)
  }

  // The variables of a cell's value, and of the whole cell.
  ghost function ValueVars(m: map<Ident, IdVal>, k: int): seq<nat>
    requires if Avatar(m, k) then ValPlus(k) in m && ValMinus(k) in m else true
  {
    if Avatar(m, k) then [m[ValPlus(k)].g, m[ValMinus(k)].g] else [m[Val(k)].g]
  }

  ghost function VarsOf(m: map<Ident, IdVal>, k: int): seq<nat>
    requires HasCell(m, k)
  {
    [m[Addr(k)].g, m[Count(k)].g] + ValueVars(m, k)
  }

  method KillValues(d: PPLDomain, k: int)
    requires d.Valid()
    requires if Avatar(d.idmap, k) then ValPlus(k) in d.idmap && ValMinus(k) in d.idmap
             else ValPlus(k) !in d.idmap && ValMinus(k) !in d.idmap
    modifies d`idmap, d`victims
    ensures d.Valid() && d.idmap == old(d.idmap) - {Val(k), ValPlus(k), ValMinus(k)}
    ensures d.victims == old(d.victims) + ValueVars(old(d.idmap), k)
  {
    hide Separate, Ppl.Lawful, PPLDomain.Valid, Has, Retired;
    if Val(k) in d.idmap {
      d.VarKill(Val(k));
    } else {
      d.VarKill(ValPlus(k));
      d.VarKill(ValMinus(k));
    }
  }

  method KillCell(d: PPLDomain, k: int)
    requires d.Valid() && HasCell(d.idmap, k)
    modifies d`idmap, d`victims
    ensures d.Valid() && d.idmap == old(d.idmap) - CellIds(k)
    ensures d.victims == old(d.victims) + VarsOf(old(d.idmap), k)
  {
    hide Ppl.Lawful, Separate, BelowGuids, PPLDomain.Valid, Has;
    d.VarKill(Addr(k));
    d.VarKill(Count(k));
    KillValues(d, k);
  }

  method CellVars(d: PPLDomain, n: int, step: int) returns (newAddress: nat)
    requires d.Valid() && NoCell(d.idmap, n)
    modifies d`idmap, d`victims, d.gen
    ensures d.Valid() && newAddress == old(d.gen.next) && d.gen.next == newAddress + 3
    ensures d.idmap == WithCell(old(d.idmap), n, step, newAddress) && d.victims == old(d.victims)
  {
    hide Separate, BelowGuids, Ppl.Lawful, Bijective;
    newAddress := d.VarNew(Addr(n), step, false);
    var newValue := d.VarNew(Val(n), NO_STEP, false);
    var newCount := d.VarNew(Count(n), NO_STEP, false);
  }

  // The two-variable constraints that cells are made of.
  datatype Relation = SameAs(g: nat, h: nat) | AtLeast(g: nat, h: nat)

  function ConsOf(r: Relation): Cons {
    match r
    case SameAs(g, h) => EqCons(Var(g), Var(h))
    case AtLeast(g, h) => GeCons(Var(g), Var(h))
  }

  ghost predicate Related(r: Relation, w: Valuation) {
    match r
    case SameAs(g, h) => w(g) == w(h)
    case AtLeast(g, h) => w(g) >= w(h)
  }

  lemma RelationMeans(r: Relation)
    ensures forall w: Valuation :: Sat(ConsOf(r), w) <==> Related(r, w)
    ensures ConsOf(r).expr.coefs.Keys <= {r.g, r.h}
    ensures r.g != r.h ==> ConsOf(r).expr.coefs.Keys == {r.g, r.h}
  {
    forall w: Valuation
      ensures Sat(ConsOf(r), w) <==> Related(r, w)
    {
      EvalVar(r.g, w);
      EvalVar(r.h, w);
      EqMeans(Var(r.g), Var(r.h), w);
      GeMeans(Var(r.g), Var(r.h), w);
    }
  }

  // One or two relations added to a polyhedron.
  ghost predicate Adds(s: Sparse, r: Relation, t: Sparse) {
    && s.Ok() && t.Ok() && t.adapter.Keys == s.adapter.Keys + {r.g, r.h}
    && (forall w: Valuation :: Has(t, w) <==> Has(s, w) && Related(r, w))
  }

  ghost predicate AddsTwo(s: Sparse, r1: Relation, r2: Relation, t: Sparse) {
    && s.Ok() && t.Ok() && t.adapter.Keys == s.adapter.Keys + {r1.g, r1.h, r2.g, r2.h}
    && (forall w: Valuation :: Has(t, w) <==> Has(s, w) && Related(r1, w) && Related(r2, w))
  }

  lemma AddsBoth(s: Sparse, r1: Relation, t: Sparse, r2: Relation, u: Sparse)
    requires Adds(s, r1, t) && Adds(t, r2, u)
    ensures AddsTwo(s, r1, r2, u)
  {
    hide Has, Related;
  }

  method Relate(p: WPoly, r: Relation, ghost n: nat)
    requires p.Valid() && (forall g :: g in p.adapter ==> g < n) && r.g < n && r.h < n && r.g != r.h
    modifies p
    ensures p.Valid() && (forall g :: g in p.adapter ==> g < n)
    ensures Adds(old(p.Value()), r, p.Value())
  {
    hide Has;
    RelationMeans(r);
    p.AddConstraint(ConsOf(r));
  }

  method RelateTwo(p: WPoly, r1: Relation, r2: Relation, ghost n: nat)
    requires p.Valid() && (forall g :: g in p.adapter ==> g < n)
    requires r1.g < n && r1.h < n && r1.g != r1.h && r2.g < n && r2.h < n && r2.g != r2.h
    modifies p
    ensures p.Valid() && (forall g :: g in p.adapter ==> g < n)
    ensures AddsTwo(old(p.Value()), r1, r2, p.Value())
  {
    hide Has, Ppl.Lawful, Adds, AddsTwo;
    ghost var s := p.Value();
    Relate(p, r1, n);
    ghost var t := p.Value();
    Relate(p, r2, n);
    AddsBoth(s, r1, t, r2, p.Value());
  }

  // A polyhedron once three variables from `g` on copy three others.
  ghost predicate Copied(s: Sparse, g: nat, address: nat, source: nat, count: nat, p: Sparse) {
    && s.Ok() && p.Ok() && p.adapter.Keys == s.adapter.Keys + {g, g + 1, g + 2, address, source, count}
    && (forall w: Valuation :: Has(p, w) <==> Has(s, w) && Tied(w, g, address, source, count))
  }

  // Tie three variables of a polyhedron to three others.
  method Tie(p: WPoly, g: nat, address: nat, source: nat, count: nat, ghost n: nat)
    requires p.Valid() && (forall h :: h in p.adapter ==> h < n)
    requires address < g && source < g && count < g && g + 2 < n
    modifies p
    ensures p.Valid() && (forall h :: h in p.adapter ==> h < n)
    ensures Copied(old(p.Value()), g, address, source, count, p.Value())
  {
    hide Has, Ppl.Lawful, AddsTwo, Adds, Copied;
    ghost var s := p.Value();
    RelateTwo(p, SameAs(g, address), SameAs(g + 1, source), n);
    ghost var t := p.Value();
    Relate(p, SameAs(g + 2, count), n);
    CopiedBy(s, t, p.Value(), g, address, source, count);
  }

  lemma CopiedBy(s: Sparse, t: Sparse, u: Sparse, g: nat, address: nat, source: nat, count: nat)
    requires AddsTwo(s, SameAs(g, address), SameAs(g + 1, source), t) && Adds(t, SameAs(g + 2, count), u)
    ensures Copied(s, g, address, source, count, u)
  {
    hide Has;
    SixVars(s.adapter.Keys, g, g + 1, g + 2, address, source, count);
  }

  lemma SixVars(keys: set<nat>, a: nat, b: nat, c: nat, x: nat, y: nat, z: nat)
    ensures keys + {a, x, b, y} + {c, z} == keys + {a, b, c, x, y, z}
  {
  }

  // A new plain cell `n`: three variables equal to existing ones.
  method CreateCell(d: PPLDomain, n: int, step: int, address: nat, source: nat, count: nat) returns (newAddress: nat)
    requires d.Valid() && NoCell(d.idmap, n)
    requires address < d.gen.next && source < d.gen.next && count < d.gen.next
    modifies d`idmap, d`victims, d.poly, d.gen
    ensures d.Valid() && newAddress == old(d.gen.next) && d.gen.next == newAddress + 3
    ensures d.idmap == WithCell(old(d.idmap), n, step, newAddress)
    ensures d.victims == old(d.victims)
    ensures Copied(old(d.poly.Value()), newAddress, address, source, count, d.poly.Value())
  {
    hide Has;
    newAddress := CellVars(d, n, step);
    Tie(d.poly, newAddress, address, source, count, d.gen.next);
  }

  function WithCell(m: map<Ident, IdVal>, n: int, step: int, g: nat): map<Ident, IdVal> {
    m[Addr(n) := IdVal(g, step)][Val(n) := IdVal(g + 1, NO_STEP)][Count(n) := IdVal(g + 2, NO_STEP)]
  }

  // The three variables from `g` on have the values of three others.
  ghost predicate Tied(w: Valuation, g: nat, address: nat, value: nat, count: nat) {
    w(g) == w(address) && w(g + 1) == w(value) && w(g + 2) == w(count)
  }

  // Replace cell `k`: a new plain cell at the same address, with the same
  // count, holding the value of the variable `source`.
  method MemTabReplace(d: PPLDomain, k: int, source: nat) returns (newAddress: nat)
    requires d.Valid() && HasCell(d.idmap, k) && NoCell(d.idmap, d.memRef) && source < d.gen.next
    modifies d, d.poly, d.gen
    ensures d.Valid() && d.poly == old(d.poly) && d.numAxis == old(d.numAxis)
    ensures newAddress == old(d.gen.next) && d.gen.next == newAddress + 3 && d.memRef == old(d.memRef) + 1
    ensures d.idmap == Replaced(old(d.idmap), k, old(d.memRef), newAddress)
    ensures d.compare == old(d.compare) && d.victims == old(d.victims) + VarsOf(old(d.idmap), k)
    ensures Copied(old(d.poly.Value()), newAddress, old(d.idmap)[Addr(k)].g, source, old(d.idmap)[Count(k)].g,
                   d.poly.Value())
  {
    hide Has, Separate, Copied, Ppl.Lawful;
    var n := d.memRef;
    var address, count := d.idmap[Addr(k)], d.idmap[Count(k)];
    d.memRef := d.memRef + 1;
    newAddress := CreateCell(d, n, address.s, address.g, source, count.g);
    KillCell(d, k);
  }

  // ----- the outcomes of a weak update -----

  // Cell `k` has become cell `n`, at the same address and with the same
  // count; everything else is as it was.
  ghost predicate CellMoved(env1: Env, env2: Env, k: int, n: int) {
    && env2(Addr(n)) == env1(Addr(k)) && env2(Count(n)) == env1(Count(k))
    && (forall id :: id !in CellIds(n) ==> env2(id) == env1(id))
  }

  // A valuation extended to the variables of the new plain cell.
  ghost function Extended(v: Valuation, g: nat, address: nat, value: nat, count: nat): Valuation {
    Update(Update(Update(v, g, v(address)), g + 1, v(value)), g + 2, v(count))
  }

  // Replacing the cell by one that holds the value of `q` covers the
  // environments where it does.
  lemma ReplacedCovers(s: AState, p: Sparse, k: int, n: int, g: nat, q: Ident, env1: Env, env2: Env)
    requires s.poly.Ok() && p.Ok() && HasCell(s.idmap, k) && NoCell(s.idmap, n) && q in s.idmap
    requires BelowGuids(s.poly, s.idmap, [], g)
    requires forall w: Valuation :: Has(p, w) <==>
               Has(s.poly, w) && Tied(w, g, s.idmap[Addr(k)].g, s.idmap[q].g, s.idmap[Count(k)].g)
    requires Gamma(s, env1) && CellMoved(env1, env2, k, n) && env2(Val(n)) == env1(q)
    ensures Gamma(AState(p, Replaced(s.idmap, k, n, g)), env2)
  {
    var v: Valuation :| Has(s.poly, v) && Represents(s.idmap, v, env1);
    var w := Extended(v, g, s.idmap[Addr(k)].g, s.idmap[q].g, s.idmap[Count(k)].g);
    HasAgree(s.poly, v, w);
    assert Has(p, w);
    ExtendedRepresents(s.idmap, v, w, k, n, g, q, env1, env2);
  }

  lemma ExtendedRepresents(m: map<Ident, IdVal>, v: Valuation, w: Valuation, k: int, n: int, g: nat, q: Ident,
                           env1: Env, env2: Env)
    requires HasCell(m, k) && NoCell(m, n) && q in m
    requires forall id :: id in m ==> m[id].g < g
    requires w == Extended(v, g, m[Addr(k)].g, m[q].g, m[Count(k)].g)
    requires Represents(m, v, env1) && CellMoved(env1, env2, k, n) && env2(Val(n)) == env1(q)
    ensures Represents(Replaced(m, k, n, g), w, env2)
  {
    var m' := Replaced(m, k, n, g);
    forall id | id in m'
      ensures w(m'[id].g) == env2(id) as real
    {
      if id !in {Addr(n), Val(n), Count(n)} {
        assert id in m && m'[id] == m[id] && id !in CellIds(n);
      }
    }
  }

  // The hull of the two outcomes: the new cell holds the value of `q`, or keeps
  // the old one.
  ghost predicate EitherValue(lib: Ppl, s: Sparse, m: map<Ident, IdVal>, k: int, q: Ident, g: nat, t: Sparse)
    requires HasCell(m, k) && !Avatar(m, k) && q in m
  {
    exists p1, p2 {:trigger IsHull(lib, p2, Identity(p2.adapter.Keys), p1, t)} ::
      && Copied(s, g, m[Addr(k)].g, m[q].g, m[Count(k)].g, p1)
      && Copied(s, g, m[Addr(k)].g, m[Val(k)].g, m[Count(k)].g, p2)
      && IsHull(lib, p2, Identity(p2.adapter.Keys), p1, t)
  }

  // Weak update of a plain cell by the value of `q`.  Both outcomes are built
  // by the same replacement, the second after the generator has been wound
  // back over the variables of the first, so that the two states number the
  // new cell alike.
  method MemMergePlain(d: PPLDomain, k: int, q: Ident) returns (newAddress: nat)
    requires d.Valid() && d.numAxis != -1 && HasCell(d.idmap, k) && !Avatar(d.idmap, k)
    requires NoCell(d.idmap, d.memRef) && q in d.idmap
    modifies d, d.poly, d.gen
    ensures d.Valid()
    ensures newAddress == old(d.gen.next) && d.gen.next == newAddress + 3
    ensures d.idmap == Replaced(old(d.idmap), k, old(d.memRef), newAddress) && d.memRef == old(d.memRef) + 1
    ensures forall env1, env2 ::
              && Gamma(old(d.State()), env1) && CellMoved(env1, env2, k, old(d.memRef))
              && (env2(Val(old(d.memRef))) == env1(q) || env2(Val(old(d.memRef))) == env1(Val(k)))
              ==> Gamma(d.State(), env2)
    ensures d.compare == old(d.compare) && d.victims == old(d.victims) + VarsOf(old(d.idmap), k)
    ensures EitherValue(d.lib, old(d.poly.Value()), old(d.idmap), k, q, newAddress, d.poly.Value())
  {
    hide Has, Gamma, Ppl.Lawful, Separate, Bijective, IsHull, LeastHull, Encloses, NoCell, EitherValue, CellMoved;
    ghost var s, n := d.State(), d.memRef;
    var temp;
    temp, newAddress := BothOutcomes(d, k, q);
    ghost var p1, p2 := temp.poly.Value(), d.poly.Value();
    assert newAddress in d.poly.adapter.Keys * temp.poly.adapter.Keys;
    var ok := d.poly.PolyHullAssign(temp.poly);
    EitherCovered(d.lib, s, p1, p2, d.poly.Value(), k, n, newAddress, q);
  }

  // The state that takes the new value, in a copy, and the one that keeps the
  // old one.
  method BothOutcomes(d: PPLDomain, k: int, q: Ident) returns (temp: PPLDomain, newAddress: nat)
    requires d.Valid() && d.numAxis != -1 && HasCell(d.idmap, k) && !Avatar(d.idmap, k)
    requires NoCell(d.idmap, d.memRef) && q in d.idmap
    modifies d, d.poly, d.gen
    ensures d.Valid() && d.poly == old(d.poly) && d.numAxis == old(d.numAxis)
    ensures fresh(temp) && fresh(temp.poly) && temp.poly.Valid() && temp.poly.lib == d.lib
    ensures newAddress == old(d.gen.next) && d.gen.next == newAddress + 3
    ensures d.idmap == Replaced(old(d.idmap), k, old(d.memRef), newAddress) && d.memRef == old(d.memRef) + 1
    ensures temp.idmap == d.idmap
    ensures d.compare == old(d.compare) && d.victims == old(d.victims) + VarsOf(old(d.idmap), k)
    ensures Copied(old(d.poly.Value()), newAddress, old(d.idmap)[Addr(k)].g, old(d.idmap)[q].g,
                   old(d.idmap)[Count(k)].g, temp.poly.Value())
    ensures Copied(old(d.poly.Value()), newAddress, old(d.idmap)[Addr(k)].g, old(d.idmap)[Val(k)].g,
                   old(d.idmap)[Count(k)].g, d.poly.Value())
    ensures newAddress in temp.poly.adapter && newAddress in d.poly.adapter
    ensures forall g :: g in temp.poly.adapter ==> g < d.gen.next
  {
    hide Has, Gamma, Ppl.Lawful, Separate, Bijective;
    temp := new PPLDomain.Copy(d);
    var newAddr1 := MemTabReplace(temp, k, d.idmap[q].g);
    d.gen.next := d.gen.next - 3;
    newAddress := MemTabReplace(d, k, d.idmap[Val(k)].g);
  }

  lemma EitherCovered(lib: Ppl, s: AState, p1: Sparse, p2: Sparse, h: Sparse, k: int, n: int, g: nat, q: Ident)
    requires s.poly.Ok() && h.Ok() && HasCell(s.idmap, k) && !Avatar(s.idmap, k) && NoCell(s.idmap, n) && q in s.idmap
    requires BelowGuids(s.poly, s.idmap, [], g)
    requires Copied(s.poly, g, s.idmap[Addr(k)].g, s.idmap[q].g, s.idmap[Count(k)].g, p1)
    requires Copied(s.poly, g, s.idmap[Addr(k)].g, s.idmap[Val(k)].g, s.idmap[Count(k)].g, p2)
    requires IsHull(lib, p2, Identity(p2.adapter.Keys), p1, h)
    requires forall w: Valuation :: Has(p1, w) || Has(p2, w) ==> Has(h, w)
    ensures EitherValue(lib, s.poly, s.idmap, k, q, g, h)
    ensures forall env1, env2 ::
              && Gamma(s, env1) && CellMoved(env1, env2, k, n)
              && (env2(Val(n)) == env1(q) || env2(Val(n)) == env1(Val(k)))
              ==> Gamma(AState(h, Replaced(s.idmap, k, n, g)), env2)
  {
    hide Has, Gamma, IsHull, CellMoved, NoCell, Tied;
    forall env1, env2 | Gamma(s, env1) && CellMoved(env1, env2, k, n)
                        && (env2(Val(n)) == env1(q) || env2(Val(n)) == env1(Val(k)))
      ensures Gamma(AState(h, Replaced(s.idmap, k, n, g)), env2)
    {
      HullCovers(s, p1, p2, h, k, n, g, q, env1, env2);
    }
  }

  lemma HullCovers(s: AState, p1: Sparse, p2: Sparse, h: Sparse, k: int, n: int, g: nat, q: Ident, env1: Env, env2: Env)
    requires s.poly.Ok() && p1.Ok() && p2.Ok() && h.Ok()
    requires HasCell(s.idmap, k) && Val(k) in s.idmap && NoCell(s.idmap, n) && q in s.idmap
    requires BelowGuids(s.poly, s.idmap, [], g)
    requires forall w: Valuation :: Has(p1, w) <==>
               Has(s.poly, w) && Tied(w, g, s.idmap[Addr(k)].g, s.idmap[q].g, s.idmap[Count(k)].g)
    requires forall w: Valuation :: Has(p2, w) <==>
               Has(s.poly, w) && Tied(w, g, s.idmap[Addr(k)].g, s.idmap[Val(k)].g, s.idmap[Count(k)].g)
    requires forall w: Valuation :: Has(p1, w) || Has(p2, w) ==> Has(h, w)
    requires Gamma(s, env1) && CellMoved(env1, env2, k, n)
    requires env2(Val(n)) == env1(q) || env2(Val(n)) == env1(Val(k))
    ensures Gamma(AState(h, Replaced(s.idmap, k, n, g)), env2)
  {
    var m := Replaced(s.idmap, k, n, g);
    if env2(Val(n)) == env1(q) {
      ReplacedCovers(s, p1, k, n, g, q, env1, env2);
      GammaMonotone(AState(p1, m), AState(h, m), env2);
    } else {
      ReplacedCovers(s, p2, k, n, g, Val(k), env1, env2);
      GammaMonotone(AState(p2, m), AState(h, m), env2);
    }
  }

  // ----- cells with avatars -----

  function WithAvatar(m: map<Ident, IdVal>, n: int, step: int, g: nat): map<Ident, IdVal> {
    m[Addr(n) := IdVal(g, step)][ValPlus(n) := IdVal(g + 1, NO_STEP)]
     [ValMinus(n) := IdVal(g + 2, NO_STEP)][Count(n) := IdVal(g + 3, NO_STEP)]
  }

  method AvatarVars(d: PPLDomain, n: int, step: int) returns (newBase: nat)
    requires d.Valid() && NoCell(d.idmap, n)
    modifies d`idmap, d`victims, d.gen
    ensures d.Valid() && newBase == old(d.gen.next) && d.gen.next == newBase + 4
    ensures d.idmap == WithAvatar(old(d.idmap), n, step, newBase) && d.victims == old(d.victims)
  {
    hide Separate, BelowGuids, Ppl.Lawful, Bijective;
    newBase := d.VarNew(Addr(n), step, false);
    var plus := d.VarNew(ValPlus(n), NO_STEP, false);
    var minus := d.VarNew(ValMinus(n), NO_STEP, false);
    var count := d.VarNew(Count(n), NO_STEP, false);
  }

  ghost predicate Enclosed(m: map<Ident, IdVal>, k: int, g: nat, value: nat, w: Valuation)
    requires HasCell(m, k)
  {
    w(g) == w(m[Addr(k)].g) && w(g + 2) <= w(value) <= w(g + 1) && w(g + 3) == w(m[Count(k)].g)
  }

  ghost predicate KeptAvatars(m: map<Ident, IdVal>, k: int, g: nat, w: Valuation)
    requires HasCell(m, k) && Avatar(m, k)
  {
    && w(g) == w(m[Addr(k)].g) && w(g + 1) == w(m[ValPlus(k)].g)
    && w(g + 2) == w(m[ValMinus(k)].g) && w(g + 3) == w(m[Count(k)].g)
  }

  // The polyhedra of the two outcomes.
  ghost predicate AvatarsKept(s: Sparse, m: map<Ident, IdVal>, k: int, g: nat, p: Sparse)
    requires HasCell(m, k) && Avatar(m, k)
  {
    && s.Ok() && p.Ok()
    && p.adapter.Keys == s.adapter.Keys + {g, m[Addr(k)].g, g + 1, m[ValPlus(k)].g} +
                           {g + 2, m[ValMinus(k)].g, g + 3, m[Count(k)].g}
    && (forall w: Valuation :: Has(p, w) <==> Has(s, w) && KeptAvatars(m, k, g, w))
  }

  ghost predicate ValueEnclosed(s: Sparse, m: map<Ident, IdVal>, k: int, g: nat, value: nat, p: Sparse)
    requires HasCell(m, k)
  {
    && s.Ok() && p.Ok()
    && p.adapter.Keys == s.adapter.Keys + {g, m[Addr(k)].g, g + 1, value} + {value, g + 2, g + 3, m[Count(k)].g}
    && (forall w: Valuation :: Has(p, w) <==> Has(s, w) && Enclosed(m, k, g, value, w))
  }

  ghost predicate EitherAvatars(lib: Ppl, s: Sparse, m: map<Ident, IdVal>, k: int, q: Ident, g: nat, t: Sparse)
    requires HasCell(m, k) && Avatar(m, k) && q in m
  {
    exists p1, p2 {:trigger IsHull(lib, p2, Identity(p2.adapter.Keys), p1, t)} ::
      && AvatarsKept(s, m, k, g, p1) && ValueEnclosed(s, m, k, g, m[q].g, p2)
      && IsHull(lib, p2, Identity(p2.adapter.Keys), p1, t)
  }

  method Keep(p: WPoly, m: map<Ident, IdVal>, k: int, g: nat, ghost n: nat)
    requires p.Valid() && (forall h :: h in p.adapter ==> h < n)
    requires HasCell(m, k) && Avatar(m, k) && g + 3 < n && forall id :: id in m ==> m[id].g < g
    modifies p
    ensures p.Valid() && (forall h :: h in p.adapter ==> h < n)
    ensures AvatarsKept(old(p.Value()), m, k, g, p.Value())
  {
    hide Has, Ppl.Lawful, AddsTwo, AvatarsKept;
    ghost var s := p.Value();
    RelateTwo(p, SameAs(g, m[Addr(k)].g), SameAs(g + 1, m[ValPlus(k)].g), n);
    ghost var t := p.Value();
    RelateTwo(p, SameAs(g + 2, m[ValMinus(k)].g), SameAs(g + 3, m[Count(k)].g), n);
    KeptBy(s, t, p.Value(), m, k, g);
  }

  lemma KeptBy(s: Sparse, t: Sparse, u: Sparse, m: map<Ident, IdVal>, k: int, g: nat)
    requires HasCell(m, k) && Avatar(m, k)
    requires AddsTwo(s, SameAs(g, m[Addr(k)].g), SameAs(g + 1, m[ValPlus(k)].g), t)
    requires AddsTwo(t, SameAs(g + 2, m[ValMinus(k)].g), SameAs(g + 3, m[Count(k)].g), u)
    ensures AvatarsKept(s, m, k, g, u)
  {
    hide Has;
  }

  method Enclose(p: WPoly, m: map<Ident, IdVal>, k: int, g: nat, value: nat, ghost n: nat)
    requires p.Valid() && (forall h :: h in p.adapter ==> h < n)
    requires HasCell(m, k) && g + 3 < n && value < g && forall id :: id in m ==> m[id].g < g
    modifies p
    ensures p.Valid() && (forall h :: h in p.adapter ==> h < n)
    ensures ValueEnclosed(old(p.Value()), m, k, g, value, p.Value())
  {
    hide Has, Ppl.Lawful, AddsTwo, ValueEnclosed;
    ghost var s := p.Value();
    RelateTwo(p, SameAs(g, m[Addr(k)].g), AtLeast(g + 1, value), n);
    ghost var t := p.Value();
    RelateTwo(p, AtLeast(value, g + 2), SameAs(g + 3, m[Count(k)].g), n);
    EnclosedBy(s, t, p.Value(), m, k, g, value);
  }

  lemma EnclosedBy(s: Sparse, t: Sparse, u: Sparse, m: map<Ident, IdVal>, k: int, g: nat, value: nat)
    requires HasCell(m, k)
    requires AddsTwo(s, SameAs(g, m[Addr(k)].g), AtLeast(g + 1, value), t)
    requires AddsTwo(t, AtLeast(value, g + 2), SameAs(g + 3, m[Count(k)].g), u)
    ensures ValueEnclosed(s, m, k, g, value, u)
  {
    hide Has;
  }

  // The whole update: the hull over the new cell's variables, finalised.
  ghost predicate AvatarsMerged(lib: Ppl, s: Snapshot, k: int, q: Ident, g: nat, t: Snapshot)
    requires HasCell(s.state.idmap, k) && Avatar(s.state.idmap, k) && q in s.state.idmap
  {
    var m := s.state.idmap;
    exists u: Sparse ::
      && EitherAvatars(lib, s.state.poly, m, k, q, g, u)
      && Finalizes(Snapshot(AState(u, WithAvatar(m, s.memRef, m[Addr(k)].s, g) - CellIds(k)), s.compare,
                            s.victims + VarsOf(m, k), s.memRef + 1), t)
  }

  lemma AvatarsFinalized(lib: Ppl, s: Snapshot, k: int, q: Ident, g: nat, u: Snapshot, t: Snapshot)
    requires HasCell(s.state.idmap, k) && Avatar(s.state.idmap, k) && q in s.state.idmap
    requires EitherAvatars(lib, s.state.poly, s.state.idmap, k, q, g, u.state.poly) && Finalizes(u, t)
    requires u.state.idmap == WithAvatar(s.state.idmap, s.memRef, s.state.idmap[Addr(k)].s, g) - CellIds(k)
    requires u.compare == s.compare && u.victims == s.victims + VarsOf(s.state.idmap, k) && u.memRef == s.memRef + 1
    ensures AvatarsMerged(lib, s, k, q, g, t)
  {
    hide EitherAvatars, Finalizes;
    assert u == u.(state := AState(u.state.poly, u.state.idmap));
  }

  // Weak update of a cell with avatars by the value of `q`.
  method MemMergeAvatar(d: PPLDomain, k: int, q: Ident) returns (newBase: nat)
    requires d.Valid() && d.numAxis != -1 && HasCell(d.idmap, k) && Avatar(d.idmap, k)
    requires NoCell(d.idmap, d.memRef) && q in d.idmap
    modifies d, d.poly, d.gen
    ensures d.Valid() && newBase == old(d.gen.next) && d.gen.next == newBase + 4
    ensures !Empty(d.State()) ==>
              && d.idmap == WithAvatar(old(d.idmap), old(d.memRef), old(d.idmap)[Addr(k)].s, newBase) - CellIds(k)
              && d.memRef == old(d.memRef) + 1
    ensures forall env1, env2 ::
              && Gamma(old(d.State()), env1) && CellMoved(env1, env2, k, old(d.memRef))
              && AvatarOutcome(env1, env2, k, old(d.memRef), q)
              ==> Gamma(d.State(), env2)
    ensures AvatarsMerged(d.lib, old(Snap(d)), k, q, newBase, Snap(d))
  {
    hide Has, Ppl.Lawful, CellMoved, EitherAvatars, AvatarsMerged, Finalizes, AvatarOutcome, Gamma, Separate;
    ghost var s := Snap(d);
    var n, m := d.memRef, d.idmap;
    d.memRef := d.memRef + 1;
    newBase := AvatarVars(d, n, m[Addr(k)].s);
    AvatarHull(d, m, k, n, newBase, q);
    KillCell(d, k);
    AllAvatarsCovered(s.state, d.State(), k, n, newBase, q);
    ghost var u := Snap(d);
    d.DoFinalizeUpdate();
    AvatarsFinalized(d.lib, s, k, q, newBase, u, Snap(d));
  }

  // The hull of the two outcomes, on the polyhedron.
  method AvatarHull(d: PPLDomain, m: map<Ident, IdVal>, k: int, n: int, g: nat, q: Ident)
    requires d.Valid() && d.numAxis != -1 && HasCell(m, k) && Avatar(m, k) && q in m
    requires BelowGuids(d.poly.Value(), m, [], g) && g + 3 < d.gen.next
    modifies d.poly
    ensures d.Valid()
    ensures forall w: Valuation ::
              Has(old(d.poly.Value()), w) && (KeptAvatars(m, k, g, w) || Enclosed(m, k, g, m[q].g, w))
              ==> Has(d.poly.Value(), w)
    ensures EitherAvatars(d.lib, old(d.poly.Value()), m, k, q, g, d.poly.Value())
  {
    hide Has;
    var temp := new WPoly.Copy(d.poly);
    Keep(temp, m, k, g, d.gen.next);
    Enclose(d.poly, m, k, g, m[q].g, d.gen.next);
    assert g in d.poly.adapter.Keys * temp.adapter.Keys;
    var ok := d.poly.PolyHullAssign(temp);
  }

  lemma AllAvatarsCovered(s: AState, t: AState, k: int, n: int, g: nat, q: Ident)
    requires s.poly.Ok() && t.poly.Ok()
    requires HasCell(s.idmap, k) && Avatar(s.idmap, k) && NoCell(s.idmap, n) && q in s.idmap
    requires BelowGuids(s.poly, s.idmap, [], g)
    requires forall w: Valuation ::
               Has(s.poly, w) && (KeptAvatars(s.idmap, k, g, w) || Enclosed(s.idmap, k, g, s.idmap[q].g, w))
               ==> Has(t.poly, w)
    requires t.idmap == WithAvatar(s.idmap, n, s.idmap[Addr(k)].s, g) - CellIds(k)
    ensures forall env1, env2 ::
              Gamma(s, env1) && CellMoved(env1, env2, k, n) && AvatarOutcome(env1, env2, k, n, q) ==> Gamma(t, env2)
  {
    forall env1, env2 | Gamma(s, env1) && CellMoved(env1, env2, k, n) && AvatarOutcome(env1, env2, k, n, q)
      ensures Gamma(t, env2)
    {
      AvatarCovers(s, t, k, n, g, q, env1, env2);
    }
  }

  // The avatars of the new cell enclose the new value, or are the old ones.
  ghost predicate AvatarOutcome(env1: Env, env2: Env, k: int, n: int, q: Ident) {
    || env2(ValMinus(n)) <= env1(q) <= env2(ValPlus(n))
    || (env2(ValPlus(n)) == env1(ValPlus(k)) && env2(ValMinus(n)) == env1(ValMinus(k)))
  }

  ghost function AvatarExtended(v: Valuation, g: nat, address: nat, plus: real, minus: real, count: nat): Valuation {
    Update(Update(Update(Update(v, g, v(address)), g + 1, plus), g + 2, minus), g + 3, v(count))
  }

  lemma AvatarCovers(s: AState, t: AState, k: int, n: int, g: nat, q: Ident, env1: Env, env2: Env)
    requires s.poly.Ok() && t.poly.Ok()
    requires HasCell(s.idmap, k) && Avatar(s.idmap, k) && NoCell(s.idmap, n) && q in s.idmap
    requires BelowGuids(s.poly, s.idmap, [], g)
    requires forall w: Valuation ::
               Has(s.poly, w) && (KeptAvatars(s.idmap, k, g, w) || Enclosed(s.idmap, k, g, s.idmap[q].g, w))
               ==> Has(t.poly, w)
    requires t.idmap == WithAvatar(s.idmap, n, s.idmap[Addr(k)].s, g) - CellIds(k)
    requires Gamma(s, env1) && CellMoved(env1, env2, k, n) && AvatarOutcome(env1, env2, k, n, q)
    ensures Gamma(t, env2)
  {
    var v: Valuation :| Has(s.poly, v) && Represents(s.idmap, v, env1);
    var w := AvatarExtended(v, g, s.idmap[Addr(k)].g, env2(ValPlus(n)) as real, env2(ValMinus(n)) as real,
              s.idmap[Count(k)].g);
    HasAgree(s.poly, v, w);
    AvatarTied(s.idmap, v, w, k, n, g, q, env1, env2);
    AvatarRepresents(s.idmap, v, w, k, n, g, env1, env2);
    assert Has(t.poly, w) && Represents(t.idmap, w, env2);
  }

  lemma AvatarTied(m: map<Ident, IdVal>, v: Valuation, w: Valuation, k: int, n: int, g: nat, q: Ident, env1: Env,
                   env2: Env)
    requires HasCell(m, k) && Avatar(m, k) && q in m
    requires forall id :: id in m ==> m[id].g < g
    requires w == AvatarExtended(v, g, m[Addr(k)].g, env2(ValPlus(n)) as real, env2(ValMinus(n)) as real, m[Count(k)].g)
    requires Represents(m, v, env1) && AvatarOutcome(env1, env2, k, n, q)
    ensures Enclosed(m, k, g, m[q].g, w) || KeptAvatars(m, k, g, w)
  {
  }

  lemma AvatarRepresents(m: map<Ident, IdVal>, v: Valuation, w: Valuation, k: int, n: int, g: nat, env1: Env, env2: Env)
    requires HasCell(m, k) && NoCell(m, n)
    requires forall id :: id in m ==> m[id].g < g
    requires w == AvatarExtended(v, g, m[Addr(k)].g, env2(ValPlus(n)) as real, env2(ValMinus(n)) as real, m[Count(k)].g)
    requires Represents(m, v, env1) && CellMoved(env1, env2, k, n)
    ensures Represents(WithAvatar(m, n, m[Addr(k)].s, g) - CellIds(k), w, env2)
  {
    var m' := WithAvatar(m, n, m[Addr(k)].s, g) - CellIds(k);
    forall id | id in m'
      ensures w(m'[id].g) == env2(id) as real
    {
      if id !in {Addr(n), ValPlus(n), ValMinus(n), Count(n)} {
        assert id in m && m'[id] == m[id] && id !in CellIds(n);
      }
    }
  }
}
