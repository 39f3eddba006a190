/**
 * What each operation of the abstract domain makes of a state: relations that
 * determine the new state, up to the dimensions of its polyhedron.
 */
module Transfers {
  import opened LinearExpressions
  import opened Polyhedra
  import opened SparsePolyhedra
  import opened UpperBounds
  import opened Mappings
  import opened AbstractStates
  import opened Instructions
  import opened Words

  // A pending comparison: the register holding it and the condition to test.
  datatype Filter = Filter(reg: Ident, cond: Cond)

  // A state with everything it carries: the pending comparison, the variables
  // waiting to be destroyed, and the number of the next memory cell.
  datatype Snapshot = Snapshot(state: AState, compare: Option<Filter>, victims: seq<nat>, memRef: int) {
    ghost predicate Ok() { state.poly.Ok() }
  }

  function Counter(loop: int): Ident { Ident(loop, ID_LOOP) }

  predicate Temporary(id: Ident) { id.typ == ID_REG && id.id < 0 }

  ghost function VictimSet(victims: seq<nat>): set<nat> {
    set g | g in victims
  }

  function OperandConstant(lib: Ppl, s: AState, id: Ident): Option<Fraction>
    requires id in s.idmap
  {
    GetConstant(lib, s.poly, s.idmap[id].g)
  }

  // The canonical state without elements.
  ghost predicate Bottom(s: Snapshot) {
    && s.Ok() && Empty(s.state) && s.state.idmap == map[]
    && s.compare == None && s.victims == [] && s.memRef == 0
  }

  // A state without elements becomes the canonical one.
  ghost predicate Settles(s: Snapshot, t: Snapshot) {
    s.Ok() && if Empty(s.state) then Bottom(t) else t == s
  }

  // ----- assignments -----

  // The identifier has the new variable `g`, and the one it had is scheduled.
  ghost predicate Renewed(s: Snapshot, id: Ident, g: nat, t: Snapshot) {
    && s.Ok() && t.Ok()
    && t.state.idmap == s.state.idmap[id := IdVal(g, NO_STEP)]
    && t.victims == s.victims + (if id in s.state.idmap then [s.state.idmap[id].g] else [])
    && t.compare == s.compare && t.memRef == s.memRef
  }

  // The identifier becomes the number `n`.
  ghost predicate Sets(s: Snapshot, id: Ident, n: int, g: nat, t: Snapshot) {
    && Renewed(s, id, g, t) && t.state.poly.adapter.Keys == s.state.poly.adapter.Keys + {g}
    && (forall w: Valuation :: Has(t.state.poly, w) <==> Has(s.state.poly, w) && w(g) == n as real)
  }

  // The identifier becomes the value of the variable `h`, plus `k`.
  ghost predicate Moves(s: Snapshot, id: Ident, h: nat, k: int, g: nat, t: Snapshot) {
    && Renewed(s, id, g, t) && t.state.poly.adapter.Keys == s.state.poly.adapter.Keys + {g, h}
    && (forall w: Valuation :: Has(t.state.poly, w) <==> Has(s.state.poly, w) && w(g) == w(h) + k as real)
  }

  // The identifier becomes the result of an operation, as it is encoded.
  ghost predicate Computes(lib: Ppl, s: Snapshot, op: BinOp, id: Ident, id1: Ident, id2: Ident, g: nat, t: Snapshot)
    requires id1 in s.state.idmap && id2 in s.state.idmap
  {
    var g1, g2 := s.state.idmap[id1].g, s.state.idmap[id2].g;
    var k1, k2 := OperandConstant(lib, s.state, id1), OperandConstant(lib, s.state, id2);
    && Renewed(s, id, g, t)
    && s.state.poly.adapter.Keys <= t.state.poly.adapter.Keys <= s.state.poly.adapter.Keys + {g, g1, g2}
    && (forall w: Valuation ::
          Has(t.state.poly, w) <==> Has(s.state.poly, w) && Encoded(op, k1, k2, w(g), w(g1), w(g2)))
  }

  // A state that no longer knows an identifier.
  ghost function Without(s: AState, id: Ident): AState {
    AState(s.poly, s.idmap - {id})
  }

  // When the constraint determines the destination and is exact for the
  // operands, the environments covered are those that were, up to the
  // destination, and have the concrete result there: no other value is left.
  lemma ComputesExactly(lib: Ppl, s: Snapshot, op: BinOp, id: Ident, id1: Ident, id2: Ident, g: nat, t: Snapshot,
                        env: Env)
    requires lib.Lawful() && id1 in s.state.idmap && id2 in s.state.idmap && id != id1 && id != id2
    requires Computes(lib, s, op, id, id1, id2, g, t) && g !in s.state.poly.adapter && Unmapped(s.state.idmap, g)
    requires
      var k1, k2 := OperandConstant(lib, s.state, id1), OperandConstant(lib, s.state, id2);
      && Determined(op, k1, k2) && ShiftDefined(op, k2)
      && (op == SHL || op == SHR || op == ASR ==> env(id2) >= 0)
      && Exact(op, env(id1), env(id2), k1, k2)
    ensures
      Gamma(t.state, env) <==>
        Gamma(Without(s.state, id), env) && Result(op, env(id1), env(id2), env(id))
  {
    if Gamma(t.state, env) {
      ComputedOnly(lib, s, op, id, id1, id2, g, t, env);
    }
    if Gamma(Without(s.state, id), env) && Result(op, env(id1), env(id2), env(id)) {
      ComputedAll(lib, s, op, id, id1, id2, g, t, env);
    }
  }

  lemma ComputedOnly(lib: Ppl, s: Snapshot, op: BinOp, id: Ident, id1: Ident, id2: Ident, g: nat, t: Snapshot,
                       env: Env)
    requires lib.Lawful() && id1 in s.state.idmap && id2 in s.state.idmap && id != id1 && id != id2
    requires Computes(lib, s, op, id, id1, id2, g, t)
    requires
      var k1, k2 := OperandConstant(lib, s.state, id1), OperandConstant(lib, s.state, id2);
      && Determined(op, k1, k2) && ShiftDefined(op, k2)
      && (op == SHL || op == SHR || op == ASR ==> env(id2) >= 0)
      && Exact(op, env(id1), env(id2), k1, k2)
    requires Gamma(t.state, env)
    ensures Gamma(Without(s.state, id), env) && Result(op, env(id1), env(id2), env(id))
  {
    hide Exact, Result, Encoded, Determined, GetConstant;
    var k1, k2 := OperandConstant(lib, s.state, id1), OperandConstant(lib, s.state, id2);
    var w: Valuation :| Has(t.state.poly, w) && Represents(t.state.idmap, w, env);
    assert forall i :: i in s.state.idmap && i != id ==> t.state.idmap[i] == s.state.idmap[i];
    KnownValue(lib, s.state, id1, w, env(id1));
    KnownValue(lib, s.state, id2, w, env(id2));
    EncodedExact(op, k1, k2, env(id), env(id1), env(id2));
    assert w(t.state.idmap[id].g) == env(id) as real;
    assert Represents(Without(s.state, id).idmap, w, env);
  }

  lemma ComputedAll(lib: Ppl, s: Snapshot, op: BinOp, id: Ident, id1: Ident, id2: Ident, g: nat, t: Snapshot,
                       env: Env)
    requires lib.Lawful() && id1 in s.state.idmap && id2 in s.state.idmap && id != id1 && id != id2
    requires Computes(lib, s, op, id, id1, id2, g, t)
    requires
      var k1, k2 := OperandConstant(lib, s.state, id1), OperandConstant(lib, s.state, id2);
      && Determined(op, k1, k2) && ShiftDefined(op, k2)
      && (op == SHL || op == SHR || op == ASR ==> env(id2) >= 0)
      && Exact(op, env(id1), env(id2), k1, k2)
    requires g !in s.state.poly.adapter && Unmapped(s.state.idmap, g)
    requires Gamma(Without(s.state, id), env) && Result(op, env(id1), env(id2), env(id))
    ensures Gamma(t.state, env)
  {
    hide Exact, Result, Encoded, Determined, GetConstant;
    var k1, k2 := OperandConstant(lib, s.state, id1), OperandConstant(lib, s.state, id2);
    var v: Valuation :| Has(s.state.poly, v) && Represents(Without(s.state, id).idmap, v, env);
    var w := Update(v, g, env(id) as real);
    HasAgree(s.state.poly, v, w);
    forall i | i in t.state.idmap
      ensures w(t.state.idmap[i].g) == env(i) as real
    {
      assert i != id ==> i in Without(s.state, id).idmap;
    }
    KnownValue(lib, s.state, id1, w, env(id1));
    KnownValue(lib, s.state, id2, w, env(id2));
    EncodedExact(op, k1, k2, env(id), env(id1), env(id2));
    assert Has(t.state.poly, w) && Represents(t.state.idmap, w, env);
  }

  lemma KnownValue(lib: Ppl, s: AState, id: Ident, w: Valuation, a: int)
    requires lib.Lawful() && s.poly.Ok() && id in s.idmap && Has(s.poly, w) && w(s.idmap[id].g) == a as real
    ensures KnownAs(OperandConstant(lib, s, id), a)
  {
    ConstantMeans(lib, s.poly, s.idmap[id].g, w);
    var k := OperandConstant(lib, s, id);
    if k.Some? {
      TimesCast(a, k.value.den);
    }
  }

  // The identifier's variable is projected out.
  ghost predicate Scratches(s: Snapshot, id: Ident, t: Snapshot)
    requires id in s.state.idmap
  {
    var keys := s.state.poly.adapter.Keys - {s.state.idmap[id].g};
    && s.Ok() && t.Ok() && t == s.(state := AState(t.state.poly, s.state.idmap))
    && t.state.poly.adapter.Keys == keys
    && (forall w: Valuation :: Has(t.state.poly, w) <==> Projects(s.state.poly, Identity(keys), w))
  }

  // One instruction, with `g` as the number of the next variable.
  ghost predicate Interprets(lib: Ppl, s: Snapshot, i: Inst, g: nat, t: Snapshot) {
    match i
    case SCRATCH(d) => if Reg(d) in s.state.idmap then Scratches(s, Reg(d), t) else t == s
    case SETI(d, n) => Sets(s, Reg(d), n, g, t)
    case SET(d, a) =>
      if Reg(a) in s.state.idmap then Moves(s, Reg(d), s.state.idmap[Reg(a)].g, 0, g, t) else t == s
    case BIN(op, d, a, b) =>
      if Reg(a) in s.state.idmap && Reg(b) in s.state.idmap then Computes(lib, s, op, Reg(d), Reg(a), Reg(b), g, t)
      else t == s
    case IF(sr, cond) => t == if Reg(sr) in s.state.idmap then s.(compare := Some(Filter(Reg(sr), cond))) else s
    case _ => t == s
  }

  // ----- cleaning up -----

  ghost function Scheduled(m: map<Ident, IdVal>, ids: set<Ident>): set<nat>
    requires ids <= m.Keys
  {
    set id | id in ids :: m[id].g
  }

  // The temporary registers are unmapped, and their variables scheduled.
  ghost predicate Cleans(s: Snapshot, t: Snapshot) {
    var gone := set id | id in s.state.idmap && Temporary(id) && s.state.idmap[id].s == NO_STEP;
    && t == s.(state := AState(s.state.poly, s.state.idmap - gone), victims := t.victims)
    && VictimSet(t.victims) == VictimSet(s.victims) + Scheduled(s.state.idmap, gone)
  }

  // The scheduled variables are projected out.
  ghost predicate Finalizes(s: Snapshot, t: Snapshot) {
    var keys := s.state.poly.adapter.Keys - VictimSet(s.victims);
    s.Ok() && t.Ok() &&
    if Empty(s.state) then Bottom(t)
    else
      && t == s.(state := AState(t.state.poly, s.state.idmap), victims := [])
      && t.state.poly.adapter.Keys == keys
      && (forall w: Valuation :: Has(t.state.poly, w) <==> Projects(s.state.poly, Identity(keys), w))
  }

  // ----- the edges -----

  // What is left of a state when the variable `g` is at most the bound.
  ghost predicate Limits(s: Sparse, g: nat, bound: int, t: Sparse) {
    && s.Ok() && t.Ok() && t.adapter.Keys == s.adapter.Keys + (if bound >= 0 then {g} else {})
    && (forall w: Valuation :: Has(t, w) <==> Has(s, w) && (bound >= 0 ==> w(g) <= bound as real))
  }

  // The identifier is unmapped and its variable scheduled; `u` is what is left.
  ghost function Forgets(s: Snapshot, id: Ident, u: Sparse): Snapshot
    requires id in s.state.idmap
  {
    s.(state := AState(u, s.state.idmap - {id}), victims := s.victims + [s.state.idmap[id].g])
  }

  ghost predicate Leaves(s: Snapshot, loop: int, bound: int, t: Snapshot)
    requires Counter(loop) in s.state.idmap
  {
    exists u: Sparse ::
      Limits(s.state.poly, s.state.idmap[Counter(loop)].g, bound, u) && Settles(Forgets(s, Counter(loop), u), t)
  }

  // What the filter of a condition asks of a value: the strict ones are a unit
  // away from zero.
  ghost predicate Meets(c: Cond, x: real) {
    match c
    case EQ => x == 0.0
    case NE => x <= -1.0 || x >= 1.0
    case GE => x >= 0.0
    case UGE => x >= 0.0
    case GT => x >= 1.0
    case UGT => x >= 1.0
    case LE => x <= 0.0
    case ULE => x <= 0.0
    case LT => x <= -1.0
    case ULT => x <= -1.0
    case OTHER_COND => true
  }

  // On the integers that is the condition itself.
  lemma MeetsHolds(c: Cond, r: int)
    ensures Meets(c, r as real) <==> Holds(c, r)
  {
  }

  // The elements of `s` on the two sides of zero.
  ghost predicate Sides(s: Sparse, g: nat, low: Sparse, high: Sparse) {
    && s.Ok() && low.Ok() && high.Ok()
    && low.adapter.Keys == s.adapter.Keys + {g} && high.adapter.Keys == s.adapter.Keys + {g}
    && (forall w: Valuation :: Has(low, w) <==> Has(s, w) && w(g) <= -1.0)
    && (forall w: Valuation :: Has(high, w) <==> Has(s, w) && w(g) >= 1.0)
  }

  // What is left of a state when the variable `g` meets the condition: exactly
  // its elements that do or, for "different", the hull of the two sides.
  ghost predicate Filters(lib: Ppl, s: Sparse, c: Cond, g: nat, t: Sparse) {
    if c == NE then
      exists low, high :: Sides(s, g, low, high) && IsHull(lib, low, Identity(low.adapter.Keys), high, t)
    else
      && s.Ok() && t.Ok() && t.adapter.Keys == s.adapter.Keys + (if c == OTHER_COND then {} else {g})
      && (forall w: Valuation :: Has(t, w) <==> Has(s, w) && Meets(c, w(g)))
  }

  // With a least hull, "different" too leaves as little as possible.
  lemma DifferentLeast(lib: Ppl, s: Sparse, g: nat, t: Sparse, c: Sparse)
    requires lib.Lawful() && LeastHull(lib) && Filters(lib, s, NE, g, t)
    requires c.Ok() && c.adapter.Keys <= t.adapter.Keys
    requires forall w: Valuation :: Has(s, w) && Meets(NE, w(g)) ==> Has(c, w)
    ensures forall w: Valuation :: Has(t, w) ==> Has(c, w)
  {
    var low, high :| Sides(s, g, low, high) && IsHull(lib, low, Identity(low.adapter.Keys), high, t);
    forall w: Valuation | Projects(low, Only(Identity(low.adapter.Keys), c.adapter.Keys), w)
      ensures Has(c, w)
    {
      ProjectionInside(low, c.adapter.Keys, c, w);
    }
    HullLeast(lib, low, Identity(low.adapter.Keys), high, t, c);
  }

  // On the integers, the filter of any other condition keeps exactly the
  // environments that satisfy it.
  lemma FiltersExactly(lib: Ppl, s: AState, c: Cond, id: Ident, t: Sparse, env: Env)
    requires c != NE && id in s.idmap && Filters(lib, s.poly, c, s.idmap[id].g, t)
    ensures Gamma(AState(t, s.idmap), env) <==> Gamma(s, env) && Holds(c, env(id))
  {
    MeetsHolds(c, env(id));
    if Gamma(s, env) && Holds(c, env(id)) {
      var w: Valuation :| Has(s.poly, w) && Represents(s.idmap, w, env);
      assert Has(t, w);
    }
    if Gamma(AState(t, s.idmap), env) {
      var w: Valuation :| Has(t, w) && Represents(s.idmap, w, env);
      assert Has(s.poly, w);
    }
  }

  // A branch on the pending comparison, which is consumed.
  ghost predicate Branches(lib: Ppl, s: Snapshot, taken: bool, t: Snapshot)
    requires s.compare.Some? && s.compare.value.reg in s.state.idmap
  {
    var Filter(reg, cond) := s.compare.value;
    s.Ok() && t.Ok() &&
    if Empty(s.state) then Bottom(t)
    else
      exists u: Sparse ::
        && Filters(lib, s.state.poly, if taken then cond else Invert(cond), s.state.idmap[reg].g, u)
        && Settles(Forgets(s, reg, u).(compare := None), t)
  }
}
