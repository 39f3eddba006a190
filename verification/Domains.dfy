/**
 * The abstract domain: a sparse polyhedron, the mapping from identifiers to
 * its variables, and the variables waiting to be destroyed.
 */
module Domains {
  import opened LinearExpressions
  import opened Polyhedra
  import opened SparsePolyhedra
  import opened WPolys
  import opened Mappings
  import opened AbstractStates
  import opened Instructions
  import opened Words
  import opened UpperBounds
  import opened Transfers

  // The global counter that numbers fresh variables.
  class GuidGenerator {
    var next: nat

    constructor ()
      ensures next == 0
    {
      next := 0;
    }

    method Fresh() returns (g: nat)
      modifies this
      ensures g == old(next) && next == old(next) + 1
    {
      g := next;
      next := next + 1;
    }
  }

  lemma AddedFresh(m: map<Ident, IdVal>, id: Ident, g: IdVal)
    requires forall i :: i in m ==> m[i] != g
    ensures Added(m, id, g) == m[id := g]
  {
  }

  ghost predicate BelowGuids(s: Sparse, m: map<Ident, IdVal>, victims: seq<nat>, n: nat) {
    && (forall g :: g in s.adapter ==> g < n)
    && (forall id :: id in m ==> m[id].g < n)
    && (forall g :: g in victims ==> g < n)
  }

  // A number that was not given yet, for an identifier that may have another.
  lemma NumberedFresh(s: Sparse, m: map<Ident, IdVal>, victims: seq<nat>, n: nat, id: Ident, step: int)
    requires Separate(m) && BelowGuids(s, m, victims, n)
    ensures
      var m' := m[id := IdVal(n, step)];
      var victims' := victims + if id in m then [m[id].g] else [];
      && Separate(m') && BelowGuids(s, m', victims', n + 1)
      && (Retired(m, victims) ==> Retired(m', victims'))
      && Added(m, id, IdVal(n, step)) == m'
  {
    AddedFresh(m, id, IdVal(n, step));
  }

  // A state stays valid when variables are numbered for another one.
  twostate lemma StillValid(d: PPLDomain)
    requires old(d.Valid()) && unchanged(d) && unchanged(d.poly) && d.gen.next >= old(d.gen.next)
    ensures d.Valid()
  {
  }

  lemma ValidPoly(d: PPLDomain)
    requires d.Valid()
    ensures d.State().poly.Ok()
  {
  }

  // Only memory addresses carry a step.
  ghost predicate Plain(m: map<Ident, IdVal>) {
    forall id :: id in m && id.typ != ID_MEM_ADDR ==> m[id].s == NO_STEP
  }

  // The identifiers mapped after an instruction.
  function MappedAfter(keys: set<Ident>, i: Inst): set<Ident> {
    match i
    case SETI(d, _) => keys + {Reg(d)}
    case SET(d, a) => if Reg(a) in keys then keys + {Reg(d)} else keys
    case BIN(_, d, a, b) => if Reg(a) in keys && Reg(b) in keys then keys + {Reg(d)} else keys
    case _ => keys
  }

  // The values known after an instruction: a constant written stays known
  // until the register is written again.
  function PinsAfter(m: map<Ident, int>, keys: set<Ident>, i: Inst): map<Ident, int> {
    match i
    case SETI(d, cst) => m[Reg(d) := cst]
    case SET(d, a) =>
      if Reg(a) !in keys then m else if Reg(a) in m then m[Reg(d) := m[Reg(a)]] else m - {Reg(d)}
    case BIN(_, d, a, b) => if Reg(a) in keys && Reg(b) in keys then m - {Reg(d)} else m
    case SCRATCH(d) => m - {Reg(d)}
    case _ => m
  }

  // No variable that is scheduled to be destroyed is mapped.
  ghost predicate Retired(m: map<Ident, IdVal>, victims: seq<nat>) {
    forall g :: g in victims ==> Unmapped(m, g)
  }

  // `t` is `s` after some variables were destroyed.
  ghost predicate Destroyed(s: AState, vs: seq<nat>, t: AState)
    requires s.poly.Ok() && t.poly.Ok()
  {
    && t.poly.adapter.Keys == s.poly.adapter.Keys - VictimSet(vs)
    && (forall w: Valuation :: Has(t.poly, w) <==> Projects(s.poly, Identity(t.poly.adapter.Keys), w))
    && (Empty(t) <==> Empty(s))
    && (forall env :: Gamma(s, env) ==> Gamma(t, env))
    && (Retired(s.idmap, vs) ==> forall env :: Gamma(t, env) ==> Gamma(s, env))
    && (Retired(s.idmap, vs) ==> forall m :: PinnedBy(s, m) ==> PinnedBy(t, m))
  }

  lemma NothingDestroyed(s: AState)
    requires s.poly.Ok()
    ensures Destroyed(s, [], s)
  {
    forall w: Valuation {
      ProjectAll(s.poly, w);
    }
  }

  lemma DestroyedAll(s: AState, vs: seq<nat>, t: AState)
    requires s.poly.Ok() && t.poly.Ok() && Destroyed(s, vs, t)
    ensures t.poly.adapter.Keys == s.poly.adapter.Keys - VictimSet(vs) && (Empty(t) <==> Empty(s))
    ensures forall w: Valuation :: Has(t.poly, w) <==> Projects(s.poly, Identity(t.poly.adapter.Keys), w)
    ensures forall env :: Gamma(s, env) ==> Gamma(t, env)
    ensures Retired(s.idmap, vs) ==> forall env :: Gamma(t, env) ==> Gamma(s, env)
    ensures Retired(s.idmap, vs) ==> forall m :: PinnedBy(s, m) ==> PinnedBy(t, m)
  {
  }

  lemma DestroyedMore(s: AState, vs: seq<nat>, t: AState, g: nat, u: AState)
    requires s.poly.Ok() && t.poly.Ok() && u.poly.Ok() && Destroyed(s, vs, t)
    requires t.idmap == s.idmap && u.idmap == t.idmap && u.poly.adapter.Keys == t.poly.adapter.Keys - {g}
    requires forall w: Valuation :: Has(u.poly, w) <==> Projects(t.poly, Identity(t.poly.adapter.Keys - {g}), w)
    ensures Destroyed(s, vs + [g], u)
  {
    hide Gamma, Has, Projects, Empty, Bijective, VictimSet, PinnedBy, Identity;
    OneDestroyed(t, g, u);
    OneVictim(vs, g);
    OnePinKept(t, g, u);
    ProjectedMore(s.poly, t.poly, g, u.poly);
  }

  lemma ProjectedMore(s: Sparse, t: Sparse, g: nat, u: Sparse)
    requires s.Ok() && t.Ok() && u.Ok() && u.adapter.Keys == t.adapter.Keys - {g}
    requires forall w: Valuation :: Has(t, w) <==> Projects(s, Identity(t.adapter.Keys), w)
    requires forall w: Valuation :: Has(u, w) <==> Projects(t, Identity(t.adapter.Keys - {g}), w)
    ensures forall w: Valuation :: Has(u, w) <==> Projects(s, Identity(u.adapter.Keys), w)
  {
    var id1, id2 := Identity(t.adapter.Keys), Identity(u.adapter.Keys);
    assert Through(id1, id2) == id2;
    forall w: Valuation {
      ProjectsThrough(s, id1, t, id2, w);
    }
  }

  lemma OnePinKept(s: AState, g: nat, t: AState)
    requires s.poly.Ok() && t.poly.Ok() && t.idmap == s.idmap
    requires forall w: Valuation :: Has(t.poly, w) <==> Projects(s.poly, Identity(s.poly.adapter.Keys - {g}), w)
    ensures Unmapped(s.idmap, g) ==> forall m :: PinnedBy(s, m) ==> PinnedBy(t, m)
  {
    ProjectNonEmpty(s, t, g);
    hide Has, Gamma, Empty, Pinned;
    if Unmapped(s.idmap, g) {
      forall m | PinnedBy(s, m)
        ensures PinnedBy(t, m)
      {
        forall i | i in m && !Empty(s)
          ensures Pinned(t, i, m[i])
        {
          PinMapped(s, i, m[i]);
          ProjectedPin(s, t, g, i, m[i]);
        }
      }
    }
  }

  lemma OneVictim(vs: seq<nat>, g: nat)
    ensures VictimSet(vs + [g]) == VictimSet(vs) + {g}
    ensures forall h :: h in vs + [g] <==> h in vs || h == g
  {
    assert forall h :: h in vs + [g] <==> h in vs || h == g;
  }

  lemma OneScheduled(m: map<Ident, IdVal>, ids: set<Ident>, id: Ident)
    requires ids <= m.Keys && id in m
    ensures Scheduled(m, ids + {id}) == Scheduled(m, ids) + {m[id].g}
  {
  }

  lemma OneDestroyed(t: AState, g: nat, u: AState)
    requires t.poly.Ok() && u.poly.Ok() && u.idmap == t.idmap
    requires forall w: Valuation :: Has(u.poly, w) <==> Projects(t.poly, Identity(t.poly.adapter.Keys - {g}), w)
    ensures Empty(u) <==> Empty(t)
    ensures forall env :: Gamma(t, env) ==> Gamma(u, env)
    ensures Unmapped(t.idmap, g) ==> forall env :: Gamma(u, env) ==> Gamma(t, env)
  {
    forall env
      ensures Gamma(t, env) ==> Gamma(u, env)
      ensures Unmapped(t.idmap, g) && Gamma(u, env) ==> Gamma(t, env)
    {
      ProjectExact(t, u, g, env);
    }
    ProjectNonEmpty(t, u, g);
  }

  // Projecting loses no element.
  lemma ProjectNonEmpty(s: AState, t: AState, g: nat)
    requires s.poly.Ok() && t.poly.Ok()
    requires forall w: Valuation :: Has(t.poly, w) <==> Projects(s.poly, Identity(s.poly.adapter.Keys - {g}), w)
    ensures Empty(t) <==> Empty(s)
  {
    if !Empty(s) {
      var v: Valuation :| Has(s.poly, v);
      ProjectMeaning(s.poly, s.poly.adapter.Keys - {g}, v);
      assert Has(t.poly, v);
    }
    if !Empty(t) {
      var w: Valuation :| Has(t.poly, w);
      assert Projects(s.poly, Identity(s.poly.adapter.Keys - {g}), w);
    }
  }

  // ----- the results of the simple transfers -----

  // The variable `v` is fresh and becomes that of `id`; the new state is the
  // old one under a constraint.
  ghost predicate Assigns(s: AState, t: AState, id: Ident, v: nat, c: Cons) {
    && s.poly.Ok() && t.poly.Ok() && v !in s.poly.adapter && Unmapped(s.idmap, v)
    && t.idmap == s.idmap[id := IdVal(v, NO_STEP)]
    && (forall w: Valuation :: Has(t.poly, w) <==> Has(s.poly, w) && Sat(c, w))
  }

  lemma ImmediateResult(s: AState, t: AState, id: Ident, v: nat, cst: int)
    requires Assigns(s, t, id, v, EqCons(Var(v), Constant(cst)))
    ensures forall env1, env2 :: Gamma(s, env1) && Assigned(env1, id, cst, env2) ==> Gamma(t, env2)
    ensures Narrowed(s, t, id) && Pinned(t, id, cst)
    ensures forall w: Valuation :: Has(t.poly, w) <==> Has(s.poly, w) && w(v) == cst as real
  {
    hide Plus, Scale, Has;
    var c := EqCons(Var(v), Constant(cst));
    forall w: Valuation
      ensures Sat(c, w) <==> w(v) == cst as real
    {
      EvalConstant(cst, w);
      EqualsMeans(v, Constant(cst), w);
    }
    forall env1, env2 | Gamma(s, env1) && Assigned(env1, id, cst, env2)
      ensures Gamma(t, env2)
    {
      AssignSound(s, t, id, v, c, env1, cst, env2);
    }
  }

  lemma RegisterResult(s: AState, t: AState, id: Ident, src: Ident, v: nat)
    requires src in s.idmap && Assigns(s, t, id, v, EqCons(Var(v), Var(s.idmap[src].g)))
    ensures forall env1, env2 :: Gamma(s, env1) && Assigned(env1, id, env1(src), env2) ==> Gamma(t, env2)
    ensures Narrowed(s, t, id) && forall n :: Pinned(s, src, n) ==> Pinned(t, id, n)
    ensures forall w: Valuation :: Has(t.poly, w) <==> Has(s.poly, w) && w(v) == w(s.idmap[src].g)
  {
    hide Plus, Scale, Has;
    var vs := s.idmap[src].g;
    var c := EqCons(Var(v), Var(vs));
    forall w: Valuation
      ensures Sat(c, w) <==> w(v) == w(vs)
    {
      EvalVar(vs, w);
      EqualsMeans(v, Var(vs), w);
    }
    forall env1, env2 | Gamma(s, env1) && Assigned(env1, id, env1(src), env2)
      ensures Gamma(t, env2)
    {
      AssignSound(s, t, id, v, c, env1, env1(src), env2);
    }
  }

  lemma IncrementResult(s: AState, t: AState, id: Ident, v: nat)
    requires id in s.idmap && Assigns(s, t, id, v, EqCons(Var(v), Plus(Var(s.idmap[id].g), Constant(1))))
    ensures forall env1, env2 :: Gamma(s, env1) && Assigned(env1, id, env1(id) + 1, env2) ==> Gamma(t, env2)
    ensures Narrowed(s, t, id)
    ensures forall w: Valuation :: Has(t.poly, w) <==> Has(s.poly, w) && w(v) == w(s.idmap[id].g) + 1.0
  {
    hide Plus, Scale, Has;
    var h := s.idmap[id].g;
    var c := EqCons(Var(v), Plus(Var(h), Constant(1)));
    forall w: Valuation
      ensures Sat(c, w) <==> w(v) == w(h) + 1.0
    {
      IncrementMeans(v, h, w);
    }
    forall env1, env2 | Gamma(s, env1) && Assigned(env1, id, env1(id) + 1, env2)
      ensures Gamma(t, env2)
    {
      AssignSound(s, t, id, v, c, env1, env1(id) + 1, env2);
    }
  }

  lemma ImmediatePins(s: AState, t: AState, id: Ident, n: int)
    requires Narrowed(s, t, id) && Pinned(t, id, n)
    ensures forall m :: PinnedBy(s, m) ==> PinnedBy(t, m[id := n])
  {
    forall m | PinnedBy(s, m) {
      NarrowedPinsMore(s, t, id, m, n);
    }
  }

  lemma RegisterPins(s: AState, t: AState, id: Ident, src: Ident)
    requires s.poly.Ok() && t.poly.Ok()
    requires src !in s.idmap ==> t == s
    requires src in s.idmap ==> Narrowed(s, t, id) && forall n :: Pinned(s, src, n) ==> Pinned(t, id, n)
    ensures forall m :: PinnedBy(s, m) ==>
              PinnedBy(t, if src !in s.idmap then m else if src in m then m[id := m[src]] else m - {id})
  {
    if src in s.idmap {
      forall m | PinnedBy(s, m)
        ensures PinnedBy(t, if src in m then m[id := m[src]] else m - {id})
      {
        if src !in m {
          NarrowedPins(s, t, id, m);
        } else if Empty(s) {
          assert Empty(t);
        } else {
          NarrowedPinsMore(s, t, id, m, m[src]);
        }
      }
    }
  }

  lemma BinaryPins(s: AState, t: AState, id: Ident)
    requires s.poly.Ok() && t.poly.Ok() && (t == s || Narrowed(s, t, id))
    ensures forall m :: PinnedBy(s, m) ==> PinnedBy(t, m - {id})
  {
    ScratchNothing(s, id);
    if Narrowed(s, t, id) {
      forall m | PinnedBy(s, m) {
        NarrowedPins(s, t, id, m);
      }
    }
  }

  // Nothing is claimed of an identifier that is not mapped.
  lemma UnmappedResult(s: AState, id: Ident)
    requires s.poly.Ok()
    ensures id !in s.idmap ==> forall env1, env2, x :: Gamma(s, env1) && Assigned(env1, id, x, env2) ==> Gamma(s, env2)
  {
    if id !in s.idmap {
      forall env1, env2, x | Gamma(s, env1) && Assigned(env1, id, x, env2)
        ensures Gamma(s, env2)
      {
        GammaAgree(s, env1, env2);
      }
    }
  }

  lemma ScratchNothing(s: AState, id: Ident)
    requires s.poly.Ok()
    ensures forall m :: PinnedBy(s, m) ==> PinnedBy(s, m - {id})
  {
  }

  lemma ScratchResult(s: AState, t: AState, id: Ident)
    requires s.poly.Ok() && t.poly.Ok() && Separate(s.idmap) && id in s.idmap && t.idmap == s.idmap
    requires forall w: Valuation ::
               Has(t.poly, w) <==> Projects(s.poly, Identity(s.poly.adapter.Keys - {s.idmap[id].g}), w)
    ensures forall env1, env2, x :: Gamma(s, env1) && Assigned(env1, id, x, env2) ==> Gamma(t, env2)
    ensures forall m :: PinnedBy(s, m) ==> PinnedBy(t, m - {id})
  {
    forall env1, env2, x | Gamma(s, env1) && Assigned(env1, id, x, env2)
      ensures Gamma(t, env2)
    {
      ScratchSound(s, t, id, env1, x, env2);
    }
    ProjectNonEmpty(s, t, s.idmap[id].g);
    hide Has, Gamma, Empty, Pinned;
    forall m | PinnedBy(s, m)
      ensures PinnedBy(t, m - {id})
    {
      forall i | i in m - {id} && !Empty(s)
        ensures Pinned(t, i, m[i])
      {
        PinMapped(s, i, m[i]);
        ProjectedPin(s, t, s.idmap[id].g, i, m[i]);
      }
    }
  }

  lemma PinMapped(s: AState, id: Ident, n: int)
    requires s.poly.Ok() && Pinned(s, id, n)
    ensures id in s.idmap
  {
  }

  // The value of a state.
  ghost function Snap(d: PPLDomain): Snapshot
    reads d, d.poly
  {
    Snapshot(d.State(), d.compare, d.victims, d.memRef)
  }

  class PPLDomain {
    const lib: Ppl
    const gen: GuidGenerator
    var poly: WPoly
    var idmap: map<Ident, IdVal>
    var victims: seq<nat>
    var numAxis: int
    var memRef: int
    var compare: Option<Filter>

    ghost function State(): AState
      reads this, poly
    {
      AState(poly.Value(), idmap)
    }

    ghost predicate Valid()
      reads this, poly, gen
    {
      && poly.Valid() && poly.lib == lib
      && Separate(idmap)
      && BelowGuids(poly.Value(), idmap, victims, gen.next)
      && (numAxis == -1 ==> Empty(State()))
    }

    // The bottom state.
    constructor (lib: Ppl, gen: GuidGenerator)
      requires lib.Lawful()
      ensures this.lib == lib && this.gen == gen && Valid() && fresh(poly)
      ensures Bottom(Snap(this))
    {
      this.lib := lib;
      this.gen := gen;
      poly := new WPoly(lib, true);
      idmap, victims := map[], [];
      numAxis, memRef := -1, 0;
      compare := None;
    }

    constructor Copy(src: PPLDomain)
      requires src.Valid()
      ensures lib == src.lib && gen == src.gen && Valid() && fresh(poly)
      ensures Snap(this) == Snap(src) && numAxis == src.numAxis
    {
      lib := src.lib;
      gen := src.gen;
      poly := new WPoly.Copy(src.poly);
      idmap, victims := src.idmap, src.victims;
      numAxis, memRef := src.numAxis, src.memRef;
      compare := src.compare;
    }

    method IsBottom() returns (b: bool)
      requires Valid()
      ensures b <==> Empty(State())
      ensures numAxis == -1 ==> b
    {
      b := poly.IsEmpty();
      b := numAxis == -1 || b;
    }

    method SetBottom()
      requires Valid()
      modifies this
      ensures Valid() && fresh(poly) && Bottom(Snap(this))
    {
      poly := new WPoly(lib, true);
      idmap, victims := map[], [];
      numAxis, memRef := -1, 0;
      compare := None;
    }

    // A state without elements is returned as the bottom state.
    method BottomIfEmpty()
      requires Valid()
      modifies this
      ensures Valid() && (poly == old(poly) || fresh(poly))
      ensures Settles(old(Snap(this)), Snap(this))
      ensures Submap(idmap, old(idmap))
      ensures compare == old(compare) || compare == None
      ensures !Empty(State()) ==> idmap == old(idmap) && compare == old(compare)
      ensures forall v: Valuation :: Has(poly.Value(), v) <==> Has(old(poly.Value()), v)
      ensures forall env :: Gamma(old(State()), env) ==> Gamma(State(), env)
      ensures Retired(old(idmap), old(victims)) ==> Retired(idmap, victims)
    {
      var bottom := IsBottom();
      if bottom {
        NothingCovered(State());
        SetBottom();
      }
    }

    // ----- variables -----

    // A fresh variable for `id`.  The variable it had is scheduled to be
    // destroyed.
    method VarNew(id: Ident, step: int, allowReplace: bool) returns (v: nat)
      requires Valid()
      requires id in idmap ==> allowReplace && step == NO_STEP
      modifies this`idmap, this`victims, gen
      ensures Valid()
      ensures v == old(gen.next) && gen.next == v + 1
      ensures idmap == old(idmap)[id := IdVal(v, step)]
      ensures victims == old(victims) + if id in old(idmap) then [old(idmap)[id].g] else []
      ensures Retired(old(idmap), old(victims)) ==> Retired(idmap, victims)
    {
      NumberedFresh(poly.Value(), idmap, victims, gen.next, id, step);
      hide Separate, BelowGuids, Retired, Added, Has;
      v := gen.Fresh();
      if id in idmap {
        victims := victims + [idmap[id].g];
      }
      idmap := Added(idmap, id, IdVal(v, step));
    }

    method NewConstraint(c: Cons)
      requires Valid() && forall g :: g in c.expr.coefs ==> g < gen.next
      modifies poly
      ensures Valid()
      ensures poly.adapter.Keys == old(poly.adapter).Keys + c.expr.coefs.Keys
      ensures forall v: Valuation :: Has(poly.Value(), v) <==> Has(old(poly.Value()), v) && Sat(c, v)
    {
      poly.AddConstraint(c);
    }

    // Unmap an identifier and schedule its variable to be destroyed.
    method VarKill(id: Ident)
      requires Valid() && id in idmap
      modifies this`idmap, this`victims
      ensures Valid()
      ensures idmap == old(idmap) - {id} && victims == old(victims) + [old(idmap)[id].g]
      ensures Retired(old(idmap), old(victims)) ==> Retired(idmap, victims)
    {
      var g := idmap[id];
      idmap := idmap - {id};
      victims := victims + [g.g];
    }

    // Destroy the scheduled variables.  A state without elements becomes the
    // canonical bottom.
    method DoFinalizeUpdate()
      requires Valid()
      modifies this, poly
      ensures Valid() && victims == []
      ensures poly == old(poly) || fresh(poly)
      ensures !Empty(old(State())) ==>
                && poly == old(poly) && idmap == old(idmap) && numAxis == old(numAxis) && compare == old(compare)
                && memRef == old(memRef)
                && poly.adapter.Keys == old(poly.adapter).Keys - VictimSet(old(victims))
      ensures Empty(State()) <==> Empty(old(State()))
      ensures forall env :: Gamma(old(State()), env) ==> Gamma(State(), env)
      ensures Retired(old(idmap), old(victims)) ==> forall env :: Gamma(State(), env) ==> Gamma(old(State()), env)
      ensures Retired(old(idmap), old(victims)) ==> forall m :: PinnedBy(old(State()), m) ==> PinnedBy(State(), m)
      ensures Finalizes(old(Snap(this)), Snap(this))
    {
      hide Projects, Retired;
      ghost var s := State();
      var bottom := IsBottom();
      if bottom {
        SetBottom();
        return;
      }
      hide Destroyed, Empty, Gamma, Has, Bijective, Ppl.Lawful;
      DestroyVictims();
      DestroyedAll(s, victims, State());
      victims := [];
    }

    method DestroyVictims()
      requires Valid() && numAxis != -1
      modifies poly
      ensures Valid() && Destroyed(old(State()), victims, State())
    {
      ghost var s := State();
      NothingDestroyed(s);
      hide Destroyed, Empty, Gamma, Has, Bijective, Ppl.Lawful, BelowGuids, Separate;
      var i := 0;
      while i < |victims|
        invariant 0 <= i <= |victims| && Valid()
        invariant Destroyed(s, victims[..i], State())
      {
        DestroyOne(victims[i], s, victims[..i]);
        assert victims[..i + 1] == victims[..i] + [victims[i]];
        i := i + 1;
      }
      assert victims[..i] == victims;
    }

    // One victim of the loop; `s` is the state the loop started from.
    method DestroyOne(g: nat, ghost s: AState, ghost done: seq<nat>)
      requires Valid() && numAxis != -1 && s.poly.Ok() && s.idmap == idmap && Destroyed(s, done, State())
      modifies poly
      ensures Valid() && Destroyed(s, done + [g], State())
    {
      hide Destroyed, Empty, Gamma, Has, Bijective, Ppl.Lawful, Projects;
      ghost var t := State();
      poly.Unconstrain(g);
      DestroyedMore(s, done, t, g, State());
    }

    // ----- semantic instructions -----

    method DoScratch(id: Ident)
      requires Valid()
      modifies poly
      ensures Valid()
      ensures forall env1, env2, x :: Gamma(old(State()), env1) && Assigned(env1, id, x, env2) ==> Gamma(State(), env2)
      ensures forall m :: PinnedBy(old(State()), m) ==> PinnedBy(State(), m - {id})
      ensures if id in idmap then Scratches(old(Snap(this)), id, Snap(this)) else Snap(this) == old(Snap(this))
    {
      hide Has, Ppl.Lawful, Bijective, Separate, Represents, Gamma;
      ghost var s := State();
      if id !in idmap {
        UnmappedResult(s, id);
        ScratchNothing(s, id);
        return;
      }
      poly.Unconstrain(idmap[id].g);
      ScratchResult(s, State(), id);
    }

    method SetImmediate(id: Ident, cst: int)
      requires Valid()
      modifies this, poly, gen
      ensures gen.next >= old(gen.next)
      ensures Valid() && poly == old(poly) && compare == old(compare)
      ensures idmap == old(idmap)[id := IdVal(old(gen.next), NO_STEP)]
      ensures forall env1, env2 :: Gamma(old(State()), env1) && Assigned(env1, id, cst, env2) ==> Gamma(State(), env2)
      ensures Retired(old(idmap), old(victims)) ==> Retired(idmap, victims)
      ensures Narrowed(old(State()), State(), id) && Pinned(State(), id, cst)
      ensures Sets(old(Snap(this)), id, cst, old(gen.next), Snap(this))
    {
      hide Plus, Scale, Has, Ppl.Lawful, Bijective, Separate, Represents, Gamma;
      ghost var s := State();
      var v := VarNew(id, NO_STEP, true);
      var c := EqCons(Var(v), Constant(cst));
      BoundVars(v, cst);
      NewConstraint(c);
      ImmediateResult(s, State(), id, v, cst);
    }

    // An unknown source register leaves the state as it was, with only a
    // warning: the destination keeps its old variable.
    method SetRegister(id: Ident, src: Ident)
      requires Valid()
      modifies this, poly, gen
      ensures gen.next >= old(gen.next)
      ensures Valid() && poly == old(poly) && compare == old(compare)
      ensures src !in old(idmap) ==> State() == old(State())
      ensures src in old(idmap) ==> idmap == old(idmap)[id := IdVal(old(gen.next), NO_STEP)]
      ensures src in old(idmap) || id !in old(idmap) ==>
                forall env1, env2 :: Gamma(old(State()), env1) && Assigned(env1, id, env1(src), env2) ==>
                    Gamma(State(), env2)
      ensures Retired(old(idmap), old(victims)) ==> Retired(idmap, victims)
      ensures src in old(idmap) ==>
                && Narrowed(old(State()), State(), id)
                && forall n :: Pinned(old(State()), src, n) ==> Pinned(State(), id, n)
      ensures if src in old(idmap) then Moves(old(Snap(this)), id, old(idmap)[src].g, 0, old(gen.next), Snap(this))
              else Snap(this) == old(Snap(this))
    {
      hide Plus, Scale, Has, Ppl.Lawful, Bijective, Separate, Represents, Gamma;
      ghost var s := State();
      if src !in idmap {
        UnmappedResult(s, id);
        return;
      }
      var vs := idmap[src].g;
      var v := VarNew(id, NO_STEP, true);
      var c := EqCons(Var(v), Var(vs));
      CopyVars(v, vs);
      NewConstraint(c);
      RegisterResult(s, State(), id, src, v);
    }

    // Add the constraint of a binary operation on three variables.
    method DoBinaryOp(op: BinOp, v: nat, s1: nat, s2: nat)
      requires Valid() && v < gen.next && s1 < gen.next && s2 < gen.next
      modifies poly
      ensures Valid()
      ensures
        var c := BinCons(op, v, s1, s2, GetConstant(lib, old(poly.Value()), s1),
                         GetConstant(lib, old(poly.Value()), s2));
        if c.None? then poly.Value() == old(poly.Value())
        else forall w: Valuation :: Has(poly.Value(), w) <==> Has(old(poly.Value()), w) && Sat(c.value, w)
      ensures old(poly.adapter).Keys <= poly.adapter.Keys <= old(poly.adapter).Keys + {v, s1, s2}
      ensures forall w: Valuation ::
                Has(poly.Value(), w) <==>
                  && Has(old(poly.Value()), w)
                  && Encoded(op, GetConstant(lib, old(poly.Value()), s1), GetConstant(lib, old(poly.Value()), s2),
                             w(v), w(s1), w(s2))
    {
      hide Plus, Scale, BinCons, Encoded, Has, Ppl.Lawful, GetConstant, Separate, BelowGuids;
      BinConsVars(op, v, s1, s2, GetConstant(lib, poly.Value(), s1), GetConstant(lib, poly.Value(), s2));
      var k1 := GetConstant(lib, Sparse(poly.adapter, poly.poly), s1);
      var k2 := GetConstant(lib, Sparse(poly.adapter, poly.poly), s2);
      var c := BinCons(op, v, s1, s2, k1, k2);
      if c.Some? {
        NewConstraint(c.value);
      }
      forall w: Valuation {
        ConstraintMeans(op, v, s1, s2, k1, k2, w);
      }
    }

    method Binary(op: BinOp, id: Ident, id1: Ident, id2: Ident)
      requires Valid()
      modifies this, poly, gen
      ensures gen.next >= old(gen.next)
      ensures Valid() && poly == old(poly) && compare == old(compare)
      ensures if id1 in old(idmap) && id2 in old(idmap) then idmap == old(idmap)[id := IdVal(old(gen.next), NO_STEP)]
              else State() == old(State())
      ensures forall env1, env2, x ::
                && Gamma(old(State()), env1)
                && BinaryGuard(lib, old(State()), op, id, id1, id2, env1)
                && Result(op, env1(id1), env1(id2), x) && Assigned(env1, id, x, env2)
                ==> Gamma(State(), env2)
      ensures Retired(old(idmap), old(victims)) ==> Retired(idmap, victims)
      ensures id1 in old(idmap) && id2 in old(idmap) ==> Narrowed(old(State()), State(), id)
      ensures if id1 in old(idmap) && id2 in old(idmap)
              then Computes(lib, old(Snap(this)), op, id, id1, id2, old(gen.next), Snap(this))
              else Snap(this) == old(Snap(this))
    {
      hide Ppl.Lawful, Separate, Has, Gamma, Encoded, BinCons, Result, Assigned, BinaryGuard, Represents, Bijective;
      ghost var s := State();
      if id1 !in idmap || id2 !in idmap {
        UnknownOperand(lib, s, op, id, id1, id2);
        return;
      }
      var vs1, vs2 := idmap[id1].g, idmap[id2].g;
      var v := VarNew(id, NO_STEP, true);
      DoBinaryOp(op, v, vs1, vs2);
      BinaryCovers(lib, s, State(), op, id, id1, id2, v);
    }

    // One semantic instruction.
    method Interpret(i: Inst)
      requires Valid()
      modifies this, poly, gen
      ensures gen.next >= old(gen.next)
      ensures Valid() && poly == old(poly)
      ensures forall env1, env2 ::
                Gamma(old(State()), env1) && Step(i, env1, env2) && StepGuard(lib, old(State()), i, env1)
                ==> Gamma(State(), env2)
      ensures idmap.Keys == MappedAfter(old(idmap).Keys, i)
      ensures Plain(old(idmap)) ==> Plain(idmap)
      ensures compare == if i.IF? && Reg(i.sr) in old(idmap) then Some(Filter(Reg(i.sr), i.cond)) else old(compare)
      ensures Retired(old(idmap), old(victims)) ==> Retired(idmap, victims)
      ensures forall m :: PinnedBy(old(State()), m) ==> PinnedBy(State(), PinsAfter(m, old(idmap).Keys, i))
      ensures Interprets(lib, old(Snap(this)), i, old(gen.next), Snap(this))
    {
      hide Has, Ppl.Lawful, Represents, Assigned, Separate, BelowGuids, Narrowed, Pinned, PinnedBy, Gamma, Scratches,
           Sets, Computes;
      ghost var s := State();
      match i {
        case SCRATCH(d) => DoScratch(Reg(d));
        case SETI(d, cst) =>
          SetImmediate(Reg(d), cst);
          ImmediatePins(s, State(), Reg(d), cst);
        case SET(d, a) =>
          SetRegister(Reg(d), Reg(a));
          RegisterPins(s, State(), Reg(d), Reg(a));
        case BIN(op, d, a, b) =>
          Binary(op, Reg(d), Reg(a), Reg(b));
          BinaryPins(s, State(), Reg(d));
        case IF(sr, cond) =>
          if Reg(sr) in idmap {
            compare := Some(Filter(Reg(sr), cond));
          }
        case _ => UninterpretedSound(lib, s, i);
      }
    }

    // The instruction works on a copy of this state.
    method OnSemInst(i: Inst) returns (out: PPLDomain)
      requires Valid() && (compare == None || i.NOP?)
      modifies gen
      ensures Valid() && gen.next >= old(gen.next)
      ensures fresh(out) && fresh(out.poly) && out.Valid() && out.lib == lib && out.gen == gen
      ensures forall env1, env2 ::
                Gamma(old(State()), env1) && Step(i, env1, env2) && StepGuard(lib, old(State()), i, env1)
                ==> Gamma(out.State(), env2)
      ensures out.idmap.Keys == MappedAfter(idmap.Keys, i)
      ensures Plain(idmap) ==> Plain(out.idmap)
      ensures out.compare == if i.IF? && Reg(i.sr) in idmap then Some(Filter(Reg(i.sr), i.cond)) else compare
      ensures Retired(idmap, victims) ==> Retired(out.idmap, out.victims)
      ensures forall m :: PinnedBy(State(), m) ==> PinnedBy(out.State(), PinsAfter(m, idmap.Keys, i))
      ensures Interprets(lib, old(Snap(this)), i, old(gen.next), Snap(out))
    {
      hide Ppl.Lawful, Represents, Separate, BelowGuids, Step, StepGuard, PinnedBy, PinsAfter, Gamma, MappedAfter,
           Valid;
      out := new PPLDomain.Copy(this);
      out.Interpret(i);
      StillValid(this);
    }

    // ----- cleaning up -----

    // Unmap the temporary registers (those with a negative number).
    method DoKillTemporaries()
      requires Valid()
      modifies this`idmap, this`victims
      ensures Valid()
      ensures forall id :: id in idmap <==> id in old(idmap) && !(Temporary(id) && old(idmap)[id].s == NO_STEP)
      ensures Submap(idmap, old(idmap))
      ensures forall env :: Gamma(old(State()), env) ==> Gamma(State(), env)
      ensures Retired(old(idmap), old(victims)) ==> Retired(idmap, victims)
      ensures poly == old(poly) && Cleans(old(Snap(this)), Snap(this))
    {
      hide Separate, BelowGuids, Retired, VictimSet;
      var toDel := set id | id in idmap && Temporary(id) && idmap[id].s == NO_STEP;
      ghost var all, was := toDel, idmap;
      while toDel != {}
        invariant Valid() && toDel <= all
        invariant forall id :: id in idmap <==> id in was && (id in all ==> id in toDel)
        invariant Submap(idmap, was)
        invariant Retired(was, old(victims)) ==> Retired(idmap, victims)
        invariant VictimSet(victims) == VictimSet(old(victims)) + Scheduled(was, all - toDel)
        decreases toDel
      {
        var id :| id in toDel;
        OneVictim(victims, idmap[id].g);
        OneScheduled(was, all - toDel, id);
        assert all - toDel + {id} == all - (toDel - {id});
        VarKill(id);
        toDel := toDel - {id};
      }
      assert all - toDel == all && idmap == was - all;
      forall env | Gamma(old(State()), env) {
        GammaMonotone(old(State()), State(), env);
      }
    }

    // ----- loop counters -----

    method OnLoopEntry(loop: int) returns (out: PPLDomain)
      requires Valid()
      modifies gen
      ensures Valid() && gen.next >= old(gen.next)
      ensures fresh(out) && fresh(out.poly) && out.Valid() && out.lib == lib && out.gen == gen
      ensures out.compare == compare
      ensures out.idmap.Keys == idmap.Keys + {Counter(loop)}
      ensures Plain(idmap) ==> Plain(out.idmap)
      ensures forall env1, env2 ::
                Gamma(old(State()), env1) && Assigned(env1, Counter(loop), 0, env2) ==> Gamma(out.State(), env2)
      ensures Retired(idmap, victims) ==> Retired(out.idmap, out.victims)
      ensures forall m :: PinnedBy(State(), m) ==> PinnedBy(out.State(), m - {Counter(loop)})
      ensures Sets(old(Snap(this)), Counter(loop), 0, old(gen.next), Snap(out))
    {
      out := new PPLDomain.Copy(this);
      out.SetImmediate(Counter(loop), 0);
      BinaryPins(State(), out.State(), Counter(loop));
    }

    method Increment(id: Ident)
      requires Valid() && id in idmap
      modifies this, poly, gen
      ensures gen.next >= old(gen.next)
      ensures Valid() && poly == old(poly) && compare == old(compare)
      ensures idmap == old(idmap)[id := IdVal(old(gen.next), NO_STEP)]
      ensures forall env1, env2 ::
                Gamma(old(State()), env1) && Assigned(env1, id, env1(id) + 1, env2) ==> Gamma(State(), env2)
      ensures Retired(old(idmap), old(victims)) ==> Retired(idmap, victims)
      ensures Narrowed(old(State()), State(), id)
      ensures Moves(old(Snap(this)), id, old(idmap)[id].g, 1, old(gen.next), Snap(this))
    {
      hide Plus, Scale, Has, Ppl.Lawful, Bijective, Separate, Represents, Gamma;
      ghost var s := State();
      var vOld := idmap[id].g;
      var vNew := VarNew(id, NO_STEP, true);
      var c := EqCons(Var(vNew), Plus(Var(vOld), Constant(1)));
      IncrementVars(vNew, vOld);
      NewConstraint(c);
      IncrementResult(s, State(), id, vNew);
    }

    // The state asserts that it is inside the loop already.
    method OnLoopIter(loop: int) returns (out: PPLDomain)
      requires Valid() && Counter(loop) in idmap
      modifies gen
      ensures Valid() && gen.next >= old(gen.next)
      ensures fresh(out) && fresh(out.poly) && out.Valid() && out.lib == lib && out.gen == gen
      ensures out.compare == compare
      ensures out.idmap.Keys == idmap.Keys
      ensures Plain(idmap) ==> Plain(out.idmap)
      ensures forall env1, env2 ::
                && Gamma(old(State()), env1)
                && Assigned(env1, Counter(loop), env1(Counter(loop)) + 1, env2)
                ==> Gamma(out.State(), env2)
      ensures Retired(idmap, victims) ==> Retired(out.idmap, out.victims)
      ensures forall m :: PinnedBy(State(), m) ==> PinnedBy(out.State(), m - {Counter(loop)})
      ensures Moves(old(Snap(this)), Counter(loop), idmap[Counter(loop)].g, 1, old(gen.next), Snap(out))
    {
      out := new PPLDomain.Copy(this);
      out.Increment(Counter(loop));
      BinaryPins(State(), out.State(), Counter(loop));
    }

    method Limit(id: Ident, bound: int)
      requires Valid() && id in idmap
      modifies poly
      ensures Valid()
      ensures forall v: Valuation :: Has(poly.Value(), v) <==>
                Has(old(poly.Value()), v) && v(idmap[id].g) <= bound as real
      ensures poly.adapter.Keys == old(poly.adapter).Keys + {idmap[id].g}
      ensures forall env :: Gamma(old(State()), env) && env(id) <= bound ==> Gamma(State(), env)
    {
      hide Plus, Scale, Has;
      BoundVars(idmap[id].g, bound);
      ghost var s := State();
      var v := idmap[id].g;
      var c := LeCons(Var(v), Constant(bound));
      NewConstraint(c);
      forall w: Valuation
        ensures Has(poly.Value(), w) <==> Has(s.poly, w) && w(v) <= bound as real
      {
        AtMostMeans(v, bound, w);
      }
      forall env | Gamma(s, env) && env(id) <= bound
        ensures Gamma(State(), env)
      {
        forall w: Valuation | Represents(s.idmap, w, env)
          ensures Sat(c, w)
        {
          AtMostMeans(v, bound, w);
        }
        FilterSound(s, State(), c, env);
      }
    }

    method Forget(id: Ident)
      requires Valid() && id in idmap
      modifies this`idmap, this`victims
      ensures Valid() && idmap == old(idmap) - {id} && Snap(this) == Forgets(old(Snap(this)), id, poly.Value())
      ensures forall env :: Gamma(old(State()), env) ==> Gamma(State(), env)
      ensures Retired(old(idmap), old(victims)) ==> Retired(idmap, victims)
    {
      VarKill(id);
      forall env | Gamma(old(State()), env) {
        GammaMonotone(old(State()), State(), env);
      }
    }

    // Leaving the loop: a non-negative bound, a C `int`, is imposed on the
    // counter, and the counter is forgotten.
    method OnLoopExit(loop: int, bound: CInt) returns (out: PPLDomain)
      requires Valid() && Counter(loop) in idmap
      modifies gen
      ensures Valid() && gen.next >= old(gen.next)
      ensures fresh(out) && fresh(out.poly) && out.Valid() && out.lib == lib && out.gen == gen
      ensures Counter(loop) !in out.idmap && (out.compare == compare || out.compare == None)
      ensures !Empty(out.State()) ==> out.idmap == idmap - {Counter(loop)} && out.compare == compare
      ensures Submap(out.idmap, idmap)
      ensures forall v: Valuation :: Has(out.poly.Value(), v) <==>
                Has(old(poly.Value()), v) && (bound >= 0 ==> v(old(idmap)[Counter(loop)].g) <= bound as real)
      ensures forall env ::
                Gamma(old(State()), env) && (bound >= 0 ==> env(Counter(loop)) <= bound) ==> Gamma(out.State(), env)
      ensures Retired(idmap, victims) ==> Retired(out.idmap, out.victims)
      ensures Leaves(old(Snap(this)), loop, bound, Snap(out))
    {
      hide PPLDomain.Valid, Ppl.Lawful, Separate, BelowGuids, Empty, Retired, Bottom;
      var id := Counter(loop);
      out := new PPLDomain.Copy(this);
      if bound >= 0 {
        out.Limit(id, bound);
      }
      ghost var u := out.poly.Value();
      ValidPoly(this);
      ValidPoly(out);
      assert Limits(poly.Value(), idmap[id].g, bound, u);
      out.Forget(id);
      out.BottomIfEmpty();
    }

    // ----- branches -----

    method FilterBy(reg: Ident, op: Cond)
      requires Valid() && reg in idmap && numAxis != -1
      modifies poly
      ensures Valid()
      ensures forall env :: Gamma(old(State()), env) && Holds(op, env(reg)) ==> Gamma(State(), env)
      ensures Filters(lib, old(poly.Value()), op, idmap[reg].g, poly.Value())
    {
      hide Plus, Scale, Ppl.Lawful, Separate, Has, Empty;
      CondVars(op, idmap[reg].g);
      ghost var s := State();
      var v := idmap[reg].g;
      if op == NE {
        FilterDifferent(reg);
        return;
      }
      var c := CondCons(op, v);
      if c.Some? {
        NewConstraint(c.value);
        forall w: Valuation {
          ConditionMeans(op, v, w);
        }
        forall env | Gamma(s, env) && Holds(op, env(reg))
          ensures Gamma(State(), env)
        {
          forall w: Valuation | Represents(s.idmap, w, env)
            ensures Sat(c.value, w)
          {
            CondMeans(op, v, env(reg), w);
          }
          FilterSound(s, State(), c.value, env);
        }
      }
    }

    method FilterDifferent(reg: Ident)
      requires Valid() && reg in idmap && numAxis != -1
      modifies poly
      ensures Valid()
      ensures forall env :: Gamma(old(State()), env) && env(reg) != 0 ==> Gamma(State(), env)
      ensures Filters(lib, old(poly.Value()), NE, idmap[reg].g, poly.Value())
    {
      hide Filters, Gamma;
      ghost var s := State();
      ExcludeZero(poly, idmap[reg].g);
      forall env | Gamma(s, env) && env(reg) != 0
        ensures Gamma(State(), env)
      {
        OutsideZero(s, State(), reg, env);
      }
    }

    // Filter by the pending comparison, which is then consumed.
    method TakeBranch(taken: bool)
      requires Valid() && compare.Some? && compare.value.reg in idmap && numAxis != -1
      modifies this, poly
      ensures Valid() && poly == old(poly) && compare == None
      ensures idmap == old(idmap) - {old(compare).value.reg}
      ensures
        var Filter(reg, cond) := old(compare).value;
        && Filters(lib, old(poly.Value()), if taken then cond else Invert(cond), old(idmap)[reg].g, poly.Value())
        && Snap(this) == Forgets(old(Snap(this)), reg, poly.Value()).(compare := None)
      ensures forall env ::
                Gamma(old(State()), env) && Follows(old(compare).value.cond, env(old(compare).value.reg), taken)
                ==> Gamma(State(), env)
      ensures Retired(old(idmap), old(victims)) ==> Retired(idmap, victims)
    {
      var reg := compare.value.reg;
      var op := if taken then compare.value.cond else Invert(compare.value.cond);
      forall r {
        InvertMeans(compare.value.cond, r, taken);
      }
      FilterBy(reg, op);
      Forget(reg);
      compare := None;
    }

    method OnBranch(taken: bool) returns (out: PPLDomain)
      requires Valid() && compare.Some? && compare.value.reg in idmap
      modifies gen
      ensures Valid() && gen.next >= old(gen.next)
      ensures fresh(out) && fresh(out.poly) && out.Valid() && out.lib == lib && out.gen == gen
      ensures out.compare == None
      ensures !Empty(out.State()) ==> out.idmap == idmap - {compare.value.reg}
      ensures Submap(out.idmap, idmap)
      ensures forall env, a, b ::
                && Gamma(old(State()), env) && env(compare.value.reg) == a - b
                && BranchExact(compare.value.cond, a, b) && GoesTo(compare.value.cond, a, b, taken)
                ==> Gamma(out.State(), env)
      ensures Retired(idmap, victims) ==> Retired(out.idmap, out.victims)
      ensures Branches(lib, old(Snap(this)), taken, Snap(out))
    {
      hide Ppl.Lawful, Separate, BelowGuids, Filters, Holds, Decides, BranchExact;
      var bottom := IsBottom();
      if bottom {
        NothingCovered(State());
        out := new PPLDomain(lib, gen);
      } else {
        out := BranchCopy(taken);
        forall env, a, b | && Gamma(State(), env) && env(compare.value.reg) == a - b
                           && BranchExact(compare.value.cond, a, b) && GoesTo(compare.value.cond, a, b, taken)
          ensures Gamma(out.State(), env)
        {
          FilterAgrees(compare.value.cond, a, b);
        }
      }
    }

    // The branch on a copy of a state that is not bottom.
    method BranchCopy(taken: bool) returns (out: PPLDomain)
      requires Valid() && compare.Some? && compare.value.reg in idmap && numAxis != -1 && !Empty(State())
      ensures fresh(out) && fresh(out.poly) && out.Valid() && out.lib == lib && out.gen == gen
      ensures out.compare == None
      ensures !Empty(out.State()) ==> out.idmap == idmap - {compare.value.reg}
      ensures Submap(out.idmap, idmap)
      ensures forall env ::
                Gamma(State(), env) && Follows(compare.value.cond, env(compare.value.reg), taken)
                ==> Gamma(out.State(), env)
      ensures Retired(idmap, victims) ==> Retired(out.idmap, out.victims)
      ensures Branches(lib, Snap(this), taken, Snap(out))
    {
      hide Ppl.Lawful, Separate, BelowGuids, Filters, Follows, Gamma, Bottom, Valid, Retired;
      out := new PPLDomain.Copy(this);
      out.TakeBranch(taken);
      ghost var u := out.poly.Value();
      ValidPoly(this);
      ValidPoly(out);
      out.BottomIfEmpty();
      ValidPoly(out);
      StillValid(this);
    }
  }

  // Which way a branch on the comparison of `a` with `b` goes.
  ghost predicate GoesTo(c: Cond, a: int, b: int, taken: bool) {
    c == OTHER_COND || (Decides(c, a, b) <==> taken)
  }

  // Which way the filter takes it to go.
  ghost predicate Follows(c: Cond, r: int, taken: bool) {
    c == OTHER_COND || (Holds(c, r) <==> taken)
  }

  lemma InvertMeans(c: Cond, r: int, taken: bool)
    ensures Follows(c, r, taken) <==> Holds(if taken then c else Invert(c), r)
  {
  }

  // "Different from zero" becomes the hull of "at most -1" and "at least 1".
  method ExcludeZero(p: WPoly, v: nat)
    requires p.Valid()
    modifies p
    ensures p.Valid() && p.adapter.Keys == old(p.adapter).Keys + {v}
    ensures forall w: Valuation ::
              Has(old(p.Value()), w) && (w(v) <= -1.0 || w(v) >= 1.0) ==> Has(p.Value(), w)
    ensures Filters(p.lib, old(p.Value()), NE, v, p.Value())
  {
    hide Plus, Scale, Has, Ppl.Lawful, Bijective;
    BoundVars(v, -1);
    BoundVars(v, 1);
    ghost var s := p.Value();
    var q := new WPoly.Copy(p);
    p.AddConstraint(LeCons(Var(v), Constant(-1)));
    q.AddConstraint(GeCons(Var(v), Constant(1)));
    SidesAre(s, v, p.Value(), q.Value());
    hide Sides, IsHull, LeCons, GeCons, Sat, Bijective, Ppl.Lawful;
    ghost var low, high := p.Value(), q.Value();
    assert v in p.adapter.Keys * q.adapter.Keys;
    var ok := p.PolyHullAssign(q);
    SidesCovered(s, v, low, high, p.Value());
  }

  lemma SidesAre(s: Sparse, v: nat, low: Sparse, high: Sparse)
    requires s.Ok() && low.Ok() && high.Ok()
    requires low.adapter.Keys == s.adapter.Keys + {v} && high.adapter.Keys == s.adapter.Keys + {v}
    requires forall w: Valuation :: Has(low, w) <==> Has(s, w) && Sat(LeCons(Var(v), Constant(-1)), w)
    requires forall w: Valuation :: Has(high, w) <==> Has(s, w) && Sat(GeCons(Var(v), Constant(1)), w)
    ensures Sides(s, v, low, high)
  {
    hide Has, LeCons, GeCons, Sat;
    forall w: Valuation
      ensures Has(low, w) <==> Has(s, w) && w(v) <= -1.0
      ensures Has(high, w) <==> Has(s, w) && w(v) >= 1.0
    {
      AtMostMeans(v, -1, w);
      AtLeastMeans(v, 1, w);
    }
  }

  lemma SidesCovered(s: Sparse, v: nat, low: Sparse, high: Sparse, t: Sparse)
    requires Sides(s, v, low, high) && t.Ok() && forall w: Valuation :: Has(low, w) || Has(high, w) ==> Has(t, w)
    ensures s.Ok() && forall w: Valuation :: Has(s, w) && (w(v) <= -1.0 || w(v) >= 1.0) ==> Has(t, w)
  {
  }

  lemma OutsideZero(s: AState, t: AState, reg: Ident, env: Env)
    requires s.poly.Ok() && t.poly.Ok() && t.idmap == s.idmap && reg in s.idmap
    requires forall w: Valuation ::
               Has(s.poly, w) && (w(s.idmap[reg].g) <= -1.0 || w(s.idmap[reg].g) >= 1.0) ==> Has(t.poly, w)
    requires Gamma(s, env) && env(reg) != 0
    ensures Gamma(t, env)
  {
    var w: Valuation :| Has(s.poly, w) && Represents(s.idmap, w, env);
    assert Has(t.poly, w) && Represents(t.idmap, w, env);
  }

  // The filter of a condition other than "different".
  function CondCons(c: Cond, v: nat): Option<Cons> {
    match c
    case EQ => Some(EqCons(Var(v), Constant(0)))
    case GE => Some(GeCons(Var(v), Constant(0)))
    case UGE => Some(GeCons(Var(v), Constant(0)))
    case GT => Some(GeCons(Var(v), Constant(1)))
    case UGT => Some(GeCons(Var(v), Constant(1)))
    case LE => Some(LeCons(Var(v), Constant(0)))
    case ULE => Some(LeCons(Var(v), Constant(0)))
    case LT => Some(LeCons(Var(v), Constant(-1)))
    case ULT => Some(LeCons(Var(v), Constant(-1)))
    case _ => None
  }

  // On integers the filters are exactly the conditions.
  lemma CondMeans(c: Cond, v: nat, r: int, w: Valuation)
    requires w(v) == r as real && CondCons(c, v).Some?
    ensures Sat(CondCons(c, v).value, w) <==> Holds(c, r)
  {
    AtMostMeans(v, 0, w);
    AtMostMeans(v, -1, w);
    AtLeastMeans(v, 0, w);
    AtLeastMeans(v, 1, w);
    EvalConstant(0, w);
    EqualsMeans(v, Constant(0), w);
  }

  // On all values they are what the branch leaves.
  lemma ConditionMeans(c: Cond, v: nat, w: Valuation)
    requires CondCons(c, v).Some?
    ensures Sat(CondCons(c, v).value, w) <==> Meets(c, w(v))
  {
    AtMostMeans(v, 0, w);
    AtMostMeans(v, -1, w);
    AtLeastMeans(v, 0, w);
    AtLeastMeans(v, 1, w);
    EvalConstant(0, w);
    EqualsMeans(v, Constant(0), w);
  }

  // The variables of these constraints.
  lemma BoundVars(v: nat, k: int)
    ensures LeCons(Var(v), Constant(k)).expr.coefs.Keys == {v}
    ensures GeCons(Var(v), Constant(k)).expr.coefs.Keys == {v}
    ensures EqCons(Var(v), Constant(k)).expr.coefs.Keys == {v}
  {
  }

  lemma CopyVars(v: nat, h: nat)
    requires v != h
    ensures EqCons(Var(v), Var(h)).expr.coefs.Keys == {v, h}
  {
  }

  lemma CondVars(c: Cond, v: nat)
    ensures CondCons(c, v).Some? ==> CondCons(c, v).value.expr.coefs.Keys == {v}
  {
    hide LeCons, GeCons, EqCons;
    BoundVars(v, 0);
    BoundVars(v, 1);
    BoundVars(v, -1);
  }

  lemma IncrementVars(g: nat, h: nat)
    requires g != h
    ensures EqCons(Var(g), Plus(Var(h), Constant(1))).expr.coefs.Keys == {g, h}
  {
    assert Plus(Var(h), Constant(1)).coefs == map[h := 1];
  }

  lemma AtMostMeans(v: nat, k: int, w: Valuation)
    ensures Sat(LeCons(Var(v), Constant(k)), w) <==> w(v) <= k as real
  {
    EvalVar(v, w);
    EvalConstant(k, w);
    GeMeans(Constant(k), Var(v), w);
  }

  lemma AtLeastMeans(v: nat, k: int, w: Valuation)
    ensures Sat(GeCons(Var(v), Constant(k)), w) <==> w(v) >= k as real
  {
    EvalVar(v, w);
    EvalConstant(k, w);
    GeMeans(Var(v), Constant(k), w);
  }

  lemma IncrementMeans(g: nat, h: nat, w: Valuation)
    ensures Sat(EqCons(Var(g), Plus(Var(h), Constant(1))), w) <==> w(g) == w(h) + 1.0
  {
    EvalVar(h, w);
    EvalConstant(1, w);
    EvalPlus(Var(h), Constant(1), w);
    EqualsMeans(g, Plus(Var(h), Constant(1)), w);
  }

  // What makes a binary operation sound: both operands are mapped (or the
  // destination is not, so that nothing is claimed of it), and the encoding
  // is right for these operands.
  ghost predicate BinaryGuard(lib: Ppl, s: AState, op: BinOp, id: Ident, id1: Ident, id2: Ident, env: Env) {
    if id1 in s.idmap && id2 in s.idmap then
      && (op == SHL || op == SHR || op == ASR ==> env(id2) >= 0)
      && Exact(op, env(id1), env(id2), OperandConstant(lib, s, id1), OperandConstant(lib, s, id2))
    else id !in s.idmap
  }

  // What makes an instruction sound.  The page and complement instructions
  // are not interpreted at all, so they must not touch a mapped register.
  ghost predicate StepGuard(lib: Ppl, s: AState, i: Inst, env: Env) {
    match i
    case SETP(d) => Reg(d) !in s.idmap
    case NOT(d, _) => Reg(d) !in s.idmap
    case SET(d, a) => Reg(a) in s.idmap || Reg(d) !in s.idmap
    case BIN(op, d, a, b) => BinaryGuard(lib, s, op, Reg(d), Reg(a), Reg(b), env)
    case _ => true
  }

  // Instructions that leave the abstract state alone.
  lemma UninterpretedSound(lib: Ppl, s: AState, i: Inst)
    requires s.poly.Ok() && (i.NOP? || i.SETP? || i.NOT?)
    ensures forall env1, env2 :: Gamma(s, env1) && Step(i, env1, env2) && StepGuard(lib, s, i, env1) ==> Gamma(s, env2)
  {
    forall env1, env2 | Gamma(s, env1) && Step(i, env1, env2) && StepGuard(lib, s, i, env1)
      ensures Gamma(s, env2)
    {
      GammaAgree(s, env1, env2);
    }
  }

  lemma KnownOperand(lib: Ppl, s: AState, id: Ident, v: Valuation, env: Env)
    requires lib.Lawful() && s.poly.Ok() && id in s.idmap
    requires Has(s.poly, v) && Represents(s.idmap, v, env)
    ensures KnownAs(OperandConstant(lib, s, id), env(id))
  {
    KnownValue(lib, s, id, v, env(id));
  }

  lemma BinarySound(lib: Ppl, s: AState, t: AState, op: BinOp, id: Ident, id1: Ident, id2: Ident, v: nat,
                    env1: Env, x: int, env2: Env)
    requires lib.Lawful() && s.poly.Ok() && t.poly.Ok()
    requires id1 in s.idmap && id2 in s.idmap
    requires v !in s.poly.adapter && Unmapped(s.idmap, v)
    requires t.idmap == s.idmap[id := IdVal(v, NO_STEP)]
    requires
      var c := BinCons(op, v, s.idmap[id1].g, s.idmap[id2].g,
                       OperandConstant(lib, s, id1), OperandConstant(lib, s, id2));
      if c.None? then t.poly == s.poly
      else forall w: Valuation :: Has(t.poly, w) <==> Has(s.poly, w) && Sat(c.value, w)
    requires Gamma(s, env1) && BinaryGuard(lib, s, op, id, id1, id2, env1)
    requires Result(op, env1(id1), env1(id2), x) && Assigned(env1, id, x, env2)
    ensures Gamma(t, env2)
  {
    var k1, k2 := OperandConstant(lib, s, id1), OperandConstant(lib, s, id2);
    var c := BinCons(op, v, s.idmap[id1].g, s.idmap[id2].g, k1, k2);
    if c.None? {
      FreshSound(s, t, id, v, env1, x, env2);
    } else {
      forall w: Valuation | Has(s.poly, w) && Represents(s.idmap, w, env1)
        ensures Sat(c.value, Update(w, v, x as real))
      {
        KnownOperand(lib, s, id1, w, env1);
        KnownOperand(lib, s, id2, w, env1);
        ConstraintExact(op, v, s.idmap[id1].g, s.idmap[id2].g, k1, k2, env1(id1), env1(id2), x,
                        Update(w, v, x as real));
      }
      AssignSound(s, t, id, v, c.value, env1, x, env2);
    }
  }

  lemma BinaryCovers(lib: Ppl, s: AState, t: AState, op: BinOp, id: Ident, id1: Ident, id2: Ident, v: nat)
    requires lib.Lawful() && s.poly.Ok() && t.poly.Ok()
    requires id1 in s.idmap && id2 in s.idmap
    requires v !in s.poly.adapter && Unmapped(s.idmap, v)
    requires t.idmap == s.idmap[id := IdVal(v, NO_STEP)]
    requires
      var c := BinCons(op, v, s.idmap[id1].g, s.idmap[id2].g,
                       OperandConstant(lib, s, id1), OperandConstant(lib, s, id2));
      if c.None? then t.poly == s.poly
      else forall w: Valuation :: Has(t.poly, w) <==> Has(s.poly, w) && Sat(c.value, w)
    ensures Narrowed(s, t, id)
    ensures forall env1, env2, x ::
              && Gamma(s, env1) && BinaryGuard(lib, s, op, id, id1, id2, env1)
              && Result(op, env1(id1), env1(id2), x) && Assigned(env1, id, x, env2)
              ==> Gamma(t, env2)
  {
    hide Gamma, Has, BinCons, Result, Assigned, BinaryGuard, Ppl.Lawful;
    forall env1, env2, x | Gamma(s, env1) && BinaryGuard(lib, s, op, id, id1, id2, env1)
                           && Result(op, env1(id1), env1(id2), x) && Assigned(env1, id, x, env2)
      ensures Gamma(t, env2)
    {
      BinarySound(lib, s, t, op, id, id1, id2, v, env1, x, env2);
    }
  }

  lemma UnknownOperand(lib: Ppl, s: AState, op: BinOp, id: Ident, id1: Ident, id2: Ident)
    requires s.poly.Ok() && (id1 !in s.idmap || id2 !in s.idmap)
    ensures forall env1, env2, x ::
              && Gamma(s, env1) && BinaryGuard(lib, s, op, id, id1, id2, env1)
              && Result(op, env1(id1), env1(id2), x) && Assigned(env1, id, x, env2)
              ==> Gamma(s, env2)
  {
    UnmappedResult(s, id);
  }

  // When the destination is not an operand, this is exact: the result covers
  // the step if and only if the encoding is right for the operands.
  lemma BinaryExact(lib: Ppl, s: AState, t: AState, op: BinOp, id: Ident, id1: Ident, id2: Ident, v: nat,
                    env1: Env, x: int, env2: Env)
    requires lib.Lawful() && s.poly.Ok() && t.poly.Ok()
    requires id1 in s.idmap && id2 in s.idmap && id != id1 && id != id2
    requires v !in s.poly.adapter && Unmapped(s.idmap, v)
    requires t.idmap == s.idmap[id := IdVal(v, NO_STEP)]
    requires
      var c := BinCons(op, v, s.idmap[id1].g, s.idmap[id2].g,
                       OperandConstant(lib, s, id1), OperandConstant(lib, s, id2));
      if c.None? then t.poly == s.poly
      else forall w: Valuation :: Has(t.poly, w) <==> Has(s.poly, w) && Sat(c.value, w)
    requires Gamma(s, env1) && (op == SHL || op == SHR || op == ASR ==> env1(id2) >= 0)
    requires ShiftDefined(op, OperandConstant(lib, s, id2))
    requires Result(op, env1(id1), env1(id2), x) && Assigned(env1, id, x, env2)
    ensures
      Gamma(t, env2) <==>
        Exact(op, env1(id1), env1(id2), OperandConstant(lib, s, id1), OperandConstant(lib, s, id2))
  {
    var k1, k2 := OperandConstant(lib, s, id1), OperandConstant(lib, s, id2);
    if Exact(op, env1(id1), env1(id2), k1, k2) {
      BinarySound(lib, s, t, op, id, id1, id2, v, env1, x, env2);
    }
    if Gamma(t, env2) {
      var w: Valuation :| Has(t.poly, w) && Represents(t.idmap, w, env2);
      assert t.idmap[id1] == s.idmap[id1] && t.idmap[id2] == s.idmap[id2] && t.idmap[id].g == v;
      KnownValue(lib, s, id1, w, env1(id1));
      KnownValue(lib, s, id2, w, env1(id2));
      hide Represents, Gamma, Has, BinCons, Exact;
      ConstraintExact(op, v, s.idmap[id1].g, s.idmap[id2].g, k1, k2, env1(id1), env1(id2), x, w);
    }
  }
}
