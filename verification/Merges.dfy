/**
 * Joining and widening two abstract states: unify the numbering of the
 * variables, then take an upper bound of the two polyhedra.
 *
 * The states carry registers, specials and loop counters only; what the
 * unification does for memory cells is not part of this model.
 */
module Merges {
  import opened LinearExpressions
  import opened Polyhedra
  import opened SparsePolyhedra
  import opened UpperBounds
  import opened WPolys
  import opened Mappings
  import opened AbstractStates
  import opened Transfers
  import opened Domains

  predicate Memory(t: IdentType) {
    t == ID_MEM_ADDR || t == ID_MEM_COUNT || t == ID_MEM_VAL || t == ID_MEM_VAL_PLUS || t == ID_MEM_VAL_MINUS
  }

  // Identifiers are registers, specials and loop counters, each with a
  // variable of its own.
  ghost predicate Scalar(m: map<Ident, IdVal>) {
    forall id :: id in m ==> !Memory(id.typ) && m[id].s == NO_STEP
  }

  // The identifiers both states know, under the right state's variables.
  ghost function Shared(l: map<Ident, IdVal>, r: map<Ident, IdVal>): map<Ident, IdVal> {
    map id | id in l && id in r :: r[id]
  }

  // The renaming of the left state's variables: each shared identifier's
  // variable becomes the one it has on the right.
  ghost predicate Unifies(rename: map<nat, nat>, l: map<Ident, IdVal>, r: map<Ident, IdVal>) {
    && (forall id :: id in l && id in r ==> l[id].g in rename && rename[l[id].g] == r[id].g)
    && (forall g :: g in rename ==> exists id :: id in l && id in r && l[id].g == g)
  }

  // The renaming is injective, and a variable is dropped exactly when its
  // identifier is absent from the right state.
  lemma UnifyInjective(rename: map<nat, nat>, l: map<Ident, IdVal>, r: map<Ident, IdVal>)
    requires Unifies(rename, l, r) && Separate(l) && Separate(r)
    ensures Injective(rename)
    ensures forall id :: id in l ==> (l[id].g in rename <==> id in r)
  {
    forall id | id in l && l[id].g in rename
      ensures id in r
    {
      var i :| i in l && i in r && l[i].g == l[id].g;
    }
    forall g, h | g in rename && h in rename && rename[g] == rename[h]
      ensures g == h
    {
      var i :| i in l && i in r && l[i].g == g;
      var j :| j in l && j in r && l[j].g == h;
    }
  }

  method UnifyRename(l: map<Ident, IdVal>, r: map<Ident, IdVal>) returns (rename: map<nat, nat>)
    requires Scalar(l) && Separate(l)
    ensures Unifies(rename, l, r)
  {
    rename := map[];
    var todo := l.Keys;
    while todo != {}
      invariant todo <= l.Keys
      invariant forall id :: id in l && id in r && id !in todo ==> l[id].g in rename && rename[l[id].g] == r[id].g
      invariant forall g :: g in rename ==> exists id :: id in l && id in r && id !in todo && l[id].g == g
      decreases todo
    {
      var id :| id in todo;
      if !Memory(id.typ) && id in r {
        rename := rename[l[id].g := r[id].g];
      }
      todo := todo - {id};
    }
  }

  // The identifiers of a state after its variables were renamed.
  method MapIdents(m: map<Ident, IdVal>, rename: map<nat, nat>) returns (m': map<Ident, IdVal>)
    requires Separate(m) && Injective(rename)
    ensures forall id :: id in m' <==> id in m && m[id].g in rename
    ensures forall id :: id in m' ==> m'[id] == IdVal(rename[m[id].g], m[id].s)
  {
    m' := map[];
    var todo := m.Keys;
    while todo != {}
      invariant todo <= m.Keys
      invariant forall id :: id in m' <==> id in m && id !in todo && m[id].g in rename
      invariant forall id :: id in m' ==> m'[id] == IdVal(rename[m[id].g], m[id].s)
      decreases todo
    {
      var id :| id in todo;
      if m[id].g in rename {
        var g := IdVal(rename[m[id].g], m[id].s);
        AddedFresh(m', id, g);
        m' := Added(m', id, g);
      }
      todo := todo - {id};
    }
  }

  // The variables the left state tracks once it is renamed, when it tracked
  // `keys` before.
  ghost function UnifiedKeys(keys: set<nat>, l: map<Ident, IdVal>, r: map<Ident, IdVal>): set<nat> {
    set id | id in l && id in r && l[id].g in keys :: r[id].g
  }

  // Each shared identifier's variable on the right, and the tracked variable
  // on the left that it is read from.
  ghost function UnifySource(keys: set<nat>, l: map<Ident, IdVal>, r: map<Ident, IdVal>): map<nat, nat>
    requires Separate(r)
  {
    map id | id in l && id in r && l[id].g in keys :: r[id].g := l[id].g
  }

  // The variables the left state tracks when unification looks at it: with
  // avatar creation it is finalised first.
  ghost function TrackedLeft(keys: set<nat>, victims: seq<nat>, avcreate: bool): set<nat> {
    if avcreate then keys - VictimSet(victims) else keys
  }

  // Renumber the left state so that shared identifiers have the right
  // state's variables.
  method DoMap(l1: PPLDomain, r: map<Ident, IdVal>)
    requires l1.Valid() && Separate(r) && Scalar(l1.idmap) && Scalar(r)
    requires forall id :: id in r ==> r[id].g < l1.gen.next
    modifies l1, l1.poly
    ensures l1.Valid() && l1.poly == old(l1.poly) && l1.numAxis == old(l1.numAxis)
    ensures l1.compare == old(l1.compare) && l1.memRef == old(l1.memRef)
    ensures l1.idmap == Shared(old(l1.idmap), r)
    ensures forall env :: Gamma(old(l1.State()), env) ==> Gamma(l1.State(), env)
    ensures old(l1.idmap).Keys <= r.Keys ==> forall env :: Gamma(l1.State(), env) ==> Gamma(old(l1.State()), env)
    ensures l1.poly.adapter.Keys == UnifiedKeys(old(l1.poly.adapter).Keys, old(l1.idmap), r)
    ensures forall w: Valuation ::
              Has(l1.poly.Value(), w) <==>
                Projects(old(l1.poly.Value()), UnifySource(old(l1.poly.adapter).Keys, old(l1.idmap), r), w)
    ensures l1.victims == old(l1.victims)
  {
    hide Has, Gamma, Projects, Bijective, Separate, Unifies, UnifiedKeys, UnifySource, Ppl.Lawful;
    ghost var s := l1.State();
    var rename := UnifyRename(l1.idmap, r);
    TableInjective(rename, l1.idmap, r);
    ghost var src := l1.poly.MapVars(Table(rename));
    l1.idmap := MapIdents(l1.idmap, rename);
    RenumberingSound(rename, s, r, l1.State(), src, l1.victims, l1.gen.next);
  }

  lemma TableInjective(rename: map<nat, nat>, l: map<Ident, IdVal>, r: map<Ident, IdVal>)
    requires Unifies(rename, l, r) && Separate(l) && Separate(r)
    ensures Injective(rename)
    ensures forall g, h :: Table(rename)(g).Some? && Table(rename)(g) == Table(rename)(h) ==> g == h
  {
    UnifyInjective(rename, l, r);
  }

  lemma RenumberingSound(rename: map<nat, nat>, s: AState, r: map<Ident, IdVal>, t: AState, src: map<nat, nat>,
                         victims: seq<nat>, n: nat)
    requires s.poly.Ok() && t.poly.Ok() && t.poly.adapter.Keys == src.Keys
    requires (forall id :: id in r ==> r[id].g < n) && (forall g :: g in victims ==> g < n)
    requires Unifies(rename, s.idmap, r) && Separate(s.idmap) && Separate(r) && Scalar(s.idmap) && Scalar(r)
    requires forall id :: id in t.idmap <==> id in s.idmap && s.idmap[id].g in rename
    requires forall id :: id in t.idmap ==> t.idmap[id] == IdVal(rename[s.idmap[id].g], s.idmap[id].s)
    requires RenamesBack(src, s.poly.adapter.Keys, Table(rename))
    requires forall w: Valuation :: Has(t.poly, w) <==> Projects(s.poly, src, w)
    ensures t.idmap == Shared(s.idmap, r) && Separate(t.idmap)
    ensures src.Keys == UnifiedKeys(s.poly.adapter.Keys, s.idmap, r)
    ensures src == UnifySource(s.poly.adapter.Keys, s.idmap, r)
    ensures BelowGuids(t.poly, t.idmap, victims, n) && (Empty(s) ==> Empty(t))
    ensures forall env :: Gamma(s, env) ==> Gamma(t, env)
    ensures s.idmap.Keys <= r.Keys ==> forall env :: Gamma(t, env) ==> Gamma(s, env)
  {
    hide Represents, RenamesBack, UnifySource, Has, Gamma;
    UnifyInjective(rename, s.idmap, r);
    MappedIsShared(rename, s.idmap, r, t.idmap);
    RenamedTracked(rename, s, r, src);
    SourceIs(s, r, src);
    RenameCovers(s, t, r, src);
  }

  // A table as a partial function.
  function Table(rename: map<nat, nat>): nat -> Option<nat> {
    (g: nat) => if g in rename then Some(rename[g]) else None
  }

  lemma MappedIsShared(rename: map<nat, nat>, l: map<Ident, IdVal>, r: map<Ident, IdVal>, m: map<Ident, IdVal>)
    requires Unifies(rename, l, r) && Separate(l) && Separate(r) && Scalar(l) && Scalar(r)
    requires forall id :: id in m <==> id in l && l[id].g in rename
    requires forall id :: id in m ==> m[id] == IdVal(rename[l[id].g], l[id].s)
    ensures m == Shared(l, r) && Separate(m)
  {
    UnifyInjective(rename, l, r);
    forall id
      ensures id in m <==> id in Shared(l, r)
      ensures id in m ==> m[id] == Shared(l, r)[id]
    {
      if id in m {
        assert id in r;
      }
    }
  }

  lemma RenameCovers(s: AState, t: AState, r: map<Ident, IdVal>, src: map<nat, nat>)
    requires s.poly.Ok() && t.poly.Ok() && t.idmap == Shared(s.idmap, r) && Separate(r)
    requires forall w: Valuation :: Has(t.poly, w) <==> Projects(s.poly, src, w)
    requires forall id :: id in s.idmap && id in r ==>
               if r[id].g in src then src[r[id].g] == s.idmap[id].g else s.idmap[id].g !in s.poly.adapter
    requires Separate(s.idmap)
    ensures forall env :: Gamma(s, env) ==> Gamma(t, env)
    ensures s.idmap.Keys <= r.Keys ==> forall env :: Gamma(t, env) ==> Gamma(s, env)
  {
    forall env | Gamma(s, env) {
      RenameSound(s, t, src, env);
    }
    if s.idmap.Keys <= r.Keys {
      assert t.idmap.Keys == s.idmap.Keys;
      forall env | Gamma(t, env) {
        RenameExact(s, t, src, env);
      }
    }
  }

  lemma RenamedTracked(rename: map<nat, nat>, s: AState, r: map<Ident, IdVal>, src: map<nat, nat>)
    requires Unifies(rename, s.idmap, r) && Injective(rename) && Separate(s.idmap)
    requires RenamesBack(src, s.poly.adapter.Keys, Table(rename))
    ensures src.Keys == UnifiedKeys(s.poly.adapter.Keys, s.idmap, r)
    ensures forall id :: id in s.idmap && id in r ==>
              if r[id].g in src then src[r[id].g] == s.idmap[id].g else s.idmap[id].g !in s.poly.adapter
  {
    var f := Table(rename);
    forall g | g in src
      ensures g in UnifiedKeys(s.poly.adapter.Keys, s.idmap, r)
    {
      assert f(src[g]) == Some(g);
      var id :| id in s.idmap && id in r && s.idmap[id].g == src[g];
      assert rename[s.idmap[id].g] == r[id].g;
    }
    forall id | id in s.idmap && id in r && s.idmap[id].g in s.poly.adapter
      ensures r[id].g in src && src[r[id].g] == s.idmap[id].g
    {
      assert f(s.idmap[id].g) == Some(r[id].g);
    }
    forall id | id in s.idmap && id in r && r[id].g in src
      ensures src[r[id].g] == s.idmap[id].g
    {
      assert f(src[r[id].g]) == Some(r[id].g);
    }
  }

  lemma SourceIs(s: AState, r: map<Ident, IdVal>, src: map<nat, nat>)
    requires Separate(r) && src.Keys == UnifiedKeys(s.poly.adapter.Keys, s.idmap, r)
    requires forall id :: id in s.idmap && id in r && r[id].g in src ==> src[r[id].g] == s.idmap[id].g
    ensures src == UnifySource(s.poly.adapter.Keys, s.idmap, r)
  {
    var u := UnifySource(s.poly.adapter.Keys, s.idmap, r);
    forall g | g in src
      ensures g in u && u[g] == src[g]
    {
      var id :| id in s.idmap && id in r && s.idmap[id].g in s.poly.adapter.Keys && r[id].g == g;
    }
    assert u.Keys == src.Keys;
  }

  // The unification of two states.  It first forms the hull of the two
  // polyhedra as they are, to look for independent variables; that step
  // aborts when they share no tracked variable.
  method DoUnify(l1: PPLDomain, r1: PPLDomain, avcreate: bool) returns (ok: bool)
    requires l1.Valid() && r1.Valid() && l1.gen == r1.gen && l1.lib == r1.lib && l1.poly != r1.poly && l1 != r1
    requires Scalar(l1.idmap) && Scalar(r1.idmap) && !Empty(l1.State()) && l1.numAxis != -1
    modifies l1, l1.poly
    ensures l1.Valid() && l1.poly == old(l1.poly) && l1.numAxis == old(l1.numAxis)
    ensures l1.compare == old(l1.compare) && l1.memRef == old(l1.memRef)
    ensures ok ==> l1.idmap == Shared(old(l1.idmap), r1.idmap)
    ensures ok ==> forall env :: Gamma(old(l1.State()), env) ==> Gamma(l1.State(), env)
    ensures ok ==>
              l1.poly.adapter.Keys
                == UnifiedKeys(TrackedLeft(old(l1.poly.adapter).Keys, old(l1.victims), avcreate),
                                old(l1.idmap), r1.idmap)
    ensures ok <==> TrackedLeft(old(l1.poly.adapter).Keys, old(l1.victims), avcreate) * r1.poly.adapter.Keys != {}
    ensures ok ==> l1.victims == LeftVictims(old(l1.victims), avcreate)
    ensures ok ==> Unified(old(Snap(l1)), r1.idmap, avcreate, l1.poly.Value())
  {
    hide UnifiedKeys, UnifySource, Unified, Empty, Scalar;
    assert Separate(r1.idmap) && forall id :: id in r1.idmap ==> r1.idmap[id].g < r1.gen.next;
    hide Has, Ppl.Lawful, Bijective, Separate, BelowGuids;
    ghost var s := Snap(l1);
    if avcreate {
      l1.DoFinalizeUpdate();
    }
    ghost var t := Snap(l1);
    ok := HaveCommonHull(l1.poly, r1.poly);
    if ok {
      DoMap(l1, r1.idmap);
      UnifiedThrough(s, t, r1.idmap, avcreate, l1.poly.Value());
    }
  }

  // The variables of the left state that are still to be destroyed.
  ghost function LeftVictims(victims: seq<nat>, avcreate: bool): seq<nat> {
    if avcreate then [] else victims
  }

  ghost function LeftSource(l: Snapshot, r: map<Ident, IdVal>, avcreate: bool): map<nat, nat>
    requires Separate(r)
  {
    UnifySource(TrackedLeft(l.state.poly.adapter.Keys, l.victims, avcreate), l.state.idmap, r)
  }

  // The left polyhedron once it is unified.
  ghost predicate Unified(l: Snapshot, r: map<Ident, IdVal>, avcreate: bool, p: Sparse) {
    && l.Ok() && p.Ok() && Separate(r) && p.adapter.Keys == LeftSource(l, r, avcreate).Keys
    && (forall w: Valuation :: Has(p, w) <==> Projects(l.state.poly, LeftSource(l, r, avcreate), w))
  }

  // Finalising first, and then renaming.
  lemma UnifiedThrough(s: Snapshot, t: Snapshot, r: map<Ident, IdVal>, avcreate: bool, p: Sparse)
    requires s.Ok() && t.Ok() && p.Ok() && Separate(r) && !Empty(s.state)
    requires if avcreate then Finalizes(s, t) else t == s
    requires p.adapter.Keys == UnifiedKeys(t.state.poly.adapter.Keys, t.state.idmap, r)
    requires forall w: Valuation ::
               Has(p, w) <==> Projects(t.state.poly, UnifySource(t.state.poly.adapter.Keys, t.state.idmap, r), w)
    ensures Unified(s, r, avcreate, p)
  {
    hide Has, Empty, Projects, Through, UnifySource, UnifiedKeys, VictimSet, Identity;
    var keys := TrackedLeft(s.state.poly.adapter.Keys, s.victims, avcreate);
    var src := LeftSource(s, r, avcreate);
    SourceFacts(keys, s.state.idmap, r);
    if avcreate {
      forall w: Valuation
        ensures Has(p, w) <==> Projects(s.state.poly, src, w)
      {
        ProjectsThrough(s.state.poly, Identity(keys), t.state.poly, src, w);
      }
    }
  }

  lemma SourceFacts(keys: set<nat>, l: map<Ident, IdVal>, r: map<Ident, IdVal>)
    requires Separate(r)
    ensures UnifySource(keys, l, r).Keys == UnifiedKeys(keys, l, r) && Identity(keys).Keys == keys
    ensures forall h :: h in UnifySource(keys, l, r) ==> UnifySource(keys, l, r)[h] in keys
    ensures Through(Identity(keys), UnifySource(keys, l, r)) == UnifySource(keys, l, r)
  {
  }

  method HaveCommonHull(p: WPoly, q: WPoly) returns (ok: bool)
    requires p.Valid() && q.Valid() && p.lib == q.lib
    ensures ok <==> p.adapter.Keys * q.adapter.Keys != {}
  {
    hide Has, Ppl.Lawful, Bijective;
    var common := new WPoly.Copy(p);
    ok := common.PolyHullAssign(q);
  }

  // The states share a tracked variable, both as they are and once unified.
  ghost predicate Mergeable(keys: set<nat>, l: map<Ident, IdVal>, keys': set<nat>, r: map<Ident, IdVal>) {
    keys * keys' != {} && UnifiedKeys(keys, l, r) * keys' != {}
  }

  ghost predicate SameAs(d: PPLDomain, e: PPLDomain)
    reads d, d.poly, e, e.poly
  {
    d.State() == e.State() && d.compare == e.compare && d.victims == e.victims && d.memRef == e.memRef
  }

  // ----- what a merge yields -----

  // The upper bound `u` of a state with another, finalised.
  ghost predicate JoinedTo(lib: Ppl, s: Snapshot, src: map<nat, nat>, t: Sparse, widen: bool, m: map<Ident, IdVal>,
                           victims: seq<nat>, out: Snapshot) {
    s.Ok() && exists u: Sparse {:trigger IsUpperBound(lib, s.state.poly, src, t, widen, u)} ::
      && IsUpperBound(lib, s.state.poly, src, t, widen, u)
      && Finalizes(Snapshot(AState(u, m), s.compare, victims, s.memRef), out)
  }

  lemma JoinedFrom(lib: Ppl, s: Snapshot, src: map<nat, nat>, t: Sparse, widen: bool, u: Snapshot, out: Snapshot)
    requires s.Ok() && IsUpperBound(lib, s.state.poly, src, t, widen, u.state.poly) && Finalizes(u, out)
    requires u.compare == s.compare && u.memRef == s.memRef
    ensures JoinedTo(lib, s, src, t, widen, u.state.idmap, u.victims, out)
  {
    hide IsUpperBound, Finalizes;
    assert u == Snapshot(AState(u.state.poly, u.state.idmap), s.compare, u.victims, s.memRef);
  }

  // Two states that are not bottom: the left one is renamed after the right
  // one, over the shared identifiers, and the result is the library's upper
  // bound of the two.
  ghost predicate Merged(lib: Ppl, l: Snapshot, r: Snapshot, widen: bool, avcreate: bool, out: Snapshot) {
    && Separate(r.state.idmap)
    && JoinedTo(lib, l, LeftSource(l, r.state.idmap, avcreate), r.state.poly, widen,
                Shared(l.state.idmap, r.state.idmap), LeftVictims(l.victims, avcreate), out)
  }

  ghost predicate CanMerge(l: Snapshot, r: Snapshot, avcreate: bool)
    requires l.Ok() && r.Ok()
  {
    Empty(l.state) || Empty(r.state) ||
    Mergeable(TrackedLeft(l.state.poly.adapter.Keys, l.victims, avcreate), l.state.idmap,
              r.state.poly.adapter.Keys, r.state.idmap)
  }

  // Every merge: a bottom state adds nothing.
  ghost predicate MergesTo(lib: Ppl, l: Snapshot, r: Snapshot, widen: bool, avcreate: bool, out: Snapshot) {
    && l.Ok() && r.Ok() && out.Ok() && CanMerge(l, r, avcreate)
    && if Empty(r.state) then out == l else if Empty(l.state) then out == r
       else Merged(lib, l, r, widen, avcreate, out)
  }

  // A join is the least upper bound, when the library's hull is: every
  // polyhedron on its variables that contains the renamed left state and the
  // right state contains it.
  lemma MergeLeast(lib: Ppl, l: Snapshot, r: Snapshot, avcreate: bool, out: Snapshot, c: Sparse)
    requires lib.Lawful() && LeastHull(lib) && MergesTo(lib, l, r, false, avcreate, out)
    requires !Empty(l.state) && !Empty(r.state) && !Empty(out.state)
    requires c.Ok() && c.adapter.Keys <= out.state.poly.adapter.Keys
    requires Contains(c, l.state.poly, LeftSource(l, r.state.idmap, avcreate))
    requires forall w: Valuation :: Has(r.state.poly, w) ==> Has(c, w)
    ensures forall w: Valuation :: Has(out.state.poly, w) ==> Has(c, w)
  {
    hide Has, LeftSource, LeftVictims, Mergeable, TrackedLeft, Projects, Contains, LeastHull, Ppl.Lawful, IsHull, Empty,
         Finalizes, Shared, Separate;
    var src := LeftSource(l, r.state.idmap, avcreate);
    var u :| IsUpperBound(lib, l.state.poly, src, r.state.poly, false, u) &&
             Finalizes(Snapshot(AState(u, Shared(l.state.idmap, r.state.idmap)), l.compare,
                                LeftVictims(l.victims, avcreate), l.memRef), out);
    FinalizedKeys(Snapshot(AState(u, Shared(l.state.idmap, r.state.idmap)), l.compare,
                           LeftVictims(l.victims, avcreate), l.memRef), out);
    HullLeast(lib, l.state.poly, src, r.state.poly, u, c);
    FinalizedInside(Snapshot(AState(u, Shared(l.state.idmap, r.state.idmap)), l.compare,
                             LeftVictims(l.victims, avcreate), l.memRef), out, c);
  }

  lemma FinalizedKeys(s: Snapshot, t: Snapshot)
    requires Finalizes(s, t) && !Empty(t.state)
    ensures !Empty(s.state) && t.state.poly.adapter.Keys <= s.state.poly.adapter.Keys
  {
  }

  lemma FinalizedInside(s: Snapshot, t: Snapshot, c: Sparse)
    requires Finalizes(s, t) && !Empty(t.state) && c.Ok() && c.adapter.Keys <= t.state.poly.adapter.Keys
    requires forall w: Valuation :: Has(s.state.poly, w) ==> Has(c, w)
    ensures forall w: Valuation :: Has(t.state.poly, w) ==> Has(c, w)
  {
    hide Has, Projects;
    var p, keys := s.state.poly, t.state.poly.adapter.Keys;
    assert Only(Identity(p.adapter.Keys), keys) == Identity(keys);
    forall w: Valuation | Has(t.state.poly, w)
      ensures Has(c, w)
    {
      ProjectionInside(p, keys, c, w);
    }
  }

  // Join (`widen` false) or widening of two states.  `ok` is false when a
  // combination of polyhedra aborts.
  method OnMerge(l: PPLDomain, r: PPLDomain, widen: bool, avcreate: bool) returns (ok: bool, out: PPLDomain)
    requires l.Valid() && r.Valid() && l.gen == r.gen && l.lib == r.lib
    requires Scalar(l.idmap) && Scalar(r.idmap)
    ensures fresh(out) && fresh(out.poly) && out.lib == l.lib && out.gen == l.gen
    ensures ok ==> out.Valid()
    ensures ok ==> forall env :: Gamma(l.State(), env) || Gamma(r.State(), env) ==> Gamma(out.State(), env)
    ensures ok && !Empty(l.State()) && !Empty(r.State()) ==> out.idmap == Shared(l.idmap, r.idmap)
    ensures Empty(l.State()) || Empty(r.State()) ==> ok && SameAs(out, if Empty(r.State()) then l else r)
    ensures ok && !Empty(l.State()) && !Empty(r.State()) ==>
              !Empty(out.State()) && out.compare == l.compare && out.victims == [] && out.memRef == l.memRef
    ensures !Empty(l.State()) && !Empty(r.State()) ==>
              (ok <==> Mergeable(TrackedLeft(l.poly.adapter.Keys, l.victims, avcreate), l.idmap,
                                 r.poly.adapter.Keys, r.idmap))
    ensures ok ==> MergesTo(l.lib, Snap(l), Snap(r), widen, avcreate, Snap(out))
  {
    hide Merged, Mergeable, TrackedLeft, Gamma, Separate, BelowGuids, Ppl.Lawful;
    ok := true;
    var rBottom := r.IsBottom();
    if rBottom {
      out := CopyOther(l, r);
      return;
    }
    var lBottom := l.IsBottom();
    if lBottom {
      out := CopyOther(r, l);
      return;
    }
    ok, out := MergeProper(l, r, widen, avcreate);
  }

  // The trivial merge: the other state is bottom.
  method CopyOther(l: PPLDomain, bottom: PPLDomain) returns (out: PPLDomain)
    requires l.Valid() && bottom.Valid() && Empty(bottom.State())
    ensures fresh(out) && fresh(out.poly) && out.Valid() && out.lib == l.lib && out.gen == l.gen
    ensures out.State() == l.State() && out.compare == l.compare && out.victims == l.victims && out.memRef == l.memRef
    ensures forall env :: Gamma(l.State(), env) || Gamma(bottom.State(), env) ==> Gamma(out.State(), env)
  {
    NothingCovered(bottom.State());
    out := new PPLDomain.Copy(l);
  }

  method MergeProper(l: PPLDomain, r: PPLDomain, widen: bool, avcreate: bool) returns (ok: bool, out: PPLDomain)
    requires l.Valid() && r.Valid() && l.gen == r.gen && l.lib == r.lib
    requires Scalar(l.idmap) && Scalar(r.idmap)
    requires !Empty(l.State()) && !Empty(r.State()) && l.numAxis != -1 && r.numAxis != -1
    ensures fresh(out) && fresh(out.poly) && out.lib == l.lib && out.gen == l.gen
    ensures ok ==> out.Valid() && out.idmap == Shared(l.idmap, r.idmap) && !Empty(out.State())
    ensures ok ==> out.compare == l.compare && out.victims == [] && out.memRef == l.memRef
    ensures ok ==> forall env :: Gamma(l.State(), env) || Gamma(r.State(), env) ==> Gamma(out.State(), env)
    ensures ok <==> Mergeable(TrackedLeft(l.poly.adapter.Keys, l.victims, avcreate), l.idmap,
                              r.poly.adapter.Keys, r.idmap)
    ensures ok ==> Merged(l.lib, Snap(l), Snap(r), widen, avcreate, Snap(out))
  {
    hide Has, Ppl.Lawful, Bijective, Separate, BelowGuids, UnifiedKeys, TrackedLeft, Gamma, JoinedTo, Unified, Merged;
    out := new PPLDomain.Copy(l);
    var r1 := new PPLDomain.Copy(r);
    ok := DoUnify(out, r1, avcreate);
    if ok {
      ghost var t := Snap(out);
      ok := JoinUnified(out, r1, widen);
      if ok {
        MergedThrough(l.lib, Snap(l), Snap(r), t, widen, avcreate, Snap(out));
      }
    }
  }

  // Renaming first, and then the upper bound.
  lemma MergedThrough(lib: Ppl, l: Snapshot, r: Snapshot, t: Snapshot, widen: bool, avcreate: bool, out: Snapshot)
    requires l.Ok() && r.Ok() && Unified(l, r.state.idmap, avcreate, t.state.poly)
    requires t.state.idmap == Shared(l.state.idmap, r.state.idmap) && t.victims == LeftVictims(l.victims, avcreate)
    requires t.compare == l.compare && t.memRef == l.memRef
    requires JoinedTo(lib, t, Identity(t.state.poly.adapter.Keys), r.state.poly, widen, t.state.idmap, t.victims, out)
    ensures Merged(lib, l, r, widen, avcreate, out)
  {
    hide Finalizes, Has;
    var p, src := t.state.poly, LeftSource(l, r.state.idmap, avcreate);
    var u :| IsUpperBound(lib, p, Identity(p.adapter.Keys), r.state.poly, widen, u)
             && Finalizes(Snapshot(AState(u, t.state.idmap), t.compare, t.victims, t.memRef), out);
    var h :| IsHull(lib, p, Identity(p.adapter.Keys), r.state.poly, h)
             && if widen then IsExtrapolation(lib, h, r.state.poly, u) else u == h;
    HullThrough(lib, l.state.poly, src, p, r.state.poly, h);
    assert IsUpperBound(lib, l.state.poly, src, r.state.poly, widen, u);
  }

  // The upper bound of two unified states.
  method JoinUnified(l1: PPLDomain, r1: PPLDomain, widen: bool) returns (ok: bool)
    requires l1.Valid() && r1.Valid() && l1.gen == r1.gen && l1.lib == r1.lib && l1.poly != r1.poly && l1 != r1
    requires Submap(l1.idmap, r1.idmap) && l1.numAxis != -1 && !Empty(r1.State())
    modifies l1, l1.poly
    ensures ok <==> old(l1.poly.adapter).Keys * r1.poly.adapter.Keys != {}
    ensures l1.poly == old(l1.poly)
    ensures ok ==> l1.Valid() && l1.idmap == old(l1.idmap) && l1.victims == [] && !Empty(l1.State())
    ensures ok ==> l1.compare == old(l1.compare) && l1.memRef == old(l1.memRef)
    ensures ok ==> forall env :: Gamma(old(l1.State()), env) || Gamma(r1.State(), env) ==> Gamma(l1.State(), env)
    ensures ok ==> JoinedTo(l1.lib, old(Snap(l1)), Identity(old(l1.poly.adapter).Keys), r1.poly.Value(), widen,
                            old(l1.idmap), old(l1.victims), Snap(l1))
  {
    hide IsUpperBound, Finalizes, LeastHull, Separate, JoinedTo, Encloses, Has, Ppl.Lawful, Bijective;
    ghost var s := Snap(l1);
    ValidPoly(l1);
    ok := JoinPolys(l1.poly, r1.poly, widen);
    if ok {
      UpperBoundCovers(s.state, r1.State(), l1.State());
      ghost var u := Snap(l1);
      l1.DoFinalizeUpdate();
      JoinedFrom(l1.lib, s, Identity(s.state.poly.adapter.Keys), r1.poly.Value(), widen, u, Snap(l1));
    }
  }

  // The hull, and for a widening what it is extrapolated to.
  ghost predicate IsUpperBound(lib: Ppl, s: Sparse, src: map<nat, nat>, t: Sparse, widen: bool, u: Sparse) {
    exists h: Sparse :: IsHull(lib, s, src, t, h) && if widen then IsExtrapolation(lib, h, t, u) else u == h
  }

  // The join is the hull, and the least upper bound if the library's hull is.
  method JoinPolys(p: WPoly, q: WPoly, widen: bool) returns (ok: bool)
    requires p.Valid() && q.Valid() && p.lib == q.lib && p != q
    modifies p
    ensures ok <==> old(p.adapter).Keys * q.adapter.Keys != {}
    ensures ok ==> p.Valid() && p.adapter.Keys == old(p.adapter).Keys * q.adapter.Keys
    ensures ok ==> forall v: Valuation :: Has(old(p.Value()), v) || Has(q.Value(), v) ==> Has(p.Value(), v)
    ensures ok && !widen && LeastHull(p.lib) ==> forall r: Poly {:trigger Encloses(Sparse(p.adapter, r), p.Value())} ::
              Encloses(Sparse(p.adapter, r), old(p.Value())) && Encloses(Sparse(p.adapter, r), q.Value())
              ==> Encloses(Sparse(p.adapter, r), p.Value())
    ensures ok ==> IsUpperBound(p.lib, old(p.Value()), Identity(old(p.adapter).Keys), q.Value(), widen, p.Value())
  {
    ok := p.PolyHullAssign(q);
    ghost var h := p.Value();
    if ok && widen {
      hide Has, Ppl.Lawful, Bijective, IsHull, IsExtrapolation;
      KeysMeet(p.adapter.Keys, old(p.adapter).Keys, q.adapter.Keys);
      ok := p.ExtrapolationAssign(q);
    }
  }

  lemma KeysMeet(k: set<nat>, l: set<nat>, r: set<nat>)
    requires k == l * r
    ensures k * r == k
  {
  }

  lemma UpperBoundCovers(s: AState, r: AState, t: AState)
    requires s.poly.Ok() && r.poly.Ok() && t.poly.Ok() && t.idmap == s.idmap && Submap(s.idmap, r.idmap)
    requires forall v: Valuation :: Has(s.poly, v) || Has(r.poly, v) ==> Has(t.poly, v)
    ensures forall env :: Gamma(s, env) || Gamma(r, env) ==> Gamma(t, env)
    ensures !Empty(r) ==> !Empty(t)
  {
    forall env | Gamma(s, env) || Gamma(r, env)
      ensures Gamma(t, env)
    {
      if Gamma(s, env) { GammaMonotone(s, t, env); }
      if Gamma(r, env) { GammaMonotone(r, t, env); }
    }
  }
}
