/**
 * The input of a block: the join of its incoming edges, or, for a loop
 * header, the widened state kept from visit to visit (`processHeader`).
 */
module Headers {
  import opened LinearExpressions
  import opened Polyhedra
  import opened SparsePolyhedra
  import opened WPolys
  import opened Mappings
  import opened AbstractStates
  import opened Transfers
  import opened Domains
  import opened Merges

  // A state as it is stored on an edge: registers, specials and counters, no
  // variable waiting to be destroyed.
  ghost predicate Stored(d: PPLDomain, lib: Ppl, gen: GuidGenerator)
    reads d, d.poly, d.gen
  {
    d.Valid() && d.lib == lib && d.gen == gen && Scalar(d.idmap) && d.victims == []
  }

  ghost predicate CoversAll(s: AState, t: AState) {
    s.poly.Ok() && t.poly.Ok() && forall env :: Gamma(s, env) ==> Gamma(t, env)
  }

  lemma CoversThrough(s: AState, t: AState, u: AState)
    requires CoversAll(s, t) && CoversAll(t, u)
    ensures CoversAll(s, u)
  {
  }

  lemma SharedScalar(l: map<Ident, IdVal>, r: map<Ident, IdVal>)
    requires Scalar(l) && Scalar(r)
    ensures Scalar(Shared(l, r))
  {
  }

  // `join` and `widening` of stored states.
  method Merge(l: PPLDomain, r: PPLDomain, widen: bool, avcreate: bool, ghost lib: Ppl, ghost gen: GuidGenerator)
    returns (ok: bool, out: PPLDomain)
    requires Stored(l, lib, gen) && Stored(r, lib, gen)
    ensures fresh(out) && fresh(out.poly)
    ensures ok ==> Stored(out, lib, gen) && CoversAll(l.State(), out.State()) && CoversAll(r.State(), out.State())
    ensures ok && l.compare == None && r.compare == None ==> out.compare == None
    ensures ok <==> CanMerge(Snap(l), Snap(r), avcreate)
    ensures ok ==> MergesTo(lib, Snap(l), Snap(r), widen, avcreate, Snap(out))
  {
    hide Scalar, Shared, Gamma, Mergeable, TrackedLeft, Merged;
    SharedScalar(l.idmap, r.idmap);
    ok, out := OnMerge(l, r, widen, avcreate);
  }

  // ----- joining edges -----

  ghost function Snaps(ds: seq<PPLDomain>): (ss: seq<Snapshot>)
    reads set d | d in ds, set d | d in ds :: d.poly
    ensures |ss| == |ds| && forall i :: 0 <= i < |ds| ==> ss[i] == Snap(ds[i])
  {
    if ds == [] then [] else [Snap(ds[0])] + Snaps(ds[1..])
  }

  // Joining the states in order, from bottom.
  ghost predicate Joined(lib: Ppl, ss: seq<Snapshot>, t: Snapshot) {
    if ss == [] then Bottom(t)
    else
      var before, last := ss[..|ss| - 1], ss[|ss| - 1];
      exists s :: Joined(lib, before, s) && MergesTo(lib, s, last, false, false, t)
  }

  // Some join on the way aborts.
  ghost predicate Blocked(lib: Ppl, ss: seq<Snapshot>) {
    exists k, s :: 0 <= k < |ss| && Joined(lib, ss[..k], s) && s.Ok() && ss[k].Ok() && !CanMerge(s, ss[k], false)
  }

  lemma JoinedMore(lib: Ppl, ss: seq<Snapshot>, i: nat, s: Snapshot, t: Snapshot)
    requires i < |ss| && Joined(lib, ss[..i], s) && MergesTo(lib, s, ss[i], false, false, t)
    ensures Joined(lib, ss[..i + 1], t)
  {
    hide MergesTo;
    assert ss[..i + 1][..i] == ss[..i] && ss[..i + 1][i] == ss[i];
  }

  // `input`, and the two sums of `processHeader`: from bottom, one edge after
  // the other.
  method JoinEdges(edges: seq<PPLDomain>, lib: Ppl, gen: GuidGenerator) returns (ok: bool, out: PPLDomain)
    requires lib.Lawful() && forall i :: 0 <= i < |edges| ==> Stored(edges[i], lib, gen)
    ensures fresh(out) && fresh(out.poly)
    ensures ok ==> Stored(out, lib, gen)
    ensures ok ==> forall i :: 0 <= i < |edges| ==> CoversAll(edges[i].State(), out.State())
    ensures ok && (forall i :: 0 <= i < |edges| ==> edges[i].compare == None) ==> out.compare == None
    ensures if ok then Joined(lib, Snaps(edges), Snap(out)) else Blocked(lib, Snaps(edges))
  {
    hide CoversAll, Gamma, Scalar, Empty, Stored, Joined, Blocked;
    ok, out := JoinSnaps(edges, lib, gen, Snaps(edges));
  }

  method JoinSnaps(edges: seq<PPLDomain>, lib: Ppl, gen: GuidGenerator, ghost ss: seq<Snapshot>)
    returns (ok: bool, out: PPLDomain)
    requires lib.Lawful() && forall i :: 0 <= i < |edges| ==> Stored(edges[i], lib, gen)
    requires |ss| == |edges| && forall i :: 0 <= i < |edges| ==> ss[i] == Snap(edges[i])
    ensures fresh(out) && fresh(out.poly)
    ensures ok ==> Stored(out, lib, gen) && AllCovered(ss, |ss|, out.State()) && KeepsNone(ss, |ss|, out.compare)
    ensures if ok then Joined(lib, ss, Snap(out)) else Blocked(lib, ss)
  {
    hide AllCovered, KeepsNone, CoversAll, Gamma, Scalar, Empty, Stored, Joined, Blocked, MergesTo, CanMerge, Bottom;
    ok := true;
    out := NewBottom(lib, gen);
    JoinedNone(lib, ss, Snap(out));
    var i := 0;
    while i < |edges|
      invariant 0 <= i <= |edges| && fresh(out) && fresh(out.poly) && Stored(out, lib, gen)
      invariant AllCovered(ss, i, out.State()) && KeepsNone(ss, i, out.compare)
      invariant Joined(lib, ss[..i], Snap(out))
    {
      ghost var s := Snap(out);
      StoredOk(out, lib, gen);
      StoredOk(edges[i], lib, gen);
      ok, out := Merge(out, edges[i], false, false, lib, gen);
      if !ok {
        BlockedAt(lib, ss, i, s);
        return;
      }
      JoinedMore(lib, ss, i, s, Snap(out));
      CoveredMore(ss, i, s, Snap(out));
      i := i + 1;
    }
    assert ss[..i] == ss;
  }

  // What the join so far covers, and that it has no filter if no edge has one.
  ghost predicate AllCovered(ss: seq<Snapshot>, i: nat, t: AState) {
    i <= |ss| && forall j :: 0 <= j < i ==> CoversAll(ss[j].state, t)
  }

  ghost predicate KeepsNone(ss: seq<Snapshot>, i: nat, compare: Option<Filter>) {
    i <= |ss| && ((forall j :: 0 <= j < i ==> ss[j].compare == None) ==> compare == None)
  }

  lemma CoveredMore(ss: seq<Snapshot>, i: nat, s: Snapshot, t: Snapshot)
    requires i < |ss| && AllCovered(ss, i, s.state) && KeepsNone(ss, i, s.compare)
    requires CoversAll(s.state, t.state) && CoversAll(ss[i].state, t.state)
    requires s.compare == None && ss[i].compare == None ==> t.compare == None
    ensures AllCovered(ss, i + 1, t.state) && KeepsNone(ss, i + 1, t.compare)
  {
    hide CoversAll;
    forall j | 0 <= j < i
      ensures CoversAll(ss[j].state, t.state)
    {
      CoversThrough(ss[j].state, s.state, t.state);
    }
  }

  lemma BlockedAt(lib: Ppl, ss: seq<Snapshot>, i: nat, s: Snapshot)
    requires i < |ss| && s.Ok() && ss[i].Ok() && Joined(lib, ss[..i], s) && !CanMerge(s, ss[i], false)
    ensures Blocked(lib, ss)
  {
    hide Joined, CanMerge;
  }

  lemma StoredOk(d: PPLDomain, lib: Ppl, gen: GuidGenerator)
    requires Stored(d, lib, gen)
    ensures Snap(d).Ok()
  {
  }

  lemma JoinedNone(lib: Ppl, ss: seq<Snapshot>, t: Snapshot)
    requires Bottom(t)
    ensures Joined(lib, ss[..0], t) && AllCovered(ss, 0, t.state) && KeepsNone(ss, 0, t.compare)
  {
  }

  method NewBottom(lib: Ppl, gen: GuidGenerator) returns (d: PPLDomain)
    requires lib.Lawful()
    ensures fresh(d) && fresh(d.poly) && Stored(d, lib, gen) && Bottom(Snap(d))
    ensures d.compare == None && Empty(d.State())
  {
    d := new PPLDomain(lib, gen);
  }

  // ----- equality of states -----

  // The quick checks, and the check that the same identifiers are mapped.
  ghost predicate LooksEqual(l: Snapshot, r: Snapshot)
    requires l.Ok() && r.Ok()
  {
    && (Empty(l.state) <==> Empty(r.state)) && l.state.poly.poly.dim == r.state.poly.poly.dim
    && l.compare == r.compare && |l.state.idmap| == |r.state.idmap| && l.state.idmap.Keys <= r.state.idmap.Keys
  }

  // The left state, renamed after the right one.
  ghost predicate SameUnified(l: AState, r: AState)
    requires l.poly.Ok() && r.poly.Ok() && Separate(r.idmap)
  {
    forall w: Valuation ::
      Has(r.poly, w) <==> Projects(l.poly, UnifySource(l.poly.adapter.Keys, l.idmap, r.idmap), w)
  }

  // When two states are found equal: they look so, and the left one, renamed
  // after the right one, has the same elements.
  ghost predicate SameStates(l: Snapshot, r: Snapshot) {
    l.Ok() && r.Ok() && Separate(r.state.idmap) && LooksEqual(l, r) && SameUnified(l.state, r.state)
  }

  // When the comparison aborts: without a common variable.
  ghost predicate Incomparable(l: Snapshot, r: Snapshot) {
    l.Ok() && r.Ok() && LooksEqual(l, r) && l.state.poly.adapter.Keys * r.state.poly.adapter.Keys == {}
  }

  // A state is equal to a copy of itself, when it tracks variables of its
  // identifiers only.
  lemma EqualToItself(s: Snapshot)
    requires s.Ok() && Separate(s.state.idmap)
    requires forall g :: g in s.state.poly.adapter ==> exists id :: id in s.state.idmap && s.state.idmap[id].g == g
    ensures SameStates(s, s)
  {
    var p, m := s.state.poly, s.state.idmap;
    SelfSource(p.adapter.Keys, m);
    hide UnifySource, Has, Projects, Empty;
    forall w: Valuation
      ensures Has(p, w) <==> Projects(p, UnifySource(p.adapter.Keys, m, m), w)
    {
      ProjectAll(p, w);
    }
  }

  lemma SelfSource(keys: set<nat>, m: map<Ident, IdVal>)
    requires Separate(m) && forall g :: g in keys ==> exists id :: id in m && m[id].g == g
    ensures UnifySource(keys, m, m) == Identity(keys)
  {
    var src := UnifySource(keys, m, m);
    forall g | g in keys
      ensures g in src
    {
      var id :| id in m && m[id].g == g;
    }
    assert src.Keys == keys;
  }

  // `equals` on stored states.  Equal states cover the same environments.  It
  // aborts exactly when the states look equal without a common variable.
  method EqualStates(l: PPLDomain, r: PPLDomain, ghost lib: Ppl, ghost gen: GuidGenerator)
    returns (ok: bool, same: bool)
    requires Stored(l, lib, gen) && Stored(r, lib, gen)
    ensures ok <==> !Incomparable(Snap(l), Snap(r))
    ensures ok ==> (same <==> SameStates(Snap(l), Snap(r)))
    ensures ok && same ==> CoversAll(l.State(), r.State()) && CoversAll(r.State(), l.State())
  {
    hide Gamma, Has, Ppl.Lawful, Bijective, Shared, UnifiedKeys, SameUnified;
    ok, same := true, false;
    var lBottom := l.IsBottom();
    var rBottom := r.IsBottom();
    if lBottom != rBottom || l.poly.poly.dim != r.poly.poly.dim || l.compare != r.compare || |l.idmap| != |r.idmap| {
      return;
    }
    var l1 := new PPLDomain.Copy(l);
    DoMap(l1, r.idmap);
    SharedCount(l.idmap, r.idmap);
    if |l1.idmap| != |l.idmap| {
      return;
    }
    ok, same := EqualUnified(l, r, lib, gen);
  }

  // Mapping loses an identifier exactly when the other state lacks it.
  lemma SharedCount(l: map<Ident, IdVal>, r: map<Ident, IdVal>)
    ensures |Shared(l, r)| == |l| <==> l.Keys <= r.Keys
  {
    var s := Shared(l, r);
    assert s.Keys <= l.Keys;
    if |s| == |l| {
      SameSize(s.Keys, l.Keys);
    } else {
      SubsetCount(l, r);
    }
  }

  lemma SubsetCount(l: map<Ident, IdVal>, r: map<Ident, IdVal>)
    ensures l.Keys <= r.Keys ==> |Shared(l, r)| == |l|
  {
    if l.Keys <= r.Keys {
      assert Shared(l, r).Keys == l.Keys;
      assert |Shared(l, r)| == |Shared(l, r).Keys| && |l| == |l.Keys|;
    }
  }

  lemma {:induction false} SameSize(s: set<Ident>, t: set<Ident>)
    requires s <= t && |s| == |t|
    ensures s == t
  {
    if s != {} {
      var x :| x in s;
      SameSize(s - {x}, t - {x});
    }
  }

  // The full unification, and the comparison of the polyhedra.
  method EqualUnified(l: PPLDomain, r: PPLDomain, ghost lib: Ppl, ghost gen: GuidGenerator)
    returns (ok: bool, same: bool)
    requires Stored(l, lib, gen) && Stored(r, lib, gen) && l.idmap.Keys <= r.idmap.Keys && |l.idmap| == |r.idmap|
    ensures ok <==> l.poly.adapter.Keys * r.poly.adapter.Keys != {}
    ensures ok ==> Separate(r.idmap) && (same <==> SameUnified(l.State(), r.State()))
    ensures ok && same ==> CoversAll(l.State(), r.State()) && CoversAll(r.State(), l.State())
  {
    hide Ppl.Lawful, Bijective;
    same := false;
    ok := HaveCommonHull(l.poly, r.poly);
    if ok {
      SameSizeMaps(l.idmap, r.idmap);
      var l1 := new PPLDomain.Copy(l);
      DoMap(l1, r.idmap);
      ok, same := l1.poly.Equals(r.poly);
      assert ok by { NotEmpty(l1.poly.adapter.Keys, l.poly.adapter.Keys, r.poly.adapter.Keys); }
      if same {
        SameCovered(l1.State(), r.State());
        hide Gamma, Has;
        CoversThrough(l.State(), l1.State(), r.State());
        CoversThrough(r.State(), l1.State(), l.State());
      }
    }
  }

  lemma NotEmpty(k: set<nat>, l: set<nat>, r: set<nat>)
    requires l * r != {}
    ensures k + r != {}
  {
    var x :| x in l * r;
    assert x in k + r;
  }

  lemma SameSizeMaps(l: map<Ident, IdVal>, r: map<Ident, IdVal>)
    requires l.Keys <= r.Keys && |l| == |r|
    ensures l.Keys == r.Keys && Shared(l, r) == r
  {
    assert |l.Keys| == |l| && |r.Keys| == |r|;
    SameSize(l.Keys, r.Keys);
  }

  lemma SameCovered(s: AState, t: AState)
    requires s.poly.Ok() && t.poly.Ok() && s.idmap == t.idmap
    requires forall v: Valuation :: Has(s.poly, v) <==> Has(t.poly, v)
    ensures CoversAll(s, t) && CoversAll(t, s)
  {
    forall env
      ensures Gamma(s, env) <==> Gamma(t, env)
    {
      if Gamma(s, env) { GammaMonotone(s, t, env); }
      if Gamma(t, env) { GammaMonotone(t, s, env); }
    }
  }

  // ----- loop headers -----

  datatype Header = Header(entry: Snapshot, state: Snapshot, avcreate: bool)

  // A new entry state restarts the header, one that is found equal to the last
  // does not.
  ghost function Started(h: Header, e: Snapshot): Header {
    if SameStates(e, h.entry) then h else Header(e, e, true)
  }

  // Then the header is widened by the back state; avatars are created until a
  // back edge is reached.
  ghost predicate Widens(lib: Ppl, h: Header, b: Snapshot, h': Header) {
    && h'.entry == h.entry && b.Ok() && MergesTo(lib, b, h.state, true, h.avcreate, h'.state)
    && h'.avcreate == (Empty(b.state) && h.avcreate)
  }

  // When the update aborts.
  ghost predicate Stuck(h: Header, e: Snapshot, b: Snapshot) {
    || Incomparable(e, h.entry)
    || (b.Ok() && Started(h, e).state.Ok() && !CanMerge(b, Started(h, e).state, Started(h, e).avcreate))
  }

  // What is kept for a header: its state, and the entry state it was last
  // started from.
  class HeaderState {
    const lib: Ppl
    const gen: GuidGenerator
    var avcreate: bool
    var state: PPLDomain
    var entry: PPLDomain

    ghost function Value(): Header
      reads this, state, state.poly, entry, entry.poly
    {
      Header(Snap(entry), Snap(state), avcreate)
    }

    ghost predicate Valid()
      reads this, state, state.poly, state.gen, entry, entry.poly, entry.gen
    {
      Stored(state, lib, gen) && Stored(entry, lib, gen) && CoversAll(entry.State(), state.State())
    }

    constructor (lib: Ppl, gen: GuidGenerator)
      requires lib.Lawful()
      ensures Valid() && this.lib == lib && this.gen == gen
      ensures Bottom(Value().state) && Bottom(Value().entry) && !avcreate
    {
      this.lib, this.gen := lib, gen;
      avcreate := false;
      var bottom := NewBottom(lib, gen);
      state := bottom;
      entry := bottom;
    }

    // A new entry state restarts the header; then it is widened by the back
    // edges.  The result covers the entry and the back edges.
    method Update(entryState: PPLDomain, backState: PPLDomain) returns (ok: bool)
      requires Valid() && Stored(entryState, lib, gen) && Stored(backState, lib, gen)
      modifies this
      ensures ok ==> Valid()
      ensures ok ==> CoversAll(entryState.State(), state.State()) && CoversAll(backState.State(), state.State())
      ensures ok && entryState.compare == None && backState.compare == None && old(state.compare) == None ==>
                state.compare == None
      ensures ok && !Empty(backState.State()) ==> !avcreate
      ensures if ok then Widens(lib, Started(old(Value()), Snap(entryState)), Snap(backState), Value())
              else Stuck(old(Value()), Snap(entryState), Snap(backState))
    {
      hide SameStates, MergesTo, CanMerge, Incomparable, CoversAll, Stored;
      ghost var h := Value();
      StoredOk(backState, lib, gen);
      var same;
      ok, same := EqualStates(entryState, entry, lib, gen);
      if !ok {
        return;
      }
      Restart(entryState, same);
      StoredOk(state, lib, gen);
      ghost var s := state.State();
      ok := Widen(backState);
      if ok {
        CoversThrough(entryState.State(), s, state.State());
      }
    }

    // The entry state, unless it is the one the header was started from.
    method Restart(entryState: PPLDomain, same: bool)
      requires Valid() && Stored(entryState, lib, gen)
      requires same ==> CoversAll(entryState.State(), entry.State())
      modifies this
      ensures Valid() && CoversAll(entryState.State(), state.State())
      ensures Value() == if same then old(Value()) else Header(Snap(entryState), Snap(entryState), true)
      ensures state == if same then old(state) else entryState
    {
      hide Scalar, Gamma;
      if same {
        CoversThrough(entryState.State(), entry.State(), state.State());
      } else {
        avcreate := true;
        entry := entryState;
        state := entryState;
      }
    }

    method Widen(backState: PPLDomain) returns (ok: bool)
      requires Valid() && Stored(backState, lib, gen)
      modifies this
      ensures entry == old(entry)
      ensures ok ==>
                && Valid() && CoversAll(old(state.State()), state.State())
                && CoversAll(backState.State(), state.State())
      ensures ok && backState.compare == None && old(state.compare) == None ==> state.compare == None
      ensures ok && !Empty(backState.State()) ==> !avcreate
      ensures ok <==> CanMerge(Snap(backState), old(Snap(state)), old(avcreate))
      ensures ok ==> Widens(lib, old(Value()), Snap(backState), Value())
    {
      hide CoversAll, MergesTo, CanMerge, Scalar, Empty, Gamma, Ppl.Lawful, Separate, BelowGuids, Has;
      ghost var s := state.State();
      var out;
      ok, out := Merge(backState, state, true, avcreate, lib, gen);
      if ok {
        CoversThrough(entry.State(), s, out.State());
        state := out;
        var bottom := backState.IsBottom();
        if !bottom {
          avcreate := false;
        }
      }
    }
  }

  ghost predicate Processed(lib: Ppl, h: Header, es: seq<Snapshot>, bs: seq<Snapshot>, h': Header) {
    exists e, b :: Joined(lib, es, e) && Joined(lib, bs, b) && Widens(lib, Started(h, e), b, h')
  }

  ghost predicate NotProcessed(lib: Ppl, h: Header, es: seq<Snapshot>, bs: seq<Snapshot>) {
    || Blocked(lib, es) || Blocked(lib, bs)
    || exists e, b :: Joined(lib, es, e) && Joined(lib, bs, b) && Stuck(h, e, b)
  }

  // `processHeader`: the entry edges and the back edges are joined apart.
  method ProcessHeader(hs: HeaderState, entries: seq<PPLDomain>, backs: seq<PPLDomain>) returns (ok: bool)
    requires hs.Valid() && hs.lib.Lawful()
    requires forall i :: 0 <= i < |entries| ==> Stored(entries[i], hs.lib, hs.gen)
    requires forall i :: 0 <= i < |backs| ==> Stored(backs[i], hs.lib, hs.gen)
    modifies hs
    ensures ok ==> hs.Valid()
    ensures ok ==> forall i :: 0 <= i < |entries| ==> CoversAll(entries[i].State(), hs.state.State())
    ensures ok ==> forall i :: 0 <= i < |backs| ==> CoversAll(backs[i].State(), hs.state.State())
    ensures
      && ok && old(hs.state.compare) == None
      && (forall i :: 0 <= i < |entries| ==> entries[i].compare == None)
      && (forall i :: 0 <= i < |backs| ==> backs[i].compare == None)
      ==> hs.state.compare == None
    ensures
      if ok then Processed(hs.lib, old(hs.Value()), Snaps(entries), Snaps(backs), hs.Value())
      else NotProcessed(hs.lib, old(hs.Value()), Snaps(entries), Snaps(backs))
  {
    hide Joined, Blocked, Widens, Stuck, Started, AllCovered, KeepsNone, CoversAll, Gamma, Scalar, Stored,
         HeaderState.Valid, Snaps, Empty, Ppl.Lawful;
    ghost var es, bs := Snaps(entries), Snaps(backs);
    var entryState, backState;
    ok, entryState := JoinSnaps(entries, hs.lib, hs.gen, es);
    if !ok { return; }
    ok, backState := JoinSnaps(backs, hs.lib, hs.gen, bs);
    if !ok { return; }
    ghost var e, b := Snap(entryState), Snap(backState);
    ok := hs.Update(entryState, backState);
    if ok {
      CoveredFurther(es, e, Snap(hs.state));
      CoveredFurther(bs, b, Snap(hs.state));
    }
  }

  lemma CoveredFurther(ss: seq<Snapshot>, s: Snapshot, t: Snapshot)
    requires AllCovered(ss, |ss|, s.state) && CoversAll(s.state, t.state)
    ensures forall i :: 0 <= i < |ss| ==> CoversAll(ss[i].state, t.state)
    ensures KeepsNone(ss, |ss|, s.compare) && (forall i :: 0 <= i < |ss| ==> ss[i].compare == None) ==>
              s.compare == None
  {
    hide CoversAll;
    forall i | 0 <= i < |ss|
      ensures CoversAll(ss[i].state, t.state)
    {
      CoversThrough(ss[i].state, s.state, t.state);
    }
  }
}
