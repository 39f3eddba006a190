/**
 * The mutable sparse polyhedron `WPoly`.
 *
 * Every method is specified on the denotation.  Methods that can reach the
 * `abort()` of the dimension mapping return a flag that is false exactly
 * when they do.
 */
module WPolys {
  import opened LinearExpressions
  import opened Polyhedra
  import opened SparsePolyhedra
  import opened UpperBounds

  // A bijection onto an initial segment has as many keys as targets.
  lemma {:induction false} BijectiveSize(m: map<nat, nat>, n: nat)
    requires Bijective(m, n)
    ensures |m| == n
    decreases n
  {
    if n == 0 {
      assert m == map[];
    } else {
      var g := VariableAt(m, n - 1);
      forall i: nat | i < n - 1
        ensures i in (m - {g}).Values
      {
        var h := VariableAt(m, i);
        assert h in m - {g} && (m - {g})[h] == i;
      }
      BijectiveSize(m - {g}, n - 1);
      assert m == (m - {g})[g := m[g]];
    }
  }

  lemma BijectiveExtend(m: map<nat, nat>, n: nat, g: nat)
    requires Bijective(m, n) && g !in m
    ensures Bijective(m[g := n], n + 1)
  {
    var m' := m[g := n];
    forall i: nat | i < n + 1
      ensures i in m'.Values
    {
      if i < n {
        var h := VariableAt(m, i);
        assert h in m' && m'[h] == i;
      } else {
        assert g in m' && m'[g] == i;
      }
    }
  }

  // How a partial function renames a set of tracked variables.
  ghost predicate RenamesBack(src: map<nat, nat>, keys: set<nat>, f: nat -> Option<nat>) {
    && (forall g :: g in keys && f(g).Some? ==> f(g).value in src && src[f(g).value] == g)
    && (forall j :: j in src ==> src[j] in keys && f(src[j]) == Some(j))
  }

  // The adapter after a dimension mapping.
  ghost predicate AdapterMapped(m: map<nat, nat>, f: DimMap, m': map<nat, nat>) {
    && (forall g :: g in m' <==> g in m && f.Maps(m[g]).Some?)
    && (forall g :: g in m' ==> m'[g] == f.Maps(m[g]).value)
  }

  lemma MappedBijective(m: map<nat, nat>, dim: nat, f: DimMap, m': map<nat, nat>, n: nat)
    requires Injective(m) && forall g :: g in m ==> m[g] < dim
    requires IsDimMap(f, dim, n) && AdapterMapped(m, f, m')
    requires forall i: nat :: i < dim && f.Maps(i).Some? ==> i in m.Values
    ensures Bijective(m', n)
  {
    forall k: nat | k < n
      ensures k in m'.Values
    {
      assert Hit(f, dim, k);
      var i: nat :| i < dim && f.Maps(i) == Some(k);
      var g := VariableAt(m, i);
      assert g in m' && m'[g] == k;
    }
    forall g, h | g in m' && h in m' && m'[g] == m'[h]
      ensures g == h
    {
      assert f.Maps(m[g]) == f.Maps(m[h]);
    }
  }

  class WPoly {
    const lib: Ppl
    var adapter: map<nat, nat>
    var next: nat
    var poly: Poly

    ghost function Value(): Sparse
      reads this
    {
      Sparse(adapter, poly)
    }

    ghost predicate Valid()
      reads this
    {
      lib.Lawful() && Value().Ok() && next == poly.dim
    }

    constructor (lib: Ppl, empty: bool)
      requires lib.Lawful()
      ensures this.lib == lib && Valid() && adapter == map[]
      ensures forall v: Valuation :: Has(Value(), v) <==> !empty
    {
      this.lib := lib;
      adapter := map[];
      next := 0;
      poly := Poly(0, if empty then iset{} else iset{[]});
      new;
      ZeroDimWf(empty);
    }

    constructor Copy(src: WPoly)
      requires src.Valid()
      ensures lib == src.lib && Value() == src.Value() && Valid()
    {
      lib := src.lib;
      adapter := src.adapter;
      next := src.next;
      poly := src.poly;
    }

    static lemma ZeroDimWf(empty: bool)
      ensures Poly(0, if empty then iset{} else iset{[]}).Wf()
    {
      var p := Poly(0, if empty then iset{} else iset{[]});
      var cs := if empty then [Cons(Constant(-1), false)] else [];
      forall x: seq<real> | |x| == 0
        ensures x in p.pts <==> SatAll(cs, Coord(x))
      {
        EvalConstant(-1, Coord(x));
        assert x == [];
        assert empty ==> cs[0] in cs;
      }
      assert Describes(cs, p);
    }

    // ----- translation to dimensions -----

    // Looking a variable up in a mutable polyhedron allocates a dimension.
    method Translate(g: nat) returns (d: nat)
      requires Bijective(adapter, next)
      modifies this`adapter, this`next
      ensures Bijective(adapter, next) && g in adapter && d == adapter[g]
      ensures adapter.Keys == old(adapter).Keys + {g} && next >= old(next)
      ensures forall h :: h in old(adapter) ==> adapter[h] == old(adapter)[h]
    {
      if g !in adapter {
        BijectiveExtend(adapter, next, g);
        adapter := adapter[g := next];
        next := next + 1;
      }
      d := adapter[g];
    }

    // One term of the translated expression.
    method AddTerm(coefs: map<nat, int>, g: nat, a: int, ghost done: map<nat, int>) returns (sum: map<nat, int>)
      requires Bijective(adapter, next) && IsRenaming(done, adapter, coefs) && g !in done
      modifies this`adapter, this`next
      ensures Bijective(adapter, next) && next >= old(next)
      ensures adapter.Keys == old(adapter).Keys + {g}
      ensures forall h :: h in old(adapter) ==> adapter[h] == old(adapter)[h]
      ensures IsRenaming(done[g := a], adapter, sum)
    {
      ghost var before := adapter;
      var d := Translate(g);
      RenamingInsert(done, before, coefs, g, a, adapter);
      sum := coefs[d := a];
    }

    static lemma OneTermLess(c: map<nat, int>, todo: set<nat>, g: nat)
      requires g in c && g in todo
      ensures (c - todo)[g := c[g]] == c - (todo - {g})
    {
    }

    // The adapter knows the variables of the terms that are done.
    static ghost predicate Grown(was: map<nat, nat>, c: map<nat, int>, todo: set<nat>, m: map<nat, nat>) {
      && (forall g :: g in m <==> g in was || (g in c && g !in todo))
      && (forall g :: g in was ==> g in m && m[g] == was[g])
    }

    static lemma NoTermDone(m: map<nat, nat>, c: map<nat, int>)
      ensures Grown(m, c, c.Keys, m) && IsRenaming(c - c.Keys, m, map[])
    {
    }

    static lemma AllTermsDone(was: map<nat, nat>, c: map<nat, int>, m: map<nat, nat>)
      requires Grown(was, c, {}, m)
      ensures m.Keys == was.Keys + c.Keys && c - {} == c
      ensures forall g :: g in was ==> m[g] == was[g]
    {
    }

    static lemma GrownBy(was: map<nat, nat>, c: map<nat, int>, todo: set<nat>, m: map<nat, nat>, g: nat,
                         m': map<nat, nat>)
      requires Grown(was, c, todo, m) && g in todo && todo <= c.Keys
      requires m'.Keys == m.Keys + {g} && forall h :: h in m ==> m'[h] == m[h]
      ensures Grown(was, c, todo - {g}, m')
    {
    }

    method ToPpl(le: LinExpr) returns (e: LinExpr)
      requires Bijective(adapter, next)
      modifies this`adapter, this`next
      ensures Bijective(adapter, next) && next >= old(next)
      ensures adapter.Keys == old(adapter).Keys + le.coefs.Keys
      ensures forall g :: g in old(adapter) ==> adapter[g] == old(adapter)[g]
      ensures e.cst == le.cst && IsRenaming(le.coefs, adapter, e.coefs)
    {
      var coefs: map<nat, int> := map[];
      var todo := le.coefs.Keys;
      NoTermDone(adapter, le.coefs);
      hide Bijective, IsRenaming, Grown;
      while todo != {}
        invariant todo <= le.coefs.Keys && Bijective(adapter, next) && next >= old(next)
        invariant Grown(old(adapter), le.coefs, todo, adapter)
        invariant IsRenaming(le.coefs - todo, adapter, coefs)
        decreases todo
      {
        ghost var before := adapter;
        var g :| g in todo;
        coefs := AddTerm(coefs, g, le.coefs[g], le.coefs - todo);
        OneTermLess(le.coefs, todo, g);
        GrownBy(old(adapter), le.coefs, todo, before, g, adapter);
        todo := todo - {g};
      }
      AllTermsDone(old(adapter), le.coefs, adapter);
      e := LinExpr(coefs, le.cst);
    }

    method AddConstraint(c: Cons)
      requires Valid()
      modifies this
      ensures Valid()
      ensures adapter.Keys == old(adapter).Keys + c.expr.coefs.Keys
      ensures forall v: Valuation :: Has(Value(), v) <==> Has(old(Value()), v) && Sat(c, v)
    {
      hide Has, IsRenaming, Poly.Wf, SatAll;
      ghost var s := Value();
      var e := ToPpl(c.expr);
      AddSpaceDimensions(next - poly.dim);
      ghost var t := Value();
      var d := Cons(e, c.equality);
      RenamingInRange(c.expr.coefs, adapter, e.coefs, poly.dim);
      ConsWf(poly, d);
      poly := lib.addConstraint(poly, d);
      ConstraintAdded(s, t, c, d);
    }

    static lemma ConstraintAdded(s: Sparse, t: Sparse, c: Cons, d: Cons)
      requires s.Ok() && t.Ok() && t.poly.dim >= s.poly.dim && t.poly == EmbedSpec(s.poly, t.poly.dim - s.poly.dim)
      requires forall g :: g in s.adapter ==> g in t.adapter && t.adapter[g] == s.adapter[g]
      requires c.expr.coefs.Keys <= t.adapter.Keys
      requires IsRenaming(c.expr.coefs, t.adapter, d.expr.coefs)
      requires d.expr.cst == c.expr.cst && d.equality == c.equality
      requires Sparse(t.adapter, ConsSpec(t.poly, d)).Ok()
      ensures forall v: Valuation :: Has(Sparse(t.adapter, ConsSpec(t.poly, d)), v) <==> Has(s, v) && Sat(c, v)
    {
      forall v: Valuation
        ensures Has(Sparse(t.adapter, ConsSpec(t.poly, d)), v) <==> Has(s, v) && Sat(c, v)
      {
        EmbedMeaning(s, t, t.poly.dim - s.poly.dim, v);
        ConsMeaning(t, c, d, v);
      }
    }

    method AddSpaceDimensions(k: nat)
      requires lib.Lawful() && poly.Wf()
      modifies this`poly
      ensures poly == EmbedSpec(old(poly), k) && poly.Wf()
    {
      EmbedWf(poly, k);
      poly := lib.embed(poly, k);
    }

    // ----- dimension mapping -----

    method MapAdapterDim(f: DimMap)
      requires f.Eliminator? ==> Distinct(f.victims)
      modifies this`adapter
      ensures AdapterMapped(old(adapter), f, adapter)
    {
      var bye: set<nat> := {};
      var todo := adapter.Keys;
      while todo != {}
        invariant todo <= old(adapter).Keys && adapter.Keys == old(adapter).Keys
        invariant forall g :: g in todo ==> adapter[g] == old(adapter)[g]
        invariant forall g :: g in bye <==> g in old(adapter).Keys - todo && f.Maps(old(adapter)[g]).None?
        invariant forall g :: g in old(adapter).Keys - todo - bye ==> Some(adapter[g]) == f.Maps(old(adapter)[g])
        decreases todo
      {
        var g :| g in todo;
        var j := f.Maps(adapter[g]);
        if f.Eliminator? {
          j := EliminatorMaps(f.victims, adapter[g]);
        }
        match j {
          case None => bye := bye + {g};
          case Some(d) => adapter := adapter[g := d];
        }
        todo := todo - {g};
      }
      adapter := adapter - bye;
    }

    // The adapter may already have been renamed, so it need not be onto; it
    // must cover every dimension that survives.
    method MapWithDim(f: DimMap) returns (ok: bool)
      requires lib.Lawful() && poly.Wf() && f.Wf()
      requires f.Eliminator? ==> Distinct(f.victims)
      requires TargetDim(poly.dim, f) >= 0 && IsDimMap(f, poly.dim, TargetDim(poly.dim, f))
      requires Injective(adapter) && forall g :: g in adapter ==> adapter[g] < poly.dim
      requires forall i: nat :: i < poly.dim && f.Maps(i).Some? ==> i in adapter.Values
      modifies this
      ensures ok <==> f.MaxInCodomain() + 1 == TargetDim(old(poly).dim, f)
      ensures ok ==> Valid() && AdapterMapped(old(adapter), f, adapter)
      ensures ok ==> poly == MapSpec(old(poly), f, TargetDim(old(poly).dim, f))
    {
      ghost var dim := poly.dim;
      poly := lib.mapDimensions(poly, f);
      if f.MaxInCodomain() + 1 != poly.dim {
        return false;
      }
      next := f.MaxInCodomain() + 1;
      MapAdapterDim(f);
      MappedBijective(old(adapter), dim, f, adapter, poly.dim);
      ok := true;
    }

    // ----- projection and renaming -----

    // The renamed adapter, and the dimensions of the variables that go.
    method SplitAdapter(f: nat -> Option<nat>)
      returns (newAdapter: map<nat, nat>, victims: seq<nat>, ghost src: map<nat, nat>)
      requires Injective(adapter)
      requires forall g, h :: g in adapter && h in adapter && f(g).Some? && f(g) == f(h) ==> g == h
      ensures newAdapter.Keys == src.Keys && RenamesBack(src, adapter.Keys, f)
      ensures forall j :: j in src ==> newAdapter[j] == adapter[src[j]]
      ensures Distinct(victims)
      ensures forall g :: g in adapter ==> (adapter[g] in victims <==> f(g).None?)
      ensures forall d :: d in victims ==> exists g :: g in adapter && adapter[g] == d
    {
      newAdapter := map[];
      victims := [];
      src := map[];
      var todo := adapter.Keys;
      while todo != {}
        invariant todo <= adapter.Keys
        invariant newAdapter.Keys == src.Keys
        invariant forall g :: g in adapter && g !in todo && f(g).Some? ==> f(g).value in src && src[f(g).value] == g
        invariant forall j :: j in src ==> src[j] in adapter && src[j] !in todo && f(src[j]) == Some(j)
        invariant forall j :: j in src ==> newAdapter[j] == adapter[src[j]]
        invariant Distinct(victims)
        invariant forall g :: g in adapter ==> (adapter[g] in victims <==> f(g).None? && g !in todo)
        invariant forall d :: d in victims ==> exists g :: g in adapter && adapter[g] == d
        decreases todo
      {
        var g :| g in todo;
        match f(g) {
          case Some(j) =>
            newAdapter := newAdapter[j := adapter[g]];
            src := src[j := g];
          case None =>
            victims := victims + [adapter[g]];
        }
        todo := todo - {g};
      }
    }

    method MapVars(f: nat -> Option<nat>) returns (ghost src: map<nat, nat>)
      requires Valid()
      requires forall g, h :: g in adapter && h in adapter && f(g).Some? && f(g) == f(h) ==> g == h
      modifies this
      ensures Valid()
      ensures adapter.Keys == src.Keys && RenamesBack(src, old(adapter).Keys, f)
      ensures forall w: Valuation :: Has(Value(), w) <==> Projects(old(Value()), src, w)
    {
      ghost var s := Value();
      var newAdapter, victims;
      newAdapter, victims, src := SplitAdapter(f);
      EliminatorIsDimMap(victims, poly.dim);
      SurvivorsCovered(adapter, poly.dim, f, newAdapter, src, victims);
      adapter := newAdapter;
      var ok := MapWithDim(Eliminator(victims, poly.dim));
      RenamedMeaning(s, f, newAdapter, src, victims, Value());
    }

    // Every dimension that survives belongs to a renamed variable.
    static lemma SurvivorsCovered(m: map<nat, nat>, dim: nat, f: nat -> Option<nat>, m': map<nat, nat>,
                                  src: map<nat, nat>, victims: seq<nat>)
      requires Bijective(m, dim) && m'.Keys == src.Keys && RenamesBack(src, m.Keys, f)
      requires forall j :: j in src ==> m'[j] == m[src[j]]
      requires forall g :: g in m ==> (m[g] in victims <==> f(g).None?)
      ensures Injective(m') && forall j :: j in m' ==> m'[j] < dim
      ensures forall i: nat :: i < dim && i !in victims ==> i in m'.Values
    {
      forall i: nat | i < dim && i !in victims
        ensures i in m'.Values
      {
        var g := VariableAt(m, i);
        assert f(g).value in m' && m'[f(g).value] == i;
      }
    }

    static lemma RenamedMeaning(s: Sparse, f: nat -> Option<nat>, m: map<nat, nat>, src: map<nat, nat>,
                                victims: seq<nat>, t: Sparse)
      requires s.Ok() && t.Ok() && m.Keys == src.Keys && RenamesBack(src, s.adapter.Keys, f)
      requires forall j :: j in src ==> m[j] == s.adapter[src[j]]
      requires Distinct(victims) && forall d :: d in victims ==> d < s.poly.dim
      requires forall g :: g in s.adapter ==> (s.adapter[g] in victims <==> f(g).None?)
      requires AdapterMapped(m, Eliminator(victims, s.poly.dim), t.adapter)
      requires t.poly == MapSpec(s.poly, Eliminator(victims, s.poly.dim), t.poly.dim)
                && t.poly.dim == s.poly.dim - |victims|
      ensures t.adapter.Keys == src.Keys
      ensures forall w: Valuation :: Has(t, w) <==> Projects(s, src, w)
    {
      hide Has, Distinct;
      var el := Eliminator(victims, s.poly.dim);
      EliminatorIsDimMap(victims, s.poly.dim);
      assert forall j :: j in src ==> el.Maps(m[j]).Some?;
      assert MappedBy(s, src, el, t);
      forall w: Valuation
        ensures Has(t, w) <==> Projects(s, src, w)
      {
        MapMeaning(s, src, el, t, w);
      }
    }

    // Looking a variable up in a constant polyhedron fails when it is not
    // tracked; then nothing needs to be projected.
    method Unconstrain(g: nat)
      requires Valid()
      modifies this
      ensures Valid()
      ensures adapter.Keys == old(adapter).Keys - {g}
      ensures forall w: Valuation :: Has(Value(), w) <==> Projects(old(Value()), Identity(old(adapter).Keys - {g}), w)
    {
      if g !in adapter {
        assert adapter.Keys - {g} == adapter.Keys;
        forall w: Valuation
          ensures Has(Value(), w) <==> Projects(Value(), Identity(adapter.Keys), w)
        {
          ProjectAll(Value(), w);
        }
        return;
      }
      Eliminate([adapter[g]]);
      assert adapter.Keys == old(adapter).Keys - {g};
    }

    // Dropping a list of dimensions.
    method Eliminate(victims: seq<nat>)
      requires Valid() && Distinct(victims) && forall d :: d in victims ==> d < poly.dim
      modifies this
      ensures Valid()
      ensures forall g :: g in adapter <==> g in old(adapter) && old(adapter)[g] !in victims
      ensures forall w: Valuation :: Has(Value(), w) <==> Projects(old(Value()), Identity(adapter.Keys), w)
    {
      ghost var s := Value();
      var el := Eliminator(victims, poly.dim);
      EliminatorIsDimMap(victims, poly.dim);
      var ok := MapWithDim(el);
      ghost var src := Identity(adapter.Keys);
      assert MappedBy(s, src, el, Value());
      forall w: Valuation
        ensures Has(Value(), w) <==> Projects(s, src, w)
      {
        MapMeaning(s, src, el, Value(), w);
      }
    }

    // ----- aligning two polyhedra -----

    // Number the variables of another polyhedron that are missing here.
    method Adopt(keys: set<nat>) returns (added: nat)
      requires Bijective(adapter, next)
      modifies this`adapter, this`next
      ensures Bijective(adapter, next) && next == old(next) + added
      ensures adapter.Keys == old(adapter).Keys + keys
      ensures forall g :: g in old(adapter) ==> adapter[g] == old(adapter)[g]
    {
      added := 0;
      var todo := keys;
      while todo != {}
        invariant todo <= keys
        invariant Bijective(adapter, next) && next == old(next) + added
        invariant forall g :: g in adapter <==> g in old(adapter) || (g in keys && g !in todo)
        invariant forall g :: g in old(adapter) ==> adapter[g] == old(adapter)[g]
        decreases todo
      {
        var g :| g in todo;
        if g !in adapter {
          BijectiveExtend(adapter, next, g);
          adapter := adapter[g := next];
          next := next + 1;
          added := added + 1;
        }
        todo := todo - {g};
      }
    }

    method Extend(keys: set<nat>)
      requires Valid()
      modifies this
      ensures Valid()
      ensures adapter.Keys == old(adapter).Keys + keys
      ensures forall w: Valuation :: Has(Value(), w) <==> Has(old(Value()), w)
    {
      ghost var s := Value();
      var added := Adopt(keys);
      AddSpaceDimensions(added);
      forall w: Valuation
        ensures Has(Value(), w) <==> Has(s, w)
      {
        EmbedMeaning(s, Value(), added, w);
      }
    }

    // The dimensions of the variables that another polyhedron lacks.
    method Victims(keys: set<nat>) returns (victims: seq<nat>)
      requires Injective(adapter)
      ensures Distinct(victims)
      ensures forall g :: g in adapter ==> (adapter[g] in victims <==> g !in keys)
      ensures forall d :: d in victims ==> exists g :: g in adapter && adapter[g] == d
    {
      victims := [];
      var todo := adapter.Keys;
      while todo != {}
        invariant todo <= adapter.Keys
        invariant Distinct(victims)
        invariant forall g :: g in adapter ==> (adapter[g] in victims <==> g !in keys && g !in todo)
        invariant forall d :: d in victims ==> exists g :: g in adapter && adapter[g] == d
        decreases todo
      {
        var g :| g in todo;
        if g !in keys {
          victims := victims + [adapter[g]];
        }
        todo := todo - {g};
      }
    }

    // The renumbering of `from`'s dimensions that aligns it with this one.
    method Renumbering(from: map<nat, nat>) returns (remap: map<nat, nat>)
      requires Injective(from) && adapter.Keys == from.Keys
      ensures forall g :: g in from ==> from[g] in remap && remap[from[g]] == adapter[g]
      ensures forall i :: i in remap ==> exists g :: g in from && from[g] == i
    {
      remap := map[];
      var todo := adapter.Keys;
      while todo != {}
        invariant todo <= adapter.Keys
        invariant forall g :: g in from && g !in todo ==> from[g] in remap && remap[from[g]] == adapter[g]
        invariant forall i :: i in remap ==> exists g :: g in from && from[g] == i
        decreases todo
      {
        var g :| g in todo;
        remap := remap[from[g] := adapter[g]];
        todo := todo - {g};
      }
    }

    // The last step of `combine`: give `src` the dimensions of this one.  The
    // table functor reports a maximum of zero even when it is empty, so the
    // check after the mapping fails exactly on zero-dimensional spaces.
    method Align(src: WPoly) returns (ok: bool)
      requires Valid() && src.Valid() && this != src
      requires adapter.Keys == src.adapter.Keys
      modifies src
      ensures ok <==> adapter != map[]
      ensures ok ==> src.Valid() && src.adapter == adapter && src.poly.dim == poly.dim
      ensures ok ==> forall w: Valuation :: Has(src.Value(), w) <==> Has(old(src.Value()), w)
    {
      ghost var s := src.Value();
      var n := poly.dim;
      BijectiveSize(adapter, n);
      BijectiveSize(src.adapter, src.poly.dim);
      assert |adapter.Keys| == |src.adapter.Keys|;
      var remap := Renumbering(src.adapter);
      var f := NewMapHash(remap);
      assert forall g :: g in adapter ==> f.Maps(src.adapter[g]) == Some(adapter[g]);
      AlignmentIsDimMap(src.adapter, adapter, n, f);
      ok := src.MapWithDim(f);
      if ok {
        AdapterAligned(s.adapter, f, src.adapter, adapter);
        AlignMeaning(s, f, src.Value());
      }
    }

    static lemma AdapterAligned(from: map<nat, nat>, f: DimMap, m: map<nat, nat>, to: map<nat, nat>)
      requires AdapterMapped(from, f, m) && from.Keys == to.Keys
      requires forall g :: g in to ==> f.Maps(from[g]) == Some(to[g])
      ensures m == to
    {
      assert m.Keys == to.Keys;
    }

    static lemma AlignMeaning(s: Sparse, f: DimMap, t: Sparse)
      requires s.Ok() && t.Ok() && t.adapter.Keys == s.adapter.Keys
      requires t.poly == MapSpec(s.poly, f, t.poly.dim) && IsDimMap(f, s.poly.dim, t.poly.dim)
      requires forall g :: g in t.adapter ==> f.Maps(s.adapter[g]) == Some(t.adapter[g])
      ensures forall w: Valuation :: Has(t, w) <==> Has(s, w)
    {
      var id := Identity(s.adapter.Keys);
      assert MappedBy(s, id, f, t);
      forall w: Valuation
        ensures Has(t, w) <==> Has(s, w)
      {
        MapMeaning(s, id, f, t, w);
        ProjectAll(s, w);
      }
    }

    static lemma AlignmentIsDimMap(from: map<nat, nat>, to: map<nat, nat>, n: nat, f: DimMap)
      requires Bijective(from, n) && Bijective(to, n) && from.Keys == to.Keys
      requires f.MapHash? && f.Wf()
      requires forall g :: g in from ==> f.Maps(from[g]) == Some(to[g])
      requires forall i :: i in f.remap ==> exists g :: g in from && from[g] == i
      ensures TargetDim(n, f) == n && IsDimMap(f, n, n)
      ensures f.MaxInCodomain() + 1 == n <==> from != map[]
      ensures from != map[] <==> n > 0
    {
      BijectiveSize(from, n);
      forall k: nat | k < n
        ensures Hit(f, n, k)
      {
        var g := VariableAt(to, k);
        assert f.Maps(from[g]) == Some(k);
      }
      if n > 0 {
        assert Hit(f, n, n - 1);
        assert f.maxTarget <= n - 1;
      }
    }

    method Combine(src: WPoly, keep: bool) returns (ok: bool)
      requires Valid() && src.Valid() && this != src
      modifies this, src
      ensures ok <==> Combined(old(adapter), old(src.adapter), keep) != {}
      ensures ok ==> Valid() && src.Valid() && adapter == src.adapter && poly.dim == src.poly.dim
      ensures ok ==> adapter.Keys == Combined(old(adapter), old(src.adapter), keep)
      ensures ok ==> forall w: Valuation :: Has(Value(), w) <==> Kept(old(Value()), adapter.Keys, keep, w)
      ensures ok ==> forall w: Valuation :: Has(src.Value(), w) <==> Kept(old(src.Value()), adapter.Keys, keep, w)
    {
      ghost var k1, k2 := adapter.Keys, src.adapter.Keys;
      if keep {
        src.Extend(adapter.Keys);
        Extend(src.adapter.Keys);
      } else {
        var victims := Victims(src.adapter.Keys);
        var srcVictims := src.Victims(adapter.Keys);
        Eliminate(victims);
        src.Eliminate(srcVictims);
      }
      assert adapter.Keys == (if keep then k1 + k2 else k1 * k2);
      assert src.adapter.Keys == (if keep then k1 + k2 else k1 * k2);
      ok := Align(src);
    }

    // ----- the lattice operations -----

    method IsEmpty() returns (b: bool)
      requires Valid()
      ensures b <==> forall v: Valuation :: !Has(Value(), v)
    {
      EmptyHasNothing(Value());
      b := lib.isEmpty(poly);
    }

    method Equals(src: WPoly) returns (ok: bool, same: bool)
      requires Valid() && src.Valid() && lib == src.lib
      ensures ok <==> adapter.Keys + src.adapter.Keys != {}
      ensures ok ==> (same <==> forall v: Valuation :: Has(Value(), v) <==> Has(src.Value(), v))
    {
      var copy1 := new WPoly.Copy(src);
      var copy2 := new WPoly.Copy(this);
      ok := copy1.Combine(copy2, true);
      same := false;
      if ok {
        same := lib.equal(copy1.poly, copy2.poly);
        EqualMeaning(copy1.adapter, copy1.poly, copy2.poly, src.Value(), Value());
      }
    }

    method IntersectionAssign(src: WPoly) returns (ok: bool)
      requires Valid() && src.Valid() && lib == src.lib
      modifies this
      ensures ok <==> old(adapter).Keys + old(src.adapter).Keys != {}
      ensures ok ==> Valid() && adapter.Keys == old(adapter).Keys + old(src.adapter).Keys
      ensures ok ==> forall v: Valuation :: Has(Value(), v) <==> Has(old(Value()), v) && Has(old(src.Value()), v)
    {
      var copy := new WPoly.Copy(src);
      ok := Combine(copy, true);
      if ok {
        ghost var p, q := poly, copy.poly;
        MeetWf(p, q);
        poly := lib.intersection(poly, copy.poly);
        forall v: Valuation {
          MeetMeaning(adapter, p, q, v);
        }
      }
    }

    method PolyHullAssign(src: WPoly) returns (ok: bool)
      requires Valid() && src.Valid() && lib == src.lib
      modifies this
      ensures ok <==> old(adapter).Keys * old(src.adapter).Keys != {}
      ensures ok ==> Valid() && adapter.Keys == old(adapter).Keys * old(src.adapter).Keys
      ensures ok ==> forall v: Valuation :: Has(old(Value()), v) || Has(old(src.Value()), v) ==> Has(Value(), v)
      ensures ok && LeastHull(lib) ==> forall r: Poly {:trigger Encloses(Sparse(adapter, r), Value())} ::
                Encloses(Sparse(adapter, r), old(Value())) && Encloses(Sparse(adapter, r), old(src.Value()))
                ==> Encloses(Sparse(adapter, r), Value())
      ensures ok ==> IsHull(lib, old(Value()), Identity(old(adapter).Keys), old(src.Value()), Value())
    {
      ghost var s, t := Value(), src.Value();
      var copy := new WPoly.Copy(src);
      ok := Combine(copy, false);
      if ok {
        ghost var p, q := poly, copy.poly;
        poly := lib.hull(poly, copy.poly);
        HullIs(lib, s, t, adapter, p, q);
        HullIsLeast(lib, s, t, adapter, p, q);
        SubsetMeaning(adapter, p, poly);
        SubsetMeaning(adapter, q, poly);
        forall v: Valuation | Has(s, v) || Has(t, v)
          ensures Has(Value(), v)
        {
          if Has(s, v) { ProjectMeaning(s, adapter.Keys, v); }
          if Has(t, v) { ProjectMeaning(t, adapter.Keys, v); }
        }
      }
    }

    // The library asks that the second argument be contained in the first.
    method ExtrapolationAssign(src: WPoly) returns (ok: bool)
      requires Valid() && src.Valid() && lib == src.lib
      requires forall v: Valuation :: Has(src.Value(), v) ==> Has(Value(), v)
      modifies this
      ensures ok <==> old(adapter).Keys * old(src.adapter).Keys != {}
      ensures ok ==> Valid() && adapter.Keys == old(adapter).Keys * old(src.adapter).Keys
      ensures ok ==> forall v: Valuation :: Has(old(Value()), v) ==> Has(Value(), v)
      ensures ok ==> IsExtrapolation(lib, old(Value()), old(src.Value()), Value())
    {
      ghost var s, t := Value(), src.Value();
      var copy := new WPoly.Copy(src);
      ok := Combine(copy, false);
      if ok {
        ghost var p, q := poly, copy.poly;
        forall v: Valuation | Has(Sparse(adapter, q), v)
          ensures Has(Sparse(adapter, p), v)
        {
          ProjectsMonotone(t, s, Identity(adapter.Keys), v);
        }
        SubsetMeaning(adapter, q, p);
        poly := lib.extrapolation(poly, copy.poly);
        ExtrapolationIs(lib, s, t, adapter, p, q);
        SubsetMeaning(adapter, p, poly);
        forall v: Valuation | Has(s, v)
          ensures Has(Value(), v)
        {
          ProjectMeaning(s, adapter.Keys, v);
        }
      }
    }
  }

  // The variables that two polyhedra keep when they are combined.
  ghost function Combined(m1: map<nat, nat>, m2: map<nat, nat>, keep: bool): set<nat> {
    if keep then m1.Keys + m2.Keys else m1.Keys * m2.Keys
  }

  // What combining does to one denotation: nothing, or a projection.
  ghost predicate Kept(s: Sparse, keys: set<nat>, keep: bool, w: Valuation)
    requires s.Ok()
  {
    if keep then Has(s, w) else Projects(s, Identity(keys), w)
  }

  // `u` contains the valuations of `s`.
  ghost predicate Encloses(u: Sparse, s: Sparse) {
    u.Ok() && s.Ok() && forall v: Valuation :: Has(s, v) ==> Has(u, v)
  }

  // What contains a polyhedron contains its projection, when it says nothing
  // of the variables that go.
  lemma EnclosesProjection(u: Sparse, s: Sparse, p: Sparse)
    requires p.Ok() && Encloses(u, s) && u.adapter == p.adapter
    requires forall w: Valuation :: Has(p, w) <==> Projects(s, Identity(p.adapter.Keys), w)
    ensures Encloses(u, p)
  {
    var id := Identity(p.adapter.Keys);
    forall w: Valuation | Has(p, w)
      ensures Has(u, w)
    {
      var v: Valuation :| Has(s, v) && Via(id, v, w);
      forall g | g in u.adapter
        ensures v(g) == w(g)
      {
        assert g in id && id[g] == g;
      }
      HasAgree(u, v, w);
    }
  }

  lemma HullIsLeast(lib: Ppl, s: Sparse, t: Sparse, m: map<nat, nat>, p: Poly, q: Poly)
    requires s.Ok() && t.Ok() && Sparse(m, p).Ok() && Sparse(m, q).Ok() && p.dim == q.dim
              && Sparse(m, lib.hull(p, q)).Ok()
    requires lib.hull(p, q).dim == p.dim
    requires forall w: Valuation :: Has(Sparse(m, p), w) <==> Projects(s, Identity(m.Keys), w)
    requires forall w: Valuation :: Has(Sparse(m, q), w) <==> Projects(t, Identity(m.Keys), w)
    ensures LeastHull(lib) ==> forall r: Poly {:trigger Encloses(Sparse(m, r), Sparse(m, lib.hull(p, q)))} ::
              Encloses(Sparse(m, r), s) && Encloses(Sparse(m, r), t) ==>
                  Encloses(Sparse(m, r), Sparse(m, lib.hull(p, q)))
  {
    if LeastHull(lib) {
      forall r: Poly | Encloses(Sparse(m, r), s) && Encloses(Sparse(m, r), t)
        ensures Encloses(Sparse(m, r), Sparse(m, lib.hull(p, q)))
      {
        EnclosesProjection(Sparse(m, r), s, Sparse(m, p));
        EnclosesProjection(Sparse(m, r), t, Sparse(m, q));
        BijectiveSize(m, p.dim);
        BijectiveSize(m, r.dim);
        SubsetMeaning(m, p, r);
        SubsetMeaning(m, q, r);
        SubsetMeaning(m, lib.hull(p, q), r);
      }
    }
  }

  lemma ProjectsMonotone(t: Sparse, s: Sparse, src: map<nat, nat>, w: Valuation)
    requires t.Ok() && s.Ok()
    requires forall v: Valuation :: Has(t, v) ==> Has(s, v)
    ensures Projects(t, src, w) ==> Projects(s, src, w)
  {
  }
}
