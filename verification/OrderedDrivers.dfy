/**
 * include/OrderedDriver.h: a worklist of vertices with a bit set, kept sorted by an optional order, and the
 * states on the edges; and its client in poly_PolyAnalysis.cpp, which processes blocks until nothing changes.
 */
module OrderedDrivers {
  import opened Polyhedra
  import opened Fixpoints

  // `isBefore`, or nothing: then the worklist is a stack.
  type Order = Option<(nat, nat) -> bool>

  // A strict weak order on the vertices.
  ghost predicate StrictWeak(order: Order, n: nat) {
    order.Some? ==>
      (forall a: nat, b: nat :: a < n && b < n && order.value(a, b) ==> !order.value(b, a)) &&
      (forall a: nat, b: nat, c: nat :: a < n && b < n && c < n && order.value(a, c) ==>
          order.value(a, b) || order.value(b, c))
  }

  predicate Before(order: Order, a: nat, b: nat) {
    order.Some? && order.value(a, b)
  }

  // The bit of a vertex is set exactly when it is queued, and none is queued
  // twice.
  ghost predicate Queue(n: nat, bits: seq<bool>, wl: seq<nat>) {
    |bits| == n && (forall i :: 0 <= i < |wl| ==> wl[i] < n) &&
    (forall v :: 0 <= v < n ==> (bits[v] <==> v in wl)) &&
    (forall i, j :: 0 <= i < j < |wl| ==> wl[i] != wl[j])
  }

  // The vector is popped from its end: nothing stands before a vertex nearer to
  // the end.
  ghost predicate Sorted(order: Order, wl: seq<nat>) {
    forall i, j :: 0 <= i < j < |wl| ==> !Before(order, wl[i], wl[j])
  }

  // `v` is inserted above the vertices it stands before and below all others, or
  // at the end without an order.
  ghost predicate InsertedAt(order: Order, wl: seq<nat>, v: nat, i: nat, after: seq<nat>) {
    i <= |wl| && after == wl[..i] + [v] + wl[i..] &&
    (order.None? ==> i == |wl|) &&
    (order.Some? ==> forall k :: 0 <= k < i ==> Before(order, v, wl[k])) &&
    (forall k :: i <= k < |wl| ==> !Before(order, v, wl[k]))
  }

  lemma InsertedMembers(wl: seq<nat>, v: nat, i: nat)
    requires i <= |wl|
    ensures forall w :: w in wl[..i] + [v] + wl[i..] <==> w in wl || w == v
  {
    assert wl == wl[..i] + wl[i..];
  }

  // Every queued vertex was queued at some time.
  ghost predicate Aged(wl: seq<nat>, born: map<nat, nat>, clock: nat) {
    forall i :: 0 <= i < |wl| ==> wl[i] in born && born[wl[i]] < clock
  }

  // Nearer to the end stands what the order puts first, and among equals what was
  // queued first.
  ghost predicate OldestFirst(order: Order, wl: seq<nat>, born: map<nat, nat>)
    requires forall i :: 0 <= i < |wl| ==> wl[i] in born
  {
    order.Some? ==>
      forall i, j :: 0 <= i < j < |wl| ==> Before(order, wl[j], wl[i]) || born[wl[j]] < born[wl[i]]
  }

  lemma InsertKeepsAge(wl: seq<nat>, v: nat, order: Order, i: nat, after: seq<nat>, born: map<nat, nat>, clock: nat)
    requires Aged(wl, born, clock) && OldestFirst(order, wl, born) && v !in wl && InsertedAt(order, wl, v, i, after)
    ensures Aged(after, born[v := clock], clock + 1) && OldestFirst(order, after, born[v := clock])
  {
    var born2 := born[v := clock];
    forall k | 0 <= k < |after|
      ensures after[k] in born2 && born2[after[k]] < clock + 1
    {
      assert k != i ==> after[k] == wl[if k < i then k else k - 1];
    }
    if order.Some? {
      forall j, k | 0 <= j < k < |after|
        ensures Before(order, after[k], after[j]) || born2[after[k]] < born2[after[j]]
      {
        var a := if j < i then j else j - 1;
        var b := if k < i then k else k - 1;
        assert j != i ==> after[j] == wl[a] && wl[a] != v;
        assert k != i ==> after[k] == wl[b] && wl[b] != v;
      }
    }
  }

  ghost predicate Pushed(order: Order, wl: seq<nat>, v: nat, after: seq<nat>) {
    if v in wl then after == wl else exists i :: InsertedAt(order, wl, v, i, after)
  }

  lemma InsertKeepsQueue(n: nat, bits: seq<bool>, wl: seq<nat>, v: nat, order: Order, i: nat, after: seq<nat>)
    requires Queue(n, bits, wl) && v < n && v !in wl && InsertedAt(order, wl, v, i, after)
    ensures Queue(n, bits[v := true], after)
  {
    forall w | 0 <= w < n
      ensures bits[v := true][w] <==> w in after
    {
      assert wl == wl[..i] + wl[i..];
      assert w in after <==> w in wl || w == v;
    }
  }

  lemma InsertKeepsSorted(n: nat, wl: seq<nat>, v: nat, order: Order, i: nat, after: seq<nat>)
    requires StrictWeak(order, n) && v < n && (forall i :: 0 <= i < |wl| ==> wl[i] < n)
    requires Sorted(order, wl) && InsertedAt(order, wl, v, i, after)
    ensures Sorted(order, after)
  {
    forall j, k | 0 <= j < k < |after|
      ensures !Before(order, after[j], after[k])
    {
      var a := if j < i then j else j - 1;
      var b := if k < i then k else k - 1;
      if j == i {
        assert !Before(order, v, wl[b]);
      } else if k == i && order.Some? {
        assert Before(order, v, wl[a]);
      }
    }
  }

  // Once `wl[i]` is not after `v`, nothing nearer to the end is.
  lemma NoneAfter(n: nat, wl: seq<nat>, v: nat, order: Order, i: nat)
    requires StrictWeak(order, n) && v < n && (forall i :: 0 <= i < |wl| ==> wl[i] < n)
    requires Sorted(order, wl) && i <= |wl| && (i < |wl| ==> !Before(order, v, wl[i]))
    ensures forall k :: i <= k < |wl| ==> !Before(order, v, wl[k])
  {
    forall k | i <= k < |wl|
      ensures !Before(order, v, wl[k])
    {
      assert k > i ==> !Before(order, wl[i], wl[k]);
    }
  }

  // ----- progress towards the least solution -----

  // The states are below every post-solution, they can only grow, and they satisfy
  // the equations of all edges whose source is not waiting.
  ghost predicate Progress<S(!new)>(p: Analysis<S>, x: seq<S>, waiting: seq<nat>)
    requires p.g.Ok()
  {
    |x| == |p.g.edges| &&
    (forall y :: PostSolution(p, y) ==> AllBelow(p.l, x, y)) &&
    (forall e :: 0 <= e < |x| ==> Below(p.l, x[e], Demand(p, x, e))) &&
    (forall e :: 0 <= e < |x| && p.g.edges[e].source !in waiting ==> x[e] == Demand(p, x, e))
  }

  ghost function Remaining<S>(l: Semilattice<S>, x: seq<S>): nat {
    if x == [] then 0 else Remaining(l, x[..|x| - 1]) + l.rank(x[|x| - 1])
  }

  lemma {:induction false} RemainingShrinks<S(!new)>(l: Semilattice<S>, x: seq<S>, y: seq<S>)
    requires Lawful(l) && AllBelow(l, x, y)
    ensures Remaining(l, y) <= Remaining(l, x)
    ensures x != y ==> Remaining(l, y) < Remaining(l, x)
  {
    if x != [] {
      var n := |x| - 1;
      RemainingShrinks(l, x[..n], y[..n]);
      assert x == x[..n] + [x[n]] && y == y[..n] + [y[n]];
      assert Below(l, x[n], y[n]);
    }
  }

  // A block was processed with input `s`: the edges in `done` carry what it sends,
  // all others are as before, and the sink of every changed edge is queued.
  ghost predicate Sent<S(!new)>(p: Analysis<S>, x: seq<S>, wl: seq<nat>, v: nat, s: S, done: set<nat>, y: seq<S>,
                         wl2: seq<nat>)
    requires p.g.Ok()
  {
    |x| == |y| == |p.g.edges| &&
    (forall e :: 0 <= e < |x| && e in done ==> y[e] == Out(p, e, s)) &&
    (forall e :: 0 <= e < |x| && y[e] != x[e] ==>
        p.g.edges[e].source == v && y[e] == Out(p, e, s) && p.g.edges[e].sink in wl2) &&
    (forall w :: w in wl ==> w in wl2) &&
    (x == y ==> wl == wl2)
  }

  lemma SentGrows<S(!new)>(p: Analysis<S>, x: seq<S>, wl: seq<nat>, waiting: seq<nat>, v: nat, done: set<nat>,
                    y: seq<S>, wl2: seq<nat>)
    requires Proper(p) && Progress(p, x, waiting) && v < p.g.count && v != p.g.entry
    requires Sent(p, x, wl, v, JoinAll(p.l, x, p.g.ins[v]), done, y, wl2)
    ensures AllBelow(p.l, x, y)
    ensures forall e :: 0 <= e < |x| ==> y[e] == x[e] || y[e] == Demand(p, x, e)
  {
    forall e | 0 <= e < |x|
      ensures Below(p.l, x[e], y[e]) && (y[e] == x[e] || y[e] == Demand(p, x, e))
    {
      BelowSelf(p.l, x[e]);
      assert Below(p.l, x[e], Demand(p, x, e));
    }
  }

  lemma SentBelowPost<S(!new)>(p: Analysis<S>, x: seq<S>, y: seq<S>, z: seq<S>)
    requires Proper(p) && |x| == |y| == |p.g.edges| && AllBelow(p.l, x, z) && PostSolution(p, z)
    requires forall e :: 0 <= e < |x| ==> y[e] == x[e] || y[e] == Demand(p, x, e)
    ensures AllBelow(p.l, y, z)
  {
    hide Lawful, Below, Demand, Monotone;
    forall e | 0 <= e < |y|
      ensures Below(p.l, y[e], z[e])
    {
      if y[e] != x[e] {
        DemandMonotone(p, x, z, e);
        BelowTransitive(p.l, Demand(p, x, e), Demand(p, z, e), z[e]);
      }
    }
  }

  lemma SentBelowDemand<S(!new)>(p: Analysis<S>, x: seq<S>, y: seq<S>, e: nat)
    requires Proper(p) && |x| == |y| == |p.g.edges| && AllBelow(p.l, x, y) && e < |x|
    requires Below(p.l, x[e], Demand(p, x, e)) && (y[e] == x[e] || y[e] == Demand(p, x, e))
    ensures Below(p.l, y[e], Demand(p, y, e))
  {
    hide Lawful, Below, Demand, Monotone;
    DemandMonotone(p, x, y, e);
    if y[e] == x[e] {
      BelowTransitive(p.l, x[e], Demand(p, x, e), Demand(p, y, e));
    }
  }

  // The equation of an edge depends only on the edges into its source.
  lemma DemandAgrees<S(!new)>(p: Analysis<S>, x: seq<S>, y: seq<S>, e: nat)
    requires p.g.Ok() && |x| == |y| == |p.g.edges| && e < |x|
    requires forall i :: 0 <= i < |x| && p.g.edges[i].sink == p.g.edges[e].source ==> x[i] == y[i]
    ensures Demand(p, x, e) == Demand(p, y, e)
  {
    JoinAllAgree(p.l, x, y, p.g.ins[p.g.edges[e].source]);
  }

  // Processing a block keeps the invariant: the block itself no longer waits,
  // unless it was queued again.
  lemma ProcessedProgress<S(!new)>(p: Analysis<S>, x: seq<S>, wl: seq<nat>, v: nat, done: set<nat>, y: seq<S>,
                            wl2: seq<nat>)
    requires Proper(p) && Progress(p, x, wl + [v]) && v < p.g.count && v != p.g.entry
    requires Sent(p, x, wl, v, JoinAll(p.l, x, p.g.ins[v]), done, y, wl2)
    requires forall e :: e in p.g.outs[v] ==> e in done
    ensures Progress(p, y, wl2)
    ensures AllBelow(p.l, x, y)
  {
    SentGrows(p, x, wl, wl + [v], v, done, y, wl2);
    hide Lawful, Below, Demand, Monotone;
    forall z | PostSolution(p, z)
      ensures AllBelow(p.l, y, z)
    {
      SentBelowPost(p, x, y, z);
    }
    forall e | 0 <= e < |y|
      ensures Below(p.l, y[e], Demand(p, y, e))
    {
      SentBelowDemand(p, x, y, e);
    }
    forall e | 0 <= e < |y| && p.g.edges[e].source !in wl2
      ensures y[e] == Demand(p, y, e)
    {
      ProcessedEdge(p, x, wl, v, done, y, wl2, e);
    }
  }

  lemma ProcessedEdge<S(!new)>(p: Analysis<S>, x: seq<S>, wl: seq<nat>, v: nat, done: set<nat>, y: seq<S>,
                        wl2: seq<nat>, e: nat)
    requires p.g.Ok() && Progress(p, x, wl + [v]) && v < p.g.count && v != p.g.entry
    requires Sent(p, x, wl, v, JoinAll(p.l, x, p.g.ins[v]), done, y, wl2)
    requires forall e :: e in p.g.outs[v] ==> e in done
    requires e < |y| && p.g.edges[e].source !in wl2
    ensures y[e] == Demand(p, y, e)
  {
    DemandAgrees(p, x, y, e);
    if p.g.edges[e].source == v {
      assert e in p.g.outs[v];
      assert y[e] == Out(p, e, JoinAll(p.l, x, p.g.ins[v]));
    } else {
      assert p.g.edges[e].source !in wl + [v];
    }
  }

  lemma SinkIsNotEntry(g: Graph, e: nat)
    requires g.IsCFG() && e < |g.edges|
    ensures g.edges[e].sink != g.entry
    ensures g.edges[e].source != g.exit
  {
    assert e in g.ins[g.edges[e].sink];
    assert e in g.outs[g.edges[e].source];
  }

  lemma EntrySinks(g: Graph)
    requires g.IsCFG()
    ensures g.entry < |g.outs|
    ensures forall i :: 0 <= i < |g.outs[g.entry]| ==>
              g.outs[g.entry][i] < |g.edges| && g.edges[g.outs[g.entry][i]].sink < g.count
              && g.edges[g.outs[g.entry][i]].sink != g.entry
  {
    forall i | 0 <= i < |g.outs[g.entry]|
      ensures g.edges[g.outs[g.entry][i]].sink != g.entry
    {
      SinkIsNotEntry(g, g.outs[g.entry][i]);
    }
  }

  ghost predicate SinksIn(g: Graph, es: seq<nat>, wl: seq<nat>) {
    forall i :: 0 <= i < |es| ==> es[i] < |g.edges| && g.edges[es[i]].sink in wl
  }

  lemma SinksMore(g: Graph, es: seq<nat>, i: nat, wl: seq<nat>, wl': seq<nat>)
    requires i < |es| && es[i] < |g.edges| && SinksIn(g, es[..i], wl)
    requires forall v :: v in wl' <==> v in wl || v == g.edges[es[i]].sink
    ensures SinksIn(g, es[..i + 1], wl')
  {
    assert es[..i + 1] == es[..i] + [es[i]];
  }

  // Dropping the exit from the worklist loses nothing: no edge leaves it.
  lemma DropExit<S(!new)>(p: Analysis<S>, x: seq<S>, before: seq<nat>, after: seq<nat>)
    requires Proper(p) && Progress(p, x, before)
    requires forall w :: w in before && w != p.g.exit ==> w in after
    ensures Progress(p, x, after)
  {
    forall e | 0 <= e < |x| && p.g.edges[e].source !in after
      ensures x[e] == Demand(p, x, e)
    {
      SinkIsNotEntry(p.g, e);
    }
  }

  // At first, the edges of the entry carry the initial state and their sinks are
  // queued.
  ghost predicate IsInitial<S>(p: Analysis<S>, x: seq<S>)
    requires p.g.Ok()
  {
    |x| == |p.g.edges| &&
    forall e :: 0 <= e < |x| ==> x[e] == if p.g.edges[e].source == p.g.entry then p.init else p.l.bot
  }

  lemma InitialProgress<S(!new)>(p: Analysis<S>, x: seq<S>, wl: seq<nat>)
    requires Proper(p) && IsInitial(p, x)
    requires forall i :: 0 <= i < |p.g.outs[p.g.entry]| ==> p.g.edges[p.g.outs[p.g.entry][i]].sink in wl
    ensures Progress(p, x, wl)
  {
    hide Lawful, Monotone, Below;
    forall e | 0 <= e < |x| && p.g.edges[e].source == p.g.entry
      ensures p.g.edges[e].sink in wl
    {
      assert e in p.g.outs[p.g.entry];
    }
    forall e | 0 <= e < |x|
      ensures Below(p.l, x[e], Demand(p, x, e))
      ensures p.g.edges[e].source !in wl ==> x[e] == Demand(p, x, e)
    {
      BelowSelf(p.l, Demand(p, x, e));
      if p.g.edges[e].source != p.g.entry && p.g.edges[e].source !in wl {
        NothingIn(p, x, p.g.ins[p.g.edges[e].source]);
      }
    }
    forall y | PostSolution(p, y)
      ensures AllBelow(p.l, x, y)
    {
      forall e | 0 <= e < |x|
        ensures Below(p.l, x[e], y[e])
      {
        assert Below(p.l, Demand(p, y, e), y[e]);
        BelowSelf(p.l, y[e]);
      }
    }
  }

  lemma {:induction false} NothingIn<S(!new)>(p: Analysis<S>, x: seq<S>, es: seq<nat>)
    requires Lawful(p.l) && Within(es, |x|) && forall i :: 0 <= i < |es| ==> x[es[i]] == p.l.bot
    ensures JoinAll(p.l, x, es) == p.l.bot
  {
    if es != [] {
      NothingIn(p, x, es[..|es| - 1]);
    }
  }

  // ----- the driver -----

  // `EdgeStore`: an edge that was never set carries bottom.
  function Stored<S>(bot: S, n: nat, store: map<nat, S>): (x: seq<S>)
    ensures |x| == n
    ensures forall e :: 0 <= e < n ==> x[e] == if e in store then store[e] else bot
  {
    seq(n, e requires 0 <= e < n => if e in store then store[e] else bot)
  }

  class OrderedDriver<S(==, !new)> {
    const p: Analysis<S>
    const order: Order
    var store: map<nat, S>
    var wlVertices: seq<nat>
    const wlSet: array<bool>
    var cur: nat
    var end: bool
    // When each vertex was last queued, and how many were.
    ghost var born: map<nat, nat>
    ghost var clock: nat

    // The invariant of the worklist.
    ghost predicate Listed()
      reads this, wlSet
    {
      Proper(p) && StrictWeak(order, p.g.count) &&
      Queue(p.g.count, wlSet[..], wlVertices) && Sorted(order, wlVertices) && p.g.entry !in wlVertices &&
      Aged(wlVertices, born, clock) && OldestFirst(order, wlVertices, born)
    }

    ghost predicate Valid()
      reads this, wlSet
    {
      Listed() &&
      (!end ==> cur < p.g.count && cur != p.g.entry && cur != p.g.exit) &&
      (end ==> wlVertices == [])
    }

    // `EdgeStore::get`.
    function Get(e: nat): S
      reads this`store
    {
      if e in store then store[e] else p.l.bot
    }

    ghost function Values(): (x: seq<S>)
      reads this`store
    {
      Stored(p.l.bot, |p.g.edges|, store)
    }

    // The vertices still to be processed, the current one last.
    ghost function Waiting(): seq<nat>
      reads this
    {
      if end then [] else wlVertices + [cur]
    }

    // Starts with the sinks of the entry's edges.
    constructor (p: Analysis<S>, order: Order)
      requires Proper(p) && StrictWeak(order, p.g.count)
      ensures this.p == p && this.order == order && fresh(wlSet)
      ensures Valid() && Progress(p, Values(), Waiting())
    {
      this.p, this.order := p, order;
      store, wlVertices, cur, end := map[], [], 0, false;
      born, clock := map[], 0;
      wlSet := new bool[p.g.count](_ => false);
      new;
      SetEntry();
      Start();
    }

    method Start()
      requires Listed() && wlVertices == [] && !end && IsInitial(p, Values())
      modifies this`born, this`clock, this`wlVertices, this`cur, this`end, wlSet
      ensures Valid() && Progress(p, Values(), Waiting())
    {
      ghost var x := Values();
      PushSinks();
      hide Queue, Sorted, Proper, StrictWeak, IsInitial, Progress, Aged, OldestFirst;
      ghost var wl := wlVertices;
      InitialProgress(p, x, wl);
      Next();
      DropExit(p, x, wl, Waiting());
    }

    method PushSinks()
      requires Listed()
      modifies this`born, this`clock, this`wlVertices, wlSet
      ensures Listed()
      ensures SinksIn(p.g, p.g.outs[p.g.entry], wlVertices)
    {
      EntrySinks(p.g);
      hide Queue, Sorted, Proper, StrictWeak, Aged, OldestFirst, Pushed, Graph.Ok, Graph.IsCFG, OrderedDriver.Listed,
           SinksIn;
      var es := p.g.outs[p.g.entry];
      for i := 0 to |es|
        invariant Listed()
        invariant SinksIn(p.g, es[..i], wlVertices)
      {
        ghost var wl := wlVertices;
        Push(p.g.edges[es[i]].sink);
        SinksMore(p.g, es, i, wl, wlVertices);
      }
      assert es[..|es|] == es;
    }

    // `EdgeStore::set(vertex, state)` for the entry.
    method SetEntry()
      requires p.g.Ok() && store == map[]
      modifies this`store
      ensures IsInitial(p, Values())
    {
      var es := p.g.outs[p.g.entry];
      for i := 0 to |es|
        invariant forall e :: e in store <==> e in es[..i]
        invariant forall e :: e in store ==> store[e] == p.init
      {
        assert es[..i + 1] == es[..i] + [es[i]];
        store := store[es[i] := p.init];
      }
      assert es[..|es|] == es;
    }

    method Push(v: nat)
      requires Listed() && v < p.g.count && v != p.g.entry
      modifies this`born, this`clock, this`wlVertices, wlSet
      ensures Listed()
      ensures Pushed(order, old(wlVertices), v, wlVertices)
      ensures forall w :: w in wlVertices <==> w in old(wlVertices) || w == v
    {
      if !wlSet[v] {
        var i := Place(v);
        Insert(v, i);
      }
    }

    // Where a vertex is inserted: below the vertices it stands before, or at the
    // end without an order.
    method Place(v: nat) returns (i: nat)
      requires Listed() && v < p.g.count
      ensures i <= |wlVertices| && (order.None? ==> i == |wlVertices|)
      ensures order.Some? ==> forall k :: 0 <= k < i ==> Before(order, v, wlVertices[k])
      ensures forall k :: i <= k < |wlVertices| ==> !Before(order, v, wlVertices[k])
    {
      hide Aged, OldestFirst, Proper;
      i := |wlVertices|;
      if order.Some? {
        i := 0;
        while i < |wlVertices| && order.value(v, wlVertices[i])
          invariant 0 <= i <= |wlVertices|
          invariant forall k :: 0 <= k < i ==> Before(order, v, wlVertices[k])
        {
          i := i + 1;
        }
        NoneAfter(p.g.count, wlVertices, v, order, i);
      }
    }

    method Insert(v: nat, i: nat)
      requires Listed() && v < p.g.count && v != p.g.entry && v !in wlVertices && i <= |wlVertices|
      requires InsertedAt(order, wlVertices, v, i, wlVertices[..i] + [v] + wlVertices[i..])
      modifies this`born, this`clock, this`wlVertices, wlSet
      ensures Listed() && InsertedAt(order, old(wlVertices), v, i, wlVertices)
      ensures forall w :: w in wlVertices <==> w in old(wlVertices) || w == v
    {
      ghost var wl, bits, after := wlVertices, wlSet[..], wlVertices[..i] + [v] + wlVertices[i..];
      InsertKeepsQueue(p.g.count, bits, wl, v, order, i, after);
      InsertKeepsSorted(p.g.count, wl, v, order, i, after);
      InsertKeepsAge(wl, v, order, i, after, born, clock);
      InsertedMembers(wl, v, i);
      hide Queue, Sorted, Aged, OldestFirst, InsertedAt, Proper, StrictWeak;
      born, clock := born[v := clock], clock + 1;
      wlVertices := wlVertices[..i] + [v] + wlVertices[i..];
      wlSet[v] := true;
      assert wlSet[..] == bits[v := true];
    }

    // The vertex popped is a least one: no vertex left stands before it, and among
    // those that do not stand after it, it is the one that was queued first.
    method Pop() returns (v: nat)
      requires Listed() && wlVertices != []
      modifies this`born, this`clock, this`wlVertices, wlSet
      ensures Listed() && v != p.g.entry
      ensures old(wlVertices) == wlVertices + [v] && v < p.g.count
      ensures forall w :: w in wlVertices ==> !Before(order, w, v)
      ensures v in born && forall w :: w in wlVertices ==> w in born
      ensures order.Some? ==> forall w :: w in wlVertices ==> Before(order, v, w) || born[v] < born[w]
    {
      v := wlVertices[|wlVertices| - 1];
      ghost var wl := wlVertices;
      wlVertices := wlVertices[..|wlVertices| - 1];
      ghost var bits := wlSet[..];
      wlSet[v] := false;
      assert wlSet[..] == bits[v := false];
      assert wl == wlVertices + [v];
    }

    // Goes to the next vertex; the exit is dropped, and nothing else.
    method Next()
      requires Listed()
      requires !end
      modifies this`born, this`clock, this`wlVertices, this`cur, this`end, wlSet
      ensures Valid()
      ensures |Waiting()| <= |old(wlVertices)|
      ensures forall w :: w in old(wlVertices) && w != p.g.exit ==> w in Waiting()
    {
      while wlVertices != []
        invariant Listed() && !end
        invariant |wlVertices| <= |old(wlVertices)|
        invariant forall w :: w in old(wlVertices) && w != p.g.exit ==> w in wlVertices
        decreases |wlVertices|
      {
        ghost var before := wlVertices;
        cur := Pop();
        assert cur in before;
        assert before == wlVertices + [cur];
        if cur != p.g.exit {
          return;
        }
      }
      end := true;
    }

    // `check(edge, s)` and the `change(edge, s)` it calls: a new state on an edge
    // queues the edge's sink.
    method Check(e: nat, s: S)
      requires Valid() && e < |p.g.edges| && p.g.edges[e].sink != p.g.entry && !end
      modifies this`born, this`clock, this`store, this`wlVertices, wlSet
      ensures Valid() && Values() == old(Values())[e := s]
      ensures if s == old(Get(e)) then wlVertices == old(wlVertices)
              else Pushed(order, old(wlVertices), p.g.edges[e].sink, wlVertices)
      ensures s != old(Get(e)) ==> p.g.edges[e].sink in wlVertices
      ensures forall w :: w in old(wlVertices) ==> w in wlVertices
    {
      var ps := Get(e);
      if s != ps {
        store := store[e := s];
        Push(p.g.edges[e].sink);
      }
      assert Values()[e] == s;
      assert Values() == old(Values())[e := s];
    }

    // The join of the states on the incoming edges.
    method Input(v: nat) returns (s: S)
      requires p.g.Ok() && v < p.g.count
      ensures s == JoinAll(p.l, Values(), p.g.ins[v])
    {
      s := p.l.bot;
      var es := p.g.ins[v];
      for i := 0 to |es|
        invariant s == JoinAll(p.l, Values(), es[..i])
      {
        assert es[..i + 1][..i] == es[..i];
        s := p.l.join(s, Get(es[i]));
      }
      assert es[..|es|] == es;
    }
  }

  // ----- the client -----

  // One more edge of the current block has been updated.
  lemma SentMore<S(!new)>(p: Analysis<S>, x: seq<S>, wl: seq<nat>, v: nat, s: S, done: set<nat>, y: seq<S>,
                   wl1: seq<nat>, e: nat, wl2: seq<nat>)
    requires p.g.Ok() && Sent(p, x, wl, v, s, done, y, wl1) && e < |x| && p.g.edges[e].source == v
    requires forall w :: w in wl1 ==> w in wl2
    requires if y[e] == Out(p, e, s) then wl2 == wl1 else p.g.edges[e].sink in wl2
    ensures Sent(p, x, wl, v, s, done + {e}, y[e := Out(p, e, s)], wl2)
  {
    var z := y[e := Out(p, e, s)];
    if x == z {
      assert x[e] == z[e];
      assert y == z;
    }
  }

  // A block or a filter that yields bottom would not change the edge: it carried
  // bottom already.
  lemma BottomWasThere<S(!new)>(p: Analysis<S>, x: seq<S>, wl: seq<nat>, v: nat, done: set<nat>, y: seq<S>,
                         wl1: seq<nat>, e: nat, waiting: seq<nat>)
    requires Proper(p) && Progress(p, x, waiting) && v < p.g.count && v != p.g.entry && e in p.g.outs[v]
    requires Sent(p, x, wl, v, JoinAll(p.l, x, p.g.ins[v]), done, y, wl1)
    requires Out(p, e, JoinAll(p.l, x, p.g.ins[v])) == p.l.bot
    ensures y[e] == p.l.bot
  {
    assert Below(p.l, x[e], Demand(p, x, e));
    BelowSelf(p.l, x[e]);
    BelowAntisymmetric(p.l, x[e], p.l.bot);
  }

  lemma BottomSends<S(!new)>(p: Analysis<S>, x: seq<S>, wl: seq<nat>, v: nat, waiting: seq<nat>)
    returns (done: set<nat>)
    requires Proper(p) && Progress(p, x, waiting) && v < p.g.count && v != p.g.entry
    requires JoinAll(p.l, x, p.g.ins[v]) == p.l.bot
    ensures Sent(p, x, wl, v, p.l.bot, done, x, wl)
    ensures forall e :: e in p.g.outs[v] ==> e in done
  {
    done := set e | e in p.g.outs[v];
    assert Sent(p, x, wl, v, p.l.bot, {}, x, wl);
    forall e | e in p.g.outs[v]
      ensures x[e] == Out(p, e, p.l.bot)
    {
      BottomWasThere(p, x, wl, v, {}, x, wl, e, waiting);
    }
  }

  // One pass over the outgoing edges: the loop exits, or all others.
  method SendAlong<S(==, !new)>(d: OrderedDriver<S>, s: S, exits: bool, ghost x: seq<S>, ghost wl: seq<nat>,
                     ghost before: set<nat>)
    returns (ghost done: set<nat>)
    requires d.Valid() && !d.end && s != d.p.l.bot
    requires Progress(d.p, x, wl + [d.cur]) && s == JoinAll(d.p.l, x, d.p.g.ins[d.cur])
    requires Sent(d.p, x, wl, d.cur, s, before, d.Values(), d.wlVertices)
    modifies d`born, d`clock, d`store, d`wlVertices, d.wlSet
    ensures d.Valid() && Sent(d.p, x, wl, d.cur, s, done, d.Values(), d.wlVertices)
    ensures before <= done
    ensures forall e :: e in d.p.g.outs[d.cur] && d.p.loopExit(e) == exits ==> e in done
  {
    hide Progress, Sent, Lawful, Monotone, Queue, Sorted, StrictWeak, JoinAll;
    done := before;
    var es := d.p.g.outs[d.cur];
    for i := 0 to |es|
      invariant d.Valid() && Sent(d.p, x, wl, d.cur, s, done, d.Values(), d.wlVertices)
      invariant before <= done
      invariant forall j :: 0 <= j < i && d.p.loopExit(es[j]) == exits ==> es[j] in done
    {
      var e := es[i];
      if d.p.loopExit(e) == exits {
        SendOne(d, e, s, x, wl, done);
        done := done + {e};
      }
    }
  }

  method SendOne<S(==, !new)>(d: OrderedDriver<S>, e: nat, s: S, ghost x: seq<S>, ghost wl: seq<nat>,
                   ghost done: set<nat>)
    requires d.Valid() && !d.end && s != d.p.l.bot && e in d.p.g.outs[d.cur]
    requires Progress(d.p, x, wl + [d.cur]) && s == JoinAll(d.p.l, x, d.p.g.ins[d.cur])
    requires Sent(d.p, x, wl, d.cur, s, done, d.Values(), d.wlVertices)
    modifies d`born, d`clock, d`store, d`wlVertices, d.wlSet
    ensures d.Valid() && Sent(d.p, x, wl, d.cur, s, done + {e}, d.Values(), d.wlVertices)
  {
    ghost var y, wl1 := d.Values(), d.wlVertices;
    assert d.p.g.edges[e].source == d.cur;
    assert |y| == |x| == |d.p.g.edges|;
    hide Progress, Sent, Lawful, Monotone, Queue, Sorted, StrictWeak, JoinAll, Pushed;
    var t := d.p.transfer(e, s);
    SinkIsNotEntry(d.p.g, e);
    if d.p.filtered(e) && t == d.p.l.bot {
      BottomWasThere(d.p, x, wl, d.cur, done, y, wl1, e, wl + [d.cur]);
      assert y[e := t] == y;
    } else {
      d.Check(e, t);
    }
    SentMore(d.p, x, wl, d.cur, s, done, y, wl1, e, d.wlVertices);
  }

  // `processBB`: the block's input is joined and, unless it is bottom, its edges
  // are updated in two passes, loop exits first.  A filtered edge whose state
  // becomes bottom is left alone.
  method ProcessBlock<S(==, !new)>(d: OrderedDriver<S>)
    requires d.Valid() && !d.end && Progress(d.p, d.Values(), d.Waiting())
    modifies d`born, d`clock, d`store, d`wlVertices, d.wlSet
    ensures d.Valid() && Progress(d.p, d.Values(), d.wlVertices)
    ensures AllBelow(d.p.l, old(d.Values()), d.Values())
    ensures d.Values() == old(d.Values()) ==> d.wlVertices == old(d.wlVertices)
  {
    ghost var x, wl := d.Values(), d.wlVertices;
    ghost var done: set<nat> := {};
    var s := d.Input(d.cur);
    if s == d.p.l.bot {
      done := BottomSends(d.p, x, wl, d.cur, wl + [d.cur]);
    } else {
      done := SendAlong(d, s, true, x, wl, done);
      done := SendAlong(d, s, false, x, wl, done);
    }
    ProcessedProgress(d.p, x, wl, d.cur, done, d.Values(), d.wlVertices);
  }

  lemma NothingWaits<S(!new)>(p: Analysis<S>, x: seq<S>)
    requires p.g.Ok() && Progress(p, x, [])
    ensures LeastSolution(p, x)
  {
    forall y | PostSolution(p, y)
      ensures AllBelow(p.l, x, y)
    {
    }
  }

  // `processBB` and `ana++`: the states grow, or fewer vertices wait.
  method ProcessAndAdvance<S(==, !new)>(d: OrderedDriver<S>)
    requires d.Valid() && !d.end && Progress(d.p, d.Values(), d.Waiting())
    modifies d`born, d`clock, d`store, d`wlVertices, d`cur, d`end, d.wlSet
    ensures d.Valid() && Progress(d.p, d.Values(), d.Waiting())
    ensures Remaining(d.p.l, d.Values()) <= Remaining(d.p.l, old(d.Values()))
    ensures Remaining(d.p.l, d.Values()) < Remaining(d.p.l, old(d.Values())) || |d.Waiting()| < |old(d.Waiting())|
  {
    assert Lawful(d.p.l);
    hide Progress, Lawful, Monotone, Queue, Sorted, StrictWeak, AllBelow;
    ghost var x := d.Values();
    ProcessBlock(d);
    RemainingShrinks(d.p.l, x, d.Values());
    ghost var y, wl := d.Values(), d.wlVertices;
    d.Next();
    DropExit(d.p, y, wl, d.Waiting());
  }

  // `processCFG`: with or without an order, the analysis terminates and the states
  // on the edges are the least solution of the equations; the result is the state
  // on the edge into the exit, and the store is returned too.
  method ProcessCFG<S(==, !new)>(p: Analysis<S>, order: Order) returns (s: S, x: seq<S>)
    requires Proper(p) && StrictWeak(order, p.g.count) && p.g.ins[p.g.exit] != []
    ensures LeastSolution(p, x) && s == x[p.g.ins[p.g.exit][0]]
  {
    hide Progress, Lawful, Monotone, Queue, Sorted, StrictWeak, Remaining, LeastSolution;
    var d := new OrderedDriver(p, order);
    while !d.end
      invariant d.p == p && fresh(d) && fresh(d.wlSet)
      invariant d.Valid() && Progress(p, d.Values(), d.Waiting())
      decreases Remaining(p.l, d.Values()), |d.Waiting()|
    {
      ProcessAndAdvance(d);
    }
    x := Stored(p.l.bot, |p.g.edges|, d.store);
    NothingWaits(p, x);
    s := d.Get(p.g.ins[p.g.exit][0]);
  }
}
