/**
 * The equation system a fixpoint engine solves on a control-flow graph: a state on every edge, an initial
 * state on the edges of the entry, and a transfer function for every other edge.
 */
module Fixpoints {
  // ----- join semilattices of finite height -----

  // `rank` bounds the number of times a state can still grow.
  datatype Semilattice<!S> = Semilattice(bot: S, join: (S, S) -> S, rank: S -> nat)

  ghost predicate Below<S>(l: Semilattice<S>, a: S, b: S) {
    l.join(a, b) == b
  }

  ghost predicate Lawful<S(!new)>(l: Semilattice<S>) {
    (forall a :: l.join(a, a) == a) &&
    (forall a :: l.join(l.bot, a) == a) &&
    (forall a, b :: l.join(a, b) == l.join(b, a)) &&
    (forall a, b, c :: l.join(l.join(a, b), c) == l.join(a, l.join(b, c))) &&
    (forall a, b :: Below(l, a, b) && a != b ==> l.rank(b) < l.rank(a))
  }

  lemma BelowSelf<S(!new)>(l: Semilattice<S>, a: S)
    requires Lawful(l)
    ensures Below(l, a, a) && Below(l, l.bot, a)
  {
  }

  lemma BelowTransitive<S(!new)>(l: Semilattice<S>, a: S, b: S, c: S)
    requires Lawful(l) && Below(l, a, b) && Below(l, b, c)
    ensures Below(l, a, c)
  {
    assert l.join(a, l.join(b, c)) == l.join(l.join(a, b), c);
  }

  lemma BelowAntisymmetric<S(!new)>(l: Semilattice<S>, a: S, b: S)
    requires Lawful(l) && Below(l, a, b) && Below(l, b, a)
    ensures a == b
  {
    assert l.join(a, b) == l.join(b, a);
  }

  lemma JoinAbove<S(!new)>(l: Semilattice<S>, a: S, b: S)
    requires Lawful(l)
    ensures Below(l, a, l.join(a, b)) && Below(l, b, l.join(a, b))
  {
    assert l.join(a, l.join(a, b)) == l.join(l.join(a, a), b);
    assert l.join(b, l.join(b, a)) == l.join(l.join(b, b), a);
    assert l.join(a, b) == l.join(b, a);
  }

  lemma JoinLeast<S(!new)>(l: Semilattice<S>, a: S, b: S, u: S)
    requires Lawful(l) && Below(l, a, u) && Below(l, b, u)
    ensures Below(l, l.join(a, b), u)
  {
    assert l.join(l.join(a, b), u) == l.join(a, l.join(b, u));
  }

  // ----- graphs and equations -----

  datatype Edge = Edge(source: nat, sink: nat)

  predicate Within(es: seq<nat>, n: nat) {
    forall i :: 0 <= i < |es| ==> es[i] < n
  }

  // `ins` and `outs` list, for every vertex, the numbers of its incoming and
  // outgoing edges.
  datatype Graph = Graph(count: nat, entry: nat, exit: nat, edges: seq<Edge>, ins: seq<seq<nat>>, outs: seq<seq<nat>>) {
    ghost predicate Ok() {
      entry < count && exit < count && |ins| == count && |outs| == count &&
      (forall e :: 0 <= e < |edges| ==> edges[e].source < count && edges[e].sink < count) &&
      (forall e :: 0 <= e < |edges| ==> e in ins[edges[e].sink] && e in outs[edges[e].source]) &&
      (forall v :: 0 <= v < count ==> Within(ins[v], |edges|) && Within(outs[v], |edges|)) &&
      (forall v, i :: 0 <= v < count && 0 <= i < |ins[v]| ==> edges[ins[v][i]].sink == v) &&
      (forall v, i :: 0 <= v < count && 0 <= i < |outs[v]| ==> edges[outs[v][i]].source == v)
    }

    // A control-flow graph: nothing enters the entry, nothing leaves the exit.
    ghost predicate IsCFG() {
      Ok() && ins[entry] == [] && outs[exit] == []
    }
  }

  // An analysis of a graph.  `transfer(e, s)` is what edge e carries when the
  // state of its source is s; a `filtered` edge goes through a filter or a loop
  // exit, which skips bottom; `loopExit` marks loop exit edges.
  datatype Analysis<!S> = Analysis(g: Graph, l: Semilattice<S>, init: S, transfer: (nat, S) -> S,
                                   filtered: nat -> bool, loopExit: nat -> bool)

  ghost predicate Monotone<S(!new)>(p: Analysis<S>) {
    forall e, a, b :: Below(p.l, a, b) ==> Below(p.l, p.transfer(e, a), p.transfer(e, b))
  }

  ghost predicate Proper<S(!new)>(p: Analysis<S>) {
    Lawful(p.l) && Monotone(p) && p.g.IsCFG()
  }

  // The join of the states on some edges, from left to right.
  function JoinAll<S>(l: Semilattice<S>, x: seq<S>, es: seq<nat>): S
    requires Within(es, |x|)
  {
    if es == [] then l.bot else l.join(JoinAll(l, x, es[..|es| - 1]), x[es[|es| - 1]])
  }

  // What a block sends along an edge: nothing when its input is bottom.
  function Out<S(==)>(p: Analysis<S>, e: nat, s: S): S {
    if s == p.l.bot then p.l.bot else p.transfer(e, s)
  }

  function Demand<S(==)>(p: Analysis<S>, x: seq<S>, e: nat): S
    requires p.g.Ok() && |x| == |p.g.edges| && e < |x|
  {
    if p.g.edges[e].source == p.g.entry then p.init else Out(p, e, JoinAll(p.l, x, p.g.ins[p.g.edges[e].source]))
  }

  ghost predicate AllBelow<S>(l: Semilattice<S>, x: seq<S>, y: seq<S>) {
    |x| == |y| && forall e :: 0 <= e < |x| ==> Below(l, x[e], y[e])
  }

  ghost predicate Solution<S>(p: Analysis<S>, x: seq<S>)
    requires p.g.Ok()
  {
    |x| == |p.g.edges| && forall e :: 0 <= e < |x| ==> x[e] == Demand(p, x, e)
  }

  ghost predicate PostSolution<S>(p: Analysis<S>, y: seq<S>)
    requires p.g.Ok()
  {
    |y| == |p.g.edges| && forall e :: 0 <= e < |y| ==> Below(p.l, Demand(p, y, e), y[e])
  }

  ghost predicate LeastSolution<S(!new)>(p: Analysis<S>, x: seq<S>)
    requires p.g.Ok()
  {
    Solution(p, x) && forall y :: PostSolution(p, y) ==> AllBelow(p.l, x, y)
  }

  lemma {:induction false} JoinAllAbove<S(!new)>(l: Semilattice<S>, x: seq<S>, es: seq<nat>, e: nat)
    requires Lawful(l) && Within(es, |x|) && e in es
    ensures Below(l, x[e], JoinAll(l, x, es))
  {
    var rest, last := es[..|es| - 1], es[|es| - 1];
    hide Lawful, Below;
    JoinAbove(l, JoinAll(l, x, rest), x[last]);
    if e != last {
      assert e in rest;
      JoinAllAbove(l, x, rest, e);
      BelowTransitive(l, x[e], JoinAll(l, x, rest), JoinAll(l, x, es));
    }
  }

  lemma {:induction false} JoinAllLeast<S(!new)>(l: Semilattice<S>, x: seq<S>, es: seq<nat>, u: S)
    requires Lawful(l) && Within(es, |x|) && forall e :: e in es ==> Below(l, x[e], u)
    ensures Below(l, JoinAll(l, x, es), u)
  {
    hide Lawful, Below;
    if es == [] {
      BelowSelf(l, u);
    } else {
      JoinAllLeast(l, x, es[..|es| - 1], u);
      JoinLeast(l, JoinAll(l, x, es[..|es| - 1]), x[es[|es| - 1]], u);
    }
  }

  lemma {:induction false} JoinAllMonotone<S(!new)>(l: Semilattice<S>, x: seq<S>, y: seq<S>, es: seq<nat>)
    requires Lawful(l) && AllBelow(l, x, y) && Within(es, |x|)
    ensures Below(l, JoinAll(l, x, es), JoinAll(l, y, es))
  {
    hide Lawful, Below;
    forall e | e in es
      ensures Below(l, x[e], JoinAll(l, y, es))
    {
      JoinAllAbove(l, y, es, e);
      BelowTransitive(l, x[e], y[e], JoinAll(l, y, es));
    }
    JoinAllLeast(l, x, es, JoinAll(l, y, es));
  }

  lemma {:induction false} JoinAllAgree<S>(l: Semilattice<S>, x: seq<S>, y: seq<S>, es: seq<nat>)
    requires Within(es, |x|) && |x| == |y| && forall e :: e in es ==> x[e] == y[e]
    ensures JoinAll(l, x, es) == JoinAll(l, y, es)
  {
    if es != [] {
      JoinAllAgree(l, x, y, es[..|es| - 1]);
    }
  }

  lemma OutMonotone<S(!new)>(p: Analysis<S>, e: nat, a: S, b: S)
    requires Lawful(p.l) && Monotone(p) && Below(p.l, a, b)
    ensures Below(p.l, Out(p, e, a), Out(p, e, b))
  {
    if a == p.l.bot {
      BelowSelf(p.l, Out(p, e, b));
    } else if b == p.l.bot {
      BelowSelf(p.l, a);
      BelowAntisymmetric(p.l, a, b);
    }
  }

  lemma DemandMonotone<S(!new)>(p: Analysis<S>, x: seq<S>, y: seq<S>, e: nat)
    requires Proper(p) && AllBelow(p.l, x, y) && e < |x| == |p.g.edges|
    ensures Below(p.l, Demand(p, x, e), Demand(p, y, e))
  {
    var es := p.g.ins[p.g.edges[e].source];
    BelowSelf(p.l, p.init);
    JoinAllMonotone(p.l, x, y, es);
    OutMonotone(p, e, JoinAll(p.l, x, es), JoinAll(p.l, y, es));
  }

  // Whatever computes the least solution, in whatever order, computes the same
  // states.
  lemma LeastIsUnique<S(!new)>(p: Analysis<S>, x: seq<S>, y: seq<S>)
    requires Proper(p) && LeastSolution(p, x) && LeastSolution(p, y)
    ensures x == y
  {
    hide Lawful, Below;
    SolutionIsPost(p, x);
    SolutionIsPost(p, y);
    forall e | 0 <= e < |x|
      ensures x[e] == y[e]
    {
      BelowAntisymmetric(p.l, x[e], y[e]);
    }
  }

  lemma SolutionIsPost<S(!new)>(p: Analysis<S>, x: seq<S>)
    requires Proper(p) && Solution(p, x)
    ensures PostSolution(p, x)
  {
    hide Lawful, Below;
    forall e | 0 <= e < |x|
      ensures Below(p.l, Demand(p, x, e), x[e])
    {
      BelowSelf(p.l, x[e]);
    }
  }

  // ----- concrete runs -----

  // What states mean, and what taking an edge (its source block included) may do
  // to a concrete state.
  datatype Concrete<!S, !C> = Concrete(ghost gamma: (S, C) -> bool, ghost step: (nat, C, C) -> bool)

  ghost predicate SoundFor<S(!new), C(!new)>(p: Analysis<S>, k: Concrete<S, C>) {
    (forall c :: !k.gamma(p.l.bot, c)) &&
    (forall a, b, c :: Below(p.l, a, b) && k.gamma(a, c) ==> k.gamma(b, c)) &&
    (forall e, s, c, d :: k.gamma(s, c) && k.step(e, c, d) ==> k.gamma(p.transfer(e, s), d))
  }

  // The run takes the edges `es` and is in state cs[i] after the edge es[i].
  ghost predicate IsRun<S, C>(p: Analysis<S>, k: Concrete<S, C>, es: seq<nat>, cs: seq<C>)
    requires p.g.Ok()
  {
    |es| == |cs| > 0 && (forall i :: 0 <= i < |es| ==> es[i] < |p.g.edges|) &&
    p.g.edges[es[0]].source == p.g.entry && k.gamma(p.init, cs[0]) &&
    forall i :: 0 < i < |es| ==> p.g.edges[es[i]].source == p.g.edges[es[i - 1]].sink && k.step(es[i], cs[i - 1], cs[i])
  }

  // All that soundness asks of a domain: bottom is empty, joins cover both
  // arguments, transfers are sound.
  ghost predicate CoveringFor<S(!new), C(!new)>(p: Analysis<S>, k: Concrete<S, C>) {
    SoundTransfers(p, k) &&
    (forall a, b, c :: k.gamma(a, c) || k.gamma(b, c) ==> k.gamma(p.l.join(a, b), c))
  }

  ghost predicate SoundTransfers<S(!new), C(!new)>(p: Analysis<S>, k: Concrete<S, C>) {
    (forall c :: !k.gamma(p.l.bot, c)) &&
    (forall e, s, c, d :: k.gamma(s, c) && k.step(e, c, d) ==> k.gamma(p.transfer(e, s), d))
  }

  // The states `x` on the edges and `inp` at the blocks hold one another: a
  // block's input covers each edge into it, however it was computed, and each edge
  // covers what its block sends along it.
  ghost predicate Holds<S(!new), C(!new)>(p: Analysis<S>, k: Concrete<S, C>, x: seq<S>, inp: seq<S>)
    requires p.g.Ok()
  {
    |x| == |p.g.edges| && |inp| == p.g.count &&
    (forall e, c :: 0 <= e < |x| && k.gamma(x[e], c) ==> k.gamma(inp[p.g.edges[e].sink], c)) &&
    (forall e, c :: 0 <= e < |x| && p.g.edges[e].source == p.g.entry && k.gamma(p.init, c) ==> k.gamma(x[e], c)) &&
    (forall e, c :: 0 <= e < |x| && p.g.edges[e].source != p.g.entry && k.gamma(Out(p, e, inp[p.g.edges[e].source]), c)
       ==> k.gamma(x[e], c))
  }

  // Every run, of any length, stays within such states.  Nothing is asked of a
  // join, an order or the height of the lattice: the inputs may be joins, or the
  // widened states of loop headers.
  lemma {:induction false} RunsHeld<S(!new), C(!new)>(p: Analysis<S>, k: Concrete<S, C>, x: seq<S>, inp: seq<S>,
                                                       es: seq<nat>, cs: seq<C>)
    requires p.g.IsCFG() && SoundTransfers(p, k) && Holds(p, k, x, inp) && IsRun(p, k, es, cs)
    ensures k.gamma(x[es[|es| - 1]], cs[|es| - 1])
  {
    var n := |es| - 1;
    var e := es[n];
    if n > 0 {
      var before := es[n - 1];
      RunsHeld(p, k, x, inp, es[..n], cs[..n]);
      assert es[..n][n - 1] == before && cs[..n][n - 1] == cs[n - 1];
      assert k.gamma(inp[p.g.edges[e].source], cs[n - 1]);
      assert before in p.g.ins[p.g.edges[e].source];
      assert k.gamma(Out(p, e, inp[p.g.edges[e].source]), cs[n]);
    }
  }

  // A store in which no edge asks for a concrete state that it does not have: a
  // terminated analysis.
  ghost predicate Settled<S(!new), C(!new)>(p: Analysis<S>, k: Concrete<S, C>, x: seq<S>)
    requires p.g.Ok()
  {
    |x| == |p.g.edges| && forall e, c :: 0 <= e < |x| && k.gamma(Demand(p, x, e), c) ==> k.gamma(x[e], c)
  }

  lemma {:induction false} JoinAllCovers<S(!new), C(!new)>(p: Analysis<S>, k: Concrete<S, C>, x: seq<S>, es: seq<nat>,
                                                            e: nat, c: C)
    requires CoveringFor(p, k) && Within(es, |x|) && e in es && k.gamma(x[e], c)
    ensures k.gamma(JoinAll(p.l, x, es), c)
  {
    var last := es[|es| - 1];
    if e != last {
      assert e in es[..|es| - 1];
      JoinAllCovers(p, k, x, es[..|es| - 1], e, c);
    }
  }

  // With joins as inputs, every run stays within a settled store.
  lemma RunsStayCovered<S(!new), C(!new)>(p: Analysis<S>, k: Concrete<S, C>, x: seq<S>, es: seq<nat>, cs: seq<C>)
    requires p.g.IsCFG() && CoveringFor(p, k) && Settled(p, k, x) && IsRun(p, k, es, cs)
    ensures k.gamma(x[es[|es| - 1]], cs[|es| - 1])
  {
    var inp := seq(p.g.count, v requires 0 <= v < p.g.count => JoinAll(p.l, x, p.g.ins[v]));
    forall e, c | 0 <= e < |x| && k.gamma(x[e], c)
      ensures k.gamma(inp[p.g.edges[e].sink], c)
    {
      JoinAllCovers(p, k, x, p.g.ins[p.g.edges[e].sink], e, c);
    }
    forall e, c | 0 <= e < |x|
      ensures p.g.edges[e].source == p.g.entry && k.gamma(p.init, c) ==> k.gamma(x[e], c)
      ensures p.g.edges[e].source != p.g.entry && k.gamma(Out(p, e, inp[p.g.edges[e].source]), c) ==> k.gamma(x[e], c)
    {
      assert k.gamma(Demand(p, x, e), c) ==> k.gamma(x[e], c);
    }
    hide Settled, Demand;
    RunsHeld(p, k, x, inp, es, cs);
  }

  // In particular, they stay within the states of any solution of the equations.
  lemma RunsAreCovered<S(!new), C(!new)>(p: Analysis<S>, k: Concrete<S, C>, x: seq<S>, es: seq<nat>, cs: seq<C>)
    requires Proper(p) && SoundFor(p, k) && PostSolution(p, x) && IsRun(p, k, es, cs)
    ensures k.gamma(x[es[|es| - 1]], cs[|es| - 1])
  {
    forall a, b
      ensures Below(p.l, a, p.l.join(a, b)) && Below(p.l, b, p.l.join(a, b))
    {
      JoinAbove(p.l, a, b);
    }
    assert CoveringFor(p, k);
    hide Lawful, Monotone, CoveringFor;
    assert Settled(p, k, x);
    RunsStayCovered(p, k, x, es, cs);
  }
}
