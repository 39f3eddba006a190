/**
 * Whole programs: the abstract states at the blocks and along the edges of a
 * CFG cover every concrete run, however the inputs of the blocks were merged.
 */
module Programs {
  import opened LinearExpressions
  import opened Polyhedra
  import opened Mappings
  import opened AbstractStates
  import opened Transfers
  import opened Domains
  import opened Runs
  import opened Merges
  import opened Headers
  import F = Fixpoints

  // A CFG whose edges carry code: what the source block does, and what the
  // edge itself does when it is taken.
  datatype Program = Program(g: F.Graph, code: seq<seq<Stmt>>) {
    ghost predicate Ok() { g.Ok() && |code| == |g.edges| }
  }

  // The abstract states: one at the start of each block, and the states along
  // the code of each edge.
  datatype Result = Result(inputs: seq<Snapshot>, traces: seq<seq<Snapshot>>)

  ghost predicate Includes(s: Snapshot, t: Snapshot) {
    forall c :: Covered(s, c) ==> Covered(t, c)
  }

  // A merged input without a pending filter includes what it covers.
  lemma CoversIncludes(s: Snapshot, t: Snapshot)
    requires CoversAll(s.state, t.state) && t.compare == None
    ensures Includes(s, t)
  {
  }

  // The states along the code of an edge, as `Run` yields them.
  ghost predicate TraceOk(lib: Ppl, code: seq<Stmt>, start: Snapshot, trace: seq<Snapshot>) {
    && |trace| == |code| + 1 && Includes(start, trace[0])
    && (forall j :: 0 <= j < |code| ==> SoundStep(lib, trace[j], code[j], trace[j + 1]))
  }

  // Each edge starts from the input of its source, and the input of its sink
  // includes what it ends with.
  ghost predicate Consistent(lib: Ppl, p: Program, r: Result)
    requires p.Ok()
  {
    && |r.inputs| == p.g.count && |r.traces| == |p.code|
    && (forall e :: 0 <= e < |p.code| ==> TraceOk(lib, p.code[e], r.inputs[p.g.edges[e].source], r.traces[e]))
    && (forall e :: 0 <= e < |p.code| ==> Includes(r.traces[e][|p.code[e]|], r.inputs[p.g.edges[e].sink]))
  }

  // A run takes the edges `es`; along es[i] it goes through the configurations
  // css[i], each edge starting where the one before ended.
  ghost predicate ProgramRun(p: Program, es: seq<nat>, css: seq<seq<Conf>>)
    requires p.Ok()
  {
    && |es| == |css| && (forall i :: 0 <= i < |es| ==> es[i] < |p.code| && RunsAlong(p.code[es[i]], css[i]))
    && (forall i :: 0 < i < |es| ==>
          && p.g.edges[es[i]].source == p.g.edges[es[i - 1]].sink
          && css[i][0] == css[i - 1][|p.code[es[i - 1]]|])
  }

  ghost predicate AllGuarded(lib: Ppl, p: Program, r: Result, es: seq<nat>, css: seq<seq<Conf>>)
    requires p.Ok() && Consistent(lib, p, r) && ProgramRun(p, es, css)
  {
    forall i :: 0 <= i < |es| ==> Guarded(lib, r.traces[es[i]], p.code[es[i]], css[i])
  }

  // Every guarded run of the program, of any length and through any loops and
  // merges, is covered at every point.
  lemma {:induction false} ProgramCovered(lib: Ppl, p: Program, r: Result, es: seq<nat>, css: seq<seq<Conf>>, i: nat,
                                          k: nat)
    requires p.Ok() && Consistent(lib, p, r) && ProgramRun(p, es, css) && AllGuarded(lib, p, r, es, css)
    requires i < |es| && k < |css[i]|
    requires Covered(r.inputs[p.g.edges[es[0]].source], css[0][0])
    ensures Covered(r.traces[es[i]][k], css[i][k])
    decreases i
  {
    hide Covered, SoundStep, StmtStep, Guarded;
    var e := es[i];
    assert TraceOk(lib, p.code[e], r.inputs[p.g.edges[e].source], r.traces[e]);
    if i > 0 {
      var before := es[i - 1];
      ProgramCovered(lib, p, r, es, css, i - 1, |p.code[before]|);
      assert Includes(r.traces[before][|p.code[before]|], r.inputs[p.g.edges[before].sink]);
    }
    assert Covered(r.inputs[p.g.edges[e].source], css[i][0]);
    PathCovered(lib, r.traces[e], p.code[e], css[i], k);
  }

  // ----- where consistency comes from -----

  // Interpreting the code of an edge from a stored input.
  method AnalyseEdge(d: PPLDomain, code: seq<Stmt>) returns (ok: bool, out: PPLDomain, ghost trace: seq<Snapshot>)
    requires d.Valid() && Plain(d.idmap)
    modifies d.gen
    ensures d.Valid() && 0 < |trace| <= |code| + 1 && trace[0] == old(Snap(d)) && (ok <==> |trace| == |code| + 1)
    ensures forall k :: 0 <= k < |trace| ==> trace[k].state.poly.Ok()
    ensures (ok ==> out.Valid() && |trace| == |code| + 1 && trace[|code|] == Snap(out))
    ensures ok ==> TraceOk(d.lib, code, old(Snap(d)), trace)
    ensures forall j :: 0 <= j < |trace| - 1 ==> Yields(d.lib, trace[j], code[j], trace[j + 1])
    ensures WellFormed(ShapeOf(old(Snap(d))), code) ==> ok
    ensures
      var k := |trace| - 1;
      !ok ==> !Empty(trace[k].state) && !Accepts(ShapeAt(ShapeOf(old(Snap(d))), code, k), code[k])
  {
    ok, out, trace := Run(d, code);
  }

  // The input of an ordinary block includes each edge into it.
  method BlockInput(edges: seq<PPLDomain>, lib: Ppl, gen: GuidGenerator) returns (ok: bool, out: PPLDomain)
    requires lib.Lawful() && forall i :: 0 <= i < |edges| ==> Stored(edges[i], lib, gen) && edges[i].compare == None
    ensures fresh(out) && (ok ==> Stored(out, lib, gen))
    ensures ok ==> forall i :: 0 <= i < |edges| ==> Includes(Snap(edges[i]), Snap(out))
    ensures if ok then Joined(lib, Snaps(edges), Snap(out)) else Blocked(lib, Snaps(edges))
  {
    hide CoversAll, Includes, Scalar, Gamma, Ppl.Lawful, BelowGuids, Empty, Joined, Blocked, Snaps;
    ok, out := JoinEdges(edges, lib, gen);
    if ok {
      AllIncluded(edges, Snap(out));
    }
  }

  // And so does the widened state of a loop header.
  method HeaderInput(hs: HeaderState, entries: seq<PPLDomain>, backs: seq<PPLDomain>) returns (ok: bool)
    requires hs.Valid() && hs.lib.Lawful() && hs.state.compare == None
    requires forall i :: 0 <= i < |entries| ==> Stored(entries[i], hs.lib, hs.gen) && entries[i].compare == None
    requires forall i :: 0 <= i < |backs| ==> Stored(backs[i], hs.lib, hs.gen) && backs[i].compare == None
    modifies hs
    ensures ok ==> hs.Valid() && hs.state.compare == None
    ensures ok ==> forall i :: 0 <= i < |entries| ==> Includes(Snap(entries[i]), Snap(hs.state))
    ensures ok ==> forall i :: 0 <= i < |backs| ==> Includes(Snap(backs[i]), Snap(hs.state))
    ensures
      if ok then Processed(hs.lib, old(hs.Value()), Snaps(entries), Snaps(backs), hs.Value())
      else NotProcessed(hs.lib, old(hs.Value()), Snaps(entries), Snaps(backs))
  {
    hide Processed, NotProcessed, Snaps, CoversAll, Includes, Scalar, Gamma, Ppl.Lawful, BelowGuids, Empty;
    ok := ProcessHeader(hs, entries, backs);
    if ok {
      AllIncluded(entries, Snap(hs.state));
      AllIncluded(backs, Snap(hs.state));
    }
  }

  lemma AllIncluded(edges: seq<PPLDomain>, t: Snapshot)
    requires t.compare == None && forall i :: 0 <= i < |edges| ==> CoversAll(edges[i].State(), t.state)
    ensures forall i :: 0 <= i < |edges| ==> Includes(Snap(edges[i]), t)
  {
    forall i | 0 <= i < |edges|
      ensures Includes(Snap(edges[i]), t)
    {
      CoversIncludes(Snap(edges[i]), t);
    }
  }
}
