/**
 * `PseudoTopoOrder` (poly_PolyAnalysis.cpp:488-562): a depth-first search that numbers the blocks of a CFG, and
 * the loops, for the driver's processing order.
 */
module PseudoTopoOrders {
  import opened Polyhedra
  import opened Fixpoints
  import opened Walks
  import opened OrderedDrivers

  // A CFG with its back edges, its loop headers and the header of the loop around
  // each block.
  datatype Cfg = Cfg(g: Graph, back: nat -> bool, header: nat -> bool, enclosing: nat -> Option<nat>)

  // The step along an edge that is not a back edge.
  ghost function Forward(c: Cfg): (nat, nat) -> bool {
    (u: nat, v: nat) => exists e :: 0 <= e < |c.g.edges| && !c.back(e) && c.g.edges[e] == Edge(u, v)
  }

  ghost predicate HasForward(c: Cfg, v: nat) {
    exists w: nat :: Forward(c)(v, w)
  }

  // The step from a loop to the loop around it.
  ghost function Outwards(c: Cfg): (nat, nat) -> bool {
    (u: nat, v: nat) => u < c.g.count && c.header(u) && c.enclosing(u) == Some(v)
  }

  // Without its back edges the graph is acyclic, and the loops form a forest of
  // headers.
  ghost predicate Reducible(c: Cfg) {
    c.g.Ok() && Acyclic(Forward(c)) && Acyclic(Outwards(c)) &&
    forall u :: 0 <= u < c.g.count && c.enclosing(u).Some? ==>
        c.enclosing(u).value < c.g.count && c.header(c.enclosing(u).value)
  }

  // ----- blocks -----

  // The numbers given so far are 0, ..., current - 1, each to one block.
  ghost predicate Numbering(numbers: map<nat, int>, current: int) {
    |numbers| == current &&
    (forall v :: v in numbers ==> 0 <= numbers[v] < current) &&
    (forall u, v :: u in numbers && v in numbers && u != v ==> numbers[u] != numbers[v])
  }

  // The loop a block is in, a header being in its own loop.
  function LoopOf(c: Cfg, v: nat): Option<nat> {
    if c.header(v) then Some(v) else c.enclosing(v)
  }

  ghost predicate BlocksNumbered(c: Cfg, visited: seq<bool>, blocks: map<nat, int>, belongs: map<nat, nat>,
                                 current: int) {
    c.g.Ok() && Numbering(blocks, current) && Marked(c, visited, blocks) && LoopsKnown(c, blocks, belongs) &&
    AlongEdges(c, blocks)
  }

  // The bits mark the numbered blocks.
  ghost predicate Marked(c: Cfg, visited: seq<bool>, blocks: map<nat, int>) {
    |visited| == c.g.count &&
    (forall v :: v in blocks ==> v < c.g.count) &&
    (forall v :: 0 <= v < c.g.count ==> (visited[v] <==> v in blocks))
  }

  // Every numbered block is entered in the table of its loop.
  ghost predicate LoopsKnown(c: Cfg, blocks: map<nat, int>, belongs: map<nat, nat>) {
    (forall v: nat :: v in belongs <==> v in blocks && LoopOf(c, v).Some?) &&
    (forall v :: v in belongs ==> Some(belongs[v]) == LoopOf(c, v))
  }

  // The sources of a numbered block are numbered before it.
  ghost predicate AlongEdges(c: Cfg, blocks: map<nat, int>) {
    forall u: nat, v: nat :: Forward(c)(u, v) && v in blocks ==> u in blocks && blocks[u] < blocks[v]
  }

  // Only `v` and blocks that lead to it were numbered since.
  ghost predicate OnlyAncestors(c: Cfg, before: map<nat, int>, after: map<nat, int>, v: nat) {
    (forall u :: u in before ==> u in after && after[u] == before[u]) &&
    (forall u :: u in after && u !in before ==> u == v || Leads(Forward(c), u, v))
  }

  // `v` is not numbered yet; only blocks that lead to it were numbered since.
  ghost predicate Above(c: Cfg, before: map<nat, int>, now: map<nat, int>, v: nat) {
    v !in now &&
    (forall u :: u in before ==> u in now && now[u] == before[u]) &&
    (forall u :: u in now && u !in before ==> Leads(Forward(c), u, v))
  }

  // The sources of the first `n` edges into `v`, back edges apart, are numbered.
  ghost predicate SourcesIn(c: Cfg, v: nat, n: nat, blocks: map<nat, int>)
    requires c.g.Ok() && v < c.g.count && n <= |c.g.ins[v]|
  {
    forall i :: 0 <= i < n && !c.back(c.g.ins[v][i]) ==> c.g.edges[c.g.ins[v][i]].source in blocks
  }

  lemma AboveSource(c: Cfg, before: map<nat, int>, middle: map<nat, int>, after: map<nat, int>, u: nat, v: nat)
    requires Acyclic(Forward(c)) && Forward(c)(u, v) && Above(c, before, middle, v)
    requires OnlyAncestors(c, middle, after, u)
    ensures Above(c, before, after, v)
  {
    hide Forward;
    forall w | w in after && w !in middle
      ensures Leads(Forward(c), w, v)
    {
      if w == u {
        StepLeads(Forward(c), u, v);
      } else {
        LeadsOn(Forward(c), w, u, v);
      }
    }
  }

  lemma NumberOne(numbers: map<nat, int>, current: int, v: nat)
    requires Numbering(numbers, current) && v !in numbers
    ensures Numbering(numbers[v := current], current + 1)
  {
  }

  lemma BlockNumbered(c: Cfg, visited: seq<bool>, blocks: map<nat, int>, belongs: map<nat, nat>, current: int, v: nat,
                      belongs2: map<nat, nat>)
    requires BlocksNumbered(c, visited, blocks, belongs, current) && v < c.g.count && v !in blocks
    requires forall u :: Forward(c)(u, v) ==> u in blocks
    requires belongs2 == if LoopOf(c, v).Some? then belongs[v := LoopOf(c, v).value] else belongs
    ensures BlocksNumbered(c, visited[v := true], blocks[v := current], belongs2, current + 1)
  {
    NumberOne(blocks, current, v);
    NumbersBelow(blocks, current);
    MarkOne(c, visited, blocks, v, current);
    LoopKnown(c, blocks, belongs, v, belongs2, current);
    AlongMore(c, blocks, v, current);
    hide *;
  }

  lemma MarkOne(c: Cfg, visited: seq<bool>, blocks: map<nat, int>, v: nat, k: int)
    requires Marked(c, visited, blocks) && v < c.g.count
    ensures Marked(c, visited[v := true], blocks[v := k])
  {
  }

  lemma LoopKnown(c: Cfg, blocks: map<nat, int>, belongs: map<nat, nat>, v: nat, belongs2: map<nat, nat>, k: int)
    requires LoopsKnown(c, blocks, belongs)
    requires belongs2 == if LoopOf(c, v).Some? then belongs[v := LoopOf(c, v).value] else belongs
    ensures LoopsKnown(c, blocks[v := k], belongs2)
  {
    hide LoopOf;
  }

  lemma AlongMore(c: Cfg, blocks: map<nat, int>, v: nat, k: int)
    requires AlongEdges(c, blocks) && v !in blocks && forall u :: Forward(c)(u, v) ==> u in blocks
    requires forall u :: u in blocks ==> blocks[u] < k
    ensures AlongEdges(c, blocks[v := k])
  {
    hide Forward;
  }

  lemma NumbersBelow(numbers: map<nat, int>, current: int)
    requires Numbering(numbers, current)
    ensures forall u :: u in numbers ==> numbers[u] < current
  {
  }

  lemma Farther(c: Cfg, path: seq<nat>, w: nat)
    requires c.g.Ok() && Acyclic(Forward(c)) && Walk(Forward(c), path) && Forward(c)(path[|path| - 1], w)
    requires forall i :: 0 <= i < |path| ==> path[i] < c.g.count
    ensures Walk(Forward(c), path + [w]) && (forall i :: 0 <= i < |path + [w]| ==> (path + [w])[i] < c.g.count)
    ensures |path| < c.g.count
  {
    assert w < c.g.count;
    hide Forward, Acyclic, Graph.Ok;
    WalkIsShort(Forward(c), path + [w], c.g.count);
  }

  // A walk ends at a block that only back edges leave, so a search back from those
  // reaches every block.
  lemma {:induction false} EveryBlock(c: Cfg, blocks: map<nat, int>, path: seq<nat>)
    requires c.g.Ok() && Acyclic(Forward(c)) && Walk(Forward(c), path) &&
             forall i :: 0 <= i < |path| ==> path[i] < c.g.count
    requires forall v: nat :: v < c.g.count ==> v in blocks || HasForward(c, v)
    requires forall u: nat, v: nat :: Forward(c)(u, v) && v in blocks ==> u in blocks
    ensures path[|path| - 1] in blocks
    decreases c.g.count - |path|
  {
    assert path != [];
    hide Acyclic, Walk, Graph.Ok, Forward;
    WalkIsShort(Forward(c), path, c.g.count);
    var v := path[|path| - 1];
    assert v < c.g.count;
    if v !in blocks {
      assert HasForward(c, v);
      var w: nat :| Forward(c)(v, w);
      Farther(c, path, w);
      hide *;
      EveryBlock(c, blocks, path + [w]);
    }
  }

  // ----- loops -----

  // A loop directly inside `loop`; -1 stands for the whole graph.
  predicate Child(c: Cfg, u: nat, loop: int) {
    u < c.g.count && c.header(u) &&
    if loop == -1 then c.enclosing(u) == None else c.enclosing(u).Some? && c.enclosing(u).value == loop
  }

  // `u` is `v` or a loop somewhere inside it.
  ghost predicate Inside(c: Cfg, u: nat, v: nat) {
    u == v || Leads(Outwards(c), u, v)
  }

  ghost predicate LoopsNumbered(c: Cfg, loops: map<nat, int>, current: int) {
    Numbering(loops, current) &&
    (forall h :: h in loops ==> h < c.g.count && c.header(h)) &&
    (forall u: nat, h: nat :: Outwards(c)(u, h) && h in loops ==> u in loops && loops[u] < loops[h])
  }

  // Nothing inside `v` is numbered.
  ghost predicate Untouched(c: Cfg, loops: map<nat, int>, v: nat) {
    forall u :: u in loops ==> !Inside(c, u, v)
  }

  // The loop helper, at block `i`: the children before it are numbered, nothing
  // inside the others is.
  ghost predicate ChildrenUpTo(c: Cfg, loops: map<nat, int>, loop: int, i: nat) {
    forall u: nat :: Child(c, u, loop) ==> if u < i then u in loops else Untouched(c, loops, u)
  }

  // Only loops inside `loop` were numbered since, and not `loop` itself.
  ghost predicate OnlyInside(c: Cfg, before: map<nat, int>, now: map<nat, int>, loop: int) {
    (forall u :: u in before ==> u in now && now[u] == before[u]) &&
    (loop >= 0 ==> forall u :: u in now && u !in before ==> Leads(Outwards(c), u, loop))
  }

  // `loop` and everything inside it is numbered, and nothing else since.
  ghost predicate AllInside(c: Cfg, before: map<nat, int>, now: map<nat, int>, loop: int) {
    (forall u :: u in before ==> u in now && now[u] == before[u]) &&
    (forall u: nat :: Child(c, u, loop) ==> u in now) &&
    (loop >= 0 ==> loop in now && forall u :: u in now && u !in before ==> Inside(c, u, loop))
  }

  // The loops around `loop`, from the inside out.
  ghost predicate LoopPath(c: Cfg, path: seq<nat>, loop: int) {
    if loop < 0 then loop == -1 && path == []
    else Walk(Outwards(c), path) && path[0] == loop &&
         forall i :: 0 <= i < |path| ==> path[i] < c.g.count && c.header(path[i])
  }

  lemma LoopPathIsShort(c: Cfg, path: seq<nat>, loop: int)
    requires LoopPath(c, path, loop) && Acyclic(Outwards(c))
    ensures |path| <= c.g.count && loop >= -1
  {
    if loop >= 0 {
      WalkIsShort(Outwards(c), path, c.g.count);
    }
  }

  lemma ChildUntouched(c: Cfg, loops: map<nat, int>, loop: int, b: nat)
    requires ChildrenUpTo(c, loops, loop, b) && Child(c, b, loop)
    ensures Untouched(c, loops, b)
  {
  }

  lemma NotAChild(c: Cfg, loops: map<nat, int>, loop: int, b: nat)
    requires ChildrenUpTo(c, loops, loop, b) && !Child(c, b, loop)
    ensures ChildrenUpTo(c, loops, loop, b + 1)
  {
  }

  lemma WholeGraphDone(c: Cfg, before: map<nat, int>, now: map<nat, int>)
    requires OnlyInside(c, before, now, -1) && ChildrenUpTo(c, now, -1, c.g.count)
    ensures AllInside(c, before, now, -1)
  {
  }

  lemma SiblingsApart(c: Cfg, loop: int, u: nat, v: nat)
    requires Acyclic(Outwards(c)) && Child(c, u, loop) && Child(c, v, loop)
    ensures !Leads(Outwards(c), u, v)
  {
    if Leads(Outwards(c), u, v) {
      LeadsThrough(Outwards(c), u, v);
      var w :| Outwards(c)(u, w) && (w == v || Leads(Outwards(c), w, v));
      assert w == loop && Outwards(c)(v, w);
      if w == v {
        StepLeads(Outwards(c), w, w);
      } else {
        LeadsOn(Outwards(c), w, v, w);
      }
    }
  }

  lemma OutwardsFunctional(c: Cfg)
    ensures Functional(Outwards(c))
  {
  }

  // What is inside a child is not inside another child.
  lemma InsideOne(c: Cfg, loop: int, u: nat, v: nat, w: nat)
    requires Acyclic(Outwards(c)) && Child(c, v, loop) && Child(c, w, loop) && v != w && Inside(c, u, v)
    ensures !Inside(c, u, w)
  {
    SiblingsApart(c, loop, v, w);
    SiblingsApart(c, loop, w, v);
    if u != v && Leads(Outwards(c), u, w) {
      OutwardsFunctional(c);
      var path :| WalkFromTo(Outwards(c), path, u, v);
      OneLine(Outwards(c), path, u, v, w);
    }
  }

  // One child, with everything inside it, has been numbered.
  lemma ChildDone(c: Cfg, before: map<nat, int>, middle: map<nat, int>, after: map<nat, int>, loop: int, b: nat)
    requires Acyclic(Outwards(c)) && Child(c, b, loop)
    requires OnlyInside(c, before, middle, loop) && ChildrenUpTo(c, middle, loop, b)
    requires AllInside(c, middle, after, b)
    ensures OnlyInside(c, before, after, loop) && ChildrenUpTo(c, after, loop, b + 1)
  {
    hide Acyclic, Leads;
    forall u | u in after && u !in middle && loop >= 0
      ensures Leads(Outwards(c), u, loop)
    {
      assert Outwards(c)(b, loop);
      if u == b {
        StepLeads(Outwards(c), b, loop);
      } else {
        LeadsOn(Outwards(c), u, b, loop);
      }
    }
    forall w: nat | Child(c, w, loop) && w > b
      ensures Untouched(c, after, w)
    {
      forall u | u in after
        ensures !Inside(c, u, w)
      {
        if u !in middle {
          InsideOne(c, loop, u, b, w);
        }
      }
    }
  }

  // With its children numbered, a loop takes the next number.
  lemma LoopNumbered(c: Cfg, before: map<nat, int>, loops: map<nat, int>, current: int, loop: nat, path: seq<nat>)
    requires c.g.Ok() && Acyclic(Outwards(c)) && LoopsNumbered(c, loops, current) && LoopPath(c, path, loop)
    requires Untouched(c, before, loop) && OnlyInside(c, before, loops, loop) && ChildrenUpTo(c, loops, loop, c.g.count)
    ensures LoopsNumbered(c, loops[loop := current], current + 1)
    ensures AllInside(c, before, loops[loop := current], loop)
  {
    assert path[0] == loop;
    assert !Leads(Outwards(c), loop, loop);
    assert loop in before ==> Inside(c, loop, loop);
    NumberOne(loops, current, loop);
    NumbersBelow(loops, current);
    forall u: nat | Outwards(c)(u, loop)
      ensures u in loops
    {
      assert Child(c, u, loop);
    }
    hide Numbering;
  }

  // Every loop is inside an outermost one, and the numbering goes inwards.
  lemma {:induction false} EveryLoop(c: Cfg, loops: map<nat, int>, path: seq<nat>)
    requires Reducible(c) && Walk(Outwards(c), path) &&
             forall i :: 0 <= i < |path| ==> path[i] < c.g.count && c.header(path[i])
    requires forall u: nat :: Child(c, u, -1) ==> u in loops
    requires forall u: nat, h: nat :: Outwards(c)(u, h) && h in loops ==> u in loops
    ensures path[|path| - 1] in loops
    decreases c.g.count - |path|
  {
    WalkIsShort(Outwards(c), path, c.g.count);
    var h := path[|path| - 1];
    if c.enclosing(h) == None {
      assert Child(c, h, -1);
    } else {
      var k := c.enclosing(h).value;
      assert Outwards(c)(h, k);
      assert Walk(Outwards(c), path + [k]);
      WalkIsShort(Outwards(c), path + [k], c.g.count);
      EveryLoop(c, loops, path + [k]);
    }
  }

  // ----- the order -----

  // Everything `isBefore` looks up is there, blocks are numbered along the edges
  // and loops inside out.
  ghost predicate Complete(c: Cfg, belongs: map<nat, nat>, loops: map<nat, int>, blocks: map<nat, int>) {
    c.g.Ok() && Numbering(blocks, c.g.count) &&
    (forall v: nat :: v in blocks <==> v < c.g.count) &&
    (forall v: nat :: v in belongs <==> v < c.g.count && LoopOf(c, v).Some?) &&
    (forall v :: v in belongs ==> Some(belongs[v]) == LoopOf(c, v) && belongs[v] in loops) &&
    (forall h: nat :: h in loops <==> h < c.g.count && c.header(h)) &&
    (forall u: nat, v: nat :: Forward(c)(u, v) ==> u in blocks && v in blocks && blocks[u] < blocks[v]) &&
    (forall u: nat, h: nat :: Outwards(c)(u, h) ==> u in loops && h in loops && loops[u] < loops[h]) &&
    (forall u, v :: u in loops && v in loops && u != v ==> loops[u] != loops[v])
  }

  // All keys looked up for a block are present.
  predicate Known(belongs: map<nat, nat>, loops: map<nat, int>, blocks: map<nat, int>, b: nat) {
    b in blocks && (b in belongs ==> belongs[b] in loops)
  }

  // `isBefore`, with its comparison of one loop number with itself.
  predicate IsBefore(belongs: map<nat, nat>, loops: map<nat, int>, blocks: map<nat, int>, b1: nat, b2: nat)
    requires Known(belongs, loops, blocks, b1) && Known(belongs, loops, blocks, b2)
  {
    if b1 in belongs && b2 !in belongs then true
    else if b1 !in belongs && b2 in belongs then false
    else if b1 in belongs && loops[belongs[b1]] < loops[belongs[b1]] then true
    else if b1 in belongs && loops[belongs[b1]] > loops[belongs[b1]] then false
    else blocks[b1] < blocks[b2]
  }

  // The order handed to the driver.
  function AsOrder(belongs: map<nat, nat>, loops: map<nat, int>, blocks: map<nat, int>): (o: Order)
    ensures o.Some?
  {
    Some((a: nat, b: nat) => Known(belongs, loops, blocks, a) && Known(belongs, loops, blocks, b) &&
         IsBefore(belongs, loops, blocks, a, b))
  }

  // `isBefore` never misses a key: it puts the blocks of loops first, and then
  // goes by block number.
  lemma IsBeforeMeans(c: Cfg, belongs: map<nat, nat>, loops: map<nat, int>, blocks: map<nat, int>, a: nat, b: nat)
    requires Complete(c, belongs, loops, blocks) && a < c.g.count && b < c.g.count
    ensures Known(belongs, loops, blocks, a) && Known(belongs, loops, blocks, b)
    ensures IsBefore(belongs, loops, blocks, a, b) <==>
      (LoopOf(c, a).Some? && LoopOf(c, b).None?) || (LoopOf(c, a).Some? == LoopOf(c, b).Some? && blocks[a] < blocks[b])
    ensures a != b ==> blocks[a] != blocks[b]
  {
  }

  // It is a strict total order on the blocks, so it is one the driver accepts.
  lemma IsBeforeStrictTotal(c: Cfg, belongs: map<nat, nat>, loops: map<nat, int>, blocks: map<nat, int>)
    requires Complete(c, belongs, loops, blocks)
    ensures var o := AsOrder(belongs, loops, blocks);
      StrictWeak(o, c.g.count) &&
      (forall a: nat, b: nat :: a < c.g.count && b < c.g.count && a != b ==> (Before(o, a, b) <==> !Before(o, b, a))) &&
      (forall a: nat, b: nat, d: nat ::
         a < c.g.count && b < c.g.count && d < c.g.count && Before(o, a, b) && Before(o, b, d) ==> Before(o, a, d))
  {
    hide Complete, IsBefore, Known, LoopOf, AsOrder;
    var o := AsOrder(belongs, loops, blocks);
    forall a: nat, b: nat | a < c.g.count && b < c.g.count
      ensures a != b ==> (o.value(a, b) <==> !o.value(b, a))
      ensures o.value(a, b) ==> !o.value(b, a)
    {
      ThreeBlocks(c, belongs, loops, blocks, a, b, a);
    }
    forall a: nat, b: nat, d: nat | a < c.g.count && b < c.g.count && d < c.g.count
      ensures o.value(a, b) && o.value(b, d) ==> o.value(a, d)
      ensures o.value(a, d) ==> o.value(a, b) || o.value(b, d)
    {
      ThreeBlocks(c, belongs, loops, blocks, a, b, d);
    }
  }

  ghost predicate ThreeInOrder(o: Order, a: nat, b: nat, d: nat) {
    (a != b ==> (Before(o, a, b) <==> !Before(o, b, a))) && !Before(o, a, a) &&
    (Before(o, a, b) && Before(o, b, d) ==> Before(o, a, d)) &&
    (Before(o, a, d) ==> Before(o, a, b) || Before(o, b, d))
  }

  lemma ThreeBlocks(c: Cfg, belongs: map<nat, nat>, loops: map<nat, int>, blocks: map<nat, int>, a: nat, b: nat, d: nat)
    requires Complete(c, belongs, loops, blocks) && a < c.g.count && b < c.g.count && d < c.g.count
    ensures ThreeInOrder(AsOrder(belongs, loops, blocks), a, b, d)
  {
    IsBeforeMeans(c, belongs, loops, blocks, a, b);
    IsBeforeMeans(c, belongs, loops, blocks, b, a);
    IsBeforeMeans(c, belongs, loops, blocks, a, d);
    IsBeforeMeans(c, belongs, loops, blocks, b, d);
    IsBeforeMeans(c, belongs, loops, blocks, a, a);
    hide Complete, IsBefore, Known, LoopOf;
  }

  // Along an edge that neither enters nor leaves the loops, the source is
  // processed first.
  lemma SourceBeforeSink(c: Cfg, belongs: map<nat, nat>, loops: map<nat, int>, blocks: map<nat, int>, e: nat)
    requires Complete(c, belongs, loops, blocks) && e < |c.g.edges| && !c.back(e)
    ensures var u, v := c.g.edges[e].source, c.g.edges[e].sink;
      Known(belongs, loops, blocks, u) && Known(belongs, loops, blocks, v) &&
      (IsBefore(belongs, loops, blocks, u, v) <==> LoopOf(c, u).Some? || LoopOf(c, v).None?)
  {
    assert Forward(c)(c.g.edges[e].source, c.g.edges[e].sink) by {
      assert c.g.edges[e] == Edge(c.g.edges[e].source, c.g.edges[e].sink);
    }
  }

  class PseudoTopoOrder {
    const c: Cfg
    var current: int
    const visited: array<bool>
    var belongsToLoop: map<nat, nat>
    var loopOrder: map<nat, int>
    var blockOrder: map<nat, int>

    ghost predicate Blocks()
      reads this, visited
    {
      Reducible(c) && BlocksNumbered(c, visited[..], blockOrder, belongsToLoop, current)
    }

    ghost predicate Loops()
      reads this
    {
      Reducible(c) && LoopsNumbered(c, loopOrder, current)
    }

    // Numbers the loops, then the blocks.
    constructor (c: Cfg)
      requires Reducible(c)
      ensures this.c == c && Complete(c, belongsToLoop, loopOrder, blockOrder)
    {
      this.c := c;
      current, belongsToLoop, loopOrder, blockOrder := 0, map[], map[], map[];
      visited := new bool[c.g.count](_ => false);
      new;
      NoneYet(c);
      GetPseudoTopo();
    }

    // `_getPseudoTopo`.
    method GetPseudoTopo()
      requires Blocks() && Loops() && blockOrder == map[] && loopOrder == map[] && current == 0
      modifies this, visited
      ensures Complete(c, belongsToLoop, loopOrder, blockOrder)
    {
      hide BlocksNumbered, LoopsNumbered, Complete, Acyclic;
      TopoLoopHelper(-1, []);
      assert forall u: nat :: Child(c, u, -1) ==> u in loopOrder;
      ghost var last := current;
      current := 0;
      NumberBlocks();
      AllNumbered(c, visited[..], belongsToLoop, loopOrder, blockOrder, current, last);
    }

    // The search starts at every block that only back edges leave.
    method NumberBlocks()
      requires Blocks() && blockOrder == map[]
      modifies this`current, this`belongsToLoop, this`blockOrder, visited
      ensures Blocks() && forall v: nat :: v < c.g.count ==> v in blockOrder || HasForward(c, v)
    {
      hide *;
      for b := 0 to c.g.count
        invariant Blocks()
        invariant forall v: nat :: v < b ==> v in blockOrder || HasForward(c, v)
      {
        ghost var before := blockOrder;
        NumberFrom(b);
        assert forall v :: v in before ==> v in blockOrder;
      }
    }

    method NumberFrom(b: nat)
      requires Blocks() && b < c.g.count
      modifies this`current, this`belongsToLoop, this`blockOrder, visited
      ensures Blocks() && (b in blockOrder || HasForward(c, b))
      ensures forall v :: v in old(blockOrder) ==> v in blockOrder
    {
      var hasNonBackEdges := HasNonBackEdges(b);
      if !hasNonBackEdges {
        Alone(c, b);
        TopoNodeHelper(b, [b]);
      }
    }

    method HasNonBackEdges(b: nat) returns (found: bool)
      requires c.g.Ok() && b < c.g.count
      ensures found <==> HasForward(c, b)
    {
      found := false;
      var es, i := c.g.outs[b], 0;
      while i < |es| && !found
        invariant 0 <= i <= |es|
        invariant found ==> HasForward(c, b)
        invariant !found ==> forall j :: 0 <= j < i ==> c.back(es[j])
      {
        if !c.back(es[i]) {
          found := true;
          assert Forward(c)(b, c.g.edges[es[i]].sink) by {
            assert c.g.edges[es[i]] == Edge(b, c.g.edges[es[i]].sink);
          }
        }
        i := i + 1;
      }
      if !found {
        forall w: nat
          ensures !Forward(c)(b, w)
        {
          NoEdge(c, b, w);
        }
      }
    }

    // `_topoLoopHelper`: numbers the loops inside `loop`, then `loop` itself.
    method TopoLoopHelper(loop: int, ghost path: seq<nat>)
      requires Loops()
      requires LoopPath(c, path, loop) && if loop < 0 then loopOrder == map[] else Untouched(c, loopOrder, loop)
      modifies this`current, this`loopOrder
      ensures Loops() && AllInside(c, old(loopOrder), loopOrder, loop)
      decreases c.g.count - |path|
    {
      LoopPathIsShort(c, path, loop);
      ghost var before := loopOrder;
      ChildrenUntouched(c, before, loop);
      hide LoopsNumbered, OnlyInside, ChildrenUpTo, Untouched, AllInside, LoopPath, Child, Acyclic, Outwards, Forward;
      for b := 0 to c.g.count
        invariant Loops() && OnlyInside(c, before, loopOrder, loop) && ChildrenUpTo(c, loopOrder, loop, b)
      {
        if Child(c, b, loop) {
          ghost var middle := loopOrder;
          DeeperWalk(c, b, path, loop);
          ChildUntouched(c, loopOrder, loop, b);
          TopoLoopHelper(b, [b] + path);
          ChildDone(c, before, middle, loopOrder, loop, b);
        } else {
          NotAChild(c, loopOrder, loop, b);
        }
      }
      if loop != -1 {
        LoopNumbered(c, before, loopOrder, current, loop, path);
        loopOrder := loopOrder[loop := current];
        current := current + 1;
      } else {
        WholeGraphDone(c, before, loopOrder);
      }
    }

    // `_topoNodeHelper`: numbers the unvisited blocks that lead to `end`, then
    // `end` itself.
    method TopoNodeHelper(end: nat, ghost path: seq<nat>)
      requires Blocks() && end < c.g.count
      requires Walk(Forward(c), path) && path[0] == end && forall i :: 0 <= i < |path| ==> path[i] < c.g.count
      modifies this`current, this`belongsToLoop, this`blockOrder, visited
      ensures Blocks() && end in blockOrder
      ensures OnlyAncestors(c, old(blockOrder), blockOrder, end)
      decreases c.g.count - |path|
    {
      WalkIsShort(Forward(c), path, c.g.count);
      if visited[end] {
        return;
      }
      hide Numbering, Forward, Acyclic, Walk, Leads, Outwards, BlocksNumbered, Above, SourcesIn;
      ghost var before := blockOrder;
      NothingAbove(c, before, end);
      for i := 0 to |c.g.ins[end]|
        invariant Blocks() && Above(c, before, blockOrder, end)
        invariant SourcesIn(c, end, i, blockOrder)
      {
        var e := c.g.ins[end][i];
        if !c.back(e) {
          ghost var middle := blockOrder;
          LongerWalk(c, e, path);
          TopoNodeHelper(c.g.edges[e].source, [c.g.edges[e].source] + path);
          AboveSource(c, before, middle, blockOrder, c.g.edges[e].source, end);
          SourcesStay(c, end, i, middle, blockOrder);
        }
        OneMoreSource(c, end, i, blockOrder);
      }
      ghost var above := blockOrder;
      NumberBlock(end);
      AboveNumbered(c, before, above, end, blockOrder);
    }

    method NumberBlock(end: nat)
      requires Blocks() && end < c.g.count && end !in blockOrder && SourcesIn(c, end, |c.g.ins[end]|, blockOrder)
      modifies this`current, this`belongsToLoop, this`blockOrder, visited
      ensures Blocks() && blockOrder == old(blockOrder)[end := old(current)]
    {
      SourcesNumbered(c, blockOrder, end);
      ghost var bits, belongs := visited[..], belongsToLoop;
      if c.header(end) {
        belongsToLoop := belongsToLoop[end := end];
      } else if c.enclosing(end) != None {
        belongsToLoop := belongsToLoop[end := c.enclosing(end).value];
      }
      BlockNumbered(c, bits, blockOrder, belongs, current, end, belongsToLoop);
      blockOrder := blockOrder[end := current];
      current := current + 1;
      visited[end] := true;
      assert visited[..] == bits[end := true];
    }
  }

  // The analysis in its processing order: the least solution again.
  method ProcessInOrder<S(==, !new)>(c: Cfg, p: Analysis<S>) returns (s: S, x: seq<S>)
    requires Reducible(c) && Proper(p) && p.g == c.g && c.g.ins[c.g.exit] != []
    ensures LeastSolution(p, x) && s == x[c.g.ins[c.g.exit][0]]
  {
    var pto := new PseudoTopoOrder(c);
    IsBeforeStrictTotal(c, pto.belongsToLoop, pto.loopOrder, pto.blockOrder);
    hide *;
    s, x := ProcessCFG(p, AsOrder(pto.belongsToLoop, pto.loopOrder, pto.blockOrder));
  }

  lemma NoEdge(c: Cfg, b: nat, w: nat)
    requires c.g.Ok() && b < c.g.count && forall j :: 0 <= j < |c.g.outs[b]| ==> c.back(c.g.outs[b][j])
    ensures !Forward(c)(b, w)
  {
    forall e | 0 <= e < |c.g.edges| && c.g.edges[e] == Edge(b, w)
      ensures c.back(e)
    {
      assert e in c.g.outs[b];
    }
  }

  lemma ChildrenUntouched(c: Cfg, loops: map<nat, int>, loop: int)
    requires if loop < 0 then loop == -1 && loops == map[] else Untouched(c, loops, loop)
    ensures ChildrenUpTo(c, loops, loop, 0) && OnlyInside(c, loops, loops, loop)
  {
    forall w: nat, u | Child(c, w, loop) && u in loops
      ensures !Inside(c, u, w)
    {
      if Inside(c, u, w) {
        assert Outwards(c)(w, loop);
        if u == w {
          StepLeads(Outwards(c), w, loop);
        } else {
          LeadsOn(Outwards(c), u, w, loop);
        }
      }
    }
  }

  lemma DeeperWalk(c: Cfg, b: nat, path: seq<nat>, loop: int)
    requires Child(c, b, loop) && LoopPath(c, path, loop)
    ensures LoopPath(c, [b] + path, b)
  {
    var deeper := [b] + path;
    forall i | 0 <= i < |deeper| - 1
      ensures Outwards(c)(deeper[i], deeper[i + 1])
    {
      assert i > 0 ==> Outwards(c)(path[i - 1], path[i]);
    }
  }

  lemma NoneYet(c: Cfg)
    requires c.g.Ok()
    ensures BlocksNumbered(c, seq(c.g.count, _ => false), map[], map[], 0) && LoopsNumbered(c, map[], 0)
  {
  }

  lemma Alone(c: Cfg, b: nat)
    ensures Walk(Forward(c), [b]) && Walk(Outwards(c), [b])
  {
  }

  // When the searches end, nothing is missing.
  lemma AllNumbered(c: Cfg, visited: seq<bool>, belongs: map<nat, nat>, loops: map<nat, int>, blocks: map<nat, int>,
                    current: int, last: int)
    requires Reducible(c) && BlocksNumbered(c, visited, blocks, belongs, current) && LoopsNumbered(c, loops, last)
    requires forall u: nat :: Child(c, u, -1) ==> u in loops
    requires forall v: nat :: v < c.g.count ==> v in blocks || HasForward(c, v)
    ensures Complete(c, belongs, loops, blocks)
  {
    NoneMissing(c, loops, blocks);
    hide Acyclic, Child, Leads, Walk, HasForward;
    KeysBelow(blocks.Keys, c.g.count);
  }

  lemma NoneMissing(c: Cfg, loops: map<nat, int>, blocks: map<nat, int>)
    requires Reducible(c)
    requires forall u: nat, v: nat :: Forward(c)(u, v) && v in blocks ==> u in blocks
    requires forall u: nat, h: nat :: Outwards(c)(u, h) && h in loops ==> u in loops
    requires forall u: nat :: Child(c, u, -1) ==> u in loops
    requires forall v: nat :: v < c.g.count ==> v in blocks || HasForward(c, v)
    ensures forall v: nat :: v < c.g.count ==> v in blocks
    ensures forall v: nat :: v < c.g.count && c.header(v) ==> v in loops
  {
    forall v: nat | v < c.g.count
      ensures v in blocks
    {
      Alone(c, v);
      EveryBlock(c, blocks, [v]);
    }
    forall v: nat | v < c.g.count && c.header(v)
      ensures v in loops
    {
      Alone(c, v);
      EveryLoop(c, loops, [v]);
    }
  }

  lemma {:induction false} KeysBelow(s: set<nat>, n: nat)
    requires forall v: nat :: v in s <==> v < n
    ensures |s| == n
  {
    if n > 0 {
      KeysBelow(s - {n - 1}, n - 1);
    }
  }

  lemma SourcesNumbered(c: Cfg, blocks: map<nat, int>, end: nat)
    requires c.g.Ok() && end < c.g.count && SourcesIn(c, end, |c.g.ins[end]|, blocks)
    ensures forall u :: Forward(c)(u, end) ==> u in blocks
  {
    forall u | Forward(c)(u, end)
      ensures u in blocks
    {
      var e :| 0 <= e < |c.g.edges| && !c.back(e) && c.g.edges[e] == Edge(u, end);
      assert e in c.g.ins[end];
    }
  }

  lemma NothingAbove(c: Cfg, before: map<nat, int>, v: nat)
    requires v !in before
    ensures Above(c, before, before, v)
  {
  }

  lemma SourcesStay(c: Cfg, v: nat, n: nat, before: map<nat, int>, after: map<nat, int>)
    requires c.g.Ok() && v < c.g.count && n <= |c.g.ins[v]| && SourcesIn(c, v, n, before)
    requires forall u :: u in before ==> u in after
    ensures SourcesIn(c, v, n, after)
  {
  }

  lemma OneMoreSource(c: Cfg, v: nat, n: nat, blocks: map<nat, int>)
    requires c.g.Ok() && v < c.g.count && n < |c.g.ins[v]| && SourcesIn(c, v, n, blocks)
    requires c.back(c.g.ins[v][n]) || c.g.edges[c.g.ins[v][n]].source in blocks
    ensures SourcesIn(c, v, n + 1, blocks)
  {
  }

  lemma AboveNumbered(c: Cfg, before: map<nat, int>, above: map<nat, int>, v: nat, after: map<nat, int>)
    requires Above(c, before, above, v) && v in after && after == above[v := after[v]]
    ensures OnlyAncestors(c, before, after, v)
  {
  }

  lemma LongerWalk(c: Cfg, e: nat, path: seq<nat>)
    requires c.g.Ok() && e < |c.g.edges| && !c.back(e)
    requires Walk(Forward(c), path) && c.g.edges[e].sink == path[0]
    ensures var source := c.g.edges[e].source; Forward(c)(source, path[0]) && Walk(Forward(c), [source] + path)
  {
    var longer := [c.g.edges[e].source] + path;
    assert c.g.edges[e] == Edge(longer[0], longer[1]);
    forall i | 0 <= i < |longer| - 1
      ensures Forward(c)(longer[i], longer[i + 1])
    {
      assert i > 0 ==> Forward(c)(path[i - 1], path[i]);
    }
  }
}
