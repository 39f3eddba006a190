/**
 * Runs of any length: the abstract states computed along a path cover every
 * concrete run that follows it, and the loop counter counts back edges.
 */
module Runs {
  import opened LinearExpressions
  import opened Polyhedra
  import opened Mappings
  import opened AbstractStates
  import opened Instructions
  import opened Transfers
  import opened Domains
  import opened LoopBounds
  import opened Words

  // What happens along a path: instructions, the cleaning up after each
  // machine instruction, and the edges.  The bound of a loop exit is the C
  // `int` that the exit receives.
  datatype Stmt =
    | Sem(i: Inst)
    | KillTemporaries
    | Finalize
    | Enter(loop: int)                 // edge into a loop header from outside
    | Iterate(loop: int)               // back edge
    | Leave(loop: int, bound: CInt)    // loop exit under a bound
    | Branch(taken: bool)

  // A concrete configuration: the registers, the operands compared, and the
  // last conditional.
  datatype Conf = Conf(env: Env, ops: Operands, cmp: Option<Filter>)

  ghost predicate StmtStep(st: Stmt, c1: Conf, c2: Conf) {
    match st
    case Sem(i) =>
      && Step(i, c1.env, c2.env)
      && OperandsStep(i, c1.env, c1.ops, c2.env, c2.ops)
      && c2.cmp == (if i.IF? then Some(Filter(Reg(i.sr), i.cond)) else c1.cmp)
    case KillTemporaries => c2 == c1
    case Finalize => c2 == c1
    case Enter(l) => Assigned(c1.env, Counter(l), 0, c2.env) && c2.ops == c1.ops && c2.cmp == c1.cmp
    case Iterate(l) =>
      Assigned(c1.env, Counter(l), c1.env(Counter(l)) + 1, c2.env) && c2.ops == c1.ops && c2.cmp == c1.cmp
    case Leave(_, _) => c2 == c1
    case Branch(taken) =>
      && (c1.cmp.Some? ==>
            var o := c1.ops(c1.cmp.value.reg.id);
            GoesTo(c1.cmp.value.cond, o.0, o.1, taken))
      && c2 == Conf(c1.env, c1.ops, None)
  }

  ghost predicate Covered(s: Snapshot, c: Conf) {
    && s.state.poly.Ok() && Gamma(s.state, c.env) && Coherent(c.env, c.ops)
    && (c.cmp.Some? ==> c.cmp.value.reg.typ == ID_REG)
    && (s.compare.Some? ==> c.cmp == s.compare)
  }

  // What a step must satisfy for its abstract counterpart to be sound.
  ghost predicate StmtGuard(lib: Ppl, s: Snapshot, st: Stmt, c: Conf) {
    match st
    case Sem(i) => StepGuard(lib, s.state, i, c.env)
    case Leave(l, bound) => Admits(bound, c.env(Counter(l)))
    case Branch(_) =>
      c.cmp.Some? ==>
        var o := c.ops(c.cmp.value.reg.id);
        BranchExact(c.cmp.value.cond, o.0, o.1)
    case _ => true
  }

  // ----- the identifiers along a path -----

  // What is mapped and pending, whatever the polyhedron.
  datatype Shape = Shape(keys: set<Ident>, compare: Option<Filter>)

  ghost function ShapeOf(s: Snapshot): Shape {
    Shape(s.state.idmap.Keys, s.compare)
  }

  function ShapeAfter(sh: Shape, st: Stmt): Shape {
    match st
    case Sem(i) =>
      Shape(MappedAfter(sh.keys, i),
            if i.IF? && Reg(i.sr) in sh.keys then Some(Filter(Reg(i.sr), i.cond)) else sh.compare)
    case KillTemporaries => Shape((set id | id in sh.keys && !Temporary(id)), sh.compare)
    case Enter(l) => Shape(sh.keys + {Counter(l)}, sh.compare)
    case Leave(l, bound) => if bound >= 0 then Shape(sh.keys - {Counter(l)}, sh.compare) else sh
    case Branch(_) => if sh.compare.Some? then Shape(sh.keys - {sh.compare.value.reg}, None) else sh
    case _ => sh
  }

  function ShapeAt(sh: Shape, prog: seq<Stmt>, k: nat): Shape
    requires k <= |prog|
  {
    if k == 0 then sh else ShapeAfter(ShapeAt(sh, prog, k - 1), prog[k - 1])
  }

  // When the assertions of the code hold: no instruction with an effect while
  // a filter is pending, loop counters mapped inside their loops, and the
  // register of a pending filter mapped.
  predicate Accepts(sh: Shape, st: Stmt) {
    match st
    case Sem(i) => sh.compare == None || i.NOP?
    case Iterate(l) => Counter(l) in sh.keys
    case Leave(l, bound) => bound >= 0 ==> Counter(l) in sh.keys
    case Branch(_) => sh.compare.Some? ==> sh.compare.value.reg in sh.keys
    case _ => true
  }

  predicate WellFormed(sh: Shape, prog: seq<Stmt>) {
    forall k :: 0 <= k < |prog| ==> Accepts(ShapeAt(sh, prog, k), prog[k])
  }

  // ----- the constants along a path -----

  // The registers whose value the text tells, after a statement.
  function KnownAfter(m: map<Ident, int>, keys: set<Ident>, st: Stmt): map<Ident, int> {
    match st
    case Sem(i) => PinsAfter(m, keys, i)
    case KillTemporaries => map id | id in m && !Temporary(id) :: m[id]
    case Finalize => m
    case Enter(l) => m - {Counter(l)}
    case Iterate(l) => m - {Counter(l)}
    case _ => map[]
  }

  function KnownAt(sh: Shape, prog: seq<Stmt>, k: nat): map<Ident, int>
    requires k <= |prog|
  {
    if k == 0 then map[] else KnownAfter(KnownAt(sh, prog, k - 1), ShapeAt(sh, prog, k - 1).keys, prog[k - 1])
  }

  // Each state that is not bottom has these values.
  ghost predicate Known(states: seq<Snapshot>, sh: Shape, prog: seq<Stmt>)
    requires |states| <= |prog| + 1
  {
    forall k :: 0 <= k < |states| ==> PinnedBy(states[k].state, KnownAt(sh, prog, k))
  }

  // What a statement keeps of the constants.
  ghost predicate KeepsKnown(s: AState, t: AState, st: Stmt) {
    forall m :: PinnedBy(s, m) ==> PinnedBy(t, KnownAfter(m, s.idmap.Keys, st))
  }

  // ----- what a statement makes of a state -----

  // With `g` as the number of the next variable.
  ghost predicate YieldsAt(lib: Ppl, s: Snapshot, st: Stmt, g: nat, t: Snapshot) {
    match st
    case Sem(i) => Interprets(lib, s, i, g, t)
    case KillTemporaries => Cleans(s, t)
    case Finalize => Finalizes(s, t)
    case Enter(l) => Sets(s, Counter(l), 0, g, t)
    case Iterate(l) => Counter(l) in s.state.idmap && Moves(s, Counter(l), s.state.idmap[Counter(l)].g, 1, g, t)
    case Leave(l, bound) => if bound >= 0 then Counter(l) in s.state.idmap && Leaves(s, l, bound, t) else t == s
    case Branch(taken) =>
      if s.compare.Some? then s.compare.value.reg in s.state.idmap && Branches(lib, s, taken, t) else t == s
  }

  // The variables numbered are not in use.  A state without elements is left
  // alone.
  ghost predicate Yields(lib: Ppl, s: Snapshot, st: Stmt, t: Snapshot) {
    s.Ok() && t.Ok() &&
    if Empty(s.state) then t == s
    else
      exists g: nat ::
        && g !in s.state.poly.adapter && Unmapped(s.state.idmap, g) && g !in s.victims
        && YieldsAt(lib, s, st, g, t)
  }

  lemma Unused(d: PPLDomain)
    requires d.Valid()
    ensures d.State().poly.Ok() && d.gen.next !in d.poly.adapter && Unmapped(d.idmap, d.gen.next)
    ensures d.gen.next !in d.victims
  {
  }

  lemma BottomYields(lib: Ppl, s: Snapshot, st: Stmt)
    requires s.Ok() && Empty(s.state)
    ensures Yields(lib, s, st, s)
  {
  }

  lemma NoFilterYields(lib: Ppl, s: Snapshot, taken: bool, g: nat)
    requires s.compare == None
    ensures YieldsAt(lib, s, Branch(taken), g, s)
  {
  }

  lemma YieldsFrom(lib: Ppl, s: Snapshot, st: Stmt, g: nat, t: Snapshot)
    requires s.Ok() && t.Ok() && !Empty(s.state) && YieldsAt(lib, s, st, g, t)
    requires g !in s.state.poly.adapter && Unmapped(s.state.idmap, g) && g !in s.victims
    ensures Yields(lib, s, st, t)
  {
    hide YieldsAt;
  }

  // ----- one step -----

  // A bottom state is not propagated: the rest of its path is skipped.
  // Otherwise `ok` is false exactly when an assertion of the code fails.
  method RunStmt(d: PPLDomain, st: Stmt) returns (ok: bool, out: PPLDomain)
    requires d.Valid() && Plain(d.idmap)
    modifies d, d.poly, d.gen
    ensures d.gen.next >= old(d.gen.next) && out.State().poly.Ok()
    ensures ok <==> Empty(old(d.State())) || Accepts(ShapeOf(old(Snap(d))), st)
    ensures out.Valid() && out.lib == d.lib && out.gen == d.gen && Plain(out.idmap)
    ensures (out == d && out.poly == old(d.poly)) || (fresh(out) && fresh(out.poly)) || (out == d && fresh(out.poly))
    ensures ok ==> Empty(out.State()) || ShapeOf(Snap(out)) == ShapeAfter(ShapeOf(old(Snap(d))), st)
    ensures Empty(old(d.State())) ==> Empty(out.State())
    ensures ok ==> SoundStep(d.lib, old(Snap(d)), st, Snap(out))
    ensures ok && Retired(old(d.idmap), old(d.victims)) ==>
              Retired(out.idmap, out.victims) && KeepsKnown(old(d.State()), out.State(), st)
    ensures ok ==> Yields(d.lib, old(Snap(d)), st, Snap(out))
  {
    hide Ppl.Lawful, Represents, Separate, Plain, YieldsAt, Yields, BelowGuids, Empty, Retired, Gamma;
    ghost var s, g := Snap(d), d.gen.next;
    Unused(d);
    ok, out := true, d;
    var bottom := d.IsBottom();
    if bottom {
      NothingCovered(d.State());
      BottomYields(d.lib, s, st);
      NothingKept(d.lib, s, st);
      return;
    }
    ok, out := RunReached(d, st);
    if ok {
      ValidPoly(out);
      YieldsFrom(d.lib, s, st, g, Snap(out));
    }
  }

  lemma NothingKept(lib: Ppl, s: Snapshot, st: Stmt)
    requires s.Ok() && Empty(s.state)
    ensures SoundStep(lib, s, st, s) && KeepsKnown(s.state, s.state, st)
  {
    NothingCovered(s.state);
  }

  // A statement in a state that is not bottom.
  method RunReached(d: PPLDomain, st: Stmt) returns (ok: bool, out: PPLDomain)
    requires d.Valid() && Plain(d.idmap) && !Empty(d.State())
    modifies d, d.poly, d.gen
    ensures d.gen.next >= old(d.gen.next)
    ensures ok <==> Accepts(ShapeOf(old(Snap(d))), st)
    ensures out.Valid() && out.lib == d.lib && out.gen == d.gen && Plain(out.idmap)
    ensures (out == d && out.poly == old(d.poly)) || (fresh(out) && fresh(out.poly)) || (out == d && fresh(out.poly))
    ensures ok ==> Empty(out.State()) || ShapeOf(Snap(out)) == ShapeAfter(ShapeOf(old(Snap(d))), st)
    ensures ok ==> SoundStep(d.lib, old(Snap(d)), st, Snap(out))
    ensures ok && Retired(old(d.idmap), old(d.victims)) ==>
              Retired(out.idmap, out.victims) && KeepsKnown(old(d.State()), out.State(), st)
    ensures ok ==> YieldsAt(d.lib, old(Snap(d)), st, old(d.gen.next), Snap(out))
  {
    hide Ppl.Lawful, Represents, Separate, Assigned, Plain, YieldsAt, BelowGuids, Empty, Retired, Gamma;
    ok, out := true, d;
    match st {
      case Sem(i) => ok, out := RunInstruction(d, i);
      case KillTemporaries => RunCleaning(d, st);
      case Finalize => RunCleaning(d, st);
      case Branch(taken) =>
        if d.compare.Some? {
          ok, out := RunBranch(d, taken);
        } else {
          NoFilterYields(d.lib, Snap(d), taken, d.gen.next);
        }
      case _ => ok, out := RunLoopEdge(d, st);
    }
  }

  method RunCleaning(d: PPLDomain, st: Stmt)
    requires d.Valid() && Plain(d.idmap) && (st.KillTemporaries? || st.Finalize?) && !Empty(d.State())
    modifies d, d.poly
    ensures d.Valid() && Plain(d.idmap) && d.poly == old(d.poly)
    ensures ShapeOf(Snap(d)) == ShapeAfter(ShapeOf(old(Snap(d))), st)
    ensures forall c1, c2 :: Covered(old(Snap(d)), c1) && StmtStep(st, c1, c2) ==> Covered(Snap(d), c2)
    ensures Retired(old(d.idmap), old(d.victims)) ==>
              Retired(d.idmap, d.victims) && KeepsKnown(old(d.State()), d.State(), st)
    ensures YieldsAt(d.lib, old(Snap(d)), st, d.gen.next, Snap(d))
  {
    if st.KillTemporaries? {
      d.DoKillTemporaries();
    } else {
      d.DoFinalizeUpdate();
    }
  }

  // A loop exit without a bound, or with a negative one, changes nothing.
  method RunLoopEdge(d: PPLDomain, st: Stmt) returns (ok: bool, out: PPLDomain)
    requires d.Valid() && Plain(d.idmap) && (st.Enter? || st.Iterate? || st.Leave?)
    modifies d.gen
    ensures d.Valid() && d.gen.next >= old(d.gen.next)
    ensures ok <==> Accepts(ShapeOf(old(Snap(d))), st)
    ensures out.Valid() && out.lib == d.lib && out.gen == d.gen && Plain(out.idmap)
    ensures (out == d && out.poly == d.poly) || (fresh(out) && fresh(out.poly))
    ensures ok ==> Empty(out.State()) || ShapeOf(Snap(out)) == ShapeAfter(ShapeOf(old(Snap(d))), st)
    ensures ok ==> forall c1, c2 ::
              Covered(old(Snap(d)), c1) && StmtStep(st, c1, c2) && StmtGuard(d.lib, old(Snap(d)), st, c1)
              ==> Covered(Snap(out), c2)
    ensures ok && Retired(old(d.idmap), old(d.victims)) ==>
              Retired(out.idmap, out.victims) && KeepsKnown(old(d.State()), out.State(), st)
    ensures ok ==> YieldsAt(d.lib, old(Snap(d)), st, old(d.gen.next), Snap(out))
  {
    hide Ppl.Lawful, Represents, Separate, BelowGuids, Gamma, PPLDomain.Valid, Admits, Plain, Retired, Sets, Moves,
         Leaves, Empty;
    ok, out := true, d;
    match st {
      case Enter(l) => out := d.OnLoopEntry(l);
      case Iterate(l) =>
        ok := Counter(l) in d.idmap;
        if ok { out := d.OnLoopIter(l); }
      case Leave(l, bound) =>
        ok, out := RunLeave(d, l, bound);
    }
    ValidPoly(out);
  }

  method RunLeave(d: PPLDomain, l: int, bound: CInt) returns (ok: bool, out: PPLDomain)
    requires d.Valid() && Plain(d.idmap)
    modifies d.gen
    ensures d.Valid() && d.gen.next >= old(d.gen.next)
    ensures ok <==> (bound >= 0 ==> Counter(l) in d.idmap)
    ensures out.Valid() && out.lib == d.lib && out.gen == d.gen && Plain(out.idmap)
    ensures (out == d && out.poly == d.poly) || (fresh(out) && fresh(out.poly))
    ensures ok ==> Empty(out.State()) || ShapeOf(Snap(out)) == ShapeAfter(ShapeOf(old(Snap(d))), Leave(l, bound))
    ensures out.compare == d.compare || out.compare == None
    ensures ok ==> forall env ::
              Gamma(old(d.State()), env) && Admits(bound, env(Counter(l))) ==> Gamma(out.State(), env)
    ensures Retired(old(d.idmap), old(d.victims)) ==> Retired(out.idmap, out.victims)
    ensures ok ==> YieldsAt(d.lib, old(Snap(d)), Leave(l, bound), old(d.gen.next), Snap(out))
  {
    ok, out := bound >= 0 ==> Counter(l) in d.idmap, d;
    if ok && bound >= 0 {
      out := d.OnLoopExit(l, bound);
    }
  }

  method RunInstruction(d: PPLDomain, i: Inst) returns (ok: bool, out: PPLDomain)
    requires d.Valid() && Plain(d.idmap)
    modifies d.gen
    ensures d.Valid() && d.gen.next >= old(d.gen.next)
    ensures ok <==> d.compare == None || i.NOP?
    ensures out.Valid() && out.lib == d.lib && out.gen == d.gen && Plain(out.idmap)
    ensures if ok then fresh(out) && fresh(out.poly) else out == d
    ensures ok ==> ShapeOf(Snap(out)) == ShapeAfter(ShapeOf(old(Snap(d))), Sem(i))
    ensures ok ==> forall c1, c2 ::
              Covered(old(Snap(d)), c1) && StmtStep(Sem(i), c1, c2) && StmtGuard(d.lib, old(Snap(d)), Sem(i), c1)
              ==> Covered(Snap(out), c2)
    ensures ok && Retired(old(d.idmap), old(d.victims)) ==>
              Retired(out.idmap, out.victims) && KeepsKnown(old(d.State()), out.State(), Sem(i))
    ensures ok ==> YieldsAt(d.lib, old(Snap(d)), Sem(i), old(d.gen.next), Snap(out))
  {
    hide Ppl.Lawful, Separate, Step, OperandsStep, MappedAfter, StepGuard;
    ok, out := d.compare == None || i.NOP?, d;
    if ok {
      out := d.OnSemInst(i);
      forall c1, c2 | Covered(old(Snap(d)), c1) && StmtStep(Sem(i), c1, c2)
          && StmtGuard(d.lib, old(Snap(d)), Sem(i), c1)
        ensures Covered(Snap(out), c2)
      {
        CoherentStep(i, c1.env, c1.ops, c2.env, c2.ops);
      }
    }
  }

  method RunBranch(d: PPLDomain, taken: bool) returns (ok: bool, out: PPLDomain)
    requires d.Valid() && Plain(d.idmap) && d.compare.Some?
    modifies d.gen
    ensures d.Valid() && d.gen.next >= old(d.gen.next)
    ensures ok <==> d.compare.value.reg in d.idmap
    ensures out.Valid() && out.lib == d.lib && out.gen == d.gen && Plain(out.idmap)
    ensures if ok then fresh(out) && fresh(out.poly) else out == d
    ensures ok ==> Empty(out.State()) || ShapeOf(Snap(out)) == ShapeAfter(ShapeOf(old(Snap(d))), Branch(taken))
    ensures ok ==> forall c1, c2 ::
              Covered(old(Snap(d)), c1) && StmtStep(Branch(taken), c1, c2)
                  && StmtGuard(d.lib, old(Snap(d)), Branch(taken), c1)
              ==> Covered(Snap(out), c2)
    ensures ok && Retired(old(d.idmap), old(d.victims)) ==>
              Retired(out.idmap, out.victims) && KeepsKnown(old(d.State()), out.State(), Branch(taken))
    ensures ok ==> YieldsAt(d.lib, old(Snap(d)), Branch(taken), old(d.gen.next), Snap(out))
  {
    hide Ppl.Lawful, Represents, Separate, BelowGuids, Decides, Holds, Branches, Gamma, Retired;
    ok, out := d.compare.value.reg in d.idmap, d;
    if ok {
      out := d.OnBranch(taken);
      forall c1, c2 | Covered(old(Snap(d)), c1) && StmtStep(Branch(taken), c1, c2)
          && StmtGuard(d.lib, old(Snap(d)), Branch(taken), c1)
        ensures Covered(Snap(out), c2)
      {
        var reg := c1.cmp.value.reg;
        assert reg == Reg(reg.id);
      }
    }
  }

  // ----- whole paths -----

  ghost predicate SoundStep(lib: Ppl, s: Snapshot, st: Stmt, t: Snapshot) {
    forall c1, c2 :: Covered(s, c1) && StmtStep(st, c1, c2) && StmtGuard(lib, s, st, c1) ==> Covered(t, c2)
  }

  // A concrete run along `prog`.
  ghost predicate RunsAlong(prog: seq<Stmt>, cs: seq<Conf>) {
    && |cs| == |prog| + 1
    && (forall k :: 0 <= k < |prog| ==> StmtStep(prog[k], cs[k], cs[k + 1]))
  }

  ghost predicate Guarded(lib: Ppl, states: seq<Snapshot>, prog: seq<Stmt>, cs: seq<Conf>)
    requires |states| == |cs| == |prog| + 1
  {
    forall k :: 0 <= k < |prog| ==> StmtGuard(lib, states[k], prog[k], cs[k])
  }

  // The abstract states cover every guarded run that starts in the first.
  ghost predicate CoversRuns(lib: Ppl, states: seq<Snapshot>, prog: seq<Stmt>) {
    && |states| == |prog| + 1
    && (forall cs: seq<Conf>, k ::
          RunsAlong(prog, cs) && Covered(states[0], cs[0]) && Guarded(lib, states, prog, cs) && 0 <= k < |cs|
          ==> Covered(states[k], cs[k]))
  }

  lemma {:induction false} PathCovered(lib: Ppl, states: seq<Snapshot>, prog: seq<Stmt>, cs: seq<Conf>, k: nat)
    requires |states| == |prog| + 1 && RunsAlong(prog, cs) && k < |cs|
    requires forall j :: 0 <= j < |prog| ==> SoundStep(lib, states[j], prog[j], states[j + 1])
    requires Covered(states[0], cs[0]) && Guarded(lib, states, prog, cs)
    ensures Covered(states[k], cs[k])
    decreases k
  {
    if k > 0 {
      PathCovered(lib, states, prog, cs, k - 1);
      assert SoundStep(lib, states[k - 1], prog[k - 1], states[k]);
      assert StmtStep(prog[k - 1], cs[k - 1], cs[k]);
    }
  }

  // The identifiers mapped and the filter pending in every state that is not
  // bottom are those the program text says.
  ghost predicate Shaped(states: seq<Snapshot>, sh: Shape, prog: seq<Stmt>)
    requires |states| <= |prog| + 1
  {
    forall k :: 0 <= k < |states| ==>
      states[k].state.poly.Ok() && (Empty(states[k].state) || ShapeOf(states[k]) == ShapeAt(sh, prog, k))
  }

  // Interpreting a path of any length.  It fails exactly when it reaches a
  // state, not bottom, whose next statement an assertion of the code rejects.
  method Run(d: PPLDomain, prog: seq<Stmt>) returns (ok: bool, out: PPLDomain, ghost states: seq<Snapshot>)
    requires d.Valid() && Plain(d.idmap)
    modifies d.gen
    ensures d.Valid()
    ensures 0 < |states| <= |prog| + 1 && states[0] == old(Snap(d))
    ensures Shaped(states, ShapeOf(old(Snap(d))), prog)
    ensures forall j :: 0 <= j < |states| - 1 ==> SoundStep(d.lib, states[j], prog[j], states[j + 1])
    ensures forall j :: 0 <= j < |states| - 1 ==> Yields(d.lib, states[j], prog[j], states[j + 1])
    ensures ok <==> |states| == |prog| + 1
    ensures
      var k := |states| - 1;
      !ok ==> !Empty(states[k].state) && !Accepts(ShapeAt(ShapeOf(old(Snap(d))), prog, k), prog[k])
    ensures forall k :: 0 <= k < |states| - 1 ==>
              Empty(states[k].state) || Accepts(ShapeAt(ShapeOf(old(Snap(d))), prog, k), prog[k])
    ensures WellFormed(ShapeOf(old(Snap(d))), prog) ==> ok
    ensures ok ==> out.Valid() && states[|prog|] == Snap(out)
    ensures ok ==> CoversRuns(d.lib, states, prog)
    ensures Retired(old(d.idmap), old(d.victims)) ==> Known(states, ShapeOf(old(Snap(d))), prog)
  {
    hide CoversRuns, Explored, Accepts, ShapeAfter, Empty, Gamma, Yields;
    ghost var sh := ShapeOf(Snap(d));
    var start := new PPLDomain.Copy(d);
    ok, out, states := Explore(start, prog);
    StillValid(d);
    ExploredMeans(d.lib, states, sh, prog);
    if ok {
      PathsCovered(d.lib, states, prog);
    }
  }

  method Explore(start: PPLDomain, prog: seq<Stmt>) returns (ok: bool, out: PPLDomain, ghost states: seq<Snapshot>)
    requires start.Valid() && Plain(start.idmap)
    modifies start, start.poly, start.gen
    ensures start.gen.next >= old(start.gen.next)
    ensures Reached(states, prog) && states[0] == old(Snap(start))
    ensures Explored(start.lib, states, ShapeOf(old(Snap(start))), prog)
    ensures ok <==> |states| == |prog| + 1
    ensures
      var k := |states| - 1;
      !ok ==> !Empty(states[k].state) && !Accepts(ShapeAt(ShapeOf(old(Snap(start))), prog, k), prog[k])
    ensures ok ==> out.Valid() && states[|prog|] == Snap(out)
    ensures Retired(old(start.idmap), old(start.victims)) ==> Known(states, ShapeOf(old(Snap(start))), prog)
  {
    hide SoundStep, Yields, Shaped, StmtStep, Accepts, ShapeAfter, Explored, Empty, Gamma, Plain, Known, KeepsKnown,
         Retired, Ppl.Lawful, Separate;
    ok := true;
    out := start;
    states := [Snap(out)];
    ghost var sh := ShapeOf(Snap(start));
    NothingExplored(start.lib, Snap(out), sh, prog);
    NothingKnown(Snap(out), sh, prog);
    var i := 0;
    while i < |prog|
      invariant 0 <= i <= |prog| && |states| == i + 1
      invariant (out == start || fresh(out)) && (out.poly == old(start.poly) || fresh(out.poly))
      invariant out.Valid() && out.lib == start.lib && out.gen == start.gen && Plain(out.idmap)
      invariant states[0] == old(Snap(start)) && states[i] == Snap(out) && Reached(states, prog)
      invariant Explored(start.lib, states, sh, prog) && start.gen.next >= old(start.gen.next)
      invariant Retired(old(start.idmap), old(start.victims)) ==>
                  Retired(out.idmap, out.victims) && Known(states, sh, prog)
    {
      ShapeThere(start.lib, states, sh, prog);
      ghost var before := Snap(out);
      ok, out := RunStmt(out, prog[i]);
      if !ok {
        return;
      }
      ExploredMore(start.lib, states, sh, prog, Snap(out));
      if Retired(old(start.idmap), old(start.victims)) {
        KnownMore(states, sh, prog, Snap(out));
      }
      states := states + [Snap(out)];
      i := i + 1;
    }
  }

  ghost predicate Reached(states: seq<Snapshot>, prog: seq<Stmt>) {
    0 < |states| <= |prog| + 1 && forall k :: 0 <= k < |states| ==> states[k].state.poly.Ok()
  }

  // The states reached so far: each has the shape the text says and covers
  // what its predecessor covered, and no assertion has failed.
  ghost predicate Explored(lib: Ppl, states: seq<Snapshot>, sh: Shape, prog: seq<Stmt>) {
    && Reached(states, prog) && Shaped(states, sh, prog)
    && (forall j :: 0 <= j < |states| - 1 ==> SoundStep(lib, states[j], prog[j], states[j + 1]))
    && (forall j :: 0 <= j < |states| - 1 ==> Yields(lib, states[j], prog[j], states[j + 1]))
    && (forall k :: 0 <= k < |states| - 1 ==> Empty(states[k].state) || Accepts(ShapeAt(sh, prog, k), prog[k]))
  }

  lemma NothingExplored(lib: Ppl, s: Snapshot, sh: Shape, prog: seq<Stmt>)
    requires s.state.poly.Ok() && sh == ShapeOf(s)
    ensures Explored(lib, [s], sh, prog)
  {
  }

  lemma ShapeThere(lib: Ppl, states: seq<Snapshot>, sh: Shape, prog: seq<Stmt>)
    requires Explored(lib, states, sh, prog)
    ensures
      var k := |states| - 1;
      states[k].state.poly.Ok() && (Empty(states[k].state) || ShapeOf(states[k]) == ShapeAt(sh, prog, k))
  {
  }

  lemma ExploredMore(lib: Ppl, states: seq<Snapshot>, sh: Shape, prog: seq<Stmt>, t: Snapshot)
    requires Explored(lib, states, sh, prog) && |states| <= |prog| && t.state.poly.Ok()
    requires
      var k := |states| - 1;
      && states[k].state.poly.Ok()
      && (Empty(states[k].state) || Accepts(ShapeOf(states[k]), prog[k]))
      && (Empty(states[k].state) ==> Empty(t.state))
      && (Empty(t.state) || ShapeOf(t) == ShapeAfter(ShapeOf(states[k]), prog[k]))
      && SoundStep(lib, states[k], prog[k], t) && Yields(lib, states[k], prog[k], t)
    ensures Explored(lib, states + [t], sh, prog)
  {
    hide SoundStep, Yields, Empty, Accepts, ShapeAfter, ShapeOf;
    ShapedMore(states, sh, prog, t);
    hide Shaped;
    var k, more := |states| - 1, states + [t];
    forall j | 0 <= j <= k
      ensures SoundStep(lib, more[j], prog[j], more[j + 1]) && Yields(lib, more[j], prog[j], more[j + 1])
      ensures more[j].Ok() && (Empty(more[j].state) || Accepts(ShapeAt(sh, prog, j), prog[j]))
    {
    }
  }

  lemma ShapedMore(states: seq<Snapshot>, sh: Shape, prog: seq<Stmt>, t: Snapshot)
    requires 0 < |states| <= |prog| && Shaped(states, sh, prog) && t.Ok()
    requires
      var k := |states| - 1;
      && states[k].Ok() && (Empty(states[k].state) ==> Empty(t.state))
      && (Empty(t.state) || ShapeOf(t) == ShapeAfter(ShapeOf(states[k]), prog[k]))
    ensures Shaped(states + [t], sh, prog)
    ensures
      var k := |states| - 1;
      Empty(states[k].state) || ShapeOf(states[k]) == ShapeAt(sh, prog, k)
  {
    hide Empty, ShapeAfter, ShapeOf;
  }

  lemma NothingKnown(s: Snapshot, sh: Shape, prog: seq<Stmt>)
    requires s.state.poly.Ok()
    ensures Known([s], sh, prog)
  {
  }

  lemma KnownMore(states: seq<Snapshot>, sh: Shape, prog: seq<Stmt>, t: Snapshot)
    requires 0 < |states| <= |prog| && Known(states, sh, prog)
    requires
      var k := |states| - 1;
      && states[k].state.poly.Ok() && t.state.poly.Ok()
      && KeepsKnown(states[k].state, t.state, prog[k])
      && (Empty(states[k].state) ==> Empty(t.state))
      && (Empty(states[k].state) || ShapeOf(states[k]) == ShapeAt(sh, prog, k))
    ensures Known(states + [t], sh, prog)
  {
    var k := |states| - 1;
    assert PinnedBy(states[k].state, KnownAt(sh, prog, k));
    hide KnownAfter;
    assert PinnedBy(t.state, KnownAt(sh, prog, k + 1));
  }

  lemma ExploredMeans(lib: Ppl, states: seq<Snapshot>, sh: Shape, prog: seq<Stmt>)
    requires Explored(lib, states, sh, prog)
    ensures 0 < |states| <= |prog| + 1 && Shaped(states, sh, prog)
    ensures forall j :: 0 <= j < |states| - 1 ==> SoundStep(lib, states[j], prog[j], states[j + 1])
    ensures forall j :: 0 <= j < |states| - 1 ==> Yields(lib, states[j], prog[j], states[j + 1])
    ensures forall k :: 0 <= k < |states| - 1 ==> Empty(states[k].state) || Accepts(ShapeAt(sh, prog, k), prog[k])
  {
  }

  // ----- programs checked in advance -----

  // Every register that is read is mapped, or nothing is claimed of the
  // destination.
  predicate Reads(sh: Shape, st: Stmt) {
    match st
    case Sem(SETP(d)) => Reg(d) !in sh.keys
    case Sem(NOT(d, _)) => Reg(d) !in sh.keys
    case Sem(SET(d, a)) => Reg(a) in sh.keys || Reg(d) !in sh.keys
    case Sem(BIN(_, d, a, b)) => (Reg(a) in sh.keys && Reg(b) in sh.keys) || Reg(d) !in sh.keys
    case _ => true
  }

  predicate ReadsMapped(sh: Shape, prog: seq<Stmt>) {
    forall k :: 0 <= k < |prog| ==> Reads(ShapeAt(sh, prog, k), prog[k])
  }

  // What remains to be asked of the values: the operands of shifts, high
  // products and unsigned comparisons, the counter at a loop exit.
  ghost predicate ValueGuard(lib: Ppl, s: Snapshot, st: Stmt, c: Conf) {
    match st
    case Sem(BIN(op, _, a, b)) =>
      Reg(a) in s.state.idmap && Reg(b) in s.state.idmap ==>
        && (op == SHL || op == SHR || op == ASR ==> c.env(Reg(b)) >= 0)
        && Exact(op, c.env(Reg(a)), c.env(Reg(b)),
                 OperandConstant(lib, s.state, Reg(a)), OperandConstant(lib, s.state, Reg(b)))
    case Sem(_) => true
    case _ => StmtGuard(lib, s, st, c)
  }

  lemma GuardFromText(lib: Ppl, s: Snapshot, sh: Shape, st: Stmt, c: Conf)
    requires ShapeOf(s) == sh && Reads(sh, st) && ValueGuard(lib, s, st, c)
    ensures StmtGuard(lib, s, st, c)
  {
  }

  ghost predicate ValueGuarded(lib: Ppl, states: seq<Snapshot>, prog: seq<Stmt>, cs: seq<Conf>)
    requires |states| == |cs| == |prog| + 1
  {
    forall k :: 0 <= k < |prog| ==> ValueGuard(lib, states[k], prog[k], cs[k])
  }

  // Every concrete run with acceptable values stays covered.
  lemma {:induction false} CheckedPathCovered(lib: Ppl, states: seq<Snapshot>, sh: Shape, prog: seq<Stmt>,
                                              cs: seq<Conf>, k: nat)
    requires |states| == |prog| + 1 && RunsAlong(prog, cs) && k < |cs|
    requires Shaped(states, sh, prog) && ReadsMapped(sh, prog)
    requires forall j :: 0 <= j < |prog| ==> SoundStep(lib, states[j], prog[j], states[j + 1])
    requires Covered(states[0], cs[0]) && ValueGuarded(lib, states, prog, cs)
    ensures Covered(states[k], cs[k])
    decreases k
  {
    if k > 0 {
      var j := k - 1;
      CheckedPathCovered(lib, states, sh, prog, cs, j);
      CoveredNotEmpty(states[j], cs[j]);
      hide Covered, StmtStep, StmtGuard, ValueGuard, Reads;
      GuardFromText(lib, states[j], ShapeAt(sh, prog, j), prog[j], cs[j]);
      assert SoundStep(lib, states[j], prog[j], states[k]);
      assert StmtStep(prog[j], cs[j], cs[k]);
    }
  }

  lemma CoveredNotEmpty(s: Snapshot, c: Conf)
    requires Covered(s, c)
    ensures !Empty(s.state)
  {
  }

  // A program that takes back edges and exits inside its loops, branches on
  // mapped registers only, and reads registers that are mapped at the start or
  // written before: interpreting it never fails, and covers every run.
  method RunChecked(d: PPLDomain, prog: seq<Stmt>) returns (out: PPLDomain, ghost states: seq<Snapshot>)
    requires d.Valid() && Plain(d.idmap)
    requires WellFormed(ShapeOf(Snap(d)), prog) && ReadsMapped(ShapeOf(Snap(d)), prog)
    modifies d.gen
    ensures d.Valid()
    ensures out.Valid() && |states| == |prog| + 1 && states[0] == old(Snap(d)) && states[|prog|] == Snap(out)
    ensures Shaped(states, ShapeOf(old(Snap(d))), prog)
    ensures forall j :: 0 <= j < |prog| ==> SoundStep(d.lib, states[j], prog[j], states[j + 1])
    ensures forall j :: 0 <= j < |prog| ==> Yields(d.lib, states[j], prog[j], states[j + 1])
    ensures forall cs: seq<Conf>, k ::
              && RunsAlong(prog, cs) && Covered(states[0], cs[0])
              && ValueGuarded(d.lib, states, prog, cs) && 0 <= k < |cs|
              ==> Covered(states[k], cs[k])
    ensures Retired(old(d.idmap), old(d.victims)) ==> Known(states, ShapeOf(old(Snap(d))), prog)
  {
    hide WellFormed, ReadsMapped, CoversRuns, ValueGuard, StmtStep, Covered, Accepts, Reads, Shaped, Yields;
    ghost var sh := ShapeOf(Snap(d));
    var ok;
    ok, out, states := Run(d, prog);
    forall cs: seq<Conf>, k | && RunsAlong(prog, cs) && Covered(states[0], cs[0])
                              && ValueGuarded(d.lib, states, prog, cs) && 0 <= k < |cs|
      ensures Covered(states[k], cs[k])
    {
      CheckedPathCovered(d.lib, states, sh, prog, cs, k);
    }
  }

  lemma PathsCovered(lib: Ppl, states: seq<Snapshot>, prog: seq<Stmt>)
    requires |states| == |prog| + 1
    requires forall j :: 0 <= j < |prog| ==> SoundStep(lib, states[j], prog[j], states[j + 1])
    ensures CoversRuns(lib, states, prog)
  {
    forall cs: seq<Conf>, k | RunsAlong(prog, cs) && Covered(states[0], cs[0]) && Guarded(lib, states, prog, cs)
        && 0 <= k < |cs|
      ensures Covered(states[k], cs[k])
    {
      PathCovered(lib, states, prog, cs, k);
    }
  }

  // ----- loop counters -----

  // The back edges of loop `l` taken since it was last entered, and whether
  // it was entered at all, in the first `k` steps.
  ghost function BackEdges(prog: seq<Stmt>, k: nat, l: int): nat
    requires k <= |prog|
  {
    if k == 0 then 0
    else if prog[k - 1] == Enter(l) then 0
    else BackEdges(prog, k - 1, l) + if prog[k - 1] == Iterate(l) then 1 else 0
  }

  ghost predicate Entered(prog: seq<Stmt>, k: nat, l: int)
    requires k <= |prog|
  {
    exists j :: 0 <= j < k && prog[j] == Enter(l)
  }

  // The virtual counter is the number of back edges.
  lemma {:induction false} CounterCounts(prog: seq<Stmt>, cs: seq<Conf>, k: nat, l: int)
    requires RunsAlong(prog, cs) && k <= |prog| && Entered(prog, k, l)
    ensures cs[k].env(Counter(l)) == BackEdges(prog, k, l)
    decreases k
  {
    var st := prog[k - 1];
    assert StmtStep(st, cs[k - 1], cs[k]);
    if st != Enter(l) {
      assert Entered(prog, k - 1, l);
      CounterCounts(prog, cs, k - 1, l);
    }
  }

  // A bound read off a state that covers the run after `k` steps is at least
  // the number of back edges taken; and leaving the loop under that bound, cut
  // to a C `int`, excludes no run.  Each holds when the words keep the
  // maximum, and `BoundExact` and `ExitExact` say that this is exact.
  lemma BoundCoversRun(lib: Ppl, s: Snapshot, prog: seq<Stmt>, cs: seq<Conf>, k: nat, l: int)
    requires lib.Lawful() && k <= |prog| && RunsAlong(prog, cs) && Covered(s, cs[k])
    requires Entered(prog, k, l) && Counter(l) in s.state.idmap
    ensures
      var hi := UpperBound(lib, s.state.poly, s.state.idmap[Counter(l)].g);
      var bound := BoundOf(hi);
      && (Kept(hi) ==> bound == UNBOUNDED || BackEdges(prog, k, l) <= bound)
      && (KeptAtExit(hi) ==> StmtGuard(lib, s, Leave(l, CutInt(bound)), cs[k]))
  {
    CounterCounts(prog, cs, k, l);
    CountCovered(lib, s.state, Counter(l), cs[k].env);
  }

  // So it is in every state of a path, for every guarded run along it.
  lemma LoopBoundSound(lib: Ppl, states: seq<Snapshot>, prog: seq<Stmt>, cs: seq<Conf>, k: nat, l: int)
    requires lib.Lawful() && CoversRuns(lib, states, prog) && k <= |prog|
    requires RunsAlong(prog, cs) && Covered(states[0], cs[0]) && Guarded(lib, states, prog, cs)
    requires Entered(prog, k, l) && Counter(l) in states[k].state.idmap
    ensures states[k].state.poly.Ok()
    ensures
      var hi := UpperBound(lib, states[k].state.poly, states[k].state.idmap[Counter(l)].g);
      var bound := BoundOf(hi);
      && (Kept(hi) ==> bound == UNBOUNDED || BackEdges(prog, k, l) <= bound)
      && (KeptAtExit(hi) ==> StmtGuard(lib, states[k], Leave(l, CutInt(bound)), cs[k]))
  {
    assert Covered(states[k], cs[k]);
    BoundCoversRun(lib, states[k], prog, cs, k, l);
  }
}
