/**
 * Straight-line code: a condition on the abstract state alone under which an
 * instruction is interpreted soundly, the runs it covers, and what happens
 * when an operand is not mapped.
 */
module StraightLines {
  import opened LinearExpressions
  import opened Polyhedra
  import opened SparsePolyhedra
  import opened Mappings
  import opened AbstractStates
  import opened Instructions
  import opened Transfers
  import opened Domains
  import opened Runs
  import opened Words
  import opened WPolys

  // What can be read off the state before interpreting an instruction: its
  // operands are mapped, a left shift is by a known amount below 31, and the
  // operands of an unsigned comparison are known to be unsigned words.
  predicate Straight(lib: Ppl, s: AState, i: Inst) {
    match i
    case SETP(d) => Reg(d) !in s.idmap
    case NOT(d, _) => Reg(d) !in s.idmap
    case SET(d, a) => Reg(a) in s.idmap || Reg(d) !in s.idmap
    case BIN(op, d, a, b) =>
      if Reg(a) in s.idmap && Reg(b) in s.idmap then
        && op != SHR && op != ASR && op != MULH
        && (op == SHL ==> SmallShift(OperandConstant(lib, s, Reg(b))))
        && (op == CMPU ==> KnownWord(lib, s.poly, s.idmap[Reg(a)].g) && KnownWord(lib, s.poly, s.idmap[Reg(b)].g))
      else Reg(d) !in s.idmap
    case _ => true
  }

  predicate SmallShift(k: Option<Fraction>) {
    Whole(k) && 0 <= k.value.num < 31
  }

  // The extrema of a variable lie between 0 and 2^32.
  predicate KnownWord(lib: Ppl, s: Sparse, g: nat) {
    && g in s.adapter
    && lib.minimize(s.poly, Var(s.adapter[g])).Some? && lib.maximize(s.poly, Var(s.adapter[g])).Some?
    && lib.minimize(s.poly, Var(s.adapter[g])).value.num >= 0
    && lib.maximize(s.poly, Var(s.adapter[g])).value.num < TWO32 * lib.maximize(s.poly, Var(s.adapter[g])).value.den
  }

  lemma KnownWordMeans(lib: Ppl, s: Sparse, g: nat, v: Valuation, a: int)
    requires lib.Lawful() && s.Ok() && Has(s, v) && KnownWord(lib, s, g) && v(g) == a as real
    ensures 0 <= a < TWO32
  {
    var lo, hi := lib.minimize(s.poly, Var(s.adapter[g])).value, lib.maximize(s.poly, Var(s.adapter[g])).value;
    BoundMeans(lib, s, g, lo, false, v);
    BoundMeans(lib, s, g, hi, true, v);
    TimesCast(a, lo.den);
    TimesCast(a, hi.den);
    BetweenWords(a, lo.den, lo.num, hi.den, hi.num);
  }

  lemma BetweenWords(a: int, d: int, lo: int, e: int, hi: int)
    requires d > 0 && e > 0 && lo >= 0 && a * d >= lo && a * e <= hi && hi < TWO32 * e
    ensures 0 <= a < TWO32
  {
    if a < 0 {
      MulOrder(a, -1, d);
    } else if a >= TWO32 {
      MulOrder(TWO32, a, e);
    }
  }

  // Source and destination may coincide.
  lemma StraightIsGuarded(lib: Ppl, s: AState, i: Inst, env: Env)
    requires lib.Lawful() && s.poly.Ok() && Straight(lib, s, i) && Gamma(s, env)
    ensures StepGuard(lib, s, i, env)
  {
    if i.BIN? && Reg(i.a) in s.idmap && Reg(i.b) in s.idmap {
      var v: Valuation :| Has(s.poly, v) && Represents(s.idmap, v, env);
      OperandsKnown(lib, s, Reg(i.a), Reg(i.b), v, env);
      hide Gamma, Has, Ppl.Lawful, KnownWord;
    }
  }

  // What the extrema say of the concrete operands.
  lemma OperandsKnown(lib: Ppl, s: AState, id1: Ident, id2: Ident, v: Valuation, env: Env)
    requires lib.Lawful() && s.poly.Ok() && id1 in s.idmap && id2 in s.idmap
    requires Has(s.poly, v) && Represents(s.idmap, v, env)
    ensures KnownAs(OperandConstant(lib, s, id2), env(id2))
    ensures KnownWord(lib, s.poly, s.idmap[id1].g) && KnownWord(lib, s.poly, s.idmap[id2].g) ==>
              SameBlock(env(id1), env(id2))
  {
    KnownOperand(lib, s, id2, v, env);
    if KnownWord(lib, s.poly, s.idmap[id1].g) && KnownWord(lib, s.poly, s.idmap[id2].g) {
      KnownWordMeans(lib, s.poly, s.idmap[id1].g, v, env(id1));
      KnownWordMeans(lib, s.poly, s.idmap[id2].g, v, env(id2));
    }
  }

  // A path of instructions, temporary killing and finalisation, each
  // instruction straight in the state it is interpreted in.
  ghost predicate StraightPath(lib: Ppl, states: seq<Snapshot>, prog: seq<Stmt>) {
    && |states| == |prog| + 1
    && (forall k :: 0 <= k < |prog| ==>
          prog[k].KillTemporaries? || prog[k].Finalize? || (prog[k].Sem? && Straight(lib, states[k].state, prog[k].i)))
  }

  // Whatever its length, the register file stays covered all along.
  lemma {:induction false} StraightPathCovered(lib: Ppl, states: seq<Snapshot>, prog: seq<Stmt>, cs: seq<Conf>, k: nat)
    requires lib.Lawful() && StraightPath(lib, states, prog) && RunsAlong(prog, cs) && k < |cs|
    requires forall j :: 0 <= j < |prog| ==> SoundStep(lib, states[j], prog[j], states[j + 1])
    requires Covered(states[0], cs[0])
    ensures Covered(states[k], cs[k])
  {
    if k > 0 {
      var j := k - 1;
      StraightPathCovered(lib, states, prog, cs, j);
      if prog[j].Sem? {
        StraightIsGuarded(lib, states[j].state, prog[j].i, cs[j].env);
      }
      assert StmtGuard(lib, states[j], prog[j], cs[j]);
      assert SoundStep(lib, states[j], prog[j], states[k]);
      assert StmtStep(prog[j], cs[j], cs[k]);
    }
  }

  // ----- straight-line code, read off its text -----

  predicate Simple(st: Stmt) {
    match st
    case Sem(BIN(op, _, _, _)) => op == ADD || op == SUB || op == CMP || op == MUL || op == AND || op == OR || op == XOR
    case Sem(_) => true
    case Leave(_, _) => false
    case Branch(_) => false
    case _ => true
  }

  // A left shift by a register that was last set to a constant below 31.
  predicate ConstantShift(m: map<Ident, int>, st: Stmt) {
    match st
    case Sem(BIN(SHL, _, _, b)) => Reg(b) in m && 0 <= m[Reg(b)] < 31
    case _ => false
  }

  // Operations without conditions on their operands, left shifts by constants,
  // back edges inside their loops, and no register read before it is mapped.
  predicate SimpleText(sh: Shape, prog: seq<Stmt>) {
    && WellFormed(sh, prog) && ReadsMapped(sh, prog)
    && forall k :: 0 <= k < |prog| ==> Simple(prog[k]) || ConstantShift(KnownAt(sh, prog, k), prog[k])
  }

  predicate NoShifts(prog: seq<Stmt>) {
    forall k :: 0 <= k < |prog| ==> Simple(prog[k])
  }

  // Such a program is interpreted to its end, and every run is covered all
  // along, without any further condition.  For the shifts the library must
  // find constants, and no scheduled variable may be mapped at the start.
  method RunSimple(d: PPLDomain, prog: seq<Stmt>) returns (out: PPLDomain, ghost states: seq<Snapshot>)
    requires d.Valid() && Plain(d.idmap) && SimpleText(ShapeOf(Snap(d)), prog)
    requires NoShifts(prog) || (FindsConstants(d.lib) && Retired(d.idmap, d.victims))
    modifies d.gen
    ensures d.Valid()
    ensures out.Valid() && |states| == |prog| + 1 && states[0] == old(Snap(d)) && states[|prog|] == Snap(out)
    ensures Shaped(states, ShapeOf(old(Snap(d))), prog)
    ensures forall j :: 0 <= j < |prog| ==> Yields(d.lib, states[j], prog[j], states[j + 1])
    ensures Retired(old(d.idmap), old(d.victims)) ==> Known(states, ShapeOf(old(Snap(d))), prog)
    ensures forall cs: seq<Conf>, k :: RunsAlong(prog, cs) && Covered(states[0], cs[0]) && 0 <= k < |cs| ==>
              Covered(states[k], cs[k])
  {
    ghost var sh := ShapeOf(Snap(d));
    hide WellFormed, ReadsMapped, Covered, StmtStep, Shaped, Yields;
    out, states := RunChecked(d, prog);
    forall cs: seq<Conf>, k | RunsAlong(prog, cs) && Covered(states[0], cs[0]) && 0 <= k < |cs|
      ensures Covered(states[k], cs[k])
    {
      SimplePathCovered(d.lib, states, sh, prog, cs, k);
    }
  }

  lemma {:induction false} SimplePathCovered(lib: Ppl, states: seq<Snapshot>, sh: Shape, prog: seq<Stmt>,
                                             cs: seq<Conf>, k: nat)
    requires |states| == |prog| + 1 && RunsAlong(prog, cs) && k < |cs| && Covered(states[0], cs[0])
    requires Shaped(states, sh, prog) && SimpleText(sh, prog)
    requires NoShifts(prog) || (FindsConstants(lib) && Known(states, sh, prog))
    requires forall j :: 0 <= j < |prog| ==> SoundStep(lib, states[j], prog[j], states[j + 1])
    ensures Covered(states[k], cs[k])
    decreases k
  {
    if k > 0 {
      var j := k - 1;
      SimplePathCovered(lib, states, sh, prog, cs, j);
      CoveredNotEmpty(states[j], cs[j]);
      var m := KnownAt(sh, prog, j);
      assert NoShifts(prog) || PinnedBy(states[j].state, m);
      assert Simple(prog[j]) || ConstantShift(m, prog[j]);
      assert Reads(ShapeAt(sh, prog, j), prog[j]);
      assert StmtStep(prog[j], cs[j], cs[k]);
      assert SoundStep(lib, states[j], prog[j], states[k]);
      hide Covered, StmtStep, StmtGuard, ValueGuard, Reads, Simple, ConstantShift, PinnedBy;
      SimpleGuard(lib, states[j], prog[j], m, cs[j]);
      GuardFromText(lib, states[j], ShapeAt(sh, prog, j), prog[j], cs[j]);
    }
  }

  lemma SimpleGuard(lib: Ppl, s: Snapshot, st: Stmt, m: map<Ident, int>, c: Conf)
    requires Covered(s, c)
    requires Simple(st) || (ConstantShift(m, st) && FindsConstants(lib) && PinnedBy(s.state, m))
    ensures ValueGuard(lib, s, st, c)
  {
    if !Simple(st) {
      var b := Reg(st.i.b);
      CoveredNotEmpty(s, c);
      PinnedIsKnown(lib, s.state, b, m[b]);
      var v: Valuation :| Has(s.state.poly, v) && Represents(s.state.idmap, v, c.env);
      assert c.env(b) as real == m[b] as real;
      assert c.env(b) == m[b];
      hide FindsConstants, Gamma, Pinned, Represents;
    }
  }

  // ----- operands that are not mapped -----

  // The code only warns and leaves the state as it is, so a mapped
  // destination keeps its old value; and the page and complement instructions
  // always leave the state as it is.

  // The state says nothing about a register.
  ghost predicate Ignores(s: AState, id: Ident)
    requires s.poly.Ok()
  {
    forall env1, env2, x :: Gamma(s, env1) && Assigned(env1, id, x, env2) ==> Gamma(s, env2)
  }

  // Leaving the state as it is covers the instruction.
  ghost predicate SoundUnchanged(s: AState, i: Inst)
    requires s.poly.Ok()
  {
    forall env1, env2 :: Gamma(s, env1) && Step(i, env1, env2) ==> Gamma(s, env2)
  }

  ghost function With(env: Env, id: Ident, x: int): Env {
    i => if i == id then x else env(i)
  }

  // The operand's value, when the state knows one.
  ghost predicate ValueOfOperand(s: AState, r: int, env: Env, y: int) {
    Reg(r) in s.idmap ==> y == env(Reg(r))
  }

  // The results an instruction can yield from an environment, when the
  // operands that are not mapped may have any value.
  ghost predicate CanYield(s: AState, i: Inst, env: Env, x: int) {
    match i
    case SETP(_) => true
    case SCRATCH(_) => true
    case SETI(_, cst) => x == cst
    case SET(_, a) => ValueOfOperand(s, a, env, x)
    case NOT(_, a) => ValueOfOperand(s, a, env, -x - 1)
    case BIN(op, _, a, b) => exists y, z :: YieldsFrom(s, op, a, b, env, y, z, x)
    case _ => false
  }

  ghost predicate YieldsFrom(s: AState, op: BinOp, a: int, b: int, env: Env, y: int, z: int, x: int) {
    && ValueOfOperand(s, a, env, y) && ValueOfOperand(s, b, env, z)
    && (a == b ==> y == z) && Result(op, y, z, x)
  }

  // The state covers every result.
  ghost predicate CoversResults(s: AState, i: Inst)
    requires s.poly.Ok() && Destination(i).Some?
  {
    forall env1, env2, x ::
      Gamma(s, env1) && CanYield(s, i, env1, x) && Assigned(env1, Reg(Destination(i).value), x, env2) ==> Gamma(s, env2)
  }

  // An environment that agrees on what is mapped and takes the step.
  lemma YieldingStep(s: AState, i: Inst, env: Env, x: int) returns (f: Env)
    requires Destination(i).Some? && CanYield(s, i, env, x)
    ensures forall id :: id in s.idmap ==> f(id) == env(id)
    ensures Step(i, f, With(f, Reg(Destination(i).value), x))
  {
    f := env;
    match i {
      case SET(_, a) => f := With(env, Reg(a), x);
      case NOT(_, a) => f := With(env, Reg(a), -x - 1);
      case BIN(op, _, a, b) =>
        var y, z :| YieldsFrom(s, op, a, b, env, y, z, x);
        f := With(With(env, Reg(a), y), Reg(b), z);
        assert Result(op, f(Reg(a)), f(Reg(b)), x);
      case _ =>
    }
    assert Assigned(f, Reg(Destination(i).value), x, With(f, Reg(Destination(i).value), x));
  }

  // Leaving the state as it is, whatever the instruction that writes a
  // register, is sound if and only if the state covers every result that the
  // instruction can yield there.
  lemma UnchangedExact(s: AState, i: Inst)
    requires s.poly.Ok() && Destination(i).Some?
    ensures SoundUnchanged(s, i) <==> CoversResults(s, i)
  {
    var d := Reg(Destination(i).value);
    if SoundUnchanged(s, i) {
      forall env1, env2, x | Gamma(s, env1) && CanYield(s, i, env1, x) && Assigned(env1, d, x, env2)
        ensures Gamma(s, env2)
      {
        var f := YieldingStep(s, i, env1, x);
        ThroughStep(s, i, env1, f, x, env2);
      }
    }
    if CoversResults(s, i) {
      forall env1, env2 | Gamma(s, env1) && Step(i, env1, env2)
        ensures Gamma(s, env2)
      {
        StepYields(s, i, env1, env2);
      }
    }
  }

  lemma StepYields(s: AState, i: Inst, env1: Env, env2: Env)
    requires Destination(i).Some? && Step(i, env1, env2)
    ensures var d := Reg(Destination(i).value); CanYield(s, i, env1, env2(d)) && Assigned(env1, d, env2(d), env2)
  {
    if i.BIN? {
      assert YieldsFrom(s, i.op, i.a, i.b, env1, env1(Reg(i.a)), env1(Reg(i.b)), env2(Reg(i.d)));
    }
  }

  // Changing what is not mapped, stepping, and changing it back.
  lemma ThroughStep(s: AState, i: Inst, env1: Env, f: Env, x: int, env2: Env)
    requires s.poly.Ok() && SoundUnchanged(s, i) && Gamma(s, env1)
    requires Destination(i).Some? && Assigned(env1, Reg(Destination(i).value), x, env2)
    requires forall id :: id in s.idmap ==> f(id) == env1(id)
    requires Step(i, f, With(f, Reg(Destination(i).value), x))
    ensures Gamma(s, env2)
  {
    var g := With(f, Reg(Destination(i).value), x);
    GammaAgree(s, env1, f);
    assert forall id :: id in s.idmap ==> g(id) == env2(id);
    GammaAgree(s, g, env2);
  }

  // The instructions whose result can be anything.
  predicate Stale(s: AState, i: Inst) {
    match i
    case SETP(_) => true
    case NOT(_, a) => Reg(a) !in s.idmap
    case SET(_, a) => Reg(a) !in s.idmap
    case BIN(op, _, a, b) =>
      && (Reg(a) !in s.idmap || Reg(b) !in s.idmap)
      && (match op
          case ADD => a != b
          case SUB => a != b
          case CMP => a != b
          case AND => true
          case OR => true
          case XOR => true
          case SHL => Reg(b) !in s.idmap
          case SHR => Reg(b) !in s.idmap
          case ASR => Reg(b) !in s.idmap
          case _ => false)
    case _ => false
  }

  lemma StaleYields(s: AState, i: Inst, env: Env, x: int)
    requires Stale(s, i)
    ensures CanYield(s, i, env, x)
  {
    if i.BIN? {
      var y, z := env(Reg(i.a)), env(Reg(i.b));
      if i.op == ADD || i.op == SUB || i.op == CMP {
        if Reg(i.a) !in s.idmap {
          y := if i.op == ADD then x - z else x + z;
        } else {
          z := if i.op == ADD then x - y else y - x;
        }
      } else if i.op == SHL || i.op == SHR || i.op == ASR {
        z := -1;
        y := if i.a == i.b then -1 else y;
      }
      assert YieldsFrom(s, i.op, i.a, i.b, env, y, z, x);
    }
  }

  // For them the interpretation is sound if and only if the state says nothing
  // about the destination.
  lemma StaleExact(s: AState, i: Inst)
    requires s.poly.Ok() && Stale(s, i)
    ensures SoundUnchanged(s, i) <==> Ignores(s, Reg(i.d))
  {
    UnchangedExact(s, i);
    forall env, x
      ensures CanYield(s, i, env, x)
    {
      StaleYields(s, i, env, x);
    }
  }

  // Whatever the instruction, it is sound if the state says nothing about the
  // register it writes.
  lemma IgnoredIsSound(s: AState, i: Inst)
    requires s.poly.Ok() && Destination(i).Some? && Ignores(s, Reg(Destination(i).value))
    ensures SoundUnchanged(s, i)
  {
    var d := Reg(Destination(i).value);
    forall env1, env2 | Gamma(s, env1) && Step(i, env1, env2)
      ensures Gamma(s, env2)
    {
      var x := env2(d);
      assert Assigned(env1, d, x, env2);
    }
  }

  // And it says nothing about a register whose variable is not tracked.
  lemma UntrackedIsIgnored(s: AState, id: Ident)
    requires s.poly.Ok() && Separate(s.idmap) && (id in s.idmap ==> s.idmap[id].g !in s.poly.adapter)
    ensures Ignores(s, id)
  {
    forall env1, env2, x | Gamma(s, env1) && Assigned(env1, id, x, env2)
      ensures Gamma(s, env2)
    {
      var v: Valuation :| Has(s.poly, v) && Represents(s.idmap, v, env1);
      var w := if id in s.idmap then Update(v, s.idmap[id].g, x as real) else v;
      HasAgree(s.poly, v, w);
      assert Represents(s.idmap, w, env2);
    }
  }

  // An unsigned comparison can only yield differences of words.  With an
  // operand that is not mapped these are the ones it can yield, and the state
  // has to cover just those.
  predicate DifferenceOfWords(s: AState, a: int, b: int, env: Env, x: int) {
    if Reg(b) in s.idmap then 0 <= x + Unsigned(env(Reg(b))) < TWO32
    else if Reg(a) in s.idmap then 0 <= Unsigned(env(Reg(a))) - x < TWO32
    else -TWO32 < x < TWO32
  }

  lemma UnsignedYields(s: AState, d: int, a: int, b: int, env: Env, x: int)
    requires a != b && (Reg(a) !in s.idmap || Reg(b) !in s.idmap)
    ensures CanYield(s, BIN(CMPU, d, a, b), env, x) <==> DifferenceOfWords(s, a, b, env, x)
  {
    if DifferenceOfWords(s, a, b, env, x) {
      var y, z := env(Reg(a)), env(Reg(b));
      if Reg(b) in s.idmap {
        y := x + Unsigned(z);
      } else if Reg(a) in s.idmap {
        z := Unsigned(y) - x;
      } else {
        y, z := if x >= 0 then x else 0, if x >= 0 then 0 else -x;
      }
      assert YieldsFrom(s, CMPU, a, b, env, y, z, x);
    }
  }

  // A product with one operand that is not mapped yields the multiples of the
  // other.
  lemma ProductYields(s: AState, d: int, a: int, b: int, env: Env, x: int)
    requires Reg(a) !in s.idmap && Reg(b) in s.idmap
    ensures
      var m := env(Reg(b));
      CanYield(s, BIN(MUL, d, a, b), env, x) <==> if m == 0 then x == 0 else x % m == 0
  {
    var m := env(Reg(b));
    if CanYield(s, BIN(MUL, d, a, b), env, x) {
      var y, z :| YieldsFrom(s, MUL, a, b, env, y, z, x);
      MultipleDivides(y, m);
    }
    if m != 0 && x % m == 0 {
      assert YieldsFrom(s, MUL, a, b, env, x / m, m, x);
    }
    if m == 0 && x == 0 {
      assert YieldsFrom(s, MUL, a, b, env, 0, 0, 0);
    }
  }

  lemma MultipleDivides(y: int, m: int)
    ensures if m == 0 then y * m == 0 else (y * m) % m == 0
  {
    if m != 0 {
      var q, r := (y * m) / m, (y * m) % m;
      assert y * m == m * q + r;
      assert r == m * (y - q);
      SmallMultiple(m, y - q, r);
    }
  }

  lemma SmallMultiple(m: int, k: int, r: int)
    requires m != 0 && r == m * k && 0 <= r < if m < 0 then -m else m
    ensures r == 0
  {
    if k >= 1 {
      MulOrder(1, k, if m < 0 then -m else m);
    } else if k <= -1 {
      MulOrder(k, -1, if m < 0 then -m else m);
    }
  }

  // A state in which it is not: r0 is zero, and r1, which is not mapped, is
  // moved into it.
  function Zero(): AState { Single(0) }

  // The state in which r0 is `n`.
  function Single(n: int): AState {
    AState(Sparse(map[0 := 0], Poly(1, iset{[n as real]})), map[Reg(0) := IdVal(0, NO_STEP)])
  }

  lemma SingleIsPolyhedron(n: int)
    ensures Single(n).poly.Ok()
  {
    var p := Single(n).poly.poly;
    var c := EqCons(Var(0), Constant(n));
    MinusVars(Var(0), Constant(n));
    hide Plus, Scale, Minus;
    forall x: seq<real> | |x| == 1
      ensures x in p.pts <==> SatAll([c], Coord(x))
    {
      EqMeans(Var(0), Constant(n), Coord(x));
      EvalVar(0, Coord(x));
      EvalConstant(n, Coord(x));
      assert c in [c];
      assert x == [x[0]];
    }
    assert Describes([c], p);
    assert Polyhedral(p) && p.Wf();
    var m := Single(n).poly.adapter;
    assert 0 in m && m[0] == 0;
    assert Bijective(m, 1);
  }

  lemma SingleCovers(n: int)
    ensures Single(n).poly.Ok() && forall env :: Gamma(Single(n), env) <==> env(Reg(0)) == n
    ensures forall v: Valuation :: Has(Single(n).poly, v) ==> v(0) == n as real
  {
    SingleIsPolyhedron(n);
    hide Poly.Wf;
    var s := Single(n);
    forall v: Valuation | Has(s.poly, v)
      ensures v(0) == n as real
    {
      assert PointOf(s.poly.adapter, 1, v)[0] == v(0);
    }
    forall env
      ensures Gamma(s, env) <==> env(Reg(0)) == n
    {
      if env(Reg(0)) == n {
        var v: Valuation := g => n as real;
        PointUnique(s.poly.adapter, 1, [n as real], v);
        assert Has(s.poly, v) && Represents(s.idmap, v, env);
      }
      if Gamma(s, env) {
        var v: Valuation :| Has(s.poly, v) && Represents(s.idmap, v, env);
      }
    }
  }

  lemma StaleLosesRuns()
    ensures Zero().poly.Ok() && Stale(Zero(), SET(0, 1)) && !SoundUnchanged(Zero(), SET(0, 1))
  {
    SingleCovers(0);
    hide Sparse.Ok, Gamma;
    var env1: Env := id => if id == Reg(1) then 1 else 0;
    var env2 := With(env1, Reg(0), 1);
    assert Step(SET(0, 1), env1, env2);
  }

  // Nor is it for the page and complement instructions, which are not
  // interpreted although the register is mapped.
  lemma UninterpretedLosesRuns()
    ensures Zero().poly.Ok() && Stale(Zero(), SETP(0)) && !SoundUnchanged(Zero(), SETP(0))
    ensures !SoundUnchanged(Zero(), NOT(0, 0))
  {
    SingleCovers(0);
    hide Sparse.Ok, Gamma;
    var env1: Env := id => 0;
    var env2 := With(env1, Reg(0), -1);
    assert Assigned(env1, Reg(0), -1, env2);
    assert Step(SETP(0), env1, env2);
    assert Step(NOT(0, 0), env1, env2);
  }

  // A state that a filter empties although the branch is taken: r0 holds the
  // comparison of -1 with 1, which as unsigned words is "greater".
  lemma FilterLosesRuns(t: Sparse, env: Env)
    requires env(Reg(0)) == -1 - 1
    requires t.Ok() && Single(-2).poly.Ok()
    requires forall w: Valuation :: Has(t, w) <==> Has(Single(-2).poly, w) && Sat(CondCons(UGT, 0).value, w)
    ensures Gamma(Single(-2), env) && GoesTo(UGT, -1, 1, true)
    ensures forall m :: !Gamma(AState(t, m), env)
  {
    SingleCovers(-2);
    UnsignedLosesRuns();
    forall w: Valuation
      ensures !Has(t, w)
    {
      if Has(Single(-2).poly, w) {
        CondMeans(UGT, 0, -2, w);
      }
    }
    forall m
      ensures !Gamma(AState(t, m), env)
    {
    }
  }
}
