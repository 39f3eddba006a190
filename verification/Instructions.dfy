/**
 * The semantic instructions, what they do to the program's registers, and
 * the linear constraint the domain adds for a binary operation.
 *
 * Values are unbounded: the domain does not model integer wrap-around.  Only
 * the unsigned comparisons look at the 32-bit word of a value.
 */
module Instructions {
  import opened LinearExpressions
  import opened Polyhedra
  import opened SparsePolyhedra
  import opened Mappings
  import opened AbstractStates
  import opened Powers
  import opened Words

  datatype BinOp = ADD | SUB | CMP | CMPU | MUL | MULH | SHL | SHR | ASR | AND | OR | XOR

  datatype Cond = EQ | NE | GE | GT | LE | LT | UGE | UGT | ULE | ULT | OTHER_COND

  datatype Inst =
    | NOP                                  // also TRAP, CONT and BRANCH
    | SETP(d: int)                         // page of d
    | NOT(d: int, a: int)
    | SCRATCH(d: int)
    | SETI(d: int, cst: int)
    | SET(d: int, a: int)
    | BIN(op: BinOp, d: int, a: int, b: int)
    | IF(sr: int, cond: Cond)

  function Reg(r: int): Ident { Ident(r, ID_REG) }

  // ----- concrete semantics -----

  // The results an operation may produce.  A negative shift amount and the
  // bitwise operations leave the result open.
  ghost predicate Result(op: BinOp, a: int, b: int, x: int) {
    match op
    case ADD => x == a + b
    case SUB => x == a - b
    case CMP => x == a - b
    case CMPU => x == Unsigned(a) - Unsigned(b)
    case MUL => x == a * b
    case MULH => x == (a * b) / 0x1_0000_0000
    case SHL => b >= 0 ==> x == a * Pow2(b)
    case ASR => b >= 0 ==> x == a / Pow2(b)
    case SHR => b >= 0 ==> if a >= 0 then x == a / Pow2(b) else x >= 0
    case _ => true
  }

  ghost predicate Step(i: Inst, env1: Env, env2: Env) {
    match i
    case NOP => env2 == env1
    case IF(_, _) => env2 == env1
    case SETP(d) => exists x :: Assigned(env1, Reg(d), x, env2)
    case NOT(d, a) => Assigned(env1, Reg(d), -env1(Reg(a)) - 1, env2)
    case SCRATCH(d) => exists x :: Assigned(env1, Reg(d), x, env2)
    case SETI(d, cst) => Assigned(env1, Reg(d), cst, env2)
    case SET(d, a) => Assigned(env1, Reg(d), env1(Reg(a)), env2)
    case BIN(op, d, a, b) =>
      exists x :: Result(op, env1(Reg(a)), env1(Reg(b)), x) && Assigned(env1, Reg(d), x, env2)
  }

  // The register an instruction writes.
  function Destination(i: Inst): Option<int> {
    match i
    case SETP(d) => Some(d)
    case NOT(d, _) => Some(d)
    case SCRATCH(d) => Some(d)
    case SETI(d, _) => Some(d)
    case SET(d, _) => Some(d)
    case BIN(_, d, _, _) => Some(d)
    case _ => None
  }

  // For every register, the operands of the comparison it holds the result of;
  // any other value is compared with zero.
  type Operands = int -> (int, int)

  function Compared(i: Inst, env1: Env, ops: Operands, x: int): (int, int) {
    match i
    case BIN(CMP, _, a, b) => (env1(Reg(a)), env1(Reg(b)))
    case BIN(CMPU, _, a, b) => (Unsigned(env1(Reg(a))), Unsigned(env1(Reg(b))))
    case SET(_, a) => ops(a)
    case _ => (x, 0)
  }

  ghost predicate OperandsStep(i: Inst, env1: Env, ops1: Operands, env2: Env, ops2: Operands) {
    forall r :: ops2(r) == if Destination(i) == Some(r) then Compared(i, env1, ops1, env2(Reg(r))) else ops1(r)
  }

  // The value of a register is the difference of its operands.
  ghost predicate Coherent(env: Env, ops: Operands) {
    forall r :: env(Reg(r)) == ops(r).0 - ops(r).1
  }

  lemma CoherentStep(i: Inst, env1: Env, ops1: Operands, env2: Env, ops2: Operands)
    requires Coherent(env1, ops1) && Step(i, env1, env2) && OperandsStep(i, env1, ops1, env2, ops2)
    ensures Coherent(env2, ops2)
  {
  }

  // Whether a branch on the comparison of `a` with `b` is decided positively:
  // the unsigned conditions compare the words.
  predicate Decides(c: Cond, a: int, b: int) {
    match c
    case EQ => a == b
    case NE => a != b
    case GE => a >= b
    case GT => a > b
    case LE => a <= b
    case LT => a < b
    case UGE => Unsigned(a) >= Unsigned(b)
    case UGT => Unsigned(a) > Unsigned(b)
    case ULE => Unsigned(a) <= Unsigned(b)
    case ULT => Unsigned(a) < Unsigned(b)
    case OTHER_COND => true
  }

  predicate IsUnsigned(c: Cond) { c == UGE || c == UGT || c == ULE || c == ULT }

  // What the filter of a branch condition says about the difference of the
  // operands: it makes no distinction between signed and unsigned.
  predicate Holds(c: Cond, r: int) {
    match c
    case EQ => r == 0
    case NE => r != 0
    case GE => r >= 0
    case UGE => r >= 0
    case GT => r > 0
    case UGT => r > 0
    case LE => r <= 0
    case ULE => r <= 0
    case LT => r < 0
    case ULT => r < 0
    case OTHER_COND => true
  }

  // The operands are words of the same sign, or more generally lie in the same
  // block of 2^32 values, where the order of the words is the order of the
  // values.
  predicate SameBlock(a: int, b: int) { a / TWO32 == b / TWO32 }

  predicate BranchExact(c: Cond, a: int, b: int) {
    IsUnsigned(c) ==> SameBlock(a, b)
  }

  predicate IsWord(a: int) { -TWO31 <= a < TWO31 }

  lemma BlockMeans(a: int, b: int)
    ensures SameBlock(a, b) <==> Unsigned(a) - Unsigned(b) == a - b
    ensures IsWord(a) && IsWord(b) ==> (SameBlock(a, b) <==> (a >= 0 <==> b >= 0))
  {
    assert a == TWO32 * (a / TWO32) + a % TWO32;
    assert b == TWO32 * (b / TWO32) + b % TWO32;
  }

  // The filter agrees with the branch whenever the condition is signed or the
  // operands are in the same block.
  lemma FilterAgrees(c: Cond, a: int, b: int)
    requires BranchExact(c, a, b)
    ensures Decides(c, a, b) <==> Holds(c, a - b)
  {
    BlockMeans(a, b);
  }

  // On words that is exact: an unsigned condition is filtered as the branch
  // decides it if and only if the operands have the same sign.
  lemma UnsignedExact(c: Cond, a: int, b: int)
    requires IsUnsigned(c) && IsWord(a) && IsWord(b)
    ensures (Decides(c, a, b) <==> Holds(c, a - b)) <==> (a >= 0 <==> b >= 0)
  {
    BlockMeans(a, b);
    WordOrder(a);
    WordOrder(b);
  }

  lemma WordOrder(a: int)
    requires IsWord(a)
    ensures Unsigned(a) == if a >= 0 then a else a + TWO32
  {
  }

  // -1 is the largest unsigned word, but the difference to 1 is negative: the
  // filter of the taken branch excludes the run that takes it.
  lemma UnsignedLosesRuns()
    ensures Decides(UGT, -1, 1) && !Holds(UGT, -1 - 1)
    ensures Result(CMPU, -1, 1, 0xffff_fffe) && -1 - 1 != 0xffff_fffe
  {
    WordOrder(-1);
    WordOrder(1);
  }

  function Invert(c: Cond): Cond {
    match c
    case EQ => NE
    case NE => EQ
    case GE => LT
    case LT => GE
    case GT => LE
    case LE => GT
    case UGE => ULT
    case ULT => UGE
    case UGT => ULE
    case ULE => UGT
    case OTHER_COND => OTHER_COND
  }

  // ----- the constraint of a binary operation -----

  // An operand known to be a whole number.
  predicate Whole(k: Option<Fraction>) {
    k.Some? && k.value.den == 1
  }

  function ShiftFactor(k: Fraction): nat {
    Pow2(if k.num < 0 then -k.num else k.num)
  }

  // `k1` and `k2` are the operands' known constants, if any.
  function BinCons(op: BinOp, v: nat, s1: nat, s2: nat, k1: Option<Fraction>, k2: Option<Fraction>): Option<Cons> {
    match op
    case ADD => Some(EqCons(Var(v), Plus(Var(s1), Var(s2))))
    case SUB => Some(EqCons(Var(v), Minus(Var(s1), Var(s2))))
    case CMP => Some(EqCons(Var(v), Minus(Var(s1), Var(s2))))
    case CMPU => Some(EqCons(Var(v), Minus(Var(s1), Var(s2))))
    case SHL =>
      if Whole(k2) then Some(EqCons(Var(v), Scale(Var(s1), ShiftFactor(k2.value))))
      else Some(GeCons(Var(v), Var(s1)))
    case SHR =>
      if Whole(k2) then Some(EqCons(Var(s1), Scale(Var(v), ShiftFactor(k2.value))))
      else Some(GeCons(Var(s1), Var(v)))
    case ASR =>
      if Whole(k2) then Some(EqCons(Var(s1), Scale(Var(v), ShiftFactor(k2.value))))
      else Some(GeCons(Var(s1), Var(v)))
    case MUL => ProductCons(v, s1, s2, k1, k2)
    case MULH => ProductCons(v, s1, s2, k1, k2)
    case _ => None
  }

  function ProductCons(v: nat, s1: nat, s2: nat, k1: Option<Fraction>, k2: Option<Fraction>): Option<Cons> {
    match (k1, k2)
    case (Some(k), _) => Some(EqCons(Scale(Var(v), k.den), Scale(Var(s2), k.num)))
    case (None, Some(k)) => Some(EqCons(Scale(Var(v), k.den), Scale(Var(s1), k.num)))
    case (None, None) => None
  }

  lemma BinConsVars(op: BinOp, v: nat, s1: nat, s2: nat, k1: Option<Fraction>, k2: Option<Fraction>)
    ensures BinCons(op, v, s1, s2, k1, k2).Some? ==>
              BinCons(op, v, s1, s2, k1, k2).value.expr.coefs.Keys <= {v, s1, s2}
  {
    hide Plus, Scale;
    forall a, b {
      MinusVars(a, b);
    }
    PlusVars(Var(s1), Var(s2));
    forall a, k {
      ScaleVars(a, k);
    }
  }

  // The factor `1 << n` of a known shift is a C `int`: from 31 on (or from -31
  // down, the magnitude being taken) the source's expression is undefined.
  predicate ShiftDefined(op: BinOp, k2: Option<Fraction>) {
    (op == SHL || op == SHR || op == ASR) && Whole(k2) ==> -31 < k2.value.num < 31
  }

  // When the constraint admits the concrete result.  It always does for the
  // signed linear operations and for products, and for a left shift by a known
  // amount below 31.  An unsigned comparison is encoded as the signed one, the
  // right shifts as exact divisions (or as "not larger"), a left shift by an
  // unknown amount as "not smaller", and the high half of a product as the
  // product itself; each is right only for some operands.
  predicate Exact(op: BinOp, a: int, b: int, k1: Option<Fraction>, k2: Option<Fraction>)
    requires b >= 0 || (op != SHL && op != SHR && op != ASR)
  {
    && ShiftDefined(op, k2)
    && match op
       case CMPU => SameBlock(a, b)
       case SHL => Whole(k2) || a >= 0 || b == 0
       case SHR => a >= 0 && (Whole(k2) ==> a % Pow2(b) == 0)
       case ASR => if Whole(k2) then a % Pow2(b) == 0 else a >= 0 || b == 0 || a == -1
       case MULH => (k1.Some? || k2.Some?) ==> a * b == 0 || a * b == -1
       case _ => true
  }

  // `k` is the value of an operand whose concrete value is `a`.
  ghost predicate KnownAs(k: Option<Fraction>, a: int) {
    k.Some? ==> k.value.den > 0 && k.value.den * a == k.value.num
  }

  lemma MulMonotone(a: int, p: int)
    requires p >= 2
    ensures a < 0 ==> a * p < a
    ensures a >= 0 ==> a * p >= a
  {
    if a < 0 {
      assert a * p <= a * 2;
    } else {
      assert a * p >= a * 1;
    }
  }

  lemma ShiftLeft(a: int, b: nat)
    ensures a * Pow2(b) >= a <==> a >= 0 || b == 0
  {
    if b > 0 {
      MulMonotone(a, Pow2(b));
    }
  }

  // The result of a right shift, times the factor.
  lemma ShiftRightExact(a: int, p: int, x: int)
    requires p >= 1
    ensures x == a / p ==> (a == x * p <==> a % p == 0)
    ensures a < 0 <= x ==> a != x * p
  {
    if x >= 0 {
      MulOrder(0, x, p);
    }
  }

  lemma MulOrder(x: int, y: int, p: nat)
    requires x <= y
    ensures x * p <= y * p
  {
    assert (y - x) * p >= 0;
  }

  lemma ShiftRightSmaller(a: int, p: int)
    requires p >= 1
    ensures a >= a / p <==> a >= 0 || p == 1 || a == -1
  {
    var q := a / p;
    QuotientBounds(a, p, q);
    if p >= 2 && a >= 0 && q > a {
      MulOrder(a + 1, q, p);
      MulMonotone(a + 1, p);
    } else if a == -1 && q >= 0 {
      MulOrder(0, q, p);
    } else if p >= 2 && a <= -2 && q <= a {
      MulOrder(q + 1, a + 1, p);
      MulMonotoneNeg(a + 1, p);
    }
  }

  lemma QuotientBounds(a: int, p: int, q: int)
    requires p >= 1 && q == a / p
    ensures q * p <= a < (q + 1) * p
  {
    assert (q + 1) * p == q * p + p;
  }

  lemma MulMonotoneNeg(x: int, p: int)
    requires p >= 2 && x <= -1
    ensures x * p <= x * 2
  {
    assert -x * (p - 2) >= 0;
  }

  // The value of a product constraint.
  lemma ProductMeans(g: nat, s: nat, k: Fraction, o: int, a: int, x: int, v: Valuation)
    requires k.den > 0 && k.den * a == k.num
    requires v(s) == o as real && v(g) == x as real
    ensures Sat(EqCons(Scale(Var(g), k.den), Scale(Var(s), k.num)), v) <==> x == a * o
  {
    hide Plus, Scale;
    EqMeans(Scale(Var(g), k.den), Scale(Var(s), k.num), v);
    ScaledVar(g, k.den, x, v);
    ScaledVar(s, k.num, o, v);
    Cancel(k.den, k.num, a, o, x);
    hide *;
  }

  lemma ScaledVar(g: nat, d: int, x: int, v: Valuation)
    requires v(g) == x as real
    ensures Eval(Scale(Var(g), d), v) == (x * d) as real
  {
    EvalScale(Var(g), d, v);
    EvalVar(g, v);
    TimesCast(x, d);
  }

  lemma Cancel(d: int, n: int, a: int, o: int, x: int)
    requires d > 0 && d * a == n
    ensures x * d == o * n <==> x == a * o
  {
    assert o * n == d * (a * o);
    assert x * d - d * (a * o) == d * (x - a * o);
  }

  lemma ScaledMeans(g: nat, s: nat, p: int, o: int, x: int, v: Valuation)
    requires v(s) == o as real && v(g) == x as real
    ensures Sat(EqCons(Var(g), Scale(Var(s), p)), v) <==> x == o * p
  {
    EqMeans(Var(g), Scale(Var(s), p), v);
    EvalVar(g, v);
    ScaledVar(s, p, o, v);
  }

  lemma EqualsMeans(g: nat, e: LinExpr, v: Valuation)
    ensures Sat(EqCons(Var(g), e), v) <==> v(g) == Eval(e, v)
  {
    EvalVar(g, v);
    EqMeans(Var(g), e, v);
  }

  lemma SumAndDifference(s1: nat, s2: nat, v: Valuation)
    ensures Eval(Plus(Var(s1), Var(s2)), v) == v(s1) + v(s2)
    ensures Eval(Minus(Var(s1), Var(s2)), v) == v(s1) - v(s2)
  {
    EvalVar(s1, v);
    EvalVar(s2, v);
    EvalPlus(Var(s1), Var(s2), v);
    EvalMinus(Var(s1), Var(s2), v);
  }

  lemma LinearExact(op: BinOp, g: nat, s1: nat, s2: nat, a: int, b: int, x: int, v: Valuation)
    requires op == ADD || op == SUB || op == CMP || op == CMPU
    requires v(s1) == a as real && v(s2) == b as real && v(g) == x as real
    requires Result(op, a, b, x)
    ensures Sat(BinCons(op, g, s1, s2, None, None).value, v) <==> (op == CMPU ==> SameBlock(a, b))
  {
    BlockMeans(a, b);
    SumAndDifference(s1, s2, v);
    EqualsMeans(g, if op == ADD then Plus(Var(s1), Var(s2)) else Minus(Var(s1), Var(s2)), v);
  }

  lemma LeftShiftExact(g: nat, s1: nat, k2: Option<Fraction>, a: int, b: nat, x: int, v: Valuation)
    requires KnownAs(k2, b) && x == a * Pow2(b)
    requires v(s1) == a as real && v(g) == x as real
    requires ShiftDefined(SHL, k2)
    ensures Sat(BinCons(SHL, g, s1, 0, None, k2).value, v) <==> Whole(k2) || a >= 0 || b == 0
  {
    if Whole(k2) {
      ScaledMeans(g, s1, Pow2(b), a, x, v);
    } else {
      EvalVar(g, v);
      EvalVar(s1, v);
      GeMeans(Var(g), Var(s1), v);
      ShiftLeft(a, b);
    }
  }

  lemma KnownRightShift(op: BinOp, g: nat, s1: nat, k2: Option<Fraction>, a: int, b: nat, x: int, v: Valuation)
    requires op == SHR || op == ASR
    requires KnownAs(k2, b) && Whole(k2) && Result(op, a, b, x)
    requires v(s1) == a as real && v(g) == x as real
    ensures Sat(BinCons(op, g, s1, 0, None, k2).value, v) <==> (op == SHR ==> a >= 0) && a % Pow2(b) == 0
  {
    var p := Pow2(b);
    ScaledMeans(s1, g, p, x, a, v);
    ShiftRightExact(a, p, x);
    hide Pow2;
  }

  lemma UnknownRightShift(op: BinOp, g: nat, s1: nat, k2: Option<Fraction>, a: int, b: nat, x: int, v: Valuation)
    requires op == SHR || op == ASR
    requires !Whole(k2) && Result(op, a, b, x)
    requires v(s1) == a as real && v(g) == x as real
    ensures Sat(BinCons(op, g, s1, 0, None, k2).value, v) <==>
              if op == SHR then a >= 0 else a >= 0 || b == 0 || a == -1
  {
    EvalVar(g, v);
    EvalVar(s1, v);
    GeMeans(Var(s1), Var(g), v);
    ShiftRightSmaller(a, Pow2(b));
  }

  lemma ProductExact(g: nat, s1: nat, s2: nat, k1: Option<Fraction>, k2: Option<Fraction>,
                     a: int, b: int, x: int, v: Valuation)
    requires KnownAs(k1, a) && KnownAs(k2, b)
    requires v(s1) == a as real && v(s2) == b as real && v(g) == x as real
    ensures
      var c := ProductCons(g, s1, s2, k1, k2);
      c.None? || Sat(c.value, v) <==> (k1.Some? || k2.Some? ==> x == a * b)
  {
    match (k1, k2)
    case (Some(k), _) => ProductMeans(g, s2, k, b, a, x, v);
    case (None, Some(k)) => ProductMeans(g, s1, k, a, b, x, v);
    case (None, None) =>
  }

  lemma HighHalf(p: int)
    ensures p / 0x1_0000_0000 == p <==> p == 0 || p == -1
  {
  }

  // The constraint added for an operation holds of the concrete result
  // exactly when `Exact` says so, as far as the source defines the constraint.
  lemma ConstraintExact(op: BinOp, g: nat, s1: nat, s2: nat, k1: Option<Fraction>, k2: Option<Fraction>,
                        a: int, b: int, x: int, v: Valuation)
    requires KnownAs(k1, a) && KnownAs(k2, b)
    requires v(s1) == a as real && v(s2) == b as real && v(g) == x as real
    requires Result(op, a, b, x)
    requires op == SHL || op == SHR || op == ASR ==> b >= 0
    requires ShiftDefined(op, k2)
    ensures BinCons(op, g, s1, s2, k1, k2).None? || Sat(BinCons(op, g, s1, s2, k1, k2).value, v)
       <==> Exact(op, a, b, k1, k2)
  {
    if op == ADD || op == SUB || op == CMP || op == CMPU {
      LinearExact(op, g, s1, s2, a, b, x, v);
    } else if op == SHL {
      LeftShiftExact(g, s1, k2, a, b, x, v);
    } else if op == SHR || op == ASR {
      if Whole(k2) {
        KnownRightShift(op, g, s1, k2, a, b, x, v);
      } else {
        UnknownRightShift(op, g, s1, k2, a, b, x, v);
      }
    } else if op == MUL || op == MULH {
      ProductExact(g, s1, s2, k1, k2, a, b, x, v);
      HighHalf(a * b);
    }
  }

  // ----- what the constraint says of any values -----

  // The constraint as a relation between the value of the destination and
  // those of the operands, whichever they are.
  ghost predicate Encoded(op: BinOp, k1: Option<Fraction>, k2: Option<Fraction>, x: real, a: real, b: real) {
    match op
    case ADD => x == a + b
    case SUB => x == a - b
    case CMP => x == a - b
    case CMPU => x == a - b
    case SHL => if Whole(k2) then x == Times(ShiftFactor(k2.value), a) else x >= a
    case SHR => if Whole(k2) then a == Times(ShiftFactor(k2.value), x) else a >= x
    case ASR => if Whole(k2) then a == Times(ShiftFactor(k2.value), x) else a >= x
    case MUL => EncodedProduct(k1, k2, x, a, b)
    case MULH => EncodedProduct(k1, k2, x, a, b)
    case _ => true
  }

  ghost predicate EncodedProduct(k1: Option<Fraction>, k2: Option<Fraction>, x: real, a: real, b: real) {
    match (k1, k2)
    case (Some(k), _) => Times(k.den, x) == Times(k.num, b)
    case (None, Some(k)) => Times(k.den, x) == Times(k.num, a)
    case (None, None) => true
  }

  // An operation without a constraint leaves the destination free; otherwise
  // the constraint holds exactly of the values it encodes.
  lemma ConstraintMeans(op: BinOp, g: nat, s1: nat, s2: nat, k1: Option<Fraction>, k2: Option<Fraction>, v: Valuation)
    ensures
      var c := BinCons(op, g, s1, s2, k1, k2);
      (c.None? || Sat(c.value, v)) <==> Encoded(op, k1, k2, v(g), v(s1), v(s2))
  {
    hide Plus, Minus, Scale, EqCons, GeCons, Times;
    EvalVar(g, v);
    EvalVar(s1, v);
    EvalVar(s2, v);
    match op
    case ADD => LinearMeans(g, s1, s2, v);
    case SUB => LinearMeans(g, s1, s2, v);
    case CMP => LinearMeans(g, s1, s2, v);
    case CMPU => LinearMeans(g, s1, s2, v);
    case SHL =>
      if Whole(k2) { MultipleMeans(g, 1, s1, ShiftFactor(k2.value), v); }
      GeMeans(Var(g), Var(s1), v);
    case SHR =>
      if Whole(k2) { MultipleMeans(s1, 1, g, ShiftFactor(k2.value), v); }
      GeMeans(Var(s1), Var(g), v);
    case ASR =>
      if Whole(k2) { MultipleMeans(s1, 1, g, ShiftFactor(k2.value), v); }
      GeMeans(Var(s1), Var(g), v);
    case MUL => ProductConsMeans(g, s1, s2, k1, k2, v);
    case MULH => ProductConsMeans(g, s1, s2, k1, k2, v);
    case _ =>
  }

  lemma LinearMeans(g: nat, s1: nat, s2: nat, v: Valuation)
    ensures Sat(EqCons(Var(g), Plus(Var(s1), Var(s2))), v) <==> v(g) == v(s1) + v(s2)
    ensures Sat(EqCons(Var(g), Minus(Var(s1), Var(s2))), v) <==> v(g) == v(s1) - v(s2)
  {
    SumAndDifference(s1, s2, v);
    EqualsMeans(g, Plus(Var(s1), Var(s2)), v);
    EqualsMeans(g, Minus(Var(s1), Var(s2)), v);
  }

  lemma MultipleMeans(g: nat, d: int, s: nat, p: int, v: Valuation)
    ensures Sat(EqCons(Scale(Var(g), d), Scale(Var(s), p)), v) <==> Times(d, v(g)) == Times(p, v(s))
    ensures Sat(EqCons(Var(g), Scale(Var(s), p)), v) <==> v(g) == Times(p, v(s))
  {
    EvalVar(g, v);
    EvalVar(s, v);
    EvalScale(Var(g), d, v);
    EvalScale(Var(s), p, v);
    EqMeans(Scale(Var(g), d), Scale(Var(s), p), v);
    EqMeans(Var(g), Scale(Var(s), p), v);
  }

  lemma ProductConsMeans(g: nat, s1: nat, s2: nat, k1: Option<Fraction>, k2: Option<Fraction>, v: Valuation)
    ensures
      var c := ProductCons(g, s1, s2, k1, k2);
      (c.None? || Sat(c.value, v)) <==> EncodedProduct(k1, k2, v(g), v(s1), v(s2))
  {
    match (k1, k2)
    case (Some(k), _) => MultipleMeans(g, k.den, s2, k.num, v);
    case (None, Some(k)) => MultipleMeans(g, k.den, s1, k.num, v);
    case (None, None) =>
  }

  // The operations whose constraint determines the destination.
  predicate Determined(op: BinOp, k1: Option<Fraction>, k2: Option<Fraction>) {
    match op
    case ADD => true
    case SUB => true
    case CMP => true
    case CMPU => true
    case SHL => Whole(k2)
    case SHR => Whole(k2)
    case ASR => Whole(k2)
    case MUL => k1.Some? || k2.Some?
    case MULH => k1.Some? || k2.Some?
    case _ => false
  }

  // Then it holds of the concrete result and of no other value, for the
  // operands for which it is exact; and for others not of the result.
  lemma EncodedExact(op: BinOp, k1: Option<Fraction>, k2: Option<Fraction>, x: int, a: int, b: int)
    requires Determined(op, k1, k2) && KnownAs(k1, a) && KnownAs(k2, b) && ShiftDefined(op, k2)
    requires op == SHL || op == SHR || op == ASR ==> b >= 0
    ensures Exact(op, a, b, k1, k2) ==> (Encoded(op, k1, k2, x as real, a as real, b as real) <==> Result(op, a, b, x))
    ensures Encoded(op, k1, k2, x as real, a as real, b as real) && Result(op, a, b, x) ==> Exact(op, a, b, k1, k2)
  {
    BlockMeans(a, b);
    match op
    case SHL => TimesCast(a, Pow2(b));
    case SHR => EncodedRightShift(SHR, x, a, b);
    case ASR => EncodedRightShift(ASR, x, a, b);
    case MUL => EncodedProductExact(k1, k2, x, a, b);
    case MULH => EncodedProductExact(k1, k2, x, a, b); HighHalf(a * b);
    case _ =>
  }

  lemma EncodedRightShift(op: BinOp, x: int, a: int, b: nat)
    requires op == SHR || op == ASR
    ensures a as real == Times(Pow2(b), x as real) <==> a == x * Pow2(b)
    ensures a == x * Pow2(b) ==> a % Pow2(b) == 0 && (Result(op, a, b, x) <==> (op == SHR ==> a >= 0))
    ensures a % Pow2(b) == 0 && Result(op, a, b, x) && (op == SHR ==> a >= 0) ==> a == x * Pow2(b)
  {
    var p := Pow2(b);
    TimesCast(x, p);
    ShiftRightExact(a, p, x);
    hide Pow2;
    if a == x * p {
      MultipleOf(x, p);
      ShiftRightExact(a, p, x);
    }
  }

  lemma MultipleOf(x: int, p: int)
    requires p >= 1
    ensures (x * p) / p == x && (x * p) % p == 0
  {
    var q := (x * p) / p;
    QuotientBounds(x * p, p, q);
    if q < x {
      MulOrder(q + 1, x, p);
    } else if q > x {
      MulOrder(x + 1, q, p);
    }
    assert x * p == p * q + (x * p) % p;
  }

  lemma EncodedProductExact(k1: Option<Fraction>, k2: Option<Fraction>, x: int, a: int, b: int)
    requires (k1.Some? || k2.Some?) && KnownAs(k1, a) && KnownAs(k2, b)
    ensures EncodedProduct(k1, k2, x as real, a as real, b as real) <==> x == a * b
  {
    var (k, known, other) := if k1.Some? then (k1.value, a, b) else (k2.value, b, a);
    TimesCast(x, k.den);
    TimesCast(other, k.num);
    Cancel(k.den, k.num, known, other, x);
  }

  // ----- inputs that the encodings lose -----

  function One(): Option<Fraction> { Some(Fraction(1, 1)) }

  // The constraint excludes the result, whatever the variables are.
  ghost predicate Excluded(op: BinOp, k1: Option<Fraction>, k2: Option<Fraction>, a: int, b: int, x: int) {
    && Result(op, a, b, x)
    && (forall g, s1, s2, v: Valuation ::
          v(s1) == a as real && v(s2) == b as real && v(g) == x as real && BinCons(op, g, s1, s2, k1, k2).Some? ==>
            !Sat(BinCons(op, g, s1, s2, k1, k2).value, v))
    && (forall g, s1, s2 :: BinCons(op, g, s1, s2, k1, k2).Some?)
  }

  lemma InexactIsExcluded(op: BinOp, k1: Option<Fraction>, k2: Option<Fraction>, a: int, b: int, x: int)
    requires KnownAs(k1, a) && KnownAs(k2, b) && Result(op, a, b, x) && ShiftDefined(op, k2)
    requires (op == SHL || op == SHR || op == ASR ==> b >= 0) && !Exact(op, a, b, k1, k2)
    requires forall g, s1, s2 :: BinCons(op, g, s1, s2, k1, k2).Some?
    ensures Excluded(op, k1, k2, a, b, x)
  {
    forall g, s1, s2, v: Valuation |
      v(s1) == a as real && v(s2) == b as real && v(g) == x as real && BinCons(op, g, s1, s2, k1, k2).Some?
      ensures !Sat(BinCons(op, g, s1, s2, k1, k2).value, v)
    {
      ConstraintExact(op, g, s1, s2, k1, k2, a, b, x, v);
    }
  }

  // Shifting 1 right by a known 1; shifting -3 right and -1 left by an unknown
  // 1; the high half of the product of 1 with a known 1.
  lemma EncodingsLoseRuns()
    ensures Excluded(SHR, None, One(), 1, 1, 0) && Excluded(ASR, None, One(), 1, 1, 0)
    ensures Excluded(SHR, None, None, -3, 1, 0x7fff_fffe) && Excluded(ASR, None, None, -3, 1, -2)
    ensures Excluded(SHL, None, None, -1, 1, -2)
    ensures Excluded(MULH, None, One(), 1, 1, 0)
  {
    assert Pow2(1) == 2;
    InexactIsExcluded(SHR, None, One(), 1, 1, 0);
    InexactIsExcluded(ASR, None, One(), 1, 1, 0);
    InexactIsExcluded(SHR, None, None, -3, 1, 0x7fff_fffe);
    InexactIsExcluded(ASR, None, None, -3, 1, -2);
    InexactIsExcluded(SHL, None, None, -1, 1, -2);
    InexactIsExcluded(MULH, None, One(), 1, 1, 0);
  }
}
