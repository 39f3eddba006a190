/**
 * Linear expressions and constraints over globally numbered variables
 * (`WLinExpr` and `WCons`), and their value under a valuation.
 *
 * The same two datatypes serve on both sides of the sparse layer: keyed by
 * guid they are the wrapper's own expressions, keyed by dimension they are
 * what is handed to the polyhedra library.
 */
module LinearExpressions {

  // A total assignment of values to variables.
  type Valuation = nat -> real

  // Coefficients by variable, and the inhomogeneous term.
  datatype LinExpr = LinExpr(coefs: map<nat, int>, cst: int)

  // `0 = expr` when `equality`, `0 <= expr` otherwise.
  datatype Cons = Cons(expr: LinExpr, equality: bool)

  function Constant(k: int): LinExpr { LinExpr(map[], k) }

  function Var(g: nat): LinExpr { LinExpr(map[g := 1], 0) }

  // ----- meaning -----

  // A coefficient applied to a value.
  ghost function Times(a: int, x: real): real { a as real * x }

  ghost function SumTerms(c: map<nat, int>, v: Valuation): real
    decreases |c|
  {
    if c == map[] then 0.0
    else
      var k :| k in c;
      Times(c[k], v(k)) + SumTerms(c - {k}, v)
  }

  ghost function Eval(e: LinExpr, v: Valuation): real {
    SumTerms(e.coefs, v) + e.cst as real
  }

  ghost predicate Sat(c: Cons, v: Valuation) {
    if c.equality then Eval(c.expr, v) == 0.0 else Eval(c.expr, v) >= 0.0
  }

  // ----- the sum does not depend on the order in which terms are taken -----

  lemma {:induction false} SumRemove(c: map<nat, int>, k: nat, v: Valuation)
    requires k in c
    ensures SumTerms(c, v) == Times(c[k], v(k)) + SumTerms(c - {k}, v)
    decreases |c|
  {
    var p :| p in c && SumTerms(c, v) == Times(c[p], v(p)) + SumTerms(c - {p}, v);
    if p != k {
      SumRemove(c - {p}, k, v);
      SumRemove(c - {k}, p, v);
      assert c - {p} - {k} == c - {k} - {p};
    }
  }

  lemma SumInsert(c: map<nat, int>, k: nat, a: int, v: Valuation)
    requires k !in c
    ensures SumTerms(c[k := a], v) == Times(a, v(k)) + SumTerms(c, v)
  {
    SumRemove(c[k := a], k, v);
    assert c[k := a] - {k} == c;
  }

  lemma {:induction false} SumAgree(c: map<nat, int>, v: Valuation, w: Valuation)
    requires forall k :: k in c ==> v(k) == w(k)
    ensures SumTerms(c, v) == SumTerms(c, w)
    decreases |c|
  {
    if c != map[] {
      var k :| k in c;
      SumRemove(c, k, v);
      SumRemove(c, k, w);
      SumAgree(c - {k}, v, w);
    }
  }

  // Only the variables an expression mentions matter to it.
  lemma EvalAgree(e: LinExpr, v: Valuation, w: Valuation)
    requires forall k :: k in e.coefs ==> v(k) == w(k)
    ensures Eval(e, v) == Eval(e, w)
  {
    SumAgree(e.coefs, v, w);
  }

  // ----- the algebra -----

  // The sum keeps a variable of the left operand only when the coefficients
  // do not cancel; a variable of the right operand alone is always kept.
  function Plus(a: LinExpr, b: LinExpr): LinExpr {
    LinExpr(
      map g | g in a.coefs.Keys + b.coefs.Keys
              && (g in a.coefs ==> At(a, g) + At(b, g) != 0)
           :: At(a, g) + At(b, g),
      a.cst + b.cst)
  }

  function At(e: LinExpr, g: nat): int {
    if g in e.coefs then e.coefs[g] else 0
  }

  // Multiplying by zero yields the empty expression.
  function Scale(a: LinExpr, k: int): LinExpr {
    if k == 0 then Constant(0)
    else LinExpr(map g | g in a.coefs :: a.coefs[g] * k, a.cst * k)
  }

  function Minus(a: LinExpr, b: LinExpr): LinExpr { Plus(a, Scale(b, -1)) }

  // No operation brings in a variable of its own.
  lemma PlusVars(a: LinExpr, b: LinExpr)
    ensures Plus(a, b).coefs.Keys <= a.coefs.Keys + b.coefs.Keys
  {
  }

  lemma ScaleVars(a: LinExpr, k: int)
    ensures Scale(a, k).coefs.Keys <= a.coefs.Keys
  {
  }

  lemma MinusVars(a: LinExpr, b: LinExpr)
    ensures Minus(a, b).coefs.Keys <= a.coefs.Keys + b.coefs.Keys
  {
    ScaleVars(b, -1);
    PlusVars(a, Scale(b, -1));
  }

  function EqCons(a: LinExpr, b: LinExpr): Cons { Cons(Minus(a, b), true) }

  function GeCons(a: LinExpr, b: LinExpr): Cons { Cons(Minus(a, b), false) }

  function LeCons(a: LinExpr, b: LinExpr): Cons { GeCons(b, a) }

  function LtCons(a: LinExpr, b: LinExpr): Cons { LeCons(Plus(a, Constant(1)), b) }

  function GtCons(a: LinExpr, b: LinExpr): Cons { GeCons(a, Plus(b, Constant(1))) }

  lemma TimesDistributes(a: int, b: int, x: real)
    ensures Times(a + b, x) == Times(a, x) + Times(b, x)
  {
    assert (a + b) as real == a as real + b as real;
  }

  lemma TimesPlus(a: int, x: real, y: real)
    ensures Times(a, x + y) == Times(a, x) + Times(a, y)
  {
  }

  lemma {:induction false} TimesCast(a: int, k: int)
    ensures Times(k, a as real) == (a * k) as real
    decreases if k < 0 then -k else k
  {
    if k > 0 {
      TimesCast(a, k - 1);
      TimesDistributes(k - 1, 1, a as real);
      assert a * k == a * (k - 1) + a;
    } else if k < 0 {
      TimesCast(a, k + 1);
      TimesDistributes(k, 1, a as real);
      assert a * k == a * (k + 1) - a;
    }
  }

  lemma TimesAssociates(a: int, k: int, x: real)
    ensures Times(a * k, x) == Times(k, Times(a, x))
  {
    TimesCast(a, k);
    assert (a * k) as real == k as real * a as real;
    assert (k as real * a as real) * x == k as real * (a as real * x);
  }

  // Padding with absent coefficients: the sum over any finite set of
  // variables that covers the expression.
  ghost function SumOver(s: set<nat>, f: nat -> int, v: Valuation): real
    decreases |s|
  {
    if s == {} then 0.0
    else
      var k :| k in s;
      Times(f(k), v(k)) + SumOver(s - {k}, f, v)
  }

  lemma {:induction false} SumOverRemove(s: set<nat>, k: nat, f: nat -> int, v: Valuation)
    requires k in s
    ensures SumOver(s, f, v) == Times(f(k), v(k)) + SumOver(s - {k}, f, v)
    decreases |s|
  {
    var p :| p in s && SumOver(s, f, v) == Times(f(p), v(p)) + SumOver(s - {p}, f, v);
    if p != k {
      SumOverRemove(s - {p}, k, f, v);
      SumOverRemove(s - {k}, p, f, v);
      assert s - {p} - {k} == s - {k} - {p};
    }
  }

  lemma {:induction false} SumCovers(c: map<nat, int>, s: set<nat>, f: nat -> int, v: Valuation)
    requires c.Keys <= s
    requires forall k :: k in s ==> f(k) == if k in c then c[k] else 0
    ensures SumTerms(c, v) == SumOver(s, f, v)
    decreases |s|
  {
    if s == {} {
      assert c == map[];
    } else {
      var k :| k in s;
      SumOverRemove(s, k, f, v);
      if k in c {
        SumRemove(c, k, v);
        SumCovers(c - {k}, s - {k}, f, v);
      } else {
        SumCovers(c, s - {k}, f, v);
      }
    }
  }

  lemma {:induction false} SumOverAdd(s: set<nat>, f: nat -> int, g: nat -> int, h: nat -> int, v: Valuation)
    requires forall k :: k in s ==> h(k) == f(k) + g(k)
    ensures SumOver(s, h, v) == SumOver(s, f, v) + SumOver(s, g, v)
    decreases |s|
  {
    if s != {} {
      var k :| k in s;
      SumOverRemove(s, k, f, v);
      SumOverRemove(s, k, g, v);
      SumOverRemove(s, k, h, v);
      SumOverAdd(s - {k}, f, g, h, v);
      TimesDistributes(f(k), g(k), v(k));
    }
  }

  lemma EvalPlus(a: LinExpr, b: LinExpr, v: Valuation)
    ensures Eval(Plus(a, b), v) == Eval(a, v) + Eval(b, v)
  {
    var s := a.coefs.Keys + b.coefs.Keys;
    var fa := (k: nat) => At(a, k);
    var fb := (k: nat) => At(b, k);
    var fc := (k: nat) => At(Plus(a, b), k);
    SumCovers(a.coefs, s, fa, v);
    SumCovers(b.coefs, s, fb, v);
    SumCovers(Plus(a, b).coefs, s, fc, v);
    SumOverAdd(s, fa, fb, fc, v);
  }

  lemma {:induction false} SumScale(c: map<nat, int>, d: map<nat, int>, k: int, v: Valuation)
    requires c.Keys == d.Keys
    requires forall g :: g in c ==> d[g] == c[g] * k
    ensures SumTerms(d, v) == Times(k, SumTerms(c, v))
    decreases |c|
  {
    if c == map[] {
      assert d == map[];
    } else {
      var p :| p in c;
      SumRemove(c, p, v);
      SumRemove(d, p, v);
      SumScale(c - {p}, d - {p}, k, v);
      TimesAssociates(c[p], k, v(p));
      TimesPlus(k, Times(c[p], v(p)), SumTerms(c - {p}, v));
    }
  }

  lemma EvalScale(a: LinExpr, k: int, v: Valuation)
    ensures Eval(Scale(a, k), v) == Times(k, Eval(a, v))
  {
    if k == 0 {
      assert SumTerms(map[], v) == 0.0;
    } else {
      SumScale(a.coefs, Scale(a, k).coefs, k, v);
      TimesCast(a.cst, k);
      TimesPlus(k, SumTerms(a.coefs, v), a.cst as real);
    }
  }

  lemma EvalMinus(a: LinExpr, b: LinExpr, v: Valuation)
    ensures Eval(Minus(a, b), v) == Eval(a, v) - Eval(b, v)
  {
    EvalScale(b, -1, v);
    EvalPlus(a, Scale(b, -1), v);
  }

  lemma EvalVar(g: nat, v: Valuation)
    ensures Eval(Var(g), v) == v(g)
  {
    SumInsert(map[], g, 1, v);
    assert map[][g := 1] == map[g := 1];
    assert SumTerms(map[], v) == 0.0;
  }

  lemma EvalConstant(k: int, v: Valuation)
    ensures Eval(Constant(k), v) == k as real
  {
  }

  lemma EqMeans(a: LinExpr, b: LinExpr, v: Valuation)
    ensures Sat(EqCons(a, b), v) <==> Eval(a, v) == Eval(b, v)
  {
    EvalMinus(a, b, v);
  }

  lemma GeMeans(a: LinExpr, b: LinExpr, v: Valuation)
    ensures Sat(GeCons(a, b), v) <==> Eval(a, v) >= Eval(b, v)
  {
    EvalMinus(a, b, v);
  }

  // What each of the five constraint builders says.  The two strict forms
  // are tightened by one unit, so they are strict on integers only.
  lemma BuildersMean(a: LinExpr, b: LinExpr, v: Valuation)
    ensures Sat(EqCons(a, b), v) <==> Eval(a, v) == Eval(b, v)
    ensures Sat(GeCons(a, b), v) <==> Eval(a, v) >= Eval(b, v)
    ensures Sat(LeCons(a, b), v) <==> Eval(a, v) <= Eval(b, v)
    ensures Sat(LtCons(a, b), v) <==> Eval(a, v) + 1.0 <= Eval(b, v)
    ensures Sat(GtCons(a, b), v) <==> Eval(a, v) >= Eval(b, v) + 1.0
  {
    EqMeans(a, b, v);
    GeMeans(a, b, v);
    GeMeans(b, a, v);
    EvalPlus(a, Constant(1), v);
    EvalPlus(b, Constant(1), v);
    EvalConstant(1, v);
    GeMeans(b, Plus(a, Constant(1)), v);
    GeMeans(a, Plus(b, Constant(1)), v);
  }

  // On integer values the two strict builders are the strict comparisons.
  lemma StrictOnIntegers(a: LinExpr, b: LinExpr, v: Valuation, m: int, n: int)
    requires Eval(a, v) == m as real && Eval(b, v) == n as real
    ensures Sat(LtCons(a, b), v) <==> m < n
    ensures Sat(GtCons(a, b), v) <==> m > n
  {
    BuildersMean(a, b, v);
  }

  // ----- the loops of operator+ and operator* -----

  method Add(a: LinExpr, b: LinExpr) returns (res: LinExpr)
    ensures res == Plus(a, b)
  {
    var coefs: map<nat, int> := map[];
    var todo := a.coefs.Keys;
    while todo != {}
      invariant todo <= a.coefs.Keys
      invariant forall g :: g in coefs <==> g in a.coefs.Keys - todo && At(a, g) + At(b, g) != 0
      invariant forall g :: g in coefs ==> coefs[g] == At(a, g) + At(b, g)
      decreases todo
    {
      var g :| g in todo;
      var v := a.coefs[g];
      if g in b.coefs {
        v := v + b.coefs[g];
      }
      if v != 0 {
        coefs := coefs[g := v];
      }
      todo := todo - {g};
    }
    var rest := b.coefs.Keys;
    while rest != {}
      invariant rest <= b.coefs.Keys
      invariant forall g :: g in coefs <==> g in a.coefs.Keys + (b.coefs.Keys - rest)
                                            && (g in a.coefs ==> At(a, g) + At(b, g) != 0)
      invariant forall g :: g in coefs ==> coefs[g] == At(a, g) + At(b, g)
      decreases rest
    {
      var g :| g in rest;
      if g !in a.coefs {
        coefs := coefs[g := b.coefs[g]];
      }
      rest := rest - {g};
    }
    res := LinExpr(coefs, a.cst + b.cst);
  }

  method Multiply(a: LinExpr, k: int) returns (res: LinExpr)
    ensures res == Scale(a, k)
  {
    if k == 0 {
      return Constant(0);
    }
    var coefs: map<nat, int> := map[];
    var todo := a.coefs.Keys;
    while todo != {}
      invariant todo <= a.coefs.Keys
      invariant coefs.Keys == a.coefs.Keys - todo
      invariant forall g :: g in coefs ==> coefs[g] == a.coefs[g] * k
      decreases todo
    {
      var g :| g in todo;
      coefs := coefs[g := a.coefs[g] * k];
      todo := todo - {g};
    }
    res := LinExpr(coefs, a.cst * k);
  }

  // ----- renaming variables -----

  // The terms of `c`, each under its new number.
  ghost predicate IsRenaming(c: map<nat, int>, ren: map<nat, nat>, d: map<nat, int>) {
    && c.Keys <= ren.Keys
    && (forall g, h :: g in c && h in c && ren[g] == ren[h] ==> g == h)
    && (forall g :: g in c ==> ren[g] in d && d[ren[g]] == c[g])
    && |d| == |c|
  }

  // The counts agree, so nothing else is present.
  lemma {:induction false} RenamingOnto(c: map<nat, int>, ren: map<nat, nat>, d: map<nat, int>)
    requires IsRenaming(c, ren, d)
    ensures forall i :: i in d ==> exists g :: g in c && ren[g] == i
    decreases |c|
  {
    if c != map[] {
      var k :| k in c;
      RenamingRemove(c, ren, d, k);
      RenamingOnto(c - {k}, ren, d - {ren[k]});
      forall i | i in d
        ensures exists g :: g in c && ren[g] == i
      {
        if i != ren[k] {
          assert i in d - {ren[k]};
          var g :| g in c - {k} && ren[g] == i;
          assert g in c;
        }
      }
    }
  }

  lemma RenamingInsert(c: map<nat, int>, ren: map<nat, nat>, d: map<nat, int>, g: nat, a: int, ren': map<nat, nat>)
    requires IsRenaming(c, ren, d) && g !in c && g in ren'
    requires forall h :: h in c ==> h in ren' && ren'[h] == ren[h] && ren'[h] != ren'[g]
    ensures IsRenaming(c[g := a], ren', d[ren'[g] := a])
  {
    RenamingOnto(c, ren, d);
    assert ren'[g] !in d;
  }

  lemma RenamingRemove(c: map<nat, int>, ren: map<nat, nat>, d: map<nat, int>, k: nat)
    requires IsRenaming(c, ren, d) && k in c
    ensures IsRenaming(c - {k}, ren, d - {ren[k]})
  {
    var c', d' := c - {k}, d - {ren[k]};
    forall g | g in c'
      ensures ren[g] in d' && d'[ren[g]] == c'[g]
    {
      assert ren[g] != ren[k];
    }
  }

  lemma SumPutBack(c: map<nat, int>, k: nat, v: Valuation, d: map<nat, int>, i: nat, w: Valuation)
    requires k in c && i in d && c[k] == d[i] && v(k) == w(i)
    requires SumTerms(c - {k}, v) == SumTerms(d - {i}, w)
    ensures SumTerms(c, v) == SumTerms(d, w)
  {
    SumRemove(c, k, v);
    SumRemove(d, i, w);
  }

  lemma {:induction false} SumRenamed(c: map<nat, int>, ren: map<nat, nat>, d: map<nat, int>,
                                      v: Valuation, w: Valuation)
    requires IsRenaming(c, ren, d)
    requires forall g :: g in c ==> w(ren[g]) == v(g)
    ensures SumTerms(d, w) == SumTerms(c, v)
    decreases |c|
  {
    if c == map[] {
      assert d == map[];
    } else {
      var k :| k in c;
      RenamingRemove(c, ren, d, k);
      SumRenamed(c - {k}, ren, d - {ren[k]}, v, w);
      SumPutBack(c, k, v, d, ren[k], w);
    }
  }
}
