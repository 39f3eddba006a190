/** Walks along a step relation, and what acyclicity gives on finitely many vertices. */
module Walks {
  ghost predicate Walk(step: (nat, nat) -> bool, path: seq<nat>) {
    path != [] && forall i :: 0 <= i < |path| - 1 ==> step(path[i], path[i + 1])
  }

  ghost predicate WalkFromTo(step: (nat, nat) -> bool, path: seq<nat>, u: nat, v: nat) {
    |path| >= 2 && Walk(step, path) && path[0] == u && path[|path| - 1] == v
  }

  // One step or more leads from `u` to `v`.
  ghost predicate Leads(step: (nat, nat) -> bool, u: nat, v: nat) {
    exists path :: WalkFromTo(step, path, u, v)
  }

  ghost predicate Acyclic(step: (nat, nat) -> bool) {
    forall u :: !Leads(step, u, u)
  }

  lemma StepLeads(step: (nat, nat) -> bool, u: nat, v: nat)
    requires step(u, v)
    ensures Leads(step, u, v)
  {
    assert WalkFromTo(step, [u, v], u, v);
  }

  lemma LeadsOn(step: (nat, nat) -> bool, u: nat, v: nat, w: nat)
    requires Leads(step, u, v) && step(v, w)
    ensures Leads(step, u, w)
  {
    var path :| WalkFromTo(step, path, u, v);
    assert WalkFromTo(step, path + [w], u, w);
  }

  // When every vertex has at most one step, a longer walk goes through that step.
  lemma LeadsThrough(step: (nat, nat) -> bool, u: nat, v: nat)
    requires Leads(step, u, v)
    ensures exists w :: step(u, w) && (w == v || Leads(step, w, v))
  {
    var path :| WalkFromTo(step, path, u, v);
    var w := path[1];
    assert step(path[0], w);
    if |path| > 2 {
      var rest := path[1..];
      forall i | 0 <= i < |rest| - 1
        ensures step(rest[i], rest[i + 1])
      {
        assert step(path[i + 1], path[i + 2]);
      }
      assert WalkFromTo(step, rest, w, v);
    }
  }

  // A walk that does not turn in circles has no more steps than there are
  // vertices.
  lemma WalkIsShort(step: (nat, nat) -> bool, path: seq<nat>, n: nat)
    requires Acyclic(step) && Walk(step, path) && forall i :: 0 <= i < |path| ==> path[i] < n
    ensures |path| <= n
  {
    forall i, j | 0 <= i < j < |path|
      ensures path[i] != path[j]
    {
      if path[i] == path[j] {
        assert WalkFromTo(step, path[i..j + 1], path[i], path[i]);
        assert Leads(step, path[i], path[i]);
        assert false;
      }
    }
    DistinctIsShort(path, n);
  }

  lemma {:induction false} DistinctIsShort(path: seq<nat>, n: nat)
    requires forall i :: 0 <= i < |path| ==> path[i] < n
    requires forall i, j :: 0 <= i < j < |path| ==> path[i] != path[j]
    ensures |path| <= n
  {
    if path != [] {
      assert path[0] < n;
      var top := n - 1;
      if k :| 0 <= k < |path| && path[k] == top {
        DistinctIsShort(path[..k] + path[k + 1..], n - 1);
      } else {
        DistinctIsShort(path[1..], n - 1);
      }
    }
  }

  // No vertex has two steps.
  ghost predicate Functional(step: (nat, nat) -> bool) {
    forall u, v, w :: step(u, v) && step(u, w) ==> v == w
  }

  // Two vertices on the way of a third one lie on one line.
  lemma {:induction false} OneLine(step: (nat, nat) -> bool, path: seq<nat>, u: nat, v: nat, w: nat)
    requires Functional(step) && WalkFromTo(step, path, u, v) && Leads(step, u, w)
    ensures v == w || Leads(step, v, w) || Leads(step, w, v)
    decreases |path|
  {
    LeadsThrough(step, u, w);
    assert step(path[0], path[1]);
    var rest := path[1..];
    if |rest| == 1 {
      assert rest[0] == v;
    } else {
      forall i | 0 <= i < |rest| - 1
        ensures step(rest[i], rest[i + 1])
      {
        assert step(path[i + 1], path[i + 2]);
      }
      assert WalkFromTo(step, rest, rest[0], v);
      if rest[0] == w {
        assert Leads(step, w, v);
      } else {
        OneLine(step, rest, rest[0], v, w);
      }
    }
  }
}
