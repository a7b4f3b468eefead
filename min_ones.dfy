/**
 * The decision problem behind `find_itinerary`: Minimum-Ones satisfiability.
 * Each hop is a boolean (true = airborne), each customer a disjunctive clause,
 * and the objective is the number of airborne hops. `Solve` is a complete
 * branch-and-bound search standing in for the external CP-SAT solver.
 */
module MinOnes {
  import opened Wrappers

  /** "Hop `hop` is airborne" when `airborne`, "hop `hop` is by sea" otherwise. */
  datatype Literal = Literal(hop: nat, airborne: bool)

  /** A customer: satisfied when at least one of its literals holds. */
  type Clause = seq<Literal>

  /** A mode for hops 0..|a|-1: true is airborne, false is by sea. A prefix of
      a total assignment is a partial one. */
  type Assignment = seq<bool>

  /** The two terminal outcomes of the solver. */
  datatype Outcome = Optimal(assignment: Assignment) | Infeasible

  predicate LiteralHolds(a: Assignment, l: Literal)
  {
    l.hop < |a| && a[l.hop] == l.airborne
  }

  predicate ClauseHolds(a: Assignment, c: Clause)
  {
    exists i :: 0 <= i < |c| && LiteralHolds(a, c[i])
  }

  predicate Satisfies(a: Assignment, cs: seq<Clause>)
  {
    forall j :: 0 <= j < |cs| ==> ClauseHolds(a, cs[j])
  }

  /** The objective: the number of airborne hops. */
  function Cost(a: Assignment): nat
  {
    if |a| == 0 then 0 else Cost(a[..|a| - 1]) + (if a[|a| - 1] then 1 else 0)
  }

  /** Every literal names one of the `numHops` hops. */
  predicate InRange(numHops: nat, cs: seq<Clause>)
  {
    forall j, i :: 0 <= j < |cs| && 0 <= i < |cs[j]| ==> cs[j][i].hop < numHops
  }

  ghost predicate Feasible(numHops: nat, cs: seq<Clause>)
  {
    exists a: Assignment :: |a| == numHops && Satisfies(a, cs)
  }

  /** `a` satisfies every clause and no satisfying assignment is cheaper. */
  ghost predicate IsOptimal(a: Assignment, numHops: nat, cs: seq<Clause>)
  {
    && |a| == numHops && Satisfies(a, cs)
    && forall b: Assignment :: |b| == numHops && Satisfies(b, cs) ==> Cost(a) <= Cost(b)
  }

  // ---------------------------------------------------------------------------
  // Facts about the objective

  /** Extending a partial assignment never lowers its cost. */
  lemma {:induction false} CostOfPrefix(b: Assignment, k: nat)
    requires k <= |b|
    ensures Cost(b[..k]) <= Cost(b)
    decreases |b|
  {
    if k < |b| {
      var init := b[..|b| - 1];
      assert init[..k] == b[..k];
      CostOfPrefix(init, k);
    } else {
      assert b[..k] == b;
    }
  }

  /** The cost counts the airborne hops: turning one airborne hop to by-sea
      lowers it by exactly one. */
  lemma {:induction false} CostOfGrounding(a: Assignment, h: nat)
    requires h < |a| && a[h]
    ensures Cost(a[h := false]) + 1 == Cost(a)
    decreases |a|
  {
    var n := |a| - 1;
    var b := a[h := false];
    assert b[..n] == if h < n then a[..n][h := false] else a[..n];
    if h < n {
      CostOfGrounding(a[..n], h);
    }
  }

  /** Nothing is airborne exactly when the cost is zero. */
  lemma {:induction false} CostZero(a: Assignment)
    ensures Cost(a) == 0 <==> forall i :: 0 <= i < |a| ==> !a[i]
    decreases |a|
  {
    if |a| > 0 {
      var init := a[..|a| - 1];
      CostZero(init);
      assert forall i :: 0 <= i < |init| ==> init[i] == a[i];
    }
  }

  /** Assigning `x` to the next hop adds one to the cost exactly when `x` is airborne. */
  lemma CostOfPush(p: Assignment, x: bool)
    ensures Cost(p + [x]) == Cost(p) + (if x then 1 else 0)
  {
    assert (p + [x])[..|p|] == p;
  }

  // ---------------------------------------------------------------------------
  // The search tree

  /** `b` extends the partial assignment `p`. */
  predicate Extends(b: Assignment, p: Assignment)
  {
    |p| <= |b| && b[..|p|] == p
  }

  /** `b` lies to the left of the path `p` in the false-first search tree: it
      agrees with `p` up to some hop where `p` is airborne and `b` is by sea. */
  ghost predicate LeftOf(b: Assignment, p: Assignment)
  {
    exists i :: 0 <= i < |p| && i < |b| && b[..i] == p[..i] && p[i] && !b[i]
  }

  /** `b` needs no more search: it fails a clause, or the incumbent is no dearer. */
  ghost predicate Covered(b: Assignment, cs: seq<Clause>, best: Option<Assignment>)
  {
    !Satisfies(b, cs) || (best.Some? && Cost(best.value) <= Cost(b))
  }

  /** Every literal of `c` is already contradicted by the partial assignment `p`. */
  predicate Falsified(p: Assignment, c: Clause)
  {
    forall i :: 0 <= i < |c| ==> c[i].hop < |p| && p[c[i].hop] != c[i].airborne
  }

  /** Some clause is contradicted by `p`: the branch below `p` is infeasible. */
  predicate Conflict(p: Assignment, cs: seq<Clause>)
  {
    exists j :: 0 <= j < |cs| && Falsified(p, cs[j])
  }

  /** A conflict found on a partial assignment rules out all its extensions. */
  lemma ConflictRulesOut(b: Assignment, p: Assignment, cs: seq<Clause>)
    requires Extends(b, p) && Conflict(p, cs)
    ensures !Satisfies(b, cs)
  {
    var j :| 0 <= j < |cs| && Falsified(p, cs[j]);
    forall i | 0 <= i < |cs[j]| ensures !LiteralHolds(b, cs[j][i]) {
      assert b[cs[j][i].hop] == p[cs[j][i].hop];
    }
  }

  /** Where `b` first leaves the path `p`. */
  lemma {:induction false} FirstDifference(b: Assignment, p: Assignment)
    requires |p| <= |b| && !Extends(b, p)
    ensures exists i :: 0 <= i < |p| && b[..i] == p[..i] && b[i] != p[i]
    decreases |p|
  {
    var n := |p| - 1;
    if b[..n] == p[..n] {
      assert b[n] != p[n];
    } else {
      FirstDifference(b, p[..n]);
      var i :| 0 <= i < n && b[..i] == p[..n][..i] && b[i] != p[..n][i];
      assert p[..n][..i] == p[..i];
    }
  }

  /** When every hop on the path is airborne, every assignment is left of the
      path or below it. */
  lemma AllAirborneCoversAll(b: Assignment, p: Assignment)
    requires |p| <= |b| && forall i :: 0 <= i < |p| ==> p[i]
    ensures LeftOf(b, p) || Extends(b, p)
  {
    if !Extends(b, p) {
      FirstDifference(b, p);
    }
  }

  /** Backtracking from `p` to `q` (drop the trailing airborne hops, then turn
      the last by-sea hop airborne): what is left of `q` was left of `p` or below it. */
  lemma BacktrackCovers(b: Assignment, p: Assignment, k: nat)
    requires 0 < k <= |p| <= |b| && !p[k - 1]
    requires forall i :: k <= i < |p| ==> p[i]
    requires LeftOf(b, p[..k - 1] + [true])
    ensures LeftOf(b, p) || Extends(b, p)
  {
    var q := p[..k - 1] + [true];
    var i :| 0 <= i < |q| && i < |b| && b[..i] == q[..i] && q[i] && !b[i];
    if i < k - 1 {
      assert q[..i] == p[..i] && p[i];
    } else {
      assert b[..k] == p[..k] by {
        assert q[..k - 1] == p[..k - 1];
        assert b[..k] == b[..k - 1] + [b[k - 1]] && p[..k] == p[..k - 1] + [p[k - 1]];
      }
      if !Extends(b, p) {
        FirstDifference(b, p);
        var j :| 0 <= j < |p| && b[..j] == p[..j] && b[j] != p[j];
        assert p[j] && !b[j];
      }
    }
  }

  // ---------------------------------------------------------------------------
  // Termination: the number of search-tree nodes still to be visited

  function Pow2(n: nat): (r: nat)
    ensures r >= 1
  {
    if n == 0 then 1 else 2 * Pow2(n - 1)
  }

  /** The sizes of the untried airborne sibling subtrees along the path. */
  ghost function UntriedSiblings(numHops: nat, p: Assignment): nat
    requires |p| <= numHops
  {
    if |p| == 0 then 0
    else UntriedSiblings(numHops, p[..|p| - 1])
         + (if p[|p| - 1] then 0 else Pow2(numHops - |p| + 1) - 1)
  }

  /** Nodes of the subtree below `p` and of the untried sibling subtrees. */
  ghost function Pending(numHops: nat, p: Assignment): nat
    requires |p| <= numHops
  {
    Pow2(numHops - |p| + 1) - 1 + UntriedSiblings(numHops, p)
  }

  lemma {:induction false} UntriedSiblingsOfPrefix(numHops: nat, p: Assignment, k: nat)
    requires k <= |p| <= numHops
    ensures UntriedSiblings(numHops, p[..k]) <= UntriedSiblings(numHops, p)
    decreases |p|
  {
    if k < |p| {
      var init := p[..|p| - 1];
      assert init[..k] == p[..k];
      UntriedSiblingsOfPrefix(numHops, init, k);
    } else {
      assert p[..k] == p;
    }
  }

  /** Descending by sea visits one node. */
  lemma PendingOfDescend(numHops: nat, p: Assignment)
    requires |p| < numHops
    ensures Pending(numHops, p + [false]) < Pending(numHops, p)
  {
    assert (p + [false])[..|p|] == p;
  }

  /** Backtracking skips the finished subtree below `p`. */
  lemma PendingOfBacktrack(numHops: nat, p: Assignment, k: nat)
    requires 0 < k <= |p| <= numHops && !p[k - 1]
    ensures Pending(numHops, p[..k - 1] + [true]) < Pending(numHops, p)
  {
    var q := p[..k - 1] + [true];
    assert q[..k - 1] == p[..k - 1];
    assert p[..k][..k - 1] == p[..k - 1];
    UntriedSiblingsOfPrefix(numHops, p, k);
  }

  // ---------------------------------------------------------------------------
  // The search

  /** Depth-first branch and bound over an assignment stack. Each node tries
      by-sea before airborne; a node is cut off when its airborne count already
      reaches the incumbent's cost or when it contradicts a clause. */
  method Solve(numHops: nat, cs: seq<Clause>) returns (r: Outcome)
    requires InRange(numHops, cs)
    ensures r.Optimal? ==> IsOptimal(r.assignment, numHops, cs)
    ensures r.Infeasible? <==> !Feasible(numHops, cs)
  {
    var path: Assignment := [];
    var ones: nat := 0;
    var best: Option<Assignment> := None;
    var bestCost: nat := 0;
    while true
      invariant |path| <= numHops && ones == Cost(path)
      invariant best.Some? ==> |best.value| == numHops && Satisfies(best.value, cs) && bestCost == Cost(best.value)
      invariant forall b: Assignment :: |b| == numHops && LeftOf(b, path) ==> Covered(b, cs, best)
      decreases Pending(numHops, path)
    {
      var bounded := best.Some? && ones >= bestCost;
      var conflict := Conflict(path, cs);
      if !bounded && !conflict && |path| < numHops {
        PendingOfDescend(numHops, path);
        CostOfPush(path, false);
        path := path + [false];
        continue;
      }
      ghost var previous := best;
      if !bounded && !conflict && Satisfies(path, cs) {
        best, bestCost := Some(path), ones;
      }
      // Everything left of the node or below it is now covered.
      forall b: Assignment | |b| == numHops && (LeftOf(b, path) || Extends(b, path))
        ensures Covered(b, cs, best)
      {
        if LeftOf(b, path) {
          assert Covered(b, cs, previous);
        } else if bounded {
          CostOfPrefix(b, |path|);
        } else if conflict {
          ConflictRulesOut(b, path, cs);
        } else {
          assert b == b[..|path|];
        }
      }
      // Pop the airborne hops on top of the stack.
      var k := |path|;
      assert path[..k] == path;
      while k > 0 && path[k - 1]
        invariant 0 <= k <= |path|
        invariant forall i :: k <= i < |path| ==> path[i]
        invariant ones == Cost(path[..k])
      {
        assert path[..k][..k - 1] == path[..k - 1];
        k := k - 1;
        ones := ones - 1;
      }
      if k == 0 {
        forall b: Assignment | |b| == numHops ensures Covered(b, cs, best) {
          AllAirborneCoversAll(b, path);
        }
        if best.Some? {
          return Optimal(best.value);
        }
        return Infeasible;
      }
      // Turn the topmost by-sea hop airborne.
      assert path[..k][..k - 1] == path[..k - 1];
      CostOfPush(path[..k - 1], true);
      PendingOfBacktrack(numHops, path, k);
      forall b: Assignment | |b| == numHops && LeftOf(b, path[..k - 1] + [true])
        ensures Covered(b, cs, best)
      {
        BacktrackCovers(b, path, k);
      }
      path := path[..k - 1] + [true];
      ones := ones + 1;
    }
  }

  // ---------------------------------------------------------------------------
  // Properties of the optimisation problem

  /** No literal of any clause names hop `h`. */
  predicate Unconstrained(h: nat, cs: seq<Clause>)
  {
    forall j, i :: 0 <= j < |cs| && 0 <= i < |cs[j]| ==> cs[j][i].hop != h
  }

  /** A hop no customer mentions is by sea in every optimum: flying it would
      add cost and satisfy nothing. */
  lemma UnconstrainedHopBySea(a: Assignment, numHops: nat, cs: seq<Clause>, h: nat)
    requires IsOptimal(a, numHops, cs) && h < numHops && Unconstrained(h, cs)
    ensures !a[h]
  {
    if a[h] {
      var b := a[h := false];
      forall j | 0 <= j < |cs| ensures ClauseHolds(b, cs[j]) {
        var i :| 0 <= i < |cs[j]| && LiteralHolds(a, cs[j][i]);
        assert LiteralHolds(b, cs[j][i]);
      }
      CostOfGrounding(a, h);
    }
  }

  /** Adding a customer never makes the problem cheaper. */
  lemma AddingClauseMonotone(numHops: nat, cs: seq<Clause>, c: Clause, a: Assignment, b: Assignment)
    requires IsOptimal(a, numHops, cs) && |b| == numHops && Satisfies(b, cs + [c])
    ensures Feasible(numHops, cs) && Cost(a) <= Cost(b)
  {
    assert forall j :: 0 <= j < |cs| ==> (cs + [c])[j] == cs[j];
  }

  /** Adding a customer never turns an infeasible problem feasible. */
  lemma AddingClauseKeepsInfeasible(numHops: nat, cs: seq<Clause>, c: Clause, b: Assignment)
    requires |b| == numHops && Satisfies(b, cs + [c])
    ensures Feasible(numHops, cs)
  {
    assert forall j :: 0 <= j < |cs| ==> (cs + [c])[j] == cs[j];
    assert Satisfies(b, cs);
  }
}
