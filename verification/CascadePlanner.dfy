/**
 Planning a DROP: RESTRICT refuses when a normal dependency exists, CASCADE lists everything
 below the seed, dependents first and the seed last.
 */
module CascadePlanner {
  import opened DependencyWalker

  datatype Behavior = Restrict | Cascade
  datatype Status = Fine | RestrictBlocked | CycleDetected
  datatype Plan = Plan(steps: seq<Dep>, blockingOid: nat, status: Status)

  const NORMAL := 'n'

  ghost predicate FirstNormal(deps: seq<Dep>, i: nat) {
    i < |deps| && deps[i].deptype == NORMAL && forall j | 0 <= j < i :: deps[j].deptype != NORMAL
  }

  lemma StepsAreEdges(rows: seq<DependRow>, seed: Obj, d: Dep)
    requires d in DepsOf(rows, Reachable(rows, seed))
    ensures d.obj in Reachable(rows, seed)
    ensures exists u :: Reaches(rows, seed, u) && Edge(rows, u, d.obj)
  {
    DepsOfMembers(rows, Reachable(rows, seed));
    var i :| 0 <= i < |rows| && rows[i].ref in Reachable(rows, seed) && d == Dep(rows[i].obj, rows[i].deptype);
    assert rows[i] in rows;
    assert Edge(rows, rows[i].ref, d.obj);
    ReachesStep(rows, seed, rows[i].ref, d.obj);
  }

  /** The last edge of a path to a reachable object is one of the steps. */
  lemma ReachableHasStep(rows: seq<DependRow>, seed: Obj, v: Obj)
    requires Reaches(rows, seed, v) && v != seed
    ensures exists d | d in DepsOf(rows, Reachable(rows, seed)) :: d.obj == v
  {
    var p :| PathFromTo(rows, p, seed, v);
    var n := |p| - 1;
    var q := p[..n];
    assert Edge(rows, p[n - 1], p[n]);
    forall i | 0 <= i < |q| - 1 ensures Edge(rows, q[i], q[i + 1]) {
      assert Edge(rows, p[i], p[i + 1]);
    }
    assert PathFromTo(rows, q, seed, p[n - 1]);
    PathStaysInside(rows, seed, q);
    var i :| 0 <= i < |rows| && rows[i].ref == p[n - 1] && rows[i].obj == v;
    DepsOfMembers(rows, Reachable(rows, seed));
    assert Dep(rows[i].obj, rows[i].deptype) in DepsOf(rows, Reachable(rows, seed));
  }

  lemma PathStaysInside(rows: seq<DependRow>, seed: Obj, p: seq<Obj>)
    requires Path(rows, p) && p[0] == seed
    ensures p[|p| - 1] in Objects(rows, seed)
  {
    if |p| > 1 {
      assert Edge(rows, p[|p| - 2], p[|p| - 1]);
      var i :| 0 <= i < |rows| && rows[i].ref == p[|p| - 2] && rows[i].obj == p[|p| - 1];
      assert rows[i] in rows;
    }
  }

  lemma SeedIsNoStep(rows: seq<DependRow>, seed: Obj, d: Dep)
    requires !CycleReachable(rows, seed) && d in DepsOf(rows, Reachable(rows, seed))
    ensures d.obj != seed
  {
    StepsAreEdges(rows, seed, d);
    if d.obj == seed {
      var u :| Reaches(rows, seed, u) && Edge(rows, u, seed);
      var p :| PathFromTo(rows, p, seed, u);
      var q := p + [seed];
      forall i | 0 <= i < |q| - 1 ensures Edge(rows, q[i], q[i + 1]) {
        if i < |p| - 1 {
          assert Edge(rows, p[i], p[i + 1]);
        }
      }
      ReachesSelf(rows, seed);
      assert PathFromTo(rows, q, seed, seed);
      assert false;
    }
  }

  /** What a successful cascade promises. */
  ghost predicate GoodCascade(rows: seq<DependRow>, seed: Obj, steps: seq<Dep>) {
    && |steps| > 0
    && steps[|steps| - 1] == Dep(seed, NORMAL)
    && (forall i | 0 <= i < |steps| - 1 :: steps[i].obj != seed)
    && multiset(steps[..|steps| - 1]) == multiset(DepsOf(rows, Reachable(rows, seed)))
    && DependentsFirst(rows, steps)
    && (set d | d in steps :: d.obj) == Reachable(rows, seed)
  }

  lemma SameMembers(a: seq<Dep>, b: seq<Dep>)
    requires multiset(a) == multiset(b)
    ensures forall d :: d in a <==> d in b
  {
    assert forall d :: d in a <==> d in multiset(a);
    assert forall d :: d in b <==> d in multiset(b);
  }

  /** The steps name exactly the reachable objects. */
  lemma StepsNameReachable(rows: seq<DependRow>, seed: Obj, steps: seq<Dep>)
    requires forall d :: d in steps <==> d in DepsOf(rows, Reachable(rows, seed)) || d == Dep(seed, NORMAL)
    ensures (set d | d in steps :: d.obj) == Reachable(rows, seed)
  {
    ReachesSelf(rows, seed);
    forall d | d in steps ensures d.obj in Reachable(rows, seed) {
      if d in DepsOf(rows, Reachable(rows, seed)) {
        StepsAreEdges(rows, seed, d);
      }
    }
    forall v | v in Reachable(rows, seed) ensures exists d | d in steps :: d.obj == v {
      if v == seed {
        assert Dep(seed, NORMAL) in steps;
      } else {
        ReachableHasStep(rows, seed, v);
      }
    }
  }

  lemma CascadeIsGood(rows: seq<DependRow>, seed: Obj, order: seq<Dep>)
    requires !CycleReachable(rows, seed) && DependentsFirst(rows, order)
    requires multiset(order) == multiset(DepsOf(rows, Reachable(rows, seed)))
    ensures GoodCascade(rows, seed, order + [Dep(seed, NORMAL)])
  {
    hide Reaches, CycleReachable, DepsOf;
    var below := DepsOf(rows, Reachable(rows, seed));
    var steps := order + [Dep(seed, NORMAL)];
    SameMembers(order, below);
    assert steps[..|steps| - 1] == order;
    forall i | 0 <= i < |order| ensures steps[i].obj != seed {
      assert order[i] in order;
      SeedIsNoStep(rows, seed, order[i]);
    }
    SeedDepsBelow(rows, seed);
    PushKeepsOrder(rows, order, Dep(seed, NORMAL));
    StepsNameReachable(rows, seed, steps);
  }

  lemma SeedDepsBelow(rows: seq<DependRow>, seed: Obj)
    ensures forall d | d in FetchDeps(rows, seed) :: d in DepsOf(rows, Reachable(rows, seed))
  {
    ReachesSelf(rows, seed);
    DepsOfMembers(rows, {seed});
    DepsOfMembers(rows, Reachable(rows, seed));
  }

  /** Row `j` is the first in which an object depends on the seed normally. */
  ghost predicate FirstBlocker(rows: seq<DependRow>, seed: Obj, j: nat) {
    && j < |rows| && rows[j].ref == seed && rows[j].deptype == 'n'
    && forall k | 0 <= k < j :: rows[k].ref != seed || rows[k].deptype != 'n'
  }

  /** The first normal dependent of the scan stands in the first such row. */
  lemma {:induction false} BlockerIsFirst(rows: seq<DependRow>, seed: Obj, i: nat) returns (j: nat)
    requires FirstNormal(FetchDeps(rows, seed), i)
    ensures FirstBlocker(rows, seed, j) && rows[j].obj == FetchDeps(rows, seed)[i].obj
    decreases rows
  {
    var r, rest := rows[0], rows[1..];
    var deps := FetchDeps(rows, seed);
    if r.ref == seed {
      assert deps == [Dep(r.obj, r.deptype)] + FetchDeps(rest, seed);
      if i == 0 {
        j := 0;
      } else {
        assert deps[0].deptype != NORMAL;
        assert forall k | 0 <= k < |deps| - 1 :: FetchDeps(rest, seed)[k] == deps[k + 1];
        j := BlockerIsFirst(rest, seed, i - 1);
        j := j + 1;
      }
    } else {
      assert deps == FetchDeps(rest, seed);
      j := BlockerIsFirst(rest, seed, i);
      j := j + 1;
    }
  }

  method PlanDrop(rows: seq<DependRow>, seed: Obj, behavior: Behavior) returns (plan: Plan)
    ensures behavior.Restrict? ==>
              && plan.steps == []
              && (plan.status.RestrictBlocked? <==> exists d | d in FetchDeps(rows, seed) :: d.deptype == 'n')
              && (plan.status.RestrictBlocked? ==>
                    exists j: nat :: FirstBlocker(rows, seed, j) && plan.blockingOid == rows[j].obj.oid)
              && (!plan.status.RestrictBlocked? ==> plan.status.Fine? && plan.blockingOid == INVALID_OID)
    ensures behavior.Cascade? ==>
              var w := WalkFrom(rows, seed);
              && plan.blockingOid == w.cycleAt && !plan.status.RestrictBlocked?
              && (plan.status.CycleDetected? <==> w.cycleAt != INVALID_OID)
              && plan.steps == if plan.status.CycleDetected? then [] else w.order + [Dep(seed, NORMAL)]
    ensures behavior.Cascade? && Named(rows, seed) ==>
              && (plan.status.CycleDetected? <==> CycleReachable(rows, seed))
              && (plan.status.CycleDetected? ==> plan.steps == [] && CycleHit(rows, seed, plan.blockingOid))
              && (plan.status.Fine? ==> plan.blockingOid == INVALID_OID && GoodCascade(rows, seed, plan.steps))
  {
    var deps := FetchDeps(rows, seed);
    if behavior.Restrict? {
      var i := 0;
      while i < |deps|
        invariant 0 <= i <= |deps|
        invariant forall j | 0 <= j < i :: deps[j].deptype != NORMAL
      {
        if deps[i].deptype == NORMAL {
          assert FirstNormal(deps, i);
          ghost var j := BlockerIsFirst(rows, seed, i);
          return Plan([], deps[i].obj.oid, RestrictBlocked);
        }
        i := i + 1;
      }
      return Plan([], INVALID_OID, Fine);
    }
    var ordered, cycleAt := TopologicalDropOrder(rows, seed);
    if cycleAt != INVALID_OID {
      return Plan([], cycleAt, CycleDetected);
    }
    var steps := [];
    var i := 0;
    while i < |ordered|
      invariant 0 <= i <= |ordered|
      invariant steps == ordered[..i]
    {
      steps := steps + [ordered[i]];
      i := i + 1;
    }
    assert ordered[..i] == ordered;
    if Named(rows, seed) {
      CascadeIsGood(rows, seed, ordered);
    }
    plan := Plan(steps + [Dep(seed, NORMAL)], INVALID_OID, Fine);
  }
}
