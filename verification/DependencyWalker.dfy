/**
 The walk over `pg_depend` that orders a CASCADE drop.

 A depth-first walk colours objects gray while they are on the stack and black when they are
 done; meeting a gray object means a cycle.  Each edge is pushed behind everything that hangs
 below it, so dependents are dropped before what they depend on.

 The walk ends on every graph.  The colours are kept by OID alone and OID 0 doubles as "no cycle",
 so its answer is right where no object below the seed has OID 0 and no two of them share one; the
 last part shows what each of these does to it.
 */
module DependencyWalker {

  const INVALID_OID: nat := 0

  datatype Obj = Obj(classid: nat, oid: nat)

  /** One row of pg_depend: `obj` depends on `ref`. */
  datatype DependRow = DependRow(obj: Obj, ref: Obj, deptype: char)

  /** One dependent, as the catalog scan returns it. */
  datatype Dep = Dep(obj: Obj, deptype: char)

  /** The dependents of the objects in `s`, in row order. */
  function DepsOf(rows: seq<DependRow>, s: set<Obj>): seq<Dep> {
    if rows == [] then []
    else (if rows[0].ref in s then [Dep(rows[0].obj, rows[0].deptype)] else []) + DepsOf(rows[1..], s)
  }

  /** The catalog scan: all rows that refer to `o`. */
  function FetchDeps(rows: seq<DependRow>, o: Obj): seq<Dep> {
    DepsOf(rows, {o})
  }

  // ------------------------------------------------------------ graphs

  predicate Edge(rows: seq<DependRow>, u: Obj, v: Obj) {
    exists i | 0 <= i < |rows| :: rows[i].ref == u && rows[i].obj == v
  }

  ghost predicate Path(rows: seq<DependRow>, p: seq<Obj>) {
    |p| > 0 && forall i | 0 <= i < |p| - 1 :: Edge(rows, p[i], p[i + 1])
  }

  ghost predicate PathFromTo(rows: seq<DependRow>, p: seq<Obj>, u: Obj, v: Obj) {
    Path(rows, p) && p[0] == u && p[|p| - 1] == v
  }

  ghost predicate Reaches(rows: seq<DependRow>, u: Obj, v: Obj) {
    exists p :: PathFromTo(rows, p, u, v)
  }

  ghost predicate OnCycle(rows: seq<DependRow>, v: Obj) {
    exists p :: |p| > 1 && PathFromTo(rows, p, v, v)
  }

  /** The objects a walk from `seed` can meet. */
  function Objects(rows: seq<DependRow>, seed: Obj): set<Obj> {
    {seed} + set r | r in rows :: r.obj
  }

  /** Below the seed no object has OID 0, and an OID names one object. */
  ghost predicate Named(rows: seq<DependRow>, seed: Obj) {
    && (forall o | Reaches(rows, seed, o) :: o.oid != INVALID_OID)
    && (forall a, b | Reaches(rows, seed, a) && Reaches(rows, seed, b) && a.oid == b.oid :: a == b)
  }

  ghost predicate CycleReachable(rows: seq<DependRow>, seed: Obj) {
    exists v :: Reaches(rows, seed, v) && OnCycle(rows, v)
  }

  // ------------------------------------------------------------ facts about the scan

  lemma {:induction false} DepsOfMembers(rows: seq<DependRow>, s: set<Obj>)
    ensures forall d | d in DepsOf(rows, s) ::
              exists i | 0 <= i < |rows| :: rows[i].ref in s && d == Dep(rows[i].obj, rows[i].deptype)
    ensures forall i | 0 <= i < |rows| && rows[i].ref in s :: Dep(rows[i].obj, rows[i].deptype) in DepsOf(rows, s)
  {
    if rows != [] {
      DepsOfMembers(rows[1..], s);
      forall d | d in DepsOf(rows, s)
        ensures exists i | 0 <= i < |rows| :: rows[i].ref in s && d == Dep(rows[i].obj, rows[i].deptype)
      {
        if d in DepsOf(rows[1..], s) {
          var i :| 0 <= i < |rows| - 1 && rows[1..][i].ref in s && d == Dep(rows[1..][i].obj, rows[1..][i].deptype);
          assert rows[i + 1] == rows[1..][i];
        } else {
          assert rows[0].ref in s;
        }
      }
      forall i | 0 <= i < |rows| && rows[i].ref in s
        ensures Dep(rows[i].obj, rows[i].deptype) in DepsOf(rows, s)
      {
        if i > 0 {
          assert rows[1..][i - 1] == rows[i];
        }
      }
    }
  }

  lemma FetchIsEdge(rows: seq<DependRow>, o: Obj, d: Dep, seed: Obj)
    requires d in FetchDeps(rows, o)
    ensures Edge(rows, o, d.obj) && d.obj in Objects(rows, seed)
  {
    DepsOfMembers(rows, {o});
    var i :| 0 <= i < |rows| && rows[i].ref in {o} && d == Dep(rows[i].obj, rows[i].deptype);
    assert rows[i] in rows;
  }

  lemma EdgeIsFetch(rows: seq<DependRow>, o: Obj, v: Obj) returns (d: Dep)
    requires Edge(rows, o, v)
    ensures d in FetchDeps(rows, o) && d.obj == v
  {
    DepsOfMembers(rows, {o});
    var i :| 0 <= i < |rows| && rows[i].ref == o && rows[i].obj == v;
    d := Dep(rows[i].obj, rows[i].deptype);
  }

  lemma ReachesSelf(rows: seq<DependRow>, u: Obj)
    ensures Reaches(rows, u, u)
  {
    assert PathFromTo(rows, [u], u, u);
  }

  lemma ReachesStep(rows: seq<DependRow>, u: Obj, v: Obj, w: Obj)
    requires Reaches(rows, u, v) && Edge(rows, v, w)
    ensures Reaches(rows, u, w)
  {
    var p :| PathFromTo(rows, p, u, v);
    var q := p + [w];
    forall i | 0 <= i < |q| - 1 ensures Edge(rows, q[i], q[i + 1]) {
      if i < |p| - 1 {
        assert Edge(rows, p[i], p[i + 1]);
      }
    }
    assert PathFromTo(rows, q, u, w);
  }

  // ------------------------------------------------------------ finished objects

  /** Finished objects in the order they turned black: everything below an object came before it. */
  ghost predicate Closed(rows: seq<DependRow>, finish: seq<Obj>) {
    forall i, v | 0 <= i < |finish| && Edge(rows, finish[i], v) :: v in finish[..i]
  }

  /** From a finished object, every path of one or more edges ends at an earlier finished object. */
  lemma {:induction false} ClosedDescends(rows: seq<DependRow>, finish: seq<Obj>, i: nat, p: seq<Obj>)
    requires Closed(rows, finish) && i < |finish|
    requires Path(rows, p) && p[0] == finish[i]
    ensures |p| > 1 ==> p[|p| - 1] in finish[..i]
    decreases |p|
  {
    if |p| > 1 {
      assert Edge(rows, p[0], p[1]);
      var j :| 0 <= j < i && finish[j] == p[1];
      var q := p[1..];
      forall k | 0 <= k < |q| - 1 ensures Edge(rows, q[k], q[k + 1]) {
        assert Edge(rows, p[k + 1], p[k + 2]);
      }
      ClosedDescends(rows, finish, j, q);
      if |q| > 1 {
        assert finish[..j] <= finish[..i];
        assert q[|q| - 1] in finish[..j];
      }
    }
  }

  ghost predicate Distinct(finish: seq<Obj>) {
    forall i, j | 0 <= i < j < |finish| :: finish[i] != finish[j]
  }

  /** No cycle is reachable from a finished object. */
  lemma ClosedHasNoCycle(rows: seq<DependRow>, finish: seq<Obj>, o: Obj)
    requires Closed(rows, finish) && Distinct(finish) && o in finish
    ensures forall v | Reaches(rows, o, v) :: v in finish && !OnCycle(rows, v)
  {
    forall v | Reaches(rows, o, v) ensures v in finish && !OnCycle(rows, v) {
      var i :| 0 <= i < |finish| && finish[i] == o;
      var p :| PathFromTo(rows, p, o, v);
      ClosedDescends(rows, finish, i, p);
      var k :| 0 <= k < |finish| && finish[k] == v;
      forall q | |q| > 1 && PathFromTo(rows, q, v, v) ensures false {
        ClosedDescends(rows, finish, k, q);
      }
    }
  }

  /** How often `d` occurs. */
  ghost function Occ(ds: seq<Dep>, d: Dep): nat {
    if ds == [] then 0 else (if ds[|ds| - 1] == d then 1 else 0) + Occ(ds[..|ds| - 1], d)
  }

  /** How often `d` is a step of one of the finished objects. */
  ghost function OccBelow(rows: seq<DependRow>, finish: seq<Obj>, d: Dep): nat {
    if finish == [] then 0
    else OccBelow(rows, finish[..|finish| - 1], d) + Occ(FetchDeps(rows, finish[|finish| - 1]), d)
  }

  lemma OccPush(ds: seq<Dep>, x: Dep, d: Dep)
    ensures Occ(ds + [x], d) == Occ(ds, d) + if x == d then 1 else 0
  {
    assert (ds + [x])[..|ds|] == ds;
  }

  lemma OccBelowPush(rows: seq<DependRow>, finish: seq<Obj>, o: Obj, d: Dep)
    ensures OccBelow(rows, finish + [o], d) == OccBelow(rows, finish, d) + Occ(FetchDeps(rows, o), d)
  {
    assert (finish + [o])[..|finish|] == finish;
  }

  lemma {:induction false} OccCons(x: Dep, ds: seq<Dep>, d: Dep)
    ensures Occ([x] + ds, d) == (if x == d then 1 else 0) + Occ(ds, d)
  {
    if ds == [] {
      assert [x] + ds == [x] && [x][..0] == [];
    } else {
      var n := |ds| - 1;
      OccCons(x, ds[..n], d);
      assert ([x] + ds)[..n + 1] == [x] + ds[..n];
    }
  }

  lemma OccHead(rows: seq<DependRow>, s: set<Obj>, d: Dep)
    requires rows != []
    ensures Occ(DepsOf(rows, s), d) ==
            (if rows[0].ref in s && Dep(rows[0].obj, rows[0].deptype) == d then 1 else 0)
            + Occ(DepsOf(rows[1..], s), d)
  {
    hide Occ;
    if rows[0].ref in s {
      OccCons(Dep(rows[0].obj, rows[0].deptype), DepsOf(rows[1..], s), d);
    } else {
      assert DepsOf(rows, s) == DepsOf(rows[1..], s);
    }
  }

  lemma {:induction false} OccDepsOf(rows: seq<DependRow>, s: set<Obj>, o: Obj, d: Dep)
    requires o !in s
    ensures Occ(DepsOf(rows, s + {o}), d) == Occ(DepsOf(rows, s), d) + Occ(FetchDeps(rows, o), d)
  {
    if rows != [] {
      OccDepsOf(rows[1..], s, o, d);
      OccHead(rows, s + {o}, d);
      OccHead(rows, s, d);
      OccHead(rows, {o}, d);
    }
  }

  lemma {:induction false} DepsOfNone(rows: seq<DependRow>)
    ensures DepsOf(rows, {}) == []
  {
    if rows != [] {
      DepsOfNone(rows[1..]);
    }
  }

  lemma {:induction false} OccBelowIsDepsOf(rows: seq<DependRow>, finish: seq<Obj>, s: set<Obj>, d: Dep)
    requires Distinct(finish) && s == set o | o in finish
    ensures OccBelow(rows, finish, d) == Occ(DepsOf(rows, s), d)
  {
    if finish == [] {
      DepsOfNone(rows);
      assert s == {};
    } else {
      var n := |finish| - 1;
      var before := finish[..n];
      var s0 := set o | o in before;
      OccBelowIsDepsOf(rows, before, s0, d);
      assert finish == before + [finish[n]];
      assert s == s0 + {finish[n]};
      OccDepsOf(rows, s0, finish[n], d);
    }
  }

  lemma {:induction false} OccIsMultiset(ds: seq<Dep>, d: Dep)
    ensures multiset(ds)[d] == Occ(ds, d)
  {
    if ds != [] {
      var n := |ds| - 1;
      OccIsMultiset(ds[..n], d);
      assert ds == ds[..n] + [ds[n]];
    }
  }

  lemma SameOccSameMultiset(a: seq<Dep>, b: seq<Dep>)
    requires forall d :: Occ(a, d) == Occ(b, d)
    ensures multiset(a) == multiset(b)
  {
    forall d ensures multiset(a)[d] == multiset(b)[d] {
      assert Occ(a, d) == Occ(b, d);
      OccIsMultiset(a, d);
      OccIsMultiset(b, d);
    }
  }

  // ------------------------------------------------------------ the walk

  /** Before the step of an object, a step of each of its dependents. */
  ghost predicate DependentsFirst(rows: seq<DependRow>, order: seq<Dep>) {
    forall i, d | 0 <= i < |order| && d in FetchDeps(rows, order[i].obj) :: d in order[..i]
  }

  ghost predicate Emitted(rows: seq<DependRow>, finish: seq<Obj>, order: seq<Dep>) {
    forall o, d | o in finish && d in FetchDeps(rows, o) :: d in order
  }

  function Oids(objs: set<Obj>): set<nat> {
    set o | o in objs :: o.oid
  }

  function OidsOf(objs: seq<Obj>): set<nat> {
    set o | o in objs :: o.oid
  }

  /** The fields of a walk, as a value; `finish` lists the black objects as they finished. */
  datatype View = View(gray: set<nat>, black: set<nat>, order: seq<Dep>, finish: seq<Obj>)

  ghost predicate Below(rows: seq<DependRow>, seed: Obj, objs: seq<Obj>) {
    forall o | o in objs :: o in Objects(rows, seed) && Reaches(rows, seed, o)
  }

  /** The state between two steps of a walk from `seed` that met no cycle; `stack` holds the gray
      objects, each depending on the one below it. */
  ghost predicate Walking(rows: seq<DependRow>, seed: Obj, stack: seq<Obj>, w: View) {
    && (stack != [] ==> Path(rows, stack))
    && Below(rows, seed, stack) && Below(rows, seed, w.finish)
    && w.gray == OidsOf(stack) && w.black == OidsOf(w.finish) && w.gray !! w.black
    && Closed(rows, w.finish) && Distinct(w.finish)
    && Emitted(rows, w.finish, w.order)
    && DependentsFirst(rows, w.order)
  }

  /** The OID a walk reports belongs to an object on a cycle below the seed. */
  ghost predicate CycleHit(rows: seq<DependRow>, seed: Obj, oid: nat) {
    exists v: Obj :: v.oid == oid && Reaches(rows, seed, v) && OnCycle(rows, v)
  }

  /** Meeting a gray object closes a cycle along the stack. */
  lemma GrayClosesCycle(rows: seq<DependRow>, seed: Obj, stack: seq<Obj>, o: Obj, k: nat)
    requires k < |stack| && stack[k] == o && Path(rows, stack)
    requires Edge(rows, stack[|stack| - 1], o) && Reaches(rows, seed, o)
    ensures CycleHit(rows, seed, o.oid)
  {
    var p := stack[k..] + [o];
    forall i | 0 <= i < |p| - 1 ensures Edge(rows, p[i], p[i + 1]) {
      if i < |p| - 2 {
        assert Edge(rows, stack[k + i], stack[k + i + 1]);
      }
    }
    assert PathFromTo(rows, p, o, o);
    assert OnCycle(rows, o);
  }

  lemma PathGrows(rows: seq<DependRow>, stack: seq<Obj>, o: Obj)
    requires stack != [] ==> Path(rows, stack) && Edge(rows, stack[|stack| - 1], o)
    ensures Path(rows, stack + [o])
  {
  }

  /** Pushing a dependent whose own dependents are all in the order keeps dependents first. */
  lemma PushKeepsOrder(rows: seq<DependRow>, order: seq<Dep>, d: Dep)
    requires DependentsFirst(rows, order)
    requires forall c | c in FetchDeps(rows, d.obj) :: c in order
    ensures DependentsFirst(rows, order + [d])
  {
    var after := order + [d];
    forall i, c | 0 <= i < |after| && c in FetchDeps(rows, after[i].obj) ensures c in after[..i] {
      if i < |order| {
        assert after[i] == order[i] && after[..i] == order[..i];
      } else {
        assert after[..i] == order;
      }
    }
  }

  /** Blackening an object whose dependents are all finished keeps the finished objects closed. */
  lemma FinishKeepsClosed(rows: seq<DependRow>, finish: seq<Obj>, o: Obj)
    requires Closed(rows, finish)
    requires forall d | d in FetchDeps(rows, o) :: d.obj in finish
    ensures Closed(rows, finish + [o])
  {
    var after := finish + [o];
    forall i, v | 0 <= i < |after| && Edge(rows, after[i], v) ensures v in after[..i] {
      if i < |finish| {
        assert after[i] == finish[i] && after[..i] == finish[..i];
      } else {
        assert after[..i] == finish;
        var d := EdgeIsFetch(rows, o, v);
      }
    }
  }

  lemma EnterGray(rows: seq<DependRow>, seed: Obj, stack: seq<Obj>, w: View, o: Obj)
    requires Walking(rows, seed, stack, w) && o.oid !in w.black
    requires stack != [] ==> Edge(rows, stack[|stack| - 1], o)
    requires o in Objects(rows, seed) && Reaches(rows, seed, o)
    ensures Walking(rows, seed, stack + [o], w.(gray := w.gray + {o.oid}))
  {
    PathGrows(rows, stack, o);
  }

  lemma PushStep(rows: seq<DependRow>, seed: Obj, stack: seq<Obj>, w: View, d: Dep)
    requires Walking(rows, seed, stack, w) && d.obj in w.finish
    ensures Walking(rows, seed, stack, w.(order := w.order + [d]))
  {
    PushKeepsOrder(rows, w.order, d);
  }

  lemma LeaveBlack(rows: seq<DependRow>, seed: Obj, stack: seq<Obj>, w: View, o: Obj)
    requires Walking(rows, seed, stack + [o], w)
    requires o.oid !in OidsOf(stack)
    requires Done(FetchDeps(rows, o), |FetchDeps(rows, o)|, w)
    ensures Walking(rows, seed, stack,
              w.(gray := w.gray - {o.oid}, black := w.black + {o.oid}, finish := w.finish + [o]))
  {
    forall d | d in FetchDeps(rows, o) ensures d.obj in w.finish && d in w.order {
      var j :| 0 <= j < |FetchDeps(rows, o)| && FetchDeps(rows, o)[j] == d;
    }
    FinishKeepsClosed(rows, w.finish, o);
    var deeper := stack + [o];
    assert forall x | x in stack :: x in deeper;
    assert o in deeper;
    assert OidsOf(deeper) == OidsOf(stack) + {o.oid};
    assert OidsOf(w.finish + [o]) == w.black + {o.oid};
    if stack != [] {
      forall i | 0 <= i < |stack| - 1 ensures Edge(rows, stack[i], stack[i + 1]) {
        assert Edge(rows, deeper[i], deeper[i + 1]);
      }
    }
    forall x | x in w.finish ensures x != o {
      assert x.oid in w.black;
    }
  }

  ghost predicate Balanced(rows: seq<DependRow>, w: View, v: View, extra: seq<Dep>, d: Dep) {
    Occ(v.order, d) + OccBelow(rows, w.finish, d) == Occ(w.order, d) + OccBelow(rows, v.finish, d) + Occ(extra, d)
  }

  /** From `w` to `v` the walk only added: finished objects with all their steps, and the steps `extra`
      of the object being walked. */
  ghost predicate Advanced(rows: seq<DependRow>, w: View, v: View, extra: seq<Dep>) {
    && w.finish <= v.finish && w.order <= v.order && w.black <= v.black
    && forall d :: Balanced(rows, w, v, extra, d)
  }

  lemma AdvancePush(rows: seq<DependRow>, w: View, v: View, u: View, extra: seq<Dep>, x: Dep)
    requires Advanced(rows, w, v, extra) && Advanced(rows, v, u, [])
    ensures Advanced(rows, w, u.(order := u.order + [x]), extra + [x])
  {
    forall d ensures Balanced(rows, w, u.(order := u.order + [x]), extra + [x], d) {
      assert Balanced(rows, w, v, extra, d) && Balanced(rows, v, u, [], d);
      OccPush(u.order, x, d);
      OccPush(extra, x, d);
    }
  }

  lemma AdvanceLeave(rows: seq<DependRow>, w: View, v: View, o: Obj, u: View)
    requires Advanced(rows, w, v, FetchDeps(rows, o))
    requires u.order == v.order && u.black == v.black + {o.oid} && u.finish == v.finish + [o]
    ensures Advanced(rows, w, u, [])
  {
    forall d ensures Balanced(rows, w, u, [], d) {
      assert Balanced(rows, w, v, FetchDeps(rows, o), d);
      OccBelowPush(rows, v.finish, o, d);
    }
  }

  lemma Shrinks(all: set<nat>, gray: set<nat>, black: set<nat>, x: nat, black': set<nat>)
    requires x in all && x !in gray && x !in black && black <= black'
    ensures all - (gray + {x}) - black' < all - gray - black
  {
    assert x in all - gray - black;
  }

  lemma Narrows(all: set<nat>, gray: set<nat>, black: set<nat>, black': set<nat>)
    requires black <= black'
    ensures all - gray - black' == all - gray - black || all - gray - black' < all - gray - black
  {
  }

  lemma AdvancedIgnoresGray(rows: seq<DependRow>, w: View, w': View, v: View)
    requires w' == w.(gray := w'.gray) && Advanced(rows, w', v, [])
    ensures Advanced(rows, w, v, [])
  {
    forall d ensures Balanced(rows, w, v, [], d) {
      assert Balanced(rows, w', v, [], d);
    }
  }

  /** The first `i` dependents are finished and their steps pushed. */
  ghost predicate Done(deps: seq<Dep>, i: nat, v: View) {
    i <= |deps| && forall j | 0 <= j < i :: deps[j].obj in v.finish && deps[j] in v.order
  }

  /** One turn of the loop: `v` before, `u` after walking dependent `i`. */
  lemma TurnDone(
    rows: seq<DependRow>, seed: Obj, stack: seq<Obj>, w: View, v: View, u: View, deps: seq<Dep>, i: nat)
    requires i < |deps| && Done(deps, i, v) && Advanced(rows, w, v, deps[..i])
    requires Walking(rows, seed, stack, u) && Advanced(rows, v, u, []) && deps[i].obj in u.finish
    ensures var after := u.(order := u.order + [deps[i]]);
      && Walking(rows, seed, stack, after)
      && Done(deps, i + 1, after)
      && Advanced(rows, w, after, deps[..i + 1])
  {
    PushStep(rows, seed, stack, u, deps[i]);
    AdvancePush(rows, w, v, u, deps[..i], deps[i]);
    assert deps[..i + 1] == deps[..i] + [deps[i]];
    forall j | 0 <= j < i ensures deps[j].obj in u.finish && deps[j] in u.order {
      assert deps[j].obj in v.finish && deps[j] in v.order;
    }
  }

  /** The invariant of the loop over dependents: `w` is the state at its start. */
  ghost predicate Turn(rows: seq<DependRow>, seed: Obj, stack: seq<Obj>, w: View, v: View, deps: seq<Dep>, i: nat) {
    && Walking(rows, seed, stack, v) && v.gray == w.gray
    && Done(deps, i, v) && Advanced(rows, w, v, deps[..i])
  }

  // ------------------------------------------------------------ the walk

  /** The fields of the walk. */
  datatype Walk = Walk(gray: set<nat>, black: set<nat>, order: seq<Dep>, cycleAt: nat)

  /** The OIDs a walk has not coloured yet. */
  function White(rows: seq<DependRow>, seed: Obj, w: Walk): set<nat> {
    Oids(Objects(rows, seed)) - w.gray - w.black
  }

  predicate Within(rows: seq<DependRow>, seed: Obj, deps: seq<Dep>) {
    forall i | 0 <= i < |deps| :: deps[i].obj in Objects(rows, seed)
  }

  lemma FetchWithin(rows: seq<DependRow>, seed: Obj, o: Obj)
    ensures Within(rows, seed, FetchDeps(rows, o))
  {
    forall i | 0 <= i < |FetchDeps(rows, o)| ensures FetchDeps(rows, o)[i].obj in Objects(rows, seed) {
      FetchIsEdge(rows, o, FetchDeps(rows, o)[i], seed);
    }
  }

  /** The walk from one object. */
  function WalkObj(rows: seq<DependRow>, seed: Obj, w: Walk, o: Obj): (r: Walk)
    requires o in Objects(rows, seed)
    ensures w.black <= r.black && (r.cycleAt == INVALID_OID ==> r.gray == w.gray && w.cycleAt == INVALID_OID)
    decreases White(rows, seed, w), 0
  {
    if w.cycleAt != INVALID_OID || o.oid in w.black then w
    else if o.oid in w.gray then w.(cycleAt := o.oid)
    else
      FetchWithin(rows, seed, o);
      Shrinks(Oids(Objects(rows, seed)), w.gray, w.black, o.oid, w.black);
      var v := WalkList(rows, seed, w.(gray := w.gray + {o.oid}), FetchDeps(rows, o));
      if v.cycleAt != INVALID_OID then v
      else v.(gray := v.gray - {o.oid}, black := v.black + {o.oid})
  }

  /** The walk over a list of dependents, each pushed once it is done. */
  function WalkList(rows: seq<DependRow>, seed: Obj, w: Walk, deps: seq<Dep>): (r: Walk)
    requires Within(rows, seed, deps)
    ensures w.black <= r.black && (r.cycleAt == INVALID_OID ==> r.gray == w.gray && (deps != [] ==> w.cycleAt == INVALID_OID))
    decreases White(rows, seed, w), |deps|
  {
    if deps == [] then w
    else
      var v := WalkObj(rows, seed, w, deps[0].obj);
      if v.cycleAt != INVALID_OID then v
      else
        Narrows(Oids(Objects(rows, seed)), w.gray, w.black, v.black);
        WalkList(rows, seed, v.(order := v.order + [deps[0]]), deps[1..])
  }

  class WalkState {
    var gray: set<nat>
    var black: set<nat>
    var order: seq<Dep>
    var cycleAt: nat

    constructor ()
      ensures Now() == Walk({}, {}, [], INVALID_OID)
    {
      gray, black, order, cycleAt := {}, {}, [], INVALID_OID;
    }

    ghost function Now(): Walk
      reads this
    {
      Walk(gray, black, order, cycleAt)
    }
  }

  /** The recursion; it ends on every graph. */
  method Dfs(st: WalkState, rows: seq<DependRow>, o: Obj, ghost seed: Obj)
    requires o in Objects(rows, seed)
    modifies st
    ensures st.Now() == WalkObj(rows, seed, old(st.Now()), o)
    decreases White(rows, seed, st.Now()), 0
  {
    if st.cycleAt != INVALID_OID {
      return;
    }
    if o.oid in st.black {
      return;
    }
    if o.oid in st.gray {
      st.cycleAt := o.oid;
      return;
    }
    FetchWithin(rows, seed, o);
    Shrinks(Oids(Objects(rows, seed)), st.gray, st.black, o.oid, st.black);
    st.gray := st.gray + {o.oid};
    WalkDeps(st, rows, FetchDeps(rows, o), seed);
    if st.cycleAt != INVALID_OID {
      return;
    }
    st.gray := st.gray - {o.oid};
    st.black := st.black + {o.oid};
  }

  /** The loop over the dependents of a gray object. */
  method WalkDeps(st: WalkState, rows: seq<DependRow>, deps: seq<Dep>, ghost seed: Obj)
    requires Within(rows, seed, deps) && st.cycleAt == INVALID_OID
    modifies st
    ensures st.Now() == WalkList(rows, seed, old(st.Now()), deps)
    decreases White(rows, seed, st.Now()), |deps| + 1
  {
    var i := 0;
    while i < |deps|
      invariant 0 <= i <= |deps| && st.cycleAt == INVALID_OID && Within(rows, seed, deps[i..])
      invariant st.gray == old(st.gray) && old(st.black) <= st.black
      invariant WalkList(rows, seed, st.Now(), deps[i..]) == WalkList(rows, seed, old(st.Now()), deps)
    {
      assert deps[i..][0] == deps[i] && deps[i..][1..] == deps[i + 1..];
      Narrows(Oids(Objects(rows, seed)), st.gray, old(st.black), st.black);
      Dfs(st, rows, deps[i].obj, seed);
      if st.cycleAt != INVALID_OID {
        return;
      }
      st.order := st.order + [deps[i]];
      i := i + 1;
    }
  }

  // ------------------------------------------------------------ what the walk finds

  /** The state of a walk together with the objects finished so far. */
  ghost function ViewOf(w: Walk, finish: seq<Obj>): View {
    View(w.gray, w.black, w.order, finish)
  }

  /** The walk from `o` either closes a cycle or finishes `o` with everything below it. */
  lemma {:induction false} WalkObjGood(rows: seq<DependRow>, seed: Obj, stack: seq<Obj>, w: Walk, finish: seq<Obj>, o: Obj)
    returns (done: seq<Obj>)
    requires Named(rows, seed) && o in Objects(rows, seed) && Reaches(rows, seed, o)
    requires w.cycleAt == INVALID_OID && Walking(rows, seed, stack, ViewOf(w, finish))
    requires stack != [] ==> Edge(rows, stack[|stack| - 1], o)
    ensures var r := WalkObj(rows, seed, w, o);
      && (r.cycleAt != INVALID_OID ==> CycleHit(rows, seed, r.cycleAt))
      && (r.cycleAt == INVALID_OID ==>
            && Walking(rows, seed, stack, ViewOf(r, done)) && o in done
            && Advanced(rows, ViewOf(w, finish), ViewOf(r, done), []))
    decreases White(rows, seed, w), 0
  {
    hide Walking, Advanced, Named;
    done := finish;
    if o.oid in w.black {
      BlackIsDone(rows, seed, stack, w, finish, o);
    } else if o.oid in w.gray {
      GrayIsCycle(rows, seed, stack, w, finish, o);
    } else {
      FetchWithin(rows, seed, o);
      Shrinks(Oids(Objects(rows, seed)), w.gray, w.black, o.oid, w.black);
      EnterGray(rows, seed, stack, ViewOf(w, finish), o);
      var entered := w.(gray := w.gray + {o.oid});
      var deps := FetchDeps(rows, o);
      NothingDone(rows, seed, stack + [o], ViewOf(entered, finish), deps);
      assert deps[0..] == deps;
      done := WalkListGood(rows, seed, stack + [o], ViewOf(entered, finish), entered, finish, o, deps, 0);
      var v := WalkList(rows, seed, entered, deps);
      if v.cycleAt == INVALID_OID {
        assert deps[..|deps|] == deps;
        NotOnStack(rows, seed, stack, w, finish, o);
        LeaveBlack(rows, seed, stack, ViewOf(v, done), o);
        var r := WalkObj(rows, seed, w, o);
        AdvanceLeave(rows, ViewOf(entered, finish), ViewOf(v, done), o, ViewOf(r, done + [o]));
        AdvancedIgnoresGray(rows, ViewOf(w, finish), ViewOf(entered, finish), ViewOf(r, done + [o]));
        done := done + [o];
      }
    }
  }

  lemma BlackIsDone(rows: seq<DependRow>, seed: Obj, stack: seq<Obj>, w: Walk, finish: seq<Obj>, o: Obj)
    requires Named(rows, seed) && Reaches(rows, seed, o) && Walking(rows, seed, stack, ViewOf(w, finish))
    requires o.oid in w.black
    ensures o in finish && Advanced(rows, ViewOf(w, finish), ViewOf(w, finish), [])
  {
    var b :| b in finish && b.oid == o.oid;
    assert Reaches(rows, seed, b);
  }

  lemma GrayIsCycle(rows: seq<DependRow>, seed: Obj, stack: seq<Obj>, w: Walk, finish: seq<Obj>, o: Obj)
    requires Named(rows, seed) && Reaches(rows, seed, o) && Walking(rows, seed, stack, ViewOf(w, finish))
    requires o.oid in w.gray && (stack != [] ==> Edge(rows, stack[|stack| - 1], o))
    ensures CycleHit(rows, seed, o.oid) && o.oid != INVALID_OID
  {
    var k :| 0 <= k < |stack| && stack[k].oid == o.oid;
    assert stack[k] in stack && Reaches(rows, seed, stack[k]);
    GrayClosesCycle(rows, seed, stack, o, k);
  }

  lemma NotOnStack(rows: seq<DependRow>, seed: Obj, stack: seq<Obj>, w: Walk, finish: seq<Obj>, o: Obj)
    requires Walking(rows, seed, stack, ViewOf(w, finish)) && o.oid !in w.gray
    ensures o.oid !in OidsOf(stack)
  {
  }

  lemma NothingDone(rows: seq<DependRow>, seed: Obj, stack: seq<Obj>, v: View, deps: seq<Dep>)
    requires Walking(rows, seed, stack, v)
    ensures Turn(rows, seed, stack, v, v, deps, 0)
  {
  }

  /** The walk over the remaining dependents of `o`, from turn `i` of the loop. */
  lemma {:induction false} WalkListGood(rows: seq<DependRow>, seed: Obj, stack: seq<Obj>, start: View, w: Walk,
                                        finish: seq<Obj>, o: Obj, deps: seq<Dep>, i: nat)
    returns (done: seq<Obj>)
    requires Named(rows, seed) && Reaches(rows, seed, o)
    requires deps == FetchDeps(rows, o) && i <= |deps| && Within(rows, seed, deps[i..])
    requires stack != [] && stack[|stack| - 1] == o
    requires w.cycleAt == INVALID_OID && Turn(rows, seed, stack, start, ViewOf(w, finish), deps, i)
    ensures var r := WalkList(rows, seed, w, deps[i..]);
      && (r.cycleAt != INVALID_OID ==> CycleHit(rows, seed, r.cycleAt))
      && (r.cycleAt == INVALID_OID ==> Turn(rows, seed, stack, start, ViewOf(r, done), deps, |deps|))
    decreases White(rows, seed, w), |deps| - i
  {
    hide Walking, Advanced, Named, Done;
    done := finish;
    if i < |deps| {
      assert deps[i..][0] == deps[i] && deps[i..][1..] == deps[i + 1..];
      FetchIsEdge(rows, o, deps[i], seed);
      ReachesStep(rows, seed, o, deps[i].obj);
      var mid := WalkObjGood(rows, seed, stack, w, finish, deps[i].obj);
      var v := WalkObj(rows, seed, w, deps[i].obj);
      if v.cycleAt == INVALID_OID {
        TurnDone(rows, seed, stack, start, ViewOf(w, finish), ViewOf(v, mid), deps, i);
        Narrows(Oids(Objects(rows, seed)), w.gray, w.black, v.black);
        done := WalkListGood(rows, seed, stack, start, v.(order := v.order + [deps[i]]), mid, o, deps, i + 1);
      }
    }
  }

  /** The objects below the seed. */
  ghost function Reachable(rows: seq<DependRow>, seed: Obj): set<Obj> {
    set o | o in Objects(rows, seed) && Reaches(rows, seed, o)
  }

  function WalkFrom(rows: seq<DependRow>, seed: Obj): Walk {
    WalkObj(rows, seed, Walk({}, {}, [], INVALID_OID), seed)
  }

  /** A cycle is reported exactly when one is reachable, and the reported OID lies on it; otherwise
      there is one step per pg_depend row below the seed, dependents first. */
  lemma WalkIsExact(rows: seq<DependRow>, seed: Obj)
    requires Named(rows, seed)
    ensures var r := WalkFrom(rows, seed);
      && (r.cycleAt != INVALID_OID <==> CycleReachable(rows, seed))
      && (r.cycleAt != INVALID_OID ==> CycleHit(rows, seed, r.cycleAt))
      && (r.cycleAt == INVALID_OID ==>
            multiset(r.order) == multiset(DepsOf(rows, Reachable(rows, seed))) && DependentsFirst(rows, r.order))
  {
    ReachesSelf(rows, seed);
    var w := Walk({}, {}, [], INVALID_OID);
    var done := WalkObjGood(rows, seed, [], w, [], seed);
    var r := WalkFrom(rows, seed);
    if r.cycleAt == INVALID_OID {
      ClosedHasNoCycle(rows, done, seed);
      AllBelowSteps(rows, seed, r, done);
    }
  }

  lemma AllBelowSteps(rows: seq<DependRow>, seed: Obj, r: Walk, done: seq<Obj>)
    requires Walking(rows, seed, [], ViewOf(r, done))
    requires forall v | Reaches(rows, seed, v) :: v in done
    requires Advanced(rows, ViewOf(Walk({}, {}, [], INVALID_OID), []), ViewOf(r, done), [])
    ensures multiset(r.order) == multiset(DepsOf(rows, Reachable(rows, seed)))
  {
    assert Reachable(rows, seed) == set o | o in done;
    forall d ensures Occ(r.order, d) == Occ(DepsOf(rows, Reachable(rows, seed)), d) {
      assert Balanced(rows, View({}, {}, [], []), ViewOf(r, done), [], d);
      OccBelowIsDepsOf(rows, done, Reachable(rows, seed), d);
    }
    SameOccSameMultiset(r.order, DepsOf(rows, Reachable(rows, seed)));
  }

  /** Walks from the seed, on any graph. */
  method TopologicalDropOrder(rows: seq<DependRow>, seed: Obj) returns (order: seq<Dep>, cycleAt: nat)
    ensures order == WalkFrom(rows, seed).order && cycleAt == WalkFrom(rows, seed).cycleAt
    ensures Named(rows, seed) ==>
              && (cycleAt != INVALID_OID <==> CycleReachable(rows, seed))
              && (cycleAt != INVALID_OID ==> CycleHit(rows, seed, cycleAt))
              && (cycleAt == INVALID_OID ==>
                    && multiset(order) == multiset(DepsOf(rows, Reachable(rows, seed)))
                    && DependentsFirst(rows, order))
  {
    hide Named, CycleReachable, CycleHit, DependentsFirst, WalkObj;
    var st := new WalkState();
    Dfs(st, rows, seed, seed);
    order, cycleAt := st.order, st.cycleAt;
    if Named(rows, seed) {
      WalkIsExact(rows, seed);
    }
  }

  // ------------------------------------------------------------ where the walk is wrong

  lemma {:induction false} NoDeps(rows: seq<DependRow>, o: Obj)
    requires forall i | 0 <= i < |rows| :: rows[i].ref != o
    ensures FetchDeps(rows, o) == []
  {
    if rows != [] {
      NoDeps(rows[1..], o);
    }
  }

  lemma OneDep(r: DependRow)
    ensures FetchDeps([r], r.ref) == [Dep(r.obj, r.deptype)]
  {
    assert [r][1..] == [];
    assert DepsOf([], {r.ref}) == [];
  }

  lemma OneRowPath(r: DependRow, p: seq<Obj>)
    requires Path([r], p) && |p| > 1
    ensures p[0] == r.ref && p[|p| - 1] == r.obj
  {
    assert Edge([r], p[0], p[1]) && Edge([r], p[|p| - 2], p[|p| - 1]);
  }

  /** A dependent that shares its OID with the seed is taken for the seed: a cycle is reported and
      there is none. */
  lemma SharedOidIsTakenForACycle(oid: nat, class0: nat, class1: nat)
    requires oid != INVALID_OID && class0 != class1
    ensures var seed := Obj(class0, oid);
      var rows := [DependRow(Obj(class1, oid), seed, 'n')];
      WalkFrom(rows, seed).cycleAt == oid && !CycleReachable(rows, seed)
  {
    var seed, dep := Obj(class0, oid), Obj(class1, oid);
    var rows := [DependRow(dep, seed, 'n')];
    OneDep(rows[0]);
    assert Within(rows, seed, FetchDeps(rows, seed)) by { FetchWithin(rows, seed, seed); }
    var w := Walk({oid}, {}, [], INVALID_OID);
    assert {} + {oid} == {oid};
    assert dep in Objects(rows, seed);
    assert WalkObj(rows, seed, w, dep).cycleAt == oid;
    assert WalkList(rows, seed, w, [Dep(dep, 'n')]).cycleAt == oid;
    forall v | OnCycle(rows, v) ensures false {
      var p :| |p| > 1 && PathFromTo(rows, p, v, v);
      OneRowPath(rows[0], p);
    }
  }

  /** A cycle through OID 0 is not reported. */
  lemma OidZeroHidesACycle(classid: nat)
    ensures var seed := Obj(classid, INVALID_OID);
      var rows := [DependRow(seed, seed, 'n')];
      WalkFrom(rows, seed).cycleAt == INVALID_OID && CycleReachable(rows, seed)
  {
    var seed := Obj(classid, INVALID_OID);
    var rows := [DependRow(seed, seed, 'n')];
    OneDep(rows[0]);
    var deps := FetchDeps(rows, seed);
    assert deps == [Dep(seed, 'n')] && deps[1..] == [];
    assert Within(rows, seed, deps) by { FetchWithin(rows, seed, seed); }
    var w := Walk({INVALID_OID}, {}, [], INVALID_OID);
    assert {} + {INVALID_OID} == {INVALID_OID};
    assert WalkObj(rows, seed, w, seed) == w;
    assert WalkList(rows, seed, w.(order := [] + [deps[0]]), []) == w.(order := [deps[0]]);
    assert WalkList(rows, seed, w, deps) == w.(order := [deps[0]]);
    assert Edge(rows, seed, seed);
    assert PathFromTo(rows, [seed, seed], seed, seed);
    ReachesSelf(rows, seed);
  }

  /** An object whose OID belongs to a finished object is skipped, with any cycle below it. */
  lemma SharedOidHidesACycle(top: nat, oid: nat, class0: nat, class1: nat)
    requires top != INVALID_OID && oid != INVALID_OID && top != oid && class0 != class1
    ensures var seed, done, skipped := Obj(class0, top), Obj(class0, oid), Obj(class1, oid);
      var rows := [DependRow(done, seed, 'n'), DependRow(skipped, seed, 'n'), DependRow(skipped, skipped, 'n')];
      WalkFrom(rows, seed).cycleAt == INVALID_OID && CycleReachable(rows, seed)
  {
    var seed, done, skipped := Obj(class0, top), Obj(class0, oid), Obj(class1, oid);
    var rows := [DependRow(done, seed, 'n'), DependRow(skipped, seed, 'n'), DependRow(skipped, skipped, 'n')];
    var a, b := Dep(done, 'n'), Dep(skipped, 'n');
    assert rows[1..] == [rows[1], rows[2]] && rows[1..][1..] == [rows[2]] && rows[1..][1..][1..] == [];
    assert DepsOf([rows[2]], {seed}) == [];
    assert DepsOf([rows[1], rows[2]], {seed}) == [b];
    var deps := FetchDeps(rows, seed);
    assert deps == [a, b];
    FetchWithin(rows, seed, seed);
    NoDeps(rows, done);
    var w := Walk({top}, {}, [], INVALID_OID);
    assert {} + {top} == {top};
    assert done in Objects(rows, seed) && skipped in Objects(rows, seed);
    var w1 := WalkObj(rows, seed, w, done);
    var entered := w.(gray := {top} + {oid});
    assert WalkList(rows, seed, entered, []) == entered;
    assert w1 == entered.(gray := {top} + {oid} - {oid}, black := {} + {oid});
    assert {top} + {oid} - {oid} == {top} && {} + {oid} == {oid};
    var w2 := w1.(order := [] + [a]);
    assert WalkObj(rows, seed, w2, skipped) == w2;
    assert deps[1..] == [b] && [b][1..] == [];
    assert WalkList(rows, seed, w2, [b]).cycleAt == INVALID_OID;
    assert WalkList(rows, seed, w, deps).cycleAt == INVALID_OID;
    assert Edge(rows, seed, skipped) by { assert rows[1].ref == seed && rows[1].obj == skipped; }
    assert Edge(rows, skipped, skipped) by { assert rows[2].ref == skipped && rows[2].obj == skipped; }
    ReachesSelf(rows, seed);
    ReachesStep(rows, seed, seed, skipped);
    assert PathFromTo(rows, [skipped, skipped], skipped, skipped);
  }

  // ------------------------------------------------------------ exactly when it is right

  /** A graph over the given objects. */
  predicate Over(objs: set<Obj>, rows: seq<DependRow>, seed: Obj) {
    seed in objs && forall i | 0 <= i < |rows| :: rows[i].obj in objs && rows[i].ref in objs
  }

  /** The walk reports a cycle exactly when there is one below the seed. */
  ghost predicate Detects(rows: seq<DependRow>, seed: Obj) {
    WalkFrom(rows, seed).cycleAt != INVALID_OID <==> CycleReachable(rows, seed)
  }

  /** It does, names an object on a cycle, and otherwise orders every row below the seed. */
  ghost predicate Exact(rows: seq<DependRow>, seed: Obj) {
    var r := WalkFrom(rows, seed);
    && Detects(rows, seed)
    && (r.cycleAt != INVALID_OID ==> CycleHit(rows, seed, r.cycleAt))
    && (r.cycleAt == INVALID_OID ==>
          multiset(r.order) == multiset(DepsOf(rows, Reachable(rows, seed))) && DependentsFirst(rows, r.order))
  }

  /** OIDs tell the objects apart, and none is the invalid one. */
  predicate WellNamed(objs: set<Obj>) {
    && (forall o | o in objs :: o.oid != INVALID_OID)
    && (forall a, b | a in objs && b in objs && a.oid == b.oid :: a == b)
  }

  lemma ReachesWithin(objs: set<Obj>, rows: seq<DependRow>, seed: Obj, o: Obj)
    requires Over(objs, rows, seed) && Reaches(rows, seed, o)
    ensures o in objs
  {
    var p :| PathFromTo(rows, p, seed, o);
    if |p| > 1 {
      assert Edge(rows, p[|p| - 2], p[|p| - 1]);
    }
  }

  lemma WellNamedIsNamed(objs: set<Obj>, rows: seq<DependRow>, seed: Obj)
    requires Over(objs, rows, seed) && WellNamed(objs)
    ensures Named(rows, seed)
  {
    hide Over, Reaches;
    forall o | Reaches(rows, seed, o) ensures o in objs {
      ReachesWithin(objs, rows, seed, o);
    }
  }

  /** Badly named objects have a graph on which the walk is wrong about cycles. */
  lemma BadNamesMislead(objs: set<Obj>) returns (rows: seq<DependRow>, seed: Obj)
    requires !WellNamed(objs)
    ensures Over(objs, rows, seed) && !Detects(rows, seed)
  {
    hide WalkObj, CycleReachable;
    if o :| o in objs && o.oid == INVALID_OID {
      rows, seed := [DependRow(o, o, 'n')], o;
      OidZeroHidesACycle(o.classid);
    } else {
      var a, b :| a in objs && b in objs && a.oid == b.oid && a != b;
      rows, seed := [DependRow(b, a, 'n')], a;
      SharedOidIsTakenForACycle(a.oid, a.classid, b.classid);
    }
  }

  /** Over given objects the walk is right about the cycles of every graph, and right in everything
      it answers, exactly when OIDs tell the objects apart and none is the invalid one. */
  lemma ExactIff(objs: set<Obj>)
    ensures WellNamed(objs) <==> forall rows, seed | Over(objs, rows, seed) :: Detects(rows, seed)
    ensures WellNamed(objs) <==> forall rows, seed | Over(objs, rows, seed) :: Exact(rows, seed)
  {
    hide Over, WellNamed, WalkFrom, CycleReachable, CycleHit, DependentsFirst;
    if WellNamed(objs) {
      forall rows, seed | Over(objs, rows, seed) ensures Exact(rows, seed) && Detects(rows, seed) {
        WellNamedIsNamed(objs, rows, seed);
        WalkIsExact(rows, seed);
      }
    } else {
      var rows, seed := BadNamesMislead(objs);
    }
  }

  // ------------------------------------------------------------ the order of the scan

  /** The scan goes through the rows in their order. */
  lemma {:induction false} ScanInOrder(a: seq<DependRow>, b: seq<DependRow>, s: set<Obj>)
    ensures DepsOf(a + b, s) == DepsOf(a, s) + DepsOf(b, s)
    ensures |a| == 1 ==> DepsOf(a, s) == if a[0].ref in s then [Dep(a[0].obj, a[0].deptype)] else []
  {
    if a == [] {
      assert a + b == b;
    } else {
      ScanInOrder(a[1..], b, s);
      assert (a + b)[1..] == a[1..] + b;
      DepConcat(if a[0].ref in s then [Dep(a[0].obj, a[0].deptype)] else [], DepsOf(a[1..], s), DepsOf(b, s));
    }
  }

  lemma DepConcat(a: seq<Dep>, b: seq<Dep>, c: seq<Dep>)
    ensures a + (b + c) == a + b + c
  {
  }
}
