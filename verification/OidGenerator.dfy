/**
 The lock-free OID generator as a state machine over its atomic steps.

 A 32-bit counter is advanced by a fetch-and-add in `allocate` and raised by a compare-and-swap
 loop in `seed`.  A thread that draws an OID at or above the hard limit aborts and takes no
 further step; the headroom above the limit absorbs one such draw per thread.
 */
module OidGenerator {

  const FIRST_USER_OID: nat := 16384
  const OID_HARD_LIMIT: nat := 0xFFFF_0000
  const WORD: nat := 0x1_0000_0000
  const MAX_THREADS: nat := 65535

  datatype Thread =
    | Idle
    | Aborting
    | Seeding(highWater: nat, target: nat, current: nat)

  /** `returned` and `seeded` record what callers saw: the OIDs allocate returned, in order, and
      the high-water marks of completed seeds. */
  datatype State = State(next: nat, threads: seq<Thread>, returned: seq<nat>, seeded: set<nat>)

  datatype Step =
    | FetchAdd(t: nat)
    | SeedLoad(t: nat, highWater: nat)
    | SeedSwap(t: nat, spurious: bool)
    | SeedDone(t: nat)

  function Target(highWater: nat): nat {
    if highWater < FIRST_USER_OID then FIRST_USER_OID else (highWater + 1) % WORD
  }

  predicate Enabled(s: State, a: Step) {
    && a.t < |s.threads|
    && match a
       case FetchAdd(t) => s.threads[t].Idle?
       case SeedLoad(t, h) => s.threads[t].Idle? && h < WORD
       case SeedSwap(t, _) => s.threads[t].Seeding? && s.threads[t].current < s.threads[t].target
       case SeedDone(t) => s.threads[t].Seeding? && s.threads[t].current >= s.threads[t].target
  }

  function Next(s: State, a: Step): State
    requires Enabled(s, a)
  {
    match a
    case FetchAdd(t) =>
      var s' := s.(next := (s.next + 1) % WORD);
      if s.next >= OID_HARD_LIMIT then s'.(threads := s.threads[t := Aborting])
      else s'.(returned := s.returned + [s.next])
    case SeedLoad(t, h) =>
      s.(threads := s.threads[t := Seeding(h, Target(h), s.next)])
    case SeedSwap(t, spurious) =>
      var th := s.threads[t];
      if s.next == th.current && !spurious then
        s.(next := th.target, threads := s.threads[t := Idle], seeded := s.seeded + {th.highWater})
      else s.(threads := s.threads[t := th.(current := s.next)])
    case SeedDone(t) =>
      s.(threads := s.threads[t := Idle], seeded := s.seeded + {s.threads[t].highWater})
  }

  /** Seeds keep the counter at or below the limit. */
  predicate Legal(s: State, a: Step) {
    Enabled(s, a) && (a.SeedLoad? ==> a.highWater < OID_HARD_LIMIT)
  }

  // ------------------------------------------------------------ the invariant

  function Aborted(threads: seq<Thread>): (n: nat)
    ensures n <= |threads|
  {
    if threads == [] then 0 else (if threads[0].Aborting? then 1 else 0) + Aborted(threads[1..])
  }

  lemma {:induction false} AbortedUpdate(threads: seq<Thread>, t: nat, th: Thread)
    requires t < |threads|
    ensures Aborted(threads[t := th]) ==
            Aborted(threads) - (if threads[t].Aborting? then 1 else 0) + (if th.Aborting? then 1 else 0)
  {
    if t > 0 {
      AbortedUpdate(threads[1..], t - 1, th);
      assert threads[t := th][1..] == threads[1..][t - 1 := th];
    } else {
      assert threads[t := th][1..] == threads[1..];
    }
  }

  lemma {:induction false} NotAllAborted(threads: seq<Thread>, t: nat)
    requires t < |threads| && !threads[t].Aborting?
    ensures Aborted(threads) < |threads|
  {
    if t > 0 {
      NotAllAborted(threads[1..], t - 1);
    }
  }

  ghost predicate Increasing(xs: seq<nat>) {
    forall i, j | 0 <= i < j < |xs| :: xs[i] < xs[j]
  }

  ghost predicate GoodThread(th: Thread, next: nat) {
    th.Seeding? ==>
      && th.highWater < OID_HARD_LIMIT && th.target == Target(th.highWater)
      && th.current <= next
  }

  ghost predicate Inv(s: State) {
    && s.next <= OID_HARD_LIMIT + Aborted(s.threads)
    && |s.threads| <= MAX_THREADS
    && Increasing(s.returned)
    && (forall x | x in s.returned :: x < s.next && x < OID_HARD_LIMIT)
    && (forall h | h in s.seeded :: h < s.next && FIRST_USER_OID <= s.next)
    && (forall t | 0 <= t < |s.threads| :: GoodThread(s.threads[t], s.next))
  }

  lemma TargetInRange(h: nat)
    requires h < OID_HARD_LIMIT
    ensures h < Target(h) <= OID_HARD_LIMIT && FIRST_USER_OID <= Target(h)
  {
  }

  lemma FetchAddKeepsInv(s: State, a: Step)
    requires Inv(s) && Legal(s, a) && a.FetchAdd?
    ensures Inv(Next(s, a)) && Next(s, a).next == s.next + 1
  {
    hide Aborted;
    NotAllAborted(s.threads, a.t);
    AbortedUpdate(s.threads, a.t, Aborting);
    var s' := Next(s, a);
    assert s.next + 1 < WORD;
    forall i, j | 0 <= i < j < |s'.returned| ensures s'.returned[i] < s'.returned[j] {
      assert s'.returned[i] in s.returned || i == |s.returned|;
    }
  }

  lemma SeedKeepsInv(s: State, a: Step)
    requires Inv(s) && Legal(s, a) && !a.FetchAdd?
    ensures Inv(Next(s, a)) && s.next <= Next(s, a).next
  {
    var s' := Next(s, a);
    AbortedUpdate(s.threads, a.t, s'.threads[a.t]);
    match a
    case SeedLoad(t, h) =>
    case SeedSwap(t, _) => TargetInRange(s.threads[t].highWater);
    case SeedDone(t) => TargetInRange(s.threads[t].highWater);
  }

  /** No step wraps the counter, none lowers it, and all bookkeeping stays sound. */
  lemma StepKeepsInv(s: State, a: Step)
    requires Inv(s) && Legal(s, a)
    ensures Inv(Next(s, a)) && s.next <= Next(s, a).next < WORD
    ensures a.FetchAdd? ==> Next(s, a).next == s.next + 1
  {
    if a.FetchAdd? {
      FetchAddKeepsInv(s, a);
    } else {
      SeedKeepsInv(s, a);
    }
    assert Aborted(Next(s, a).threads) <= MAX_THREADS;
  }

  // ------------------------------------------------------------ every interleaving

  ghost predicate LegalRun(s: State, steps: seq<Step>)
    decreases steps
  {
    steps == [] || (Legal(s, steps[0]) && LegalRun(Next(s, steps[0]), steps[1..]))
  }

  function After(s: State, steps: seq<Step>): State
    requires LegalRun(s, steps)
    decreases steps
  {
    if steps == [] then s else After(Next(s, steps[0]), steps[1..])
  }

  predicate Initial(s: State) {
    && s.next <= OID_HARD_LIMIT && |s.threads| <= MAX_THREADS
    && (forall t | 0 <= t < |s.threads| :: s.threads[t].Idle?)
    && s.returned == [] && s.seeded == {}
  }

  lemma {:induction false} RunKeepsInv(s: State, steps: seq<Step>)
    requires Inv(s) && LegalRun(s, steps)
    ensures Inv(After(s, steps)) && s.next <= After(s, steps).next < WORD
    ensures s.returned <= After(s, steps).returned && s.seeded <= After(s, steps).seeded
    ensures forall i | |s.returned| <= i < |After(s, steps).returned| :: After(s, steps).returned[i] >= s.next
    decreases steps
  {
    if steps == [] {
      assert Aborted(s.threads) <= MAX_THREADS;
    } else {
      StepKeepsInv(s, steps[0]);
      RunKeepsInv(Next(s, steps[0]), steps[1..]);
    }
  }

  /** In every interleaving: the counter has not wrapped or fallen, the OIDs returned are pairwise
      distinct and growing, and every OID returned later exceeds every completed seed and the
      reserved range. */
  lemma EveryInterleaving(s: State, before: seq<Step>, later: seq<Step>)
    requires Initial(s) && LegalRun(s, before) && LegalRun(After(s, before), later)
    ensures var m, e := After(s, before), After(After(s, before), later);
      && s.next <= m.next <= e.next < WORD
      && Increasing(e.returned)
      && m.returned <= e.returned
      && forall h, i | h in m.seeded && |m.returned| <= i < |e.returned| ::
           e.returned[i] > h && e.returned[i] >= FIRST_USER_OID
  {
    NoneAborted(s.threads);
    RunKeepsInv(s, before);
    RunKeepsInv(After(s, before), later);
  }

  lemma {:induction false} NoneAborted(threads: seq<Thread>)
    requires forall t | 0 <= t < |threads| :: threads[t].Idle?
    ensures Aborted(threads) == 0
  {
    if threads != [] {
      NoneAborted(threads[1..]);
    }
  }

  // ------------------------------------------------------------ the thread bound is tight

  /** `k` of `n` threads have drawn past the limit. */
  function Overdrawn(n: nat, k: nat): State
    requires k <= n
  {
    State((OID_HARD_LIMIT + k) % WORD,
          seq(n, i requires 0 <= i < n => if i < k then Aborting else Idle), [], {})
  }

  lemma OverdrawnStep(n: nat, k: nat)
    requires k < n && OID_HARD_LIMIT + k < WORD
    ensures Legal(Overdrawn(n, k), FetchAdd(k))
    ensures Next(Overdrawn(n, k), FetchAdd(k)) == Overdrawn(n, k + 1)
  {
    var s := Overdrawn(n, k);
    assert s.threads[k := Aborting] == Overdrawn(n, k + 1).threads;
  }

  lemma {:induction false} OverdrawnRun(n: nat, k: nat) returns (steps: seq<Step>)
    requires k <= n && OID_HARD_LIMIT + k <= WORD
    ensures LegalRun(Overdrawn(n, k), steps)
    ensures After(Overdrawn(n, k), steps) ==
            Overdrawn(n, if n < WORD - OID_HARD_LIMIT then n else WORD - OID_HARD_LIMIT)
    decreases n - k
  {
    if k == n || OID_HARD_LIMIT + k == WORD {
      steps := [];
    } else {
      OverdrawnStep(n, k);
      var rest := OverdrawnRun(n, k + 1);
      steps := [FetchAdd(k)] + rest;
      assert steps[1..] == rest;
    }
  }

  /** A generator just constructed, with any number of threads. */
  predicate Started(s: State) {
    && s.next <= OID_HARD_LIMIT && s.returned == [] && s.seeded == {}
    && forall t | 0 <= t < |s.threads| :: s.threads[t].Idle?
  }

  /** Some interleaving of `n` threads makes the counter fall. */
  ghost predicate CanWrap(n: nat) {
    exists s, steps :: Started(s) && |s.threads| == n && LegalRun(s, steps) && After(s, steps).next < s.next
  }

  /** The counter can wrap exactly when there are more threads than the headroom above the limit. */
  lemma WrapsIff(n: nat)
    ensures CanWrap(n) <==> n > MAX_THREADS
  {
    if n > MAX_THREADS {
      var steps := OverdrawnRun(n, 0);
      var s := Overdrawn(n, 0);
      assert After(s, steps).next == 0;
      assert Started(s) && |s.threads| == n;
    } else if s, steps :| Started(s) && |s.threads| == n && LegalRun(s, steps) && After(s, steps).next < s.next {
      NoneAborted(s.threads);
      RunKeepsInv(s, steps);
      assert false;
    }
  }

  // ------------------------------------------------------------ every draw is accounted for

  /** How many draws a run makes. */
  function Draws(steps: seq<Step>): nat {
    if steps == [] then 0 else (if steps[0].FetchAdd? then 1 else 0) + Draws(steps[1..])
  }

  predicate NoSeeds(s: State) {
    forall t | 0 <= t < |s.threads| :: !s.threads[t].Seeding?
  }

  lemma StepIsCounted(s: State, a: Step)
    requires Legal(s, a)
    ensures |Next(s, a).returned| + Aborted(Next(s, a).threads)
            == |s.returned| + Aborted(s.threads) + if a.FetchAdd? then 1 else 0
    ensures a.FetchAdd? && s.next < OID_HARD_LIMIT ==> Next(s, a).returned == s.returned + [s.next]
    ensures a.FetchAdd? && s.next >= OID_HARD_LIMIT ==> Next(s, a).threads[a.t].Aborting?
  {
    hide Aborted;
    AbortedUpdate(s.threads, a.t, Next(s, a).threads[a.t]);
    assert Next(s, a).threads == s.threads[a.t := Next(s, a).threads[a.t]];
  }

  /** In every run each draw returns an OID or stops its thread, and without seeds the counter moves by
      exactly the number of draws. */
  lemma {:induction false} DrawsAreCounted(s: State, steps: seq<Step>)
    requires Inv(s) && LegalRun(s, steps)
    ensures var e := After(s, steps);
      && |e.returned| + Aborted(e.threads) == |s.returned| + Aborted(s.threads) + Draws(steps)
      && (NoSeeds(s) && (forall a | a in steps :: !a.SeedLoad?) ==> e.next == s.next + Draws(steps))
    decreases steps
  {
    hide Inv, Aborted;
    if steps != [] {
      StepIsCounted(s, steps[0]);
      StepKeepsInv(s, steps[0]);
      DrawsAreCounted(Next(s, steps[0]), steps[1..]);
      assert forall a | a in steps[1..] :: a in steps;
    }
  }

  /** A seed that ends is recorded, and has left the counter above its high-water mark and the reserved
      range, whoever raised it; a seed that goes on has learnt the counter. */
  lemma SeedsAreRecorded(s: State, a: Step)
    requires Inv(s) && Legal(s, a) && s.threads[a.t].Seeding?
    ensures var s', th := Next(s, a), s.threads[a.t];
      if s'.threads[a.t].Idle? then s'.seeded == s.seeded + {th.highWater} && th.highWater < s'.next && 16384 <= s'.next
      else s'.seeded == s.seeded && s'.threads[a.t] == th.(current := s.next) && s'.next == s.next
    ensures a.SeedSwap? && s.next == s.threads[a.t].current && !a.spurious ==> Next(s, a).threads[a.t].Idle?
    ensures a.SeedDone? ==> Next(s, a).threads[a.t].Idle?
  {
    TargetInRange(s.threads[a.t].highWater);
  }

  /** A seed that begins aims one above its high-water mark, and at the first user OID at least. */
  lemma SeedBegins(s: State, t: nat, h: nat)
    requires Legal(s, SeedLoad(t, h))
    ensures Next(s, SeedLoad(t, h)) ==
            s.(threads := s.threads[t := Seeding(h, if h < 16384 then 16384 else h + 1, s.next)])
  {
  }

  /** A thread is never stuck: an idle one can draw and can seed, a seeding one has exactly one step to take
      next. */
  lemma AlwaysEnabled(s: State, t: nat, h: nat, spurious: bool)
    requires t < |s.threads| && h < OID_HARD_LIMIT
    ensures s.threads[t].Idle? ==> Legal(s, FetchAdd(t)) && Legal(s, SeedLoad(t, h))
    ensures s.threads[t].Seeding? ==> (Legal(s, SeedSwap(t, spurious)) <==> !Legal(s, SeedDone(t)))
    ensures s.threads[t].Seeding? ==> (Legal(s, SeedDone(t)) <==> s.threads[t].target <= s.threads[t].current)
  {
  }
}
