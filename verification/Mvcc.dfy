/**
 Version stamps and who sees them.

 An index entry carries the id that inserted it and the id that deleted it.  While a
 transaction runs, its stamps are its transaction id; commit replaces them by a commit id.
 The two ranges never meet: commit ids and start times lie below TRANSACTION_ID_START,
 transaction ids lie between TRANSACTION_ID_START and NOT_DELETED_ID.

 The index filters entries with a start time only.  The table filters with a snapshot: a
 horizon plus the commits that were allocated but not yet published when the transaction
 began.  The last part of this module runs the transaction clock and states exactly when
 the two filters agree.
 */
module Mvcc {

  const TRANSACTION_ID_START: nat := 4611686018427388000
  const NOT_DELETED_ID: nat := 0xFFFF_FFFF_FFFF_FFFE

  predicate IsTxnId(t: nat) {
    TRANSACTION_ID_START <= t < NOT_DELETED_ID
  }

  predicate IsCommitId(c: nat) {
    c < TRANSACTION_ID_START
  }

  datatype Reader = Reader(start: nat, txn: nat)

  /** The reader that asks for everything committed, outside any transaction. */
  const SEE_COMMITTED := Reader(0, 0)

  /** The visibility predicate of the index. */
  predicate Visible(ins: nat, del: nat, rd: Reader) {
    if rd.txn == 0 && rd.start == 0 then
      ins < TRANSACTION_ID_START && (del == NOT_DELETED_ID || del >= TRANSACTION_ID_START)
    else
      var inserted := ins < rd.start || ins == rd.txn;
      var deleted := (del < rd.start && del < TRANSACTION_ID_START) || del == rd.txn;
      inserted && !deleted
  }

  /** What a transaction captures when it begins. */
  datatype Snapshot = Snapshot(txn: nat, start: nat, horizon: nat, inFlight: set<nat>)

  /** The table's filter on one stamp: does this snapshot see it as done? */
  predicate TableSees(snap: Snapshot, id: nat) {
    if snap.txn != 0 && id == snap.txn then true
    else if id >= TRANSACTION_ID_START then false
    else if id > snap.horizon then false
    else id !in snap.inFlight
  }

  predicate TableVisible(ins: nat, del: nat, snap: Snapshot) {
    TableSees(snap, ins) && !TableSees(snap, del)
  }

  /** The transaction clock.  `commits` records every commit id handed out so far. */
  datatype Clock = Clock(
    nextTxn: nat, ts: nat, active: map<nat, Snapshot>,
    inFlight: set<nat>, horizon: nat, commits: set<nat>)

  const INITIAL_CLOCK := Clock(TRANSACTION_ID_START, 1, map[], {}, 0, {})

  /** `Restore` is the reopen of a database whose commits `ids`, up to `frontier`, are durable. */
  datatype ClockStep =
    | Begin(session: nat) | Commit(session: nat) | Publish(id: nat) | Abort(session: nat)
    | Restore(frontier: nat, ids: set<nat>)

  function Max(a: nat, b: nat): nat {
    if a < b then b else a
  }

  function Tick(c: Clock, a: ClockStep): Clock {
    match a
    case Begin(s) =>
      if s in c.active then c
      else c.(nextTxn := c.nextTxn + 1, ts := c.ts + 1,
              active := c.active[s := Snapshot(c.nextTxn, c.ts, c.horizon, c.inFlight)])
    case Commit(s) =>
      if s !in c.active then c
      else c.(ts := c.ts + 1, active := c.active - {s},
              inFlight := c.inFlight + {c.ts}, commits := c.commits + {c.ts})
    case Publish(id) =>
      c.(inFlight := c.inFlight - {id}, horizon := Max(c.horizon, id))
    case Abort(s) =>
      if s !in c.active then c else c.(active := c.active - {s})
    case Restore(f, ids) =>
      c.(ts := Max(c.ts, f + 1), horizon := Max(c.horizon, f), commits := c.commits + ids)
  }

  /** The commit pipeline publishes only ids that commit handed out; reopening comes before any session. */
  predicate LegalTick(c: Clock, a: ClockStep) {
    && (a.Publish? ==> a.id in c.commits)
    && (a.Restore? ==> c.active == map[] && c.inFlight == {} && forall k | k in a.ids :: 0 < k <= a.frontier)
  }

  function Ticks(c: Clock, steps: seq<ClockStep>): Clock
    decreases steps
  {
    if steps == [] then c else Ticks(Tick(c, steps[0]), steps[1..])
  }

  predicate LegalTicks(c: Clock, steps: seq<ClockStep>)
    decreases steps
  {
    steps == [] || (LegalTick(c, steps[0]) && LegalTicks(Tick(c, steps[0]), steps[1..]))
  }

  /** A snapshot splits the commits: those before its start are published under the horizon
      or in flight, those after it lie above the horizon. */
  ghost predicate Splits(snap: Snapshot, commits: set<nat>) {
    && snap.horizon < snap.start
    && snap.start > 0
    && (forall f | f in snap.inFlight :: 0 < f < snap.start)
    && (forall k | k in commits ::
          && 0 < k
          && k != snap.start
          && (k < snap.start ==> k <= snap.horizon || k in snap.inFlight))
  }

  /** What is in flight below the start of a snapshot was so when it was taken. */
  ghost predicate StillInFlight(snap: Snapshot, inFlight: set<nat>) {
    forall k | k in inFlight && k < snap.start :: k in snap.inFlight
  }

  ghost predicate GoodCommits(c: Clock) {
    && 0 < c.ts
    && TRANSACTION_ID_START <= c.nextTxn
    && c.horizon < c.ts
    && c.inFlight <= c.commits
    && (forall k | k in c.commits :: 0 < k < c.ts && (k <= c.horizon || k in c.inFlight))
  }

  ghost predicate GoodSnapshot(c: Clock, snap: Snapshot) {
    && Splits(snap, c.commits)
    && snap.start < c.ts && snap.inFlight <= c.commits
    && TRANSACTION_ID_START <= snap.txn < c.nextTxn
    && StillInFlight(snap, c.inFlight)
  }

  /** No two sessions share a transaction id or a start. */
  ghost predicate Unlike(active: map<nat, Snapshot>) {
    forall s, r | s in active && r in active && s != r ::
      active[s].txn != active[r].txn && active[s].start != active[r].start
  }

  ghost predicate ClockInv(c: Clock) {
    && GoodCommits(c)
    && (forall s | s in c.active :: GoodSnapshot(c, c.active[s]))
    && Unlike(c.active)
  }

  lemma TickKeepsCommits(c: Clock, a: ClockStep)
    requires GoodCommits(c) && LegalTick(c, a)
    ensures GoodCommits(Tick(c, a))
  {
  }

  lemma TickKeepsSnapshot(c: Clock, a: ClockStep, snap: Snapshot)
    requires GoodCommits(c) && GoodSnapshot(c, snap) && !a.Restore?
    ensures GoodSnapshot(Tick(c, a), snap)
  {
  }

  lemma BeginTakesSnapshot(c: Clock, s: nat)
    requires GoodCommits(c) && s !in c.active
    ensures s in Tick(c, Begin(s)).active && GoodSnapshot(Tick(c, Begin(s)), Tick(c, Begin(s)).active[s])
  {
  }

  lemma TickKeepsInv(c: Clock, a: ClockStep)
    requires ClockInv(c) && LegalTick(c, a)
    ensures ClockInv(Tick(c, a))
  {
    TickKeepsCommits(c, a);
    var d := Tick(c, a);
    forall s | s in d.active ensures GoodSnapshot(d, d.active[s]) {
      if s in c.active {
        TickKeepsSnapshot(c, a, c.active[s]);
      } else {
        BeginTakesSnapshot(c, s);
      }
    }
    hide GoodCommits, Splits, StillInFlight;
    assert forall s | s in c.active :: GoodSnapshot(c, c.active[s]);
  }

  lemma {:induction false} TicksKeepInv(c: Clock, steps: seq<ClockStep>)
    requires ClockInv(c) && LegalTicks(c, steps)
    ensures ClockInv(Ticks(c, steps))
    decreases steps
  {
    if steps != [] {
      TickKeepsInv(c, steps[0]);
      TicksKeepInv(Tick(c, steps[0]), steps[1..]);
    }
  }

  /** Begin opens a session, commit and abort close it, and no step touches the other sessions. */
  lemma SessionsOpenAndClose(c: Clock, a: ClockStep, s: nat)
    ensures s in Tick(c, Begin(s)).active
    ensures s !in Tick(c, Commit(s)).active && s !in Tick(c, Abort(s)).active
    ensures s in c.active ==> Tick(c, Begin(s)) == c
    ensures s !in c.active ==> Tick(c, Commit(s)) == c && Tick(c, Abort(s)) == c
    ensures s in c.active ==> var d := Tick(c, Commit(s)); c.ts in d.inFlight && d.ts == c.ts + 1 && d.horizon == c.horizon
    ensures var d := Tick(c, a);
      ((a.Begin? || a.Commit? || a.Abort?) && a.session == s)
      || ((s in d.active <==> s in c.active) && (s in c.active ==> d.active[s] == c.active[s]))
  {
  }

  lemma {:induction false} TicksOneMore(c: Clock, steps: seq<ClockStep>, a: ClockStep)
    ensures Ticks(c, steps + [a]) == Tick(Ticks(c, steps), a)
    ensures LegalTicks(c, steps + [a]) <==> LegalTicks(c, steps) && LegalTick(Ticks(c, steps), a)
    decreases steps
  {
    if steps == [] {
      assert [] + [a] == [a] && [a][1..] == [];
      assert Ticks(c, [a]) == Ticks(Tick(c, a), []);
      assert LegalTicks(c, [a]) <==> LegalTick(c, a) && LegalTicks(Tick(c, a), []);
    } else {
      assert (steps + [a])[0] == steps[0] && (steps + [a])[1..] == steps[1..] + [a];
      TicksOneMore(Tick(c, steps[0]), steps[1..], a);
    }
  }

  /** The commit was published, or is one of those that a reopened database restored. */
  ghost predicate Published(steps: seq<ClockStep>, k: nat) {
    exists a | a in steps :: a == Publish(k) || (a.Restore? && k in a.ids)
  }

  /** In every run the commits in flight are those handed out and not published. */
  lemma {:induction false} InFlightIsUnpublished(steps: seq<ClockStep>, k: nat)
    requires LegalTicks(INITIAL_CLOCK, steps)
    ensures var c := Ticks(INITIAL_CLOCK, steps);
      && ClockInv(c)
      && (Published(steps, k) ==> k in c.commits)
      && (k in c.inFlight <==> k in c.commits && !Published(steps, k))
    decreases steps
  {
    if steps != [] {
      var n := |steps| - 1;
      var before, a := steps[..n], steps[n];
      assert steps == before + [a];
      TicksOneMore(INITIAL_CLOCK, before, a);
      InFlightIsUnpublished(before, k);
      TickKeepsInv(Ticks(INITIAL_CLOCK, before), a);
      hide GoodSnapshot, Unlike, Ticks, LegalTicks;
      assert Published(steps, k) <==> Published(before, k) || a == Publish(k) || (a.Restore? && k in a.ids);
    }
  }

  /** A session that begins after any run sees, in the table, exactly the commits published by then. */
  lemma BeginSeesPublished(steps: seq<ClockStep>, s: nat, k: nat)
    requires LegalTicks(INITIAL_CLOCK, steps)
    requires var c := Ticks(INITIAL_CLOCK, steps);
      s !in c.active && c.ts <= TRANSACTION_ID_START && k in c.commits
    ensures var d := Tick(Ticks(INITIAL_CLOCK, steps), Begin(s));
      TableSees(d.active[s], k) <==> Published(steps, k)
  {
    InFlightIsUnpublished(steps, k);
  }

  /** Publishing a commit, from any state of the clock, shows it to every session that begins afterwards. */
  lemma PublishShows(c: Clock, id: nat, s: nat)
    requires ClockInv(c) && id in c.commits && s !in c.active && c.ts <= TRANSACTION_ID_START
    ensures var d := Tick(Tick(c, Publish(id)), Begin(s));
      s in d.active && TableSees(d.active[s], id)
  {
  }

  /** Stamps an entry can carry: loaded (0), committed, pending, or none. */
  ghost predicate StampOf(c: Clock, id: nat) {
    id == 0 || id in c.commits || TRANSACTION_ID_START <= id
  }

  /** The index sees one stamp as done exactly when the table does or it is in flight. */
  lemma IndexSeesInFlightToo(c: Clock, snap: Snapshot, id: nat)
    requires Splits(snap, c.commits)
    requires StampOf(c, id) && TRANSACTION_ID_START <= snap.txn
    requires snap.start < TRANSACTION_ID_START
    requires forall k | k in c.commits :: k < TRANSACTION_ID_START
    requires snap.inFlight <= c.commits
    ensures (id < snap.start || id == snap.txn) <==> (TableSees(snap, id) || id in snap.inFlight)
  {
  }

  /** An in-flight commit id makes the two filters differ on the row it inserted, and
      on the row it deleted. */
  lemma InFlightSplitsTheFilters(snap: Snapshot, id: nat)
    requires id in snap.inFlight && 0 < id < snap.start <= TRANSACTION_ID_START <= snap.txn < NOT_DELETED_ID
    requires 0 !in snap.inFlight
    ensures var rd := Reader(snap.start, snap.txn);
      && Visible(id, NOT_DELETED_ID, rd) && !TableVisible(id, NOT_DELETED_ID, snap)
      && !Visible(0, id, rd) && TableVisible(0, id, snap)
  {
  }

  /** In every reachable clock, for every running transaction: the index filter agrees with
      the table filter on every entry exactly when no commit was in flight at its begin. */
  lemma FiltersAgreeIffNothingInFlight(steps: seq<ClockStep>, s: nat)
    requires LegalTicks(INITIAL_CLOCK, steps)
    requires s in Ticks(INITIAL_CLOCK, steps).active
    requires Ticks(INITIAL_CLOCK, steps).ts <= TRANSACTION_ID_START
    requires Ticks(INITIAL_CLOCK, steps).nextTxn <= NOT_DELETED_ID
    ensures var c := Ticks(INITIAL_CLOCK, steps);
      var snap := c.active[s];
      snap.inFlight == {} <==>
      (forall ins, del | StampOf(c, ins) && StampOf(c, del) ::
         Visible(ins, del, Reader(snap.start, snap.txn)) == TableVisible(ins, del, snap))
  {
    TicksKeepInv(INITIAL_CLOCK, steps);
    var c := Ticks(INITIAL_CLOCK, steps);
    var snap := c.active[s];
    var rd := Reader(snap.start, snap.txn);
    if snap.inFlight == {} {
      forall ins, del | StampOf(c, ins) && StampOf(c, del)
        ensures Visible(ins, del, rd) == TableVisible(ins, del, snap)
      {
        IndexSeesInFlightToo(c, snap, ins);
        IndexSeesInFlightToo(c, snap, del);
      }
    } else {
      var id :| id in snap.inFlight;
      InFlightSplitsTheFilters(snap, id);
      assert StampOf(c, id) && StampOf(c, NOT_DELETED_ID);
    }
  }

  /** A transaction that begins between another's commit and its publishing has that commit in flight. */
  lemma CommitCanBeInFlight()
    ensures var steps := [Begin(0), Commit(0), Begin(1)];
      && LegalTicks(INITIAL_CLOCK, steps)
      && 1 in Ticks(INITIAL_CLOCK, steps).active
      && Ticks(INITIAL_CLOCK, steps).active[1].inFlight == {2}
  {
    var steps := [Begin(0), Commit(0), Begin(1)];
    var c0 := INITIAL_CLOCK;
    var c1 := Tick(c0, Begin(0));
    var c2 := Tick(c1, Commit(0));
    assert c2.inFlight == {2} && c2.active == map[];
    assert steps[1..] == [Commit(0), Begin(1)] && steps[1..][1..] == [Begin(1)] && steps[1..][1..][1..] == [];
    assert Ticks(c1, steps[1..]) == Ticks(c2, steps[1..][1..]) && LegalTicks(c1, steps[1..]);
  }

  /** The reader outside any transaction sees what the table shows a default snapshot. */
  lemma CommittedReaderAgrees(ins: nat, del: nat)
    ensures Visible(ins, del, SEE_COMMITTED) ==
            TableVisible(ins, del, Snapshot(0, 0, 0xFFFF_FFFF_FFFF_FFFF, {}))
  {
  }
}
