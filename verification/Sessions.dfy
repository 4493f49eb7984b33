/**
 The transaction clock and an index of a table in one run.  A commit takes its id from the clock,
 stamps the index, and only then publishes the id; a transaction that begins in between has the id
 in flight and below its start.  Such a commit is the only step of another transaction that can
 move a snapshot's view of the index.
 */
module Sessions {
  import opened Mvcc
  import opened IndexModel
  import opened TableRefinement
  import opened Isolation
  import opened CommitEffects

  datatype Joint<!K> = Joint(clock: Clock, index: IndexState<K>)

  datatype Event<K> = OnClock(tick: ClockStep) | OnIndex(step: Step<K>)

  predicate IsActive(c: Clock, t: nat) {
    exists s | s in c.active :: c.active[s].txn == t
  }

  /** When a step of the index may happen: rows are loaded before any session, row operations belong
      to active transactions, commits carry an id in flight of a transaction that has ended, and
      cleanup stays below every active start. */
  predicate Timely<K>(c: Clock, a: Step<K>) {
    && LegalIds(a)
    && match a
       case Load(_, _) => c.active == map[]
       case Insert(_, _, t) => IsActive(c, t)
       case MarkDelete(_, _, t) => IsActive(c, t)
       case CommitInsert(t, id) => id in c.inFlight && !IsActive(c, t)
       case CommitDelete(t, id) => id in c.inFlight && !IsActive(c, t)
       case RevertInsert(_) => true
       case RevertDelete(_) => true
       case Cleanup(low) => forall s | s in c.active :: low <= c.active[s].start
  }

  ghost predicate JointNext<K>(j: Joint<K>, e: Event<K>, j': Joint<K>) {
    match e
    case OnClock(a) => LegalTick(j.clock, a) && j' == Joint(Tick(j.clock, a), j.index)
    case OnIndex(a) => Timely(j.clock, a) && j'.clock == j.clock && Next(j.index, a, j'.index)
  }

  ghost predicate IsJointTrace<K>(js: seq<Joint<K>>, es: seq<Event<K>>) {
    && |js| == |es| + 1
    && forall i | 0 <= i < |es| :: JointNext(js[i], es[i], js[i + 1])
  }

  predicate Ends<K>(e: Event<K>, session: nat) {
    e == OnClock(Commit(session)) || e == OnClock(Abort(session))
  }

  function ReaderOf(snap: Snapshot): Reader {
    Reader(snap.start, snap.txn)
  }

  /** Work of the transaction itself. */
  predicate Own<K>(a: Step<K>, t: nat) {
    !a.Load? && !a.Cleanup? && a.txn == t
  }

  /** A commit that was in flight when the snapshot was taken. */
  predicate Late<K>(a: Step<K>, snap: Snapshot) {
    (a.CommitInsert? || a.CommitDelete?) && a.commit in snap.inFlight
  }

  /** While a session stays active, so does its snapshot. */
  lemma {:induction false} SnapshotStays<K>(js: seq<Joint<K>>, es: seq<Event<K>>, session: nat)
    requires IsJointTrace(js, es) && ClockInv(js[0].clock) && session in js[0].clock.active
    requires forall e | e in es :: !Ends(e, session)
    ensures ClockInv(js[|es|].clock) && session in js[|es|].clock.active
    ensures js[|es|].clock.active[session] == js[0].clock.active[session]
    decreases es
  {
    hide ClockInv, Timely, Next;
    if es != [] {
      var n := |es| - 1;
      SnapshotStays(js[..n + 1], es[..n], session);
      assert es[n] in es && JointNext(js[n], es[n], js[n + 1]);
      if es[n].OnClock? {
        TickKeepsInv(js[n].clock, es[n].tick);
      }
    }
  }

  /** A timely step is the transaction's own, a commit that was in flight when it began, or none of
      its concern. */
  lemma TimelyIsForeign<K>(c: Clock, a: Step<K>, session: nat)
    requires ClockInv(c) && session in c.active && Timely(c, a)
    ensures var snap := c.active[session];
      Own(a, snap.txn) || Late(a, snap) || Foreign(a, ReaderOf(snap))
  {
    var snap := c.active[session];
    assert IsActive(c, snap.txn);
    if a.CommitInsert? || a.CommitDelete? {
      assert StillInFlight(snap, c.inFlight);
    }
  }

  /** In every joint run, from any state of the clock: while a session is active its view of the index is
      not moved by others, unless a commit lands that was in flight when the session began. */
  lemma {:induction false} ViewHolds<K(!new)>(
    js: seq<Joint<K>>, es: seq<Event<K>>, session: nat, want: K -> bool)
    requires IsJointTrace(js, es) && ClockInv(js[0].clock) && session in js[0].clock.active
    requires InTransaction(ReaderOf(js[0].clock.active[session]))
    requires forall e | e in es :: !Ends(e, session)
    requires var snap := js[0].clock.active[session];
      forall e | e in es && e.OnIndex? :: !Own(e.step, snap.txn) && !Late(e.step, snap)
    ensures var p := Wanted(want, ReaderOf(js[0].clock.active[session]));
      multiset(Select(js[|es|].index.storage, p)) == multiset(Select(js[0].index.storage, p))
    decreases es
  {
    hide ClockInv, Next, Select, Timely, Foreign, InTransaction;
    if es != [] {
      var n := |es| - 1;
      ViewHolds(js[..n + 1], es[..n], session, want);
      SnapshotStays(js[..n + 1], es[..n], session);
      assert es[n] in es && JointNext(js[n], es[n], js[n + 1]);
      if es[n].OnIndex? {
        TimelyIsForeign(js[n].clock, es[n].step, session);
        ForeignStepUnseen(js[n].index, es[n].step, js[n + 1].index, want, ReaderOf(js[0].clock.active[session]));
      }
    }
  }

  /** A session that began with nothing in flight is never moved by others. */
  lemma QuietBeginHolds<K(!new)>(js: seq<Joint<K>>, es: seq<Event<K>>, session: nat, want: K -> bool)
    requires IsJointTrace(js, es) && ClockInv(js[0].clock) && session in js[0].clock.active
    requires var snap := js[0].clock.active[session];
      && InTransaction(ReaderOf(snap)) && snap.inFlight == {}
      && forall e | e in es :: !Ends(e, session) && (e.OnIndex? ==> !Own(e.step, snap.txn))
    ensures var p := Wanted(want, ReaderOf(js[0].clock.active[session]));
      multiset(Select(js[|es|].index.storage, p)) == multiset(Select(js[0].index.storage, p))
  {
    hide ClockInv, IsJointTrace, Select;
    ViewHolds(js, es, session, want);
  }

  // ------------------------------------------------------------ a late commit

  const T0: nat := TRANSACTION_ID_START

  /** The run of two sessions in which the first commits, the second begins, and the index is stamped. */
  function LateEvents<K>(k: K, r: int): seq<Event<K>> {
    [OnClock(Begin(0)), OnIndex(Insert(k, r, T0)), OnClock(Commit(0)), OnClock(Begin(1)), OnIndex(CommitInsert(T0, 2))]
  }

  function LateStates<K>(k: K, r: int): seq<Joint<K>> {
    var first, second := Snapshot(T0, 1, 0, {}), Snapshot(T0 + 1, 3, 0, {2});
    var pending := IndexState([Item(k, r, T0, NOT_DELETED_ID)], map[T0 := [Listing(k, r)]], map[]);
    var begun := Clock(T0 + 1, 2, map[0 := first], {}, 0, {});
    var ended := Clock(T0 + 1, 3, map[], {2}, 0, {2});
    var both := Clock(T0 + 2, 4, map[1 := second], {2}, 0, {2});
    [Joint(INITIAL_CLOCK, EmptyState()), Joint(begun, EmptyState()), Joint(begun, pending), Joint(ended, pending),
     Joint(both, pending), Joint(both, IndexState([Item(k, r, 2, NOT_DELETED_ID)], map[], map[]))]
  }

  lemma LateClock<K>(k: K, r: int)
    ensures var js, es := LateStates(k, r), LateEvents(k, r);
      JointNext(js[0], es[0], js[1]) && JointNext(js[2], es[2], js[3]) && JointNext(js[3], es[3], js[4])
  {
    var js := LateStates(k, r);
    assert Tick(js[0].clock, Begin(0)) == js[1].clock;
    assert Tick(js[2].clock, Commit(0)) == js[3].clock by {
      assert {} + {2} == {2};
    }
    assert Tick(js[3].clock, Begin(1)) == js[4].clock;
  }

  lemma LateInsert<K>(k: K, r: int)
    ensures var js, es := LateStates(k, r), LateEvents(k, r);
      JointNext(js[1], es[1], js[2])
  {
    var js := LateStates(k, r);
    assert js[1].clock.active[0].txn == T0 && IsActive(js[1].clock, T0);
    assert [] + [Item(k, r, T0, NOT_DELETED_ID)] == [Item(k, r, T0, NOT_DELETED_ID)];
    assert [] + [Listing(k, r)] == [Listing(k, r)];
  }

  lemma LateStamp<K>(k: K, r: int)
    ensures var js, es := LateStates(k, r), LateEvents(k, r);
      JointNext(js[4], es[4], js[5])
  {
    var it: Item<K>, l := Item(k, r, T0, NOT_DELETED_ID), Listing(k, r);
    assert [l][1..] == [] && [it][1..] == [];
    assert EditFirst([it], l, StampIns(2), T0) == [it.(ins := 2)];
    assert EditListed([it], [l], StampIns(2), T0) == [it.(ins := 2)];
    assert map[T0 := [l]] - {T0} == map[];
  }

  /** It brings the row into the second session's view after that began. */
  lemma LateCommitMoves<K>(k: K, r: int, want: K -> bool)
    requires want(k)
    ensures var js, es := LateStates(k, r), LateEvents(k, r);
      var rd := ReaderOf(js[4].clock.active[1]);
      && IsJointTrace(js, es) && js[0] == Joint(INITIAL_CLOCK, EmptyState())
      && Late(es[4].step, js[4].clock.active[1])
      && Select(js[4].index.storage, Wanted(want, rd)) == [] && Select(js[5].index.storage, Wanted(want, rd)) == [r]
  {
    hide JointNext;
    LateClock(k, r);
    LateInsert(k, r);
    LateStamp(k, r);
    var rd := Reader(3, T0 + 1);
    SelectOne(Item(k, r, T0, NOT_DELETED_ID), Wanted(want, rd));
    SelectOne(Item(k, r, 2, NOT_DELETED_ID), Wanted(want, rd));
  }
}
