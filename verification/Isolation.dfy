/**
 Two whole-run properties of the index state machine.

 Snapshot stability: what a reader finds does not change while other transactions insert,
 delete, abort, commit at or after its start, or clean up below its start.

 Abort is an exact inverse: whatever a transaction did, reverting it restores the stored
 versions, in the same order unless a hash container reordered them.
 */
module Isolation {
  import opened Mvcc
  import opened IndexModel
  import opened TableRefinement

  // ------------------------------------------------------------ snapshot stability

  predicate InTransaction(rd: Reader) {
    rd.start <= TRANSACTION_ID_START && (IsTxnId(rd.txn) || (rd.txn == 0 && rd.start > 0))
  }

  /** A step that cannot concern a reader: by another transaction, not committed before its start. */
  predicate Foreign<K>(a: Step<K>, rd: Reader) {
    && LegalIds(a)
    && match a
       case Load(_, _) => false
       case Insert(_, _, t) => t != rd.txn
       case MarkDelete(_, _, t) => t != rd.txn
       case CommitInsert(t, c) => t != rd.txn && rd.start <= c
       case CommitDelete(t, c) => t != rd.txn && rd.start <= c
       case RevertInsert(t) => t != rd.txn
       case RevertDelete(t) => t != rd.txn
       case Cleanup(low) => low <= rd.start
  }

  lemma ConcatAssoc<T>(a: seq<T>, b: seq<T>, c: seq<T>)
    ensures a + (b + c) == (a + b) + c
  {
  }

  lemma {:induction false} SelectConcat<K>(a: seq<Item<K>>, b: seq<Item<K>>, p: Item<K> -> bool)
    ensures Select(a + b, p) == Select(a, p) + Select(b, p)
  {
    if a == [] {
      assert a + b == b;
    } else {
      SelectConcat(a[1..], b, p);
      assert (a + b)[1..] == a[1..] + b;
      ConcatAssoc(if p(a[0]) then [a[0].row] else [], Select(a[1..], p), Select(b, p));
    }
  }

  /** The edit does not change what `p` selects of any version it may touch. */
  ghost predicate Unseen<K(!new)>(e: Edit, id: nat, p: Item<K> -> bool) {
    forall it: Item<K> | Carries(it, SideOf(e), id) :: Select(Edited(it, e), p) == Select([it], p)
  }

  lemma {:induction false} EditFirstUnseen<K(!new)>(
    items: seq<Item<K>>, l: Listing<K>, e: Edit, id: nat, p: Item<K> -> bool)
    requires Unseen(e, id, p)
    ensures Select(EditFirst(items, l, e, id), p) == Select(items, p)
  {
    if items != [] {
      assert items == [items[0]] + items[1..];
      SelectConcat([items[0]], items[1..], p);
      if Hit(items[0], l, SideOf(e), id) {
        SelectConcat(Edited(items[0], e), items[1..], p);
      } else {
        EditFirstUnseen(items[1..], l, e, id, p);
        SelectConcat([items[0]], EditFirst(items[1..], l, e, id), p);
      }
    }
  }

  lemma {:induction false} EditListedUnseen<K(!new)>(
    items: seq<Item<K>>, ls: seq<Listing<K>>, e: Edit, id: nat, p: Item<K> -> bool)
    requires Unseen(e, id, p)
    ensures Select(EditListed(items, ls, e, id), p) == Select(items, p)
    decreases ls
  {
    if ls != [] {
      EditFirstUnseen(items, ls[0], e, id, p);
      EditListedUnseen(EditFirst(items, ls[0], e, id), ls[1..], e, id, p);
    }
  }

  lemma {:induction false} SweepUnseen<K(!new)>(items: seq<Item<K>>, low: nat, p: Item<K> -> bool)
    requires forall it: Item<K> | Expired(it, low) :: !p(it)
    ensures Select(Sweep(items, low), p) == Select(items, p)
  {
    if items != [] {
      SweepUnseen(items[1..], low, p);
      SelectConcat(if Expired(items[0], low) then [] else [items[0]], Sweep(items[1..], low), p);
    }
  }

  lemma SelectAt<K>(items: seq<Item<K>>, it: Item<K>, items': seq<Item<K>>, k: nat, p: Item<K> -> bool)
    requires InsertedAt(items, it, items', k)
    ensures Select(items', p) == Select(items[..k], p) + Select([it], p) + Select(items[k..], p)
    ensures Select(items, p) == Select(items[..k], p) + Select(items[k..], p)
  {
    SelectConcat(items[..k], items[k..], p);
    SelectConcat(items[..k] + [it], items[k..], p);
    SelectConcat(items[..k], [it], p);
    assert items == items[..k] + items[k..];
  }

  lemma InsertUnseen<K>(items: seq<Item<K>>, it: Item<K>, items': seq<Item<K>>, p: Item<K> -> bool)
    requires InsertedSomewhere(items, it, items') && !p(it)
    ensures Select(items', p) == Select(items, p)
  {
    var k: nat :| InsertedAt(items, it, items', k);
    SelectAt(items, it, items', k, p);
    assert Select([it], p) == [];
  }

  lemma MoveFront<T>(a: seq<T>, x: seq<T>, b: seq<T>)
    ensures multiset(a + x + b) == multiset(x) + multiset(a + b)
  {
  }

  /** Reordering the versions reorders what is selected. */
  lemma {:induction false} SelectPermuted<K>(a: seq<Item<K>>, b: seq<Item<K>>, p: Item<K> -> bool)
    requires Permuted(a, b)
    ensures multiset(Select(a, p)) == multiset(Select(b, p))
  {
    hide Select;
    if a == [] {
      assert |multiset(a)| == |multiset(b)|;
    } else {
      var j := TakeOut(a, b);
      SelectPermuted(a[1..], b[..j] + b[j + 1..], p);
      var rest := b[..j] + b[j + 1..];
      SelectAt(rest, a[0], b, j, p);
      SelectAt(a[1..], a[0], a, 0, p);
      MoveFront(Select(rest[..j], p), Select([a[0]], p), Select(rest[j..], p));
      MoveFront(Select(a[1..][..0], p), Select([a[0]], p), Select(a[1..][0..], p));
    }
  }

  lemma AddUnseen<K>(items: seq<Item<K>>, it: Item<K>, items': seq<Item<K>>, p: Item<K> -> bool)
    requires Added(items, it, items') && !p(it)
    ensures multiset(Select(items', p)) == multiset(Select(items, p))
  {
    SelectPermuted(items + [it], items', p);
    SelectConcat(items, [it], p);
    assert Select([it], p) == [];
  }

  predicate Inserts<K>(a: Step<K>) {
    a.Load? || a.Insert?
  }

  /** A foreign step that edits or sweeps leaves a reader's result unchanged, order included. */
  lemma ForeignEditUnseen<K(!new)>(
    s: IndexState<K>, a: Step<K>, s': IndexState<K>, want: K -> bool, rd: Reader)
    requires InTransaction(rd) && Foreign(a, rd) && Next(s, a, s') && !Inserts(a)
    ensures Select(s'.storage, Wanted(want, rd)) == Select(s.storage, Wanted(want, rd))
  {
    var p := Wanted(want, rd);
    match a
    case MarkDelete(k, r, t) =>
      assert Unseen(StampDel(t), NOT_DELETED_ID, p);
      EditFirstUnseen(s.storage, Listing(k, r), StampDel(t), NOT_DELETED_ID, p);
    case CommitInsert(t, c) =>
      assert Unseen(StampIns(c), t, p);
      EditListedUnseen(s.storage, Bucket(s.pendIns, t), StampIns(c), t, p);
    case CommitDelete(t, c) =>
      assert Unseen(StampDel(c), t, p);
      EditListedUnseen(s.storage, Bucket(s.pendDel, t), StampDel(c), t, p);
    case RevertInsert(t) =>
      assert Unseen(EraseIns, t, p);
      EditListedUnseen(s.storage, Bucket(s.pendIns, t), EraseIns, t, p);
    case RevertDelete(t) =>
      assert Unseen(StampDel(NOT_DELETED_ID), t, p);
      EditListedUnseen(s.storage, Bucket(s.pendDel, t), StampDel(NOT_DELETED_ID), t, p);
    case Cleanup(low) => SweepUnseen(s.storage, low, p);
  }

  /** The version an insert adds. */
  function NewItem<K>(a: Step<K>): Item<K>
    requires Inserts(a)
  {
    Item(a.key, a.row, if a.Load? then 0 else a.txn, NOT_DELETED_ID)
  }

  /** The step did not reorder the versions that were there. */
  ghost predicate Orderly<K>(s: IndexState<K>, a: Step<K>, s': IndexState<K>) {
    Inserts(a) ==> InsertedSomewhere(s.storage, NewItem(a), s'.storage)
  }

  /** One foreign step leaves a reader's result unchanged, in its order unless versions were reordered. */
  lemma ForeignStepUnseen<K(!new)>(
    s: IndexState<K>, a: Step<K>, s': IndexState<K>, want: K -> bool, rd: Reader)
    requires InTransaction(rd) && Foreign(a, rd) && Next(s, a, s')
    ensures multiset(Select(s'.storage, Wanted(want, rd))) == multiset(Select(s.storage, Wanted(want, rd)))
    ensures Orderly(s, a, s') ==> Select(s'.storage, Wanted(want, rd)) == Select(s.storage, Wanted(want, rd))
  {
    hide Select;
    var p := Wanted(want, rd);
    if Inserts(a) {
      AddUnseen(s.storage, NewItem(a), s'.storage, p);
      if Orderly(s, a, s') {
        InsertUnseen(s.storage, NewItem(a), s'.storage, p);
      }
    } else {
      ForeignEditUnseen(s, a, s', want, rd);
    }
  }

  /** Every transaction that starts at or after `low` sees this delete as done: not even a version of its
      own making would be visible to it. */
  ghost predicate DeadFrom(del: nat, low: nat) {
    forall rd: Reader | IsTxnId(rd.txn) && low <= rd.start :: !Visible(rd.txn, del, rd)
  }

  lemma DeadFromIff(del: nat, low: nat)
    ensures DeadFrom(del, low) <==> del < low && del < TRANSACTION_ID_START
  {
    var t := if del == TRANSACTION_ID_START then TRANSACTION_ID_START + 1 else TRANSACTION_ID_START;
    assert DeadFrom(del, low) ==> !Visible(t, del, Reader(low, t));
  }

  /** Cleanup removes exactly the versions whose delete is done for every transaction from `low` on.  The
      others stay, in their order, and so do the lists of all transactions. */
  lemma CleanupIsExact<K(!new)>(s: IndexState<K>, low: nat, s': IndexState<K>)
    requires Next(s, Cleanup(low), s')
    ensures forall it: Item<K> :: it in s'.storage <==> it in s.storage && !DeadFrom(it.del, low)
    ensures forall p: Item<K> -> bool | (forall it: Item<K> :: DeadFrom(it.del, low) ==> !p(it)) ::
              Select(s'.storage, p) == Select(s.storage, p)
    ensures s'.pendIns == s.pendIns
    ensures forall t | IsTxnId(t) :: Bucket(s'.pendDel, t) == Bucket(s.pendDel, t)
    ensures 0 in s'.pendDel <==> 0 in s.pendDel && low == 0
  {
    hide Select, Visible, DeadFrom;
    SweepMembers(s.storage, low);
    forall it: Item<K> ensures DeadFrom(it.del, low) <==> Expired(it, low) {
      DeadFromIff(it.del, low);
    }
    forall p: Item<K> -> bool | (forall it: Item<K> :: DeadFrom(it.del, low) ==> !p(it))
      ensures Select(s'.storage, p) == Select(s.storage, p)
    {
      SweepUnseen(s.storage, low, p);
    }
  }

  /** A piece of a run, from any state. */
  ghost predicate IsTrace<K>(states: seq<IndexState<K>>, steps: seq<Step<K>>) {
    && |states| == |steps| + 1
    && forall i | 0 <= i < |steps| :: Next(states[i], steps[i], states[i + 1])
  }

  ghost predicate AllOrderly<K>(states: seq<IndexState<K>>, steps: seq<Step<K>>)
    requires IsTrace(states, steps)
  {
    forall i | 0 <= i < |steps| :: Orderly(states[i], steps[i], states[i + 1])
  }

  /** From any state, over any sequence of foreign steps, a reader's result never moves. */
  lemma {:induction false} SnapshotStable<K(!new)>(
    states: seq<IndexState<K>>, steps: seq<Step<K>>, want: K -> bool, rd: Reader)
    requires IsTrace(states, steps) && InTransaction(rd)
    requires forall a | a in steps :: Foreign(a, rd)
    ensures multiset(Select(states[|steps|].storage, Wanted(want, rd)))
            == multiset(Select(states[0].storage, Wanted(want, rd)))
    ensures AllOrderly(states, steps) ==>
              Select(states[|steps|].storage, Wanted(want, rd)) == Select(states[0].storage, Wanted(want, rd))
    decreases steps
  {
    hide Next, Select, Orderly;
    if steps != [] {
      var n := |steps| - 1;
      SnapshotStable(states[..n + 1], steps[..n], want, rd);
      assert steps[n] in steps;
      ForeignStepUnseen(states[n], steps[n], states[n + 1], want, rd);
    }
  }

  // ------------------------------------------------------------ abort

  /** The versions as they stand once transaction `t` never existed. */
  function Without<K>(items: seq<Item<K>>, t: nat): seq<Item<K>> {
    EditAll(EditAll(items, EraseIns, t), StampDel(NOT_DELETED_ID), t)
  }

  predicate OwnWork<K>(a: Step<K>, t: nat) {
    (a.Insert? || a.MarkDelete?) && a.txn == t
  }

  lemma {:induction false} EditAllConcat<K>(a: seq<Item<K>>, b: seq<Item<K>>, e: Edit, id: nat)
    ensures EditAll(a + b, e, id) == EditAll(a, e, id) + EditAll(b, e, id)
  {
    if a == [] {
      assert a + b == b;
    } else {
      EditAllConcat(a[1..], b, e, id);
      assert (a + b)[1..] == a[1..] + b;
      ConcatAssoc(if Carries(a[0], SideOf(e), id) then Edited(a[0], e) else [a[0]],
                  EditAll(a[1..], e, id), EditAll(b, e, id));
    }
  }

  lemma WithoutConcat<K>(a: seq<Item<K>>, b: seq<Item<K>>, t: nat)
    ensures Without(a + b, t) == Without(a, t) + Without(b, t)
  {
    EditAllConcat(a, b, EraseIns, t);
    EditAllConcat(EditAll(a, EraseIns, t), EditAll(b, EraseIns, t), StampDel(NOT_DELETED_ID), t);
  }

  lemma {:induction false} WithoutCommutes<K>(items: seq<Item<K>>, t: nat)
    ensures EditAll(EditAll(items, StampDel(NOT_DELETED_ID), t), EraseIns, t) == Without(items, t)
  {
    if items != [] {
      var head, rest := [items[0]], items[1..];
      assert items == head + rest;
      WithoutCommutes(rest, t);
      WithoutConcat(head, rest, t);
      EditAllConcat(head, rest, StampDel(NOT_DELETED_ID), t);
      EditAllConcat(EditAll(head, StampDel(NOT_DELETED_ID), t), EditAll(rest, StampDel(NOT_DELETED_ID), t), EraseIns, t);
    }
  }

  lemma WithoutAt<K>(items: seq<Item<K>>, it: Item<K>, items': seq<Item<K>>, k: nat, t: nat)
    requires InsertedAt(items, it, items', k)
    ensures Without(items', t) == Without(items[..k], t) + Without([it], t) + Without(items[k..], t)
    ensures Without(items, t) == Without(items[..k], t) + Without(items[k..], t)
  {
    WithoutConcat(items[..k] + [it], items[k..], t);
    WithoutConcat(items[..k], [it], t);
    WithoutConcat(items[..k], items[k..], t);
    assert items == items[..k] + items[k..];
  }

  lemma OwnIsWithout<K>(it: Item<K>, t: nat)
    requires it.ins == t
    ensures Without([it], t) == []
  {
    assert EditAll([it], EraseIns, t) == [];
  }

  lemma InsertWithout<K>(items: seq<Item<K>>, it: Item<K>, items': seq<Item<K>>, t: nat)
    requires InsertedSomewhere(items, it, items') && it.ins == t
    ensures Without(items', t) == Without(items, t)
  {
    hide Without;
    var k: nat :| InsertedAt(items, it, items', k);
    WithoutAt(items, it, items', k, t);
    OwnIsWithout(it, t);
  }

  lemma {:induction false} WithoutPermuted<K>(a: seq<Item<K>>, b: seq<Item<K>>, t: nat)
    requires Permuted(a, b)
    ensures multiset(Without(a, t)) == multiset(Without(b, t))
  {
    hide Without;
    if a == [] {
      assert |multiset(a)| == |multiset(b)|;
    } else {
      var j := TakeOut(a, b);
      WithoutPermuted(a[1..], b[..j] + b[j + 1..], t);
      var rest := b[..j] + b[j + 1..];
      WithoutAt(rest, a[0], b, j, t);
      WithoutAt(a[1..], a[0], a, 0, t);
      MoveFront(Without(rest[..j], t), Without([a[0]], t), Without(rest[j..], t));
      MoveFront(Without(a[1..][..0], t), Without([a[0]], t), Without(a[1..][0..], t));
    }
  }

  lemma AddWithout<K>(items: seq<Item<K>>, it: Item<K>, items': seq<Item<K>>, t: nat)
    requires Added(items, it, items') && it.ins == t
    ensures multiset(Without(items', t)) == multiset(Without(items, t))
  {
    hide Without;
    WithoutPermuted(items + [it], items', t);
    WithoutConcat(items, [it], t);
    OwnIsWithout(it, t);
  }

  lemma {:induction false} MarkWithout<K>(items: seq<Item<K>>, l: Listing<K>, t: nat)
    requires t != NOT_DELETED_ID
    ensures Without(EditFirst(items, l, StampDel(t), NOT_DELETED_ID), t) == Without(items, t)
  {
    if items != [] {
      var it, rest := items[0], items[1..];
      assert items == [it] + rest;
      WithoutConcat([it], rest, t);
      if Hit(it, l, DelSide, NOT_DELETED_ID) {
        WithoutConcat(Edited(it, StampDel(t)), rest, t);
        assert EditAll([it.(del := t)], EraseIns, t) == if it.ins == t then [] else [it.(del := t)];
      } else {
        MarkWithout(rest, l, t);
        WithoutConcat([it], EditFirst(rest, l, StampDel(t), NOT_DELETED_ID), t);
      }
    }
  }

  lemma OwnStepWithout<K(!new)>(s: IndexState<K>, a: Step<K>, s': IndexState<K>, t: nat)
    requires Next(s, a, s') && IsTxnId(t) && Covered(s, t) && OwnWork(a, t)
    ensures Covered(s', t) && multiset(Without(s'.storage, t)) == multiset(Without(s.storage, t))
    ensures Orderly(s, a, s') ==> Without(s'.storage, t) == Without(s.storage, t)
    ensures s'.pendIns - {t} == s.pendIns - {t} && s'.pendDel - {t} == s.pendDel - {t}
  {
    hide Without, Covered, Added;
    if a.Insert? {
      InsertKeepsCovered(s, a, s', t);
      AddWithout(s.storage, NewItem(a), s'.storage, t);
      if Orderly(s, a, s') {
        InsertWithout(s.storage, NewItem(a), s'.storage, t);
      }
    } else {
      MarkKeepsCovered(s, a, s', t);
      MarkWithout(s.storage, Listing(a.key, a.row), t);
    }
  }

  /** The transaction's own work leaves the versions without it unchanged, and stays listed. */
  lemma {:induction false} OwnWorkWithout<K(!new)>(states: seq<IndexState<K>>, steps: seq<Step<K>>, t: nat)
    requires IsTrace(states, steps) && IsTxnId(t) && Covered(states[0], t)
    requires forall a | a in steps :: OwnWork(a, t)
    ensures Covered(states[|steps|], t)
    ensures multiset(Without(states[|steps|].storage, t)) == multiset(Without(states[0].storage, t))
    ensures AllOrderly(states, steps) ==> Without(states[|steps|].storage, t) == Without(states[0].storage, t)
    ensures states[|steps|].pendIns - {t} == states[0].pendIns - {t}
    ensures states[|steps|].pendDel - {t} == states[0].pendDel - {t}
    decreases steps
  {
    hide Next, Without, Covered, Orderly;
    if steps != [] {
      var n := |steps| - 1;
      OwnWorkWithout(states[..n + 1], steps[..n], t);
      assert steps[n] in steps;
      OwnStepWithout(states[n], steps[n], states[n + 1], t);
    }
  }

  /** Reverting both sides, in either order, leaves the versions without the transaction. */
  lemma RevertsStrip<K(!new)>(
    s: IndexState<K>, first: Step<K>, m: IndexState<K>, second: Step<K>, s': IndexState<K>, t: nat)
    requires IsTxnId(t) && Covered(s, t)
    requires (first == RevertInsert(t) && second == RevertDelete(t))
          || (first == RevertDelete(t) && second == RevertInsert(t))
    requires Next(s, first, m) && Next(m, second, s')
    ensures s'.storage == Without(s.storage, t)
    ensures s'.pendIns == s.pendIns - {t} && s'.pendDel == s.pendDel - {t}
  {
    var e1, e2 := EditOf(first), EditOf(second);
    var l1 := Bucket(if SideOf(e1).InsSide? then s.pendIns else s.pendDel, t);
    var l2 := Bucket(if SideOf(e2).InsSide? then s.pendIns else s.pendDel, t);
    EditListedIsEditAll(s.storage, l1, e1, t);
    forall l ensures Count(m.storage, l, SideOf(e2), t) <= multiset(l2)[l] {
      EditListedCount(s.storage, l1, e1, t, l, SideOf(e2), t);
      assert Count(s.storage, l, SideOf(e2), t) <= multiset(l2)[l];
    }
    EditListedIsEditAll(m.storage, l2, e2, t);
    WithoutCommutes(s.storage, t);
  }

  /** From a state without stamps of `t`: any work of `t`, then both reverts in either order,
      restores the stored versions and leaves no pending lists of `t`; the order of the versions
      comes back too unless a hash container reordered them. */
  lemma AbortRestores<K(!new)>(
    states: seq<IndexState<K>>, steps: seq<Step<K>>, t: nat,
    first: Step<K>, m: IndexState<K>, second: Step<K>, s': IndexState<K>)
    requires IsTrace(states, steps) && IsTxnId(t)
    requires Clean(states[0].storage, InsSide, t) && Clean(states[0].storage, DelSide, t)
    requires forall a | a in steps :: OwnWork(a, t)
    requires (first == RevertInsert(t) && second == RevertDelete(t))
          || (first == RevertDelete(t) && second == RevertInsert(t))
    requires Next(states[|steps|], first, m) && Next(m, second, s')
    ensures multiset(s'.storage) == multiset(states[0].storage)
    ensures AllOrderly(states, steps) ==> s'.storage == states[0].storage
    ensures s'.pendIns == states[0].pendIns - {t} && s'.pendDel == states[0].pendDel - {t}
  {
    var s0 := states[0];
    forall l ensures Count(s0.storage, l, InsSide, t) == 0 && Count(s0.storage, l, DelSide, t) == 0 {
      CleanCount(s0.storage, l, InsSide, t);
      CleanCount(s0.storage, l, DelSide, t);
    }
    OwnWorkWithout(states, steps, t);
    RevertsStrip(states[|steps|], first, m, second, s', t);
    CleanNoEdit(s0.storage, EraseIns, t);
    CleanNoEdit(s0.storage, StampDel(NOT_DELETED_ID), t);
  }
}
