/**
 Refinement with work outside any transaction.  Reopening a table inserts its rows under id 0; they are
 listed there until the next commit that names the table restamps them.  A table that remembers which
 rows list 0 names is still what every search of the index shows.
 */
module ZeroRefinement {
  import opened Mvcc
  import opened IndexModel
  import opened TableRefinement
  import opened Isolation

  /** The versioned table, and the rows that the two lists of id 0 name. */
  datatype ZeroTable<!K> = ZeroTable(rows: Table<K>, ins: set<int>, del: set<int>)

  predicate ByZero<K>(a: Step<K>) {
    (a.Insert? || a.MarkDelete? || a.CommitInsert? || a.CommitDelete?) && a.txn == 0
  }

  predicate Ends<K(==)>(t: Table<K>, a: Step<K>) {
    a.MarkDelete? && a.row in t && t[a.row].key == a.key && t[a.row].del == NOT_DELETED_ID
  }

  function ZeroStep<K(==)>(z: ZeroTable<K>, a: Step<K>): ZeroTable<K> {
    if a.Cleanup? then z.(del := if 0 < a.low then {} else z.del)
    else if !ByZero(a) then z.(rows := TableStep(z.rows, a))
    else match a
      case Insert(_, r, _) => z.(rows := TableStep(z.rows, a), ins := z.ins + {r})
      case MarkDelete(_, r, _) =>
        z.(rows := TableStep(z.rows, a), del := if Ends(z.rows, a) then z.del + {r} else z.del)
      case CommitInsert(_, c) =>
        z.(rows := map r | r in z.rows :: if r in z.ins then z.rows[r].(ins := c) else z.rows[r], ins := {})
      case CommitDelete(_, c) =>
        z.(rows := map r | r in z.rows :: if r in z.del && z.rows[r].del == 0 then z.rows[r].(del := c) else z.rows[r],
           del := {})
  }

  function ZeroAfter<K(==)>(steps: seq<Step<K>>): ZeroTable<K> {
    if steps == [] then ZeroTable(map[], {}, {})
    else ZeroStep(ZeroAfter(steps[..|steps| - 1]), steps[|steps| - 1])
  }

  predicate ZeroLegal<K>(z: ZeroTable<K>, a: Step<K>, low: nat) {
    if ByZero(a) then FreshRow(z.rows, a) && (a.CommitInsert? || a.CommitDelete? ==> IsCommitId(a.commit))
    else Legal(z.rows, a, low) && (a.CommitInsert? || a.CommitDelete? ==> 0 < a.commit)
  }

  // ------------------------------------------------------------ the invariant

  /** List 0 of inserts names exactly the rows that the table remembers. */
  ghost predicate InsListed<K>(s: IndexState<K>, z: ZeroTable<K>) {
    && (forall l | l in Bucket(s.pendIns, 0) :: l.row in z.ins && l.row in z.rows && z.rows[l.row].key == l.key)
    && (forall r | r in z.ins :: r in z.rows && z.rows[r].ins == 0 && Listing(z.rows[r].key, r) in Bucket(s.pendIns, 0))
  }

  /** So does list 0 of deletes, of the versions still stored. */
  ghost predicate DelListed<K>(s: IndexState<K>, z: ZeroTable<K>) {
    && (forall it | it in s.storage && it.del == 0 ::
          Listing(it.key, it.row) in Bucket(s.pendDel, 0) <==> it.row in z.del)
    && (forall r | r in z.del && r in z.rows && z.rows[r].del == 0 :: HasRow(s.storage, r))
  }

  ghost predicate ZeroInv<K(!new)>(s: IndexState<K>, z: ZeroTable<K>, low: nat) {
    Inv(s) && Refines(s.storage, z.rows, low) && InsListed(s, z) && DelListed(s, z)
  }

  // ------------------------------------------------------------ the commit of id 0

  predicate Named<K(==)>(it: Item<K>, ls: seq<Listing<K>>, e: Edit, id: nat) {
    Carries(it, SideOf(e), id) && Listing(it.key, it.row) in ls
  }

  function Restamp<K>(it: Item<K>, e: Edit): Item<K>
    requires !e.EraseIns?
  {
    Edited(it, e)[0]
  }

  lemma {:induction false} EditFirstAt<K>(items: seq<Item<K>>, l: Listing<K>, e: Edit, id: nat)
    requires DistinctRows(items) && !e.EraseIns?
    ensures |EditFirst(items, l, e, id)| == |items|
    ensures forall i | 0 <= i < |items| ::
              EditFirst(items, l, e, id)[i] == if Hit(items[i], l, SideOf(e), id) then Restamp(items[i], e) else items[i]
  {
    if items != [] && !Hit(items[0], l, SideOf(e), id) {
      EditFirstAt(items[1..], l, e, id);
    }
  }

  /** With distinct rows the walk over a list restamps exactly the listed carriers, in place. */
  lemma {:induction false} EditListedAt<K>(items: seq<Item<K>>, ls: seq<Listing<K>>, e: Edit, id: nat)
    requires DistinctRows(items) && !e.EraseIns?
    ensures |EditListed(items, ls, e, id)| == |items|
    ensures forall i | 0 <= i < |items| ::
              EditListed(items, ls, e, id)[i] == if Named(items[i], ls, e, id) then Restamp(items[i], e) else items[i]
    decreases ls
  {
    if ls != [] {
      EditFirstAt(items, ls[0], e, id);
      var next := EditFirst(items, ls[0], e, id);
      EditListedAt(next, ls[1..], e, id);
      forall i | 0 <= i < |items|
        ensures EditListed(items, ls, e, id)[i] == if Named(items[i], ls, e, id) then Restamp(items[i], e) else items[i]
      {
        assert next[i] == if Hit(items[i], ls[0], SideOf(e), id) then Restamp(items[i], e) else items[i];
        assert ls == [ls[0]] + ls[1..];
      }
    }
  }

  /** Versions that change in place as their rows in the table do keep refining it. */
  lemma InPlaceRefines<K>(items: seq<Item<K>>, items': seq<Item<K>>, t: Table<K>, t': Table<K>, low: nat)
    requires Refines(items, t, low) && |items'| == |items| && t'.Keys == t.Keys
    requires forall i | 0 <= i < |items| :: items'[i].row == items[i].row && t'[items[i].row] == VersionOf(items'[i])
    requires forall r | r in t' :: t'[r].del == t[r].del || HasRow(items, r)
    ensures Refines(items', t', low)
  {
    forall x | x in items' ensures x.row in t' && t'[x.row] == VersionOf(x) {
      var i :| 0 <= i < |items'| && items'[i] == x;
      assert items[i] in items;
    }
    forall r | r in t' ensures HasRow(items', r) || (t'[r].del < low && t'[r].del < TRANSACTION_ID_START) {
      if HasRow(items, r) {
        HasRowInPlace(items, items', r);
      }
    }
  }

  lemma HasRowInPlace<K>(items: seq<Item<K>>, items': seq<Item<K>>, r: int)
    requires |items'| == |items| && (forall i | 0 <= i < |items| :: items'[i].row == items[i].row) && HasRow(items, r)
    ensures HasRow(items', r)
  {
    var it :| it in items && it.row == r;
    var i :| 0 <= i < |items| && items[i] == it;
    assert items'[i] in items';
  }

  lemma ResolveZeroKeepsInv<K(!new)>(s: IndexState<K>, a: Step<K>, s': IndexState<K>)
    requires Inv(s) && Next(s, a, s') && ByZero(a) && (a.CommitInsert? || a.CommitDelete?) && IsCommitId(a.commit)
    ensures Inv(s')
  {
    var e := EditOf(a);
    var ls := Bucket(if a.CommitInsert? then s.pendIns else s.pendDel, 0);
    forall t | IsTxnId(t) ensures Covered(s', t) {
      assert Covered(s, t) && Bucket(s'.pendIns, t) == Bucket(s.pendIns, t) && Bucket(s'.pendDel, t) == Bucket(s.pendDel, t);
      forall m ensures Count(s'.storage, m, InsSide, t) <= multiset(Bucket(s'.pendIns, t))[m] {
        EditListedCount(s.storage, ls, e, 0, m, InsSide, t);
        assert Count(s.storage, m, InsSide, t) <= multiset(Bucket(s.pendIns, t))[m];
      }
      forall m ensures Count(s'.storage, m, DelSide, t) <= multiset(Bucket(s'.pendDel, t))[m] {
        EditListedCount(s.storage, ls, e, 0, m, DelSide, t);
        assert Count(s.storage, m, DelSide, t) <= multiset(Bucket(s.pendDel, t))[m];
      }
    }
  }

  lemma CommitInsertZero<K(!new)>(s: IndexState<K>, c: nat, s': IndexState<K>, z: ZeroTable<K>, low: nat)
    requires ZeroInv(s, z, low) && Next(s, CommitInsert(0, c), s') && IsCommitId(c)
    ensures ZeroInv(s', ZeroStep(z, CommitInsert(0, c)), low)
  {
    hide Inv, EditListed;
    ResolveZeroKeepsInv(s, CommitInsert(0, c), s');
    var z' := ZeroStep(z, CommitInsert(0, c));
    EditListedAt(s.storage, Bucket(s.pendIns, 0), StampIns(c), 0);
    forall i | 0 <= i < |s.storage|
      ensures s'.storage[i].row == s.storage[i].row && z'.rows[s.storage[i].row] == VersionOf(s'.storage[i])
    {
      assert s.storage[i] in s.storage;
    }
    InPlaceRefines(s.storage, s'.storage, z.rows, z'.rows, low);
    InPlaceListed(s, s', z, z');
  }

  /** Versions that only change their insert keep the deletes of list 0 as they are. */
  lemma InPlaceListed<K>(s: IndexState<K>, s': IndexState<K>, z: ZeroTable<K>, z': ZeroTable<K>)
    requires DelListed(s, z) && |s'.storage| == |s.storage| && Bucket(s'.pendDel, 0) == Bucket(s.pendDel, 0)
    requires forall i | 0 <= i < |s.storage| :: s'.storage[i] == s.storage[i].(ins := s'.storage[i].ins)
    requires z'.del == z.del && z'.rows.Keys == z.rows.Keys && forall r | r in z.rows :: z'.rows[r].del == z.rows[r].del
    ensures DelListed(s', z')
  {
    forall it | it in s'.storage && it.del == 0
      ensures Listing(it.key, it.row) in Bucket(s'.pendDel, 0) <==> it.row in z'.del
    {
      var i :| 0 <= i < |s'.storage| && s'.storage[i] == it;
      assert s.storage[i] in s.storage;
    }
    forall r | r in z'.del && r in z'.rows && z'.rows[r].del == 0 ensures HasRow(s'.storage, r) {
      HasRowInPlace(s.storage, s'.storage, r);
    }
  }

  lemma CommitDeleteZero<K(!new)>(s: IndexState<K>, c: nat, s': IndexState<K>, z: ZeroTable<K>, low: nat)
    requires ZeroInv(s, z, low) && Next(s, CommitDelete(0, c), s') && IsCommitId(c)
    ensures ZeroInv(s', ZeroStep(z, CommitDelete(0, c)), low)
  {
    hide Inv, EditListed;
    ResolveZeroKeepsInv(s, CommitDelete(0, c), s');
    var z' := ZeroStep(z, CommitDelete(0, c));
    EditListedAt(s.storage, Bucket(s.pendDel, 0), StampDel(c), 0);
    forall i | 0 <= i < |s.storage|
      ensures s'.storage[i].row == s.storage[i].row && z'.rows[s.storage[i].row] == VersionOf(s'.storage[i])
    {
      assert s.storage[i] in s.storage;
    }
    InPlaceRefines(s.storage, s'.storage, z.rows, z'.rows, low);
  }

  // ------------------------------------------------------------ the other steps

  lemma InsertZero<K(!new)>(s: IndexState<K>, a: Step<K>, s': IndexState<K>, z: ZeroTable<K>, low: nat)
    requires ZeroInv(s, z, low) && Next(s, a, s') && a.Insert? && a.txn == 0 && a.row !in z.rows
    ensures ZeroInv(s', ZeroStep(z, a), low)
  {
    hide Covered, Refines, Permuted;
    var it := Item(a.key, a.row, 0, NOT_DELETED_ID);
    forall t | IsTxnId(t) ensures Covered(s', t) {
      InsertKeepsCovered(s, a, s', t);
    }
    InsertRefines(s.storage, it, s'.storage, z.rows, low);
    AddedListed(s, it, s', z, ZeroStep(z, a));
  }

  /** One more live version keeps the deletes of list 0 as they are. */
  lemma AddedListed<K(!new)>(s: IndexState<K>, it: Item<K>, s': IndexState<K>, z: ZeroTable<K>, z': ZeroTable<K>)
    requires DelListed(s, z) && Added(s.storage, it, s'.storage) && it.del == NOT_DELETED_ID && it.row !in z.rows
    requires Bucket(s'.pendDel, 0) == Bucket(s.pendDel, 0)
    requires z'.del == z.del && z'.rows == z.rows[it.row := VersionOf(it)]
    ensures DelListed(s', z')
  {
    hide Permuted;
    PermutedMembers(s.storage + [it], s'.storage);
    forall r | r in z'.del && r in z'.rows && z'.rows[r].del == 0 ensures HasRow(s'.storage, r) {
      assert r != it.row;
      var x :| x in s.storage && x.row == r;
      assert x in s.storage + [it];
    }
  }

  lemma MarkZero<K(!new)>(s: IndexState<K>, a: Step<K>, s': IndexState<K>, z: ZeroTable<K>, low: nat)
    requires ZeroInv(s, z, low) && Next(s, a, s') && a.MarkDelete?
    ensures ZeroInv(s', ZeroStep(z, a), low)
  {
    hide Covered;
    forall t | IsTxnId(t) ensures Covered(s', t) {
      MarkKeepsCovered(s, a, s', t);
    }
    MarkRefines(s, a, s', z.rows, low);
    LiveIff(s, Listing(a.key, a.row), z.rows, low);
    if Ends(z.rows, a) {
      MarkedListed(s, a, s', z, low);
    }
  }

  lemma LiveIff<K>(s: IndexState<K>, l: Listing<K>, t: Table<K>, low: nat)
    requires Refines(s.storage, t, low)
    ensures HasLive(s.storage, l) <==> l.row in t && t[l.row].key == l.key && t[l.row].del == NOT_DELETED_ID
  {
    if HasLive(s.storage, l) {
      var i :| 0 <= i < |s.storage| && Hit(s.storage[i], l, DelSide, NOT_DELETED_ID);
      assert s.storage[i] in s.storage;
    }
    if l.row in t && t[l.row].key == l.key && t[l.row].del == NOT_DELETED_ID {
      assert HasRow(s.storage, l.row);
      var it :| it in s.storage && it.row == l.row;
      var i :| 0 <= i < |s.storage| && s.storage[i] == it;
      assert Hit(s.storage[i], l, DelSide, NOT_DELETED_ID);
    }
  }

  lemma MarkedItem<K>(it: Item<K>, it': Item<K>, a: Step<K>, z: ZeroTable<K>, ls: seq<Listing<K>>, ls': seq<Listing<K>>)
    requires Ends(z.rows, a) && it.row in z.rows && z.rows[it.row] == VersionOf(it)
    requires it.del == 0 ==> (Listing(it.key, it.row) in ls <==> it.row in z.del)
    requires it' == if Hit(it, Listing(a.key, a.row), DelSide, NOT_DELETED_ID) then it.(del := a.txn) else it
    requires it'.del == 0 && ls' == if a.txn == 0 then ls + [Listing(a.key, a.row)] else ls
    ensures Listing(it'.key, it'.row) in ls' <==> it'.row in ZeroStep(z, a).del
  {
    if it.row != a.row {
      assert Listing(it.key, it.row) != Listing(a.key, a.row);
    }
  }

  /** A mark stamps the live version in place and lists it. */
  lemma MarkInPlace<K>(s: IndexState<K>, a: Step<K>, s': IndexState<K>)
    requires Next(s, a, s') && a.MarkDelete? && HasLive(s.storage, Listing(a.key, a.row)) && DistinctRows(s.storage)
    ensures |s'.storage| == |s.storage|
    ensures forall i | 0 <= i < |s.storage| :: s'.storage[i].row == s.storage[i].row
    ensures forall i | 0 <= i < |s.storage| :: s'.storage[i] ==
              if Hit(s.storage[i], Listing(a.key, a.row), DelSide, NOT_DELETED_ID) then s.storage[i].(del := a.txn)
              else s.storage[i]
    ensures Bucket(s'.pendDel, 0) ==
            if a.txn == 0 then Bucket(s.pendDel, 0) + [Listing(a.key, a.row)] else Bucket(s.pendDel, 0)
  {
    EditFirstAt(s.storage, Listing(a.key, a.row), StampDel(a.txn), NOT_DELETED_ID);
  }

  lemma MarkedListed<K(!new)>(s: IndexState<K>, a: Step<K>, s': IndexState<K>, z: ZeroTable<K>, low: nat)
    requires Refines(s.storage, z.rows, low) && DelListed(s, z) && Next(s, a, s')
    requires a.MarkDelete? && Ends(z.rows, a) && HasLive(s.storage, Listing(a.key, a.row))
    ensures DelListed(s', ZeroStep(z, a))
  {
    hide Next, ZeroStep, Hit, HasLive, HasRow, DistinctRows, Bucket;
    MarkInPlace(s, a, s');
    var z' := ZeroStep(z, a);
    forall it | it in s'.storage && it.del == 0
      ensures Listing(it.key, it.row) in Bucket(s'.pendDel, 0) <==> it.row in z'.del
    {
      var i :| 0 <= i < |s'.storage| && s'.storage[i] == it;
      assert s.storage[i] in s.storage;
      MarkedItem(s.storage[i], it, a, z, Bucket(s.pendDel, 0), Bucket(s'.pendDel, 0));
    }
    forall r | r in z'.del && r in z'.rows && z'.rows[r].del == 0 ensures HasRow(s'.storage, r) {
      MarkedRow(s.storage, a, z, low, r);
      HasRowInPlace(s.storage, s'.storage, r);
    }
  }

  lemma MarkedRow<K(!new)>(items: seq<Item<K>>, a: Step<K>, z: ZeroTable<K>, low: nat, r: int)
    requires Refines(items, z.rows, low) && Ends(z.rows, a)
    requires forall q | q in z.del && q in z.rows && z.rows[q].del == 0 :: HasRow(items, q)
    requires var z' := ZeroStep(z, a); r in z'.del && r in z'.rows && z'.rows[r].del == 0
    ensures HasRow(items, r)
  {
  }

  lemma CleanupZero<K(!new)>(s: IndexState<K>, a: Step<K>, s': IndexState<K>, z: ZeroTable<K>, low: nat)
    requires ZeroInv(s, z, low) && Next(s, a, s') && a.Cleanup? && a.low <= low
    ensures ZeroInv(s', ZeroStep(z, a), low)
  {
    hide Inv, Refines;
    StepKeepsInv(s, a, s');
    CleanupRefines(s, a, s', z.rows, low);
    SweepMembers(s.storage, a.low);
    assert Bucket(s'.pendIns, 0) == Bucket(s.pendIns, 0);
    if a.low == 0 {
      assert Bucket(s'.pendDel, 0) == Bucket(s.pendDel, 0);
      forall r | r in z.del && r in z.rows && z.rows[r].del == 0 ensures HasRow(s'.storage, r) {
        var it :| it in s.storage && it.row == r;
        assert it in s'.storage;
      }
    }
  }

  /** The end of a transaction leaves versions deleted under id 0 alone, unless it erases them. */
  lemma ResolveKeepsZeroDel<K>(items: seq<Item<K>>, e: Edit, t: nat, it: Item<K>)
    requires t != 0 && (!e.EraseIns? ==> e.to != 0) && it in EditAll(items, e, t) && it.del == 0
    ensures exists x | x in items :: x.del == 0 && x.key == it.key && x.row == it.row
  {
    hide EditAll;
    EditAllMembers(items, e, t);
    var x :| x in items && if Carries(x, SideOf(e), t) then it in Edited(x, e) else it == x;
    assert x.del == 0 && x.key == it.key && x.row == it.row;
  }

  lemma ResolveKeepsRow<K>(items: seq<Item<K>>, e: Edit, t: nat, x: Item<K>)
    requires x in items && (e.EraseIns? ==> x.ins != t)
    ensures HasRow(EditAll(items, e, t), x.row)
  {
    hide EditAll;
    EditAllMembers(items, e, t);
    if Carries(x, SideOf(e), t) {
      assert Edited(x, e)[0] in Edited(x, e);
    }
  }

  lemma ResolveInsListed<K>(s: IndexState<K>, a: Step<K>, s': IndexState<K>, z: ZeroTable<K>)
    requires InsListed(s, z) && Bucket(s'.pendIns, 0) == Bucket(s.pendIns, 0) && Resolves(a) && a.txn != 0
    ensures InsListed(s', z.(rows := TableStep(z.rows, a)))
  {
    var t' := TableStep(z.rows, a);
    forall r | r in z.ins ensures r in t' && t'[r].ins == 0 && t'[r].key == z.rows[r].key {
    }
  }

  lemma ResolveTable<K>(t: Table<K>, a: Step<K>, r: int)
    requires Resolves(a) && a.txn != 0 && (a.CommitDelete? ==> 0 < a.commit)
    requires r in TableStep(t, a) && TableStep(t, a)[r].del == 0
    ensures r in t && t[r].del == 0 && (a.RevertInsert? ==> t[r].ins != a.txn)
  {
  }

  /** The end of a transaction does not touch what list 0 names. */
  lemma ResolveListed<K(!new)>(s: IndexState<K>, a: Step<K>, s': IndexState<K>, z: ZeroTable<K>, low: nat)
    requires ZeroInv(s, z, low) && Next(s, a, s') && Resolves(a) && LegalIds(a)
    requires a.CommitInsert? || a.CommitDelete? ==> 0 < a.commit
    ensures InsListed(s', z.(rows := TableStep(z.rows, a))) && DelListed(s', z.(rows := TableStep(z.rows, a)))
  {
    ResolveBuckets(s, a, s');
    hide Inv, EditAll, Next, EditListed, TableStep, InsListed;
    ResolveIsEditAll(s, a, s');
    ResolveInsListed(s, a, s', z);
    var e, t' := EditOf(a), TableStep(z.rows, a);
    forall it | it in s'.storage && it.del == 0
      ensures Listing(it.key, it.row) in Bucket(s'.pendDel, 0) <==> it.row in z.del
    {
      ResolveKeepsZeroDel(s.storage, e, a.txn, it);
    }
    forall r | r in z.del && r in t' && t'[r].del == 0 ensures HasRow(s'.storage, r) {
      ResolveTable(z.rows, a, r);
      var x :| x in s.storage && x.row == r;
      ResolveKeepsRow(s.storage, e, a.txn, x);
    }
  }

  lemma ResolveBuckets<K>(s: IndexState<K>, a: Step<K>, s': IndexState<K>)
    requires Next(s, a, s') && Resolves(a) && a.txn != 0
    ensures Bucket(s'.pendIns, 0) == Bucket(s.pendIns, 0) && Bucket(s'.pendDel, 0) == Bucket(s.pendDel, 0)
  {
  }

  /** Every step keeps the index a refinement of the table with its lists of id 0. */
  lemma ZeroStepRefines<K(!new)>(s: IndexState<K>, a: Step<K>, s': IndexState<K>, z: ZeroTable<K>, low: nat)
    requires ZeroInv(s, z, low) && ZeroLegal(z, a, low) && Next(s, a, s')
    ensures ZeroInv(s', ZeroStep(z, a), low)
  {
    hide Next, ZeroInv;
    match a
    case Load(k, r) => LoadZero(s, a, s', z, low);
    case Insert(k, r, x) =>
      if x == 0 {
        InsertZero(s, a, s', z, low);
      } else {
        LoadZero(s, a, s', z, low);
      }
    case MarkDelete(k, r, x) => MarkZero(s, a, s', z, low);
    case Cleanup(_) => CleanupZero(s, a, s', z, low);
    case CommitInsert(x, c) =>
      if x == 0 {
        CommitInsertZero(s, c, s', z, low);
      } else {
        ResolveZero(s, a, s', z, low);
      }
    case CommitDelete(x, c) =>
      if x == 0 {
        CommitDeleteZero(s, c, s', z, low);
      } else {
        ResolveZero(s, a, s', z, low);
      }
    case RevertInsert(_) => ResolveZero(s, a, s', z, low);
    case RevertDelete(_) => ResolveZero(s, a, s', z, low);
  }

  lemma LoadZero<K(!new)>(s: IndexState<K>, a: Step<K>, s': IndexState<K>, z: ZeroTable<K>, low: nat)
    requires ZeroInv(s, z, low) && Legal(z.rows, a, low) && Next(s, a, s') && (a.Load? || (a.Insert? && a.txn != 0))
    ensures ZeroInv(s', ZeroStep(z, a), low)
  {
    hide Inv, Refines, Permuted;
    StepRefines(s, a, s', z.rows, low);
    AddedListed(s, NewItem(a), s', z, ZeroStep(z, a));
  }

  lemma ResolveZero<K(!new)>(s: IndexState<K>, a: Step<K>, s': IndexState<K>, z: ZeroTable<K>, low: nat)
    requires ZeroInv(s, z, low) && Legal(z.rows, a, low) && Next(s, a, s') && Resolves(a) && !ByZero(a)
    requires a.CommitInsert? || a.CommitDelete? ==> 0 < a.commit
    ensures ZeroInv(s', ZeroStep(z, a), low)
  {
    hide Inv, Refines, Next, InsListed, DelListed;
    StepRefines(s, a, s', z.rows, low);
    ResolveListed(s, a, s', z, low);
  }

  // ------------------------------------------------------------ whole runs

  ghost predicate ZeroLegalRun<K>(steps: seq<Step<K>>, low: nat) {
    forall i | 0 <= i < |steps| :: ZeroLegal(ZeroAfter(steps[..i]), steps[i], low)
  }

  lemma {:induction false} ZeroRunRefines<K(!new)>(states: seq<IndexState<K>>, steps: seq<Step<K>>, low: nat)
    requires IsRun(states, steps) && ZeroLegalRun(steps, low)
    ensures ZeroInv(states[|steps|], ZeroAfter(steps), low)
  {
    hide Next, ZeroLegal, ZeroStep;
    if steps == [] {
      assert Inv(states[0]);
    } else {
      hide ZeroInv;
      var n := |steps| - 1;
      var before := steps[..n];
      assert forall i | 0 <= i < n :: before[..i] == steps[..i];
      ZeroRunRefines(states[..n + 1], before, low);
      assert ZeroLegal(ZeroAfter(steps[..n]), steps[n], low);
      ZeroStepRefines(states[n], steps[n], states[n + 1], ZeroAfter(before), low);
    }
  }

  /** In every run, with any work outside transactions, every search answers like a scan of the table. */
  lemma ZeroRefinesTableScan<K(!new)>(
    states: seq<IndexState<K>>, steps: seq<Step<K>>, low: nat, want: K -> bool, rd: Reader)
    requires IsRun(states, steps) && ZeroLegalRun(steps, low) && ServedBy(rd, low)
    ensures var found := Select(states[|steps|].storage, Wanted(want, rd));
      && (set r | r in found) == Scan(ZeroAfter(steps).rows, want, rd)
      && NoRepeats(found)
  {
    ZeroRunRefines(states, steps, low);
    SelectIsScan(states[|steps|].storage, ZeroAfter(steps).rows, low, want, rd);
  }
}
