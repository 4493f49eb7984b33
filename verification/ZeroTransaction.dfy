/**
 Work outside any transaction is listed under id 0 and takes effect at once: an insert stamped 0
 is visible to everyone, a delete stamped 0 hides its row from everyone.  The next commit that names
 the table restamps it with its own commit id.  That takes the effect away again from readers that
 started before, so snapshot stability does not extend to it; this module says exactly when.
 */
module ZeroTransaction {
  import opened Mvcc
  import opened IndexModel
  import opened TableRefinement
  import opened Isolation
  import opened CommitEffects

  /** Some version that the commit of id 0 gives the id `c` is in the reader's result. */
  ghost predicate ShowsZeroInsert<K>(s: IndexState<K>, c: nat, want: K -> bool, rd: Reader) {
    exists it | it in Restamped(s.storage, Bucket(s.pendIns, 0), StampIns(c), 0) ::
      want(it.key) && Visible(it.ins, it.del, rd)
  }

  /** Some version whose delete under id 0 gets the id `c` would be in the result without that delete. */
  ghost predicate MissesZeroDelete<K>(s: IndexState<K>, c: nat, want: K -> bool, rd: Reader) {
    exists it | it in Restamped(s.storage, Bucket(s.pendDel, 0), StampDel(c), 0) ::
      want(it.key) && Visible(it.ins, NOT_DELETED_ID, rd)
  }

  /** Committing the inserts of id 0 leaves a reader's result alone exactly when the commit lies before the
      reader's start or none of those rows was in the result. */
  lemma ZeroCommitInsertIff<K>(s: IndexState<K>, c: nat, s': IndexState<K>, want: K -> bool, rd: Reader)
    requires InTransaction(rd) && 0 < rd.start && IsCommitId(c) && Next(s, CommitInsert(0, c), s')
    ensures Select(s'.storage, Wanted(want, rd)) == Select(s.storage, Wanted(want, rd))
            <==> c < rd.start || !ShowsZeroInsert(s, c, want, rd)
  {
    hide Restamped, EditListed, Select;
    var p, e, ls := Wanted(want, rd), StampIns(c), Bucket(s.pendIns, 0);
    RestampedMembers(s.storage, ls, e, 0);
    forall it: Item<K> | it in Restamped(s.storage, ls, e, 0)
      ensures if c < rd.start then Select(Edited(it, e), p) == Select([it], p) else Select(Edited(it, e), p) == []
    {
      SelectOne(it, p);
      SelectOne(it.(ins := c), p);
    }
    if c < rd.start {
      EditListedMoves(s.storage, ls, e, 0, p);
    } else {
      OutOfView(s.storage, ls, e, 0, p);
      assert forall it: Item<K> :: p(it) == (want(it.key) && Visible(it.ins, it.del, rd));
    }
  }

  /** Committing the deletes of id 0 leaves a reader's result alone exactly when the commit lies before the
      reader's start or none of those rows would come back. */
  lemma ZeroCommitDeleteIff<K>(s: IndexState<K>, c: nat, s': IndexState<K>, want: K -> bool, rd: Reader)
    requires InTransaction(rd) && 0 < rd.start && IsCommitId(c) && Next(s, CommitDelete(0, c), s')
    ensures Select(s'.storage, Wanted(want, rd)) == Select(s.storage, Wanted(want, rd))
            <==> c < rd.start || !MissesZeroDelete(s, c, want, rd)
  {
    hide Restamped, EditListed, Select;
    var p, e, ls := Wanted(want, rd), StampDel(c), Bucket(s.pendDel, 0);
    RestampedMembers(s.storage, ls, e, 0);
    forall it: Item<K> | it in Restamped(s.storage, ls, e, 0)
      ensures !p(it)
      ensures Select(Edited(it, e), p) == [] <==> c < rd.start || !(want(it.key) && Visible(it.ins, NOT_DELETED_ID, rd))
    {
      SelectOne(it.(del := c), p);
    }
    IntoView(s.storage, ls, e, 0, p);
  }

  /** Where row ids are distinct, the commit restamps exactly the listed versions that carry 0. */
  lemma {:induction false} ListedAreMet<K>(items: seq<Item<K>>, ls: seq<Listing<K>>, e: Edit, id: nat, it: Item<K>)
    requires DistinctRows(items) && it in items && Carries(it, SideOf(e), id) && Listing(it.key, it.row) in ls
    ensures it in Restamped(items, ls, e, id)
    decreases ls
  {
    MetIsFirst(items, ls[0], e, id);
    if it !in Met(items, ls[0], SideOf(e), id) {
      if ls[0] == Listing(it.key, it.row) {
        OnlyOneIsMet(items, ls[0], SideOf(e), id, it);
      }
      EditFirstDistinct(items, ls[0], e, id);
      ListedAreMet(EditFirst(items, ls[0], e, id), ls[1..], e, id, it);
    }
  }

  lemma {:induction false} OnlyOneIsMet<K>(items: seq<Item<K>>, l: Listing<K>, side: Side, id: nat, it: Item<K>)
    requires DistinctRows(items) && it in items && Hit(it, l, side, id)
    ensures it in Met(items, l, side, id)
  {
    if Hit(items[0], l, side, id) {
      var i :| 0 <= i < |items| && items[i] == it;
    } else {
      OnlyOneIsMet(items[1..], l, side, id, it);
    }
  }

  // ------------------------------------------------------------ inputs

  /** The rows of a reopened table are inserted under id 0; a reader that sees such a row loses it when
      a later commit names the table. */
  lemma ReloadedRowVanishes<K>(k: K, r: int, c: nat, want: K -> bool, rd: Reader)
    requires InTransaction(rd) && 0 < rd.start <= c && IsCommitId(c) && want(k)
    ensures var s := IndexState([Item(k, r, 0, NOT_DELETED_ID)], map[0 := [Listing(k, r)]], map[]);
      var s' := IndexState([Item(k, r, c, NOT_DELETED_ID)], map[], map[]);
      && Next(EmptyState(), Insert(k, r, 0), s) && Next(s, CommitInsert(0, c), s')
      && Select(s.storage, Wanted(want, rd)) == [r] && Select(s'.storage, Wanted(want, rd)) == []
  {
    var it: Item<K>, l := Item(k, r, 0, NOT_DELETED_ID), Listing(k, r);
    assert [] + [it] == [it] && [] + [l] == [l];
    OneEntry(it, l, StampIns(c), 0);
    assert map[0 := [l]] - {0} == map[];
    SelectOne(it, Wanted(want, rd));
    SelectOne(it.(ins := c), Wanted(want, rd));
  }

  lemma OneEntry<K>(it: Item<K>, l: Listing<K>, e: Edit, id: nat)
    requires Hit(it, l, SideOf(e), id)
    ensures EditListed([it], [l], e, id) == Edited(it, e)
  {
    assert [l][1..] == [] && [it][1..] == [];
    assert EditFirst([it], l, e, id) == Edited(it, e) + [];
  }

  /** A row deleted outside any transaction comes back to an older reader when a later commit names
      the table. */
  lemma DeletedRowReturns<K>(k: K, r: int, c: nat, want: K -> bool, rd: Reader)
    requires InTransaction(rd) && 0 < rd.start <= c && IsCommitId(c) && want(k)
    ensures var s0 := IndexState([Item(k, r, 0, NOT_DELETED_ID)], map[], map[]);
      var s := IndexState([Item(k, r, 0, 0)], map[], map[0 := [Listing(k, r)]]);
      var s' := IndexState([Item(k, r, 0, c)], map[], map[]);
      && Next(EmptyState(), Load(k, r), s0) && Next(s0, MarkDelete(k, r, 0), s) && Next(s, CommitDelete(0, c), s')
      && Select(s.storage, Wanted(want, rd)) == [] && Select(s'.storage, Wanted(want, rd)) == [r]
  {
    var it: Item<K>, l := Item(k, r, 0, NOT_DELETED_ID), Listing(k, r);
    assert [] + [it] == [it] && [] + [l] == [l];
    assert Hit([it][0], l, DelSide, NOT_DELETED_ID);
    assert EditFirst([it], l, StampDel(0), NOT_DELETED_ID) == [it.(del := 0)];
    OneEntry(it.(del := 0), l, StampDel(c), 0);
    assert map[0 := [l]] - {0} == map[];
    SelectOne(it.(del := 0), Wanted(want, rd));
    SelectOne(it.(del := c), Wanted(want, rd));
  }
}
