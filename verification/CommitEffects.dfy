/**
 What a commit does to the result of a reader.  A commit walks its pending list and gives the first
 version it meets of each entry the commit id.  Every such version leaves the reader's view, or
 every one enters it, so the result stays put exactly when none does.  That decides commits of
 other transactions at any commit id, also one that lies below the reader's start.
 */
module CommitEffects {
  import opened Mvcc
  import opened IndexModel
  import opened TableRefinement
  import opened Isolation

  /** The version that the walk meets for one entry, if there is one. */
  function Met<K(==)>(items: seq<Item<K>>, l: Listing<K>, side: Side, id: nat): seq<Item<K>> {
    if items == [] then []
    else if Hit(items[0], l, side, id) then [items[0]]
    else Met(items[1..], l, side, id)
  }

  /** All versions that the walk over a list meets, as they were. */
  function Restamped<K(==)>(items: seq<Item<K>>, ls: seq<Listing<K>>, e: Edit, id: nat): seq<Item<K>>
    decreases ls
  {
    if ls == [] then []
    else Met(items, ls[0], SideOf(e), id) + Restamped(EditFirst(items, ls[0], e, id), ls[1..], e, id)
  }

  function EditEach<K>(items: seq<Item<K>>, e: Edit): seq<Item<K>> {
    if items == [] then [] else Edited(items[0], e) + EditEach(items[1..], e)
  }

  // ------------------------------------------------------------ how many rows come and go

  /** The edit changes nothing that `p` selects of these versions. */
  ghost predicate Alike<K>(items: seq<Item<K>>, e: Edit, p: Item<K> -> bool) {
    forall it | it in items :: Select(Edited(it, e), p) == Select([it], p)
  }

  lemma {:induction false} EditFirstMoves<K>(items: seq<Item<K>>, l: Listing<K>, e: Edit, id: nat, p: Item<K> -> bool)
    ensures var met := Met(items, l, SideOf(e), id);
      && |Select(EditFirst(items, l, e, id), p)| + |Select(met, p)| == |Select(items, p)| + |Select(EditEach(met, e), p)|
      && (Alike(met, e, p) ==> Select(EditFirst(items, l, e, id), p) == Select(items, p))
  {
    if items != [] {
      var it, rest := items[0], items[1..];
      assert items == [it] + rest;
      SelectConcat([it], rest, p);
      if Hit(it, l, SideOf(e), id) {
        SelectConcat(Edited(it, e), rest, p);
        assert [it][1..] == [] && EditEach([it], e) == Edited(it, e);
      } else {
        EditFirstMoves(rest, l, e, id, p);
        SelectConcat([it], EditFirst(rest, l, e, id), p);
      }
    }
  }

  lemma {:induction false} EditEachConcat<K>(a: seq<Item<K>>, b: seq<Item<K>>, e: Edit)
    ensures EditEach(a + b, e) == EditEach(a, e) + EditEach(b, e)
  {
    if a == [] {
      assert a + b == b;
    } else {
      EditEachConcat(a[1..], b, e);
      assert (a + b)[1..] == a[1..] + b;
      ConcatAssoc(Edited(a[0], e), EditEach(a[1..], e), EditEach(b, e));
    }
  }

  /** The walk adds what its versions show afterwards and takes away what they showed before. */
  lemma {:induction false} EditListedMoves<K>(
    items: seq<Item<K>>, ls: seq<Listing<K>>, e: Edit, id: nat, p: Item<K> -> bool)
    ensures var met := Restamped(items, ls, e, id);
      && |Select(EditListed(items, ls, e, id), p)| + |Select(met, p)| == |Select(items, p)| + |Select(EditEach(met, e), p)|
      && (Alike(met, e, p) ==> Select(EditListed(items, ls, e, id), p) == Select(items, p))
    decreases ls
  {
    hide EditFirst, Met, Select, EditEach;
    if ls == [] {
      assert Restamped(items, ls, e, id) == [];
      EachOfNone(e, p);
    } else {
      var next := EditFirst(items, ls[0], e, id);
      var a, b := Met(items, ls[0], SideOf(e), id), Restamped(next, ls[1..], e, id);
      EditFirstMoves(items, ls[0], e, id, p);
      EditListedMoves(next, ls[1..], e, id, p);
      SelectConcat(a, b, p);
      EditEachConcat(a, b, e);
      SelectConcat(EditEach(a, e), EditEach(b, e), p);
      if Alike(a + b, e, p) {
        assert forall it | it in a :: it in a + b;
        assert forall it | it in b :: it in a + b;
      }
    }
  }

  lemma EachOfNone<K>(e: Edit, p: Item<K> -> bool)
    ensures Select([], p) == [] && EditEach<K>([], e) == []
  {
  }

  lemma {:induction false} SelectNone<K>(items: seq<Item<K>>, p: Item<K> -> bool)
    ensures Select(items, p) == [] <==> forall it | it in items :: !p(it)
  {
    if items != [] {
      SelectNone(items[1..], p);
      assert items == [items[0]] + items[1..];
    }
  }

  lemma {:induction false} EachNone<K>(items: seq<Item<K>>, e: Edit, p: Item<K> -> bool)
    ensures Select(EditEach(items, e), p) == [] <==> forall it | it in items :: Select(Edited(it, e), p) == []
  {
    if items != [] {
      EachNone(items[1..], e, p);
      SelectConcat(Edited(items[0], e), EditEach(items[1..], e), p);
      assert items == [items[0]] + items[1..];
    }
  }

  lemma SelectOne<K>(it: Item<K>, p: Item<K> -> bool)
    ensures Select([it], p) == if p(it) then [it.row] else []
  {
    assert [it][1..] == [];
  }

  /** Versions that the walk takes out of view: the result stays exactly when none was in view. */
  lemma OutOfView<K>(items: seq<Item<K>>, ls: seq<Listing<K>>, e: Edit, id: nat, p: Item<K> -> bool)
    requires forall it | it in Restamped(items, ls, e, id) :: Select(Edited(it, e), p) == []
    ensures Select(EditListed(items, ls, e, id), p) == Select(items, p)
            <==> forall it | it in Restamped(items, ls, e, id) :: !p(it)
  {
    hide Restamped, EditListed, Select, EditEach;
    var met := Restamped(items, ls, e, id);
    EditListedMoves(items, ls, e, id, p);
    EachNone(met, e, p);
    SelectNone(met, p);
    forall it | it in met && !p(it) ensures Select(Edited(it, e), p) == Select([it], p) {
      SelectOne(it, p);
    }
  }

  /** Versions that the walk brings into view: the result stays exactly when none comes. */
  lemma IntoView<K>(items: seq<Item<K>>, ls: seq<Listing<K>>, e: Edit, id: nat, p: Item<K> -> bool)
    requires forall it | it in Restamped(items, ls, e, id) :: !p(it)
    ensures Select(EditListed(items, ls, e, id), p) == Select(items, p)
            <==> forall it | it in Restamped(items, ls, e, id) :: Select(Edited(it, e), p) == []
  {
    hide Restamped, EditListed, Select, EditEach;
    var met := Restamped(items, ls, e, id);
    EditListedMoves(items, ls, e, id, p);
    EachNone(met, e, p);
    SelectNone(met, p);
    forall it | it in met ensures Select([it], p) == [] {
      SelectOne(it, p);
    }
  }

  // ------------------------------------------------------------ which versions are met

  lemma {:induction false} MetIsFirst<K>(items: seq<Item<K>>, l: Listing<K>, e: Edit, id: nat)
    ensures forall it | it in Met(items, l, SideOf(e), id) :: it in items && Hit(it, l, SideOf(e), id)
    ensures forall it | it in items :: it in Met(items, l, SideOf(e), id) || it in EditFirst(items, l, e, id)
    ensures e.EraseIns? || e.to != id ==>
              forall it | it in EditFirst(items, l, e, id) && Carries(it, SideOf(e), id) :: it in items
  {
    if items != [] {
      MetIsFirst(items[1..], l, e, id);
      assert items == [items[0]] + items[1..];
    }
  }

  /** The walk meets carriers of the id that are listed, and leaves every other version where it is. */
  lemma {:induction false} RestampedMembers<K>(items: seq<Item<K>>, ls: seq<Listing<K>>, e: Edit, id: nat)
    ensures forall it | it in Restamped(items, ls, e, id) :: Carries(it, SideOf(e), id) && Listing(it.key, it.row) in ls
    ensures e.EraseIns? || e.to != id ==> forall it | it in Restamped(items, ls, e, id) :: it in items
    ensures forall it | it in items :: it in Restamped(items, ls, e, id) || it in EditListed(items, ls, e, id)
    decreases ls
  {
    hide EditFirst, Met;
    if ls != [] {
      MetIsFirst(items, ls[0], e, id);
      RestampedMembers(EditFirst(items, ls[0], e, id), ls[1..], e, id);
    }
  }

  /** A list that covers the stamps meets every carrier. */
  lemma CoveredAreMet<K(!new)>(items: seq<Item<K>>, ls: seq<Listing<K>>, e: Edit, id: nat)
    requires Covers(ls, items, SideOf(e), id) && (e.EraseIns? || e.to != id)
    ensures forall it :: it in Restamped(items, ls, e, id) <==> it in items && Carries(it, SideOf(e), id)
  {
    hide Restamped, EditListed, Covers, EditAll;
    EditListedIsEditAll(items, ls, e, id);
    RestampedMembers(items, ls, e, id);
  }

  // ------------------------------------------------------------ commits of other transactions

  /** A version inserted by `t` that the reader would see once it carries `c`. */
  ghost predicate WouldCome<K>(s: IndexState<K>, t: nat, c: nat, want: K -> bool, rd: Reader) {
    exists it | it in s.storage && it.ins == t :: want(it.key) && Visible(c, it.del, rd)
  }

  /** A version marked deleted by `t` that the reader still sees. */
  ghost predicate WouldGo<K>(s: IndexState<K>, t: nat, want: K -> bool, rd: Reader) {
    exists it | it in s.storage && it.del == t :: want(it.key) && Visible(it.ins, it.del, rd)
  }

  /** Another transaction's insert commit, at any commit id, leaves a reader's result alone exactly when
      the id is not below the reader's start or it brings no row into view. */
  lemma ForeignCommitInsertIff<K(!new)>(
    s: IndexState<K>, t: nat, c: nat, s': IndexState<K>, want: K -> bool, rd: Reader)
    requires Inv(s) && IsTxnId(t) && IsCommitId(c) && Next(s, CommitInsert(t, c), s')
    requires InTransaction(rd) && t != rd.txn
    ensures Select(s'.storage, Wanted(want, rd)) == Select(s.storage, Wanted(want, rd))
            <==> rd.start <= c || !WouldCome(s, t, c, want, rd)
  {
    hide Restamped, EditListed, Select;
    var p, e, ls := Wanted(want, rd), StampIns(c), Bucket(s.pendIns, t);
    assert Covered(s, t);
    CoveredAreMet(s.storage, ls, e, t);
    IntoView(s.storage, ls, e, t, p);
    forall it | it in s.storage && it.ins == t
      ensures Select(Edited(it, e), p) == [] <==> rd.start <= c || !(want(it.key) && Visible(c, it.del, rd))
    {
      SelectOne(it.(ins := c), p);
    }
  }

  /** The same for the commit of deletes, which takes rows out of view. */
  lemma ForeignCommitDeleteIff<K(!new)>(
    s: IndexState<K>, t: nat, c: nat, s': IndexState<K>, want: K -> bool, rd: Reader)
    requires Inv(s) && IsTxnId(t) && IsCommitId(c) && Next(s, CommitDelete(t, c), s')
    requires InTransaction(rd) && t != rd.txn
    ensures Select(s'.storage, Wanted(want, rd)) == Select(s.storage, Wanted(want, rd))
            <==> rd.start <= c || !WouldGo(s, t, want, rd)
  {
    hide Restamped, EditListed, Select;
    if rd.start <= c {
      ForeignEditUnseen(s, CommitDelete(t, c), s', want, rd);
    } else {
      var p, e, ls := Wanted(want, rd), StampDel(c), Bucket(s.pendDel, t);
      assert Covered(s, t);
      CoveredAreMet(s.storage, ls, e, t);
      forall it | it in s.storage && it.del == t ensures Select(Edited(it, e), p) == [] {
        SelectOne(it.(del := c), p);
      }
      OutOfView(s.storage, ls, e, t, p);
    }
  }
}
