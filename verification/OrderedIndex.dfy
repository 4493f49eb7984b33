/**
 The ordered index: a sorted multimap of versions with per-transaction pending lists.
 Keys are of any type with a total order, already cast to the column type.
 */
module OrderedIndex {
  import opened Mvcc
  import opened IndexModel
  import opened TableRefinement
  import opened Search
  import opened StorageLoops

  class OrderedIndex<K(==, !new)> {
    const le: Order<K>
    var storage: seq<Item<K>>
    var pendIns: Pending<K>
    var pendDel: Pending<K>

    ghost predicate Valid()
      reads this
    {
      TotalOrder(le) && Sorted(storage, le)
    }

    ghost function State(): IndexState<K>
      reads this
    {
      IndexState(storage, pendIns, pendDel)
    }

    constructor (le: Order<K>)
      requires TotalOrder(le)
      ensures Valid() && State() == EmptyState() && this.le == le
    {
      this.le := le;
      storage, pendIns, pendDel := [], map[], map[];
    }

    method Insert(key: K, row: int)
      requires Valid()
      modifies this
      ensures Valid() && Next(old(State()), Step.Load(key, row), State())
      ensures InsertedSomewhere(old(storage), Item(key, row, 0, NOT_DELETED_ID), storage)
    {
      Place(Item(key, row, 0, NOT_DELETED_ID));
    }

    method InsertTxn(key: K, row: int, txn: nat)
      requires Valid()
      modifies this
      ensures Valid() && Next(old(State()), Step.Insert(key, row, txn), State())
      ensures InsertedSomewhere(old(storage), Item(key, row, txn, NOT_DELETED_ID), storage)
    {
      pendIns := AddListing(pendIns, txn, Listing(key, row));
      Place(Item(key, row, txn, NOT_DELETED_ID));
    }

    /** The multimap insert: behind the versions with the same key. */
    method Place(it: Item<K>)
      requires Valid()
      modifies this`storage
      ensures Valid() && InsertedSomewhere(old(storage), it, storage) && Added(old(storage), it, storage)
    {
      var p := UpperBound(storage, it.key, le);
      PlaceKeepsSorted(storage, it, p, le);
      hide TotalOrder, Sorted, UpperBound;
      storage := storage[..p] + [it] + storage[p..];
      assert InsertedAt(old(storage), it, storage, p);
      InsertedIsAdded(old(storage), it, storage);
    }

    /** Walks the equal range of the entry's key to the first version that carries `id`. */
    method FirstHit(l: Listing<K>, side: Side, id: nat) returns (i: nat)
      requires Valid()
      ensures i <= |storage|
      ensures forall j | 0 <= j < i :: !Hit(storage[j], l, side, id)
      ensures i < |storage| ==> Hit(storage[i], l, side, id)
    {
      i := LowerBound(storage, l.key, le);
      var end := UpperBound(storage, l.key, le);
      while i != end
        invariant LowerBound(storage, l.key, le) <= i <= end
        invariant forall j | 0 <= j < i :: !Hit(storage[j], l, side, id)
        decreases end - i
      {
        if storage[i].row == l.row && Carries(storage[i], side, id) {
          return;
        }
        i := i + 1;
      }
      i := |storage|;
    }

    method Touch(l: Listing<K>, e: Edit, id: nat) returns (found: bool)
      requires Valid()
      modifies this`storage
      ensures Valid() && storage == EditFirst(old(storage), l, e, id)
      ensures found <==> exists i | 0 <= i < |old(storage)| :: Hit(old(storage)[i], l, SideOf(e), id)
    {
      var i := FirstHit(l, SideOf(e), id);
      found := i < |storage|;
      if found {
        EditFirstAt(storage, l, e, id, i);
        EditKeepsSorted(storage, i, e, le);
        storage := storage[..i] + Edited(storage[i], e) + storage[i + 1..];
      } else {
        EditFirstMiss(storage, l, e, id);
      }
    }

    method MarkDelete(key: K, row: int, txn: nat)
      requires Valid()
      modifies this
      ensures Valid() && Next(old(State()), Step.MarkDelete(key, row, txn), State())
    {
      var found := Touch(Listing(key, row), StampDel(txn), NOT_DELETED_ID);
      if found {
        pendDel := AddListing(pendDel, txn, Listing(key, row));
      } else {
        EditFirstMiss(old(storage), Listing(key, row), StampDel(txn), NOT_DELETED_ID);
      }
    }

    /** The loop shared by commit and revert. */
    method TouchListed(ls: seq<Listing<K>>, e: Edit, txn: nat)
      requires Valid()
      modifies this`storage
      ensures Valid() && storage == EditListed(old(storage), ls, e, txn)
    {
      var i := 0;
      while i < |ls|
        invariant 0 <= i <= |ls|
        invariant Valid()
        invariant EditListed(storage, ls[i..], e, txn) == EditListed(old(storage), ls, e, txn)
      {
        assert ls[i..][0] == ls[i] && ls[i..][1..] == ls[i + 1..];
        var _ := Touch(ls[i], e, txn);
        i := i + 1;
      }
    }

    method CommitInsert(txn: nat, commit: nat)
      requires Valid()
      modifies this
      ensures Valid() && Next(old(State()), Step.CommitInsert(txn, commit), State())
    {
      if txn !in pendIns {
        assert pendIns - {txn} == pendIns;
        return;
      }
      TouchListed(pendIns[txn], StampIns(commit), txn);
      pendIns := pendIns - {txn};
    }

    method CommitDelete(txn: nat, commit: nat)
      requires Valid()
      modifies this
      ensures Valid() && Next(old(State()), Step.CommitDelete(txn, commit), State())
    {
      if txn !in pendDel {
        assert pendDel - {txn} == pendDel;
        return;
      }
      TouchListed(pendDel[txn], StampDel(commit), txn);
      pendDel := pendDel - {txn};
    }

    method RevertInsert(txn: nat)
      requires Valid()
      modifies this
      ensures Valid() && Next(old(State()), Step.RevertInsert(txn), State())
    {
      if txn !in pendIns {
        assert pendIns - {txn} == pendIns;
        return;
      }
      TouchListed(pendIns[txn], EraseIns, txn);
      pendIns := pendIns - {txn};
    }

    method RevertDelete(txn: nat)
      requires Valid()
      modifies this
      ensures Valid() && Next(old(State()), Step.RevertDelete(txn), State())
    {
      if txn !in pendDel {
        assert pendDel - {txn} == pendDel;
        return;
      }
      TouchListed(pendDel[txn], StampDel(NOT_DELETED_ID), txn);
      pendDel := pendDel - {txn};
    }

    /** Erases expired versions while walking the storage. */
    method SweepStorage(low: nat)
      requires Valid()
      modifies this`storage
      ensures Valid() && storage == Sweep(old(storage), low)
    {
      hide TotalOrder, Sorted, Sweep, SweptTo;
      SweepBegins(storage, low);
      var p := 0;
      while p < |storage|
        invariant 0 <= p <= |storage| && Valid() && SweptTo(storage, p, low, old(storage))
        decreases |storage| - p
      {
        if Expired(storage[p], low) {
          SweepErases(storage, p, low, old(storage));
          EditKeepsSorted(storage, p, EraseIns, le);
          assert storage[..p] + [] + storage[p + 1..] == storage[..p] + storage[p + 1..];
          storage := storage[..p] + storage[p + 1..];
        } else {
          SweepPasses(storage, p, low, old(storage));
          p := p + 1;
        }
      }
      SweepIsDone(storage, low, old(storage));
    }

    method CleanupVersions(low: nat)
      requires Valid()
      modifies this
      ensures Valid() && Next(old(State()), Step.Cleanup(low), State())
    {
      SweepStorage(low);
      pendDel := DropStale(pendDel, low);
    }

    /** Search under the visibility filter. */
    method Search(c: Cmp, v: K, rd: Reader) returns (rows: seq<int>)
      requires Valid()
      ensures rows == SearchRows(storage, c, v, le, rd)
    {
      match c
      case Eq =>
        rows := Filter(storage, LowerBound(storage, v, le), UpperBound(storage, v, le), rd);
        RangeIsMatch(storage, c, v, le, rd);
      case Lt =>
        rows := Filter(storage, 0, LowerBound(storage, v, le), rd);
        RangeIsMatch(storage, c, v, le, rd);
      case Lte =>
        rows := Filter(storage, 0, UpperBound(storage, v, le), rd);
        RangeIsMatch(storage, c, v, le, rd);
      case Gt =>
        rows := Filter(storage, UpperBound(storage, v, le), |storage|, rd);
        RangeIsMatch(storage, c, v, le, rd);
      case Gte =>
        rows := Filter(storage, LowerBound(storage, v, le), |storage|, rd);
        RangeIsMatch(storage, c, v, le, rd);
      case Ne =>
        rows := SearchNe(v, rd);
      case Other =>
        rows := [];
        RangeIsMatch(storage, c, v, le, rd);
        assert storage[0..0] == [];
    }

    /** The nested loop of "not equal": skip a visible version whose row id occurs in the equal range. */
    method SearchNe(v: K, rd: Reader) returns (rows: seq<int>)
      requires Valid()
      ensures rows == NeRows(storage, v, rd)
    {
      rows := [];
      var lo, hi := LowerBound(storage, v, le), UpperBound(storage, v, le);
      var i := 0;
      while i != |storage|
        invariant 0 <= i <= |storage|
        invariant rows == Select(storage[..i], NotUnder(storage, v, rd))
        decreases |storage| - i
      {
        SelectStep(storage, i, NotUnder(storage, v, rd));
        if Visible(storage[i].ins, storage[i].del, rd) {
          var inEq := false;
          var j := lo;
          while j != hi && !inEq
            invariant lo <= j <= hi
            invariant inEq <==> exists k | lo <= k < j :: storage[k].row == storage[i].row
            decreases hi - j
          {
            inEq := storage[j].row == storage[i].row;
            j := j + 1;
          }
          if inEq {
            assert RowUnder(storage, v, storage[i].row);
          } else {
            assert !RowUnder(storage, v, storage[i].row);
            rows := rows + [storage[i].row];
          }
        }
        i := i + 1;
      }
      assert storage[..i] == storage;
    }
  }
}
