/**
 The hash index: an unordered multimap of versions with the same pending lists.  Only its
 equal ranges matter, so the storage is a sequence and a range is read by key.  An insert may
 rehash: the order in which it leaves the other versions is a parameter.
 */
module HashIndex {
  import opened Mvcc
  import opened IndexModel
  import opened TableRefinement
  import opened Isolation
  import opened Search
  import opened StorageLoops

  datatype Found = Rows(rows: seq<int>) | NotSupported

  function SameKey<K(==)>(v: K): K -> bool {
    (k: K) => k == v
  }

  /** A hash container has no order, so the four range comparisons are refused. */
  function HashSearch<K(==)>(items: seq<Item<K>>, c: Cmp, v: K, rd: Reader): Found {
    match c
    case Eq => Rows(Select(items, Wanted(SameKey(v), rd)))
    case Ne => Rows(NeRows(items, v, rd))
    case Other => Rows([])
    case _ => NotSupported
  }

  /** A search is refused exactly for the four range comparisons, and finds nothing for none of the six. */
  lemma RangesAreRefused<K>(items: seq<Item<K>>, c: Cmp, v: K, rd: Reader)
    ensures HashSearch(items, c, v, rd) == NotSupported <==> c == Lt || c == Lte || c == Gt || c == Gte
    ensures HashSearch(items, Other, v, rd) == Rows([])
  {
  }

  /** The versions under one key. */
  function EqualRange<K(==)>(items: seq<Item<K>>, v: K): seq<Item<K>> {
    if items == [] then []
    else (if items[0].key == v then [items[0]] else []) + EqualRange(items[1..], v)
  }

  lemma {:induction false} EqualRangeSelect<K>(items: seq<Item<K>>, v: K, rd: Reader)
    ensures Select(EqualRange(items, v), VisibleTo(rd)) == Select(items, Wanted(SameKey(v), rd))
  {
    if items != [] {
      EqualRangeSelect(items[1..], v, rd);
      SelectConcat(if items[0].key == v then [items[0]] else [], EqualRange(items[1..], v), VisibleTo(rd));
    }
  }

  lemma {:induction false} EqualRangeRows<K>(items: seq<Item<K>>, v: K, row: int)
    ensures RowUnder(items, v, row) <==>
            exists j | 0 <= j < |EqualRange(items, v)| :: EqualRange(items, v)[j].row == row
  {
    if items != [] {
      EqualRangeRows(items[1..], v, row);
      var rest := EqualRange(items[1..], v);
      var range := EqualRange(items, v);
      if items[0].key == v {
        assert range == [items[0]] + rest;
        assert forall j | 0 <= j < |rest| :: range[j + 1] == rest[j];
      } else {
        assert range == rest;
      }
      assert forall j | 0 <= j < |items| - 1 :: items[1..][j] == items[j + 1];
      if RowUnder(items, v, row) {
        var i :| 0 <= i < |items| && items[i].key == v && items[i].row == row;
        if i == 0 {
          assert range[0].row == row;
        } else {
          assert items[1..][i - 1] == items[i];
          var j :| 0 <= j < |rest| && rest[j].row == row;
        }
      }
    }
  }

  class HashIndex<K(==)> {
    var storage: seq<Item<K>>
    var pendIns: Pending<K>
    var pendDel: Pending<K>

    ghost function State(): IndexState<K>
      reads this
    {
      IndexState(storage, pendIns, pendDel)
    }

    constructor ()
      ensures State() == EmptyState()
    {
      storage, pendIns, pendDel := [], map[], map[];
    }

    method Insert(key: K, row: int, order: seq<Item<K>>)
      requires Permuted(storage, order)
      modifies this
      ensures Next(old(State()), Step.Load(key, row), State())
    {
      Place(Item(key, row, 0, NOT_DELETED_ID), order);
    }

    method InsertTxn(key: K, row: int, txn: nat, order: seq<Item<K>>)
      requires Permuted(storage, order)
      modifies this
      ensures Next(old(State()), Step.Insert(key, row, txn), State())
    {
      pendIns := AddListing(pendIns, txn, Listing(key, row));
      Place(Item(key, row, txn, NOT_DELETED_ID), order);
    }

    /** The multimap insert, with the other versions in the order the container now has. */
    method Place(it: Item<K>, order: seq<Item<K>>)
      requires Permuted(storage, order)
      modifies this`storage
      ensures Added(old(storage), it, storage)
    {
      storage := order + [it];
    }

    method Touch(l: Listing<K>, e: Edit, id: nat) returns (found: bool)
      modifies this`storage
      ensures storage == EditFirst(old(storage), l, e, id)
      ensures found <==> exists i | 0 <= i < |old(storage)| :: Hit(old(storage)[i], l, SideOf(e), id)
    {
      found := false;
      var i := 0;
      while i != |storage|
        invariant 0 <= i <= |storage| && storage == old(storage) && !found
        invariant forall j | 0 <= j < i :: !Hit(storage[j], l, SideOf(e), id)
        decreases |storage| - i
      {
        if storage[i].key == l.key && storage[i].row == l.row && Carries(storage[i], SideOf(e), id) {
          EditFirstAt(storage, l, e, id, i);
          storage := storage[..i] + Edited(storage[i], e) + storage[i + 1..];
          return true;
        }
        i := i + 1;
      }
      EditFirstMiss(storage, l, e, id);
    }

    method MarkDelete(key: K, row: int, txn: nat)
      modifies this
      ensures Next(old(State()), Step.MarkDelete(key, row, txn), State())
    {
      var found := Touch(Listing(key, row), StampDel(txn), NOT_DELETED_ID);
      if found {
        pendDel := AddListing(pendDel, txn, Listing(key, row));
      } else {
        EditFirstMiss(old(storage), Listing(key, row), StampDel(txn), NOT_DELETED_ID);
      }
    }

    method TouchListed(ls: seq<Listing<K>>, e: Edit, txn: nat)
      modifies this`storage
      ensures storage == EditListed(old(storage), ls, e, txn)
    {
      var i := 0;
      while i < |ls|
        invariant 0 <= i <= |ls|
        invariant EditListed(storage, ls[i..], e, txn) == EditListed(old(storage), ls, e, txn)
      {
        assert ls[i..][0] == ls[i] && ls[i..][1..] == ls[i + 1..];
        var _ := Touch(ls[i], e, txn);
        i := i + 1;
      }
    }

    method CommitInsert(txn: nat, commit: nat)
      modifies this
      ensures Next(old(State()), Step.CommitInsert(txn, commit), State())
    {
      if txn !in pendIns {
        assert pendIns - {txn} == pendIns;
        return;
      }
      TouchListed(pendIns[txn], StampIns(commit), txn);
      pendIns := pendIns - {txn};
    }

    method CommitDelete(txn: nat, commit: nat)
      modifies this
      ensures Next(old(State()), Step.CommitDelete(txn, commit), State())
    {
      if txn !in pendDel {
        assert pendDel - {txn} == pendDel;
        return;
      }
      TouchListed(pendDel[txn], StampDel(commit), txn);
      pendDel := pendDel - {txn};
    }

    method RevertInsert(txn: nat)
      modifies this
      ensures Next(old(State()), Step.RevertInsert(txn), State())
    {
      if txn !in pendIns {
        assert pendIns - {txn} == pendIns;
        return;
      }
      TouchListed(pendIns[txn], EraseIns, txn);
      pendIns := pendIns - {txn};
    }

    method RevertDelete(txn: nat)
      modifies this
      ensures Next(old(State()), Step.RevertDelete(txn), State())
    {
      if txn !in pendDel {
        assert pendDel - {txn} == pendDel;
        return;
      }
      TouchListed(pendDel[txn], StampDel(NOT_DELETED_ID), txn);
      pendDel := pendDel - {txn};
    }

    method SweepStorage(low: nat)
      modifies this`storage
      ensures storage == Sweep(old(storage), low)
    {
      hide Sweep, SweptTo;
      SweepBegins(storage, low);
      var p := 0;
      while p < |storage|
        invariant 0 <= p <= |storage| && SweptTo(storage, p, low, old(storage))
        decreases |storage| - p
      {
        if Expired(storage[p], low) {
          SweepErases(storage, p, low, old(storage));
          storage := storage[..p] + storage[p + 1..];
        } else {
          SweepPasses(storage, p, low, old(storage));
          p := p + 1;
        }
      }
      SweepIsDone(storage, low, old(storage));
    }

    method CleanupVersions(low: nat)
      modifies this
      ensures Next(old(State()), Step.Cleanup(low), State())
    {
      SweepStorage(low);
      pendDel := DropStale(pendDel, low);
    }

    method Search(c: Cmp, v: K, rd: Reader) returns (found: Found)
      ensures found == HashSearch(storage, c, v, rd)
    {
      match c
      case Eq =>
        var range := EqualRange(storage, v);
        var rows := Filter(range, 0, |range|, rd);
        assert range[0..|range|] == range;
        EqualRangeSelect(storage, v, rd);
        found := Rows(rows);
      case Ne =>
        var rows := SearchNe(v, rd);
        found := Rows(rows);
      case Other => found := Rows([]);
      case _ => found := NotSupported;
    }

    method SearchNe(v: K, rd: Reader) returns (rows: seq<int>)
      ensures rows == NeRows(storage, v, rd)
    {
      rows := [];
      var range := EqualRange(storage, v);
      var i := 0;
      while i != |storage|
        invariant 0 <= i <= |storage|
        invariant rows == Select(storage[..i], NotUnder(storage, v, rd))
        decreases |storage| - i
      {
        SelectStep(storage, i, NotUnder(storage, v, rd));
        if Visible(storage[i].ins, storage[i].del, rd) {
          var inEq := false;
          var j := 0;
          while j != |range| && !inEq
            invariant 0 <= j <= |range|
            invariant inEq <==> exists k | 0 <= k < j :: range[k].row == storage[i].row
            decreases |range| - j
          {
            inEq := range[j].row == storage[i].row;
            j := j + 1;
          }
          EqualRangeRows(storage, v, storage[i].row);
          if !inEq {
            rows := rows + [storage[i].row];
          }
        }
        i := i + 1;
      }
      assert storage[..i] == storage;
    }
  }

  /** In every run, the hash index finds under a key exactly the rows a table scan shows. */
  lemma HashSearchIsScan<K(!new)>(
    states: seq<IndexState<K>>, steps: seq<Step<K>>, low: nat, v: K, rd: Reader)
    requires IsRun(states, steps) && LegalRun(steps, low) && ServedBy(rd, low)
    ensures var found := HashSearch(states[|steps|].storage, Eq, v, rd).rows;
      (set r | r in found) == Scan(TableAfter(steps), SameKey(v), rd) && NoRepeats(found)
    ensures var rest := HashSearch(states[|steps|].storage, Ne, v, rd).rows;
      (set r | r in rest) == Scan(TableAfter(steps), OtherKey(v), rd) && NoRepeats(rest)
  {
    IndexRefinesTableScan(states, steps, low, SameKey(v), rd);
    IndexRefinesTableScan(states, steps, low, OtherKey(v), rd);
    RunRefines(states, steps, low);
    DistinctRowsUnshared(states[|steps|].storage, v, rd);
    NeIsComplementIff(states[|steps|].storage, v, rd);
  }
}
