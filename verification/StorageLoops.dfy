/**
 Loops over stored versions and pending lists that both in-memory indexes run, and the facts
 that tie one turn of such a loop to its specification.
 */
module StorageLoops {
  import opened Mvcc
  import opened IndexModel
  import opened TableRefinement
  import opened Isolation
  import opened Search

  lemma {:induction false} EditFirstAt<K>(items: seq<Item<K>>, l: Listing<K>, e: Edit, id: nat, i: nat)
    requires i < |items| && Hit(items[i], l, SideOf(e), id)
    requires forall j | 0 <= j < i :: !Hit(items[j], l, SideOf(e), id)
    ensures EditFirst(items, l, e, id) == items[..i] + Edited(items[i], e) + items[i + 1..]
  {
    if i > 0 {
      EditFirstAt(items[1..], l, e, id, i - 1);
      assert items[1..][..i - 1] == items[1..i];
      assert items[1..][i..] == items[i + 1..];
      assert [items[0]] + items[1..i] == items[..i];
    }
  }

  lemma {:induction false} EditFirstMiss<K>(items: seq<Item<K>>, l: Listing<K>, e: Edit, id: nat)
    requires forall j | 0 <= j < |items| :: !Hit(items[j], l, SideOf(e), id)
    ensures EditFirst(items, l, e, id) == items
  {
    if items != [] {
      EditFirstMiss(items[1..], l, e, id);
    }
  }

  lemma EditKeepsSorted<K>(items: seq<Item<K>>, i: nat, e: Edit, le: Order<K>)
    requires i < |items| && Sorted(items, le)
    ensures Sorted(items[..i] + Edited(items[i], e) + items[i + 1..], le)
  {
    var after := items[..i] + Edited(items[i], e) + items[i + 1..];
    if |Edited(items[i], e)| == 1 {
      assert forall j | 0 <= j < |after| :: after[j].key == items[j].key;
    } else {
      assert after == items[..i] + items[i + 1..];
    }
  }

  lemma PlaceKeepsSorted<K(!new)>(items: seq<Item<K>>, it: Item<K>, p: nat, le: Order<K>)
    requires TotalOrder(le) && Sorted(items, le) && p == UpperBound(items, it.key, le)
    ensures Sorted(items[..p] + [it] + items[p..], le)
  {
    hide UpperBound;
    var after := items[..p] + [it] + items[p..];
    forall j | 0 <= j < |after| ensures after[j] == if j < p then items[j] else if j == p then it else items[j - 1] {}
  }

  lemma SweepStep<K>(items: seq<Item<K>>, p: nat, low: nat)
    requires p < |items|
    ensures Sweep(items[p..], low) ==
            (if Expired(items[p], low) then [] else [items[p]]) + Sweep(items[p + 1..], low)
  {
    assert items[p..][1..] == items[p + 1..];
  }

  lemma SelectStep<K>(items: seq<Item<K>>, i: nat, p: Item<K> -> bool)
    requires i < |items|
    ensures Select(items[..i + 1], p) == Select(items[..i], p) + if p(items[i]) then [items[i].row] else []
  {
    assert items[..i + 1] == items[..i] + [items[i]];
    SelectConcat(items[..i], [items[i]], p);
  }

  /** The visible rows of one container range. */
  method Filter<K>(items: seq<Item<K>>, lo: nat, hi: nat, rd: Reader) returns (rows: seq<int>)
    requires lo <= hi <= |items|
    ensures rows == Select(items[lo..hi], VisibleTo(rd))
  {
    rows := [];
    var i := lo;
    ghost var range := items[lo..hi];
    while i != hi
      invariant lo <= i <= hi
      invariant rows == Select(range[..i - lo], VisibleTo(rd))
      decreases hi - i
    {
      SelectStep(range, i - lo, VisibleTo(rd));
      if Visible(items[i].ins, items[i].del, rd) {
        rows := rows + [items[i].row];
      }
      i := i + 1;
    }
    assert range[..hi - lo] == range;
  }

  /** Discards the pending lists of ids below the threshold. */
  method DropStale<K>(pending: Pending<K>, low: nat) returns (kept: Pending<K>)
    ensures kept == map t | t in pending && !(t < low && t < TRANSACTION_ID_START) :: pending[t]
  {
    kept := pending;
    var todo := pending.Keys;
    while todo != {}
      invariant todo <= pending.Keys
      invariant kept == map t | t in pending && (t in todo || !(t < low && t < TRANSACTION_ID_START)) :: pending[t]
      decreases todo
    {
      var t :| t in todo;
      todo := todo - {t};
      if t < low && t < TRANSACTION_ID_START {
        kept := kept - {t};
      }
    }
  }

  // ------------------------------------------------------------ the sweep

  /** The sweep stands at `p`: what is before it stays, what is behind it is still to be swept. */
  ghost predicate SweptTo<K>(items: seq<Item<K>>, p: nat, low: nat, was: seq<Item<K>>) {
    p <= |items| && items[..p] + Sweep(items[p..], low) == Sweep(was, low)
  }

  lemma SweepBegins<K>(items: seq<Item<K>>, low: nat)
    ensures SweptTo(items, 0, low, items)
  {
    assert items[..0] == [] && items[0..] == items && [] + Sweep(items, low) == Sweep(items, low);
  }

  lemma SweepErases<K>(items: seq<Item<K>>, p: nat, low: nat, was: seq<Item<K>>)
    requires SweptTo(items, p, low, was) && p < |items| && Expired(items[p], low)
    ensures SweptTo(items[..p] + items[p + 1..], p, low, was)
  {
    SweepStep(items, p, low);
    var rest := items[..p] + items[p + 1..];
    assert rest[p..] == items[p + 1..] && rest[..p] == items[..p];
  }

  lemma SweepPasses<K>(items: seq<Item<K>>, p: nat, low: nat, was: seq<Item<K>>)
    requires SweptTo(items, p, low, was) && p < |items| && !Expired(items[p], low)
    ensures SweptTo(items, p + 1, low, was)
  {
    SweepStep(items, p, low);
    assert items[..p + 1] == items[..p] + [items[p]];
  }

  lemma SweepIsDone<K>(items: seq<Item<K>>, low: nat, was: seq<Item<K>>)
    requires SweptTo(items, |items|, low, was)
    ensures items == Sweep(was, low)
  {
    assert items[..|items|] == items && items[|items|..] == [];
    assert items + [] == items;
  }
}
