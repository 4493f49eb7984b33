/**
 What the six comparisons return, and how the ranges of a sorted container realise them.
 */
module Search {
  import opened Mvcc
  import opened IndexModel
  import opened TableRefinement
  import opened Isolation

  datatype Cmp = Eq | Ne | Lt | Lte | Gt | Gte | Other

  /** The order of the keys: is the first at most the second? */
  type Order<!K> = (K, K) -> bool

  ghost predicate TotalOrder<K(!new)>(le: Order<K>) {
    && (forall a, b :: le(a, b) || le(b, a))
    && (forall a, b :: le(a, b) && le(b, a) ==> a == b)
    && (forall a, b, c :: le(a, b) && le(b, c) ==> le(a, c))
  }

  predicate Holds<K(==)>(c: Cmp, k: K, v: K, le: Order<K>) {
    match c
    case Eq => k == v
    case Ne => k != v
    case Lt => !le(v, k)
    case Lte => le(k, v)
    case Gt => !le(k, v)
    case Gte => le(v, k)
    case Other => false
  }

  function Against<K(==)>(c: Cmp, v: K, le: Order<K>): K -> bool {
    (k: K) => Holds(c, k, v, le)
  }

  /** The visible rows whose key compares as asked. */
  function MatchRows<K(==)>(items: seq<Item<K>>, c: Cmp, v: K, le: Order<K>, rd: Reader): seq<int> {
    Select(items, Wanted(Against(c, v, le), rd))
  }

  predicate RowUnder<K(==)>(items: seq<Item<K>>, v: K, row: int) {
    exists i | 0 <= i < |items| :: items[i].key == v && items[i].row == row
  }

  function NotUnder<K(==)>(items: seq<Item<K>>, v: K, rd: Reader): Item<K> -> bool {
    (it: Item<K>) => Visible(it.ins, it.del, rd) && !RowUnder(items, v, it.row)
  }

  /** "Not equal" is computed by row id: it drops the rows that have any version under `v`. */
  function NeRows<K(==)>(items: seq<Item<K>>, v: K, rd: Reader): seq<int> {
    Select(items, NotUnder(items, v, rd))
  }

  function SearchRows<K(==)>(items: seq<Item<K>>, c: Cmp, v: K, le: Order<K>, rd: Reader): seq<int> {
    if c.Ne? then NeRows(items, v, rd) else MatchRows(items, c, v, le, rd)
  }

  /** A comparison that is none of the six finds nothing. */
  lemma {:induction false} OtherFindsNothing<K>(items: seq<Item<K>>, v: K, le: Order<K>, rd: Reader)
    ensures SearchRows(items, Other, v, le, rd) == []
  {
    if items != [] {
      OtherFindsNothing(items[1..], v, le, rd);
    }
  }

  // ------------------------------------------------------------ sorted storage

  ghost predicate Sorted<K>(items: seq<Item<K>>, le: Order<K>) {
    forall i, j | 0 <= i < j < |items| :: le(items[i].key, items[j].key)
  }

  /** Position of the first key not below `v`. */
  function LowerBound<K(==, !new)>(items: seq<Item<K>>, v: K, le: Order<K>): (p: nat)
    requires TotalOrder(le) && Sorted(items, le)
    ensures p <= |items|
    ensures forall i | 0 <= i < |items| :: i < p <==> !le(v, items[i].key)
  {
    if items == [] || le(v, items[0].key) then 0 else 1 + LowerBound(items[1..], v, le)
  }

  /** Position of the first key above `v`. */
  function UpperBound<K(==, !new)>(items: seq<Item<K>>, v: K, le: Order<K>): (p: nat)
    requires TotalOrder(le) && Sorted(items, le)
    ensures LowerBound(items, v, le) <= p <= |items|
    ensures forall i | 0 <= i < |items| :: i < p <==> le(items[i].key, v)
  {
    if items == [] || !le(items[0].key, v) then 0 else 1 + UpperBound(items[1..], v, le)
  }

  function VisibleTo<K>(rd: Reader): Item<K> -> bool {
    (it: Item<K>) => Visible(it.ins, it.del, rd)
  }

  lemma {:induction false} SelectAgrees<K>(items: seq<Item<K>>, p: Item<K> -> bool, q: Item<K> -> bool)
    requires forall i | 0 <= i < |items| :: p(items[i]) == q(items[i])
    ensures Select(items, p) == Select(items, q)
  {
    if items != [] {
      SelectAgrees(items[1..], p, q);
    }
  }

  lemma {:induction false} SelectNone<K>(items: seq<Item<K>>, p: Item<K> -> bool)
    requires forall i | 0 <= i < |items| :: !p(items[i])
    ensures Select(items, p) == []
  {
    if items != [] {
      SelectNone(items[1..], p);
    }
  }

  lemma {:induction false} SelectSkip<K>(items: seq<Item<K>>, lo: nat, p: Item<K> -> bool)
    requires lo <= |items| && forall i | 0 <= i < lo :: !p(items[i])
    ensures Select(items, p) == Select(items[lo..], p)
  {
    if lo > 0 {
      SelectSkip(items[1..], lo - 1, p);
      assert items[1..][lo - 1..] == items[lo..];
    }
  }

  lemma {:induction false} SelectStop<K>(items: seq<Item<K>>, hi: nat, p: Item<K> -> bool)
    requires hi <= |items| && forall i | hi <= i < |items| :: !p(items[i])
    ensures Select(items, p) == Select(items[..hi], p)
  {
    if hi == 0 {
      SelectNone(items, p);
    } else {
      SelectStop(items[1..], hi - 1, p);
      assert items[1..][..hi - 1] == items[..hi][1..];
    }
  }

  /** If the versions that `q` wants are those of a range that `p` wants, scan the range. */
  lemma SelectRange<K>(items: seq<Item<K>>, lo: nat, hi: nat, p: Item<K> -> bool, q: Item<K> -> bool)
    requires lo <= hi <= |items|
    requires forall i | 0 <= i < |items| :: q(items[i]) == (lo <= i < hi && p(items[i]))
    ensures Select(items, q) == Select(items[lo..hi], p)
  {
    hide Select;
    SelectSkip(items, lo, q);
    SelectStop(items[lo..], hi - lo, q);
    assert items[lo..][..hi - lo] == items[lo..hi];
    SelectAgrees(items[lo..hi], q, p);
  }

  lemma SelectSplit<K>(items: seq<Item<K>>, lo: nat, mid: nat, hi: nat, p: Item<K> -> bool)
    requires lo <= mid <= hi <= |items|
    ensures Select(items[lo..hi], p) == Select(items[lo..mid], p) + Select(items[mid..hi], p)
  {
    SelectConcat(items[lo..mid], items[mid..hi], p);
    assert items[lo..mid] + items[mid..hi] == items[lo..hi];
  }

  /** The container range each comparison other than "not equal" walks. */
  function RangeOf<K(==, !new)>(items: seq<Item<K>>, c: Cmp, v: K, le: Order<K>): (r: (nat, nat))
    requires TotalOrder(le) && Sorted(items, le) && !c.Ne?
    ensures r.0 <= r.1 <= |items|
    ensures forall i | 0 <= i < |items| :: Holds(c, items[i].key, v, le) <==> r.0 <= i < r.1
  {
    match c
    case Eq => (LowerBound(items, v, le), UpperBound(items, v, le))
    case Lt => (0, LowerBound(items, v, le))
    case Lte => (0, UpperBound(items, v, le))
    case Gt => (UpperBound(items, v, le), |items|)
    case Gte => (LowerBound(items, v, le), |items|)
    case Other => (0, 0)
  }

  lemma RangeIsMatch<K(!new)>(items: seq<Item<K>>, c: Cmp, v: K, le: Order<K>, rd: Reader)
    requires TotalOrder(le) && Sorted(items, le) && !c.Ne?
    ensures var r := RangeOf(items, c, v, le);
      Select(items[r.0..r.1], VisibleTo(rd)) == MatchRows(items, c, v, le, rd)
  {
    hide TotalOrder, Sorted;
    var r := RangeOf(items, c, v, le);
    SelectRange(items, r.0, r.1, VisibleTo(rd), Wanted(Against(c, v, le), rd));
  }

  /** Below, equal and above are consecutive pieces of all the visible rows. */
  lemma RangesPartition<K(!new)>(items: seq<Item<K>>, v: K, le: Order<K>, rd: Reader)
    requires TotalOrder(le) && Sorted(items, le)
    ensures SearchRows(items, Lte, v, le, rd) == SearchRows(items, Lt, v, le, rd) + SearchRows(items, Eq, v, le, rd)
    ensures SearchRows(items, Gte, v, le, rd) == SearchRows(items, Eq, v, le, rd) + SearchRows(items, Gt, v, le, rd)
    ensures Select(items, VisibleTo(rd)) ==
            SearchRows(items, Lt, v, le, rd) + SearchRows(items, Eq, v, le, rd) + SearchRows(items, Gt, v, le, rd)
  {
    hide TotalOrder, Sorted, Select, LowerBound, UpperBound;
    var lo, hi, n := LowerBound(items, v, le), UpperBound(items, v, le), |items|;
    var p := VisibleTo(rd);
    assert SearchRows(items, Lt, v, le, rd) == Select(items[0..lo], p) by { RangeIsMatch(items, Lt, v, le, rd); }
    assert SearchRows(items, Eq, v, le, rd) == Select(items[lo..hi], p) by { RangeIsMatch(items, Eq, v, le, rd); }
    assert SearchRows(items, Gt, v, le, rd) == Select(items[hi..n], p) by { RangeIsMatch(items, Gt, v, le, rd); }
    assert SearchRows(items, Lte, v, le, rd) == Select(items[0..hi], p) by { RangeIsMatch(items, Lte, v, le, rd); }
    assert SearchRows(items, Gte, v, le, rd) == Select(items[lo..n], p) by { RangeIsMatch(items, Gte, v, le, rd); }
    SelectSplit(items, 0, lo, hi, p);
    SelectSplit(items, lo, hi, n, p);
    SelectSplit(items, 0, hi, n, p);
    assert items[0..n] == items;
  }

  // ------------------------------------------------------------ "not equal"

  /** Some visible version under another key shares its row id with a version under `v`. */
  ghost predicate RowShared<K>(items: seq<Item<K>>, v: K, rd: Reader) {
    exists it | it in items :: it.key != v && Visible(it.ins, it.del, rd) && RowUnder(items, v, it.row)
  }

  function OtherKey<K(==)>(v: K): K -> bool {
    (k: K) => k != v
  }

  lemma {:induction false} SelectShorter<K>(items: seq<Item<K>>, p: Item<K> -> bool, q: Item<K> -> bool, x: Item<K>)
    requires forall it | it in items :: q(it) ==> p(it)
    requires x in items ==> p(x) && !q(x)
    ensures |Select(items, q)| <= |Select(items, p)|
    ensures x in items ==> |Select(items, q)| < |Select(items, p)|
  {
    if items != [] {
      SelectShorter(items[1..], p, q, x);
    }
  }

  /** "Not equal" returns the visible rows under other keys exactly when no such row id is shared. */
  lemma NeIsComplementIff<K>(items: seq<Item<K>>, v: K, rd: Reader)
    ensures NeRows(items, v, rd) == Select(items, Wanted(OtherKey(v), rd)) <==> !RowShared(items, v, rd)
  {
    var p, q := Wanted(OtherKey(v), rd), NotUnder(items, v, rd);
    forall it | it in items ensures q(it) ==> p(it) {}
    if RowShared(items, v, rd) {
      var x :| x in items && x.key != v && Visible(x.ins, x.del, rd) && RowUnder(items, v, x.row);
      SelectShorter(items, p, q, x);
    } else {
      SelectAgrees(items, p, q);
    }
  }

  lemma DistinctRowsUnshared<K>(items: seq<Item<K>>, v: K, rd: Reader)
    requires DistinctRows(items)
    ensures !RowShared(items, v, rd)
  {
  }

  // A run in which transaction `t` inserts row 7 under key 1, and transaction `u` deletes it and
  // inserts the same row id under key 5.

  const OLD_KEY := Listing(1, 7)
  const NEW_KEY := Listing(5, 7)

  function ReuseSteps(t: nat, u: nat): seq<Step<int>> {
    [Insert(1, 7, t), CommitInsert(t, 1), MarkDelete(1, 7, u), Insert(5, 7, u), CommitDelete(u, 2), CommitInsert(u, 2)]
  }

  function Both(del: nat, ins: nat): seq<Item<int>> {
    [Item(1, 7, 1, del), Item(5, 7, ins, NOT_DELETED_ID)]
  }

  function ReuseStates(t: nat, u: nat): seq<IndexState<int>> {
    [EmptyState(),
     IndexState([Item(1, 7, t, NOT_DELETED_ID)], map[t := [OLD_KEY]], map[]),
     IndexState([Item(1, 7, 1, NOT_DELETED_ID)], map[], map[]),
     IndexState([Item(1, 7, 1, u)], map[], map[u := [OLD_KEY]]),
     IndexState(Both(u, u), map[u := [NEW_KEY]], map[u := [OLD_KEY]]),
     IndexState(Both(2, u), map[u := [NEW_KEY]], map[]),
     IndexState(Both(2, 2), map[], map[])]
  }

  lemma FirstListing<K>(t: nat, l: Listing<K>)
    ensures AddListing(map[], t, l) == map[t := [l]]
  {
    assert [] + [l] == [l];
  }

  lemma ReuseInsert(t: nat)
    ensures Next(EmptyState(), Insert(1, 7, t),
                 IndexState([Item(1, 7, t, NOT_DELETED_ID)], map[t := [OLD_KEY]], map[]))
  {
    assert [] + [Item(1, 7, t, NOT_DELETED_ID)] == [Item(1, 7, t, NOT_DELETED_ID)];
    FirstListing(t, OLD_KEY);
  }

  lemma ReuseCommit(t: nat)
    ensures Next(IndexState([Item(1, 7, t, NOT_DELETED_ID)], map[t := [OLD_KEY]], map[]), CommitInsert(t, 1),
                 IndexState([Item(1, 7, 1, NOT_DELETED_ID)], map[], map[]))
  {
    EditOnly(Item(1, 7, t, NOT_DELETED_ID), [], OLD_KEY, StampIns(1), t);
    assert map[t := [OLD_KEY]] - {t} == map[];
  }

  lemma ReuseMark(u: nat)
    ensures Next(IndexState([Item(1, 7, 1, NOT_DELETED_ID)], map[], map[]), MarkDelete(1, 7, u),
                 IndexState([Item(1, 7, 1, u)], map[], map[u := [OLD_KEY]]))
  {
    var items := [Item(1, 7, 1, NOT_DELETED_ID)];
    assert Hit(items[0], OLD_KEY, DelSide, NOT_DELETED_ID);
    EditOnly(items[0], [], OLD_KEY, StampDel(u), NOT_DELETED_ID);
    assert items + [] == items;
    FirstListing(u, OLD_KEY);
  }

  lemma ReuseInsertAgain(u: nat)
    ensures Next(IndexState([Item(1, 7, 1, u)], map[], map[u := [OLD_KEY]]), Insert(5, 7, u),
                 IndexState(Both(u, u), map[u := [NEW_KEY]], map[u := [OLD_KEY]]))
  {
    assert [Item(1, 7, 1, u)] + [Item(5, 7, u, NOT_DELETED_ID)] == Both(u, u);
    FirstListing(u, NEW_KEY);
  }

  lemma ReuseCommitDelete(u: nat)
    ensures Next(IndexState(Both(u, u), map[u := [NEW_KEY]], map[u := [OLD_KEY]]), CommitDelete(u, 2),
                 IndexState(Both(2, u), map[u := [NEW_KEY]], map[]))
  {
    EditOnly(Item(1, 7, 1, u), [Item(5, 7, u, NOT_DELETED_ID)], OLD_KEY, StampDel(2), u);
    assert Both(u, u) == [Item(1, 7, 1, u)] + [Item(5, 7, u, NOT_DELETED_ID)];
    assert map[u := [OLD_KEY]] - {u} == map[];
  }

  lemma ReuseCommitInsert(u: nat)
    ensures Next(IndexState(Both(2, u), map[u := [NEW_KEY]], map[]), CommitInsert(u, 2),
                 IndexState(Both(2, 2), map[], map[]))
  {
    var x, it := Item(1, 7, 1, 2), Item(5, 7, u, NOT_DELETED_ID);
    assert Both(2, u)[1..] == [it];
    assert [it][1..] == [];
    assert EditFirst([it], NEW_KEY, StampIns(2), u) == [it.(ins := 2)];
    assert EditFirst(Both(2, u), NEW_KEY, StampIns(2), u) == [x] + [it.(ins := 2)];
    assert EditListed(Both(2, u), [NEW_KEY], StampIns(2), u) == EditFirst(Both(2, u), NEW_KEY, StampIns(2), u);
    assert map[u := [NEW_KEY]] - {u} == map[];
  }

  lemma EditOnly<K>(it: Item<K>, rest: seq<Item<K>>, l: Listing<K>, e: Edit, id: nat)
    requires Hit(it, l, SideOf(e), id)
    ensures EditFirst([it] + rest, l, e, id) == Edited(it, e) + rest
    ensures EditListed([it] + rest, [l], e, id) == Edited(it, e) + rest
  {
    assert ([it] + rest)[1..] == rest;
  }

  lemma ReuseIsRun(t: nat, u: nat)
    ensures IsRun(ReuseStates(t, u), ReuseSteps(t, u))
  {
    hide Next;
    ReuseInsert(t);
    ReuseCommit(t);
    ReuseMark(u);
    ReuseInsertAgain(u);
    ReuseCommitDelete(u);
    ReuseCommitInsert(u);
  }

  /** A run that reuses a row id under two keys makes "not equal" lose a visible row. */
  lemma NeLosesARow(t: nat, u: nat, rd: Reader)
    requires IsTxnId(t) && IsTxnId(u) && t != u && rd.start > 2 && IsTxnId(rd.txn)
    ensures IsRun(ReuseStates(t, u), ReuseSteps(t, u)) && forall a | a in ReuseSteps(t, u) :: LegalIds(a)
    ensures var items := ReuseStates(t, u)[|ReuseSteps(t, u)|].storage;
      NeRows(items, 1, rd) == [] && Select(items, Wanted(OtherKey(1), rd)) == [7]
  {
    ReuseIsRun(t, u);
    var items := Both(2, 2);
    assert items[0].key == 1 && items[0].row == 7;
    assert RowUnder(items, 1, 7);
    SelectNone(items, NotUnder(items, 1, rd));
    var p := Wanted(OtherKey(1), rd);
    assert !p(items[0]) && p(items[1]);
    assert items[1..] == [items[1]];
    assert Select(items, p) == Select(items[1..], p);
    assert Select([items[1]], p) == [7];
  }

  // ------------------------------------------------------------ "not equal" over time

  function Keep(rows: seq<int>, p: int -> bool): seq<int> {
    if rows == [] then [] else (if p(rows[0]) then [rows[0]] else []) + Keep(rows[1..], p)
  }

  lemma {:induction false} KeepAgrees(rows: seq<int>, p: int -> bool, q: int -> bool)
    requires forall i | 0 <= i < |rows| :: p(rows[i]) == q(rows[i])
    ensures Keep(rows, p) == Keep(rows, q)
  {
    if rows != [] {
      KeepAgrees(rows[1..], p, q);
    }
  }

  lemma KeepCons(r: int, rows: seq<int>, p: int -> bool)
    ensures Keep([r] + rows, p) == (if p(r) then [r] else []) + Keep(rows, p)
  {
    assert ([r] + rows)[1..] == rows;
  }

  function Outside<K(==)>(items: seq<Item<K>>, v: K): int -> bool {
    (r: int) => !RowUnder(items, v, r)
  }

  /** "Not equal" filters the visible rows by row id. */
  lemma {:induction false} NeIsKept<K>(items: seq<Item<K>>, all: seq<Item<K>>, v: K, rd: Reader)
    ensures Select(items, NotUnder(all, v, rd)) == Keep(Select(items, VisibleTo(rd)), Outside(all, v))
  {
    hide RowUnder;
    if items != [] {
      NeIsKept(items[1..], all, v, rd);
      var p: Item<K> -> bool := VisibleTo(rd);
      var rest := Select(items[1..], p);
      if p(items[0]) {
        KeepCons(items[0].row, rest, Outside(all, v));
      } else {
        assert Select(items, p) == rest;
      }
    }
  }

  function AnyKey<K>(): K -> bool {
    (_: K) => true
  }

  /** The visible rows that have a version under `v` are the same before and after. */
  ghost predicate SameUnder<K>(start: seq<Item<K>>, end: seq<Item<K>>, v: K, rd: Reader) {
    forall r | r in Select(start, VisibleTo(rd)) :: RowUnder(start, v, r) == RowUnder(end, v, r)
  }

  lemma VisibleStable<K(!new)>(states: seq<IndexState<K>>, steps: seq<Step<K>>, rd: Reader)
    requires IsTrace(states, steps) && InTransaction(rd)
    requires forall a | a in steps :: Foreign(a, rd)
    ensures multiset(Select(states[|steps|].storage, VisibleTo(rd))) == multiset(Select(states[0].storage, VisibleTo(rd)))
    ensures AllOrderly(states, steps) ==>
              Select(states[|steps|].storage, VisibleTo(rd)) == Select(states[0].storage, VisibleTo(rd))
  {
    hide Next, Select, Orderly;
    SnapshotStable(states, steps, AnyKey(), rd);
    SelectAgrees(states[0].storage, Wanted(AnyKey(), rd), VisibleTo(rd));
    SelectAgrees(states[|steps|].storage, Wanted(AnyKey(), rd), VisibleTo(rd));
  }

  /** Over any sequence of foreign steps "not equal" stays put exactly when no visible row gains or
      loses its versions under `v`, seen or not. */
  lemma NeStableIff<K(!new)>(states: seq<IndexState<K>>, steps: seq<Step<K>>, v: K, rd: Reader)
    requires IsTrace(states, steps) && InTransaction(rd)
    requires forall a | a in steps :: Foreign(a, rd)
    ensures multiset(NeRows(states[|steps|].storage, v, rd)) == multiset(NeRows(states[0].storage, v, rd))
            <==> SameUnder(states[0].storage, states[|steps|].storage, v, rd)
    ensures AllOrderly(states, steps) ==>
              (NeRows(states[|steps|].storage, v, rd) == NeRows(states[0].storage, v, rd)
               <==> SameUnder(states[0].storage, states[|steps|].storage, v, rd))
  {
    hide RowUnder, Select, Next, Orderly, Keep;
    var a, b := states[0].storage, states[|steps|].storage;
    VisibleStable(states, steps, rd);
    NeIsKept(a, a, v, rd);
    NeIsKept(b, b, v, rd);
    KeptAlike(Select(a, VisibleTo(rd)), Select(b, VisibleTo(rd)), Outside(a, v), Outside(b, v));
  }

  function Times(rows: seq<int>, r: int): nat {
    if rows == [] then 0 else (if rows[0] == r then 1 else 0) + Times(rows[1..], r)
  }

  lemma {:induction false} TimesIsMultiset(rows: seq<int>, r: int)
    ensures multiset(rows)[r] == Times(rows, r)
  {
    if rows != [] {
      TimesIsMultiset(rows[1..], r);
      assert rows == [rows[0]] + rows[1..];
    }
  }

  lemma {:induction false} KeepTimes(rows: seq<int>, p: int -> bool, r: int)
    ensures Times(Keep(rows, p), r) == if p(r) then Times(rows, r) else 0
  {
    if rows != [] {
      KeepTimes(rows[1..], p, r);
      if p(rows[0]) {
        assert Keep(rows, p)[0] == rows[0] && Keep(rows, p)[1..] == Keep(rows[1..], p);
      } else {
        assert Keep(rows, p) == Keep(rows[1..], p);
      }
    }
  }

  lemma KeepCount(rows: seq<int>, p: int -> bool, r: int)
    ensures multiset(Keep(rows, p))[r] == if p(r) then multiset(rows)[r] else 0
  {
    TimesIsMultiset(rows, r);
    TimesIsMultiset(Keep(rows, p), r);
    KeepTimes(rows, p, r);
  }

  lemma KeptSame(a: seq<int>, b: seq<int>, p: int -> bool, q: int -> bool)
    requires multiset(a) == multiset(b) && forall r | r in a :: p(r) == q(r)
    ensures multiset(Keep(b, q)) == multiset(Keep(a, p))
  {
    hide Keep;
    forall r: int ensures multiset(Keep(b, q))[r] == multiset(Keep(a, p))[r] {
      KeepCount(a, p, r);
      KeepCount(b, q, r);
      assert r in a || multiset(a)[r] == 0;
    }
  }

  /** Two filters over reordered rows keep the same rows exactly when they agree on all of them. */
  lemma KeptAlike(a: seq<int>, b: seq<int>, p: int -> bool, q: int -> bool)
    requires multiset(a) == multiset(b)
    ensures multiset(Keep(b, q)) == multiset(Keep(a, p)) <==> forall r | r in a :: p(r) == q(r)
    ensures a == b && (forall r | r in a :: p(r) == q(r)) ==> Keep(a, p) == Keep(b, q)
  {
    hide Keep;
    if multiset(Keep(b, q)) == multiset(Keep(a, p)) {
      forall r | r in a ensures p(r) == q(r) {
        KeepCount(a, p, r);
        KeepCount(b, q, r);
        assert multiset(a)[r] > 0;
      }
    } else if forall r | r in a :: p(r) == q(r) {
      KeptSame(a, b, p, q);
    }
    if a == b && forall r | r in a :: p(r) == q(r) {
      forall i | 0 <= i < |a| ensures p(a[i]) == q(a[i]) {
        assert a[i] in a;
      }
      KeepAgrees(a, p, q);
    }
  }

  /** With distinct row ids throughout, "not equal" stays put like the other comparisons. */
  lemma NeStable<K(!new)>(states: seq<IndexState<K>>, steps: seq<Step<K>>, v: K, rd: Reader)
    requires IsTrace(states, steps) && InTransaction(rd)
    requires forall a | a in steps :: Foreign(a, rd)
    requires DistinctRows(states[0].storage) && DistinctRows(states[|steps|].storage)
    ensures SameUnder(states[0].storage, states[|steps|].storage, v, rd)
    ensures multiset(NeRows(states[|steps|].storage, v, rd)) == multiset(NeRows(states[0].storage, v, rd))
    ensures AllOrderly(states, steps) ==>
              NeRows(states[|steps|].storage, v, rd) == NeRows(states[0].storage, v, rd)
  {
    hide Next, Select, Orderly;
    SnapshotStable(states, steps, OtherKey(v), rd);
    DistinctRowsUnshared(states[0].storage, v, rd);
    DistinctRowsUnshared(states[|steps|].storage, v, rd);
    NeIsComplementIff(states[0].storage, v, rd);
    NeIsComplementIff(states[|steps|].storage, v, rd);
    NeStableIff(states, steps, v, rd);
  }

  /** Another transaction's pending insert under the key, reusing a visible row id, takes the row away. */
  lemma NeMoves(other: nat, rd: Reader)
    requires InTransaction(rd) && 1 < rd.start && IsTxnId(other) && other != rd.txn
    ensures var start := IndexState([Item(5, 7, 1, NOT_DELETED_ID)], map[], map[]);
      var end := IndexState([Item(5, 7, 1, NOT_DELETED_ID), Item(1, 7, other, NOT_DELETED_ID)],
                            map[other := [Listing(1, 7)]], map[]);
      && Foreign(Insert(1, 7, other), rd) && Next(start, Insert(1, 7, other), end)
      && NeRows(start.storage, 1, rd) == [7] && NeRows(end.storage, 1, rd) == []
  {
    var start := [Item(5, 7, 1, NOT_DELETED_ID)];
    var end := [Item(5, 7, 1, NOT_DELETED_ID), Item(1, 7, other, NOT_DELETED_ID)];
    assert start + [end[1]] == end;
    FirstListing(other, Listing(1, 7));
    assert !RowUnder(start, 1, 7);
    var p := NotUnder(start, 1, rd);
    assert p(start[0]) && Select(start[1..], p) == [];
    assert end[1].key == 1 && RowUnder(end, 1, 7);
    SelectNone(end, NotUnder(end, 1, rd));
  }

  // ------------------------------------------------------------ against the table

  /** In every run, each of the six comparisons returns exactly the rows a table scan shows. */
  lemma SearchIsScan<K(!new)>(
    states: seq<IndexState<K>>, steps: seq<Step<K>>, low: nat, c: Cmp, v: K, le: Order<K>, rd: Reader)
    requires IsRun(states, steps) && LegalRun(steps, low) && ServedBy(rd, low)
    ensures var found := SearchRows(states[|steps|].storage, c, v, le, rd);
      && (set r | r in found) == Scan(TableAfter(steps), Against(c, v, le), rd)
      && NoRepeats(found)
  {
    var items := states[|steps|].storage;
    IndexRefinesTableScan(states, steps, low, Against(c, v, le), rd);
    if c.Ne? {
      RunRefines(states, steps, low);
      DistinctRowsUnshared(items, v, rd);
      NeIsComplementIff(items, v, rd);
      SelectAgrees(items, Wanted(OtherKey(v), rd), Wanted(Against(Ne, v, le), rd));
    }
  }
}
