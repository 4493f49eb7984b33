/**
 A commit of the disk-backed index first changes the disk and then, after waiting for it, drops its
 pending list.  Lookups can come in between.  While inserts are both on disk and listed, a lookup
 shows every reader one entry too many for each of them; while deletes are, it shows what it will
 show afterwards.
 */
module DiskWindow {
  import opened Mvcc
  import opened IndexModel
  import opened TableRefinement
  import opened Isolation
  import opened DiskOverlay
  import opened DiskHashIndex

  /** The disk has the inserts of `x`, the list is still there. */
  function PutOnly<K(==)>(f: Refile<K>, s: DiskState<K>, x: nat): DiskState<K> {
    s.(disk := PutAll(f, s.disk, Bucket(s.pendIns, x)))
  }

  /** The disk has lost what `x` deletes, the list is still there. */
  function EraseOnly<K(==)>(f: Refile<K>, s: DiskState<K>, x: nat): DiskState<K> {
    s.(disk := EraseAll(f, s.disk, Bucket(s.pendDel, x)))
  }

  // ------------------------------------------------------------ stamping with repeated rows

  /** The delete of a row, if there is one. */
  function DelAt(stamps: seq<Entry>, row: int): nat {
    if stamps == [] then NOT_DELETED_ID
    else if stamps[0].row == row then stamps[0].ins
    else DelAt(stamps[1..], row)
  }

  function Mark(e: Entry, stamps: seq<Entry>): Entry {
    if e.del == NOT_DELETED_ID then e.(del := DelAt(stamps, e.row)) else e
  }

  /** Of several entries of a row the first is marked. */
  function MarkFrom(es: seq<Entry>, stamps: seq<Entry>, seen: set<int>): seq<Entry> {
    if es == [] then []
    else [if es[0].row in seen then es[0] else Mark(es[0], stamps)] + MarkFrom(es[1..], stamps, seen + {es[0].row})
  }

  function MarkEach(es: seq<Entry>, stamps: seq<Entry>): seq<Entry> {
    if es == [] then [] else [Mark(es[0], stamps)] + MarkEach(es[1..], stamps)
  }

  function RowSet(es: seq<Entry>): set<int> {
    set e | e in es :: e.row
  }

  lemma {:induction false} MarkSkipsSeen(es: seq<Entry>, d: Entry, rest: seq<Entry>, seen: set<int>)
    requires d.row in seen
    ensures MarkFrom(es, [d] + rest, seen) == MarkFrom(es, rest, seen)
  {
    if es != [] {
      MarkSkipsSeen(es[1..], d, rest, seen + {es[0].row});
      assert ([d] + rest)[1..] == rest;
    }
  }

  lemma {:induction false} MarkFirst(es: seq<Entry>, d: Entry, rest: seq<Entry>, seen: set<int>)
    requires d.row !in seen && d.ins != NOT_DELETED_ID
    requires forall e | e in es && e.row == d.row :: e.del == NOT_DELETED_ID
    ensures MarkFrom(StampRow(es, d.row, d.ins), rest, seen) == MarkFrom(es, [d] + rest, seen)
  {
    if es != [] {
      var more := seen + {es[0].row};
      assert ([d] + rest)[1..] == rest;
      if es[0].row == d.row {
        assert es[0] in es;
        MarkSkipsSeen(es[1..], d, rest, more);
        var stamped := StampRow(es, d.row, d.ins);
        assert stamped[0] == es[0].(del := d.ins) && stamped[1..] == es[1..];
      } else {
        MarkFirst(es[1..], d, rest, more);
        var stamped := StampRow(es, d.row, d.ins);
        assert stamped[0] == es[0] && stamped[1..] == StampRow(es[1..], d.row, d.ins);
      }
    }
  }

  lemma {:induction false} MarkNone(es: seq<Entry>, seen: set<int>)
    ensures MarkFrom(es, [], seen) == es
  {
    if es != [] {
      MarkNone(es[1..], seen + {es[0].row});
    }
  }

  lemma {:induction false} StampRowKeepsRows(es: seq<Entry>, row: int, x: nat)
    ensures RowSet(StampRow(es, row, x)) == RowSet(es)
    ensures forall e | e in StampRow(es, row, x) && e.row != row :: e in es
  {
    if es != [] {
      var out := StampRow(es, row, x);
      assert es == [es[0]] + es[1..];
      if es[0].row == row && es[0].del == NOT_DELETED_ID {
        assert out == [es[0].(del := x)] + es[1..];
        RowSetConcat([es[0].(del := x)], es[1..]);
      } else {
        StampRowKeepsRows(es[1..], row, x);
        assert out == [es[0]] + StampRow(es[1..], row, x);
        RowSetConcat([es[0]], StampRow(es[1..], row, x));
      }
      RowSetConcat([es[0]], es[1..]);
    }
  }

  lemma RowSetConcat(a: seq<Entry>, b: seq<Entry>)
    ensures RowSet(a + b) == RowSet(a) + RowSet(b)
    ensures |a| == 1 ==> RowSet(a) == {a[0].row}
  {
  }

  /** Laying distinct deletes over entries marks the first entry of each row. */
  lemma {:induction false} StampRowsMark(es: seq<Entry>, stamps: seq<Entry>)
    requires Distinct(stamps) && forall d | d in stamps :: d.ins != NOT_DELETED_ID
    requires forall e, d | e in es && d in stamps && e.row == d.row :: e.del == NOT_DELETED_ID
    ensures StampRows(es, stamps) == MarkFrom(es, stamps, {})
    decreases stamps
  {
    if stamps == [] {
      MarkNone(es, {});
    } else {
      var d, rest := stamps[0], stamps[1..];
      assert d in stamps && stamps == [d] + rest;
      forall y | y in rest ensures y.row != d.row && y in stamps {
        var j :| 0 <= j < |rest| && rest[j] == y;
        assert stamps[j + 1] == y;
      }
      StampRowKeepsRows(es, d.row, d.ins);
      StampRowsMark(StampRow(es, d.row, d.ins), rest);
      MarkFirst(es, d, rest, {});
    }
  }

  lemma {:induction false} MarkConcat(a: seq<Entry>, b: seq<Entry>, stamps: seq<Entry>, seen: set<int>)
    ensures MarkFrom(a + b, stamps, seen) == MarkFrom(a, stamps, seen) + MarkFrom(b, stamps, seen + RowSet(a))
  {
    if a == [] {
      assert a + b == b && seen + RowSet(a) == seen;
    } else {
      MarkConcat(a[1..], b, stamps, seen + {a[0].row});
      assert (a + b)[1..] == a[1..] + b && a == [a[0]] + a[1..];
      RowSetConcat([a[0]], a[1..]);
      assert seen + {a[0].row} + RowSet(a[1..]) == seen + RowSet(a);
      ConcatAssoc([if a[0].row in seen then a[0] else Mark(a[0], stamps)],
                  MarkFrom(a[1..], stamps, seen + {a[0].row}), MarkFrom(b, stamps, seen + RowSet(a)));
    }
  }

  lemma {:induction false} MarkApart(es: seq<Entry>, stamps: seq<Entry>, seen: set<int>)
    requires Distinct(es) && RowSet(es) !! seen
    ensures MarkFrom(es, stamps, seen) == MarkEach(es, stamps)
  {
    if es != [] {
      assert es == [es[0]] + es[1..];
      RowSetConcat([es[0]], es[1..]);
      forall e | e in es[1..] ensures e.row != es[0].row {
        var j :| 0 <= j < |es[1..]| && es[1..][j] == e;
        assert es[j + 1] == e;
      }
      MarkApart(es[1..], stamps, seen + {es[0].row});
    }
  }

  lemma {:induction false} MarkAllSeen(es: seq<Entry>, stamps: seq<Entry>, seen: set<int>)
    requires RowSet(es) <= seen
    ensures MarkFrom(es, stamps, seen) == es
  {
    if es != [] {
      assert es == [es[0]] + es[1..];
      RowSetConcat([es[0]], es[1..]);
      MarkAllSeen(es[1..], stamps, seen + {es[0].row});
    }
  }

  lemma {:induction false} VisibleConcat(a: seq<Entry>, b: seq<Entry>, rd: Reader)
    ensures VisibleRows(a + b, rd) == VisibleRows(a, rd) + VisibleRows(b, rd)
  {
    if a == [] {
      assert a + b == b;
    } else {
      VisibleConcat(a[1..], b, rd);
      assert (a + b)[1..] == a[1..] + b;
      ConcatAssoc(if Visible(a[0].ins, a[0].del, rd) then [a[0].row] else [], VisibleRows(a[1..], rd), VisibleRows(b, rd));
    }
  }

  // ------------------------------------------------------------ entries that are there twice

  /** The same rows as the disk shows them. */
  function Stored(es: seq<Entry>): seq<Entry> {
    if es == [] then [] else [Entry(es[0].row, 0, NOT_DELETED_ID)] + Stored(es[1..])
  }

  lemma {:induction false} StoredRows(es: seq<Entry>)
    ensures |Stored(es)| == |es| && forall i | 0 <= i < |es| :: Stored(es)[i] == Entry(es[i].row, 0, NOT_DELETED_ID)
    ensures RowSet(Stored(es)) == RowSet(es) && (Distinct(es) ==> Distinct(Stored(es)))
  {
    if es != [] {
      StoredRows(es[1..]);
      assert es == [es[0]] + es[1..];
      RowSetConcat([es[0]], es[1..]);
      RowSetConcat([Entry(es[0].row, 0, NOT_DELETED_ID)], Stored(es[1..]));
    }
  }

  predicate Asks(rd: Reader) {
    rd == SEE_COMMITTED || InSnapshot(rd)
  }

  lemma VisibleHead(es: seq<Entry>, rd: Reader)
    requires es != []
    ensures |VisibleRows(es, rd)| == (if Visible(es[0].ins, es[0].del, rd) then 1 else 0) + |VisibleRows(es[1..], rd)|
  {
  }

  lemma OneMore(e: Entry, del: nat, x: nat, rd: Reader)
    requires IsTxnId(x) && Asks(rd) && e.ins == x && del in {x, NOT_DELETED_ID}
    ensures (if Visible(0, del, rd) then 1 else 0) + (if Visible(x, NOT_DELETED_ID, rd) then 1 else 0)
            == (if Visible(x, del, rd) then 1 else 0) + 1
  {
  }

  /** The marked copy on disk and the unmarked entry of the list show one row more than the marked entry
      of the list alone. */
  lemma {:induction false} OneMoreEach(es: seq<Entry>, stamps: seq<Entry>, x: nat, rd: Reader)
    requires IsTxnId(x) && Asks(rd)
    requires forall e | e in es :: e.ins == x && e.del == NOT_DELETED_ID && DelAt(stamps, e.row) in {x, NOT_DELETED_ID}
    ensures |VisibleRows(MarkEach(Stored(es), stamps), rd)| + |VisibleRows(es, rd)|
            == |VisibleRows(MarkEach(es, stamps), rd)| + |es|
  {
    if es != [] {
      hide VisibleRows, Visible;
      assert es[0] in es && forall e | e in es[1..] :: e in es;
      OneMoreEach(es[1..], stamps, x, rd);
      var stored := Entry(es[0].row, 0, NOT_DELETED_ID);
      assert Stored(es)[1..] == Stored(es[1..]) && Stored(es)[0] == stored;
      VisibleHead(es, rd);
      VisibleHead(MarkEach(es, stamps), rd);
      VisibleHead(MarkEach(Stored(es), stamps), rd);
      assert MarkEach(es, stamps)[1..] == MarkEach(es[1..], stamps);
      assert MarkEach(Stored(es), stamps)[1..] == MarkEach(Stored(es[1..]), stamps);
      OneMore(es[0], DelAt(stamps, es[0].row), x, rd);
    }
  }

  /** Entries `d` of the disk, lists `g`, `p`, `h` of which `p` is also on disk. */
  lemma OneMoreInAll(d: seq<Entry>, g: seq<Entry>, p: seq<Entry>, h: seq<Entry>, stamps: seq<Entry>, x: nat, rd: Reader)
    requires IsTxnId(x) && Asks(rd) && Distinct(d + (g + (p + h)))
    requires forall e | e in p :: e.ins == x && e.del == NOT_DELETED_ID && DelAt(stamps, e.row) in {x, NOT_DELETED_ID}
    ensures |VisibleRows(MarkFrom((d + Stored(p)) + (g + (p + h)), stamps, {}), rd)|
            == |VisibleRows(MarkFrom(d + (g + (p + h)), stamps, {}), rd)| + |p|
  {
    hide MarkFrom, VisibleRows, MarkEach, Asks;
    Parts(d, g, p, h);
    StoredRows(p);
    var n := Stored(p);
    MarkFour(d, g, p, h, stamps, {});
    MarkConcat(d + n, g + (p + h), stamps, {});
    MarkConcat(d, n, stamps, {});
    RowSetConcat(d, n);
    var seen := {} + RowSet(d + n);
    MarkConcat(g, p + h, stamps, seen);
    MarkConcat(p, h, stamps, seen + RowSet(g));
    MarkApart(d, stamps, {});
    MarkApart(n, stamps, {} + RowSet(d));
    MarkApart(g, stamps, seen);
    MarkAllSeen(p, stamps, seen + RowSet(g));
    MarkApart(h, stamps, seen + RowSet(g) + RowSet(p));
    Lengths5(MarkEach(d, stamps), MarkEach(n, stamps), MarkEach(g, stamps), p, MarkEach(h, stamps), rd);
    Lengths4(MarkEach(d, stamps), MarkEach(g, stamps), MarkEach(p, stamps), MarkEach(h, stamps), rd);
    OneMoreEach(p, stamps, x, rd);
  }

  /** With distinct rows the parts have distinct rows, apart from each other. */
  lemma Parts(d: seq<Entry>, g: seq<Entry>, p: seq<Entry>, h: seq<Entry>)
    requires Distinct(d + (g + (p + h)))
    ensures Distinct(d) && Distinct(g) && Distinct(p) && Distinct(h)
    ensures RowSet(d) !! RowSet(g) !! RowSet(p) !! RowSet(h)
  {
    TwoParts(d, g + (p + h));
    TwoParts(g, p + h);
    TwoParts(p, h);
    RowSetConcat(g, p + h);
    RowSetConcat(p, h);
  }

  lemma TwoParts(a: seq<Entry>, b: seq<Entry>)
    requires Distinct(a + b)
    ensures Distinct(a) && Distinct(b) && RowSet(a) !! RowSet(b)
  {
    var c := a + b;
    assert forall i | 0 <= i < |a| :: c[i] == a[i];
    assert forall j | 0 <= j < |b| :: c[|a| + j] == b[j];
    forall x, y | x in a && y in b ensures x.row != y.row {
      var i :| 0 <= i < |a| && a[i] == x;
      var j :| 0 <= j < |b| && b[j] == y;
      assert c[i].row != c[|a| + j].row;
    }
  }

  lemma MarkFour(d: seq<Entry>, g: seq<Entry>, p: seq<Entry>, h: seq<Entry>, stamps: seq<Entry>, none: set<int>)
    requires Distinct(d) && Distinct(g) && Distinct(p) && Distinct(h) && none == {}
    requires RowSet(d) !! RowSet(g) !! RowSet(p) !! RowSet(h)
    ensures MarkFrom(d + (g + (p + h)), stamps, none)
            == MarkEach(d, stamps) + (MarkEach(g, stamps) + (MarkEach(p, stamps) + MarkEach(h, stamps)))
  {
    hide MarkFrom, MarkEach, RowSet, Distinct;
    MarkConcat(d, g + (p + h), stamps, none);
    MarkConcat(g, p + h, stamps, none + RowSet(d));
    MarkConcat(p, h, stamps, none + RowSet(d) + RowSet(g));
    MarkApart(d, stamps, none);
    MarkApart(g, stamps, none + RowSet(d));
    MarkApart(p, stamps, none + RowSet(d) + RowSet(g));
    MarkApart(h, stamps, none + RowSet(d) + RowSet(g) + RowSet(p));
  }

  lemma Lengths4(a: seq<Entry>, b: seq<Entry>, c: seq<Entry>, d: seq<Entry>, rd: Reader)
    ensures |VisibleRows(a + (b + (c + d)), rd)|
            == |VisibleRows(a, rd)| + |VisibleRows(b, rd)| + |VisibleRows(c, rd)| + |VisibleRows(d, rd)|
  {
    hide VisibleRows;
    VisibleConcat(a, b + (c + d), rd);
    VisibleConcat(b, c + d, rd);
    VisibleConcat(c, d, rd);
  }

  lemma Lengths5(a: seq<Entry>, n: seq<Entry>, b: seq<Entry>, c: seq<Entry>, d: seq<Entry>, rd: Reader)
    ensures |VisibleRows((a + n) + (b + (c + d)), rd)|
            == |VisibleRows(a, rd)| + |VisibleRows(n, rd)| + |VisibleRows(b, rd)| + |VisibleRows(c, rd)| + |VisibleRows(d, rd)|
  {
    hide VisibleRows;
    VisibleConcat(a + n, b + (c + d), rd);
    VisibleConcat(a, n, rd);
    VisibleConcat(b, c + d, rd);
    VisibleConcat(c, d, rd);
  }

  // ------------------------------------------------------------ the window of a commit of inserts

  /** Puts of rows that are not there yet append them under their keys, in order. */
  lemma {:induction false} PutAllRows<K(!new)>(f: Refile<K>, d: Disk<K>, ls: seq<Listing<K>>, k: K, x: nat)
    requires AllFiled(f, ls) && OnceEach(ls)
    requires forall l | l in ls && l.key == k :: l.row !in RowsAt(d, k)
    ensures OnDisk(RowsAt(PutAll(f, d, ls), k)) == OnDisk(RowsAt(d, k)) + Stored(Filed(ls, k, x))
    decreases ls
  {
    if ls != [] {
      var l, rest := ls[0], ls[1..];
      assert l in ls && GoodKey(f, l.key);
      var d' := Put(d, l.key, l.row);
      forall m | m in rest && m.key == k ensures m in ls && m.row !in RowsAt(d', k) {
        var j :| 0 <= j < |rest| && rest[j] == m;
        assert ls[j + 1] == m;
      }
      forall i, j | 0 <= i < j < |rest| ensures rest[i].row != rest[j].row {
        assert ls[i + 1].row != ls[j + 1].row;
      }
      PutAllRows(f, d', rest, k, x);
      if l.key == k {
        assert RowsAt(d', k) == RowsAt(d, k) + [l.row];
        OnDiskConcat(RowsAt(d, k), [l.row]);
        assert [l.row][1..] == [] && OnDisk([l.row]) == [Entry(l.row, 0, NOT_DELETED_ID)];
        ConcatAssoc(OnDisk(RowsAt(d, k)), OnDisk([l.row]), Stored(Filed(rest, k, x)));
        var filed := Filed(ls, k, x);
        assert filed[0] == Entry(l.row, x, NOT_DELETED_ID) && filed[1..] == Filed(rest, k, x);
      } else {
        assert RowsAt(d', k) == RowsAt(d, k) && Filed(ls, k, x) == Filed(rest, k, x);
      }
    }
  }

  lemma {:induction false} OnDiskConcat(a: seq<int>, b: seq<int>)
    ensures OnDisk(a + b) == OnDisk(a) + OnDisk(b)
  {
    if a == [] {
      assert a + b == b;
    } else {
      OnDiskConcat(a[1..], b);
      assert (a + b)[1..] == a[1..] + b;
      ConcatAssoc([Entry(a[0], 0, NOT_DELETED_ID)], OnDisk(a[1..]), OnDisk(b));
    }
  }

  lemma {:induction false} GatherConcat<K>(p: Pending<K>, a: seq<nat>, b: seq<nat>, k: K)
    ensures Gather(p, a + b, k) == Gather(p, a, k) + Gather(p, b, k)
  {
    if a == [] {
      assert a + b == b;
    } else {
      GatherConcat(p, a[1..], b, k);
      assert (a + b)[1..] == a[1..] + b;
      ConcatAssoc(Filed(Bucket(p, a[0]), k, a[0]), Gather(p, a[1..], k), Gather(p, b, k));
    }
  }

  /** What a walk gathers before, at and after one list. */
  lemma GatherAt<K>(p: Pending<K>, order: seq<nat>, i: nat, k: K)
    requires i < |order|
    ensures Gather(p, order, k)
            == Gather(p, order[..i], k) + (Filed(Bucket(p, order[i]), k, order[i]) + Gather(p, order[i + 1..], k))
  {
    assert order == order[..i] + order[i..] && order[i..][0] == order[i] && order[i..][1..] == order[i + 1..];
    GatherConcat(p, order[..i], order[i..], k);
  }

  lemma {:induction false} DelAtIsIn(stamps: seq<Entry>, row: int)
    ensures DelAt(stamps, row) == NOT_DELETED_ID || exists d | d in stamps :: d.row == row && d.ins == DelAt(stamps, row)
  {
    if stamps != [] {
      DelAtIsIn(stamps[1..], row);
      assert stamps[0] in stamps && forall d | d in stamps[1..] :: d in stamps;
    }
  }

  /** The deletes of a mirrored state: distinct, of transactions, and of the transaction's own for its
      pending inserts. */
  lemma StampsOf<K(!new)>(f: Refile<K>, s: DiskState<K>, t: Table<K>, k: K, order: seq<nat>, x: nat)
    requires Mirrors(f, s, t) && Walks(order, s.pendDel.Keys)
    ensures var stamps := Gather(s.pendDel, order, k);
      && Distinct(stamps) && (forall d | d in stamps :: d.ins != NOT_DELETED_ID)
      && (forall e | e in Filed(Bucket(s.pendIns, x), k, x) ::
            && e.ins == x && e.del == NOT_DELETED_ID && IsTxnId(x)
            && DelAt(stamps, e.row) in {x, NOT_DELETED_ID})
  {
    var stamps := Gather(s.pendDel, order, k);
    GatherDistinct(s.pendDel, t, DelSide, order, k);
    GatherMembers(s.pendDel, order, k);
    FiledMembers(Bucket(s.pendIns, x), k, x);
    forall d | d in stamps ensures d.ins != NOT_DELETED_ID {
      assert Names(t, DelSide, d.ins, Listing(k, d.row));
    }
    forall e | e in Filed(Bucket(s.pendIns, x), k, x) ensures IsTxnId(x) && DelAt(stamps, e.row) in {x, NOT_DELETED_ID} {
      assert Names(t, InsSide, x, Listing(k, e.row));
      assert GoodVersion(f, t[e.row]);
      DelAtIsIn(stamps, e.row);
      if DelAt(stamps, e.row) != NOT_DELETED_ID {
        var d :| d in stamps && d.row == e.row && d.ins == DelAt(stamps, e.row);
        assert Names(t, DelSide, d.ins, Listing(k, d.row));
      }
    }
  }

  /** Pending inserts are not on disk, and are listed once under keys that the mirror files as they are. */
  lemma NotYetStored<K(!new)>(f: Refile<K>, s: DiskState<K>, t: Table<K>, k: K, x: nat)
    requires Mirrors(f, s, t)
    ensures AllFiled(f, Bucket(s.pendIns, x)) && OnceEach(Bucket(s.pendIns, x))
    ensures forall l | l in Bucket(s.pendIns, x) && l.key == k :: l.row !in RowsAt(s.disk, k)
  {
    forall l | l in Bucket(s.pendIns, x) && l.key == k ensures l.row !in RowsAt(s.disk, k) {
      assert Names(t, InsSide, x, l);
    }
  }

  lemma AllUnmarked<K(!new)>(f: Refile<K>, s: DiskState<K>, t: Table<K>, k: K, insOrder: seq<nat>)
    requires Mirrors(f, s, t) && Walks(insOrder, s.pendIns.Keys)
    ensures var base := OnDisk(RowsAt(s.disk, k)) + Gather(s.pendIns, insOrder, k);
      Distinct(base) && forall e | e in base :: e.del == NOT_DELETED_ID
  {
    hide Mirrors, Walks;
    BaseMembers(f, s, t, k, insOrder);
  }

  /**
   Between putting the inserts of `x` on disk and dropping their list, a lookup gives every reader
   exactly one row more for each of them that is under the key.
   */
  lemma PutWindow<K(!new)>(
    f: Refile<K>, s: DiskState<K>, t: Table<K>, x: nat, k: K, insOrder: seq<nat>, delOrder: seq<nat>, rd: Reader)
    requires Mirrors(f, s, t) && Walks(insOrder, s.pendIns.Keys) && Walks(delOrder, s.pendDel.Keys) && Asks(rd)
    ensures |VisibleRows(Overlay(PutOnly(f, s, x), k, insOrder, delOrder), rd)|
            == |VisibleRows(Overlay(s, k, insOrder, delOrder), rd)| + |Filed(Bucket(s.pendIns, x), k, x)|
  {
    hide Mirrors, VisibleRows, Asks, StampRows, MarkFrom, Stored, OnDisk, Distinct, PutAll;
    var p, stamps := Filed(Bucket(s.pendIns, x), k, x), Gather(s.pendDel, delOrder, k);
    var d := OnDisk(RowsAt(s.disk, k));
    NotYetStored(f, s, t, k, x);
    PutAllRows(f, s.disk, Bucket(s.pendIns, x), k, x);
    if x in s.pendIns {
      var i :| 0 <= i < |insOrder| && insOrder[i] == x;
      GatherAt(s.pendIns, insOrder, i, k);
      var g, h := Gather(s.pendIns, insOrder[..i], k), Gather(s.pendIns, insOrder[i + 1..], k);
      AllUnmarked(f, s, t, k, insOrder);
      StampsOf(f, s, t, k, delOrder, x);
      TwiceUnmarked(d, g, p, h);
      StampRowsMark(d + (g + (p + h)), stamps);
      StampRowsMark((d + Stored(p)) + (g + (p + h)), stamps);
      if p == [] {
        NothingStored(d);
      } else {
        assert p[0] in p;
        OneMoreInAll(d, g, p, h, stamps, x, rd);
      }
    } else {
      NothingStored(d);
    }
  }

  lemma NothingStored(d: seq<Entry>)
    ensures d + Stored([]) == d
  {
  }

  lemma TwiceUnmarked(d: seq<Entry>, g: seq<Entry>, p: seq<Entry>, h: seq<Entry>)
    requires forall e | e in d + (g + (p + h)) :: e.del == NOT_DELETED_ID
    ensures forall e | e in (d + Stored(p)) + (g + (p + h)) :: e.del == NOT_DELETED_ID
  {
    StoredRows(p);
    forall e | e in (d + Stored(p)) + (g + (p + h)) ensures e.del == NOT_DELETED_ID {
      if e in Stored(p) {
      } else {
        assert e in d || e in g + (p + h);
        assert e in d + (g + (p + h));
      }
    }
  }

  /** Hence the lookup is right in the window exactly when the commit inserts nothing under the key. */
  lemma PutWindowIff<K(!new)>(
    f: Refile<K>, s: DiskState<K>, t: Table<K>, x: nat, k: K, insOrder: seq<nat>, delOrder: seq<nat>, rd: Reader)
    requires Mirrors(f, s, t) && Walks(insOrder, s.pendIns.Keys) && Walks(delOrder, s.pendDel.Keys) && Asks(rd)
    ensures VisibleRows(Overlay(PutOnly(f, s, x), k, insOrder, delOrder), rd)
            == VisibleRows(Overlay(s, k, insOrder, delOrder), rd)
            <==> forall l | l in Bucket(s.pendIns, x) :: l.key != k
  {
    hide Mirrors, VisibleRows, Asks, StampRows, Walks, PutAll;
    PutWindow(f, s, t, x, k, insOrder, delOrder, rd);
    FiledMembers(Bucket(s.pendIns, x), k, x);
    var p := Filed(Bucket(s.pendIns, x), k, x);
    if p == [] {
      forall l | l in Bucket(s.pendIns, x) ensures l.key != k {
        assert l.key == k ==> l == Listing(k, l.row) && Entry(l.row, x, NOT_DELETED_ID) in p;
      }
      NotYetStored(f, s, t, k, x);
      PutAllRows(f, s.disk, Bucket(s.pendIns, x), k, x);
      NothingStored(OnDisk(RowsAt(s.disk, k)));
    } else {
      assert p[0] in p;
    }
  }

  lemma OnePending<K>(f: Refile<K>, k: K, r: int, x: nat)
    requires GoodKey(f, k)
    ensures var s := DiskNext(f, EmptyDisk(), Step.Insert(k, r, x));
      && Overlay(s, k, [x], []) == [Entry(r, x, NOT_DELETED_ID)]
      && Overlay(PutOnly(f, s, x), k, [x], []) == [Entry(r, 0, NOT_DELETED_ID), Entry(r, x, NOT_DELETED_ID)]
  {
    var l, e, n := Listing(k, r), Entry(r, x, NOT_DELETED_ID), Entry(r, 0, NOT_DELETED_ID);
    var d: Disk<K> := map[];
    var p: Pending<K> := map[x := [l]];
    assert [] + [l] == [l] && [l][1..] == [] && [] + [r] == [r] && [x][1..] == [];
    assert PutAll(f, d, [l]) == Put(d, k, r) == map[k := [r]];
    assert Filed([l], k, x) == [e] + Filed([], k, x) && Gather(p, [x], k) == [e] + Gather(p, [], k);
    assert [r][1..] == [] && OnDisk([r]) == [n];
    assert [] + [e] == [e] && [n] + [e] == [n, e];
  }

  /** One pending insert: in the window its own transaction finds the row twice, another one finds it
      before the commit is done. */
  lemma RowIsThereTwice<K>(f: Refile<K>, k: K, r: int, x: nat, rd: Reader)
    requires GoodKey(f, k) && IsTxnId(x) && Asks(rd)
    ensures var s := DiskNext(f, EmptyDisk(), Step.Insert(k, r, x));
      && VisibleRows(Overlay(s, k, [x], []), rd) == (if rd.txn == x then [r] else [])
      && VisibleRows(Overlay(PutOnly(f, s, x), k, [x], []), rd) == (if rd.txn == x then [r, r] else [r])
  {
    hide DiskNext, Overlay, PutOnly;
    OnePending(f, k, r, x);
    var e, n := Entry(r, x, NOT_DELETED_ID), Entry(r, 0, NOT_DELETED_ID);
    assert [e][1..] == [] && [n, e][1..] == [e];
  }

  // ------------------------------------------------------------ the window of a commit of deletes

  lemma {:induction false} StampRowsConcat(es: seq<Entry>, a: seq<Entry>, b: seq<Entry>)
    ensures StampRows(es, a + b) == StampRows(StampRows(es, a), b)
    decreases a
  {
    if a == [] {
      assert a + b == b;
    } else {
      StampRowsConcat(StampRow(es, a[0].row, a[0].ins), a[1..], b);
      assert (a + b)[1..] == a[1..] + b;
    }
  }

  lemma {:induction false} StampRowsKeepRows(es: seq<Entry>, stamps: seq<Entry>)
    ensures RowSet(StampRows(es, stamps)) == RowSet(es)
    decreases stamps
  {
    if stamps != [] {
      StampRowKeepsRows(es, stamps[0].row, stamps[0].ins);
      StampRowsKeepRows(StampRow(es, stamps[0].row, stamps[0].ins), stamps[1..]);
    }
  }

  lemma {:induction false} StampRowMisses(es: seq<Entry>, row: int, x: nat)
    requires row !in RowSet(es)
    ensures StampRow(es, row, x) == es
  {
    if es != [] {
      assert es == [es[0]] + es[1..];
      RowSetConcat([es[0]], es[1..]);
      StampRowMisses(es[1..], row, x);
    }
  }

  lemma {:induction false} StampRowsMiss(es: seq<Entry>, stamps: seq<Entry>)
    requires RowSet(stamps) !! RowSet(es)
    ensures StampRows(es, stamps) == es
    decreases stamps
  {
    if stamps != [] {
      assert stamps == [stamps[0]] + stamps[1..];
      RowSetConcat([stamps[0]], stamps[1..]);
      StampRowMisses(es, stamps[0].row, stamps[0].ins);
      StampRowsMiss(es, stamps[1..]);
    }
  }

  lemma {:induction false} GatherWithout<K>(p: Pending<K>, order: seq<nat>, x: nat, k: K)
    requires x !in order
    ensures Gather(p - {x}, order, k) == Gather(p, order, k)
  {
    if order != [] {
      GatherWithout(p, order[1..], x, k);
      assert Bucket(p - {x}, order[0]) == Bucket(p, order[0]);
    }
  }

  /** Once erased, what `x` deletes is neither on disk nor pending. */
  lemma ErasedIsGone<K(!new)>(f: Refile<K>, s: DiskState<K>, t: Table<K>, x: nat, k: K, insOrder: seq<nat>)
    requires Mirrors(f, s, t) && Walks(insOrder, s.pendIns.Keys) && Bucket(s.pendIns, x) == []
    ensures var base := OnDisk(RowsAt(EraseOnly(f, s, x).disk, k)) + Gather(s.pendIns, insOrder, k);
      RowSet(Filed(Bucket(s.pendDel, x), k, x)) !! RowSet(base)
  {
    var a, b := OnDisk(RowsAt(EraseOnly(f, s, x).disk, k)), Gather(s.pendIns, insOrder, k);
    FiledMembers(Bucket(s.pendDel, x), k, x);
    OnDiskMembers(RowsAt(EraseOnly(f, s, x).disk, k));
    GatherMembers(s.pendIns, insOrder, k);
    forall d: Entry, e: Entry | d in Filed(Bucket(s.pendDel, x), k, x) && e in a + b ensures d.row != e.row {
      assert Names(t, DelSide, x, Listing(k, d.row));
      if e in a {
        EraseAllMember(f, s.disk, Bucket(s.pendDel, x), k, e.row);
      } else {
        assert Names(t, InsSide, e.ins, Listing(k, e.row));
        assert e.row in t && GoodVersion(f, t[e.row]);
      }
    }
  }

  /** Between erasing what `x` deletes and dropping its list, a lookup gives what it gives afterwards. */
  lemma EraseWindow<K(!new)>(
    f: Refile<K>, s: DiskState<K>, t: Table<K>, x: nat, k: K, insOrder: seq<nat>, delOrder: seq<nat>, i: nat)
    requires Mirrors(f, s, t) && Walks(insOrder, s.pendIns.Keys) && Walks(delOrder, s.pendDel.Keys)
    requires Bucket(s.pendIns, x) == [] && i < |delOrder| && delOrder[i] == x
    ensures Overlay(EraseOnly(f, s, x), k, insOrder, delOrder)
            == Overlay(MirrorDeletes(f, s, x), k, insOrder, delOrder[..i] + delOrder[i + 1..])
  {
    hide Mirrors, StampRows, EraseAll, Gather;
    var base := OnDisk(RowsAt(EraseOnly(f, s, x).disk, k)) + Gather(s.pendIns, insOrder, k);
    var g, p, h := Gather(s.pendDel, delOrder[..i], k), Filed(Bucket(s.pendDel, x), k, x), Gather(s.pendDel, delOrder[i + 1..], k);
    GatherAt(s.pendDel, delOrder, i, k);
    ErasedIsGone(f, s, t, x, k, insOrder);
    StampRowsConcat(base, g, p + h);
    StampRowsConcat(StampRows(base, g), p, h);
    StampRowsKeepRows(base, g);
    StampRowsMiss(StampRows(base, g), p);
    GatherWithout(s.pendDel, delOrder[..i], x, k);
    GatherWithout(s.pendDel, delOrder[i + 1..], x, k);
    GatherConcat(s.pendDel - {x}, delOrder[..i], delOrder[i + 1..], k);
    StampRowsConcat(base, g, h);
  }
}
