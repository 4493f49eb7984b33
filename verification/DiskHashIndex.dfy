/**
 Lookups of the disk-backed hash index, which readers they answer like a scan of the table, and
 the class that performs them.
 */
module DiskHashIndex {
  import opened Mvcc
  import opened IndexModel
  import opened TableRefinement
  import opened Isolation
  import opened Search
  import opened HashIndex
  import opened DiskOverlay
  import KC = KeyCodec

  /** One looked-up entry. */
  datatype Entry = Entry(row: int, ins: nat, del: nat)

  // ------------------------------------------------------------ the lookup

  function OnDisk(rows: seq<int>): seq<Entry> {
    if rows == [] then [] else [Entry(rows[0], 0, NOT_DELETED_ID)] + OnDisk(rows[1..])
  }

  /** The listed rows filed under `k`, stamped with their transaction. */
  function Filed<K(==)>(ls: seq<Listing<K>>, k: K, x: nat): seq<Entry> {
    if ls == [] then []
    else (if ls[0].key == k then [Entry(ls[0].row, x, NOT_DELETED_ID)] else []) + Filed(ls[1..], k, x)
  }

  /** The same over several transactions, in the order they are visited. */
  function Gather<K(==)>(p: Pending<K>, order: seq<nat>, k: K): seq<Entry> {
    if order == [] then []
    else Filed(Bucket(p, order[0]), k, order[0]) + Gather(p, order[1..], k)
  }

  /** A pending delete stamps the first unstamped entry of its row. */
  function StampRow(es: seq<Entry>, row: int, x: nat): seq<Entry> {
    if es == [] then []
    else if es[0].row == row && es[0].del == NOT_DELETED_ID then [es[0].(del := x)] + es[1..]
    else [es[0]] + StampRow(es[1..], row, x)
  }

  function StampRows(es: seq<Entry>, stamps: seq<Entry>): seq<Entry>
    decreases stamps
  {
    if stamps == [] then es else StampRows(StampRow(es, stamps[0].row, stamps[0].ins), stamps[1..])
  }

  /** Disk rows, then pending inserts, then pending deletes. */
  function Overlay<K(==)>(s: DiskState<K>, k: K, insOrder: seq<nat>, delOrder: seq<nat>): seq<Entry> {
    StampRows(OnDisk(RowsAt(s.disk, k)) + Gather(s.pendIns, insOrder, k), Gather(s.pendDel, delOrder, k))
  }

  function VisibleRows(es: seq<Entry>, rd: Reader): seq<int> {
    if es == [] then []
    else (if Visible(es[0].ins, es[0].del, rd) then [es[0].row] else []) + VisibleRows(es[1..], rd)
  }

  /** A hash container may be walked in any order, each key once. */
  ghost predicate Walks(order: seq<nat>, keys: set<nat>) {
    && (forall x :: x in order <==> x in keys)
    && (forall i, j | 0 <= i < j < |order| :: order[i] != order[j])
  }

  // ------------------------------------------------------------ what a lookup contains

  ghost predicate Distinct(es: seq<Entry>) {
    forall i, j | 0 <= i < j < |es| :: es[i].row != es[j].row
  }

  lemma {:induction false} OnDiskMembers(rows: seq<int>)
    ensures forall e :: e in OnDisk(rows) <==> e.row in rows && e.ins == 0 && e.del == NOT_DELETED_ID
    ensures NoRepeats(rows) ==> Distinct(OnDisk(rows))
  {
    if rows != [] {
      OnDiskMembers(rows[1..]);
      var rest := OnDisk(rows[1..]);
      assert OnDisk(rows) == [Entry(rows[0], 0, NOT_DELETED_ID)] + rest;
      if NoRepeats(rows) {
        assert forall i | 0 <= i < |rows| - 1 :: rows[1..][i] == rows[i + 1];
        assert forall e | e in rest :: e.row in rows[1..];
      }
    }
  }

  lemma {:induction false} FiledMembers<K(!new)>(ls: seq<Listing<K>>, k: K, x: nat)
    ensures forall e | e in Filed(ls, k, x) :: Listing(k, e.row) in ls && e.ins == x && e.del == NOT_DELETED_ID
    ensures forall r | Listing(k, r) in ls :: Entry(r, x, NOT_DELETED_ID) in Filed(ls, k, x)
  {
    if ls != [] {
      FiledMembers(ls[1..], k, x);
    }
  }

  lemma {:induction false} FiledDistinct<K(!new)>(ls: seq<Listing<K>>, k: K, x: nat)
    requires OnceEach(ls)
    ensures Distinct(Filed(ls, k, x))
  {
    if ls != [] {
      FiledDistinct(ls[1..], k, x);
      FiledMembers(ls[1..], k, x);
      var rest := Filed(ls[1..], k, x);
      assert Filed(ls, k, x) == (if ls[0].key == k then [Entry(ls[0].row, x, NOT_DELETED_ID)] else []) + rest;
      forall e | e in rest ensures e.row != ls[0].row {
        assert Listing(k, e.row) in ls[1..];
      }
    }
  }

  lemma {:induction false} GatherMembers<K(!new)>(p: Pending<K>, order: seq<nat>, k: K)
    ensures forall e | e in Gather(p, order, k) ::
              e.ins in order && Listing(k, e.row) in Bucket(p, e.ins) && e.del == NOT_DELETED_ID
    ensures forall x, r | x in order && Listing(k, r) in Bucket(p, x) ::
              Entry(r, x, NOT_DELETED_ID) in Gather(p, order, k)
  {
    if order != [] {
      GatherMembers(p, order[1..], k);
      FiledMembers(Bucket(p, order[0]), k, order[0]);
    }
  }

  lemma DistinctConcat(a: seq<Entry>, b: seq<Entry>)
    requires Distinct(a) && Distinct(b)
    requires forall x, y | x in a && y in b :: x.row != y.row
    ensures Distinct(a + b)
  {
  }

  lemma {:induction false} GatherDistinct<K(!new)>(
    p: Pending<K>, t: Table<K>, side: Side, order: seq<nat>, k: K)
    requires Lists(p, t, side)
    requires forall i, j | 0 <= i < j < |order| :: order[i] != order[j]
    ensures Distinct(Gather(p, order, k))
  {
    if order != [] {
      var x := order[0];
      var a, b := Filed(Bucket(p, x), k, x), Gather(p, order[1..], k);
      GatherDistinct(p, t, side, order[1..], k);
      GatherMembers(p, order[1..], k);
      FiledMembers(Bucket(p, x), k, x);
      FiledDistinct(Bucket(p, x), k, x);
      forall u, v | u in a && v in b ensures u.row != v.row {
        assert Listing(k, u.row) in Bucket(p, x) && Listing(k, v.row) in Bucket(p, v.ins);
        assert v.ins in order[1..];
      }
      DistinctConcat(a, b);
    }
  }

  lemma {:induction false} StampRowAt(es: seq<Entry>, row: int, x: nat)
    requires Distinct(es)
    ensures |StampRow(es, row, x)| == |es|
    ensures forall i | 0 <= i < |es| :: StampRow(es, row, x)[i] ==
              if es[i].row == row && es[i].del == NOT_DELETED_ID then es[i].(del := x) else es[i]
  {
    if es != [] && !(es[0].row == row && es[0].del == NOT_DELETED_ID) {
      StampRowAt(es[1..], row, x);
    }
  }

  /** With distinct rows, each entry ends up with the one delete of its row, if there is one. */
  lemma {:induction false} StampRowsAt(es: seq<Entry>, stamps: seq<Entry>)
    requires Distinct(es) && Distinct(stamps)
    requires forall e, d | e in es && d in stamps && e.row == d.row :: e.del == NOT_DELETED_ID
    ensures |StampRows(es, stamps)| == |es|
    ensures forall i | 0 <= i < |es| ::
              StampRows(es, stamps)[i].row == es[i].row && StampRows(es, stamps)[i].ins == es[i].ins
    ensures forall i, d | 0 <= i < |es| && d in stamps && d.row == es[i].row :: StampRows(es, stamps)[i].del == d.ins
    ensures forall i | 0 <= i < |es| && (forall d | d in stamps :: d.row != es[i].row) ::
              StampRows(es, stamps)[i].del == es[i].del
    decreases stamps
  {
    if stamps != [] {
      var d0, rest := stamps[0], stamps[1..];
      var es' := StampRow(es, d0.row, d0.ins);
      StampRowAt(es, d0.row, d0.ins);
      assert d0 in stamps;
      forall d | d in rest ensures d.row != d0.row && d in stamps {
        var j :| 0 <= j < |rest| && rest[j] == d;
        assert stamps[j + 1] == d;
      }
      forall e, d | e in es' && d in rest && e.row == d.row ensures e.del == NOT_DELETED_ID {
        var i :| 0 <= i < |es'| && es'[i] == e;
        assert es[i] in es;
      }
      StampRowsAt(es', rest);
      var res := StampRows(es, stamps);
      forall i, d | 0 <= i < |es| && d in stamps && d.row == es[i].row ensures res[i].del == d.ins {
        assert es[i] in es;
        if d in rest {
          assert es'[i].row == d.row;
        } else {
          assert d == d0;
        }
      }
    }
  }

  /** The stamps a lookup shows for a version: the disk forgets the commit id of the insert. */
  function Shown<K>(r: int, v: Version<K>): Entry {
    Entry(r, if Committed(v) then 0 else v.ins, v.del)
  }

  predicate Present<K>(v: Version<K>) {
    Durable(v) || !Committed(v)
  }

  /** A looked-up entry before the pending deletes are laid over it. */
  predicate Unstamped<K(==)>(e: Entry, t: Table<K>, k: K) {
    && e.row in t && t[e.row].key == k && Present(t[e.row])
    && e == Shown(e.row, t[e.row]).(del := NOT_DELETED_ID)
  }

  lemma DiskPart<K(!new)>(f: Refile<K>, s: DiskState<K>, t: Table<K>, k: K)
    requires Mirrors(f, s, t)
    ensures var a := OnDisk(RowsAt(s.disk, k));
      && Distinct(a)
      && (forall e | e in a :: Unstamped(e, t, k) && Committed(t[e.row]))
      && (forall r | r in t && t[r].key == k && Durable(t[r]) :: Entry(r, 0, NOT_DELETED_ID) in a)
  {
    OnDiskMembers(RowsAt(s.disk, k));
  }

  lemma PendingPart<K(!new)>(f: Refile<K>, s: DiskState<K>, t: Table<K>, k: K, order: seq<nat>)
    requires Mirrors(f, s, t) && Walks(order, s.pendIns.Keys)
    ensures var b := Gather(s.pendIns, order, k);
      && Distinct(b)
      && (forall e | e in b :: Unstamped(e, t, k) && !Committed(t[e.row]))
      && (forall r | r in t && t[r].key == k && !Committed(t[r]) :: Entry(r, t[r].ins, NOT_DELETED_ID) in b)
  {
    GatherMembers(s.pendIns, order, k);
    GatherDistinct(s.pendIns, t, InsSide, order, k);
    forall e | e in Gather(s.pendIns, order, k) ensures Unstamped(e, t, k) && !Committed(t[e.row]) {
      assert Names(t, InsSide, e.ins, Listing(k, e.row));
    }
    forall r | r in t && t[r].key == k && !Committed(t[r])
      ensures Entry(r, t[r].ins, NOT_DELETED_ID) in Gather(s.pendIns, order, k)
    {
      assert GoodVersion(f, t[r]) && Listed(s.pendIns, t, InsSide, r);
      assert t[r].ins in order;
    }
  }

  lemma BaseMembers<K(!new)>(f: Refile<K>, s: DiskState<K>, t: Table<K>, k: K, order: seq<nat>)
    requires Mirrors(f, s, t) && Walks(order, s.pendIns.Keys)
    ensures var base := OnDisk(RowsAt(s.disk, k)) + Gather(s.pendIns, order, k);
      && Distinct(base)
      && (forall e | e in base :: Unstamped(e, t, k))
      && (forall r | r in t && t[r].key == k && Present(t[r]) ::
            Shown(r, t[r]).(del := NOT_DELETED_ID) in base)
  {
    DiskPart(f, s, t, k);
    PendingPart(f, s, t, k, order);
    DistinctConcat(OnDisk(RowsAt(s.disk, k)), Gather(s.pendIns, order, k));
  }

  /** A lookup lists exactly the versions of the key that are not dead for everyone, with their delete. */
  lemma OverlayMembers<K(!new)>(f: Refile<K>, s: DiskState<K>, t: Table<K>, k: K, insOrder: seq<nat>, delOrder: seq<nat>)
    requires Mirrors(f, s, t) && Walks(insOrder, s.pendIns.Keys) && Walks(delOrder, s.pendDel.Keys)
    ensures var es := Overlay(s, k, insOrder, delOrder);
      && Distinct(es)
      && (forall e | e in es :: e.row in t && t[e.row].key == k && Present(t[e.row]) && e == Shown(e.row, t[e.row]))
      && (forall r | r in t && t[r].key == k && Present(t[r]) :: Shown(r, t[r]) in es)
  {
    hide Mirrors, Walks, Gather, OnDisk, StampRows, Unstamped, Distinct, Shown, Present;
    var base := OnDisk(RowsAt(s.disk, k)) + Gather(s.pendIns, insOrder, k);
    BaseMembers(f, s, t, k, insOrder);
    forall j | 0 <= j < |base| ensures base[j].row in t && Unstamped(base[j], t, k) {
      assert base[j] in base;
      UnstampedIsHere(base[j], t, k);
    }
    AllShown(f, s, t, k, delOrder, base);
    ShownMembers(base, Overlay(s, k, insOrder, delOrder), t, k);
  }

  lemma UnstampedIsHere<K>(e: Entry, t: Table<K>, k: K)
    requires Unstamped(e, t, k)
    ensures e.row in t && t[e.row].key == k && Present(t[e.row])
  {
  }

  /** Stamping every base entry with the delete of its row keeps the entries those of the key. */
  lemma ShownMembers<K>(base: seq<Entry>, es: seq<Entry>, t: Table<K>, k: K)
    requires |es| == |base| && forall i | 0 <= i < |base| :: base[i].row in t && Unstamped(base[i], t, k)
    requires forall i | 0 <= i < |base| :: es[i] == Shown(base[i].row, t[base[i].row])
    requires forall r | r in t && t[r].key == k && Present(t[r]) :: Shown(r, t[r]).(del := NOT_DELETED_ID) in base
    ensures forall e | e in es :: e.row in t && t[e.row].key == k && Present(t[e.row]) && e == Shown(e.row, t[e.row])
    ensures forall r | r in t && t[r].key == k && Present(t[r]) :: Shown(r, t[r]) in es
  {
    hide Present, Committed;
    forall e | e in es ensures e.row in t && t[e.row].key == k && Present(t[e.row]) && e == Shown(e.row, t[e.row]) {
      var i :| 0 <= i < |es| && es[i] == e;
      assert Unstamped(base[i], t, k);
    }
    forall r | r in t && t[r].key == k && Present(t[r]) ensures Shown(r, t[r]) in es {
      var i :| 0 <= i < |base| && base[i] == Shown(r, t[r]).(del := NOT_DELETED_ID);
      assert es[i] == Shown(r, t[r]);
    }
  }

  lemma AllShown<K(!new)>(f: Refile<K>, s: DiskState<K>, t: Table<K>, k: K, order: seq<nat>, base: seq<Entry>)
    requires Mirrors(f, s, t) && Walks(order, s.pendDel.Keys)
    requires Distinct(base) && forall j | 0 <= j < |base| :: base[j].row in t && Unstamped(base[j], t, k)
    ensures var es := StampRows(base, Gather(s.pendDel, order, k));
      && |es| == |base| && Distinct(es)
      && forall i | 0 <= i < |base| :: es[i] == Shown(base[i].row, t[base[i].row])
  {
    var es := StampRows(base, Gather(s.pendDel, order, k));
    forall i | 0 <= i < |base| ensures |es| == |base| && es[i] == Shown(base[i].row, t[base[i].row]) {
      ShownAt(f, s, t, k, order, base, i);
    }
    if base == [] {
      GatherDistinct(s.pendDel, t, DelSide, order, k);
      StampRowsAt(base, Gather(s.pendDel, order, k));
    }
  }

  /** The delete stamp of one looked-up entry. */
  lemma ShownAt<K(!new)>(f: Refile<K>, s: DiskState<K>, t: Table<K>, k: K, order: seq<nat>, base: seq<Entry>, i: nat)
    requires Mirrors(f, s, t) && Walks(order, s.pendDel.Keys) && i < |base|
    requires Distinct(base) && forall j | 0 <= j < |base| :: base[j].row in t && Unstamped(base[j], t, k)
    ensures |StampRows(base, Gather(s.pendDel, order, k))| == |base|
    ensures StampRows(base, Gather(s.pendDel, order, k))[i] == Shown(base[i].row, t[base[i].row])
  {
    var stamps := Gather(s.pendDel, order, k);
    GatherMembers(s.pendDel, order, k);
    GatherDistinct(s.pendDel, t, DelSide, order, k);
    StampRowsAt(base, stamps);
    var r := base[i].row;
    assert Unstamped(base[i], t, k);
    var v := t[r];
    assert GoodVersion(f, v);
    if IsTxnId(v.del) {
      assert Listed(s.pendDel, t, DelSide, r);
      assert Entry(r, v.del, NOT_DELETED_ID) in stamps;
    } else {
      forall d | d in stamps ensures d.row != r {
        assert Names(t, DelSide, d.ins, Listing(k, d.row));
      }
    }
  }

  lemma {:induction false} VisibleRowsMembers(es: seq<Entry>, rd: Reader)
    ensures forall r | r in VisibleRows(es, rd) :: exists e | e in es :: e.row == r && Visible(e.ins, e.del, rd)
    ensures forall e | e in es && Visible(e.ins, e.del, rd) :: e.row in VisibleRows(es, rd)
    ensures Distinct(es) ==> NoRepeats(VisibleRows(es, rd))
  {
    if es != [] {
      VisibleRowsMembers(es[1..], rd);
      if Distinct(es) {
        assert Distinct(es[1..]);
        forall r | r in VisibleRows(es[1..], rd) ensures r != es[0].row {
          var e :| e in es[1..] && e.row == r && Visible(e.ins, e.del, rd);
        }
      }
    }
  }

  predicate InSnapshot(rd: Reader) {
    (IsTxnId(rd.txn) || rd.txn == 0) && 0 < rd.start <= TRANSACTION_ID_START
  }

  /** The disk forgot that the insert came after the reader's start. */
  predicate TooNew<K>(v: Version<K>, rd: Reader) {
    Durable(v) && rd.start <= v.ins && v.del != rd.txn
  }

  /** The disk dropped the row though its delete came after the reader's start. */
  predicate TooOld<K>(v: Version<K>, rd: Reader) {
    v.ins < rd.start <= v.del && IsCommitId(v.del)
  }

  ghost predicate Served<K(!new)>(t: Table<K>, k: K, rd: Reader) {
    rd == SEE_COMMITTED || forall r | r in t && t[r].key == k :: !TooNew(t[r], rd) && !TooOld(t[r], rd)
  }

  /** A reader whose start is newer than every commit so far is served. */
  lemma NewestIsServed<K(!new)>(t: Table<K>, k: K, rd: Reader)
    requires forall r | r in t :: (IsCommitId(t[r].ins) ==> t[r].ins < rd.start) && (IsCommitId(t[r].del) ==> t[r].del < rd.start)
    ensures Served(t, k, rd)
  {
  }

  /** What a lookup shows of a row, if anything. */
  predicate LookedUp<K>(v: Version<K>, rd: Reader) {
    Present(v) && Visible(if Committed(v) then 0 else v.ins, v.del, rd)
  }

  lemma LookedUpIff<K(!new)>(f: Refile<K>, v: Version<K>, rd: Reader)
    requires GoodVersion(f, v) && (rd == SEE_COMMITTED || InSnapshot(rd))
    ensures LookedUp(v, rd) == Visible(v.ins, v.del, rd)
            <==> rd == SEE_COMMITTED || (!TooNew(v, rd) && !TooOld(v, rd))
  {
  }

  /** A lookup gives the rows of the key that it shows, each once. */
  lemma LookupRows<K(!new)>(f: Refile<K>, s: DiskState<K>, t: Table<K>, k: K, insOrder: seq<nat>, delOrder: seq<nat>, rd: Reader)
    requires Mirrors(f, s, t) && Walks(insOrder, s.pendIns.Keys) && Walks(delOrder, s.pendDel.Keys)
    ensures var found := VisibleRows(Overlay(s, k, insOrder, delOrder), rd);
      && NoRepeats(found)
      && forall r :: r in found <==> r in t && t[r].key == k && LookedUp(t[r], rd)
  {
    hide Mirrors, Walks, Overlay, VisibleRows, NoRepeats, Distinct;
    var es := Overlay(s, k, insOrder, delOrder);
    OverlayMembers(f, s, t, k, insOrder, delOrder);
    VisibleRowsMembers(es, rd);
    forall r | r in VisibleRows(es, rd) ensures r in t && t[r].key == k && LookedUp(t[r], rd) {
      var e :| e in es && e.row == r && Visible(e.ins, e.del, rd);
    }
    forall r | r in t && t[r].key == k && LookedUp(t[r], rd) ensures r in VisibleRows(es, rd) {
      assert Shown(r, t[r]) in es;
    }
  }

  /** A lookup answers like a scan of the table, whatever order the lists are walked in, exactly for the
      readers that none of the key's rows is too new or too old for. */
  lemma OverlayScanIff<K(!new)>(f: Refile<K>, s: DiskState<K>, t: Table<K>, k: K, insOrder: seq<nat>, delOrder: seq<nat>, rd: Reader)
    requires Mirrors(f, s, t) && Walks(insOrder, s.pendIns.Keys) && Walks(delOrder, s.pendDel.Keys)
    requires rd == SEE_COMMITTED || InSnapshot(rd)
    ensures var found := VisibleRows(Overlay(s, k, insOrder, delOrder), rd);
      && NoRepeats(found)
      && ((set r | r in found) == Scan(t, SameKey(k), rd) <==> Served(t, k, rd))
  {
    hide Overlay, VisibleRows, NoRepeats, Walks, LookedUp, TooNew, TooOld, DiskOverlay.Holds, Lists;
    LookupRows(f, s, t, k, insOrder, delOrder, rd);
    var found, scan := VisibleRows(Overlay(s, k, insOrder, delOrder), rd), Scan(t, SameKey(k), rd);
    forall r | r in t && t[r].key == k
      ensures (r in found <==> r in scan) <==> rd == SEE_COMMITTED || (!TooNew(t[r], rd) && !TooOld(t[r], rd))
    {
      assert GoodVersion(f, t[r]);
      LookedUpIff(f, t[r], rd);
    }
    if (set r | r in found) == scan {
      forall r | r in t && t[r].key == k ensures r in found <==> r in scan {
        assert r in found <==> r in (set q | q in found);
      }
    } else if Served(t, k, rd) {
      forall r ensures r in found <==> r in scan {}
    }
  }

  /** A row inserted and committed after a reader began is shown to it, and a scan does not have it. */
  lemma NewRowIsShown<K>(f: Refile<K>, k: K, r: int, x: nat, c: nat, rd: Reader)
    requires GoodKey(f, k) && IsTxnId(x) && IsCommitId(c) && InSnapshot(rd) && rd.start <= c
    ensures var s := DiskNext(f, DiskNext(f, EmptyDisk(), Step.Insert(k, r, x)), Step.CommitInsert(x, c));
      var t := TableStep(TableStep(map[], Step.Insert(k, r, x)), Step.CommitInsert(x, c));
      VisibleRows(Overlay(s, k, [], []), rd) == [r] && Scan(t, SameKey(k), rd) == {}
  {
    var l := Listing(k, r);
    var d: Disk<K> := map[];
    assert [] + [l] == [l] && [l][1..] == [] && [] + [r] == [r];
    assert PutAll(f, d, [l]) == Put(d, k, r) == map[k := [r]];
    assert [r][1..] == [] && OnDisk([r]) == [Entry(r, 0, NOT_DELETED_ID)] + [];
    var es := [Entry(r, 0, NOT_DELETED_ID)];
    assert es + [] == es && es[1..] == [];
  }

  // ------------------------------------------------------------ the class

  type Bytes = KC.Bytes

  /** The mirror decodes a pending key and encodes it again. */
  function ReEncode(b: Bytes): KC.Result<Bytes> {
    match KC.DecodeKey(b)
    case Ok(v) => if KC.Valid(v) then KC.EncodeKey(v) else KC.Err
    case Err => KC.Err
  }

  /** A key with an encoding is filed again exactly when its bytes can be read back: an enum cannot. */
  lemma ReEncodeIff(v: KC.Value)
    requires KC.Supported(v) || (v.Word? && v.tag.Enum? && KC.Valid(v))
    ensures KC.EncodeKey(v).Ok?
    ensures ReEncode(KC.EncodeKey(v).value) == if v.Word? && v.tag.Enum? then KC.Err else KC.EncodeKey(v)
  {
    hide KC.DecodeKey, KC.EncodeKey, KC.Encode, KC.Pow256, KC.FitsSigned, KC.Normalize;
    if KC.Supported(v) {
      KC.KeyRoundTrip(v);
    } else {
      KC.EnumIsUnreadable(v.n);
    }
  }

  class DiskHashIndex {
    var disk: Disk<Bytes>
    var pendIns: Pending<Bytes>
    var pendDel: Pending<Bytes>

    ghost function State(): DiskState<Bytes>
      reads this
    {
      DiskState(disk, pendIns, pendDel)
    }

    constructor (storage: Disk<Bytes>)
      ensures State() == DiskState(storage, map[], map[])
    {
      disk, pendIns, pendDel := storage, map[], map[];
    }

    /** A key without a codec is refused and nothing changes. */
    method InsertTxn(key: KC.Value, row: int, txn: nat) returns (ok: bool)
      requires KC.Valid(key)
      modifies this
      ensures ok <==> KC.EncodeKey(key).Ok?
      ensures ok ==> State() == DiskNext(ReEncode, old(State()), Step.Insert(KC.EncodeKey(key).value, row, txn))
      ensures !ok ==> State() == old(State())
    {
      var encoded := KC.EncodeDiskKey(KC.Normalize(key));
      match encoded
      case Ok(k) =>
        pendIns := AddListing(pendIns, txn, Listing(k, row));
        ok := true;
      case Err => ok := false;
    }

    method MarkDelete(key: KC.Value, row: int, txn: nat) returns (ok: bool)
      requires KC.Valid(key)
      modifies this
      ensures ok <==> KC.EncodeKey(key).Ok?
      ensures ok ==> State() == DiskNext(ReEncode, old(State()), Step.MarkDelete(KC.EncodeKey(key).value, row, txn))
      ensures !ok ==> State() == old(State())
    {
      var encoded := KC.EncodeDiskKey(KC.Normalize(key));
      match encoded
      case Ok(k) =>
        pendDel := AddListing(pendDel, txn, Listing(k, row));
        ok := true;
      case Err => ok := false;
    }

    /** Puts every pending insert on disk under its re-encoded key, then drops the list. */
    method CommitInsert(txn: nat, commit: nat)
      modifies this
      ensures State() == DiskNext(ReEncode, old(State()), Step.CommitInsert(txn, commit))
    {
      var ls := Bucket(pendIns, txn);
      var i := 0;
      while i < |ls|
        invariant 0 <= i <= |ls| && pendIns == old(pendIns) && pendDel == old(pendDel)
        invariant PutAll(ReEncode, disk, ls[i..]) == PutAll(ReEncode, old(disk), ls)
      {
        assert ls[i..][0] == ls[i] && ls[i..][1..] == ls[i + 1..];
        match ReEncode(ls[i].key) {
          case Ok(k) => disk := Put(disk, k, ls[i].row);
          case Err =>
        }
        i := i + 1;
      }
      pendIns := pendIns - {txn};
    }

    /** Erases every pending delete from disk, then drops the list. */
    method CommitDelete(txn: nat, commit: nat)
      modifies this
      ensures State() == DiskNext(ReEncode, old(State()), Step.CommitDelete(txn, commit))
    {
      var ls := Bucket(pendDel, txn);
      var i := 0;
      while i < |ls|
        invariant 0 <= i <= |ls| && pendIns == old(pendIns) && pendDel == old(pendDel)
        invariant EraseAll(ReEncode, disk, ls[i..]) == EraseAll(ReEncode, old(disk), ls)
      {
        assert ls[i..][0] == ls[i] && ls[i..][1..] == ls[i + 1..];
        match ReEncode(ls[i].key) {
          case Ok(k) => disk := Erase(disk, k, ls[i].row);
          case Err =>
        }
        i := i + 1;
      }
      pendDel := pendDel - {txn};
    }

    method RevertInsert(txn: nat)
      modifies this
      ensures State() == DiskNext(ReEncode, old(State()), Step.RevertInsert(txn))
    {
      pendIns := pendIns - {txn};
    }

    method RevertDelete(txn: nat)
      modifies this
      ensures State() == DiskNext(ReEncode, old(State()), Step.RevertDelete(txn))
    {
      pendDel := pendDel - {txn};
    }

    /** The lookup; also returns the orders in which the pending maps happened to be walked. */
    method Find(k: Bytes) returns (es: seq<Entry>, ghost insOrder: seq<nat>, ghost delOrder: seq<nat>)
      ensures Walks(insOrder, pendIns.Keys) && Walks(delOrder, pendDel.Keys)
      ensures es == Overlay(State(), k, insOrder, delOrder)
    {
      es := DiskRows(if k in disk then disk[k] else []);
      var added;
      added, insOrder := Collect(pendIns, k);
      es := es + added;
      var stamps;
      stamps, delOrder := Collect(pendDel, k);
      es := LayDeletes(es, stamps);
    }

    /** The visible rows of a lookup; "not equal" walks only the entries of the lookup itself. */
    method Search(c: Cmp, key: KC.Value, rd: Reader)
      returns (found: KC.Result<Found>, ghost insOrder: seq<nat>, ghost delOrder: seq<nat>)
      requires KC.Valid(key)
      ensures c.Eq? && KC.EncodeKey(key).Ok? ==> Walks(insOrder, pendIns.Keys) && Walks(delOrder, pendDel.Keys)
      ensures c.Lt? || c.Lte? || c.Gt? || c.Gte? ==> found == KC.Ok(NotSupported)
      ensures c.Other? ==> found == KC.Ok(Rows([]))
      ensures (c.Eq? || c.Ne?) && KC.EncodeKey(key).Err? ==> found == KC.Err
      ensures c.Eq? && KC.EncodeKey(key).Ok? ==>
                found == KC.Ok(Rows(VisibleRows(Overlay(State(), KC.EncodeKey(key).value, insOrder, delOrder), rd)))
      ensures c.Ne? && KC.EncodeKey(key).Ok? ==> found == KC.Ok(Rows([]))
    {
      insOrder, delOrder := [], [];
      if c.Other? {
        found := KC.Ok(Rows([]));
        return;
      }
      if !c.Eq? && !c.Ne? {
        found := KC.Ok(NotSupported);
        return;
      }
      var encoded := KC.EncodeDiskKey(KC.Normalize(key));
      if encoded.Err? {
        found := KC.Err;
        return;
      }
      var es;
      es, insOrder, delOrder := Find(encoded.value);
      if c.Eq? {
        var rows := VisibleOf(es, rd);
        found := KC.Ok(Rows(rows));
      } else {
        var rows := OutsideOf(es, rd);
        found := KC.Ok(Rows(rows));
      }
    }
  }

  method DiskRows(rows: seq<int>) returns (es: seq<Entry>)
    ensures es == OnDisk(rows)
  {
    es := [];
    var i := 0;
    while i < |rows|
      invariant 0 <= i <= |rows|
      invariant es + OnDisk(rows[i..]) == OnDisk(rows)
    {
      assert rows[i..][0] == rows[i] && rows[i..][1..] == rows[i + 1..];
      es := es + [Entry(rows[i], 0, NOT_DELETED_ID)];
      i := i + 1;
    }
  }

  method FiledOf<K(==)>(ls: seq<Listing<K>>, k: K, x: nat) returns (es: seq<Entry>)
    ensures es == Filed(ls, k, x)
  {
    es := [];
    var i := 0;
    while i < |ls|
      invariant 0 <= i <= |ls|
      invariant es + Filed(ls[i..], k, x) == Filed(ls, k, x)
    {
      assert ls[i..][0] == ls[i] && ls[i..][1..] == ls[i + 1..];
      if ls[i].key == k {
        es := es + [Entry(ls[i].row, x, NOT_DELETED_ID)];
      }
      i := i + 1;
    }
  }

  /** Walks a pending map, in whatever order it comes, and keeps what is filed under `k`. */
  method Collect<K(==)>(p: Pending<K>, k: K) returns (es: seq<Entry>, ghost order: seq<nat>)
    ensures Walks(order, p.Keys)
    ensures es == Gather(p, order, k)
  {
    es, order := [], [];
    var todo := p.Keys;
    while todo != {}
      invariant todo <= p.Keys
      invariant Walks(order, p.Keys - todo)
      invariant es == Gather(p, order, k)
      decreases todo
    {
      var x :| x in todo;
      todo := todo - {x};
      var part := FiledOf(p[x], k, x);
      es := es + part;
      GatherAppend(p, order, x, k);
      order := order + [x];
    }
    assert p.Keys - todo == p.Keys;
  }

  lemma {:induction false} GatherAppend<K>(p: Pending<K>, order: seq<nat>, x: nat, k: K)
    ensures Gather(p, order + [x], k) == Gather(p, order, k) + Filed(Bucket(p, x), k, x)
  {
    var last := Filed(Bucket(p, x), k, x);
    if order == [] {
      assert order + [x] == [x] && [x][1..] == [];
      assert Gather(p, [x], k) == last + Gather(p, [], k);
    } else {
      var rest := order[1..];
      GatherAppend(p, rest, x, k);
      assert (order + [x])[1..] == rest + [x];
      ConcatAssoc(Filed(Bucket(p, order[0]), k, order[0]), Gather(p, rest, k), last);
    }
  }

  method LayDeletes(base: seq<Entry>, stamps: seq<Entry>) returns (es: seq<Entry>)
    ensures es == StampRows(base, stamps)
  {
    es := base;
    var i := 0;
    while i < |stamps|
      invariant 0 <= i <= |stamps|
      invariant StampRows(es, stamps[i..]) == StampRows(base, stamps)
    {
      assert stamps[i..][0] == stamps[i] && stamps[i..][1..] == stamps[i + 1..];
      es := StampOne(es, stamps[i].row, stamps[i].ins);
      i := i + 1;
    }
  }

  predicate Stampable(e: Entry, row: int) {
    e.row == row && e.del == NOT_DELETED_ID
  }

  lemma {:induction false} StampRowFirst(es: seq<Entry>, row: int, x: nat, i: nat)
    requires i <= |es| && forall j | 0 <= j < i :: !Stampable(es[j], row)
    requires i < |es| ==> Stampable(es[i], row)
    ensures StampRow(es, row, x) == if i < |es| then es[i := es[i].(del := x)] else es
  {
    if i > 0 {
      StampRowFirst(es[1..], row, x, i - 1);
    }
  }

  method StampOne(es: seq<Entry>, row: int, x: nat) returns (out: seq<Entry>)
    ensures out == StampRow(es, row, x)
  {
    out := es;
    var i := 0;
    while i < |es|
      invariant 0 <= i <= |es| && out == es
      invariant forall j | 0 <= j < i :: !Stampable(es[j], row)
    {
      if es[i].row == row && es[i].del == NOT_DELETED_ID {
        out := es[i := es[i].(del := x)];
        break;
      }
      i := i + 1;
    }
    StampRowFirst(es, row, x, i);
  }

  method VisibleOf(es: seq<Entry>, rd: Reader) returns (rows: seq<int>)
    ensures rows == VisibleRows(es, rd)
  {
    rows := [];
    var i := 0;
    while i < |es|
      invariant 0 <= i <= |es|
      invariant rows + VisibleRows(es[i..], rd) == VisibleRows(es, rd)
    {
      assert es[i..][0] == es[i] && es[i..][1..] == es[i + 1..];
      if Visible(es[i].ins, es[i].del, rd) {
        rows := rows + [es[i].row];
      }
      i := i + 1;
    }
  }

  /** "Not equal" compares the lookup with itself, so it never keeps anything. */
  method OutsideOf(es: seq<Entry>, rd: Reader) returns (rows: seq<int>)
    ensures rows == []
  {
    rows := [];
    var i := 0;
    while i < |es|
      invariant 0 <= i <= |es| && rows == []
    {
      if Visible(es[i].ins, es[i].del, rd) {
        var inEq, j := false, 0;
        while j < |es| && !inEq
          invariant 0 <= j <= |es|
          invariant inEq || j <= i
        {
          inEq := es[j].row == es[i].row;
          j := j + 1;
        }
        if !inEq {
          rows := rows + [es[i].row];
        }
      }
      i := i + 1;
    }
  }
}
