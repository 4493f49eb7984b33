/**
 The disk-backed hash index.  Committed entries live in a disk multimap from key bytes to
 row ids, without stamps; only pending entries are kept in memory.  A lookup reads the disk
 rows and lays the pending inserts and deletes over them.

 Commit first mirrors the pending inserts to disk and drops them, then, in a step of its own,
 mirrors the pending deletes and drops them; other transactions may work and read in between.
 Abort likewise drops the inserts first and the deletes later.  Under that protocol storage and
 pending lists stay a mirror of the versioned table.
 */
module DiskOverlay {
  import opened Mvcc
  import opened IndexModel
  import opened TableRefinement
  import KC = KeyCodec

  type Disk<!K> = map<K, seq<int>>

  datatype DiskState<!K> = DiskState(disk: Disk<K>, pendIns: Pending<K>, pendDel: Pending<K>)

  function EmptyDisk<K>(): DiskState<K> {
    DiskState(map[], map[], map[])
  }

  /** How the mirror turns a pending key into the key it files: decode it, then encode it again. */
  type Refile<!K> = K -> KC.Result<K>

  /** A key that the mirror files where lookups read. */
  predicate GoodKey<K(==)>(f: Refile<K>, k: K) {
    f(k) == KC.Ok(k)
  }

  // ------------------------------------------------------------ the disk multimap

  function RowsAt<K(==)>(d: Disk<K>, k: K): seq<int> {
    if k in d then d[k] else []
  }

  function Put<K(==)>(d: Disk<K>, k: K, row: int): Disk<K> {
    if row in RowsAt(d, k) then d else d[k := RowsAt(d, k) + [row]]
  }

  function Drop(rows: seq<int>, row: int): seq<int> {
    if rows == [] then []
    else (if rows[0] == row then [] else [rows[0]]) + Drop(rows[1..], row)
  }

  function Erase<K(==)>(d: Disk<K>, k: K, row: int): Disk<K> {
    if row !in RowsAt(d, k) then d
    else if Drop(d[k], row) == [] then d - {k}
    else d[k := Drop(d[k], row)]
  }

  function PutAll<K(==)>(f: Refile<K>, d: Disk<K>, ls: seq<Listing<K>>): Disk<K>
    decreases ls
  {
    if ls == [] then d
    else PutAll(f, match f(ls[0].key) case Ok(k) => Put(d, k, ls[0].row) case Err => d, ls[1..])
  }

  function EraseAll<K(==)>(f: Refile<K>, d: Disk<K>, ls: seq<Listing<K>>): Disk<K>
    decreases ls
  {
    if ls == [] then d
    else EraseAll(f, match f(ls[0].key) case Ok(k) => Erase(d, k, ls[0].row) case Err => d, ls[1..])
  }

  // ------------------------------------------------------------ steps

  function MirrorInserts<K(==)>(f: Refile<K>, s: DiskState<K>, x: nat): DiskState<K> {
    s.(disk := PutAll(f, s.disk, Bucket(s.pendIns, x)), pendIns := s.pendIns - {x})
  }

  function MirrorDeletes<K(==)>(f: Refile<K>, s: DiskState<K>, x: nat): DiskState<K> {
    s.(disk := EraseAll(f, s.disk, Bucket(s.pendDel, x)), pendDel := s.pendDel - {x})
  }

  /** One step; keys are what the disk files entries under.  Loading and cleanup do nothing. */
  function DiskNext<K(==)>(f: Refile<K>, s: DiskState<K>, a: Step<K>): DiskState<K> {
    match a
    case Load(_, _) => s
    case Insert(k, r, x) => s.(pendIns := AddListing(s.pendIns, x, Listing(k, r)))
    case MarkDelete(k, r, x) => s.(pendDel := AddListing(s.pendDel, x, Listing(k, r)))
    case CommitInsert(x, _) => MirrorInserts(f, s, x)
    case CommitDelete(x, _) => MirrorDeletes(f, s, x)
    case RevertInsert(x) => s.(pendIns := s.pendIns - {x})
    case RevertDelete(x) => s.(pendDel := s.pendDel - {x})
    case Cleanup(_) => s
  }

  /** What a step leaves alone: loading and cleanup everything, other steps all but what is theirs. */
  lemma DiskStepFrame<K(!new)>(f: Refile<K>, s: DiskState<K>, a: Step<K>)
    ensures var d := DiskNext(f, s, a);
      && (a.Load? || a.Cleanup? ==> d == s)
      && (!a.CommitInsert? && !a.CommitDelete? ==> d.disk == s.disk)
      && (a.Insert? || a.CommitInsert? || a.RevertInsert? ==> d.pendDel == s.pendDel)
      && (a.MarkDelete? || a.CommitDelete? || a.RevertDelete? ==> d.pendIns == s.pendIns)
      && (forall t | !a.Load? && !a.Cleanup? && t != a.txn ::
            Bucket(d.pendIns, t) == Bucket(s.pendIns, t) && Bucket(d.pendDel, t) == Bucket(s.pendDel, t))
      && (a.RevertInsert? || a.CommitInsert? ==> Bucket(d.pendIns, a.txn) == [])
      && (a.RevertDelete? || a.CommitDelete? ==> Bucket(d.pendDel, a.txn) == [])
  {
  }

  predicate Committed<K>(v: Version<K>) {
    v.ins < TRANSACTION_ID_START
  }

  /** No list names the row. */
  ghost predicate Unlisted<K(!new)>(p: Pending<K>, r: int) {
    forall x, l | l in Bucket(p, x) :: l.row != r
  }

  /** Inserts use rows unknown to the table and to pending deletes; a delete targets a live row that its
      transaction can see; the inserts of a transaction are committed before its deletes. */
  ghost predicate LegalStep<K(!new)>(f: Refile<K>, s: DiskState<K>, t: Table<K>, a: Step<K>) {
    match a
    case Load(_, _) => false
    case Insert(k, r, x) => GoodKey(f, k) && r !in t && Unlisted(s.pendDel, r) && IsTxnId(x)
    case MarkDelete(k, r, x) =>
      && IsTxnId(x)
      && r in t && t[r].key == k && t[r].del == NOT_DELETED_ID
      && (Committed(t[r]) || t[r].ins == x)
    case CommitInsert(x, c) => IsTxnId(x) && IsCommitId(c)
    case CommitDelete(x, c) => IsTxnId(x) && IsCommitId(c) && Bucket(s.pendIns, x) == []
    case RevertInsert(x) => IsTxnId(x)
    case RevertDelete(x) => IsTxnId(x)
    case Cleanup(_) => true
  }

  // ------------------------------------------------------------ the abstraction

  function Stamp<K>(v: Version<K>, side: Side): nat {
    if side.InsSide? then v.ins else v.del
  }

  ghost predicate GoodVersion<K(!new)>(f: Refile<K>, v: Version<K>) {
    && GoodKey(f, v.key)
    && (Committed(v) || IsTxnId(v.ins))
    && (IsCommitId(v.del) || IsTxnId(v.del) || v.del == NOT_DELETED_ID)
    && (!Committed(v) ==> v.del == NOT_DELETED_ID || v.del == v.ins)
  }

  predicate Durable<K>(v: Version<K>) {
    Committed(v) && v.del >= TRANSACTION_ID_START
  }

  /** The listing names a version with this stamp.  A delete may also name a row whose insert has been
      reverted already. */
  predicate Names<K(==)>(t: Table<K>, side: Side, x: nat, l: Listing<K>) {
    && IsTxnId(x)
    && (l.row in t ==> Stamp(t[l.row], side) == x && t[l.row].key == l.key)
    && (side.InsSide? ==> l.row in t)
  }

  ghost predicate OnceEach<K(!new)>(ls: seq<Listing<K>>) {
    forall i, j | 0 <= i < j < |ls| :: ls[i].row != ls[j].row
  }

  ghost predicate Listed<K(!new)>(p: Pending<K>, t: Table<K>, side: Side, r: int)
    requires r in t
  {
    Listing(t[r].key, r) in Bucket(p, Stamp(t[r], side))
  }

  /** No row is listed by two transactions. */
  ghost predicate OneLister<K(!new)>(p: Pending<K>) {
    forall x, y, l, m | l in Bucket(p, x) && m in Bucket(p, y) && l.row == m.row :: x == y
  }

  /** The pending lists name exactly the versions stamped by their transaction, each once. */
  ghost predicate Lists<K(!new)>(p: Pending<K>, t: Table<K>, side: Side) {
    && (forall x, l | l in Bucket(p, x) :: Names(t, side, x, l))
    && (forall r | r in t && IsTxnId(Stamp(t[r], side)) :: Listed(p, t, side, r))
    && (forall x :: OnceEach(Bucket(p, x)))
    && OneLister(p)
  }

  /** The disk holds exactly the durable versions, each once under its key. */
  ghost predicate Holds<K(!new)>(d: Disk<K>, t: Table<K>)
  {
    && (forall k, r | r in RowsAt(d, k) :: r in t && Durable(t[r]) && t[r].key == k)
    && (forall r | r in t && Durable(t[r]) :: r in RowsAt(d, t[r].key))
    && (forall k :: NoRepeats(RowsAt(d, k)))
  }

  /** Every listed key is one that the mirror files under the same key. */
  ghost predicate AllFiled<K(!new)>(f: Refile<K>, ls: seq<Listing<K>>) {
    forall l | l in ls :: GoodKey(f, l.key)
  }

  ghost predicate Mirrors<K(!new)>(f: Refile<K>, s: DiskState<K>, t: Table<K>) {
    && (forall r | r in t :: GoodVersion(f, t[r]))
    && Holds(s.disk, t)
    && Lists(s.pendIns, t, InsSide)
    && Lists(s.pendDel, t, DelSide)
    && (forall x :: AllFiled(f, Bucket(s.pendIns, x)) && AllFiled(f, Bucket(s.pendDel, x)))
  }

  // ------------------------------------------------------------ the disk operations

  lemma {:induction false} DropMember(rows: seq<int>, row: int, r: int)
    ensures r in Drop(rows, row) <==> r in rows && r != row
  {
    if rows != [] {
      DropMember(rows[1..], row, r);
    }
  }

  lemma {:induction false} DropOnce(rows: seq<int>, row: int)
    requires NoRepeats(rows)
    ensures NoRepeats(Drop(rows, row))
  {
    if rows != [] {
      DropOnce(rows[1..], row);
      DropMember(rows[1..], row, rows[0]);
      assert Drop(rows, row) == (if rows[0] == row then [] else [rows[0]]) + Drop(rows[1..], row);
    }
  }

  lemma EraseMember<K(!new)>(d: Disk<K>, k: K, row: int, j: K, r: int)
    ensures r in RowsAt(Erase(d, k, row), j) <==> r in RowsAt(d, j) && !(j == k && r == row)
  {
    DropMember(RowsAt(d, j), row, r);
  }

  lemma {:induction false} PutAllMember<K(!new)>(f: Refile<K>, d: Disk<K>, ls: seq<Listing<K>>, j: K, r: int)
    requires AllFiled(f, ls)
    ensures r in RowsAt(PutAll(f, d, ls), j) <==> r in RowsAt(d, j) || Listing(j, r) in ls
    decreases ls
  {
    if ls != [] {
      assert GoodKey(f, ls[0].key);
      PutAllMember(f, Put(d, ls[0].key, ls[0].row), ls[1..], j, r);
    }
  }

  lemma {:induction false} PutAllOnce<K(!new)>(f: Refile<K>, d: Disk<K>, ls: seq<Listing<K>>, j: K)
    requires AllFiled(f, ls) && NoRepeats(RowsAt(d, j))
    ensures NoRepeats(RowsAt(PutAll(f, d, ls), j))
    decreases ls
  {
    if ls != [] {
      assert GoodKey(f, ls[0].key);
      PutAllOnce(f, Put(d, ls[0].key, ls[0].row), ls[1..], j);
    }
  }

  lemma {:induction false} EraseAllMember<K(!new)>(f: Refile<K>, d: Disk<K>, ls: seq<Listing<K>>, j: K, r: int)
    requires AllFiled(f, ls)
    ensures r in RowsAt(EraseAll(f, d, ls), j) <==> r in RowsAt(d, j) && Listing(j, r) !in ls
    decreases ls
  {
    if ls != [] {
      assert GoodKey(f, ls[0].key);
      EraseMember(d, ls[0].key, ls[0].row, j, r);
      EraseAllMember(f, Erase(d, ls[0].key, ls[0].row), ls[1..], j, r);
    }
  }

  lemma {:induction false} EraseAllOnce<K(!new)>(f: Refile<K>, d: Disk<K>, ls: seq<Listing<K>>, j: K)
    requires AllFiled(f, ls) && NoRepeats(RowsAt(d, j))
    ensures NoRepeats(RowsAt(EraseAll(f, d, ls), j))
    decreases ls
  {
    if ls != [] {
      assert GoodKey(f, ls[0].key);
      DropOnce(RowsAt(d, j), ls[0].row);
      EraseAllOnce(f, Erase(d, ls[0].key, ls[0].row), ls[1..], j);
    }
  }

  // ------------------------------------------------------------ one step

  lemma ListedKeysFiled<K(!new)>(f: Refile<K>, p: Pending<K>, x: nat, l: Listing<K>)
    requires (forall y :: AllFiled(f, Bucket(p, y))) && GoodKey(f, l.key)
    ensures forall y :: AllFiled(f, Bucket(AddListing(p, x, l), y))
  {
    forall y ensures AllFiled(f, Bucket(AddListing(p, x, l), y)) {
      assert AllFiled(f, Bucket(p, y));
    }
  }

  lemma OneListerAdd<K(!new)>(p: Pending<K>, x: nat, l: Listing<K>)
    requires OneLister(p) && Unlisted(p, l.row) && forall y :: OnceEach(Bucket(p, y))
    ensures OneLister(AddListing(p, x, l)) && forall y :: OnceEach(Bucket(AddListing(p, x, l), y))
  {
    var p' := AddListing(p, x, l);
    assert Bucket(p', x) == Bucket(p, x) + [l];
    assert forall y | y != x :: Bucket(p', y) == Bucket(p, y);
    forall y ensures OnceEach(Bucket(p', y)) {
      assert OnceEach(Bucket(p, y));
      assert forall m | m in Bucket(p, y) :: m.row != l.row;
    }
    forall y, z, m, n | m in Bucket(p', y) && n in Bucket(p', z) && m.row == n.row ensures y == z {
      assert m in Bucket(p, y) || (y == x && m == l);
      assert n in Bucket(p, z) || (z == x && n == l);
    }
  }

  /** Stamping one row of the table and listing it keeps the lists exact. */
  lemma ListsAdd<K(!new)>(p: Pending<K>, t: Table<K>, t': Table<K>, side: Side, r: int, x: nat)
    requires Lists(p, t, side) && IsTxnId(x)
    requires r in t ==> !IsTxnId(Stamp(t[r], side))
    requires side.DelSide? ==> r in t
    requires t'.Keys == t.Keys + {r} && (forall q | q in t && q != r :: t'[q] == t[q])
    requires Stamp(t'[r], side) == x
    ensures Lists(AddListing(p, x, Listing(t'[r].key, r)), t', side)
  {
    var l0 := Listing(t'[r].key, r);
    var p' := AddListing(p, x, l0);
    assert forall y | y != x :: Bucket(p', y) == Bucket(p, y);
    assert Bucket(p', x) == Bucket(p, x) + [l0];
    forall y, l | l in Bucket(p, y) ensures l.row != r {
      assert Names(t, side, y, l);
    }
    forall y, l | l in Bucket(p', y) ensures Names(t', side, y, l) {
      if l in Bucket(p, y) {
        assert Names(t, side, y, l);
      }
    }
    forall q | q in t' && IsTxnId(Stamp(t'[q], side)) ensures Listed(p', t', side, q) {
      if q != r {
        assert Listed(p, t, side, q);
      }
    }
    OneListerAdd(p, x, l0);
  }

  /** A change of the table that touches no stamp of this side leaves the lists exact.  Rows that
      pending deletes name may go, but not come. */
  lemma ListsKept<K(!new)>(p: Pending<K>, t: Table<K>, t': Table<K>, side: Side)
    requires Lists(p, t, side)
    requires forall q | q in t && IsTxnId(Stamp(t[q], side)) ::
               if q in t' then t'[q].key == t[q].key && Stamp(t'[q], side) == Stamp(t[q], side) else side.DelSide?
    requires forall q | q in t' && IsTxnId(Stamp(t'[q], side)) :: q in t && IsTxnId(Stamp(t[q], side))
    requires forall q | q in t' && q !in t :: Unlisted(p, q)
    ensures Lists(p, t', side)
  {
    forall x, l | l in Bucket(p, x) ensures Names(t', side, x, l) {
      assert Names(t, side, x, l);
      assert l.row in t' ==> l.row in t || Unlisted(p, l.row);
    }
    forall q | q in t' && IsTxnId(Stamp(t'[q], side)) ensures Listed(p, t', side, q) {
      assert Listed(p, t, side, q);
    }
  }

  /** Dropping one transaction's list, with all its stamps of this side gone, keeps the lists exact. */
  lemma ListsRemoved<K(!new)>(p: Pending<K>, t: Table<K>, t': Table<K>, side: Side, x: nat)
    requires Lists(p, t, side) && t'.Keys <= t.Keys
    requires forall q | q in t && IsTxnId(Stamp(t[q], side)) && Stamp(t[q], side) != x ::
               q in t' && t'[q].key == t[q].key && Stamp(t'[q], side) == Stamp(t[q], side)
    requires forall q | q in t' && IsTxnId(Stamp(t'[q], side)) ::
               q in t && Stamp(t[q], side) == Stamp(t'[q], side) && Stamp(t[q], side) != x && t'[q].key == t[q].key
    ensures Lists(p - {x}, t', side)
  {
    var p' := p - {x};
    assert forall y | y != x :: Bucket(p', y) == Bucket(p, y);
    assert Bucket(p', x) == [];
    forall y, l | l in Bucket(p', y) ensures Names(t', side, y, l) {
      assert Names(t, side, y, l);
    }
    forall q | q in t' && IsTxnId(Stamp(t'[q], side)) ensures Listed(p', t', side, q) {
      assert Listed(p, t, side, q);
    }
    forall y ensures OnceEach(Bucket(p', y)) {
      assert OnceEach(Bucket(p, y));
    }
    forall y, z, l, m | l in Bucket(p', y) && m in Bucket(p', z) && l.row == m.row ensures y == z {
      assert l in Bucket(p, y) && m in Bucket(p, z);
    }
  }

  lemma FiledWithout<K(!new)>(f: Refile<K>, p: Pending<K>, x: nat)
    requires forall y :: AllFiled(f, Bucket(p, y))
    ensures forall y :: AllFiled(f, Bucket(p - {x}, y))
  {
    forall y ensures AllFiled(f, Bucket(p - {x}, y)) {
      assert AllFiled(f, Bucket(p, y));
    }
  }

  lemma HoldsKept<K(!new)>(d: Disk<K>, t: Table<K>, t': Table<K>)
    requires Holds(d, t)
    requires forall q | q in t && Durable(t[q]) :: q in t' && Durable(t'[q]) && t'[q].key == t[q].key
    requires forall q | q in t' && Durable(t'[q]) :: q in t && Durable(t[q])
    ensures Holds(d, t')
  {
  }

  lemma InsertMirrors<K(!new)>(f: Refile<K>, s: DiskState<K>, t: Table<K>, a: Step<K>)
    requires Mirrors(f, s, t) && LegalStep(f, s, t, a) && a.Insert?
    ensures Mirrors(f, DiskNext(f, s, a), TableStep(t, a))
  {
    hide Lists, Holds, AllFiled, Unlisted;
    var t' := t[a.row := Version(a.key, a.txn, NOT_DELETED_ID)];
    assert forall q | q in t' :: GoodVersion(f, t'[q]);
    HoldsKept(s.disk, t, t');
    ListsAdd(s.pendIns, t, t', InsSide, a.row, a.txn);
    ListsKept(s.pendDel, t, t', DelSide);
    ListedKeysFiled(f, s.pendIns, a.txn, Listing(a.key, a.row));
  }

  lemma MarkMirrors<K(!new)>(f: Refile<K>, s: DiskState<K>, t: Table<K>, a: Step<K>)
    requires Mirrors(f, s, t) && LegalStep(f, s, t, a) && a.MarkDelete?
    ensures Mirrors(f, DiskNext(f, s, a), TableStep(t, a))
  {
    hide Lists, Holds, AllFiled, Unlisted;
    var t' := t[a.row := t[a.row].(del := a.txn)];
    assert GoodVersion(f, t[a.row]);
    assert forall q | q in t' :: GoodVersion(f, t'[q]);
    HoldsKept(s.disk, t, t');
    ListsAdd(s.pendDel, t, t', DelSide, a.row, a.txn);
    ListsKept(s.pendIns, t, t', InsSide);
    ListedKeysFiled(f, s.pendDel, a.txn, Listing(a.key, a.row));
  }

  /** Putting the inserts of a transaction makes the disk hold the table after their commit. */
  lemma PutHolds<K(!new)>(f: Refile<K>, d: Disk<K>, ls: seq<Listing<K>>, t: Table<K>, t': Table<K>)
    requires Holds(d, t) && AllFiled(f, ls)
    requires forall l | l in ls :: l.row in t' && Durable(t'[l.row]) && t'[l.row].key == l.key
    requires forall r | r in t && Durable(t[r]) :: r in t' && Durable(t'[r]) && t'[r].key == t[r].key
    requires forall r | r in t' && Durable(t'[r]) ::
               (r in t && Durable(t[r]) && t[r].key == t'[r].key) || Listing(t'[r].key, r) in ls
    ensures Holds(PutAll(f, d, ls), t')
  {
    hide PutAll;
    var d' := PutAll(f, d, ls);
    forall k ensures NoRepeats(RowsAt(d', k)) {
      PutAllOnce(f, d, ls, k);
    }
    forall k, r | r in RowsAt(d', k) ensures r in t' && Durable(t'[r]) && t'[r].key == k {
      PutAllMember(f, d, ls, k, r);
    }
    forall r | r in t' && Durable(t'[r]) ensures r in RowsAt(d', t'[r].key) {
      PutAllMember(f, d, ls, t'[r].key, r);
    }
  }

  /** Erasing the deletes of a transaction makes the disk hold the table after their commit. */
  lemma EraseHolds<K(!new)>(f: Refile<K>, d: Disk<K>, ls: seq<Listing<K>>, t: Table<K>, t': Table<K>)
    requires Holds(d, t) && AllFiled(f, ls)
    requires forall r | r in t && Durable(t[r]) && Listing(t[r].key, r) !in ls ::
               r in t' && Durable(t'[r]) && t'[r].key == t[r].key
    requires forall r | r in t' && Durable(t'[r]) ::
               r in t && Durable(t[r]) && t[r].key == t'[r].key && Listing(t[r].key, r) !in ls
    ensures Holds(EraseAll(f, d, ls), t')
  {
    hide EraseAll;
    var d' := EraseAll(f, d, ls);
    forall k ensures NoRepeats(RowsAt(d', k)) {
      EraseAllOnce(f, d, ls, k);
    }
    forall k, r | r in RowsAt(d', k) ensures r in t' && Durable(t'[r]) && t'[r].key == k {
      EraseAllMember(f, d, ls, k, r);
    }
    forall r | r in t' && Durable(t'[r]) ensures r in RowsAt(d', t'[r].key) {
      EraseAllMember(f, d, ls, t'[r].key, r);
    }
  }

  /** The lists of one transaction name its stamps. */
  lemma NamedAre<K(!new)>(p: Pending<K>, t: Table<K>, side: Side, x: nat)
    requires Lists(p, t, side) && IsTxnId(x)
    ensures forall r | r in t :: Listing(t[r].key, r) in Bucket(p, x) <==> Stamp(t[r], side) == x
    ensures side.InsSide? ==> forall l | l in Bucket(p, x) :: l.row in t && t[l.row].key == l.key && t[l.row].ins == x
  {
    forall r | r in t ensures Listing(t[r].key, r) in Bucket(p, x) <==> Stamp(t[r], side) == x {
      if Listing(t[r].key, r) in Bucket(p, x) {
        assert Names(t, side, x, Listing(t[r].key, r));
      } else {
        assert IsTxnId(Stamp(t[r], side)) ==> Listed(p, t, side, r);
      }
    }
    forall l | l in Bucket(p, x) ensures Names(t, side, x, l) {}
  }

  lemma MirrorInsertsMirrors<K(!new)>(f: Refile<K>, s: DiskState<K>, t: Table<K>, x: nat, c: nat)
    requires Mirrors(f, s, t) && IsTxnId(x) && IsCommitId(c)
    ensures Mirrors(f, MirrorInserts(f, s, x), TableStep(t, CommitInsert(x, c)))
  {
    hide Lists, Holds, PutAll, GoodKey;
    var t' := TableStep(t, CommitInsert(x, c));
    var ls := Bucket(s.pendIns, x);
    assert forall q | q in t' :: GoodVersion(f, t[q]) && GoodVersion(f, t'[q]);
    NamedAre(s.pendIns, t, InsSide, x);
    PutHolds(f, s.disk, ls, t, t');
    ListsRemoved(s.pendIns, t, t', InsSide, x);
    ListsKept(s.pendDel, t, t', DelSide);
    FiledWithout(f, s.pendIns, x);
  }

  lemma MirrorDeletesMirrors<K(!new)>(f: Refile<K>, s: DiskState<K>, t: Table<K>, x: nat, c: nat)
    requires Mirrors(f, s, t) && IsTxnId(x) && IsCommitId(c) && Bucket(s.pendIns, x) == []
    ensures Mirrors(f, MirrorDeletes(f, s, x), TableStep(t, CommitDelete(x, c)))
  {
    hide Lists, Holds, EraseAll, GoodKey;
    var t' := TableStep(t, CommitDelete(x, c));
    var ls := Bucket(s.pendDel, x);
    NamedAre(s.pendIns, t, InsSide, x);
    NamedAre(s.pendDel, t, DelSide, x);
    assert forall q | q in t' :: GoodVersion(f, t[q]) && GoodVersion(f, t'[q]);
    EraseHolds(f, s.disk, ls, t, t');
    ListsKept(s.pendIns, t, t', InsSide);
    ListsRemoved(s.pendDel, t, t', DelSide, x);
    FiledWithout(f, s.pendDel, x);
  }

  lemma RevertInsertMirrors<K(!new)>(f: Refile<K>, s: DiskState<K>, t: Table<K>, x: nat)
    requires Mirrors(f, s, t) && IsTxnId(x)
    ensures Mirrors(f, DiskNext(f, s, RevertInsert(x)), TableStep(t, RevertInsert(x)))
  {
    hide Lists, Holds, AllFiled, Unlisted, GoodKey;
    var t' := TableStep(t, RevertInsert(x));
    assert forall q | q in t' :: GoodVersion(f, t[q]);
    HoldsKept(s.disk, t, t');
    ListsRemoved(s.pendIns, t, t', InsSide, x);
    ListsKept(s.pendDel, t, t', DelSide);
    FiledWithout(f, s.pendIns, x);
  }

  lemma RevertDeleteMirrors<K(!new)>(f: Refile<K>, s: DiskState<K>, t: Table<K>, x: nat)
    requires Mirrors(f, s, t) && IsTxnId(x)
    ensures Mirrors(f, DiskNext(f, s, RevertDelete(x)), TableStep(t, RevertDelete(x)))
  {
    hide Lists, Holds, AllFiled, Unlisted, GoodKey;
    var t' := TableStep(t, RevertDelete(x));
    assert forall q | q in t' :: GoodVersion(f, t[q]) && GoodVersion(f, t'[q]);
    HoldsKept(s.disk, t, t');
    ListsKept(s.pendIns, t, t', InsSide);
    ListsRemoved(s.pendDel, t, t', DelSide, x);
    FiledWithout(f, s.pendDel, x);
  }

  /** One step of the disk index is the same step of the table. */
  lemma DiskStepMirrors<K(!new)>(f: Refile<K>, s: DiskState<K>, t: Table<K>, a: Step<K>)
    requires Mirrors(f, s, t) && LegalStep(f, s, t, a)
    ensures Mirrors(f, DiskNext(f, s, a), TableStep(t, a))
  {
    hide Mirrors;
    match a
    case Insert(_, _, _) => InsertMirrors(f, s, t, a);
    case MarkDelete(_, _, _) => MarkMirrors(f, s, t, a);
    case CommitInsert(x, c) => MirrorInsertsMirrors(f, s, t, x, c);
    case CommitDelete(x, c) => MirrorDeletesMirrors(f, s, t, x, c);
    case RevertInsert(x) => RevertInsertMirrors(f, s, t, x);
    case RevertDelete(x) => RevertDeleteMirrors(f, s, t, x);
    case Cleanup(_) =>
  }
}
