/**
 The state machine shared by the in-memory indexes: stored versions plus, per transaction,
 the list of entries it inserted and the list of entries it marked deleted.

 Commit and revert walk those pending lists and touch, for each listed entry, the first
 stored version that still carries the transaction's stamp.  The specification of the same
 steps ignores the lists and rewrites every version that carries the stamp.  The two agree
 because the lists cover the stamps, which every step keeps.
 */
module IndexModel {
  import opened Mvcc

  /** One stored version. */
  datatype Item<K> = Item(key: K, row: int, ins: nat, del: nat)

  /** One element of a pending list. */
  datatype Listing<K> = Listing(key: K, row: int)

  type Pending<!K> = map<nat, seq<Listing<K>>>

  datatype IndexState<!K> = IndexState(
    storage: seq<Item<K>>, pendIns: Pending<K>, pendDel: Pending<K>)

  function EmptyState<K>(): IndexState<K> {
    IndexState([], map[], map[])
  }

  function Bucket<K>(p: Pending<K>, txn: nat): seq<Listing<K>> {
    if txn in p then p[txn] else []
  }

  function AddListing<K>(p: Pending<K>, txn: nat, l: Listing<K>): Pending<K> {
    p[txn := Bucket(p, txn) + [l]]
  }

  /** Entries are listed in the order they come, each under its own transaction. */
  lemma ListedInOrder<K>(p: Pending<K>, t: nat, l: Listing<K>, m: Listing<K>, u: nat)
    ensures Bucket(AddListing(AddListing(p, t, l), t, m), t) == Bucket(p, t) + [l, m]
    ensures u != t ==> Bucket(AddListing(p, t, l), u) == Bucket(p, u)
  {
    assert Bucket(p, t) + [l] + [m] == Bucket(p, t) + [l, m];
  }

  // ---------------------------------------------------------------- edits

  /** What a step does to one version: replace a stamp, or erase the version. */
  datatype Edit = StampIns(to: nat) | StampDel(to: nat) | EraseIns

  datatype Side = InsSide | DelSide

  function SideOf(e: Edit): Side {
    if e.StampDel? then DelSide else InsSide
  }

  predicate Carries<K>(it: Item<K>, side: Side, id: nat) {
    if side.InsSide? then it.ins == id else it.del == id
  }

  /** The version after the edit, as a sequence of at most one. */
  function Edited<K>(it: Item<K>, e: Edit): seq<Item<K>> {
    match e
    case StampIns(c) => [it.(ins := c)]
    case StampDel(c) => [it.(del := c)]
    case EraseIns => []
  }

  predicate Hit<K(==)>(it: Item<K>, l: Listing<K>, side: Side, id: nat) {
    it.key == l.key && it.row == l.row && Carries(it, side, id)
  }

  /** Edits the first version of the listed entry that carries `id`. */
  function EditFirst<K(==)>(items: seq<Item<K>>, l: Listing<K>, e: Edit, id: nat): seq<Item<K>> {
    if items == [] then []
    else if Hit(items[0], l, SideOf(e), id) then Edited(items[0], e) + items[1..]
    else [items[0]] + EditFirst(items[1..], l, e, id)
  }

  /** The loop of commit and revert: one EditFirst per pending entry. */
  function EditListed<K(==)>(items: seq<Item<K>>, ls: seq<Listing<K>>, e: Edit, id: nat): seq<Item<K>>
    decreases ls
  {
    if ls == [] then items
    else EditListed(EditFirst(items, ls[0], e, id), ls[1..], e, id)
  }

  /** The meaning of commit and revert: every version that carries `id`. */
  function EditAll<K>(items: seq<Item<K>>, e: Edit, id: nat): seq<Item<K>> {
    if items == [] then []
    else (if Carries(items[0], SideOf(e), id) then Edited(items[0], e) else [items[0]])
         + EditAll(items[1..], e, id)
  }

  predicate HasLive<K(==)>(items: seq<Item<K>>, l: Listing<K>) {
    exists i | 0 <= i < |items| :: Hit(items[i], l, DelSide, NOT_DELETED_ID)
  }

  predicate Expired<K>(it: Item<K>, low: nat) {
    it.del < low && it.del < TRANSACTION_ID_START
  }

  /** Cleanup drops the versions whose delete committed before every active start. */
  function Sweep<K>(items: seq<Item<K>>, low: nat): seq<Item<K>> {
    if items == [] then []
    else (if Expired(items[0], low) then [] else [items[0]]) + Sweep(items[1..], low)
  }

  // ---------------------------------------------------------------- steps

  datatype Step<K> =
    | Load(key: K, row: int)
    | Insert(key: K, row: int, txn: nat)
    | MarkDelete(key: K, row: int, txn: nat)
    | CommitInsert(txn: nat, commit: nat)
    | CommitDelete(txn: nat, commit: nat)
    | RevertInsert(txn: nat)
    | RevertDelete(txn: nat)
    | Cleanup(low: nat)

  ghost predicate InsertedAt<K>(items: seq<Item<K>>, it: Item<K>, items': seq<Item<K>>, p: nat) {
    p <= |items| && items' == items[..p] + [it] + items[p..]
  }

  /** An ordered container puts a new version somewhere between the others. */
  ghost predicate InsertedSomewhere<K>(items: seq<Item<K>>, it: Item<K>, items': seq<Item<K>>) {
    exists p :: InsertedAt(items, it, items', p)
  }

  ghost predicate Permuted<K>(a: seq<Item<K>>, b: seq<Item<K>>) {
    multiset(a) == multiset(b)
  }

  /** Any container holds one version more; a hash container may have reordered all of them. */
  ghost predicate Added<K>(items: seq<Item<K>>, it: Item<K>, items': seq<Item<K>>) {
    Permuted(items + [it], items')
  }

  lemma InsertedIsAdded<K>(items: seq<Item<K>>, it: Item<K>, items': seq<Item<K>>)
    requires InsertedSomewhere(items, it, items')
    ensures Added(items, it, items')
  {
    var p: nat :| InsertedAt(items, it, items', p);
    assert items == items[..p] + items[p..];
  }

  lemma DropAt<T>(b: seq<T>, j: nat)
    requires j < |b|
    ensures multiset(b[..j] + b[j + 1..]) == multiset(b) - multiset{b[j]}
  {
    assert b == b[..j] + [b[j]] + b[j + 1..];
  }

  lemma DropHead<T>(a: seq<T>)
    requires a != []
    ensures multiset(a[1..]) == multiset(a) - multiset{a[0]}
  {
    assert a == [a[0]] + a[1..];
  }

  lemma HeadIsIn<T>(a: seq<T>)
    requires a != []
    ensures multiset(a)[a[0]] > 0
  {
    assert a[0] in multiset(a);
  }

  lemma PutBack<K>(b: seq<Item<K>>, j: nat)
    requires j < |b|
    ensures InsertedAt(b[..j] + b[j + 1..], b[j], b, j)
  {
    var rest := b[..j] + b[j + 1..];
    assert rest[..j] == b[..j] && rest[j..] == b[j + 1..];
  }

  lemma FindIn<T>(x: T, b: seq<T>) returns (j: nat)
    requires multiset(b)[x] > 0
    ensures j < |b| && b[j] == x
  {
    assert x in multiset(b);
    j :| 0 <= j < |b| && b[j] == x;
  }

  /** A permutation has the first version somewhere, and permutes the others. */
  lemma TakeOut<K>(a: seq<Item<K>>, b: seq<Item<K>>) returns (j: nat)
    requires a != [] && Permuted(a, b)
    ensures j < |b| && b[j] == a[0] && Permuted(a[1..], b[..j] + b[j + 1..])
    ensures InsertedAt(b[..j] + b[j + 1..], a[0], b, j)
  {
    HeadIsIn(a);
    j := FindIn(a[0], b);
    DropHead(a);
    DropAt(b, j);
    PutBack(b, j);
  }

  /** One step of an index. */
  ghost predicate Next<K>(s: IndexState<K>, a: Step<K>, s': IndexState<K>) {
    match a
    case Load(k, r) =>
      && Added(s.storage, Item(k, r, 0, NOT_DELETED_ID), s'.storage)
      && s'.pendIns == s.pendIns && s'.pendDel == s.pendDel
    case Insert(k, r, t) =>
      && Added(s.storage, Item(k, r, t, NOT_DELETED_ID), s'.storage)
      && s'.pendIns == AddListing(s.pendIns, t, Listing(k, r)) && s'.pendDel == s.pendDel
    case MarkDelete(k, r, t) =>
      if HasLive(s.storage, Listing(k, r)) then
        s' == s.(storage := EditFirst(s.storage, Listing(k, r), StampDel(t), NOT_DELETED_ID),
                 pendDel := AddListing(s.pendDel, t, Listing(k, r)))
      else s' == s
    case CommitInsert(t, c) =>
      s' == s.(storage := EditListed(s.storage, Bucket(s.pendIns, t), StampIns(c), t),
               pendIns := s.pendIns - {t})
    case CommitDelete(t, c) =>
      s' == s.(storage := EditListed(s.storage, Bucket(s.pendDel, t), StampDel(c), t),
               pendDel := s.pendDel - {t})
    case RevertInsert(t) =>
      s' == s.(storage := EditListed(s.storage, Bucket(s.pendIns, t), EraseIns, t),
               pendIns := s.pendIns - {t})
    case RevertDelete(t) =>
      s' == s.(storage := EditListed(s.storage, Bucket(s.pendDel, t), StampDel(NOT_DELETED_ID), t),
               pendDel := s.pendDel - {t})
    case Cleanup(low) =>
      s' == s.(storage := Sweep(s.storage, low),
               pendDel := map t | t in s.pendDel && !(t < low && t < TRANSACTION_ID_START) :: s.pendDel[t])
  }

  predicate LegalIds<K>(a: Step<K>) {
    match a
    case Load(_, _) => true
    case Insert(_, _, t) => IsTxnId(t)
    case MarkDelete(_, _, t) => IsTxnId(t)
    case CommitInsert(t, c) => IsTxnId(t) && IsCommitId(c)
    case CommitDelete(t, c) => IsTxnId(t) && IsCommitId(c)
    case RevertInsert(t) => IsTxnId(t)
    case RevertDelete(t) => IsTxnId(t)
    case Cleanup(_) => true
  }

  // ------------------------------------------------ pending lists cover stamps

  /** How many versions of the entry `l` carry `id` on `side`. */
  ghost function Count<K>(items: seq<Item<K>>, l: Listing<K>, side: Side, id: nat): nat {
    if items == [] then 0
    else (if Hit(items[0], l, side, id) then 1 else 0) + Count(items[1..], l, side, id)
  }

  /** The list `ls` names every version that carries `id`, with multiplicity. */
  ghost predicate Covers<K(!new)>(ls: seq<Listing<K>>, items: seq<Item<K>>, side: Side, id: nat) {
    forall l :: Count(items, l, side, id) <= multiset(ls)[l]
  }

  ghost predicate Clean<K(!new)>(items: seq<Item<K>>, side: Side, id: nat) {
    forall it | it in items :: !Carries(it, side, id)
  }

  lemma {:induction false} CountConcat<K>(a: seq<Item<K>>, b: seq<Item<K>>, l: Listing<K>, side: Side, id: nat)
    ensures Count(a + b, l, side, id) == Count(a, l, side, id) + Count(b, l, side, id)
  {
    if a == [] {
      assert a + b == b;
    } else {
      CountConcat(a[1..], b, l, side, id);
      assert (a + b)[1..] == a[1..] + b;
    }
  }

  /** Editing one version adds no carrier except of the new stamp. */
  lemma {:induction false} EditFirstCount<K>(
    items: seq<Item<K>>, l: Listing<K>, e: Edit, id: nat, m: Listing<K>, side: Side, t: nat)
    requires e.EraseIns? || side != SideOf(e) || e.to != t
    ensures Count(EditFirst(items, l, e, id), m, side, t) <= Count(items, m, side, t)
  {
    if items != [] {
      if Hit(items[0], l, SideOf(e), id) {
        CountConcat(Edited(items[0], e), items[1..], m, side, t);
      } else {
        EditFirstCount(items[1..], l, e, id, m, side, t);
        CountConcat([items[0]], EditFirst(items[1..], l, e, id), m, side, t);
      }
    }
  }

  lemma {:induction false} EditListedCount<K>(
    items: seq<Item<K>>, ls: seq<Listing<K>>, e: Edit, id: nat, m: Listing<K>, side: Side, t: nat)
    requires e.EraseIns? || side != SideOf(e) || e.to != t
    ensures Count(EditListed(items, ls, e, id), m, side, t) <= Count(items, m, side, t)
    decreases ls
  {
    if ls != [] {
      EditFirstCount(items, ls[0], e, id, m, side, t);
      EditListedCount(EditFirst(items, ls[0], e, id), ls[1..], e, id, m, side, t);
    }
  }

  /** Editing one version uses up one carrier of the old stamp, if there is one. */
  lemma {:induction false} EditFirstUses<K>(items: seq<Item<K>>, l: Listing<K>, e: Edit, id: nat)
    requires e.EraseIns? || e.to != id
    ensures Count(EditFirst(items, l, e, id), l, SideOf(e), id) <=
            if Count(items, l, SideOf(e), id) == 0 then 0 else Count(items, l, SideOf(e), id) - 1
  {
    if items != [] {
      if Hit(items[0], l, SideOf(e), id) {
        CountConcat(Edited(items[0], e), items[1..], l, SideOf(e), id);
      } else {
        EditFirstUses(items[1..], l, e, id);
        CountConcat([items[0]], EditFirst(items[1..], l, e, id), l, SideOf(e), id);
      }
    }
  }

  lemma {:induction false} EditFirstThenAll<K>(items: seq<Item<K>>, l: Listing<K>, e: Edit, id: nat)
    requires e.EraseIns? || e.to != id
    ensures EditAll(EditFirst(items, l, e, id), e, id) == EditAll(items, e, id)
  {
    if items != [] {
      var it := items[0];
      var after := EditFirst(items, l, e, id);
      if Hit(it, l, SideOf(e), id) {
        if e.EraseIns? {
          assert after == items[1..];
        } else {
          assert after[0] == Edited(it, e)[0] && after[1..] == items[1..];
        }
      } else {
        EditFirstThenAll(items[1..], l, e, id);
        assert after[0] == it && after[1..] == EditFirst(items[1..], l, e, id);
      }
    }
  }

  lemma {:induction false} UncountedIsClean<K(!new)>(items: seq<Item<K>>, side: Side, id: nat)
    requires forall l :: Count(items, l, side, id) == 0
    ensures Clean(items, side, id)
  {
    if items != [] {
      assert Count(items, Listing(items[0].key, items[0].row), side, id) == 0;
      forall l ensures Count(items[1..], l, side, id) == 0 {
        assert Count(items, l, side, id) == 0;
      }
      UncountedIsClean(items[1..], side, id);
    }
  }

  lemma {:induction false} CleanNoEdit<K(!new)>(items: seq<Item<K>>, e: Edit, id: nat)
    requires Clean(items, SideOf(e), id)
    ensures EditAll(items, e, id) == items
  {
    if items != [] {
      CleanNoEdit(items[1..], e, id);
    }
  }

  /** The pending-list loop does what the specification says, whenever the list covers the stamps. */
  lemma {:induction false} EditListedIsEditAll<K(!new)>(items: seq<Item<K>>, ls: seq<Listing<K>>, e: Edit, id: nat)
    requires Covers(ls, items, SideOf(e), id)
    requires e.EraseIns? || e.to != id
    ensures EditListed(items, ls, e, id) == EditAll(items, e, id)
    ensures Clean(EditListed(items, ls, e, id), SideOf(e), id)
    decreases ls
  {
    if ls == [] {
      forall l ensures Count(items, l, SideOf(e), id) == 0 {
        assert multiset(ls)[l] == 0;
      }
      UncountedIsClean(items, SideOf(e), id);
      CleanNoEdit(items, e, id);
    } else {
      var items' := EditFirst(items, ls[0], e, id);
      forall l ensures Count(items', l, SideOf(e), id) <= multiset(ls[1..])[l] {
        assert ls == [ls[0]] + ls[1..];
        assert Count(items, l, SideOf(e), id) <= multiset(ls)[l];
        EditFirstUses(items, ls[0], e, id);
        EditFirstCount(items, ls[0], e, id, l, SideOf(e), id);
      }
      EditFirstThenAll(items, ls[0], e, id);
      EditListedIsEditAll(items', ls[1..], e, id);
    }
  }

  lemma {:induction false} SweepCount<K>(items: seq<Item<K>>, low: nat, l: Listing<K>, side: Side, t: nat)
    ensures Count(Sweep(items, low), l, side, t) <= Count(items, l, side, t)
  {
    if items != [] {
      SweepCount(items[1..], low, l, side, t);
      CountConcat(if Expired(items[0], low) then [] else [items[0]], Sweep(items[1..], low), l, side, t);
    }
  }

  lemma CountAt<K>(items: seq<Item<K>>, it: Item<K>, items': seq<Item<K>>, p: nat, l: Listing<K>, side: Side, t: nat)
    requires InsertedAt(items, it, items', p)
    ensures Count(items', l, side, t) == Count(items, l, side, t) + Count([it], l, side, t)
  {
    CountConcat(items[..p] + [it], items[p..], l, side, t);
    CountConcat(items[..p], [it], l, side, t);
    CountConcat(items[..p], items[p..], l, side, t);
    assert items == items[..p] + items[p..];
  }

  lemma {:induction false} CountPermuted<K>(a: seq<Item<K>>, b: seq<Item<K>>, l: Listing<K>, side: Side, t: nat)
    requires Permuted(a, b)
    ensures Count(a, l, side, t) == Count(b, l, side, t)
  {
    if a != [] {
      var j := TakeOut(a, b);
      CountPermuted(a[1..], b[..j] + b[j + 1..], l, side, t);
      CountAt(b[..j] + b[j + 1..], a[0], b, j, l, side, t);
    }
  }

  lemma InsertCount<K>(items: seq<Item<K>>, it: Item<K>, items': seq<Item<K>>, l: Listing<K>, side: Side, t: nat)
    requires Added(items, it, items')
    ensures Count(items', l, side, t) == Count(items, l, side, t) + Count([it], l, side, t)
  {
    CountPermuted(items + [it], items', l, side, t);
    CountConcat(items, [it], l, side, t);
  }

  /** Every stamp of transaction `t` is listed, with multiplicity, in its pending lists. */
  ghost predicate Covered<K(!new)>(s: IndexState<K>, t: nat) {
    && Covers(Bucket(s.pendIns, t), s.storage, InsSide, t)
    && Covers(Bucket(s.pendDel, t), s.storage, DelSide, t)
  }

  ghost predicate Inv<K(!new)>(s: IndexState<K>) {
    forall t | IsTxnId(t) :: Covered(s, t)
  }

  lemma {:induction false} MarkCount<K>(items: seq<Item<K>>, l: Listing<K>, m: Listing<K>, t: nat)
    requires t != NOT_DELETED_ID
    ensures Count(EditFirst(items, l, StampDel(t), NOT_DELETED_ID), m, DelSide, t)
            <= Count(items, m, DelSide, t) + if m == l then 1 else 0
  {
    if items != [] {
      if Hit(items[0], l, DelSide, NOT_DELETED_ID) {
        CountConcat(Edited(items[0], StampDel(t)), items[1..], m, DelSide, t);
      } else {
        MarkCount(items[1..], l, m, t);
        CountConcat([items[0]], EditFirst(items[1..], l, StampDel(t), NOT_DELETED_ID), m, DelSide, t);
      }
    }
  }

  /** One more version stays covered when the list grows by its entry, or it does not carry the id. */
  lemma InsertKeepsCovers<K(!new)>(
    items: seq<Item<K>>, it: Item<K>, items': seq<Item<K>>, side: Side, t: nat, ls: seq<Listing<K>>, ls': seq<Listing<K>>)
    requires Covers(ls, items, side, t) && Added(items, it, items')
    requires ls' == if Carries(it, side, t) then ls + [Listing(it.key, it.row)] else ls
    ensures Covers(ls', items', side, t)
  {
    forall l ensures Count(items', l, side, t) <= multiset(ls')[l] {
      InsertCount(items, it, items', l, side, t);
      assert Count(items, l, side, t) <= multiset(ls)[l];
    }
  }

  lemma InsertKeepsCovered<K(!new)>(s: IndexState<K>, a: Step<K>, s': IndexState<K>, t: nat)
    requires Covered(s, t) && Next(s, a, s') && IsTxnId(t)
    requires a.Load? || a.Insert?
    ensures Covered(s', t)
  {
    hide Covers, Added;
    var it := Item(a.key, a.row, if a.Load? then 0 else a.txn, NOT_DELETED_ID);
    InsertKeepsCovers(s.storage, it, s'.storage, InsSide, t, Bucket(s.pendIns, t), Bucket(s'.pendIns, t));
    InsertKeepsCovers(s.storage, it, s'.storage, DelSide, t, Bucket(s.pendDel, t), Bucket(s'.pendDel, t));
  }

  lemma MarkKeepsCovered<K(!new)>(s: IndexState<K>, a: Step<K>, s': IndexState<K>, t: nat)
    requires Covered(s, t) && Next(s, a, s') && IsTxnId(t)
    requires a.MarkDelete?
    ensures Covered(s', t)
  {
    var l := Listing(a.key, a.row);
    if HasLive(s.storage, l) {
      forall m ensures Count(s'.storage, m, InsSide, t) <= multiset(Bucket(s'.pendIns, t))[m] {
        EditFirstCount(s.storage, l, StampDel(a.txn), NOT_DELETED_ID, m, InsSide, t);
        assert Count(s.storage, m, InsSide, t) <= multiset(Bucket(s.pendIns, t))[m];
      }
      forall m ensures Count(s'.storage, m, DelSide, t) <= multiset(Bucket(s'.pendDel, t))[m] {
        assert Count(s.storage, m, DelSide, t) <= multiset(Bucket(s.pendDel, t))[m];
        if t == a.txn {
          MarkCount(s.storage, l, m, t);
        } else {
          EditFirstCount(s.storage, l, StampDel(a.txn), NOT_DELETED_ID, m, DelSide, t);
        }
      }
    }
  }

  predicate Resolves<K>(a: Step<K>) {
    a.CommitInsert? || a.CommitDelete? || a.RevertInsert? || a.RevertDelete?
  }

  /** The edit a commit or revert performs. */
  function EditOf<K>(a: Step<K>): Edit
    requires Resolves(a)
  {
    match a
    case CommitInsert(_, c) => StampIns(c)
    case CommitDelete(_, c) => StampDel(c)
    case RevertInsert(_) => EraseIns
    case RevertDelete(_) => StampDel(NOT_DELETED_ID)
  }

  /** On a covered state, commit and revert rewrite every version of the transaction, and leave none. */
  lemma ResolveIsEditAll<K(!new)>(s: IndexState<K>, a: Step<K>, s': IndexState<K>)
    requires Inv(s) && LegalIds(a) && Next(s, a, s') && Resolves(a)
    ensures s'.storage == EditAll(s.storage, EditOf(a), a.txn)
    ensures Clean(s'.storage, SideOf(EditOf(a)), a.txn)
  {
    assert Covered(s, a.txn);
    EditListedIsEditAll(s.storage,
      Bucket(if SideOf(EditOf(a)).InsSide? then s.pendIns else s.pendDel, a.txn), EditOf(a), a.txn);
  }

  lemma {:induction false} CleanCount<K(!new)>(items: seq<Item<K>>, l: Listing<K>, side: Side, t: nat)
    requires Clean(items, side, t)
    ensures Count(items, l, side, t) == 0
  {
    if items != [] {
      CleanCount(items[1..], l, side, t);
    }
  }

  lemma ResolveKeepsCovered<K(!new)>(s: IndexState<K>, a: Step<K>, s': IndexState<K>, t: nat)
    requires Inv(s) && LegalIds(a) && Next(s, a, s') && IsTxnId(t) && Resolves(a)
    ensures Covered(s', t)
  {
    assert Covered(s, t);
    ResolveIsEditAll(s, a, s');
    var e := EditOf(a);
    var ls := Bucket(if SideOf(e).InsSide? then s.pendIns else s.pendDel, a.txn);
    assert s'.storage == EditListed(s.storage, ls, e, a.txn);
    forall m ensures Count(s'.storage, m, InsSide, t) <= multiset(Bucket(s'.pendIns, t))[m] {
      assert Count(s.storage, m, InsSide, t) <= multiset(Bucket(s.pendIns, t))[m];
      EditListedCount(s.storage, ls, e, a.txn, m, InsSide, t);
      if t == a.txn && SideOf(e).InsSide? { CleanCount(s'.storage, m, InsSide, t); }
    }
    forall m ensures Count(s'.storage, m, DelSide, t) <= multiset(Bucket(s'.pendDel, t))[m] {
      assert Count(s.storage, m, DelSide, t) <= multiset(Bucket(s.pendDel, t))[m];
      EditListedCount(s.storage, ls, e, a.txn, m, DelSide, t);
      if t == a.txn && SideOf(e).DelSide? { CleanCount(s'.storage, m, DelSide, t); }
    }
  }

  lemma CleanupKeepsCovered<K(!new)>(s: IndexState<K>, a: Step<K>, s': IndexState<K>, t: nat)
    requires Covered(s, t) && Next(s, a, s') && IsTxnId(t) && a.Cleanup?
    ensures Covered(s', t)
    ensures Bucket(s'.pendIns, t) == Bucket(s.pendIns, t) && Bucket(s'.pendDel, t) == Bucket(s.pendDel, t)
  {
    forall m ensures Count(s'.storage, m, InsSide, t) <= multiset(Bucket(s'.pendIns, t))[m] {
      assert Count(s.storage, m, InsSide, t) <= multiset(Bucket(s.pendIns, t))[m];
      SweepCount(s.storage, a.low, m, InsSide, t);
    }
    forall m ensures Count(s'.storage, m, DelSide, t) <= multiset(Bucket(s'.pendDel, t))[m] {
      assert Count(s.storage, m, DelSide, t) <= multiset(Bucket(s.pendDel, t))[m];
      SweepCount(s.storage, a.low, m, DelSide, t);
    }
  }

  /** Every step keeps the pending lists of every active transaction covering its stamps. */
  lemma StepKeepsInv<K(!new)>(s: IndexState<K>, a: Step<K>, s': IndexState<K>)
    requires Inv(s) && LegalIds(a) && Next(s, a, s')
    ensures Inv(s')
  {
    forall t | IsTxnId(t) ensures Covered(s', t) {
      assert Covered(s, t);
      if a.Load? || a.Insert? {
        InsertKeepsCovered(s, a, s', t);
      } else if a.MarkDelete? {
        MarkKeepsCovered(s, a, s', t);
      } else if a.Cleanup? {
        CleanupKeepsCovered(s, a, s', t);
      } else {
        ResolveKeepsCovered(s, a, s', t);
      }
    }
  }
}
