/**
 A naive versioned table, one version per row id, and the proof that an index built by any
 run of steps answers searches exactly like a scan of that table.

 The table never forgets: cleanup is a no-op on it.  An index that was cleaned up with
 thresholds up to `low` still answers every reader whose start time is at least `low`,
 and the reader of committed rows.
 */
module TableRefinement {
  import opened Mvcc
  import opened IndexModel

  datatype Version<K> = Version(key: K, ins: nat, del: nat)

  type Table<!K> = map<int, Version<K>>

  function TableStep<K(==)>(t: Table<K>, a: Step<K>): Table<K> {
    match a
    case Load(k, r) => t[r := Version(k, 0, NOT_DELETED_ID)]
    case Insert(k, r, x) => t[r := Version(k, x, NOT_DELETED_ID)]
    case MarkDelete(k, r, x) =>
      if r in t && t[r].key == k && t[r].del == NOT_DELETED_ID then t[r := t[r].(del := x)] else t
    case CommitInsert(x, c) => map r | r in t :: if t[r].ins == x then t[r].(ins := c) else t[r]
    case CommitDelete(x, c) => map r | r in t :: if t[r].del == x then t[r].(del := c) else t[r]
    case RevertInsert(x) => map r | r in t && t[r].ins != x :: t[r]
    case RevertDelete(x) => map r | r in t :: if t[r].del == x then t[r].(del := NOT_DELETED_ID) else t[r]
    case Cleanup(_) => t
  }

  function TableAfter<K(==)>(steps: seq<Step<K>>): Table<K> {
    if steps == [] then map[]
    else TableStep(TableAfter(steps[..|steps| - 1]), steps[|steps| - 1])
  }

  /** Row ids are never shared by two versions. */
  predicate FreshRow<K>(t: Table<K>, a: Step<K>) {
    a.Load? || a.Insert? ==> a.row !in t
  }

  predicate Legal<K>(t: Table<K>, a: Step<K>, low: nat) {
    LegalIds(a) && FreshRow(t, a) && (a.Cleanup? ==> a.low <= low)
  }

  /** What a scan of the table shows a reader. */
  ghost function Scan<K>(t: Table<K>, want: K -> bool, rd: Reader): set<int> {
    set r | r in t && want(t[r].key) && Visible(t[r].ins, t[r].del, rd)
  }

  // ------------------------------------------------------------ search results

  /** The rows of the versions that satisfy `p`, in storage order. */
  function Select<K>(items: seq<Item<K>>, p: Item<K> -> bool): seq<int> {
    if items == [] then []
    else (if p(items[0]) then [items[0].row] else []) + Select(items[1..], p)
  }

  function Wanted<K>(want: K -> bool, rd: Reader): Item<K> -> bool {
    (it: Item<K>) => want(it.key) && Visible(it.ins, it.del, rd)
  }

  ghost predicate NoRepeats(rows: seq<int>) {
    forall i, j | 0 <= i < j < |rows| :: rows[i] != rows[j]
  }

  // ------------------------------------------------------------ the abstraction

  ghost predicate DistinctRows<K>(items: seq<Item<K>>) {
    forall i, j | 0 <= i < j < |items| :: items[i].row != items[j].row
  }

  ghost predicate HasRow<K>(items: seq<Item<K>>, r: int) {
    exists it | it in items :: it.row == r
  }

  function VersionOf<K>(it: Item<K>): Version<K> {
    Version(it.key, it.ins, it.del)
  }

  /** The stored versions are table versions, and only expired versions are missing. */
  ghost predicate Refines<K>(items: seq<Item<K>>, t: Table<K>, low: nat) {
    && DistinctRows(items)
    && (forall it | it in items :: it.row in t && t[it.row] == VersionOf(it))
    && (forall r | r in t :: HasRow(items, r) || (t[r].del < low && t[r].del < TRANSACTION_ID_START))
  }

  // ------------------------------------------------------------ what the edits keep

  lemma {:induction false} EditAllMembers<K>(items: seq<Item<K>>, e: Edit, id: nat)
    ensures forall x | x in EditAll(items, e, id) ::
              exists it | it in items :: if Carries(it, SideOf(e), id) then x in Edited(it, e) else x == it
    ensures forall it | it in items ::
              if Carries(it, SideOf(e), id) then forall x | x in Edited(it, e) :: x in EditAll(items, e, id)
              else it in EditAll(items, e, id)
  {
    if items != [] {
      EditAllMembers(items[1..], e, id);
    }
  }

  lemma {:induction false} EditAllDistinct<K>(items: seq<Item<K>>, e: Edit, id: nat)
    requires DistinctRows(items)
    ensures DistinctRows(EditAll(items, e, id))
  {
    if items != [] {
      var rest := EditAll(items[1..], e, id);
      EditAllDistinct(items[1..], e, id);
      EditAllMembers(items[1..], e, id);
      var head := if Carries(items[0], SideOf(e), id) then Edited(items[0], e) else [items[0]];
      assert EditAll(items, e, id) == head + rest;
      forall x | x in rest ensures x.row != items[0].row {
        var it :| it in items[1..] && if Carries(it, SideOf(e), id) then x in Edited(it, e) else x == it;
        assert x.row == it.row;
      }
    }
  }

  /** With distinct rows an entry has one version, so editing the first edits the only one. */
  lemma {:induction false} EditFirstMembers<K>(items: seq<Item<K>>, l: Listing<K>, e: Edit, id: nat)
    requires DistinctRows(items)
    ensures forall x | x in EditFirst(items, l, e, id) ::
              exists it | it in items :: if Hit(it, l, SideOf(e), id) then x in Edited(it, e) else x == it
    ensures forall it | it in items ::
              if Hit(it, l, SideOf(e), id) then forall x | x in Edited(it, e) :: x in EditFirst(items, l, e, id)
              else it in EditFirst(items, l, e, id)
  {
    if items != [] {
      if Hit(items[0], l, SideOf(e), id) {
        forall it | it in items[1..] ensures it.row != items[0].row {
          var i :| 0 <= i < |items[1..]| && items[1..][i] == it;
          assert items[i + 1] == it;
        }
        forall x | x in EditFirst(items, l, e, id)
          ensures exists it | it in items :: if Hit(it, l, SideOf(e), id) then x in Edited(it, e) else x == it
        {
          if x in Edited(items[0], e) {
            assert items[0] in items;
          } else {
            assert x in items[1..] && x in items && !Hit(x, l, SideOf(e), id);
          }
        }
      } else {
        EditFirstMembers(items[1..], l, e, id);
      }
    }
  }

  lemma {:induction false} EditFirstDistinct<K>(items: seq<Item<K>>, l: Listing<K>, e: Edit, id: nat)
    requires DistinctRows(items)
    ensures DistinctRows(EditFirst(items, l, e, id))
  {
    if items != [] {
      if Hit(items[0], l, SideOf(e), id) {
      } else {
        var rest := EditFirst(items[1..], l, e, id);
        EditFirstDistinct(items[1..], l, e, id);
        EditFirstMembers(items[1..], l, e, id);
        assert EditFirst(items, l, e, id) == [items[0]] + rest;
        forall x | x in rest ensures x.row != items[0].row {
          var it :| it in items[1..] && if Hit(it, l, SideOf(e), id) then x in Edited(it, e) else x == it;
          assert x.row == it.row;
        }
      }
    }
  }

  lemma {:induction false} SweepMembers<K>(items: seq<Item<K>>, low: nat)
    ensures forall x | x in Sweep(items, low) :: x in items && !Expired(x, low)
    ensures forall x | x in items && !Expired(x, low) :: x in Sweep(items, low)
  {
    if items != [] {
      SweepMembers(items[1..], low);
    }
  }

  lemma {:induction false} SweepDistinct<K>(items: seq<Item<K>>, low: nat)
    requires DistinctRows(items)
    ensures DistinctRows(Sweep(items, low))
  {
    if items != [] {
      SweepDistinct(items[1..], low);
      SweepMembers(items[1..], low);
      var rest := Sweep(items[1..], low);
      assert Sweep(items, low) == (if Expired(items[0], low) then [] else [items[0]]) + rest;
      forall x | x in rest ensures x.row != items[0].row {
        assert x in items[1..];
      }
    }
  }

  // ------------------------------------------------------------ one step

  lemma InsertDistinct<K>(s: seq<Item<K>>, it: Item<K>, s': seq<Item<K>>, p: nat)
    requires DistinctRows(s) && InsertedAt(s, it, s', p) && !HasRow(s, it.row)
    ensures DistinctRows(s')
  {
  }

  lemma PermutedMembers<K>(a: seq<Item<K>>, b: seq<Item<K>>)
    requires Permuted(a, b)
    ensures forall x :: x in a <==> x in b
  {
    assert forall x :: x in a <==> x in multiset(a);
    assert forall x :: x in b <==> x in multiset(b);
  }

  lemma {:induction false} PermutedDistinct<K>(a: seq<Item<K>>, b: seq<Item<K>>)
    requires Permuted(a, b) && DistinctRows(a)
    ensures DistinctRows(b)
  {
    if a != [] {
      var j := TakeOut(a, b);
      var rest := b[..j] + b[j + 1..];
      PermutedDistinct(a[1..], rest);
      PermutedMembers(a[1..], rest);
      forall x | x in rest ensures x.row != a[0].row {
        assert x in a[1..];
      }
      InsertDistinct(rest, a[0], b, j);
    } else {
      assert |multiset(a)| == |multiset(b)|;
    }
  }

  lemma InsertRefines<K>(s: seq<Item<K>>, it: Item<K>, s': seq<Item<K>>, t: Table<K>, low: nat)
    requires Refines(s, t, low) && Added(s, it, s') && it.row !in t
    ensures Refines(s', t[it.row := VersionOf(it)], low)
  {
    hide Permuted;
    InsertDistinct(s, it, s + [it], |s|);
    PermutedDistinct(s + [it], s');
    PermutedMembers(s + [it], s');
    var t' := t[it.row := VersionOf(it)];
    forall r | r in t' ensures HasRow(s', r) || (t'[r].del < low && t'[r].del < TRANSACTION_ID_START) {
      if r == it.row {
        assert it in s + [it];
      } else if HasRow(s, r) {
        var x :| x in s && x.row == r;
        assert x in s + [it];
      }
    }
  }

  lemma MarkRefines<K>(s: IndexState<K>, a: Step<K>, s': IndexState<K>, t: Table<K>, low: nat)
    requires Refines(s.storage, t, low) && Next(s, a, s') && a.MarkDelete?
    ensures Refines(s'.storage, TableStep(t, a), low)
  {
    var l := Listing(a.key, a.row);
    var t' := TableStep(t, a);
    if HasLive(s.storage, l) {
      var e := StampDel(a.txn);
      EditFirstMembers(s.storage, l, e, NOT_DELETED_ID);
      EditFirstDistinct(s.storage, l, e, NOT_DELETED_ID);
      forall r | r in t'
        ensures HasRow(s'.storage, r) || (t'[r].del < low && t'[r].del < TRANSACTION_ID_START)
      {
        if HasRow(s.storage, r) {
          var it :| it in s.storage && it.row == r;
          if Hit(it, l, DelSide, NOT_DELETED_ID) {
            assert it.(del := a.txn) in Edited(it, e);
          }
        }
      }
      forall x | x in s'.storage ensures x.row in t' && t'[x.row] == VersionOf(x) {
        var it :| it in s.storage && if Hit(it, l, DelSide, NOT_DELETED_ID) then x in Edited(it, e) else x == it;
      }
    }
  }

  /** Rewriting every version of a transaction does to the storage what the step does to the table. */
  lemma ResolveRefines<K(!new)>(s: IndexState<K>, a: Step<K>, s': IndexState<K>, t: Table<K>, low: nat)
    requires Inv(s) && Refines(s.storage, t, low) && Next(s, a, s') && LegalIds(a) && Resolves(a)
    ensures Refines(s'.storage, TableStep(t, a), low)
  {
    hide Next, Inv, EditAll;
    ResolveIsEditAll(s, a, s');
    var e := EditOf(a);
    var t' := TableStep(t, a);
    EditAllMembers(s.storage, e, a.txn);
    EditAllDistinct(s.storage, e, a.txn);
    forall x | x in s'.storage ensures x.row in t' && t'[x.row] == VersionOf(x) {
      var it :| it in s.storage && if Carries(it, SideOf(e), a.txn) then x in Edited(it, e) else x == it;
    }
    forall r | r in t'
      ensures HasRow(s'.storage, r) || (t'[r].del < low && t'[r].del < TRANSACTION_ID_START)
    {
      if HasRow(s.storage, r) {
        var it :| it in s.storage && it.row == r;
        if Carries(it, SideOf(e), a.txn) {
          assert Edited(it, e) != [] ==> Edited(it, e)[0] in Edited(it, e);
        }
      }
    }
  }

  lemma CleanupRefines<K>(s: IndexState<K>, a: Step<K>, s': IndexState<K>, t: Table<K>, low: nat)
    requires Refines(s.storage, t, low) && Next(s, a, s') && a.Cleanup? && a.low <= low
    ensures Refines(s'.storage, t, low)
  {
    SweepMembers(s.storage, a.low);
    SweepDistinct(s.storage, a.low);
    forall r | r in t
      ensures HasRow(s'.storage, r) || (t[r].del < low && t[r].del < TRANSACTION_ID_START)
    {
      if HasRow(s.storage, r) {
        var it :| it in s.storage && it.row == r;
        assert Expired(it, a.low) || it in s'.storage;
      }
    }
  }

  /** One step of the index is one step of the table. */
  lemma StepRefines<K(!new)>(s: IndexState<K>, a: Step<K>, s': IndexState<K>, t: Table<K>, low: nat)
    requires Inv(s) && Refines(s.storage, t, low) && Legal(t, a, low) && Next(s, a, s')
    ensures Inv(s') && Refines(s'.storage, TableStep(t, a), low)
  {
    StepKeepsInv(s, a, s');
    if a.Load? {
      InsertRefines(s.storage, Item(a.key, a.row, 0, NOT_DELETED_ID), s'.storage, t, low);
    } else if a.Insert? {
      InsertRefines(s.storage, Item(a.key, a.row, a.txn, NOT_DELETED_ID), s'.storage, t, low);
    } else if a.MarkDelete? {
      MarkRefines(s, a, s', t, low);
    } else if a.Cleanup? {
      CleanupRefines(s, a, s', t, low);
    } else {
      ResolveRefines(s, a, s', t, low);
    }
  }

  // ------------------------------------------------------------ whole runs

  ghost predicate IsRun<K>(states: seq<IndexState<K>>, steps: seq<Step<K>>) {
    && |states| == |steps| + 1
    && states[0] == EmptyState()
    && forall i | 0 <= i < |steps| :: Next(states[i], steps[i], states[i + 1])
  }

  ghost predicate LegalRun<K>(steps: seq<Step<K>>, low: nat) {
    forall i | 0 <= i < |steps| :: Legal(TableAfter(steps[..i]), steps[i], low)
  }

  /** After every run from an empty index, with every cleanup threshold at most `low`. */
  lemma {:induction false} RunRefines<K(!new)>(states: seq<IndexState<K>>, steps: seq<Step<K>>, low: nat)
    requires IsRun(states, steps) && LegalRun(steps, low)
    ensures Inv(states[|steps|]) && Refines(states[|steps|].storage, TableAfter(steps), low)
  {
    if steps == [] {
      assert Inv(states[0]);
    } else {
      var n := |steps| - 1;
      var before := steps[..n];
      assert forall i | 0 <= i < n :: before[..i] == steps[..i];
      RunRefines(states[..n + 1], before, low);
      assert Legal(TableAfter(steps[..n]), steps[n], low);
      StepRefines(states[n], steps[n], states[n + 1], TableAfter(before), low);
    }
  }

  // ------------------------------------------------------------ searches

  lemma {:induction false} SelectMembers<K>(items: seq<Item<K>>, p: Item<K> -> bool)
    ensures forall r | r in Select(items, p) :: exists it | it in items :: p(it) && it.row == r
    ensures forall it | it in items && p(it) :: it.row in Select(items, p)
  {
    if items != [] {
      SelectMembers(items[1..], p);
    }
  }

  lemma ConsNoRepeats(r: int, rows: seq<int>)
    requires NoRepeats(rows) && r !in rows
    ensures NoRepeats([r] + rows)
  {
  }

  lemma {:induction false} SelectDistinct<K>(items: seq<Item<K>>, p: Item<K> -> bool)
    requires DistinctRows(items)
    ensures NoRepeats(Select(items, p))
  {
    if items != [] {
      var rest := Select(items[1..], p);
      SelectDistinct(items[1..], p);
      SelectMembers(items[1..], p);
      forall r | r in rest ensures r != items[0].row {
        var it :| it in items[1..] && p(it) && it.row == r;
      }
      ConsNoRepeats(items[0].row, rest);
      assert Select(items, p) == if p(items[0]) then [items[0].row] + rest else rest;
    }
  }

  predicate ServedBy(rd: Reader, low: nat) {
    rd == SEE_COMMITTED || low <= rd.start
  }

  /** An index that refines a table finds exactly the rows a scan shows, each once. */
  lemma SelectIsScan<K>(items: seq<Item<K>>, t: Table<K>, low: nat, want: K -> bool, rd: Reader)
    requires Refines(items, t, low) && ServedBy(rd, low)
    ensures (set r | r in Select(items, Wanted(want, rd))) == Scan(t, want, rd)
    ensures NoRepeats(Select(items, Wanted(want, rd)))
  {
    var p := Wanted(want, rd);
    SelectMembers(items, p);
    SelectDistinct(items, p);
    forall r | r in Select(items, p) ensures r in Scan(t, want, rd) {
      var it :| it in items && p(it) && it.row == r;
      assert t[r] == VersionOf(it);
    }
    forall r | r in Scan(t, want, rd) ensures r in Select(items, p) {
      assert HasRow(items, r);
      var it :| it in items && it.row == r;
      assert p(it);
    }
  }

  /** In every run, every search answers like the naive table. */
  lemma IndexRefinesTableScan<K(!new)>(
    states: seq<IndexState<K>>, steps: seq<Step<K>>, low: nat, want: K -> bool, rd: Reader)
    requires IsRun(states, steps) && LegalRun(steps, low) && ServedBy(rd, low)
    ensures var found := Select(states[|steps|].storage, Wanted(want, rd));
      && (set r | r in found) == Scan(TableAfter(steps), want, rd)
      && NoRepeats(found)
  {
    RunRefines(states, steps, low);
    SelectIsScan(states[|steps|].storage, TableAfter(steps), low, want, rd);
  }
}
