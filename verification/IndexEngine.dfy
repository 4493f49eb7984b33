/**
 The index engine of a table: every row operation and every end of a transaction is forwarded
 to all indexes of the table, each taking its own column of the row.  An index whose key columns
 a chunk lacks is left alone.
 */
module IndexEngine {
  import opened Mvcc
  import opened IndexModel
  import opened TableRefinement
  import opened OrderedIndex
  import opened HashIndex

  /** A row of a data chunk, by column name. */
  type Chunk<!K> = map<string, K>

  datatype RowStep<!K> =
    | InsertRow(chunk: Chunk<K>, row: int, txn: nat)
    | MarkDeleteRow(chunk: Chunk<K>, row: int, txn: nat)
    | Forward(step: Step<K>)

  datatype Option<+T> = None | Some(value: T)

  /** The chunk holds every key column of the index. */
  predicate Fits<K>(keys: seq<string>, chunk: Chunk<K>) {
    forall i | 0 <= i < |keys| :: keys[i] in chunk
  }

  /** What the engine asks of one index: the value of its first key column is the key. */
  function StepFor<K>(keys: seq<string>, a: RowStep<K>): Option<Step<K>>
    requires |keys| > 0
  {
    match a
    case InsertRow(chunk, r, x) => if Fits(keys, chunk) then Some(Insert(chunk[keys[0]], r, x)) else None
    case MarkDeleteRow(chunk, r, x) => if Fits(keys, chunk) then Some(MarkDelete(chunk[keys[0]], r, x)) else None
    case Forward(st) => Some(st)
  }

  /** A row reaches an index exactly when it has all its key columns; the first one is the key. */
  lemma ForwardedIff<K>(keys: seq<string>, chunk: Chunk<K>, r: int, x: nat)
    requires |keys| > 0
    ensures (exists col | col in keys :: col !in chunk) ==>
              StepFor(keys, InsertRow(chunk, r, x)) == None && StepFor(keys, MarkDeleteRow(chunk, r, x)) == None
    ensures (forall col | col in keys :: col in chunk) ==>
              && StepFor(keys, InsertRow(chunk, r, x)) == Some(Insert(chunk[keys[0]], r, x))
              && StepFor(keys, MarkDeleteRow(chunk, r, x)) == Some(MarkDelete(chunk[keys[0]], r, x))
  {
    if col :| col in keys && col !in chunk {
      var i :| 0 <= i < |keys| && keys[i] == col;
      assert !Fits(keys, chunk);
    }
  }

  ghost predicate Moves<K>(keys: seq<string>, s: IndexState<K>, a: RowStep<K>, s': IndexState<K>)
    requires |keys| > 0
  {
    match StepFor(keys, a)
    case Some(st) => Next(s, st, s')
    case None => s' == s
  }

  ghost predicate EngineNext<K>(
    keys: seq<seq<string>>, s: seq<IndexState<K>>, a: RowStep<K>, s': seq<IndexState<K>>)
  {
    && |s| == |s'| == |keys|
    && forall i | 0 <= i < |keys| :: |keys[i]| > 0 && Moves(keys[i], s[i], a, s'[i])
  }

  /** The steps that reach an index through an operation of its own. */
  predicate OfRow<K>(st: Step<K>) {
    st.Load? || st.Insert? || st.MarkDelete?
  }

  // ------------------------------------------------------------ the loop

  datatype AnyIndex<!K(==, !new)> = Ordered(ordered: OrderedIndex<K>) | Hashed(hashed: HashIndex<K>)

  /** How a hash container orders its versions when it grows. */
  ghost predicate Reorders<K(!new)>(rehash: seq<Item<K>> -> seq<Item<K>>) {
    forall items :: Permuted(items, rehash(items))
  }

  class Engine<K(==, !new)> {
    const keys: seq<seq<string>>
    const indexes: seq<AnyIndex<K>>
    const rehash: seq<Item<K>> -> seq<Item<K>>

    static function Ref(x: AnyIndex<K>): object {
      if x.Ordered? then x.ordered else x.hashed
    }

    ghost function Refs(): set<object> {
      set i | 0 <= i < |indexes| :: Ref(indexes[i])
    }

    static ghost predicate Good(x: AnyIndex<K>)
      reads Ref(x)
    {
      x.Ordered? ==> x.ordered.Valid()
    }

    static ghost function StateOf(x: AnyIndex<K>): IndexState<K>
      reads Ref(x)
    {
      if x.Ordered? then x.ordered.State() else x.hashed.State()
    }

    ghost predicate Valid()
      reads Refs()
    {
      && |keys| == |indexes| && Reorders(rehash)
      && (forall i | 0 <= i < |indexes| :: |keys[i]| > 0 && Good(indexes[i]))
      && (forall i, j | 0 <= i < j < |indexes| :: Ref(indexes[i]) != Ref(indexes[j]))
    }

    ghost function States(): seq<IndexState<K>>
      reads Refs()
    {
      seq(|indexes|, i requires 0 <= i < |indexes| reads Refs() => StateOf(indexes[i]))
    }

    constructor (keys: seq<seq<string>>, indexes: seq<AnyIndex<K>>, rehash: seq<Item<K>> -> seq<Item<K>>)
      ensures this.keys == keys && this.indexes == indexes && this.rehash == rehash
    {
      this.keys, this.indexes, this.rehash := keys, indexes, rehash;
    }

    /** The loop behind each operation of the engine. */
    method Apply(a: RowStep<K>)
      requires Valid() && (a.Forward? ==> !OfRow(a.step))
      modifies Refs()
      ensures Valid() && EngineNext(keys, old(States()), a, States())
    {
      hide Moves, Good, StateOf, Reorders;
      var i := 0;
      while i < |indexes|
        invariant 0 <= i <= |indexes| && Valid()
        invariant forall j | 0 <= j < i :: Moves(keys[j], old(StateOf(indexes[j])), a, StateOf(indexes[j]))
        invariant forall j | i <= j < |indexes| :: StateOf(indexes[j]) == old(StateOf(indexes[j]))
      {
        assert Ref(indexes[i]) in Refs();
        Forward(indexes[i], keys[i], a);
        i := i + 1;
      }
    }

    /** One turn of the loop. */
    method Forward(x: AnyIndex<K>, keys: seq<string>, a: RowStep<K>)
      requires Good(x) && Reorders(rehash) && |keys| > 0 && (a.Forward? ==> !OfRow(a.step))
      modifies Ref(x)
      ensures Good(x) && Moves(keys, old(StateOf(x)), a, StateOf(x))
    {
      hide Next, StepFor;
      var st := StepFor(keys, a);
      if st.Some? {
        StepIsNoLoad(keys, a);
        Take(x, st.value);
      }
    }

    static lemma StepIsNoLoad(keys: seq<string>, a: RowStep<K>)
      requires |keys| > 0 && (a.Forward? ==> !OfRow(a.step)) && StepFor(keys, a).Some?
      ensures !StepFor(keys, a).value.Load?
    {
    }

    method Take(x: AnyIndex<K>, st: Step<K>)
      requires Good(x) && Reorders(rehash) && !st.Load?
      modifies Ref(x)
      ensures Good(x) && Next(old(StateOf(x)), st, StateOf(x))
    {
      if x.Ordered? {
        TakeOrdered(x.ordered, st);
      } else {
        TakeHashed(x.hashed, st);
      }
    }

    method TakeOrdered(index: OrderedIndex<K>, st: Step<K>)
      requires index.Valid() && !st.Load?
      modifies index
      ensures index.Valid() && Next(old(index.State()), st, index.State())
    {
      hide Next;
      match st
      case Insert(k, r, x) => index.InsertTxn(k, r, x);
      case MarkDelete(k, r, x) => index.MarkDelete(k, r, x);
      case CommitInsert(x, c) => index.CommitInsert(x, c);
      case CommitDelete(x, c) => index.CommitDelete(x, c);
      case RevertInsert(x) => index.RevertInsert(x);
      case RevertDelete(x) => index.RevertDelete(x);
      case Cleanup(low) => index.CleanupVersions(low);
    }

    method TakeHashed(index: HashIndex<K>, st: Step<K>)
      requires Reorders(rehash) && !st.Load?
      modifies index
      ensures Next(old(index.State()), st, index.State())
    {
      hide Next;
      match st
      case Insert(k, r, x) => index.InsertTxn(k, r, x, rehash(index.storage));
      case MarkDelete(k, r, x) => index.MarkDelete(k, r, x);
      case CommitInsert(x, c) => index.CommitInsert(x, c);
      case CommitDelete(x, c) => index.CommitDelete(x, c);
      case RevertInsert(x) => index.RevertInsert(x);
      case RevertDelete(x) => index.RevertDelete(x);
      case Cleanup(low) => index.CleanupVersions(low);
    }
  }

  // ------------------------------------------------------------ the table of whole rows

  datatype RowVersion<!K> = RowVersion(cells: Chunk<K>, ins: nat, del: nat)

  type RowTable<!K> = map<int, RowVersion<K>>

  function RowTableStep<K>(t: RowTable<K>, a: RowStep<K>): RowTable<K> {
    match a
    case InsertRow(chunk, r, x) => t[r := RowVersion(chunk, x, NOT_DELETED_ID)]
    case MarkDeleteRow(_, r, x) =>
      if r in t && t[r].del == NOT_DELETED_ID then t[r := t[r].(del := x)] else t
    case Forward(CommitInsert(x, c)) => map r | r in t :: if t[r].ins == x then t[r].(ins := c) else t[r]
    case Forward(CommitDelete(x, c)) => map r | r in t :: if t[r].del == x then t[r].(del := c) else t[r]
    case Forward(RevertInsert(x)) => map r | r in t && t[r].ins != x :: t[r]
    case Forward(RevertDelete(x)) =>
      map r | r in t :: if t[r].del == x then t[r].(del := NOT_DELETED_ID) else t[r]
    case Forward(_) => t
  }

  function RowTableAfter<K>(steps: seq<RowStep<K>>): RowTable<K> {
    if steps == [] then map[]
    else RowTableStep(RowTableAfter(steps[..|steps| - 1]), steps[|steps| - 1])
  }

  /** Row ids are fresh and ids are of their kind. */
  predicate WellFormed<K>(t: RowTable<K>, a: RowStep<K>, low: nat) {
    match a
    case InsertRow(_, r, x) => IsTxnId(x) && r !in t
    case MarkDeleteRow(_, _, x) => IsTxnId(x)
    case Forward(st) => LegalIds(st) && !OfRow(st) && (st.Cleanup? ==> st.low <= low)
  }

  /** The delete of a live row that has the key columns names it with its own key. */
  predicate DeletesByKey<K(==)>(keys: seq<string>, t: RowTable<K>, a: RowStep<K>) {
    a.MarkDeleteRow? && a.row in t && t[a.row].del == NOT_DELETED_ID && Fits(keys, t[a.row].cells)
    ==> NamedBy(keys, t[a.row].cells, a.chunk)
  }

  predicate LegalRow<K(==)>(keys: seq<string>, t: RowTable<K>, a: RowStep<K>, low: nat) {
    WellFormed(t, a, low) && DeletesByKey(keys, t, a)
  }

  predicate NamedBy<K(==)>(keys: seq<string>, cells: Chunk<K>, chunk: Chunk<K>) {
    |keys| > 0 && Fits(keys, cells) && Fits(keys, chunk) && cells[keys[0]] == chunk[keys[0]]
  }

  ghost predicate LegalFor<K>(keys: seq<string>, steps: seq<RowStep<K>>, low: nat) {
    |keys| > 0 && forall n | 0 <= n < |steps| :: LegalRow(keys, RowTableAfter(steps[..n]), steps[n], low)
  }

  ghost predicate IsEngineRun<K>(
    keys: seq<seq<string>>, states: seq<seq<IndexState<K>>>, steps: seq<RowStep<K>>)
  {
    && |states| == |steps| + 1
    && states[0] == seq(|keys|, _ => EmptyState())
    && forall n | 0 <= n < |steps| :: EngineNext(keys, states[n], steps[n], states[n + 1])
  }

  /** The rows a reader sees that have all key columns, and whose first is wanted. */
  ghost function RowScan<K>(t: RowTable<K>, keys: seq<string>, want: K -> bool, rd: Reader): set<int>
    requires |keys| > 0
  {
    set r | r in t && Fits(keys, t[r].cells) && want(t[r].cells[keys[0]]) && Visible(t[r].ins, t[r].del, rd)
  }

  // ------------------------------------------------------------ one column of the table

  /** What one index should hold of the table. */
  function Column<K>(t: RowTable<K>, keys: seq<string>): Table<K>
    requires |keys| > 0
  {
    map r | r in t && Fits(keys, t[r].cells) :: Version(t[r].cells[keys[0]], t[r].ins, t[r].del)
  }

  lemma ColumnMove<K>(keys: seq<string>, t: RowTable<K>, a: RowStep<K>, low: nat)
    requires |keys| > 0 && LegalRow(keys, t, a, low) && StepFor(keys, a).Some?
    ensures Legal(Column(t, keys), StepFor(keys, a).value, low)
    ensures Column(RowTableStep(t, a), keys) == TableStep(Column(t, keys), StepFor(keys, a).value)
  {
    hide Fits;
    if a.MarkDeleteRow? {
      assert Column(RowTableStep(t, a), keys) == TableStep(Column(t, keys), StepFor(keys, a).value);
    }
  }

  lemma ColumnStays<K>(keys: seq<string>, t: RowTable<K>, a: RowStep<K>, low: nat)
    requires |keys| > 0 && LegalRow(keys, t, a, low) && StepFor(keys, a) == None
    ensures Column(RowTableStep(t, a), keys) == Column(t, keys)
  {
  }

  /** One engine step keeps each index a refinement of its column. */
  lemma EngineStepRefines<K(!new)>(
    keys: seq<string>, s: IndexState<K>, a: RowStep<K>, s': IndexState<K>, t: RowTable<K>, low: nat)
    requires |keys| > 0 && Inv(s) && Refines(s.storage, Column(t, keys), low)
    requires LegalRow(keys, t, a, low) && Moves(keys, s, a, s')
    ensures Inv(s') && Refines(s'.storage, Column(RowTableStep(t, a), keys), low)
  {
    hide Next, Inv, Refines, StepFor, LegalRow, Column, RowTableStep, Legal, TableStep;
    if StepFor(keys, a).Some? {
      ColumnMove(keys, t, a, low);
      StepRefines(s, StepFor(keys, a).value, s', Column(t, keys), low);
    } else {
      ColumnStays(keys, t, a, low);
    }
  }

  /** An index that refined its column still does after a step exactly when the step was no delete
      that misses its row. */
  lemma StepRefinesIff<K(!new)>(
    keys: seq<string>, s: IndexState<K>, a: RowStep<K>, s': IndexState<K>, t: RowTable<K>, low: nat)
    requires |keys| > 0 && Inv(s) && Refines(s.storage, Column(t, keys), low)
    requires WellFormed(t, a, low) && Moves(keys, s, a, s')
    ensures Refines(s'.storage, Column(RowTableStep(t, a), keys), low) <==> DeletesByKey(keys, t, a)
  {
    hide Inv, Refines, Column, RowTableStep;
    if DeletesByKey(keys, t, a) {
      EngineStepRefines(keys, s, a, s', t, low);
    } else {
      MissedDelete(keys, s, a, s', t, low);
    }
  }

  /** A delete that misses its row leaves the row's version alive. */
  lemma MissedDelete<K(!new)>(
    keys: seq<string>, s: IndexState<K>, a: RowStep<K>, s': IndexState<K>, t: RowTable<K>, low: nat)
    requires |keys| > 0 && Refines(s.storage, Column(t, keys), low)
    requires WellFormed(t, a, low) && Moves(keys, s, a, s') && !DeletesByKey(keys, t, a)
    ensures !Refines(s'.storage, Column(RowTableStep(t, a), keys), low)
  {
    assert s'.storage == s.storage;
    assert Column(t, keys)[a.row].del == NOT_DELETED_ID && Column(RowTableStep(t, a), keys)[a.row].del == a.txn;
    if HasRow(s.storage, a.row) {
      var it :| it in s.storage && it.row == a.row;
      assert it.del == NOT_DELETED_ID;
    }
  }

  lemma EmptyRefines<K(!new)>(keys: seq<string>, low: nat)
    requires |keys| > 0
    ensures Inv<K>(EmptyState()) && Refines<K>(EmptyState<K>().storage, Column(map[], keys), low)
  {
  }

  lemma NextMoves<K>(
    keys: seq<seq<string>>, s: seq<IndexState<K>>, a: RowStep<K>, s': seq<IndexState<K>>, i: nat)
    requires EngineNext(keys, s, a, s') && i < |keys|
    ensures |s| == |s'| == |keys| && |keys[i]| > 0 && Moves(keys[i], s[i], a, s'[i])
  {
  }

  /** In every run of the engine each index refines its column of the one table. */
  lemma {:induction false} EngineRunRefines<K(!new)>(
    keys: seq<seq<string>>, states: seq<seq<IndexState<K>>>, steps: seq<RowStep<K>>, low: nat, i: nat)
    requires IsEngineRun(keys, states, steps) && i < |keys| && LegalFor(keys[i], steps, low)
    ensures |states[|steps|]| == |keys|
    ensures Inv(states[|steps|][i]) && Refines(states[|steps|][i].storage, Column(RowTableAfter(steps), keys[i]), low)
  {
    hide Moves, Inv, Refines, LegalRow, Column, RowTableStep;
    if steps == [] {
      EmptyRefines<K>(keys[i], low);
    } else {
      hide EngineNext;
      var n := |steps| - 1;
      var before := steps[..n];
      assert forall k | 0 <= k < n :: before[..k] == steps[..k];
      EngineRunRefines(keys, states[..n + 1], before, low, i);
      NextMoves(keys, states[n], steps[n], states[n + 1], i);
      EngineStepRefines(keys[i], states[n][i], steps[n], states[n + 1][i], RowTableAfter(before), low);
    }
  }

  lemma {:induction false} RunKeepsInv<K(!new)>(
    keys: seq<seq<string>>, states: seq<seq<IndexState<K>>>, steps: seq<RowStep<K>>, low: nat, i: nat)
    requires IsEngineRun(keys, states, steps) && i < |keys| && AllWellFormed(steps, low)
    ensures |keys[i]| > 0 || steps == []
    ensures |states[|steps|]| == |keys| && Inv(states[|steps|][i])
    decreases steps
  {
    hide Inv, RowTableAfter, LegalIds, StepFor;
    if steps == [] {
      EmptyRefines<K>(["a"], low);
    } else {
      var n := |steps| - 1;
      var before := steps[..n];
      assert forall k | 0 <= k < n :: before[..k] == steps[..k];
      RunKeepsInv(keys, states[..n + 1], before, low, i);
      assert EngineNext(keys, states[n], steps[n], states[n + 1]);
      MovesKeepInv(keys[i], states[n][i], steps[n], states[n + 1][i], RowTableAfter(steps[..n]), low);
    }
  }

  lemma MovesKeepInv<K(!new)>(
    keys: seq<string>, s: IndexState<K>, a: RowStep<K>, s': IndexState<K>, t: RowTable<K>, low: nat)
    requires |keys| > 0 && Inv(s) && WellFormed(t, a, low) && Moves(keys, s, a, s')
    ensures Inv(s')
  {
    hide Inv, Next;
    if StepFor(keys, a).Some? {
      StepKeepsInv(s, StepFor(keys, a).value, s');
    }
  }

  ghost predicate AllWellFormed<K>(steps: seq<RowStep<K>>, low: nat) {
    forall n | 0 <= n < |steps| :: WellFormed(RowTableAfter(steps[..n]), steps[n], low)
  }

  /** The index refines its column at every moment of the run. */
  ghost predicate RefinesThroughout<K>(
    keys: seq<seq<string>>, states: seq<seq<IndexState<K>>>, steps: seq<RowStep<K>>, low: nat, i: nat)
    requires IsEngineRun(keys, states, steps) && i < |keys| && |keys[i]| > 0
  {
    forall n: nat | n <= |steps| :: RefinesAt(keys, states, steps, low, i, n)
  }

  ghost predicate RefinesAt<K>(
    keys: seq<seq<string>>, states: seq<seq<IndexState<K>>>, steps: seq<RowStep<K>>, low: nat, i: nat, n: nat)
    requires IsEngineRun(keys, states, steps) && i < |keys| && |keys[i]| > 0 && n <= |steps|
  {
    i < |states[n]| && Refines(states[n][i].storage, Column(RowTableAfter(steps[..n]), keys[i]), low)
  }

  /** A run up to some moment is a run. */
  lemma RunPrefix<K(!new)>(
    keys: seq<seq<string>>, states: seq<seq<IndexState<K>>>, steps: seq<RowStep<K>>, n: nat)
    requires IsEngineRun(keys, states, steps) && n <= |steps|
    ensures IsEngineRun(keys, states[..n + 1], steps[..n])
  {
    hide EngineNext;
  }

  lemma TableOneMore<K>(steps: seq<RowStep<K>>, n: nat)
    requires n < |steps|
    ensures RowTableAfter(steps[..n + 1]) == RowTableStep(RowTableAfter(steps[..n]), steps[n])
  {
    assert steps[..n + 1][..n] == steps[..n];
  }

  /** In a run of well-formed steps an index refines its column at every moment exactly when every
      delete of a live row that has the key columns names the row with its own key. */
  lemma RunRefinesIff<K(!new)>(
    keys: seq<seq<string>>, states: seq<seq<IndexState<K>>>, steps: seq<RowStep<K>>, low: nat, i: nat)
    requires IsEngineRun(keys, states, steps) && i < |keys| && |keys[i]| > 0 && AllWellFormed(steps, low)
    ensures RefinesThroughout(keys, states, steps, low, i)
            <==> forall n | 0 <= n < |steps| :: DeletesByKey(keys[i], RowTableAfter(steps[..n]), steps[n])
  {
    hide Inv, Refines, Column, RowTableAfter, RowTableStep, WellFormed, DeletesByKey, EngineNext;
    if RefinesThroughout(keys, states, steps, low, i) {
      forall n | 0 <= n < |steps| ensures DeletesByKey(keys[i], RowTableAfter(steps[..n]), steps[n]) {
        assert RefinesAt(keys, states, steps, low, i, n) && RefinesAt(keys, states, steps, low, i, n + 1);
        StepOfRun(keys, states, steps, low, i, n);
      }
    }
    if forall n | 0 <= n < |steps| :: DeletesByKey(keys[i], RowTableAfter(steps[..n]), steps[n]) {
      assert LegalFor(keys[i], steps, low);
      forall n: nat | n <= |steps| ensures RefinesAt(keys, states, steps, low, i, n) {
        RunPrefix(keys, states, steps, n);
        assert forall k | 0 <= k < n :: steps[..n][..k] == steps[..k];
        EngineRunRefines(keys, states[..n + 1], steps[..n], low, i);
      }
    }
  }

  lemma StepOfRun<K(!new)>(
    keys: seq<seq<string>>, states: seq<seq<IndexState<K>>>, steps: seq<RowStep<K>>, low: nat, i: nat, n: nat)
    requires IsEngineRun(keys, states, steps) && i < |keys| && |keys[i]| > 0 && AllWellFormed(steps, low) && n < |steps|
    requires RefinesAt(keys, states, steps, low, i, n) && RefinesAt(keys, states, steps, low, i, n + 1)
    ensures DeletesByKey(keys[i], RowTableAfter(steps[..n]), steps[n])
  {
    hide Inv, Refines, Column, RowTableAfter, RowTableStep, WellFormed, DeletesByKey, Moves;
    RunPrefix(keys, states, steps, n);
    assert forall k | 0 <= k < n :: steps[..n][..k] == steps[..k];
    RunKeepsInv(keys, states[..n + 1], steps[..n], low, i);
    TableOneMore(steps, n);
    assert EngineNext(keys, states[n], steps[n], states[n + 1]);
    StepRefinesIff(keys[i], states[n][i], steps[n], states[n + 1][i], RowTableAfter(steps[..n]), low);
  }

  lemma ColumnScan<K>(t: RowTable<K>, keys: seq<string>, want: K -> bool, rd: Reader)
    requires |keys| > 0
    ensures Scan(Column(t, keys), want, rd) == RowScan(t, keys, want, rd)
  {
  }

  /**
   In every run of the engine, a search through any of its indexes finds exactly the visible
   rows of the one table that have the index's columns and whose key is wanted, each once.
   */
  lemma EngineRefinesTable<K(!new)>(keys: seq<seq<string>>, states: seq<seq<IndexState<K>>>, steps: seq<RowStep<K>>,
                                    low: nat, i: nat, want: K -> bool, rd: Reader)
    requires IsEngineRun(keys, states, steps) && i < |keys| && LegalFor(keys[i], steps, low) && ServedBy(rd, low)
    ensures |states[|steps|]| == |keys|
    ensures var found := Select(states[|steps|][i].storage, Wanted(want, rd));
            && (set r | r in found) == RowScan(RowTableAfter(steps), keys[i], want, rd)
            && NoRepeats(found)
  {
    hide RowTableAfter, LegalRow, EngineNext, Select, Scan, RowScan, NoRepeats, Refines, Inv, Column;
    EngineRunRefines(keys, states, steps, low, i);
    SelectIsScan(states[|steps|][i].storage, Column(RowTableAfter(steps), keys[i]), low, want, rd);
    ColumnScan(RowTableAfter(steps), keys[i], want, rd);
  }

  predicate Any<K>(k: K) {
    true
  }

  /** The rows one index shows a reader. */
  ghost function Shown<K>(s: IndexState<K>, rd: Reader): set<int> {
    set r | r in Select(s.storage, Wanted(Any, rd))
  }

  lemma ScanOfAny<K>(t: RowTable<K>, keys: seq<string>, others: seq<string>, rd: Reader)
    requires |keys| > 0 && |others| > 0
    ensures RowScan(t, keys, Any, rd) == RowScan(t, others, Any, rd)
            <==> forall r | r in t && Visible(t[r].ins, t[r].del, rd) :: Fits(keys, t[r].cells) == Fits(others, t[r].cells)
  {
    hide Fits;
    var left, right := RowScan(t, keys, Any, rd), RowScan(t, others, Any, rd);
    if left == right {
      forall r | r in t && Visible(t[r].ins, t[r].del, rd) ensures Fits(keys, t[r].cells) == Fits(others, t[r].cells) {
        assert (r in left) == (r in right);
      }
    } else if forall r | r in t && Visible(t[r].ins, t[r].del, rd) :: Fits(keys, t[r].cells) == Fits(others, t[r].cells) {
      forall r: int ensures r in left <==> r in right {
      }
    }
  }

  /** Two indexes of a table show a reader the same rows exactly when every visible row has the key
      columns of both or of neither. */
  lemma IndexesAgreeIff<K(!new)>(keys: seq<seq<string>>, states: seq<seq<IndexState<K>>>, steps: seq<RowStep<K>>,
                                 low: nat, i: nat, j: nat, rd: Reader)
    requires IsEngineRun(keys, states, steps) && ServedBy(rd, low)
    requires i < |keys| && j < |keys| && LegalFor(keys[i], steps, low) && LegalFor(keys[j], steps, low)
    ensures |states[|steps|]| == |keys|
    ensures var t := RowTableAfter(steps);
            Shown(states[|steps|][i], rd) == Shown(states[|steps|][j], rd)
            <==> forall r | r in t && Visible(t[r].ins, t[r].del, rd) :: Fits(keys[i], t[r].cells) == Fits(keys[j], t[r].cells)
  {
    hide RowTableAfter, LegalRow, EngineNext, Select, RowScan, Fits;
    EngineRefinesTable(keys, states, steps, low, i, Any, rd);
    EngineRefinesTable(keys, states, steps, low, j, Any, rd);
    ScanOfAny(RowTableAfter(steps), keys[i], keys[j], rd);
  }

  /** A delete whose chunk lacks the key column leaves the row alive in that index. */
  lemma SkippedDelete<K(!new)>(x: K, t: nat, start: nat)
    requires IsTxnId(t)
    ensures var keys := ["a"];
            var steps := [InsertRow(map["a" := x], 7, t), MarkDeleteRow(map[], 7, t)];
            var s := IndexState([Item(x, 7, t, NOT_DELETED_ID)], map[t := [Listing(x, 7)]], map[]);
            var rd := Reader(start, t);
            && Moves(keys, EmptyState(), steps[0], s) && Moves(keys, s, steps[1], s)
            && Shown(s, rd) == {7} && RowScan(RowTableAfter(steps), keys, Any, rd) == {}
  {
    var keys, chunk := ["a"], map["a" := x];
    var it := Item(x, 7, t, NOT_DELETED_ID);
    assert keys[0] in chunk && Fits(keys, chunk);
    var none: Chunk<K> := map[];
    assert keys[0] !in none && !Fits(keys, none);
    assert [] + [it] == [it] && [] + [Listing(x, 7)] == [Listing(x, 7)];
    var steps := [InsertRow(chunk, 7, t), MarkDeleteRow(map[], 7, t)];
    assert steps[..1] == [steps[0]] && steps[..1][..0] == [];
    var one := RowTableAfter(steps[..1]);
    assert one == RowTableStep(RowTableAfter<K>([]), steps[0]);
    assert one == map[7 := RowVersion(chunk, t, NOT_DELETED_ID)];
    assert RowTableAfter(steps) == RowTableStep(one, steps[1]);
    assert RowTableAfter(steps) == map[7 := RowVersion(chunk, t, t)];
    assert Any(x) && Visible(t, NOT_DELETED_ID, Reader(start, t));
    assert Wanted(Any, Reader(start, t))(it);
    assert Select([it], Wanted(Any, Reader(start, t))) == [7];
  }
}
