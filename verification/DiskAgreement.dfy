/**
 The disk-backed hash index and the in-memory hash index, fed the same operations on column
 values, find the same rows.
 */
module DiskAgreement {
  import opened Mvcc
  import opened IndexModel
  import opened TableRefinement
  import opened Search
  import opened HashIndex
  import opened DiskOverlay
  import opened DiskHashIndex
  import KC = KeyCodec

  /** An operation as a client issues it: a step whose key, if it has one, has an encoding. */
  type Op = Step<KC.Value>

  predicate GoodOp(op: Op) {
    op.Load? || op.Insert? || op.MarkDelete? ==> KC.Supported(op.key)
  }

  function FiledKey(v: KC.Value): Bytes
    requires KC.Supported(v)
  {
    KC.EncodeKey(v).value
  }

  /** The step of the disk index, under the encoded key. */
  function ToDisk(op: Op): Step<Bytes>
    requires GoodOp(op)
  {
    match op
    case Load(v, r) => Step.Load(FiledKey(v), r)
    case Insert(v, r, x) => Step.Insert(FiledKey(v), r, x)
    case MarkDelete(v, r, x) => Step.MarkDelete(FiledKey(v), r, x)
    case CommitInsert(x, c) => Step.CommitInsert(x, c)
    case CommitDelete(x, c) => Step.CommitDelete(x, c)
    case RevertInsert(x) => Step.RevertInsert(x)
    case RevertDelete(x) => Step.RevertDelete(x)
    case Cleanup(low) => Step.Cleanup(low)
  }

  /** The step of the in-memory index, whose keys are cast to the column type. */
  function ToMemory(op: Op): Step<KC.Value>
    requires GoodOp(op)
  {
    match op
    case Load(v, r) => Step.Load(KC.Normalize(v), r)
    case Insert(v, r, x) => Step.Insert(KC.Normalize(v), r, x)
    case MarkDelete(v, r, x) => Step.MarkDelete(KC.Normalize(v), r, x)
    case _ => op
  }

  predicate GoodOps(ops: seq<Op>) {
    forall i | 0 <= i < |ops| :: GoodOp(ops[i])
  }

  function MemorySteps(ops: seq<Op>): seq<Step<KC.Value>>
    requires GoodOps(ops)
  {
    seq(|ops|, i requires 0 <= i < |ops| => ToMemory(ops[i]))
  }

  function DiskSteps(ops: seq<Op>): seq<Step<Bytes>>
    requires GoodOps(ops)
  {
    seq(|ops|, i requires 0 <= i < |ops| => ToDisk(ops[i]))
  }

  function DiskAfter(ops: seq<Op>): DiskState<Bytes>
    requires GoodOps(ops)
  {
    if ops == [] then EmptyDisk() else DiskNext(ReEncode, DiskAfter(ops[..|ops| - 1]), ToDisk(ops[|ops| - 1]))
  }

  /** Each operation is one the disk index is given in its protocol. */
  ghost predicate LegalOps(ops: seq<Op>)
    requires GoodOps(ops)
  {
    forall i | 0 <= i < |ops| :: LegalStep(ReEncode, DiskAfter(ops[..i]), TableAfter(DiskSteps(ops[..i])), ToDisk(ops[i]))
  }

  // ------------------------------------------------------------ the disk side

  /** A mirrored key is filed under the bytes that lookups read. */
  lemma MirroredKeyIsFound(v: KC.Value)
    requires KC.Supported(v)
    ensures GoodKey(ReEncode, FiledKey(v))
  {
    KC.KeyRoundTrip(v);
  }

  /** The order of the two mirrors matters: deletes first would leave a row on disk that its own
      transaction inserted and deleted. */
  lemma DeletesFirstResurrects<K>(f: Refile<K>, k: K, row: int, x: nat)
    requires GoodKey(f, k)
    ensures var s := DiskState(map[], map[x := [Listing(k, row)]], map[x := [Listing(k, row)]]);
      && row !in RowsAt(MirrorDeletes(f, MirrorInserts(f, s, x), x).disk, k)
      && row in RowsAt(MirrorInserts(f, MirrorDeletes(f, s, x), x).disk, k)
  {
    var l := Listing(k, row);
    var d: Disk<K> := map[];
    assert [l][1..] == [];
    assert EraseAll(f, d, [l]) == d;
    assert Put(d, k, row) == map[k := [row]] by { assert [] + [row] == [row]; }
    assert PutAll(f, d, [l]) == map[k := [row]];
    assert Drop([row], row) == [];
    assert EraseAll(f, map[k := [row]], [l]) == map[k := [row]] - {k};
  }

  /** The table of a prefix, one step further. */
  lemma DiskTableStep(ops: seq<Op>)
    requires GoodOps(ops) && ops != []
    ensures TableAfter(DiskSteps(ops)) == TableStep(TableAfter(DiskSteps(ops[..|ops| - 1])), ToDisk(ops[|ops| - 1]))
  {
    assert DiskSteps(ops)[..|ops| - 1] == DiskSteps(ops[..|ops| - 1]);
  }

  lemma {:induction false} DiskRunMirrors(ops: seq<Op>)
    requires GoodOps(ops) && LegalOps(ops)
    ensures Mirrors(ReEncode, DiskAfter(ops), TableAfter(DiskSteps(ops)))
  {
    hide Mirrors, LegalStep, DiskNext, TableStep, ToDisk;
    if ops == [] {
      EmptyMirrors();
    } else {
      var n := |ops| - 1;
      var before := ops[..n];
      assert forall i | 0 <= i < n :: before[..i] == ops[..i];
      DiskRunMirrors(before);
      assert LegalStep(ReEncode, DiskAfter(ops[..n]), TableAfter(DiskSteps(ops[..n])), ToDisk(ops[n]));
      DiskTableStep(ops);
      DiskStepMirrors(ReEncode, DiskAfter(before), TableAfter(DiskSteps(before)), ToDisk(ops[n]));
    }
  }

  lemma EmptyMirrors()
    ensures Mirrors(ReEncode, EmptyDisk(), map[])
  {
  }

  // ------------------------------------------------------------ bytes and values

  /** Two tables with the same rows and stamps, one keyed by bytes, one by column value. */
  ghost predicate SameTable(b: Table<Bytes>, t: Table<KC.Value>) {
    b.Keys == t.Keys && forall r | r in t :: SameVersion(b[r], t[r])
  }

  ghost predicate SameVersion(b: Version<Bytes>, v: Version<KC.Value>) {
    && KC.Supported(v.key) && KC.Normalize(v.key) == v.key
    && b.key == FiledKey(v.key) && b.ins == v.ins && b.del == v.del
  }

  lemma NormalizeTwice(v: KC.Value)
    requires KC.Supported(v)
    ensures KC.Normalize(KC.Normalize(v)) == KC.Normalize(v)
    ensures FiledKey(KC.Normalize(v)) == FiledKey(v)
  {
    KC.KeyRoundTrip(v);
  }

  lemma SameInsert(b: Table<Bytes>, t: Table<KC.Value>, op: Op)
    requires SameTable(b, t) && GoodOp(op) && (op.Load? || op.Insert?)
    ensures SameTable(TableStep(b, ToDisk(op)), TableStep(t, ToMemory(op)))
  {
    NormalizeTwice(op.key);
    hide FiledKey, KC.Normalize, KC.Supported;
    var b', t' := TableStep(b, ToDisk(op)), TableStep(t, ToMemory(op));
    forall r | r in t' ensures SameVersion(b'[r], t'[r]) {
      assert r != op.row ==> SameVersion(b[r], t[r]);
    }
  }

  lemma SameMark(b: Table<Bytes>, t: Table<KC.Value>, op: Op)
    requires SameTable(b, t) && GoodOp(op) && op.MarkDelete?
    ensures SameTable(TableStep(b, ToDisk(op)), TableStep(t, ToMemory(op)))
  {
    if op.row in t {
      assert SameVersion(b[op.row], t[op.row]);
      KC.KeyInjective(t[op.row].key, op.key);
    }
  }

  lemma SameResolve(b: Table<Bytes>, t: Table<KC.Value>, op: Op)
    requires SameTable(b, t) && GoodOp(op) && (Resolves(op) || op.Cleanup?)
    ensures SameTable(TableStep(b, ToDisk(op)), TableStep(t, ToMemory(op)))
  {
    hide FiledKey, KC.Normalize, KC.Supported;
    var b', t' := TableStep(b, ToDisk(op)), TableStep(t, ToMemory(op));
    assert forall r | r in t :: SameVersion(b[r], t[r]);
    forall r | r in t' ensures SameVersion(b'[r], t'[r]) {}
  }

  /** One operation does the same to both tables. */
  lemma SameStep(b: Table<Bytes>, t: Table<KC.Value>, op: Op)
    requires GoodOp(op) && SameTable(b, t)
    ensures SameTable(TableStep(b, ToDisk(op)), TableStep(t, ToMemory(op)))
  {
    hide SameTable, TableStep, ToDisk, ToMemory;
    if op.Load? || op.Insert? {
      SameInsert(b, t, op);
    } else if op.MarkDelete? {
      SameMark(b, t, op);
    } else {
      SameResolve(b, t, op);
    }
  }

  lemma {:induction false} SameTables(ops: seq<Op>)
    requires GoodOps(ops)
    ensures SameTable(TableAfter(DiskSteps(ops)), TableAfter(MemorySteps(ops)))
  {
    hide SameVersion, TableStep, ToDisk, ToMemory;
    if ops != [] {
      var n := |ops| - 1;
      SameTables(ops[..n]);
      DiskTableStep(ops);
      assert MemorySteps(ops)[..n] == MemorySteps(ops[..n]);
      SameStep(TableAfter(DiskSteps(ops[..n])), TableAfter(MemorySteps(ops[..n])), ops[n]);
    }
  }

  lemma SameScan(b: Table<Bytes>, t: Table<KC.Value>, v: KC.Value, rd: Reader)
    requires SameTable(b, t) && KC.Supported(v)
    ensures Scan(b, SameKey(FiledKey(v)), rd) == Scan(t, SameKey(KC.Normalize(v)), rd)
  {
    forall r | r in t ensures b[r].key == FiledKey(v) <==> t[r].key == KC.Normalize(v) {
      assert SameVersion(b[r], t[r]);
      KC.KeyInjective(t[r].key, v);
    }
    assert forall r | r in t :: SameVersion(b[r], t[r]);
  }

  // ------------------------------------------------------------ the theorem

  /** After the same operations, an equality search finds the same rows, each once, in the
      disk-backed index and in the in-memory hash index, exactly for the readers that none of the key's
      rows is too new or too old for. */
  lemma DiskAgreesWithMemory(
    ops: seq<Op>, states: seq<IndexState<KC.Value>>, low: nat, v: KC.Value, rd: Reader,
    insOrder: seq<nat>, delOrder: seq<nat>)
    requires GoodOps(ops) && LegalOps(ops)
    requires IsRun(states, MemorySteps(ops)) && LegalRun(MemorySteps(ops), low) && ServedBy(rd, low)
    requires KC.Supported(v) && (rd == SEE_COMMITTED || InSnapshot(rd))
    requires Walks(insOrder, DiskAfter(ops).pendIns.Keys) && Walks(delOrder, DiskAfter(ops).pendDel.Keys)
    ensures var onDisk := VisibleRows(Overlay(DiskAfter(ops), FiledKey(v), insOrder, delOrder), rd);
      var inMemory := HashSearch(states[|ops|].storage, Eq, KC.Normalize(v), rd).rows;
      && NoRepeats(onDisk) && NoRepeats(inMemory)
      && ((set r | r in onDisk) == (set r | r in inMemory)
          <==> Served(TableAfter(DiskSteps(ops)), FiledKey(v), rd))
  {
    hide Mirrors, Overlay, VisibleRows, SameTable, Scan, HashSearch, NoRepeats, LegalOps, Served;
    DiskRunMirrors(ops);
    OverlayScanIff(ReEncode, DiskAfter(ops), TableAfter(DiskSteps(ops)), FiledKey(v), insOrder, delOrder, rd);
    SameTables(ops);
    SameScan(TableAfter(DiskSteps(ops)), TableAfter(MemorySteps(ops)), v, rd);
    HashSearchIsScan(states, MemorySteps(ops), low, KC.Normalize(v), rd);
  }

  // ------------------------------------------------------------ not equal

  /** Every row the reader sees is under the key. */
  ghost predicate AllUnder<K>(t: Table<K>, v: K, rd: Reader) {
    forall r | r in t && Visible(t[r].ins, t[r].del, rd) :: t[r].key == v
  }

  /** "Not equal" on the disk-backed index gives no rows.  The in-memory index, fed the same steps, agrees
      exactly when every row the reader sees is under the key. */
  lemma NoRowsIsRightIff<K(!new)>(states: seq<IndexState<K>>, steps: seq<Step<K>>, low: nat, v: K, rd: Reader)
    requires IsRun(states, steps) && LegalRun(steps, low) && ServedBy(rd, low)
    ensures HashSearch(states[|steps|].storage, Ne, v, rd) == Rows([]) <==> AllUnder(TableAfter(steps), v, rd)
  {
    hide NoRepeats, LegalRun, NeRows, TableAfter, Scan, AllUnder;
    HashSearchIsScan(states, steps, low, v, rd);
    var rest := HashSearch(states[|steps|].storage, Ne, v, rd).rows;
    OthersScanned(TableAfter(steps), v, rd);
    if rest == [] {
      assert (set r | r in rest) == {};
    } else {
      assert rest[0] in Scan(TableAfter(steps), OtherKey(v), rd);
    }
  }

  lemma OthersScanned<K>(t: Table<K>, v: K, rd: Reader)
    ensures Scan(t, OtherKey(v), rd) == {} <==> AllUnder(t, v, rd)
  {
    var others := Scan(t, OtherKey(v), rd);
    if others == {} {
      forall r | r in t && Visible(t[r].ins, t[r].del, rd) ensures t[r].key == v {
        assert r !in others;
      }
    } else if AllUnder(t, v, rd) {
      assert forall r :: r !in others;
    }
  }

  /** A row under another key, inserted by the reader itself: the in-memory index gives it. */
  lemma OtherRowIsMissed<K>(v: K, k: K, r: int, x: nat, start: nat)
    requires k != v && IsTxnId(x)
    ensures var s := IndexState([Item(k, r, x, NOT_DELETED_ID)], map[x := [Listing(k, r)]], map[]);
      && IsRun([EmptyState(), s], [Step.Insert(k, r, x)]) && LegalRun([Step.Insert(k, r, x)], 0)
      && HashSearch(s.storage, Ne, v, Reader(start, x)) == Rows([r])
  {
    var it: Item<K> := Item(k, r, x, NOT_DELETED_ID);
    assert [] + [it] == [it] && [] + [Listing(k, r)] == [Listing(k, r)];
    var steps := [Step.Insert(k, r, x)];
    assert steps[..0] == [] && TableAfter(steps[..0]) == map[];
    assert [it][1..] == [] && !RowUnder([it], v, r);
    var p := NotUnder([it], v, Reader(start, x));
    assert p(it) && Select([it], p) == [r] + Select([], p);
  }
}
