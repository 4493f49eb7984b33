/**
 The `pg_depend` rows written by the CREATE builders.

 Each builder first counts its rows, allocates a chunk of that size and fills it with a
 running index.  The table builder also draws the OIDs of the table and its columns from a
 batch that was allocated beforehand.
 */
module DdlBuilder {
  import opened DependencyWalker

  const PG_NAMESPACE: nat := 10
  const PG_CLASS: nat := 11
  const PG_ATTRIBUTE: nat := 12
  const PG_TYPE: nat := 13
  const PG_CONSTRAINT: nat := 16
  const PG_REWRITE: nat := 38

  /** A pre-allocated batch of OIDs, consumed in order. */
  class OidBatch {
    var oids: seq<nat>
    var next: nat

    ghost predicate Valid()
      reads this
    {
      next <= |oids|
    }

    constructor (oids: seq<nat>)
      ensures Valid() && this.oids == oids && next == 0
    {
      this.oids, next := oids, 0;
    }

    method Allocate() returns (oid: nat)
      requires Valid() && next < |oids|
      modifies this`next
      ensures Valid() && oid == oids[old(next)] && next == old(next) + 1
    {
      oid := oids[next];
      next := next + 1;
    }
  }

  // ------------------------------------------------------------ rows of each builder

  /** A column: its attribute OID and the OID of its type, or INVALID_OID. */
  datatype Attr = Attr(attoid: nat, typid: nat)

  function ColumnRows(attrs: seq<Attr>): seq<DependRow> {
    if attrs == [] then []
    else ColumnRows(attrs[..|attrs| - 1])
         + var a := attrs[|attrs| - 1];
           if a.typid == INVALID_OID then []
           else [DependRow(Obj(PG_ATTRIBUTE, a.attoid), Obj(PG_TYPE, a.typid), 'n')]
  }

  function TableRows(table: nat, ns: nat, attrs: seq<Attr>): seq<DependRow> {
    ColumnRows(attrs) + [DependRow(Obj(PG_CLASS, table), Obj(PG_NAMESPACE, ns), 'n')]
  }

  /** Internal dependencies of one object on table columns. */
  function OnColumns(o: Obj, cols: seq<nat>): seq<DependRow> {
    if cols == [] then []
    else OnColumns(o, cols[..|cols| - 1])
         + if cols[|cols| - 1] == INVALID_OID then []
           else [DependRow(o, Obj(PG_ATTRIBUTE, cols[|cols| - 1]), 'i')]
  }

  function IndexRows(index: nat, table: nat, cols: seq<nat>): seq<DependRow> {
    [DependRow(Obj(PG_CLASS, index), Obj(PG_CLASS, table), 'a')] + OnColumns(Obj(PG_CLASS, index), cols)
  }

  function ConstraintRows(con: nat, table: nat, cols: seq<nat>, fk: bool, refTable: nat): seq<DependRow> {
    var o := Obj(PG_CONSTRAINT, con);
    [DependRow(o, Obj(PG_CLASS, table), 'i')] + OnColumns(o, cols)
    + if fk && refTable != INVALID_OID then [DependRow(o, Obj(PG_CLASS, refTable), 'n')] else []
  }

  function MatviewRows(mv: nat, source: nat): seq<DependRow> {
    if source == INVALID_OID then [] else [DependRow(Obj(PG_CLASS, mv), Obj(PG_CLASS, source), 'n')]
  }

  /** The single row of the builders that only hang below a namespace. */
  function NamespacedRow(o: Obj, ns: nat): seq<DependRow> {
    [DependRow(o, Obj(PG_NAMESPACE, ns), 'n')]
  }

  // ------------------------------------------------------------ the filling loops

  lemma ColumnRowsStep(attrs: seq<Attr>, i: nat)
    requires i < |attrs|
    ensures ColumnRows(attrs[..i + 1]) == ColumnRows(attrs[..i])
            + if attrs[i].typid == INVALID_OID then []
              else [DependRow(Obj(PG_ATTRIBUTE, attrs[i].attoid), Obj(PG_TYPE, attrs[i].typid), 'n')]
  {
    assert attrs[..i + 1][..i] == attrs[..i];
  }

  lemma OnColumnsStep(o: Obj, cols: seq<nat>, i: nat)
    requires i < |cols|
    ensures OnColumns(o, cols[..i + 1]) == OnColumns(o, cols[..i])
            + if cols[i] == INVALID_OID then [] else [DependRow(o, Obj(PG_ATTRIBUTE, cols[i]), 'i')]
  {
    assert cols[..i + 1][..i] == cols[..i];
  }

  lemma {:induction false} ColumnRowsMonotone(attrs: seq<Attr>, i: nat)
    requires i <= |attrs|
    ensures |ColumnRows(attrs[..i])| <= |ColumnRows(attrs)|
    decreases |attrs| - i
  {
    if i == |attrs| {
      assert attrs[..i] == attrs;
    } else {
      ColumnRowsStep(attrs, i);
      ColumnRowsMonotone(attrs, i + 1);
    }
  }

  lemma {:induction false} OnColumnsMonotone(o: Obj, cols: seq<nat>, i: nat)
    requires i <= |cols|
    ensures |OnColumns(o, cols[..i])| <= |OnColumns(o, cols)|
    decreases |cols| - i
  {
    if i == |cols| {
      assert cols[..i] == cols;
    } else {
      OnColumnsStep(o, cols, i);
      OnColumnsMonotone(o, cols, i + 1);
    }
  }

  const NO_ROW := DependRow(Obj(0, 0), Obj(0, 0), ' ')

  function AttOids(attrs: seq<Attr>): seq<nat> {
    seq(|attrs|, i requires 0 <= i < |attrs| => attrs[i].attoid)
  }

  function TypOids(attrs: seq<Attr>): seq<nat> {
    seq(|attrs|, i requires 0 <= i < |attrs| => attrs[i].typid)
  }

  /** CREATE TABLE: draws the OID of the table and then one per column, and writes the rows for them.
      The batch has given out exactly the OIDs of the new objects, in order. */
  method BuildCreateTable(batch: OidBatch, ns: nat, types: seq<nat>)
    returns (table: nat, attrs: seq<Attr>, chunk: array<DependRow>)
    requires batch.Valid() && batch.next + 1 + |types| <= |batch.oids|
    modifies batch`next
    ensures batch.Valid() && batch.next == old(batch.next) + 1 + |types| && TypOids(attrs) == types
    ensures [table] + AttOids(attrs) == batch.oids[old(batch.next)..batch.next]
    ensures fresh(chunk) && chunk[..] == TableRows(table, ns, attrs)
  {
    ghost var start := batch.next;
    table := batch.Allocate();
    attrs := [];
    var i := 0;
    while i < |types|
      invariant 0 <= i <= |types| && batch.next == start + 1 + i && |attrs| == i
      invariant TypOids(attrs) == types[..i]
      invariant [table] + AttOids(attrs) == batch.oids[start..batch.next]
    {
      var attoid := batch.Allocate();
      ghost var before := attrs;
      attrs := attrs + [Attr(attoid, types[i])];
      assert AttOids(attrs) == AttOids(before) + [attoid] && TypOids(attrs) == TypOids(before) + [types[i]];
      assert [table] + AttOids(attrs) == [table] + AttOids(before) + [attoid];
      assert batch.oids[start..batch.next] == batch.oids[start..batch.next - 1] + [attoid];
      i := i + 1;
    }
    chunk := FillTable(table, ns, attrs);
  }

  /** CREATE TABLE: one row per typed column, then the table below its namespace.  The count taken
      first is exactly what the filling loop writes. */
  method FillTable(table: nat, ns: nat, attrs: seq<Attr>) returns (chunk: array<DependRow>)
    ensures fresh(chunk) && chunk[..] == TableRows(table, ns, attrs)
  {
    var count := 1;
    var k := 0;
    while k < |attrs|
      invariant 0 <= k <= |attrs| && count == 1 + |ColumnRows(attrs[..k])|
    {
      ColumnRowsStep(attrs, k);
      if attrs[k].typid != INVALID_OID {
        count := count + 1;
      }
      k := k + 1;
    }
    assert attrs[..k] == attrs;
    chunk := new DependRow[count](_ => NO_ROW);
    var i := 0;
    k := 0;
    while k < |attrs|
      invariant 0 <= k <= |attrs| && i == |ColumnRows(attrs[..k])| && i < chunk.Length == count
      invariant chunk[..i] == ColumnRows(attrs[..k])
    {
      ColumnRowsStep(attrs, k);
      ColumnRowsMonotone(attrs, k + 1);
      if attrs[k].typid != INVALID_OID {
        chunk[i] := DependRow(Obj(PG_ATTRIBUTE, attrs[k].attoid), Obj(PG_TYPE, attrs[k].typid), 'n');
        i := i + 1;
      }
      k := k + 1;
    }
    assert attrs[..k] == attrs;
    chunk[i] := DependRow(Obj(PG_CLASS, table), Obj(PG_NAMESPACE, ns), 'n');
    assert chunk[..] == chunk[..i] + [chunk[i]];
  }

  /** The part of the index and constraint builders that counts and fills the column rows behind
      a first row, leaving room for `tail` rows at the end. */
  method FillColumns(o: Obj, first: DependRow, cols: seq<nat>, tail: nat) returns (chunk: array<DependRow>, i: nat)
    ensures fresh(chunk) && chunk.Length == i + tail
    ensures chunk[..i] == [first] + OnColumns(o, cols)
  {
    var count := 1;
    var k := 0;
    while k < |cols|
      invariant 0 <= k <= |cols| && count == 1 + |OnColumns(o, cols[..k])|
    {
      OnColumnsStep(o, cols, k);
      if cols[k] != INVALID_OID {
        count := count + 1;
      }
      k := k + 1;
    }
    assert cols[..k] == cols;
    chunk := new DependRow[count + tail](_ => NO_ROW);
    i := 0;
    chunk[i] := first;
    i := i + 1;
    k := 0;
    while k < |cols|
      invariant 0 <= k <= |cols| && i == 1 + |OnColumns(o, cols[..k])| && i <= count && chunk.Length == count + tail
      invariant chunk[..i] == [first] + OnColumns(o, cols[..k])
    {
      OnColumnsStep(o, cols, k);
      OnColumnsMonotone(o, cols, k + 1);
      if cols[k] != INVALID_OID {
        chunk[i] := DependRow(o, Obj(PG_ATTRIBUTE, cols[k]), 'i');
        i := i + 1;
      }
      k := k + 1;
    }
    assert cols[..k] == cols;
  }

  method FillIndex(index: nat, table: nat, cols: seq<nat>) returns (chunk: array<DependRow>)
    ensures fresh(chunk) && chunk[..] == IndexRows(index, table, cols)
  {
    var i;
    chunk, i := FillColumns(Obj(PG_CLASS, index), DependRow(Obj(PG_CLASS, index), Obj(PG_CLASS, table), 'a'), cols, 0);
    assert chunk[..i] == chunk[..];
  }

  method FillConstraint(con: nat, table: nat, cols: seq<nat>, fk: bool, refTable: nat) returns (chunk: array<DependRow>)
    ensures fresh(chunk) && chunk[..] == ConstraintRows(con, table, cols, fk, refTable)
  {
    var o := Obj(PG_CONSTRAINT, con);
    var emitRef := fk && refTable != INVALID_OID;
    var i;
    chunk, i := FillColumns(o, DependRow(o, Obj(PG_CLASS, table), 'i'), cols, if emitRef then 1 else 0);
    if emitRef {
      chunk[i] := DependRow(o, Obj(PG_CLASS, refTable), 'n');
      assert chunk[..] == chunk[..i] + [chunk[i]];
    } else {
      assert chunk[..i] == chunk[..];
    }
  }
}
