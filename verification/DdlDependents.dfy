/**
 What a CREATE statement makes depend on what.  The dependencies are listed statement by statement; the
 rows that the builders write are exactly these, so a later DROP of anything the statement names finds
 the new object: CASCADE lists it, and RESTRICT refuses for the normal dependencies.
 */
module DdlDependents {
  import opened DependencyWalker
  import opened CascadePlanner
  import opened DdlBuilder
  import opened DdlCatalog

  /** The catalogs are told apart by their OIDs. */
  lemma CatalogsDiffer()
    ensures |{PG_NAMESPACE, PG_CLASS, PG_ATTRIBUTE, PG_TYPE, PG_CONSTRAINT, PG_REWRITE}| == 6
  {
  }

  /** After statement `a`, object `o` depends on `x` with this kind of dependency. */
  ghost predicate DependsOn(a: Ddl, o: Obj, x: Obj, kind: char) {
    match a
    case CreateNamespace(_) => false
    case CreateTable(oid, ns, attrs) => TableDependsOn(oid, ns, attrs, o, x, kind)
    case CreateInNamespace(obj, _, ns) => o == obj && x == Obj(PG_NAMESPACE, ns) && kind == 'n'
    case CreateMatview(oid, ns, attrs, _, source) =>
      || TableDependsOn(oid, ns, attrs, o, x, kind)
      || (source != 0 && o == Obj(PG_CLASS, oid) && x == Obj(PG_CLASS, source) && kind == 'n')
    case CreateIndex(oid, table, cols) =>
      && o == Obj(PG_CLASS, oid)
      && ((x == Obj(PG_CLASS, table) && kind == 'a') || (IsColumn(x, cols) && kind == 'i'))
    case CreateConstraint(oid, table, cols, fk, refTable) =>
      && o == Obj(PG_CONSTRAINT, oid)
      && (|| ((x == Obj(PG_CLASS, table) || IsColumn(x, cols)) && kind == 'i')
          || (fk && refTable != 0 && x == Obj(PG_CLASS, refTable) && kind == 'n'))
    case DropRows(_) => false
  }

  /** A table depends on its namespace, its columns on their types. */
  ghost predicate TableDependsOn(oid: nat, ns: nat, attrs: seq<Attr>, o: Obj, x: Obj, kind: char) {
    && kind == 'n'
    && (|| (o == Obj(PG_CLASS, oid) && x == Obj(PG_NAMESPACE, ns))
        || exists t | t in attrs :: t.typid != 0 && o == Obj(PG_ATTRIBUTE, t.attoid) && x == Obj(PG_TYPE, t.typid))
  }

  predicate IsColumn(x: Obj, cols: seq<nat>) {
    x.classid == PG_ATTRIBUTE && x.oid in cols && x.oid != 0
  }

  // ------------------------------------------------------------ the rows are the dependencies

  lemma {:induction false} ColumnRowsHave(attrs: seq<Attr>, t: Attr)
    requires t in attrs && t.typid != INVALID_OID
    ensures DependRow(Obj(PG_ATTRIBUTE, t.attoid), Obj(PG_TYPE, t.typid), 'n') in ColumnRows(attrs)
  {
    var n := |attrs| - 1;
    if attrs[n] != t {
      ColumnRowsHave(attrs[..n], t);
    }
  }

  lemma {:induction false} OnColumnsHave(o: Obj, cols: seq<nat>, x: nat)
    requires x in cols && x != INVALID_OID
    ensures DependRow(o, Obj(PG_ATTRIBUTE, x), 'i') in OnColumns(o, cols)
  {
    var n := |cols| - 1;
    if cols[n] != x {
      OnColumnsHave(o, cols[..n], x);
    }
  }

  lemma TableRowsIff(oid: nat, ns: nat, attrs: seq<Attr>, o: Obj, x: Obj, kind: char)
    ensures DependRow(o, x, kind) in TableRows(oid, ns, attrs) <==> TableDependsOn(oid, ns, attrs, o, x, kind)
  {
    var r := DependRow(o, x, kind);
    if r in ColumnRows(attrs) {
      ColumnRowsMember(attrs, r);
    }
    if t :| t in attrs && t.typid != INVALID_OID && kind == 'n'
            && o == Obj(PG_ATTRIBUTE, t.attoid) && x == Obj(PG_TYPE, t.typid) {
      ColumnRowsHave(attrs, t);
    }
  }

  lemma OnColumnsIff(o: Obj, cols: seq<nat>, r: DependRow)
    ensures r in OnColumns(o, cols) <==> r.obj == o && IsColumn(r.ref, cols) && r.deptype == 'i'
  {
    if r in OnColumns(o, cols) {
      OnColumnsMember(o, cols, r);
    } else if r.obj == o && IsColumn(r.ref, cols) && r.deptype == 'i' {
      OnColumnsHave(o, cols, r.ref.oid);
      assert false;
    }
  }

  /** The builders write one row for each dependency and no other row. */
  lemma RowsAreDependencies(a: Ddl, o: Obj, x: Obj, kind: char)
    ensures DependRow(o, x, kind) in RowsOf(a) <==> DependsOn(a, o, x, kind)
  {
    hide TableDependsOn, TableRows, OnColumns, IsColumn;
    match a
    case CreateTable(oid, ns, attrs) => TableRowsIff(oid, ns, attrs, o, x, kind);
    case CreateMatview(oid, ns, attrs, _, _) => TableRowsIff(oid, ns, attrs, o, x, kind);
    case CreateIndex(oid, _, cols) => OnColumnsIff(Obj(PG_CLASS, oid), cols, DependRow(o, x, kind));
    case CreateConstraint(oid, _, cols, _, _) => OnColumnsIff(Obj(PG_CONSTRAINT, oid), cols, DependRow(o, x, kind));
    case _ =>
  }

  // ------------------------------------------------------------ their number and order

  /** How many of the OIDs are given. */
  function Given(oids: seq<nat>): nat {
    if oids == [] then 0 else (if oids[0] != 0 then 1 else 0) + Given(oids[1..])
  }

  lemma {:induction false} GivenOneMore(oids: seq<nat>, x: nat)
    ensures Given(oids + [x]) == Given(oids) + if x != 0 then 1 else 0
  {
    if oids == [] {
      assert [] + [x] == [x] && [x][1..] == [];
    } else {
      assert (oids + [x])[1..] == oids[1..] + [x];
      GivenOneMore(oids[1..], x);
    }
  }

  /** The row of a column stands behind one row for each typed column before it. */
  lemma {:induction false} ColumnRowAt(attrs: seq<Attr>, i: nat)
    requires i <= |attrs|
    ensures |ColumnRows(attrs)| == Given(TypOids(attrs))
    ensures i < |attrs| && attrs[i].typid != 0 ==>
              var at := Given(TypOids(attrs[..i]));
              at < |ColumnRows(attrs)|
              && ColumnRows(attrs)[at] == DependRow(Obj(PG_ATTRIBUTE, attrs[i].attoid), Obj(PG_TYPE, attrs[i].typid), 'n')
    decreases attrs
  {
    if attrs != [] {
      var n := |attrs| - 1;
      var before := attrs[..n];
      assert TypOids(attrs) == TypOids(before) + [attrs[n].typid];
      GivenOneMore(TypOids(before), attrs[n].typid);
      ColumnRowAt(before, if i < n then i else n);
      if i < n {
        assert before[..i] == attrs[..i];
      }
    }
  }

  lemma {:induction false} OnColumnsAt(o: Obj, cols: seq<nat>, i: nat)
    requires i <= |cols|
    ensures |OnColumns(o, cols)| == Given(cols)
    ensures i < |cols| && cols[i] != 0 ==>
              var at := Given(cols[..i]);
              at < |OnColumns(o, cols)| && OnColumns(o, cols)[at] == DependRow(o, Obj(PG_ATTRIBUTE, cols[i]), 'i')
    decreases cols
  {
    if cols != [] {
      var n := |cols| - 1;
      assert cols == cols[..n] + [cols[n]];
      GivenOneMore(cols[..n], cols[n]);
      OnColumnsAt(o, cols[..n], if i < n then i else n);
      if i < n {
        assert cols[..n][..i] == cols[..i];
      }
    }
  }

  /** Columns first and the namespace last for a table, which a materialized view follows with its source;
      the table first, then the columns, and a referenced table last for indexes and constraints. */
  lemma RowsInOrder(a: Ddl)
    requires a.CreateTable? || a.CreateMatview? || a.CreateIndex? || a.CreateConstraint?
    ensures var rows := RowsOf(a);
      match a
      case CreateTable(oid, ns, attrs) =>
        && |rows| == Given(TypOids(attrs)) + 1 && ColumnRows(attrs) <= rows
        && rows[|rows| - 1] == DependRow(Obj(PG_CLASS, oid), Obj(PG_NAMESPACE, ns), 'n')
      case CreateMatview(oid, ns, attrs, _, source) =>
        && |rows| == Given(TypOids(attrs)) + (if source == 0 then 1 else 2) && ColumnRows(attrs) <= rows
        && rows[Given(TypOids(attrs))] == DependRow(Obj(PG_CLASS, oid), Obj(PG_NAMESPACE, ns), 'n')
        && (source != 0 ==> rows[|rows| - 1] == DependRow(Obj(PG_CLASS, oid), Obj(PG_CLASS, source), 'n'))
      case CreateIndex(oid, table, cols) =>
        && |rows| == 1 + Given(cols)
        && rows[0] == DependRow(Obj(PG_CLASS, oid), Obj(PG_CLASS, table), 'a')
        && rows[1..] == OnColumns(Obj(PG_CLASS, oid), cols)
      case CreateConstraint(oid, table, cols, fk, refTable) =>
        var o := Obj(PG_CONSTRAINT, oid);
        && |rows| == 1 + Given(cols) + (if fk && refTable != 0 then 1 else 0)
        && rows[0] == DependRow(o, Obj(PG_CLASS, table), 'i')
        && rows[1..1 + Given(cols)] == OnColumns(o, cols)
        && (fk && refTable != 0 ==> rows[|rows| - 1] == DependRow(o, Obj(PG_CLASS, refTable), 'n'))
  {
    hide ColumnRows, OnColumns, Given;
    match a
    case CreateTable(_, _, attrs) => ColumnRowAt(attrs, 0);
    case CreateMatview(_, _, attrs, _, _) => ColumnRowAt(attrs, 0);
    case CreateIndex(oid, _, cols) => OnColumnsAt(Obj(PG_CLASS, oid), cols, 0);
    case CreateConstraint(oid, _, cols, _, _) => OnColumnsAt(Obj(PG_CONSTRAINT, oid), cols, 0);
  }

  lemma ScanIff(rows: seq<DependRow>, o: Obj, x: Obj, kind: char)
    ensures Dep(o, kind) in FetchDeps(rows, x) <==> DependRow(o, x, kind) in rows
  {
    DepsOfMembers(rows, {x});
    if DependRow(o, x, kind) in rows {
      var i :| 0 <= i < |rows| && rows[i] == DependRow(o, x, kind);
    }
  }

  /** After a CREATE the scan of any object finds what it found before and what the statement adds. */
  lemma CreateAddsDependents(c: Catalog, a: Ddl, o: Obj, x: Obj, kind: char)
    requires !a.DropRows?
    ensures Dep(o, kind) in FetchDeps(Apply(c, a).rows, x)
            <==> Dep(o, kind) in FetchDeps(c.rows, x) || DependsOn(a, o, x, kind)
  {
    hide DependsOn, RowsOf, FetchDeps;
    ScanIff(c.rows, o, x, kind);
    ScanIff(Apply(c, a).rows, o, x, kind);
    RowsAreDependencies(a, o, x, kind);
  }

  /** A drop leaves exactly the rows it keeps, and frees no OID. */
  lemma DropForgetsRows(c: Catalog, kept: seq<DependRow>, o: Obj, x: Obj, kind: char)
    ensures Dep(o, kind) in FetchDeps(Apply(c, DropRows(kept)).rows, x) <==> DependRow(o, x, kind) in kept
    ensures Known(Apply(c, DropRows(kept)), o) <==> Known(c, o)
  {
    ScanIff(kept, o, x, kind);
  }

  // ------------------------------------------------------------ dropping afterwards

  lemma CascadeHasScan(rows: seq<DependRow>, x: Obj, steps: seq<Dep>, d: Dep)
    requires GoodCascade(rows, x, steps) && d in FetchDeps(rows, x)
    ensures d in steps
  {
    hide DependentsFirst, Reachable;
    SeedDepsBelow(rows, x);
    SameMembers(steps[..|steps| - 1], DepsOf(rows, Reachable(rows, x)));
  }

  /** CASCADE from anything a statement names lists the objects it made depend on it. */
  method CascadeAfterCreate(c: Catalog, a: Ddl, x: Obj) returns (plan: Plan)
    requires Layered(c) && Legal(c, a) && !a.DropRows? && Known(Apply(c, a), x)
    ensures plan.status.Fine? && GoodCascade(Apply(c, a).rows, x, plan.steps)
    ensures forall o, kind | DependsOn(a, o, x, kind) :: Dep(o, kind) in plan.steps
  {
    hide DependsOn, GoodCascade, Legal, Layered, Known, FetchDeps;
    DdlKeepsLayered(c, a);
    LayeredIsNamedAndAcyclic(Apply(c, a), x);
    plan := PlanDrop(Apply(c, a).rows, x, Cascade);
    forall o, kind | DependsOn(a, o, x, kind) ensures Dep(o, kind) in plan.steps {
      CreateAddsDependents(c, a, o, x, kind);
      CascadeHasScan(Apply(c, a).rows, x, plan.steps, Dep(o, kind));
    }
  }

  /** RESTRICT on an object is refused exactly when something depended on it normally before or the
      statement made something do so. */
  method RestrictAfterCreate(c: Catalog, a: Ddl, x: Obj) returns (plan: Plan)
    requires !a.DropRows?
    ensures plan.steps == []
    ensures plan.status.RestrictBlocked? <==>
            (exists o :: Dep(o, 'n') in FetchDeps(c.rows, x)) || exists o :: DependsOn(a, o, x, 'n')
  {
    hide DependsOn, FetchDeps;
    plan := PlanDrop(Apply(c, a).rows, x, Restrict);
    forall o ensures Dep(o, 'n') in FetchDeps(Apply(c, a).rows, x)
                     <==> Dep(o, 'n') in FetchDeps(c.rows, x) || DependsOn(a, o, x, 'n') {
      CreateAddsDependents(c, a, o, x, 'n');
    }
    if d :| d in FetchDeps(Apply(c, a).rows, x) && d.deptype == 'n' {
      assert d == Dep(d.obj, 'n');
    }
  }

  // ------------------------------------------------------------ the objects of a statement

  /** The statement creates this object. */
  ghost predicate Creates(a: Ddl, o: Obj) {
    match a
    case CreateNamespace(oid) => o == Obj(PG_NAMESPACE, oid)
    case CreateTable(oid, _, attrs) => o == Obj(PG_CLASS, oid) || IsAttr(o, attrs)
    case CreateInNamespace(obj, rules, _) => o == obj || (o.classid == PG_REWRITE && o.oid in rules)
    case CreateMatview(oid, _, attrs, rule, _) => o == Obj(PG_CLASS, oid) || IsAttr(o, attrs) || o == Obj(PG_REWRITE, rule)
    case CreateIndex(oid, _, _) => o == Obj(PG_CLASS, oid)
    case CreateConstraint(oid, _, _, _, _) => o == Obj(PG_CONSTRAINT, oid)
    case DropRows(_) => false
  }

  ghost predicate IsAttr(o: Obj, attrs: seq<Attr>) {
    exists t | t in attrs :: o == Obj(PG_ATTRIBUTE, t.attoid)
  }

  lemma {:induction false} AttrObjsIff(attrs: seq<Attr>, o: Obj)
    ensures o in AttrObjs(attrs) <==> IsAttr(o, attrs)
  {
    if attrs != [] {
      AttrObjsIff(attrs[1..], o);
      assert attrs == [attrs[0]] + attrs[1..];
    }
  }

  lemma {:induction false} RuleObjsIff(rules: seq<nat>, o: Obj)
    ensures o in RuleObjs(rules) <==> o.classid == PG_REWRITE && o.oid in rules
  {
    if rules != [] {
      RuleObjsIff(rules[1..], o);
      assert rules == [rules[0]] + rules[1..];
    }
  }

  lemma NewObjsIff(a: Ddl, o: Obj)
    ensures o in NewObjs(a) <==> Creates(a, o)
  {
    hide IsAttr, AttrObjs, RuleObjs;
    match a
    case CreateTable(_, _, attrs) => AttrObjsIff(attrs, o);
    case CreateMatview(_, _, attrs, _, _) => AttrObjsIff(attrs, o);
    case CreateInNamespace(_, rules, _) => RuleObjsIff(rules, o);
    case _ =>
  }

  /** After a legal CREATE the catalog knows what it knew and what the statement creates. */
  lemma CreateRegisters(c: Catalog, a: Ddl, o: Obj)
    requires Layered(c) && Legal(c, a) && !a.DropRows?
    ensures Known(Apply(c, a), o) <==> Known(c, o) || Creates(a, o)
  {
    hide RefersToExisting, RowsOf, NewObjs, Creates;
    NewObjsIff(a, o);
    if o in NewObjs(a) {
      NewAreKnown(c, a, o);
    } else if Known(c, o) {
      OldStayKnown(c, a, o);
    } else if u :| u in NewObjs(a) && u.oid == o.oid {
      NewAreKnown(c, a, u);
    } else {
      RegisterOld(c.classOf, c.bornIn, NewObjs(a), c.age, o.oid);
    }
  }
}
