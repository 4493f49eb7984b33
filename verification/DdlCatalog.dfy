/**
 Catalogs grown by CREATE statements.  `classOf` remembers the catalog of every OID ever handed
 out, `bornIn` the statement that used it first, `high` the largest of them.

 A new object refers only to objects that exist, so every row points from a younger object to an
 older one: a catalog built this way cannot cycle, and CASCADE from any of its objects succeeds,
 whatever unused OIDs the statements take.  When OIDs are also handed out in turn, every row
 points from a larger OID to a smaller one.
 */
module DdlCatalog {
  import opened DependencyWalker
  import opened CascadePlanner
  import opened DdlBuilder
  import G = OidGenerator

  datatype Catalog = Catalog(
    rows: seq<DependRow>, classOf: map<nat, nat>, bornIn: map<nat, nat>, age: nat, high: nat)

  /** The CREATE statements with the OIDs they consume.  Sequences, views, macros, types and
      functions all write one row that hangs the object below its namespace; views, macros and
      materialized views also use an OID for their rewrite rule. */
  datatype Ddl =
    | CreateNamespace(oid: nat)
    | CreateTable(oid: nat, ns: nat, attrs: seq<Attr>)
    | CreateInNamespace(obj: Obj, rules: seq<nat>, ns: nat)
    | CreateMatview(oid: nat, ns: nat, attrs: seq<Attr>, rule: nat, source: nat)
    | CreateIndex(oid: nat, table: nat, cols: seq<nat>)
    | CreateConstraint(oid: nat, table: nat, cols: seq<nat>, fk: bool, refTable: nat)
    | DropRows(kept: seq<DependRow>)

  function RowsOf(a: Ddl): seq<DependRow> {
    match a
    case CreateNamespace(_) => []
    case CreateTable(oid, ns, attrs) => TableRows(oid, ns, attrs)
    case CreateInNamespace(obj, _, ns) => NamespacedRow(obj, ns)
    case CreateMatview(oid, ns, attrs, _, source) => TableRows(oid, ns, attrs) + MatviewRows(oid, source)
    case CreateIndex(oid, table, cols) => IndexRows(oid, table, cols)
    case CreateConstraint(oid, table, cols, fk, refTable) => ConstraintRows(oid, table, cols, fk, refTable)
    case DropRows(_) => []
  }

  function AttrObjs(attrs: seq<Attr>): seq<Obj> {
    if attrs == [] then [] else [Obj(PG_ATTRIBUTE, attrs[0].attoid)] + AttrObjs(attrs[1..])
  }

  function RuleObjs(rules: seq<nat>): seq<Obj> {
    if rules == [] then [] else [Obj(PG_REWRITE, rules[0])] + RuleObjs(rules[1..])
  }

  /** The objects a statement creates. */
  function NewObjs(a: Ddl): seq<Obj> {
    match a
    case CreateNamespace(oid) => [Obj(PG_NAMESPACE, oid)]
    case CreateTable(oid, _, attrs) => [Obj(PG_CLASS, oid)] + AttrObjs(attrs)
    case CreateInNamespace(obj, rules, _) => [obj] + RuleObjs(rules)
    case CreateMatview(oid, _, attrs, rule, _) => [Obj(PG_CLASS, oid)] + AttrObjs(attrs) + [Obj(PG_REWRITE, rule)]
    case CreateIndex(oid, _, _) => [Obj(PG_CLASS, oid)]
    case CreateConstraint(oid, _, _, _, _) => [Obj(PG_CONSTRAINT, oid)]
    case DropRows(_) => []
  }

  function ObjOids(objs: seq<Obj>): seq<nat> {
    seq(|objs|, i requires 0 <= i < |objs| => objs[i].oid)
  }

  lemma {:induction false} AttrObjOids(attrs: seq<Attr>)
    ensures ObjOids(AttrObjs(attrs)) == AttOids(attrs)
  {
    if attrs != [] {
      AttrObjOids(attrs[1..]);
      assert AttOids(attrs) == [attrs[0].attoid] + AttOids(attrs[1..]);
      assert ObjOids(AttrObjs(attrs)) == [attrs[0].attoid] + ObjOids(AttrObjs(attrs[1..]));
    }
  }

  /** CREATE TABLE as a statement, and the batch it drew its OIDs from: what the batch gave out are the
      OIDs of the new objects, in their order. */
  method CreateTableFrom(batch: OidBatch, ns: nat, types: seq<nat>) returns (a: Ddl, chunk: array<DependRow>)
    requires batch.Valid() && batch.next + 1 + |types| <= |batch.oids|
    modifies batch`next
    ensures batch.Valid() && batch.next == old(batch.next) + 1 + |types|
    ensures a.CreateTable? && a.ns == ns && TypOids(a.attrs) == types
    ensures ObjOids(NewObjs(a)) == batch.oids[old(batch.next)..batch.next]
    ensures fresh(chunk) && chunk[..] == RowsOf(a)
  {
    var table, attrs;
    table, attrs, chunk := BuildCreateTable(batch, ns, types);
    a := CreateTable(table, ns, attrs);
    AttrObjOids(attrs);
    assert ObjOids(NewObjs(a)) == [table] + ObjOids(AttrObjs(attrs));
  }

  predicate Known(c: Catalog, o: Obj) {
    o.oid in c.classOf && c.classOf[o.oid] == o.classid
  }

  ghost predicate Differ(objs: seq<Obj>) {
    forall i, j | 0 <= i < j < |objs| :: objs[i].oid != objs[j].oid
  }

  /** The OIDs of a statement have never been handed out to an object, and are used once. */
  ghost predicate Unused(c: Catalog, objs: seq<Obj>) {
    (forall o | o in objs :: o.oid != INVALID_OID && o.oid !in c.classOf) && Differ(objs)
  }

  /** The OIDs of a statement are larger than every one handed out. */
  ghost predicate Fresh(c: Catalog, objs: seq<Obj>) {
    (forall o | o in objs :: o.oid > c.high) && Differ(objs)
  }

  /** A statement names existing objects of the right catalog; INVALID_OID means "none". */
  ghost predicate RefersToExisting(c: Catalog, a: Ddl) {
    match a
    case CreateNamespace(_) => true
    case CreateTable(_, ns, attrs) => Known(c, Obj(PG_NAMESPACE, ns)) && TypesKnown(c, attrs)
    case CreateInNamespace(_, _, ns) => Known(c, Obj(PG_NAMESPACE, ns))
    case CreateMatview(_, ns, attrs, _, source) =>
      && Known(c, Obj(PG_NAMESPACE, ns)) && TypesKnown(c, attrs)
      && (source != INVALID_OID ==> Known(c, Obj(PG_CLASS, source)))
    case CreateIndex(_, table, cols) => Known(c, Obj(PG_CLASS, table)) && ColsKnown(c, cols)
    case CreateConstraint(_, table, cols, _, refTable) =>
      && Known(c, Obj(PG_CLASS, table)) && ColsKnown(c, cols)
      && (refTable != INVALID_OID ==> Known(c, Obj(PG_CLASS, refTable)))
    case DropRows(kept) => forall r | r in kept :: r in c.rows
  }

  ghost predicate TypesKnown(c: Catalog, attrs: seq<Attr>) {
    forall a | a in attrs && a.typid != INVALID_OID :: Known(c, Obj(PG_TYPE, a.typid))
  }

  ghost predicate ColsKnown(c: Catalog, cols: seq<nat>) {
    forall x | x in cols && x != INVALID_OID :: Known(c, Obj(PG_ATTRIBUTE, x))
  }

  ghost predicate Legal(c: Catalog, a: Ddl) {
    Unused(c, NewObjs(a)) && RefersToExisting(c, a)
  }

  function Register(m: map<nat, nat>, objs: seq<Obj>): map<nat, nat>
    decreases objs
  {
    if objs == [] then m else Register(m[objs[0].oid := objs[0].classid], objs[1..])
  }

  function Born(m: map<nat, nat>, objs: seq<Obj>, age: nat): map<nat, nat>
    decreases objs
  {
    if objs == [] then m else Born(m[objs[0].oid := age], objs[1..], age)
  }

  function Highest(high: nat, objs: seq<Obj>): (h: nat)
    ensures h >= high && forall o | o in objs :: o.oid <= h
    ensures h == high || exists o | o in objs :: o.oid == h
    decreases objs
  {
    if objs == [] then high else Highest(if objs[0].oid > high then objs[0].oid else high, objs[1..])
  }

  function Apply(c: Catalog, a: Ddl): Catalog {
    if a.DropRows? then c.(rows := a.kept)
    else Catalog(c.rows + RowsOf(a), Register(c.classOf, NewObjs(a)), Born(c.bornIn, NewObjs(a), c.age), c.age + 1,
                 Highest(c.high, NewObjs(a)))
  }

  // ------------------------------------------------------------ the invariants

  /** The row points from a known object to an older known object. */
  ghost predicate AgedRow(c: Catalog, r: DependRow) {
    && Known(c, r.obj) && Known(c, r.ref)
    && r.obj.oid in c.bornIn && r.ref.oid in c.bornIn && c.bornIn[r.obj.oid] > c.bornIn[r.ref.oid]
  }

  /** Every row points from a younger known object to an older one. */
  ghost predicate Layered(c: Catalog) {
    && (forall r | r in c.rows :: AgedRow(c, r))
    && c.classOf.Keys == c.bornIn.Keys
    && (forall x | x in c.classOf :: 0 < x <= c.high && c.bornIn[x] < c.age)
  }

  /** Every row also points from a larger OID to a smaller one. */
  ghost predicate Upward(c: Catalog) {
    Layered(c) && forall r | r in c.rows :: r.obj.oid > r.ref.oid
  }

  /** A catalog without dependencies, whatever objects it holds, is where a run can start. */
  lemma StartIsUpward(classOf: map<nat, nat>, high: nat)
    requires forall x | x in classOf :: 0 < x <= high
    ensures Upward(Catalog([], classOf, map x | x in classOf :: 0, 1, high))
  {
  }

  lemma {:induction false} RegisterOld(m: map<nat, nat>, b: map<nat, nat>, objs: seq<Obj>, age: nat, x: nat)
    requires forall o | o in objs :: o.oid != x
    ensures (x in Register(m, objs) <==> x in m) && (x in Born(b, objs, age) <==> x in b)
    ensures x in m ==> Register(m, objs)[x] == m[x]
    ensures x in b ==> Born(b, objs, age)[x] == b[x]
    decreases objs
  {
    if objs != [] {
      assert objs[0] in objs;
      RegisterOld(m[objs[0].oid := objs[0].classid], b[objs[0].oid := age], objs[1..], age, x);
    }
  }

  lemma {:induction false} RegisterNew(m: map<nat, nat>, b: map<nat, nat>, objs: seq<Obj>, age: nat, i: nat)
    requires i < |objs| && Differ(objs)
    ensures objs[i].oid in Register(m, objs) && Register(m, objs)[objs[i].oid] == objs[i].classid
    ensures objs[i].oid in Born(b, objs, age) && Born(b, objs, age)[objs[i].oid] == age
    decreases objs
  {
    var m', b' := m[objs[0].oid := objs[0].classid], b[objs[0].oid := age];
    if i == 0 {
      forall o | o in objs[1..] ensures o.oid != objs[0].oid {
        var j :| 0 <= j < |objs[1..]| && objs[1..][j] == o;
        assert o == objs[j + 1];
      }
      RegisterOld(m', b', objs[1..], age, objs[0].oid);
    } else {
      RegisterNew(m', b', objs[1..], age, i - 1);
    }
  }

  lemma NewAreKnown(c: Catalog, a: Ddl, o: Obj)
    requires Unused(c, NewObjs(a)) && !a.DropRows? && o in NewObjs(a)
    ensures Known(Apply(c, a), o) && o.oid in Apply(c, a).bornIn && Apply(c, a).bornIn[o.oid] == c.age
  {
    var i :| 0 <= i < |NewObjs(a)| && NewObjs(a)[i] == o;
    RegisterNew(c.classOf, c.bornIn, NewObjs(a), c.age, i);
  }

  lemma OldStayKnown(c: Catalog, a: Ddl, o: Obj)
    requires Layered(c) && Unused(c, NewObjs(a)) && !a.DropRows? && Known(c, o)
    ensures Known(Apply(c, a), o) && o.oid in Apply(c, a).bornIn && Apply(c, a).bornIn[o.oid] == c.bornIn[o.oid] < c.age
  {
    RegisterOld(c.classOf, c.bornIn, NewObjs(a), c.age, o.oid);
  }

  /** A row from an object the statement creates to an object that existed. */
  ghost predicate NewToOld(c: Catalog, a: Ddl, r: DependRow) {
    r.obj in NewObjs(a) && Known(c, r.ref)
  }

  lemma {:induction false} AttrObjsMember(attrs: seq<Attr>, a: Attr)
    requires a in attrs
    ensures Obj(PG_ATTRIBUTE, a.attoid) in AttrObjs(attrs)
  {
    if attrs[0] != a {
      AttrObjsMember(attrs[1..], a);
    }
  }

  lemma {:induction false} ColumnRowsMember(attrs: seq<Attr>, r: DependRow)
    requires r in ColumnRows(attrs)
    ensures exists a | a in attrs :: a.typid != INVALID_OID
              && r == DependRow(Obj(PG_ATTRIBUTE, a.attoid), Obj(PG_TYPE, a.typid), 'n')
  {
    var n := |attrs| - 1;
    if r in ColumnRows(attrs[..n]) {
      ColumnRowsMember(attrs[..n], r);
    } else {
      assert attrs[n] in attrs;
    }
  }

  lemma {:induction false} OnColumnsMember(o: Obj, cols: seq<nat>, r: DependRow)
    requires r in OnColumns(o, cols)
    ensures exists x | x in cols :: x != INVALID_OID && r == DependRow(o, Obj(PG_ATTRIBUTE, x), 'i')
  {
    var n := |cols| - 1;
    if r in OnColumns(o, cols[..n]) {
      OnColumnsMember(o, cols[..n], r);
    } else {
      assert cols[n] in cols;
    }
  }

  lemma TableRowsNewToOld(c: Catalog, a: Ddl, r: DependRow)
    requires a.CreateTable? || a.CreateMatview?
    requires RefersToExisting(c, a) && r in TableRows(a.oid, a.ns, a.attrs)
    ensures NewToOld(c, a, r)
  {
    assert Obj(PG_CLASS, a.oid) in NewObjs(a);
    if r in ColumnRows(a.attrs) {
      ColumnRowsMember(a.attrs, r);
      var t :| t in a.attrs && t.typid != INVALID_OID
               && r == DependRow(Obj(PG_ATTRIBUTE, t.attoid), Obj(PG_TYPE, t.typid), 'n');
      AttrObjsMember(a.attrs, t);
    }
  }

  /** Every row a builder writes goes from a new object to an existing one. */
  lemma RowsNewToOld(c: Catalog, a: Ddl, r: DependRow)
    requires RefersToExisting(c, a) && r in RowsOf(a)
    ensures NewToOld(c, a, r)
  {
    match a
    case CreateTable(_, _, _) => TableRowsNewToOld(c, a, r);
    case CreateInNamespace(obj, _, _) => assert obj in NewObjs(a);
    case CreateMatview(oid, _, _, _, _) =>
      assert Obj(PG_CLASS, oid) in NewObjs(a);
      if r in TableRows(a.oid, a.ns, a.attrs) {
        TableRowsNewToOld(c, a, r);
      }
    case CreateIndex(oid, _, cols) =>
      assert Obj(PG_CLASS, oid) in NewObjs(a);
      if r in OnColumns(Obj(PG_CLASS, oid), cols) {
        OnColumnsMember(Obj(PG_CLASS, oid), cols, r);
      }
    case CreateConstraint(oid, _, cols, _, _) =>
      assert Obj(PG_CONSTRAINT, oid) in NewObjs(a);
      if r in OnColumns(Obj(PG_CONSTRAINT, oid), cols) {
        OnColumnsMember(Obj(PG_CONSTRAINT, oid), cols, r);
      }
  }

  lemma RowStaysAged(c: Catalog, a: Ddl, r: DependRow)
    requires Layered(c) && Legal(c, a) && !a.DropRows? && r in Apply(c, a).rows
    ensures AgedRow(Apply(c, a), r)
  {
    if r in c.rows {
      assert AgedRow(c, r);
      OldStayKnown(c, a, r.obj);
      OldStayKnown(c, a, r.ref);
    } else {
      RowsNewToOld(c, a, r);
      NewAreKnown(c, a, r.obj);
      OldStayKnown(c, a, r.ref);
    }
  }

  lemma OidStaysAged(c: Catalog, a: Ddl, x: nat)
    requires Layered(c) && Legal(c, a) && !a.DropRows?
    ensures x in Apply(c, a).classOf <==> x in Apply(c, a).bornIn
    ensures x in Apply(c, a).classOf ==> 0 < x <= Apply(c, a).high && Apply(c, a).bornIn[x] < Apply(c, a).age
  {
    if o :| o in NewObjs(a) && o.oid == x {
      NewAreKnown(c, a, o);
    } else {
      RegisterOld(c.classOf, c.bornIn, NewObjs(a), c.age, x);
    }
  }

  /** Every statement keeps the rows pointing from younger to older objects. */
  lemma DdlKeepsLayered(c: Catalog, a: Ddl)
    requires Layered(c) && Legal(c, a)
    ensures Layered(Apply(c, a))
  {
    hide RefersToExisting, Unused, RowsOf, NewObjs;
    var c' := Apply(c, a);
    if !a.DropRows? {
      hide Known, Register, Born;
      forall r | r in c'.rows ensures AgedRow(c', r) {
        RowStaysAged(c, a, r);
      }
      forall x: nat ensures x in c'.classOf <==> x in c'.bornIn {
        OidStaysAged(c, a, x);
      }
      forall x | x in c'.classOf ensures 0 < x <= c'.high && c'.bornIn[x] < c'.age {
        OidStaysAged(c, a, x);
      }
    } else {
      KeptAreOld(c, a);
      KeptRows(c, a.kept);
    }
  }

  lemma KeptRows(c: Catalog, kept: seq<DependRow>)
    requires Layered(c) && forall r | r in kept :: r in c.rows
    ensures Layered(c.(rows := kept))
  {
    forall r | r in kept ensures AgedRow(c.(rows := kept), r) {
      assert AgedRow(c, r);
    }
  }

  lemma FreshIsUnused(c: Catalog, objs: seq<Obj>)
    requires Layered(c) && Fresh(c, objs)
    ensures Unused(c, objs)
  {
  }

  /** With OIDs above all earlier ones, rows also point from larger to smaller OIDs. */
  lemma DdlKeepsUpward(c: Catalog, a: Ddl)
    requires Upward(c) && Fresh(c, NewObjs(a)) && RefersToExisting(c, a)
    ensures Legal(c, a) && Upward(Apply(c, a))
  {
    hide RefersToExisting, Known, Register, Born;
    FreshIsUnused(c, NewObjs(a));
    DdlKeepsLayered(c, a);
    if !a.DropRows? {
      forall r | r in Apply(c, a).rows && r !in c.rows ensures r.obj.oid > r.ref.oid {
        RowsNewToOld(c, a, r);
        RefIsOld(c, a, r);
      }
    } else {
      KeptAreOld(c, a);
    }
  }

  lemma RefIsOld(c: Catalog, a: Ddl, r: DependRow)
    requires Layered(c) && NewToOld(c, a, r)
    ensures r.ref.oid <= c.high
  {
  }

  lemma KeptAreOld(c: Catalog, a: Ddl)
    requires a.DropRows? && RefersToExisting(c, a)
    ensures forall r | r in a.kept :: r in c.rows
  {
  }

  function After(c: Catalog, steps: seq<Ddl>): Catalog
    decreases steps
  {
    if steps == [] then c else After(Apply(c, steps[0]), steps[1..])
  }

  ghost predicate LegalRun(c: Catalog, steps: seq<Ddl>)
    decreases steps
  {
    steps == [] || (Legal(c, steps[0]) && LegalRun(Apply(c, steps[0]), steps[1..]))
  }

  ghost predicate RefersRun(c: Catalog, steps: seq<Ddl>)
    decreases steps
  {
    steps == [] || (RefersToExisting(c, steps[0]) && RefersRun(Apply(c, steps[0]), steps[1..]))
  }

  /** Any statements with unused OIDs, in any order, keep the catalog layered. */
  lemma {:induction false} RunKeepsLayered(c: Catalog, steps: seq<Ddl>)
    requires Layered(c) && LegalRun(c, steps)
    ensures Layered(After(c, steps))
    decreases steps
  {
    hide Layered, Legal, Apply;
    if steps != [] {
      DdlKeepsLayered(c, steps[0]);
      RunKeepsLayered(Apply(c, steps[0]), steps[1..]);
    }
  }

  // ------------------------------------------------------------ where unused OIDs come from

  function AllObjs(steps: seq<Ddl>): seq<Obj>
    decreases steps
  {
    if steps == [] then [] else NewObjs(steps[0]) + AllObjs(steps[1..])
  }

  ghost predicate NoneUsed(c: Catalog, objs: seq<Obj>) {
    forall o | o in objs :: o.oid != INVALID_OID && o.oid !in c.classOf
  }

  lemma NoneUsedLater(c: Catalog, a: Ddl, later: seq<Obj>)
    requires NoneUsed(c, NewObjs(a) + later) && Differ(NewObjs(a) + later)
    ensures Unused(c, NewObjs(a)) && NoneUsed(Apply(c, a), later) && Differ(later)
  {
    var objs := NewObjs(a);
    var all := objs + later;
    forall i, j | 0 <= i < j < |objs| ensures objs[i].oid != objs[j].oid {
      assert all[i] == objs[i] && all[j] == objs[j];
    }
    forall i, j | 0 <= i < j < |later| ensures later[i].oid != later[j].oid {
      assert all[|objs| + i] == later[i] && all[|objs| + j] == later[j];
    }
    forall o | o in objs ensures o in all {}
    forall o | o in later ensures o.oid != INVALID_OID && o.oid !in Apply(c, a).classOf {
      assert o in all;
      var j :| 0 <= j < |later| && later[j] == o;
      forall u | u in objs ensures u.oid != o.oid {
        var i :| 0 <= i < |objs| && objs[i] == u;
        assert all[i] == u && all[|objs| + j] == o;
      }
      RegisterOld(c.classOf, c.bornIn, objs, c.age, o.oid);
    }
  }

  lemma {:induction false} UnusedRunIsLegal(c: Catalog, steps: seq<Ddl>)
    requires RefersRun(c, steps) && NoneUsed(c, AllObjs(steps)) && Differ(AllObjs(steps))
    ensures LegalRun(c, steps)
    decreases steps
  {
    hide RefersToExisting, NoneUsed, Differ, Unused, Apply;
    if steps != [] {
      NoneUsedLater(c, steps[0], AllObjs(steps[1..]));
      UnusedRunIsLegal(Apply(c, steps[0]), steps[1..]);
    }
  }

  /** Objects that take their OIDs from what the generator returned between two moments, each return
      going to one object. */
  ghost predicate DrawnBetween(m: G.State, e: G.State, picks: seq<nat>, objs: seq<Obj>) {
    && |picks| == |objs|
    && (forall i, j | 0 <= i < j < |picks| :: picks[i] != picks[j])
    && (forall i | 0 <= i < |picks| :: |m.returned| <= picks[i] < |e.returned| && objs[i].oid == e.returned[picks[i]])
  }

  /** OIDs drawn after a moment are at least the counter of that moment, below the last one, and differ. */
  lemma DrawnAreApart(m: G.State, later: seq<G.Step>, picks: seq<nat>, objs: seq<Obj>)
    requires G.Inv(m) && G.LegalRun(m, later) && DrawnBetween(m, G.After(m, later), picks, objs)
    ensures Differ(objs) && G.Inv(G.After(m, later))
    ensures forall o | o in objs :: m.next <= o.oid < G.After(m, later).next
  {
    G.RunKeepsInv(m, later);
    var e := G.After(m, later);
    forall i, j | 0 <= i < j < |objs| ensures objs[i].oid != objs[j].oid {
      assert picks[i] < picks[j] || picks[j] < picks[i];
    }
    forall o | o in objs ensures m.next <= o.oid < e.next {
      var i :| 0 <= i < |objs| && objs[i] == o;
      assert e.returned[picks[i]] in e.returned;
    }
  }

  /** Statements whose OIDs were drawn from the generator by any threads in any interleaving, and applied
      in any order, make a legal run: only the counter must have been above the catalog before. */
  lemma DrawnRunIsLegal(c: Catalog, m: G.State, later: seq<G.Step>, picks: seq<nat>, steps: seq<Ddl>)
    requires Layered(c) && c.high < m.next && RefersRun(c, steps)
    requires G.Inv(m) && G.LegalRun(m, later) && DrawnBetween(m, G.After(m, later), picks, AllObjs(steps))
    ensures LegalRun(c, steps)
  {
    DrawnAreApart(m, later, picks, AllObjs(steps));
    assert NoneUsed(c, AllObjs(steps));
    UnusedRunIsLegal(c, steps);
  }

  /** Each statement draws its OIDs while the generator runs on from where the one before left it. */
  ghost predicate DrawnInTurn(m: G.State, steps: seq<Ddl>, runs: seq<seq<G.Step>>, picks: seq<seq<nat>>)
    decreases steps
  {
    && |steps| == |runs| == |picks|
    && (steps == [] ||
        (&& G.LegalRun(m, runs[0])
         && DrawnBetween(m, G.After(m, runs[0]), picks[0], NewObjs(steps[0]))
         && DrawnInTurn(G.After(m, runs[0]), steps[1..], runs[1..], picks[1..])))
  }

  /** OIDs drawn while the counter is above the catalog are larger than all of it, and leave the counter
      above the catalog that has them. */
  lemma GeneratorOidsAreFresh(c: Catalog, m: G.State, later: seq<G.Step>, picks: seq<nat>, objs: seq<Obj>)
    requires G.Inv(m) && G.LegalRun(m, later) && c.high < m.next
    requires DrawnBetween(m, G.After(m, later), picks, objs)
    ensures Fresh(c, objs) && G.Inv(G.After(m, later)) && Highest(c.high, objs) < G.After(m, later).next
  {
    DrawnAreApart(m, later, picks, objs);
    G.RunKeepsInv(m, later);
  }

  /** Statements that draw their OIDs in turn, from any interleaving, keep every row pointing from a larger
      OID to a smaller one. */
  lemma {:induction false} DrawnInTurnIsUpward(
    c: Catalog, m: G.State, steps: seq<Ddl>, runs: seq<seq<G.Step>>, picks: seq<seq<nat>>)
    requires Upward(c) && G.Inv(m) && c.high < m.next && RefersRun(c, steps) && DrawnInTurn(m, steps, runs, picks)
    ensures LegalRun(c, steps) && Upward(After(c, steps))
    decreases steps
  {
    hide Upward, G.Inv, RefersToExisting, Fresh, Legal, DrawnBetween, NewObjs;
    if steps != [] {
      GeneratorOidsAreFresh(c, m, runs[0], picks[0], NewObjs(steps[0]));
      DdlKeepsUpward(c, steps[0]);
      HighAfter(c, steps[0]);
      DrawnInTurnIsUpward(Apply(c, steps[0]), G.After(m, runs[0]), steps[1..], runs[1..], picks[1..]);
    }
  }

  lemma HighAfter(c: Catalog, a: Ddl)
    ensures Apply(c, a).high == Highest(c.high, NewObjs(a))
  {
  }

  /** A generator seeded with the largest OID of the catalog has its counter above it. */
  lemma SeededIsAbove(c: Catalog, s: G.State, before: seq<G.Step>)
    requires G.Initial(s) && G.LegalRun(s, before) && c.high in G.After(s, before).seeded
    ensures G.Inv(G.After(s, before)) && c.high < G.After(s, before).next
  {
    G.NoneAborted(s.threads);
    G.RunKeepsInv(s, before);
  }

  // ------------------------------------------------------------ no cycles

  lemma {:induction false} PathsAge(c: Catalog, p: seq<Obj>)
    requires Layered(c) && Path(c.rows, p) && |p| > 1
    ensures p[0].oid in c.bornIn && p[|p| - 1].oid in c.bornIn && c.bornIn[p[0].oid] < c.bornIn[p[|p| - 1].oid]
    decreases |p|
  {
    assert Edge(c.rows, p[0], p[1]);
    var i :| 0 <= i < |c.rows| && c.rows[i].ref == p[0] && c.rows[i].obj == p[1];
    assert AgedRow(c, c.rows[i]);
    if |p| > 2 {
      var q := p[1..];
      forall k | 0 <= k < |q| - 1 ensures Edge(c.rows, q[k], q[k + 1]) {
        assert Edge(c.rows, p[k + 1], p[k + 2]);
      }
      PathsAge(c, q);
    }
  }

  /** The premises of the walk hold, and nothing cycles. */
  lemma LayeredIsNamedAndAcyclic(c: Catalog, seed: Obj)
    requires Layered(c) && Known(c, seed)
    ensures Named(c.rows, seed) && !CycleReachable(c.rows, seed)
  {
    forall o | Reaches(c.rows, seed, o) ensures Known(c, o) && o.oid != INVALID_OID {
      if o != seed {
        var p :| PathFromTo(c.rows, p, seed, o);
        assert Edge(c.rows, p[|p| - 2], p[|p| - 1]);
        var i :| 0 <= i < |c.rows| && c.rows[i].ref == p[|p| - 2] && c.rows[i].obj == o;
        assert AgedRow(c, c.rows[i]);
      }
    }
    forall v | OnCycle(c.rows, v) ensures false {
      var p :| |p| > 1 && PathFromTo(c.rows, p, v, v);
      PathsAge(c, p);
    }
  }

  /** After any statements on a well-formed catalog, CASCADE from any object succeeds and lists
      exactly what lies below it, dependents first. */
  method DropCascade(c: Catalog, steps: seq<Ddl>, seed: Obj) returns (plan: Plan)
    requires Layered(c) && LegalRun(c, steps) && Known(After(c, steps), seed)
    ensures plan.status.Fine? && GoodCascade(After(c, steps).rows, seed, plan.steps)
  {
    RunKeepsLayered(c, steps);
    LayeredIsNamedAndAcyclic(After(c, steps), seed);
    plan := PlanDrop(After(c, steps).rows, seed, Cascade);
  }
}
