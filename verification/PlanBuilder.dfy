/**
  The part of `makePhysicalPlan` that places filters on base tables, merges nodes by joins and
  checks that everything got joined.  Operators are compared by identity, as in the source.
 */
module PlanBuilder {
  import opened Values
  import opened PlanGroups
  import opened PlanTrees

  datatype Node = Node(id: nat, op: Plan)

  type TableMap = map<Name, Node>

  /** The field types of each table. */
  type Schema = map<Name, Desc>

  datatype LogicalPlan = LogicalPlan(tables: seq<Name>, filters: seq<FilterNode>, joins: seq<JoinNode>)

  datatype Outcome = Planned(op: Plan) | NotJoined | Unresolved | NoTables

  // ---- Names and types ----

  function FieldType(schema: Schema, ref: FieldRef): Option<DBType> {
    if ref.table in schema && ref.index < |schema[ref.table]| then Some(schema[ref.table][ref.index]) else None
  }

  predicate FilterResolved(schema: Schema, names: set<Name>, f: FilterNode) {
    f.field.table in names && FieldType(schema, f.field) == Some(TypeOf(f.value))
  }

  predicate JoinResolved(schema: Schema, names: set<Name>, j: JoinNode) {
    && j.left.table in names && j.right.table in names
    && FieldType(schema, j.left).Some? && FieldType(schema, j.left) == FieldType(schema, j.right)
  }

  predicate JoinsOk(schema: Schema, names: set<Name>, joins: seq<JoinNode>) {
    forall j | j in joins :: JoinResolved(schema, names, j)
  }

  function Names(tables: seq<Name>): set<Name> {
    set t | t in tables
  }

  /** Every filter and join names tables of the query and compares fields of one type. */
  predicate Resolved(schema: Schema, lp: LogicalPlan) {
    && (forall f | f in lp.filters :: FilterResolved(schema, Names(lp.tables), f))
    && JoinsOk(schema, Names(lp.tables), lp.joins)
  }

  /** Every name is a table of the query with such a field, and the types are equal. */
  lemma ResolvedMeans(schema: Schema, lp: LogicalPlan)
    ensures Resolved(schema, lp) <==>
      && (forall f | f in lp.filters ::
            && f.field.table in lp.tables && f.field.table in schema && f.field.index < |schema[f.field.table]|
            && schema[f.field.table][f.field.index] == if f.value.IntField? then IntType else StringType)
      && (forall j | j in lp.joins ::
            && j.left.table in lp.tables && j.left.table in schema && j.left.index < |schema[j.left.table]|
            && j.right.table in lp.tables && j.right.table in schema && j.right.index < |schema[j.right.table]|
            && schema[j.left.table][j.left.index] == schema[j.right.table][j.right.index])
  {
    NamesAre(lp.tables);
    hide Names;
    forall f | f in lp.filters
      ensures FilterResolved(schema, Names(lp.tables), f) <==>
            && f.field.table in lp.tables && f.field.table in schema && f.field.index < |schema[f.field.table]|
            && schema[f.field.table][f.field.index] == if f.value.IntField? then IntType else StringType
    {
    }
    forall j | j in lp.joins
      ensures JoinResolved(schema, Names(lp.tables), j) <==>
            && j.left.table in lp.tables && j.left.table in schema && j.left.index < |schema[j.left.table]|
            && j.right.table in lp.tables && j.right.table in schema && j.right.index < |schema[j.right.table]|
            && schema[j.left.table][j.left.index] == schema[j.right.table][j.right.index]
    {
    }
  }

  // ---- The three phases as functions on the table map ----

  function BaseMap(tables: seq<Name>): (tm: TableMap)
    ensures tm.Keys == Names(tables)
  {
    if tables == [] then map[] else
    var last := tables[|tables| - 1];
    BaseMap(tables[..|tables| - 1])[last := Node(|tables| - 1, Scan(last))]
  }

  function FilterStep(tm: TableMap, f: FilterNode, id: nat): (tm': TableMap)
    requires f.field.table in tm
    ensures tm'.Keys == tm.Keys
  {
    tm[f.field.table := Node(id, Filter(f, tm[f.field.table].op))]
  }

  function JoinStep(tm: TableMap, j: JoinNode, id: nat): (tm': TableMap)
    requires j.left.table in tm && j.right.table in tm
    ensures tm'.Keys == tm.Keys
  {
    var n1, n2 := tm[j.left.table], tm[j.right.table];
    map k | k in tm :: if tm[k].id == n1.id || tm[k].id == n2.id then Node(id, Join(n1.op, n2.op, j)) else tm[k]
  }

  function AddFilters(tm: TableMap, filters: seq<FilterNode>, id: nat): (tm': TableMap)
    requires forall f | f in filters :: f.field.table in tm
    ensures tm'.Keys == tm.Keys
  {
    if filters == [] then tm else
    FilterStep(AddFilters(tm, filters[..|filters| - 1], id), filters[|filters| - 1], id + |filters| - 1)
  }

  function AddJoins(tm: TableMap, joins: seq<JoinNode>, id: nat): (tm': TableMap)
    requires forall j | j in joins :: j.left.table in tm && j.right.table in tm
    ensures tm'.Keys == tm.Keys
  {
    if joins == [] then tm else
    JoinStep(AddJoins(tm, joins[..|joins| - 1], id), joins[|joins| - 1], id + |joins| - 1)
  }

  /** The table map once all filters and joins are applied. */
  function FinalMap(lp: LogicalPlan): TableMap
    requires forall f | f in lp.filters :: f.field.table in lp.tables
    requires forall j | j in lp.joins :: j.left.table in lp.tables && j.right.table in lp.tables
  {
    AddJoins(FilteredMap(lp), lp.joins, |lp.tables| + |lp.filters|)
  }

  // ---- After the filters: one plan per table ----

  ghost predicate Single(tm: TableMap, next: nat) {
    && (forall a | a in tm :: tm[a].id < next && Leaves(tm[a].op) == [a])
    && (forall a, b | a in tm && b in tm && tm[a].id == tm[b].id :: a == b)
  }

  ghost predicate EachDenotes(db: DB, tm: TableMap, filters: seq<FilterNode>) {
    forall a | a in tm :: Denotes(db, tm[a].op, {a}, filters, [])
  }

  lemma {:induction false} BaseIsSingle(db: DB, tables: seq<Name>)
    requires Names(tables) <= db.Keys
    ensures Single(BaseMap(tables), |tables|) && EachDenotes(db, BaseMap(tables), [])
  {
    if tables != [] {
      var front, last := tables[..|tables| - 1], tables[|tables| - 1];
      assert Names(front) <= Names(tables);
      BaseIsSingle(db, front);
      ScanDenotes(db, last);
    }
  }

  lemma FilterStepSingle(db: DB, tm: TableMap, f: FilterNode, id: nat, filters: seq<FilterNode>)
    requires Single(tm, id) && EachDenotes(db, tm, filters) && f.field.table in tm
    ensures Single(FilterStep(tm, f, id), id + 1) && EachDenotes(db, FilterStep(tm, f, id), filters + [f])
  {
    var tm' := FilterStep(tm, f, id);
    forall a | a in tm'
      ensures Denotes(db, tm'[a].op, {a}, filters + [f], [])
    {
      if a == f.field.table {
        FilterDenotes(db, tm[a].op, {a}, filters, [], f);
      } else {
        FilterElsewhere(db, tm[a].op, {a}, filters, [], f);
      }
    }
  }

  lemma {:induction false} FiltersSingle(db: DB, tm: TableMap, filters: seq<FilterNode>, id: nat)
    requires Single(tm, id) && EachDenotes(db, tm, []) && forall f | f in filters :: f.field.table in tm
    ensures Single(AddFilters(tm, filters, id), id + |filters|) && EachDenotes(db, AddFilters(tm, filters, id), filters)
  {
    hide Single, EachDenotes, FilterStep;
    if filters != [] {
      var front, last := filters[..|filters| - 1], filters[|filters| - 1];
      FiltersSingle(db, tm, front, id);
      FilterStepSingle(db, AddFilters(tm, front, id), last, id + |front|, front);
      assert filters == front + [last];
    }
  }

  // ---- After each join: one plan per connected component ----

  /** Tables share a node exactly when the joins so far connect them. */
  ghost predicate Grouped(tm: TableMap, joins: seq<JoinNode>, next: nat) {
    && (forall a | a in tm :: tm[a].id < next)
    && (forall a, b | a in tm && b in tm :: tm[a].id == tm[b].id <==> Connected(joins, a, b))
    && (forall a, b | a in tm && b in tm && tm[a].id == tm[b].id :: tm[a] == tm[b])
  }

  function Component(tm: TableMap, a: Name): set<Name>
    requires a in tm
  {
    set b | b in tm && tm[b].id == tm[a].id
  }

  lemma SingleIsGrouped(tm: TableMap, next: nat)
    requires Single(tm, next)
    ensures Grouped(tm, [], next)
  {
    forall a, b | a in tm && b in tm
      ensures tm[a].id == tm[b].id <==> Connected([], a, b)
    {
      ConnectedSelf([], a);
      if Connected([], a, b) {
        var p :| ChainBetween([], p, a, b);
        if |p| > 1 {
          assert Linked([], p[0], p[1]);
        }
      }
    }
  }

  lemma SymIn(joins: seq<JoinNode>, a: Name, b: Name)
    ensures Connected(joins, a, b) <==> Connected(joins, b, a)
  {
    if Connected(joins, a, b) {
      var p :| ChainBetween(joins, p, a, b);
      ConnectedSym(joins, p, a, b);
    }
    if Connected(joins, b, a) {
      var p :| ChainBetween(joins, p, b, a);
      ConnectedSym(joins, p, b, a);
    }
  }

  lemma JoinStepGrouped(tm: TableMap, joins: seq<JoinNode>, j: JoinNode, id: nat)
    requires Grouped(tm, joins, id) && j.left.table in tm && j.right.table in tm
    ensures Grouped(JoinStep(tm, j, id), joins + [j], id + 1)
  {
    var tm' := JoinStep(tm, j, id);
    var l, r := j.left.table, j.right.table;
    forall a, b | a in tm && b in tm
      ensures tm'[a].id == tm'[b].id <==> Connected(joins + [j], a, b)
    {
      ConnectedSnoc(joins, j, a, b);
      SymIn(joins, l, b);
      SymIn(joins, r, b);
      assert tm[a].id == tm[b].id <==> Connected(joins, a, b);
      assert tm[a].id == tm[l].id <==> Connected(joins, a, l);
      assert tm[a].id == tm[r].id <==> Connected(joins, a, r);
      assert tm[b].id == tm[l].id <==> Connected(joins, b, l);
      assert tm[b].id == tm[r].id <==> Connected(joins, b, r);
    }
  }

  lemma NoJoins(tm: TableMap, id: nat)
    ensures AddJoins(tm, [], id) == tm
  {
  }

  lemma LastJoin(tm: TableMap, joins: seq<JoinNode>, id: nat)
    requires joins != [] && forall j | j in joins :: j.left.table in tm && j.right.table in tm
    ensures var front, last := joins[..|joins| - 1], joins[|joins| - 1];
      && joins == front + [last]
      && AddJoins(tm, joins, id) == JoinStep(AddJoins(tm, front, id), last, id + |front|)
  {
    hide JoinStep;
  }

  lemma {:induction false} JoinsGrouped(tm: TableMap, joins: seq<JoinNode>, id: nat)
    requires Single(tm, id) && forall j | j in joins :: j.left.table in tm && j.right.table in tm
    ensures Grouped(AddJoins(tm, joins, id), joins, id + |joins|)
  {
    hide *;
    NoJoins(tm, id);
    if joins == [] {
      SingleIsGrouped(tm, id);
    } else {
      var front, last := joins[..|joins| - 1], joins[|joins| - 1];
      LastJoin(tm, joins, id);
      JoinsGrouped(tm, front, id);
      JoinStepGrouped(AddJoins(tm, front, id), front, last, id + |front|);
    }
  }

  // ---- Meaning ----

  ghost predicate GroupsDenote(db: DB, tm: TableMap, filters: seq<FilterNode>, joins: seq<JoinNode>) {
    forall a | a in tm :: Denotes(db, tm[a].op, Component(tm, a), filters, joins)
  }

  lemma ComponentsApart(tm: TableMap, joins: seq<JoinNode>, next: nat, a: Name, b: Name)
    requires Grouped(tm, joins, next) && a in tm && b in tm && tm[a].id != tm[b].id
    ensures Component(tm, a) !! Component(tm, b) && Apart(joins, Component(tm, a), Component(tm, b))
  {
    forall j | j in joins
      ensures !(j.left.table in Component(tm, a) && j.right.table in Component(tm, b))
      ensures !(j.left.table in Component(tm, b) && j.right.table in Component(tm, a))
    {
      ConnectedJoin(joins, j, j.left.table, j.right.table);
    }
  }

  lemma JoinStepMeaning(db: DB, tm: TableMap, filters: seq<FilterNode>, joins: seq<JoinNode>, j: JoinNode, id: nat)
    requires Grouped(tm, joins, id) && GroupsDenote(db, tm, filters, joins)
    requires j.left.table in tm && j.right.table in tm && !Connected(joins, j.left.table, j.right.table)
    ensures GroupsDenote(db, JoinStep(tm, j, id), filters, joins + [j])
  {
    var tm' := JoinStep(tm, j, id);
    var l, r := j.left.table, j.right.table;
    var ts, us := Component(tm, l), Component(tm, r);
    ComponentsApart(tm, joins, id, l, r);
    JoinDenotes(db, tm[l].op, tm[r].op, ts, us, filters, joins, j);
    forall a | a in tm'
      ensures Denotes(db, tm'[a].op, Component(tm', a), filters, joins + [j])
    {
      if tm[a].id == tm[l].id || tm[a].id == tm[r].id {
        assert Component(tm', a) == ts + us;
      } else {
        assert Component(tm', a) == Component(tm, a);
        JoinElsewhere(db, tm[a].op, Component(tm, a), filters, joins, j);
      }
    }
  }

  lemma AcyclicFront(joins: seq<JoinNode>)
    requires joins != [] && Acyclic(joins)
    ensures Acyclic(joins[..|joins| - 1])
    ensures !Connected(joins[..|joins| - 1], joins[|joins| - 1].left.table, joins[|joins| - 1].right.table)
  {
    var front := joins[..|joins| - 1];
    forall i | 0 <= i < |front|
      ensures !Connected(front[..i], front[i].left.table, front[i].right.table)
    {
      assert front[..i] == joins[..i];
    }
  }

  lemma SingleMeaning(db: DB, tm: TableMap, filters: seq<FilterNode>, id: nat)
    requires Single(tm, id) && EachDenotes(db, tm, filters)
    ensures GroupsDenote(db, tm, filters, [])
  {
    hide Denotes;
    forall a | a in tm
      ensures Denotes(db, tm[a].op, Component(tm, a), filters, [])
    {
      assert Component(tm, a) == {a};
    }
  }

  lemma {:induction false} JoinsMeaning(db: DB, tm: TableMap, filters: seq<FilterNode>, joins: seq<JoinNode>, id: nat)
    requires Single(tm, id) && EachDenotes(db, tm, filters) && Acyclic(joins)
    requires forall j | j in joins :: j.left.table in tm && j.right.table in tm
    ensures GroupsDenote(db, AddJoins(tm, joins, id), filters, joins)
  {
    hide *;
    NoJoins(tm, id);
    if joins == [] {
      SingleMeaning(db, tm, filters, id);
    } else {
      var front, last := joins[..|joins| - 1], joins[|joins| - 1];
      LastJoin(tm, joins, id);
      AcyclicFront(joins);
      JoinsMeaning(db, tm, filters, front, id);
      JoinsGrouped(tm, front, id);
      JoinStepMeaning(db, AddJoins(tm, front, id), filters, front, last, id + |front|);
    }
  }

  // ---- Leaves: each table is scanned once exactly when no join closes a cycle ----

  ghost predicate LeavesCover(tm: TableMap) {
    forall a | a in tm :: forall t :: t in Leaves(tm[a].op) <==> t in Component(tm, a)
  }

  ghost predicate LeavesOnce(tm: TableMap) {
    forall a | a in tm :: Distinct(Leaves(tm[a].op))
  }

  lemma JoinStepCovers(tm: TableMap, joins: seq<JoinNode>, j: JoinNode, id: nat)
    requires Grouped(tm, joins, id) && LeavesCover(tm) && j.left.table in tm && j.right.table in tm
    ensures LeavesCover(JoinStep(tm, j, id))
  {
    var tm' := JoinStep(tm, j, id);
    var l, r := j.left.table, j.right.table;
    forall a, t | a in tm'
      ensures t in Leaves(tm'[a].op) <==> t in Component(tm', a)
    {
      if tm[a].id == tm[l].id || tm[a].id == tm[r].id {
        assert Component(tm', a) == Component(tm, l) + Component(tm, r);
        assert t in Leaves(tm'[a].op) <==> t in Leaves(tm[l].op) || t in Leaves(tm[r].op);
      } else {
        assert Component(tm', a) == Component(tm, a);
      }
    }
  }

  lemma DupConcat<T>(a: seq<T>, b: seq<T>)
    requires a != [] && (a == b || !Distinct(a) || !Distinct(b))
    ensures !Distinct(a + b)
  {
    var s := a + b;
    if a == b {
      assert s[0] == s[|a|];
    } else if i, k :| 0 <= i < k < |a| && a[i] == a[k] {
      assert s[i] == s[k];
    } else {
      var i, k :| 0 <= i < k < |b| && b[i] == b[k];
      assert s[|a| + i] == s[|a| + k];
    }
  }

  lemma JoinStepOnce(tm: TableMap, joins: seq<JoinNode>, j: JoinNode, id: nat)
    requires Grouped(tm, joins, id) && LeavesCover(tm) && j.left.table in tm && j.right.table in tm
    ensures LeavesOnce(JoinStep(tm, j, id)) <==> LeavesOnce(tm) && !Connected(joins, j.left.table, j.right.table)
  {
    var tm' := JoinStep(tm, j, id);
    var l, r := j.left.table, j.right.table;
    var ls, rs := Leaves(tm[l].op), Leaves(tm[r].op);
    assert l in Component(tm, l) && l in ls;
    assert tm'[l].op == Join(tm[l].op, tm[r].op, j);
    if tm[l].id == tm[r].id {
      assert tm[l] == tm[r];
      DupConcat(ls, rs);
      assert !Distinct(Leaves(tm'[l].op));
    } else {
      if LeavesOnce(tm) {
        forall e | e in ls
          ensures e !in rs
        {
          assert e in Component(tm, l);
        }
        DistinctConcat(ls, rs);
      }
      if a :| a in tm && !Distinct(Leaves(tm[a].op)) {
        if tm[a].id == tm[l].id || tm[a].id == tm[r].id {
          DupConcat(ls, rs);
        }
        assert !Distinct(Leaves(tm'[a].op));
      }
    }
  }

  lemma AcyclicSnoc(joins: seq<JoinNode>)
    requires joins != []
    ensures var front, last := joins[..|joins| - 1], joins[|joins| - 1];
      Acyclic(joins) <==> Acyclic(front) && !Connected(front, last.left.table, last.right.table)
  {
    var front, last := joins[..|joins| - 1], joins[|joins| - 1];
    if Acyclic(joins) {
      AcyclicFront(joins);
    }
    if Acyclic(front) && !Connected(front, last.left.table, last.right.table) {
      forall i | 0 <= i < |joins|
        ensures !Connected(joins[..i], joins[i].left.table, joins[i].right.table)
      {
        if i < |front| {
          assert front[..i] == joins[..i] && front[i] == joins[i];
        }
      }
    }
  }

  lemma NoCycle()
    ensures Acyclic([])
  {
  }

  lemma SingleLeaves(tm: TableMap, id: nat)
    requires Single(tm, id)
    ensures LeavesCover(tm) && LeavesOnce(tm)
  {
    forall a | a in tm
      ensures forall t :: t in Leaves(tm[a].op) <==> t in Component(tm, a)
    {
      assert Component(tm, a) == {a};
    }
  }

  lemma {:induction false} JoinsLeaves(tm: TableMap, joins: seq<JoinNode>, id: nat)
    requires Single(tm, id) && forall j | j in joins :: j.left.table in tm && j.right.table in tm
    ensures LeavesCover(AddJoins(tm, joins, id))
    ensures LeavesOnce(AddJoins(tm, joins, id)) <==> Acyclic(joins)
  {
    hide *;
    NoJoins(tm, id);
    if joins == [] {
      SingleLeaves(tm, id);
      NoCycle();
    } else {
      var front, last := joins[..|joins| - 1], joins[|joins| - 1];
      LastJoin(tm, joins, id);
      JoinsLeaves(tm, front, id);
      JoinsGrouped(tm, front, id);
      JoinStepCovers(AddJoins(tm, front, id), front, last, id + |front|);
      JoinStepOnce(AddJoins(tm, front, id), front, last, id + |front|);
      AcyclicSnoc(joins);
    }
  }

  // ---- What a query asks for, in the values of its rows ----

  /** One row of each table, passing every filter and agreeing on every join. */
  ghost predicate Wanted(db: DB, lp: LogicalPlan, e: Env) {
    && e.Keys == Names(lp.tables)
    && (forall t | t in lp.tables :: t in e && t in db && e[t] < |db[t]|)
    && (forall f | f in lp.filters :: Passes(db, f, e))
    && (forall j | j in lp.joins :: Agrees(db, j, e))
  }

  lemma AnswersAreWanted(db: DB, lp: LogicalPlan, e: Env)
    requires forall f | f in lp.filters :: f.field.table in lp.tables
    requires forall j | j in lp.joins :: j.left.table in lp.tables && j.right.table in lp.tables
    ensures Answers(db, Names(lp.tables), lp.filters, lp.joins, e) <==> Wanted(db, lp, e)
  {
    hide Keeps, Passes, Matches, Agrees;
    NamesAre(lp.tables);
    forall f | f in lp.filters {
      KeepsMeans(db, f, e);
    }
    forall j | j in lp.joins {
      MatchesMeans(db, j, e);
    }
  }

  lemma DenotesWanted(schema: Schema, lp: LogicalPlan, db: DB, op: Plan)
    requires Resolved(schema, lp) && Denotes(db, op, Names(lp.tables), lp.filters, lp.joins)
    ensures Distinct(Eval(db, op)) && forall e :: e in Eval(db, op) <==> Wanted(db, lp, e)
  {
    hide Resolved, Answers, Wanted, Eval, Distinct;
    ResolvedNames(schema, lp);
    forall e
      ensures e in Eval(db, op) <==> Wanted(db, lp, e)
    {
      AnswersAreWanted(db, lp, e);
    }
  }

  // ---- The whole construction ----

  ghost predicate AllConnected(lp: LogicalPlan) {
    forall a, b | a in lp.tables && b in lp.tables :: Connected(lp.joins, a, b)
  }

  /** The table map after the filters, before the joins. */
  function FilteredMap(lp: LogicalPlan): (tm: TableMap)
    requires forall f | f in lp.filters :: f.field.table in lp.tables
    ensures tm.Keys == Names(lp.tables)
  {
    AddFilters(BaseMap(lp.tables), lp.filters, |lp.tables|)
  }

  lemma FilteredIsSingle(lp: LogicalPlan, db: DB)
    requires Names(lp.tables) <= db.Keys && forall f | f in lp.filters :: f.field.table in lp.tables
    ensures Single(FilteredMap(lp), |lp.tables| + |lp.filters|) && EachDenotes(db, FilteredMap(lp), lp.filters)
  {
    hide Single, EachDenotes, AddFilters, BaseMap;
    BaseIsSingle(db, lp.tables);
    FiltersSingle(db, BaseMap(lp.tables), lp.filters, |lp.tables|);
  }

  /** A database in which every table is empty. */
  ghost function EmptyDB(lp: LogicalPlan): (db: DB)
    ensures Names(lp.tables) <= db.Keys
  {
    map t | t in lp.tables :: []
  }

  lemma ResolvedNames(schema: Schema, lp: LogicalPlan)
    requires Resolved(schema, lp)
    ensures forall f | f in lp.filters :: f.field.table in lp.tables
    ensures forall j | j in lp.joins :: j.left.table in lp.tables && j.right.table in lp.tables
  {
  }

  /** Every name of a resolved query has an entry, and the joins start from the filtered tables. */
  lemma FinalMapIs(schema: Schema, lp: LogicalPlan)
    requires Resolved(schema, lp)
    ensures forall f | f in lp.filters :: f.field.table in lp.tables
    ensures forall j | j in lp.joins :: j.left.table in lp.tables && j.right.table in lp.tables
    ensures forall j | j in lp.joins :: j.left.table in FilteredMap(lp) && j.right.table in FilteredMap(lp)
    ensures FinalMap(lp) == AddJoins(FilteredMap(lp), lp.joins, |lp.tables| + |lp.filters|)
    ensures FinalMap(lp).Keys == Names(lp.tables)
  {
    hide Resolved, AddJoins, FilteredMap, Names;
    ResolvedNames(schema, lp);
    NamesAre(lp.tables);
  }

  lemma NamesAre(tables: seq<Name>)
    ensures forall t :: t in Names(tables) <==> t in tables
  {
  }

  lemma FinalIsGrouped(schema: Schema, lp: LogicalPlan)
    requires Resolved(schema, lp)
    ensures FinalMap(lp).Keys == Names(lp.tables)
    ensures Grouped(FinalMap(lp), lp.joins, |lp.tables| + |lp.filters| + |lp.joins|)
  {
    hide *;
    FinalMapIs(schema, lp);
    FilteredIsSingle(lp, EmptyDB(lp));
    JoinsGrouped(FilteredMap(lp), lp.joins, |lp.tables| + |lp.filters|);
  }

  /** Two tables share a node of the final map exactly when the joins connect them. */
  lemma FinalMapGroups(schema: Schema, lp: LogicalPlan, a: Name, b: Name)
    requires Resolved(schema, lp) && a in lp.tables && b in lp.tables
    ensures a in FinalMap(lp) && b in FinalMap(lp)
    ensures FinalMap(lp)[a].id == FinalMap(lp)[b].id <==> Connected(lp.joins, a, b)
    ensures FinalMap(lp)[a].id == FinalMap(lp)[b].id ==> FinalMap(lp)[a] == FinalMap(lp)[b]
  {
    FinalIsGrouped(schema, lp);
    hide FinalMap, Resolved, Connected;
  }

  lemma WholeComponent(schema: Schema, lp: LogicalPlan, a: Name)
    requires Resolved(schema, lp) && AllConnected(lp) && a in lp.tables
    ensures a in FinalMap(lp) && Component(FinalMap(lp), a) == Names(lp.tables)
    ensures forall b | b in FinalMap(lp) :: FinalMap(lp)[b] == FinalMap(lp)[a]
  {
    FinalIsGrouped(schema, lp);
    hide FinalMap, Resolved, Connected;
    var tm := FinalMap(lp);
    forall b | b in tm
      ensures tm[b].id == tm[a].id && tm[b] == tm[a]
    {
      assert Connected(lp.joins, b, a);
    }
  }

  lemma DenoteAt(db: DB, tm: TableMap, filters: seq<FilterNode>, joins: seq<JoinNode>, a: Name)
    requires GroupsDenote(db, tm, filters, joins) && a in tm
    ensures Denotes(db, tm[a].op, Component(tm, a), filters, joins)
  {
  }

  /** Plan construction preserves meaning when no join closes a cycle. */
  lemma PlanPreservesMeaning(schema: Schema, lp: LogicalPlan, db: DB, a: Name)
    requires Resolved(schema, lp) && AllConnected(lp) && Acyclic(lp.joins) && Names(lp.tables) <= db.Keys && a in lp.tables
    ensures a in FinalMap(lp) && Denotes(db, FinalMap(lp)[a].op, Names(lp.tables), lp.filters, lp.joins)
  {
    hide *;
    ResolvedNames(schema, lp);
    WholeComponent(schema, lp, a);
    FinalMapIs(schema, lp);
    FilteredIsSingle(lp, db);
    JoinsMeaning(db, FilteredMap(lp), lp.filters, lp.joins, |lp.tables| + |lp.filters|);
    DenoteAt(db, FinalMap(lp), lp.filters, lp.joins, a);
  }

  lemma FinalLeaves(schema: Schema, lp: LogicalPlan)
    requires Resolved(schema, lp)
    ensures FinalMap(lp).Keys == Names(lp.tables)
    ensures LeavesCover(FinalMap(lp)) && (LeavesOnce(FinalMap(lp)) <==> Acyclic(lp.joins))
  {
    hide *;
    FinalMapIs(schema, lp);
    FilteredIsSingle(lp, EmptyDB(lp));
    JoinsLeaves(FilteredMap(lp), lp.joins, |lp.tables| + |lp.filters|);
  }

  lemma CoverAt(tm: TableMap, a: Name)
    requires LeavesCover(tm) && a in tm
    ensures forall t :: t in Leaves(tm[a].op) <==> t in Component(tm, a)
  {
  }

  lemma OnceAll(tm: TableMap, a: Name)
    requires a in tm && forall b | b in tm :: tm[b] == tm[a]
    ensures LeavesOnce(tm) <==> Distinct(Leaves(tm[a].op))
  {
    hide Distinct, Leaves;
  }

  /** An accepted plan scans every table, and each only once exactly when no join closes a cycle. */
  lemma PlanScansOnce(schema: Schema, lp: LogicalPlan, a: Name)
    requires Resolved(schema, lp) && AllConnected(lp) && a in lp.tables
    ensures a in FinalMap(lp)
    ensures forall t :: t in Leaves(FinalMap(lp)[a].op) <==> t in lp.tables
    ensures Distinct(Leaves(FinalMap(lp)[a].op)) <==> Acyclic(lp.joins)
  {
    hide *;
    NamesAre(lp.tables);
    ResolvedNames(schema, lp);
    WholeComponent(schema, lp, a);
    FinalLeaves(schema, lp);
    CoverAt(FinalMap(lp), a);
    OnceAll(FinalMap(lp), a);
  }

  /** Replace every entry that holds one of the two joined operators, in whatever order the keys come. */
  method MergeEntries(tm: TableMap, j: JoinNode, id: nat) returns (tm': TableMap)
    requires j.left.table in tm && j.right.table in tm
    requires IdsBelow(tm, id)
    ensures tm' == JoinStep(tm, j, id)
  {
    var n1, n2 := tm[j.left.table], tm[j.right.table];
    var node := Node(id, Join(n1.op, n2.op, j));
    tm' := tm;
    var rest := tm.Keys;
    while rest != {}
      invariant rest <= tm.Keys && tm'.Keys == tm.Keys
      invariant forall k | k in tm :: tm'[k] == if k in rest then tm[k] else JoinStep(tm, j, id)[k]
      decreases |rest|
    {
      var key :| key in rest;
      rest := rest - {key};
      var current := tm'[key];
      if current.id == n1.id {
        tm' := tm'[key := node];
      }
      if current.id == n2.id {
        tm' := tm'[key := node];
      }
    }
    tm' := tm'[j.left.table := node];
    tm' := tm'[j.right.table := node];
  }

  /** Whether all entries hold the same operator, and which. */
  method SameOperator(tm: TableMap) returns (same: bool, op: Plan)
    requires tm != map[]
    requires forall a, b | a in tm && b in tm && tm[a].id == tm[b].id :: tm[a] == tm[b]
    ensures same <==> forall a, b | a in tm && b in tm :: tm[a].id == tm[b].id
    ensures same ==> forall a | a in tm :: tm[a].op == op
  {
    var rest := tm.Keys;
    var first :| first in rest;
    var cur := tm[first];
    op := cur.op;
    rest := rest - {first};
    while rest != {}
      invariant rest <= tm.Keys && forall a | a in tm && a !in rest :: tm[a].id == cur.id
      decreases |rest|
    {
      var key :| key in rest;
      rest := rest - {key};
      if tm[key].id != cur.id {
        return false, op;
      }
    }
    same := true;
  }

  lemma FilterStepIs(tm: TableMap, f: FilterNode, id: nat)
    requires f.field.table in tm
    ensures FilterStep(tm, f, id) == tm[f.field.table := Node(id, Filter(f, tm[f.field.table].op))]
  {
  }

  /** Put one scan per table. */
  method PlaceTables(tables: seq<Name>) returns (tm: TableMap)
    ensures tm == BaseMap(tables)
  {
    tm := map[];
    for i := 0 to |tables|
      invariant tm == BaseMap(tables[..i])
    {
      assert tables[..i + 1][..i] == tables[..i];
      tm := tm[tables[i] := Node(i, Scan(tables[i]))];
    }
    assert tables[..|tables|] == tables;
  }

  /** Put one filter after another on top of its table. */
  method PlaceFilters(schema: Schema, lp: LogicalPlan) returns (ok: bool, tm: TableMap)
    ensures ok <==> forall f | f in lp.filters :: FilterResolved(schema, Names(lp.tables), f)
    ensures ok ==> (forall f | f in lp.filters :: f.field.table in lp.tables) && tm == FilteredMap(lp)
  {
    hide *;
    tm := PlaceTables(lp.tables);
    ghost var base, names, n := tm, Names(lp.tables), |lp.tables|;
    FilteredNone(schema, names, base, lp.filters, n);
    for i := 0 to |lp.filters|
      invariant FilteredUpTo(schema, names, base, lp.filters[..i], n, tm) && tm.Keys == base.Keys
    {
      var f := lp.filters[i];
      FilterOkAt(schema, names, lp.filters, i);
      if f.field.table !in tm || FieldType(schema, f.field) != Some(TypeOf(f.value)) {
        return false, tm;
      }
      FilteredOneMore(schema, names, base, lp.filters, i, n, tm);
      tm := tm[f.field.table := Node(|lp.tables| + i, Filter(f, tm[f.field.table].op))];
    }
    assert lp.filters[..|lp.filters|] == lp.filters;
    FilteredAll(schema, lp, tm);
    ok := true;
  }

  /** The filters given so far resolve, and `tm` is the map after them. */
  ghost predicate FilteredUpTo(schema: Schema, names: set<Name>, base: TableMap, filters: seq<FilterNode>, id: nat, tm: TableMap) {
    && (forall f | f in filters :: FilterResolved(schema, names, f) && f.field.table in base)
    && tm == AddFilters(base, filters, id)
  }

  lemma FilteredNone(schema: Schema, names: set<Name>, base: TableMap, filters: seq<FilterNode>, id: nat)
    ensures FilteredUpTo(schema, names, base, filters[..0], id, base)
  {
  }

  lemma FilterOkAt(schema: Schema, names: set<Name>, filters: seq<FilterNode>, i: nat)
    requires i < |filters|
    ensures (forall f | f in filters :: FilterResolved(schema, names, f)) ==> FilterResolved(schema, names, filters[i])
    ensures var f := filters[i];
      FilterResolved(schema, names, f) <==> f.field.table in names && FieldType(schema, f.field) == Some(TypeOf(f.value))
  {
    hide FieldType;
  }

  lemma FilteredOneMore(schema: Schema, names: set<Name>, base: TableMap, filters: seq<FilterNode>, i: nat, id: nat, tm: TableMap)
    requires i < |filters| && FilteredUpTo(schema, names, base, filters[..i], id, tm)
    requires FilterResolved(schema, names, filters[i]) && names == base.Keys
    ensures var f := filters[i];
      && f.field.table in tm
      && FilteredUpTo(schema, names, base, filters[..i + 1], id, tm[f.field.table := Node(id + i, Filter(f, tm[f.field.table].op))])
  {
    hide FieldType, FilterStep;
    var f, front, more := filters[i], filters[..i], filters[..i + 1];
    assert more[..i] == front && more == front + [f];
    FilterStepIs(tm, f, id + i);
  }

  lemma FilteredAll(schema: Schema, lp: LogicalPlan, tm: TableMap)
    requires FilteredUpTo(schema, Names(lp.tables), BaseMap(lp.tables), lp.filters, |lp.tables|, tm)
    ensures forall f | f in lp.filters :: FilterResolved(schema, Names(lp.tables), f)
    ensures (forall f | f in lp.filters :: f.field.table in lp.tables) && tm == FilteredMap(lp)
  {
    hide AddFilters, BaseMap, FilterResolved;
  }

  method PlaceJoins(schema: Schema, lp: LogicalPlan, start: TableMap) returns (ok: bool, tm: TableMap)
    requires start.Keys == Names(lp.tables) && IdsBelow(start, |lp.tables| + |lp.filters|)
    ensures ok <==> JoinsOk(schema, Names(lp.tables), lp.joins)
    ensures ok ==> (forall j | j in lp.joins :: j.left.table in start && j.right.table in start) && tm == AddJoins(start, lp.joins, |lp.tables| + |lp.filters|)
  {
    hide *;
    tm := start;
    var id := |lp.tables| + |lp.filters|;
    ghost var names := Names(lp.tables);
    JoinedNone(schema, names, start, lp.joins, id);
    for i := 0 to |lp.joins|
      invariant JoinedUpTo(schema, names, start, lp.joins[..i], id, tm) && tm.Keys == start.Keys
    {
      var j := lp.joins[i];
      JoinsOkAt(schema, names, lp.joins, i);
      if j.left.table !in tm || j.right.table !in tm
        || FieldType(schema, j.left).None? || FieldType(schema, j.left) != FieldType(schema, j.right) {
        return false, tm;
      }
      JoinedOneMore(schema, names, start, lp.joins, i, id, tm);
      tm := MergeEntries(tm, j, id + i);
    }
    assert lp.joins[..|lp.joins|] == lp.joins;
    JoinedAll(schema, names, start, lp.joins, id, tm);
    ok := true;
  }

  /** The joins given so far resolve, and `tm` is the map after them. */
  ghost predicate JoinedUpTo(schema: Schema, names: set<Name>, start: TableMap, joins: seq<JoinNode>, id: nat, tm: TableMap) {
    && JoinsOk(schema, names, joins)
    && (forall j | j in joins :: j.left.table in start && j.right.table in start)
    && tm == AddJoins(start, joins, id) && IdsBelow(tm, id + |joins|)
  }

  lemma JoinedNone(schema: Schema, names: set<Name>, start: TableMap, joins: seq<JoinNode>, id: nat)
    requires IdsBelow(start, id)
    ensures JoinedUpTo(schema, names, start, joins[..0], id, start)
  {
    NoJoins(start, id);
  }

  lemma JoinedAll(schema: Schema, names: set<Name>, start: TableMap, joins: seq<JoinNode>, id: nat, tm: TableMap)
    requires JoinedUpTo(schema, names, start, joins, id, tm)
    ensures JoinsOk(schema, names, joins)
    ensures (forall j | j in joins :: j.left.table in start && j.right.table in start) && tm == AddJoins(start, joins, id)
  {
    hide AddJoins, JoinsOk, IdsBelow;
  }

  lemma JoinsOkSnoc(schema: Schema, names: set<Name>, start: TableMap, front: seq<JoinNode>, j: JoinNode, more: seq<JoinNode>)
    requires JoinsOk(schema, names, front) && JoinResolved(schema, names, j) && names == start.Keys
    requires |more| == |front| + 1 && more[..|front|] == front && more[|front|] == j
    ensures JoinsOk(schema, names, more) && forall k | k in more :: k.left.table in start && k.right.table in start
  {
    hide FieldType;
    assert more == front + [j];
  }

  lemma JoinedOneMore(schema: Schema, names: set<Name>, start: TableMap, joins: seq<JoinNode>, i: nat, id: nat, tm: TableMap)
    requires i < |joins| && JoinedUpTo(schema, names, start, joins[..i], id, tm)
    requires JoinResolved(schema, names, joins[i]) && names == start.Keys
    ensures joins[i].left.table in tm && joins[i].right.table in tm && IdsBelow(tm, id + i)
    ensures JoinedUpTo(schema, names, start, joins[..i + 1], id, JoinStep(tm, joins[i], id + i))
  {
    hide JoinsOk, JoinStep, AddJoins, IdsBelow, FieldType;
    var front, more := joins[..i], joins[..i + 1];
    assert more[..i] == front;
    JoinsOkSnoc(schema, names, start, front, joins[i], more);
    LastJoin(start, more, id);
    JoinStepIds(tm, joins[i], id + i);
  }

  lemma JoinsOkAt(schema: Schema, names: set<Name>, joins: seq<JoinNode>, i: nat)
    requires i < |joins|
    ensures JoinsOk(schema, names, joins) ==> JoinResolved(schema, names, joins[i])
    ensures var j := joins[i];
      JoinResolved(schema, names, j) <==>
        && j.left.table in names && j.right.table in names
        && FieldType(schema, j.left).Some? && FieldType(schema, j.left) == FieldType(schema, j.right)
  {
    hide FieldType;
  }

  predicate IdsBelow(tm: TableMap, next: nat) {
    forall a | a in tm :: tm[a].id < next
  }

  lemma JoinStepIds(tm: TableMap, j: JoinNode, id: nat)
    requires j.left.table in tm && j.right.table in tm && IdsBelow(tm, id)
    ensures IdsBelow(JoinStep(tm, j, id), id + 1)
  {
  }

  /**
    Build the operator tree of a query.  It is refused exactly when a name or type does not
    resolve or when some table is not joined; an accepted tree computes, over every database,
    exactly the rows of the product that satisfy all filters and join equalities, provided no
    join closes a cycle.
   */
  method MakePhysicalPlan(schema: Schema, lp: LogicalPlan) returns (r: Outcome)
    ensures r.Unresolved? <==> !Resolved(schema, lp)
    ensures r.NoTables? <==> Resolved(schema, lp) && lp.tables == []
    ensures r.Planned? <==> Resolved(schema, lp) && lp.tables != [] && AllConnected(lp)
    ensures r.Planned? && Acyclic(lp.joins) ==>
              forall db: DB | Names(lp.tables) <= db.Keys :: Denotes(db, r.op, Names(lp.tables), lp.filters, lp.joins)
    ensures r.Planned? && Acyclic(lp.joins) ==>
              forall db: DB | Names(lp.tables) <= db.Keys ::
                Distinct(Eval(db, r.op)) && forall e :: e in Eval(db, r.op) <==> Wanted(db, lp, e)
    ensures r.Planned? ==> (Distinct(Leaves(r.op)) <==> Acyclic(lp.joins)) && forall t :: t in Leaves(r.op) <==> t in lp.tables
  {
    hide *;
    var ok, tm := PlaceFilters(schema, lp);
    if !ok {
      ResolvedParts(schema, lp);
      return Unresolved;
    }
    FilteredIds(lp);
    ok, tm := PlaceJoins(schema, lp, tm);
    ResolvedParts(schema, lp);
    if !ok {
      return Unresolved;
    }
    FinalMapIs(schema, lp);
    if lp.tables == [] {
      return NoTables;
    }
    FinalMapUniform(schema, lp);
    var same, op := SameOperator(tm);
    if !same {
      return NotJoined;
    }
    r := Planned(op);
    AcceptedPlan(schema, lp, op);
    if Acyclic(lp.joins) {
      forall db: DB | Names(lp.tables) <= db.Keys
        ensures Distinct(Eval(db, op)) && forall e :: e in Eval(db, op) <==> Wanted(db, lp, e)
      {
        DenotesWanted(schema, lp, db, op);
      }
    }
  }

  lemma ResolvedParts(schema: Schema, lp: LogicalPlan)
    ensures Resolved(schema, lp) <==>
              (forall f | f in lp.filters :: FilterResolved(schema, Names(lp.tables), f)) &&
              JoinsOk(schema, Names(lp.tables), lp.joins)
  {
  }

  /** The final map has one operator exactly when all tables are connected. */
  lemma FinalMapUniform(schema: Schema, lp: LogicalPlan)
    requires Resolved(schema, lp) && lp.tables != []
    ensures FinalMap(lp) != map[]
    ensures var tm := FinalMap(lp); forall a, b | a in tm && b in tm && tm[a].id == tm[b].id :: tm[a] == tm[b]
    ensures var tm := FinalMap(lp); AllConnected(lp) <==> forall a, b | a in tm && b in tm :: tm[a].id == tm[b].id
  {
    hide *;
    ResolvedNames(schema, lp);
    FinalIsGrouped(schema, lp);
    GroupedUniform(FinalMap(lp), lp, |lp.tables| + |lp.filters| + |lp.joins|);
  }

  lemma GroupedUniform(tm: TableMap, lp: LogicalPlan, next: nat)
    requires Grouped(tm, lp.joins, next) && tm.Keys == Names(lp.tables) && lp.tables != []
    ensures tm != map[]
    ensures forall a, b | a in tm && b in tm && tm[a].id == tm[b].id :: tm[a] == tm[b]
    ensures AllConnected(lp) <==> forall a, b | a in tm && b in tm :: tm[a].id == tm[b].id
  {
    hide Connected;
    assert lp.tables[0] in Names(lp.tables);
    forall a, b | a in lp.tables && b in lp.tables
      ensures a in tm && b in tm && (tm[a].id == tm[b].id <==> Connected(lp.joins, a, b))
    {
    }
  }

  lemma AcceptedPlan(schema: Schema, lp: LogicalPlan, op: Plan)
    requires Resolved(schema, lp) && AllConnected(lp) && lp.tables != []
    requires forall a | a in FinalMap(lp) :: FinalMap(lp)[a].op == op
    ensures Acyclic(lp.joins) ==>
              forall db: DB | Names(lp.tables) <= db.Keys :: Denotes(db, op, Names(lp.tables), lp.filters, lp.joins)
    ensures Distinct(Leaves(op)) <==> Acyclic(lp.joins)
    ensures forall t :: t in Leaves(op) <==> t in lp.tables
  {
    hide *;
    var a := lp.tables[0];
    PlanScansOnce(schema, lp, a);
    if Acyclic(lp.joins) {
      forall db: DB | Names(lp.tables) <= db.Keys
        ensures Denotes(db, op, Names(lp.tables), lp.filters, lp.joins)
      {
        PlanPreservesMeaning(schema, lp, db, a);
      }
    }
  }

  lemma FilteredIds(lp: LogicalPlan)
    requires forall f | f in lp.filters :: f.field.table in lp.tables
    ensures IdsBelow(FilteredMap(lp), |lp.tables| + |lp.filters|)
  {
    FilteredIsSingle(lp, EmptyDB(lp));
    hide FilteredMap, EachDenotes;
  }
}
