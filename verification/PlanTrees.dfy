/**
  Operator trees over base tables and what they compute.  A result row is an environment that
  names, for each table, which of its rows was taken; so the sequence of results determines
  the multiset of joined rows.
 */
module PlanTrees {
  import opened Values
  import opened Ordering
  import opened PlanGroups
  import opened JoinPairs

  datatype BoolOp = OpGt | OpLt | OpGe | OpLe | OpEq | OpNeq

  datatype FilterNode = FilterNode(field: FieldRef, op: BoolOp, value: Value)

  datatype Plan =
    | Scan(table: Name)
    | Filter(cond: FilterNode, child: Plan)
    | Join(left: Plan, right: Plan, on: JoinNode)

  type DB = map<Name, seq<Row>>

  type Env = map<Name, nat>

  // ---- Meaning of conditions ----

  function FieldVal(db: DB, e: Env, ref: FieldRef): Option<Value> {
    if ref.table in e && ref.table in db && e[ref.table] < |db[ref.table]| && ref.index < |db[ref.table][e[ref.table]]|
    then Some(db[ref.table][e[ref.table]][ref.index])
    else None
  }

  predicate EvalPred(v: Value, op: BoolOp, c: Value) {
    SameType(v, c) &&
    match op
    case OpEq => v == c
    case OpNeq => v != c
    case OpGt => Compare(v, c) == GreaterThan
    case OpGe => Compare(v, c) != LessThan
    case OpLt => Compare(v, c) == LessThan
    case OpLe => Compare(v, c) != GreaterThan
  }

  predicate Keeps(db: DB, f: FilterNode, e: Env) {
    var v := FieldVal(db, e, f.field);
    v.Some? && EvalPred(v.value, f.op, f.value)
  }

  /** The left field of `l` equals the right field of `r`. */
  predicate Matches(db: DB, j: JoinNode, l: Env, r: Env) {
    var v, w := FieldVal(db, l, j.left), FieldVal(db, r, j.right);
    v.Some? && v == w
  }

  // ---- The conditions in numbers and bytes ----

  /** What the six operators decide on integers. */
  lemma IntsDecide(i: Int64, j: Int64)
    ensures EvalPred(IntField(i), OpGt, IntField(j)) <==> i > j
    ensures EvalPred(IntField(i), OpLt, IntField(j)) <==> i < j
    ensures EvalPred(IntField(i), OpGe, IntField(j)) <==> i >= j
    ensures EvalPred(IntField(i), OpLe, IntField(j)) <==> i <= j
    ensures EvalPred(IntField(i), OpEq, IntField(j)) <==> i == j
    ensures EvalPred(IntField(i), OpNeq, IntField(j)) <==> i != j
  {
  }

  /** What they decide on strings: less is a proper prefix or a smaller byte at the first difference. */
  lemma StringsDecide(s: Bytes, t: Bytes)
    ensures EvalPred(StringField(s), OpLt, StringField(t)) <==>
      exists i: nat :: i <= |s| && i < |t| && s[..i] == t[..i] && (i == |s| || s[i] < t[i])
    ensures EvalPred(StringField(s), OpGt, StringField(t)) <==>
      exists i: nat :: i <= |t| && i < |s| && t[..i] == s[..i] && (i == |t| || t[i] < s[i])
    ensures EvalPred(StringField(s), OpGe, StringField(t)) <==> !EvalPred(StringField(s), OpLt, StringField(t))
    ensures EvalPred(StringField(s), OpLe, StringField(t)) <==> !EvalPred(StringField(s), OpGt, StringField(t))
    ensures EvalPred(StringField(s), OpEq, StringField(t)) <==> s == t
    ensures EvalPred(StringField(s), OpNeq, StringField(t)) <==> s != t
  {
    hide Compare;
    CompareTotal(StringField(s), StringField(t));
    BytesMean(s, t);
    BytesMean(t, s);
  }

  /** The rows that `e` takes have this field. */
  predicate HasField(db: DB, e: Env, ref: FieldRef) {
    && ref.table in e && ref.table in db && e[ref.table] < |db[ref.table]|
    && ref.index < |db[ref.table][e[ref.table]]|
  }

  /** The field of the row taken compares with the constant as the operator says. */
  ghost predicate Passes(db: DB, f: FilterNode, e: Env) {
    && HasField(db, e, f.field)
    && var v := db[f.field.table][e[f.field.table]][f.field.index];
    if v.IntField? && f.value.IntField? then
      && (f.op == OpGt ==> v.i > f.value.i) && (f.op == OpLt ==> v.i < f.value.i)
      && (f.op == OpGe ==> v.i >= f.value.i) && (f.op == OpLe ==> v.i <= f.value.i)
      && (f.op == OpEq ==> v.i == f.value.i) && (f.op == OpNeq ==> v.i != f.value.i)
    else if v.StringField? && f.value.StringField? then
      && (f.op == OpGt ==> Smaller(f.value, v)) && (f.op == OpLt ==> Smaller(v, f.value))
      && (f.op == OpGe ==> !Smaller(v, f.value)) && (f.op == OpLe ==> !Smaller(f.value, v))
      && (f.op == OpEq ==> v.s == f.value.s) && (f.op == OpNeq ==> v.s != f.value.s)
    else false
  }

  lemma KeepsMeans(db: DB, f: FilterNode, e: Env)
    ensures Keeps(db, f, e) <==> Passes(db, f, e)
  {
    hide Compare, Smaller;
    if HasField(db, e, f.field) {
      var v := db[f.field.table][e[f.field.table]][f.field.index];
      if SameType(v, f.value) {
        CompareMeans(v, f.value);
        CompareTotal(v, f.value);
        if v.IntField? {
          IntsMean(v.i, f.value.i);
        }
      }
    }
  }

  /** The two fields exist and are equal. */
  predicate Agrees(db: DB, j: JoinNode, e: Env) {
    && HasField(db, e, j.left) && HasField(db, e, j.right)
    && db[j.left.table][e[j.left.table]][j.left.index] == db[j.right.table][e[j.right.table]][j.right.index]
  }

  lemma MatchesMeans(db: DB, j: JoinNode, e: Env)
    ensures Matches(db, j, e, e) <==> Agrees(db, j, e)
  {
  }

  // ---- Evaluation ----

  function FilterEnvs(db: DB, f: FilterNode, es: seq<Env>): seq<Env> {
    if es == [] then [] else
    (if Keeps(db, f, es[0]) then [es[0]] else []) + FilterEnvs(db, f, es[1..])
  }

  function MatchOn(db: DB, j: JoinNode): (Env, Env) -> bool {
    (l, r) => Matches(db, j, l, r)
  }

  /** The matching pairs merged, in the order in which the join operator delivers them. */
  function JoinEnvs(db: DB, j: JoinNode, ls: seq<Env>, rs: seq<Env>): (es: seq<Env>)
    ensures |es| == |Pairs(ls, rs, MatchOn(db, j), 0, 0)|
  {
    var ps := Pairs(ls, rs, MatchOn(db, j), 0, 0);
    AllPairs(ls, rs, MatchOn(db, j));
    seq(|ps|, k requires 0 <= k < |ps| => assert ps[k] in ps && Matching(ls, rs, MatchOn(db, j), ps[k]); ls[ps[k].0] + rs[ps[k].1])
  }

  function Eval(db: DB, p: Plan): seq<Env> {
    match p
    case Scan(t) => if t in db then seq(|db[t]|, (i: nat) => map[t := i]) else []
    case Filter(f, c) => FilterEnvs(db, f, Eval(db, c))
    case Join(l, r, j) => JoinEnvs(db, j, Eval(db, l), Eval(db, r))
  }

  // ---- What a query asks for ----

  ghost predicate InTables(db: DB, tables: set<Name>, e: Env) {
    e.Keys == tables && forall t | t in tables :: t in db && e[t] < |db[t]|
  }

  ghost predicate FiltersHold(db: DB, tables: set<Name>, filters: seq<FilterNode>, e: Env) {
    forall f | f in filters && f.field.table in tables :: Keeps(db, f, e)
  }

  ghost predicate JoinsHold(db: DB, tables: set<Name>, joins: seq<JoinNode>, e: Env) {
    forall j | j in joins && j.left.table in tables && j.right.table in tables :: Matches(db, j, e, e)
  }

  /** A choice of one row per table that satisfies every filter and join equality on those tables. */
  ghost predicate Answers(db: DB, tables: set<Name>, filters: seq<FilterNode>, joins: seq<JoinNode>, e: Env) {
    InTables(db, tables, e) && FiltersHold(db, tables, filters, e) && JoinsHold(db, tables, joins, e)
  }

  /** The plan computes exactly the answers, each one once. */
  ghost predicate Denotes(db: DB, p: Plan, tables: set<Name>, filters: seq<FilterNode>, joins: seq<JoinNode>) {
    && Distinct(Eval(db, p))
    && forall e :: e in Eval(db, p) <==> Answers(db, tables, filters, joins, e)
  }

  // ---- Filters ----

  lemma {:induction false} FilterEnvsExact(db: DB, f: FilterNode, es: seq<Env>)
    ensures forall e :: e in FilterEnvs(db, f, es) <==> e in es && Keeps(db, f, e)
    ensures Distinct(es) ==> Distinct(FilterEnvs(db, f, es))
  {
    if es != [] {
      var tail := FilterEnvs(db, f, es[1..]);
      FilterEnvsExact(db, f, es[1..]);
      assert es == [es[0]] + es[1..];
      if Distinct(es) {
        DistinctTail(es);
        assert es[0] !in tail;
      }
    }
  }

  /** A filter keeps exactly the rows that pass it, in order. */
  lemma FilterKeeps(db: DB, f: FilterNode, p: Plan, e: Env)
    ensures e in Eval(db, Filter(f, p)) <==> e in Eval(db, p) && Passes(db, f, e)
  {
    hide Keeps, Passes;
    FilterEnvsExact(db, f, Eval(db, p));
    KeepsMeans(db, f, e);
  }

  lemma DistinctTail<T>(s: seq<T>)
    requires Distinct(s) && s != []
    ensures Distinct(s[1..]) && s[0] !in s[1..]
  {
  }

  /** A filter on a table of the plan adds itself to the filters. */
  lemma FilterDenotes(db: DB, p: Plan, tables: set<Name>, filters: seq<FilterNode>, joins: seq<JoinNode>, f: FilterNode)
    requires Denotes(db, p, tables, filters, joins) && f.field.table in tables
    ensures Denotes(db, Filter(f, p), tables, filters + [f], joins)
  {
    FilterEnvsExact(db, f, Eval(db, p));
    forall e
      ensures e in Eval(db, Filter(f, p)) <==> Answers(db, tables, filters + [f], joins, e)
    {
      FilterAppended(db, tables, filters, f, e);
    }
  }

  lemma FilterAppended(db: DB, tables: set<Name>, filters: seq<FilterNode>, f: FilterNode, e: Env)
    requires f.field.table in tables
    ensures FiltersHold(db, tables, filters + [f], e) <==> FiltersHold(db, tables, filters, e) && Keeps(db, f, e)
  {
    assert forall g :: g in filters + [f] <==> g in filters || g == f;
  }

  /** A filter on another table does not concern the plan. */
  lemma FilterElsewhere(db: DB, p: Plan, tables: set<Name>, filters: seq<FilterNode>, joins: seq<JoinNode>, f: FilterNode)
    requires Denotes(db, p, tables, filters, joins) && f.field.table !in tables
    ensures Denotes(db, p, tables, filters + [f], joins)
  {
    forall e
      ensures Answers(db, tables, filters + [f], joins, e) <==> Answers(db, tables, filters, joins, e)
    {
      assert forall g :: g in filters + [f] <==> g in filters || g == f;
    }
  }

  /** A join between other tables does not concern the plan. */
  lemma JoinElsewhere(db: DB, p: Plan, tables: set<Name>, filters: seq<FilterNode>, joins: seq<JoinNode>, j: JoinNode)
    requires Denotes(db, p, tables, filters, joins) && !(j.left.table in tables && j.right.table in tables)
    ensures Denotes(db, p, tables, filters, joins + [j])
  {
    forall e
      ensures Answers(db, tables, filters, joins + [j], e) <==> Answers(db, tables, filters, joins, e)
    {
      assert forall k :: k in joins + [j] <==> k in joins || k == j;
    }
  }

  lemma ScanDenotes(db: DB, t: Name)
    requires t in db
    ensures Denotes(db, Scan(t), {t}, [], [])
  {
    var es := Eval(db, Scan(t));
    forall i, k | 0 <= i < k < |es|
      ensures es[i] != es[k]
    {
      assert es[i][t] == i && es[k][t] == k;
    }
    forall e
      ensures e in es <==> Answers(db, {t}, [], [], e)
    {
      if e in es {
        var i :| 0 <= i < |es| && es[i] == e;
        assert e == map[t := i];
      }
      if Answers(db, {t}, [], [], e) {
        assert e == map[t := e[t]];
        assert es[e[t]] == e;
      }
    }
  }

  // ---- Joins ----

  /** Every environment of `es` chooses rows for exactly the tables of `ts`. */
  ghost predicate Over(es: seq<Env>, ts: set<Name>) {
    forall i | 0 <= i < |es| :: es[i].Keys == ts
  }

  /** Two merged choices agree only if their parts do. */
  lemma MergeInjective(l: Env, r: Env, l': Env, r': Env)
    requires l.Keys == l'.Keys && r.Keys == r'.Keys && l.Keys !! r.Keys && l + r == l' + r'
    ensures l == l' && r == r'
  {
    forall k | k in l
      ensures l[k] == l'[k]
    {
      assert (l + r)[k] == l[k] && (l' + r')[k] == l'[k];
    }
    forall k | k in r
      ensures r[k] == r'[k]
    {
      assert (l + r)[k] == r[k] && (l' + r')[k] == r'[k];
    }
  }

  ghost predicate Combines(db: DB, j: JoinNode, ls: seq<Env>, rs: seq<Env>, e: Env) {
    exists a: nat, b: nat | a < |ls| && b < |rs| :: Matches(db, j, ls[a], rs[b]) && e == ls[a] + rs[b]
  }

  /** The `k`th result merges the `k`th pair, and the pairs are exactly the matching ones, in order. */
  lemma JoinEnvsAt(db: DB, j: JoinNode, ls: seq<Env>, rs: seq<Env>)
    ensures var ps, es := Pairs(ls, rs, MatchOn(db, j), 0, 0), JoinEnvs(db, j, ls, rs);
      && |es| == |ps|
      && (forall a: nat, b: nat :: (a, b) in ps <==> a < |ls| && b < |rs| && Matches(db, j, ls[a], rs[b]))
      && (forall k | 0 <= k < |ps| :: ps[k].0 < |ls| && ps[k].1 < |rs| && es[k] == ls[ps[k].0] + rs[ps[k].1])
      && (forall k, m | 0 <= k < m < |ps| :: Before(ps[k], ps[m]))
  {
    hide Matches;
    AllPairs(ls, rs, MatchOn(db, j));
    var ps := Pairs(ls, rs, MatchOn(db, j), 0, 0);
    assert forall k | 0 <= k < |ps| :: ps[k] in ps && Matching(ls, rs, MatchOn(db, j), ps[k]);
    forall a: nat, b: nat
      ensures (a, b) in ps <==> a < |ls| && b < |rs| && Matches(db, j, ls[a], rs[b])
    {
      var p := (a, b);
      assert p in ps <==> Matching(ls, rs, MatchOn(db, j), p);
    }
  }

  lemma JoinEnvsExact(db: DB, j: JoinNode, ls: seq<Env>, rs: seq<Env>)
    ensures forall e :: e in JoinEnvs(db, j, ls, rs) <==> Combines(db, j, ls, rs, e)
  {
    hide Matches, JoinEnvs, Pairs;
    JoinEnvsAt(db, j, ls, rs);
    var ps, es := Pairs(ls, rs, MatchOn(db, j), 0, 0), JoinEnvs(db, j, ls, rs);
    forall e
      ensures e in es <==> Combines(db, j, ls, rs, e)
    {
      if e in es {
        var k :| 0 <= k < |es| && es[k] == e;
        assert (ps[k].0, ps[k].1) in ps;
      }
      if Combines(db, j, ls, rs, e) {
        var a: nat, b: nat :| a < |ls| && b < |rs| && Matches(db, j, ls[a], rs[b]) && e == ls[a] + rs[b];
        assert (a, b) in ps;
        var k :| 0 <= k < |ps| && ps[k] == (a, b);
        assert es[k] == e;
      }
    }
  }

  lemma JoinEnvsDistinct(db: DB, j: JoinNode, ls: seq<Env>, rs: seq<Env>, ts: set<Name>, us: set<Name>)
    requires Distinct(ls) && Distinct(rs) && Over(ls, ts) && Over(rs, us) && ts !! us
    ensures Distinct(JoinEnvs(db, j, ls, rs))
  {
    hide Matches, JoinEnvs, Pairs;
    JoinEnvsAt(db, j, ls, rs);
    var ps, es := Pairs(ls, rs, MatchOn(db, j), 0, 0), JoinEnvs(db, j, ls, rs);
    forall k, m | 0 <= k < m < |es|
      ensures es[k] != es[m]
    {
      var p, q := ps[k], ps[m];
      assert Before(p, q);
      if es[k] == es[m] {
        MergeInjective(ls[p.0], rs[p.1], ls[q.0], rs[q.1]);
      }
    }
  }

  lemma DistinctConcat<T>(a: seq<T>, b: seq<T>)
    requires Distinct(a) && Distinct(b) && forall e | e in a :: e !in b
    ensures Distinct(a + b)
  {
    var s := a + b;
    forall i, j | 0 <= i < j < |s|
      ensures s[i] != s[j]
    {
      if i < |a| <= j {
        assert s[i] in a && s[j] in b;
      }
    }
  }

  function Restrict(e: Env, ts: set<Name>): Env {
    map t | t in e && t in ts :: e[t]
  }

  lemma FieldValLocal(db: DB, e: Env, e': Env, ref: FieldRef)
    requires ref.table in e && ref.table in e' && e[ref.table] == e'[ref.table]
    ensures FieldVal(db, e, ref) == FieldVal(db, e', ref)
  {
  }

  /** No join links a table of `ts` with a table of `us`. */
  ghost predicate Apart(joins: seq<JoinNode>, ts: set<Name>, us: set<Name>) {
    forall j | j in joins ::
      !(j.left.table in ts && j.right.table in us) && !(j.left.table in us && j.right.table in ts)
  }

  /** An answer over a larger set of tables contains an answer over a smaller one. */
  lemma AnswersRestrict(db: DB, ts: set<Name>, all: set<Name>, filters: seq<FilterNode>, joins: seq<JoinNode>, e: Env)
    requires ts <= all && Answers(db, all, filters, joins, e)
    ensures Answers(db, ts, filters, joins, Restrict(e, ts))
  {
    var d := Restrict(e, ts);
    assert d.Keys == ts;
    forall f | f in filters && f.field.table in ts
      ensures Keeps(db, f, d)
    {
      assert Keeps(db, f, e);
      FieldValLocal(db, e, d, f.field);
    }
    forall j | j in joins && j.left.table in ts && j.right.table in ts
      ensures Matches(db, j, d, d)
    {
      assert Matches(db, j, e, e);
      FieldValLocal(db, e, d, j.left);
      FieldValLocal(db, e, d, j.right);
    }
  }

  /** Answers over two unrelated sets of tables that satisfy the new join make an answer over both. */
  lemma AnswersMerge(db: DB, ts: set<Name>, us: set<Name>, filters: seq<FilterNode>, joins: seq<JoinNode>, j: JoinNode, l: Env, r: Env)
    requires Answers(db, ts, filters, joins, l) && Answers(db, us, filters, joins, r) && ts !! us
    requires Apart(joins, ts, us) && j.left.table in ts && j.right.table in us && Matches(db, j, l, r)
    ensures Answers(db, ts + us, filters, joins + [j], l + r)
  {
    var e := l + r;
    forall f | f in filters && f.field.table in ts + us
      ensures Keeps(db, f, e)
    {
      if f.field.table in ts {
        assert Keeps(db, f, l);
        FieldValLocal(db, l, e, f.field);
      } else {
        assert Keeps(db, f, r);
        FieldValLocal(db, r, e, f.field);
      }
    }
    forall k | k in joins + [j] && k.left.table in ts + us && k.right.table in ts + us
      ensures Matches(db, k, e, e)
    {
      if k == j {
        FieldValLocal(db, l, e, j.left);
        FieldValLocal(db, r, e, j.right);
      } else if k.left.table in ts {
        assert k in joins && k.right.table in ts;
        assert Matches(db, k, l, l);
        FieldValLocal(db, l, e, k.left);
        FieldValLocal(db, l, e, k.right);
      } else {
        assert k in joins && k.right.table in us;
        assert Matches(db, k, r, r);
        FieldValLocal(db, r, e, k.left);
        FieldValLocal(db, r, e, k.right);
      }
    }
  }

  /** Conversely an answer over both sets splits into the two. */
  lemma AnswersSplit(db: DB, ts: set<Name>, us: set<Name>, filters: seq<FilterNode>, joins: seq<JoinNode>, j: JoinNode, e: Env)
    requires Answers(db, ts + us, filters, joins + [j], e) && ts !! us && j.left.table in ts && j.right.table in us
    ensures var l, r := Restrict(e, ts), Restrict(e, us);
      && Answers(db, ts, filters, joins, l) && Answers(db, us, filters, joins, r)
      && Matches(db, j, l, r) && e == l + r
  {
    var l, r := Restrict(e, ts), Restrict(e, us);
    assert forall k | k in joins :: k in joins + [j];
    assert j in joins + [j] && Matches(db, j, e, e);
    AnswersRestrict(db, ts, ts + us, filters, joins, e);
    AnswersRestrict(db, us, ts + us, filters, joins, e);
    FieldValLocal(db, e, l, j.left);
    FieldValLocal(db, e, r, j.right);
    assert e == l + r;
  }

  lemma DenotesOver(db: DB, p: Plan, ts: set<Name>, filters: seq<FilterNode>, joins: seq<JoinNode>)
    requires Denotes(db, p, ts, filters, joins)
    ensures Over(Eval(db, p), ts)
  {
    forall i | 0 <= i < |Eval(db, p)|
      ensures Eval(db, p)[i].Keys == ts
    {
      assert Eval(db, p)[i] in Eval(db, p);
    }
  }

  /** Joining plans over unrelated sets of tables gives a plan over both, with the join added. */
  lemma JoinDenotes(db: DB, p: Plan, q: Plan, ts: set<Name>, us: set<Name>, filters: seq<FilterNode>, joins: seq<JoinNode>, j: JoinNode)
    requires Denotes(db, p, ts, filters, joins) && Denotes(db, q, us, filters, joins) && ts !! us
    requires Apart(joins, ts, us) && j.left.table in ts && j.right.table in us
    ensures Denotes(db, Join(p, q, j), ts + us, filters, joins + [j])
  {
    hide Matches, Answers, JoinEnvs, Apart;
    var ls, rs := Eval(db, p), Eval(db, q);
    DenotesOver(db, p, ts, filters, joins);
    DenotesOver(db, q, us, filters, joins);
    JoinEnvsDistinct(db, j, ls, rs, ts, us);
    JoinEnvsExact(db, j, ls, rs);
    forall e
      ensures Combines(db, j, ls, rs, e) <==> Answers(db, ts + us, filters, joins + [j], e)
    {
      if Combines(db, j, ls, rs, e) {
        var a: nat, b: nat :| a < |ls| && b < |rs| && Matches(db, j, ls[a], rs[b]) && e == ls[a] + rs[b];
        assert ls[a] in ls && rs[b] in rs;
        AnswersMerge(db, ts, us, filters, joins, j, ls[a], rs[b]);
      }
      if Answers(db, ts + us, filters, joins + [j], e) {
        AnswersSplit(db, ts, us, filters, joins, j, e);
        var l, r := Restrict(e, ts), Restrict(e, us);
        assert l in ls && r in rs;
        var a :| 0 <= a < |ls| && ls[a] == l;
        var b :| 0 <= b < |rs| && rs[b] == r;
      }
    }
  }

  // ---- Leaves ----

  /** The base tables a plan scans, left to right. */
  function Leaves(p: Plan): seq<Name> {
    match p
    case Scan(t) => [t]
    case Filter(_, c) => Leaves(c)
    case Join(l, r, _) => Leaves(l) + Leaves(r)
  }
}
