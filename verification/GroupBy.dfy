/**
  Streaming aggregation with and without grouping.  The hash of a group key is taken to
  identify it, so groups are keyed by the key tuple itself.
 */
module GroupBy {
  import opened Values
  import opened Aggregates

  type Key = seq<Value>

  /** The groups with the partial states of their aggregates; a state is missing before its first tuple. */
  type Groups = map<Key, seq<Option<AggState>>>

  datatype Step = Yield(row: Row) | Done | Failed | DivideByZero

  // ---- Groups by definition ----

  /** The rows of one group, in input order. */
  function Group(key: Row -> Key, rows: seq<Row>, k: Key): (g: seq<Row>)
    ensures |g| <= |rows|
  {
    if rows == [] then [] else
    Group(key, rows[..|rows| - 1], k) + if key(rows[|rows| - 1]) == k then [rows[|rows| - 1]] else []
  }

  /** The keys in the order in which they first occur. */
  function FirstSeen(key: Row -> Key, rows: seq<Row>): (ks: seq<Key>) {
    if rows == [] then [] else
    var seen, k := FirstSeen(key, rows[..|rows| - 1]), key(rows[|rows| - 1]);
    if k in seen then seen else seen + [k]
  }

  /** The position of the first row with key `k`. */
  function FirstIndex(key: Row -> Key, rows: seq<Row>, k: Key): (i: nat)
    ensures i <= |rows|
    ensures i < |rows| ==> key(rows[i]) == k
    ensures forall j | 0 <= j < i :: key(rows[j]) != k
  {
    if rows == [] || key(rows[0]) == k then 0 else 1 + FirstIndex(key, rows[1..], k)
  }

  lemma FirstIndexPrefix(key: Row -> Key, rows: seq<Row>, k: Key)
    requires rows != []
    ensures var front := rows[..|rows| - 1];
      FirstIndex(key, rows, k) == if FirstIndex(key, front, k) < |front| || key(rows[|front|]) == k
                                  then FirstIndex(key, front, k) else |rows|
  {
    var front := rows[..|rows| - 1];
    var i, j := FirstIndex(key, rows, k), FirstIndex(key, front, k);
    assert i < |front| ==> key(front[i]) == k;
    assert j < |front| ==> key(rows[j]) == k;
  }

  lemma {:induction false} SeenIff(key: Row -> Key, rows: seq<Row>, k: Key)
    ensures k in FirstSeen(key, rows) <==> FirstIndex(key, rows, k) < |rows|
  {
    hide FirstIndex;
    if rows != [] {
      SeenIff(key, rows[..|rows| - 1], k);
      FirstIndexPrefix(key, rows, k);
    }
  }

  /** The keys at `a` and `b` first occur in this order. */
  predicate SeenBefore(key: Row -> Key, rows: seq<Row>, k: Key, l: Key) {
    FirstIndex(key, rows, k) < FirstIndex(key, rows, l)
  }

  lemma {:induction false} SeenInOrder(key: Row -> Key, rows: seq<Row>, a: nat, b: nat)
    requires a < b < |FirstSeen(key, rows)|
    ensures SeenBefore(key, rows, FirstSeen(key, rows)[a], FirstSeen(key, rows)[b])
  {
    hide FirstIndex;
    var front := rows[..|rows| - 1];
    var seen, ks := FirstSeen(key, front), FirstSeen(key, rows);
    assert ks[a] == seen[a] && seen[a] in seen;
    SeenIff(key, front, ks[a]);
    SeenIff(key, front, ks[b]);
    FirstIndexPrefix(key, rows, ks[a]);
    FirstIndexPrefix(key, rows, ks[b]);
    if b < |seen| {
      SeenInOrder(key, front, a, b);
    }
  }

  /** Exactly the keys that occur are listed, in the order in which they first occur. */
  lemma FirstSeenExact(key: Row -> Key, rows: seq<Row>)
    ensures var ks := FirstSeen(key, rows);
      && (forall k :: k in ks <==> FirstIndex(key, rows, k) < |rows|)
      && (forall a, b | 0 <= a < b < |ks| :: SeenBefore(key, rows, ks[a], ks[b]))
  {
    hide FirstIndex, FirstSeen, SeenBefore;
    var ks := FirstSeen(key, rows);
    forall k
      ensures k in ks <==> FirstIndex(key, rows, k) < |rows|
    {
      SeenIff(key, rows, k);
    }
    forall a, b | 0 <= a < b < |ks|
      ensures SeenBefore(key, rows, ks[a], ks[b])
    {
      SeenInOrder(key, rows, a, b);
    }
  }

  /** A key is listed exactly when its group is not empty. */
  lemma {:induction false} GroupNotEmpty(key: Row -> Key, rows: seq<Row>, k: Key)
    ensures k in FirstSeen(key, rows) <==> Group(key, rows, k) != []
  {
    if rows != [] {
      GroupNotEmpty(key, rows[..|rows| - 1], k);
    }
  }

  function SizeSum(key: Row -> Key, rows: seq<Row>, ks: seq<Key>): nat {
    if ks == [] then 0 else SizeSum(key, rows, ks[..|ks| - 1]) + |Group(key, rows, ks[|ks| - 1])|
  }

  /** One more row adds one to the sizes of the groups if its key is among them. */
  lemma {:induction false} SizeSumStep(key: Row -> Key, rows: seq<Row>, ks: seq<Key>)
    requires rows != [] && Distinct(ks)
    ensures SizeSum(key, rows, ks) ==
      SizeSum(key, rows[..|rows| - 1], ks) + if key(rows[|rows| - 1]) in ks then 1 else 0
  {
    if ks != [] {
      SizeSumStep(key, rows, ks[..|ks| - 1]);
    }
  }

  lemma FirstSeenDistinct(key: Row -> Key, rows: seq<Row>)
    ensures Distinct(FirstSeen(key, rows))
  {
    hide FirstIndex, FirstSeen;
    FirstSeenExact(key, rows);
    var ks := FirstSeen(key, rows);
    forall a, b | 0 <= a < b < |ks|
      ensures ks[a] != ks[b]
    {
      assert SeenBefore(key, rows, ks[a], ks[b]);
    }
  }

  /** The sizes of the groups add up to the size of the input. */
  lemma {:induction false} GroupsPartition(key: Row -> Key, rows: seq<Row>)
    ensures SizeSum(key, rows, FirstSeen(key, rows)) == |rows|
  {
    if rows != [] {
      var front, k := rows[..|rows| - 1], key(rows[|rows| - 1]);
      var seen := FirstSeen(key, front);
      GroupsPartition(key, front);
      FirstSeenDistinct(key, front);
      FirstSeenDistinct(key, rows);
      SizeSumStep(key, rows, FirstSeen(key, rows));
      if k !in seen {
        GroupNotEmpty(key, front, k);
        assert FirstSeen(key, rows)[..|seen|] == seen;
      }
    }
  }

  // ---- Results by definition ----

  ghost predicate Typed(aggs: seq<Agg>) {
    forall a | a in aggs :: AggTyped(a)
  }

  lemma TypedAt(aggs: seq<Agg>, i: nat)
    requires Typed(aggs) && i < |aggs|
    ensures AggTyped(aggs[i])
  {
    assert aggs[i] in aggs;
  }

  /** The states of all aggregates over `rows`. */
  function States(aggs: seq<Agg>, rows: seq<Row>): (s: seq<Option<AggState>>)
    requires Typed(aggs)
    ensures |s| == |aggs|
  {
    seq(|aggs|, i requires 0 <= i < |aggs| => TypedAt(aggs, i); Some(Fold(aggs[i], rows)))
  }

  /** The finalised values after `prefix`; none when one of them divides by zero. */
  function FinalRow(prefix: Row, states: seq<Option<AggState>>): (r: Option<Row>)
    requires forall s | s in states :: s.Some?
  {
    if states == [] then Some(prefix) else
    var n := |states| - 1;
    assert states[n] in states;
    var front, v := FinalRow(prefix, states[..n]), Finalize(states[n].value);
    if front.None? || v.None? then None else Some(front.value + [v.value])
  }

  /** A result row is the prefix followed by one value per aggregate; it fails when any aggregate fails. */
  lemma {:induction false} FinalRowExact(prefix: Row, states: seq<Option<AggState>>)
    requires forall s | s in states :: s.Some?
    ensures FinalRow(prefix, states).None? <==> exists i :: 0 <= i < |states| && Finalize(states[i].value).None?
    ensures FinalRow(prefix, states).Some? ==>
      var row := FinalRow(prefix, states).value;
      && |row| == |prefix| + |states| && row[..|prefix|] == prefix
      && forall i | 0 <= i < |states| :: Finalize(states[i].value) == Some(row[|prefix| + i])
  {
    if states != [] {
      var n := |states| - 1;
      var front := states[..n];
      FinalRowExact(prefix, front);
      assert states[n] in states && states == front + [states[n]];
      if i :| 0 <= i < n && Finalize(front[i].value).None? {
        assert Finalize(states[i].value).None?;
      }
      if FinalRow(prefix, front).Some? {
        forall i | 0 <= i < n
          ensures Finalize(states[i].value).Some?
        {
          assert states[i] == front[i];
        }
      }
    }
  }

  lemma StatesAreSome(aggs: seq<Agg>, rows: seq<Row>)
    requires Typed(aggs)
    ensures forall s | s in States(aggs, rows) :: s.Some?
  {
  }

  /** The result row of one group. */
  function GroupRow(aggs: seq<Agg>, prefix: Row, group: seq<Row>): (r: Option<Row>)
    requires Typed(aggs)
  {
    StatesAreSome(aggs, group);
    FinalRow(prefix, States(aggs, group))
  }

  lemma GroupRowMeans(aggs: seq<Agg>, prefix: Row, group: seq<Row>, i: nat)
    requires Typed(aggs) && i < |aggs| && AggTyped(aggs[i])
    ensures var row := GroupRow(aggs, prefix, group);
      && (row.Some? ==> |row.value| == |prefix| + |aggs| && row.value[..|prefix|] == prefix
                        && Means(aggs[i], group, Some(row.value[|prefix| + i])))
      && (Means(aggs[i], group, None) ==> row.None?)
  {
    var states := States(aggs, group);
    assert states[i] == Some(Fold(aggs[i], group));
    StatesAreSome(aggs, group);
    hide Means, Fold, FinalRow, States, Finalize;
    FinalRowExact(prefix, states);
    FoldMeans(aggs[i], group);
    MeansUnique(aggs[i], group, Finalize(Fold(aggs[i], group)));
  }

  /** A result row fails exactly when some aggregate of the group does. */
  lemma GroupRowFails(aggs: seq<Agg>, prefix: Row, group: seq<Row>)
    requires Typed(aggs)
    ensures GroupRow(aggs, prefix, group).None? <==> exists i :: 0 <= i < |aggs| && aggs[i].Avg? && Wrap(|group|) == 0
  {
    var states := States(aggs, group);
    StatesAreSome(aggs, group);
    FinalRowExact(prefix, states);
    forall i | 0 <= i < |aggs|
      ensures Finalize(states[i].value).None? <==> aggs[i].Avg? && Wrap(|group|) == 0
    {
      TypedAt(aggs, i);
      FoldNumbers(aggs[i], group);
    }
  }

  /** The prefix followed by one value per aggregate, each the aggregate of `rows` by its definition. */
  ghost predicate RowMeans(aggs: seq<Agg>, prefix: Row, rows: seq<Row>, row: Row) {
    && |row| == |prefix| + |aggs| && row[..|prefix|] == prefix
    && forall i | 0 <= i < |aggs| :: AggTyped(aggs[i]) && Means(aggs[i], rows, Some(row[|prefix| + i]))
  }

  /** Some aggregate divides by a number of rows that wraps to zero. */
  ghost predicate Divides(aggs: seq<Agg>, rows: seq<Row>) {
    Wrap(|rows|) == 0 && exists i :: 0 <= i < |aggs| && aggs[i].Avg?
  }

  lemma GroupRowExact(aggs: seq<Agg>, prefix: Row, group: seq<Row>)
    requires Typed(aggs)
    ensures var row := GroupRow(aggs, prefix, group);
      if Divides(aggs, group) then row.None? else row.Some? && RowMeans(aggs, prefix, group, row.value)
  {
    hide GroupRow, Means;
    GroupRowFails(aggs, prefix, group);
    GroupRowLength(aggs, prefix, group);
    forall i | 0 <= i < |aggs| && !Divides(aggs, group)
      ensures AggTyped(aggs[i]) && Means(aggs[i], group, Some(GroupRow(aggs, prefix, group).value[|prefix| + i]))
    {
      TypedAt(aggs, i);
      GroupRowMeans(aggs, prefix, group, i);
    }
  }

  lemma GroupRowLength(aggs: seq<Agg>, prefix: Row, group: seq<Row>)
    requires Typed(aggs)
    ensures var row := GroupRow(aggs, prefix, group);
      row.Some? ==> |row.value| == |prefix| + |aggs| && row.value[..|prefix|] == prefix
  {
    hide FinalRow, States;
    StatesAreSome(aggs, group);
    FinalRowExact(prefix, States(aggs, group));
  }

  /** A group holds exactly the rows with its key, as often as the input does. */
  lemma {:induction false} GroupHolds(key: Row -> Key, rows: seq<Row>, k: Key, r: Row)
    ensures multiset(Group(key, rows, k))[r] == if key(r) == k then multiset(rows)[r] else 0
  {
    if rows != [] {
      var front := rows[..|rows| - 1];
      GroupHolds(key, front, k, r);
      assert rows == front + [rows[|rows| - 1]];
    }
  }

  /** What the operator delivers for the whole input, call by call. */
  function Output(child: seq<Row>, key: Option<Row -> Key>, aggs: seq<Agg>): (out: seq<Option<Row>>)
    requires Typed(aggs)
  {
    match key
    case None => if aggs == [] then [] else [GroupRow(aggs, [], child)]
    case Some(key) =>
      var ks := FirstSeen(key, child);
      seq(|ks|, i requires 0 <= i < |ks| => GroupRow(aggs, ks[i], Group(key, child, ks[i])))
  }

  lemma OutputAt(child: seq<Row>, key: Row -> Key, aggs: seq<Agg>, n: nat)
    requires Typed(aggs) && n < |FirstSeen(key, child)|
    ensures |Output(child, Some(key), aggs)| == |FirstSeen(key, child)|
    ensures var k := FirstSeen(key, child)[n]; Output(child, Some(key), aggs)[n] == GroupRow(aggs, k, Group(key, child, k))
  {
    hide GroupRow, Group, FirstSeen;
  }

  /**
    One result row per distinct key in first-seen order: the key, then each aggregate with the
    value its definition gives for the rows of that group.
   */
  lemma OutputMeans(child: seq<Row>, key: Row -> Key, aggs: seq<Agg>, n: nat, i: nat)
    requires Typed(aggs) && n < |FirstSeen(key, child)| && i < |aggs|
    ensures |Output(child, Some(key), aggs)| == |FirstSeen(key, child)| && AggTyped(aggs[i])
    ensures var k, row := FirstSeen(key, child)[n], Output(child, Some(key), aggs)[n];
      && (row.Some? ==> |row.value| == |k| + |aggs| && row.value[..|k|] == k
                        && Means(aggs[i], Group(key, child, k), Some(row.value[|k| + i])))
      && (Means(aggs[i], Group(key, child, k), None) ==> row.None?)
  {
    hide *;
    TypedAt(aggs, i);
    OutputAt(child, key, aggs, n);
    var k := FirstSeen(key, child)[n];
    GroupRowMeans(aggs, k, Group(key, child, k), i);
  }

  lemma MeansUnique(a: Agg, rows: seq<Row>, v: Option<Value>)
    requires AggTyped(a) && Means(a, rows, v)
    ensures Means(a, rows, None) ==> v == None
  {
  }

  // ---- The operator ----

  ghost predicate GroupsOf(key: Row -> Key, aggs: seq<Agg>, rows: seq<Row>, groups: Groups)
    requires Typed(aggs)
  {
    && (forall k :: k in groups <==> k in FirstSeen(key, rows))
    && forall k | k in groups :: groups[k] == States(aggs, Group(key, rows, k))
  }

  lemma GroupAt(key: Row -> Key, aggs: seq<Agg>, rows: seq<Row>, groups: Groups, k: Key)
    requires Typed(aggs) && GroupsOf(key, aggs, rows, groups)
    ensures k in groups <==> k in FirstSeen(key, rows)
    ensures k in groups ==> groups[k] == States(aggs, Group(key, rows, k))
  {
  }

  /** One more row changes the group of its key and no other. */
  lemma GroupsStep(key: Row -> Key, aggs: seq<Agg>, rows: seq<Row>, t: Row, groups: Groups)
    requires Typed(aggs) && GroupsOf(key, aggs, rows, groups)
    ensures var k := key(t);
      && (k !in groups ==> Group(key, rows, k) == [])
      && FirstSeen(key, rows + [t]) == (if k in groups then FirstSeen(key, rows) else FirstSeen(key, rows) + [k])
      && GroupsOf(key, aggs, rows + [t], groups[k := States(aggs, Group(key, rows, k) + [t])])
  {
    hide States, Group, FirstSeen;
    var k := key(t);
    SeenSnoc(key, rows, t);
    GroupNotEmpty(key, rows, k);
    forall k' {
      GroupSnoc(key, rows, t, k');
    }
  }

  lemma GroupSnoc(key: Row -> Key, rows: seq<Row>, t: Row, k: Key)
    ensures Group(key, rows + [t], k) == if key(t) == k then Group(key, rows, k) + [t] else Group(key, rows, k)
  {
    assert (rows + [t])[..|rows|] == rows;
  }

  lemma SeenSnoc(key: Row -> Key, rows: seq<Row>, t: Row)
    ensures var seen := FirstSeen(key, rows);
      FirstSeen(key, rows + [t]) == if key(t) in seen then seen else seen + [key(t)]
  {
    assert (rows + [t])[..|rows|] == rows;
  }

  /** `addTupleToGrpAggState`: start the states that are missing, then add the tuple to all of them. */
  method AddTupleToGroup(aggs: seq<Agg>, states: seq<Option<AggState>>, t: Row, ghost rows: seq<Row>) returns (states': seq<Option<AggState>>)
    requires Typed(aggs)
    requires states == States(aggs, rows) || (rows == [] && states == seq(|aggs|, i => None))
    ensures states' == States(aggs, rows + [t])
  {
    states' := states;
    ghost var more := rows + [t];
    assert more[..|rows|] == rows;
    for i := 0 to |states|
      invariant |states'| == |states| == |aggs|
      invariant forall j | i <= j < |states| :: states'[j] == states[j]
      invariant forall j | 0 <= j < i :: states'[j] == States(aggs, more)[j]
    {
      TypedAt(aggs, i);
      assert states[i].Some? ==> states[i].value == Fold(aggs[i], rows);
      if states'[i].None? {
        states' := states'[i := Some(Fresh(aggs[i]))];
      }
      assert states'[i].value == Fold(aggs[i], rows);
      states' := states'[i := Some(Add(aggs[i], states'[i].value, t))];
    }
  }

  /** Join the finalised values to the prefix. */
  method FinalizeStates(prefix: Row, states: seq<Option<AggState>>) returns (r: Step)
    requires forall s | s in states :: s.Some?
    ensures r == match FinalRow(prefix, states) case Some(row) => Yield(row) case None => DivideByZero
  {
    var row := prefix;
    for i := 0 to |states|
      invariant forall s | s in states[..i] :: s.Some?
      invariant FinalRow(prefix, states[..i]) == Some(row)
    {
      assert states[..i + 1][..i] == states[..i] && states[..i + 1] == states[..i] + [states[i]] && states[i] in states;
      var v := Finalize(states[i].value);
      if v.None? {
        FinalRowExact(prefix, states);
        return DivideByZero;
      }
      row := row + [v.value];
    }
    assert states[..|states|] == states;
    r := Yield(row);
  }

  /** The states are those of the given rows. */
  ghost predicate Collected(key: Option<Row -> Key>, aggs: seq<Agg>, rows: seq<Row>,
                            single: seq<Option<AggState>>, groups: Groups, groupByList: seq<Key>)
    requires Typed(aggs)
  {
    match key
    case None => single == States(aggs, rows)
    case Some(key) => groupByList == FirstSeen(key, rows) && GroupsOf(key, aggs, rows, groups)
  }

  /** What the `n`th result is, in terms of the definitions of the aggregates. */
  lemma NextMeans(rows: seq<Row>, key: Option<Row -> Key>, aggs: seq<Agg>, n: nat)
    requires Typed(aggs) && n <= |Output(rows, key, aggs)|
    ensures key.None? ==> |Output(rows, key, aggs)| == if aggs == [] then 0 else 1
    ensures key.Some? ==> |Output(rows, key, aggs)| == |FirstSeen(key.value, rows)|
    ensures n < |Output(rows, key, aggs)| ==>
      var prefix := if key.None? then [] else FirstSeen(key.value, rows)[n];
      var group := if key.None? then rows else Group(key.value, rows, prefix);
      var row := Output(rows, key, aggs)[n];
      if Divides(aggs, group) then row.None? else row.Some? && RowMeans(aggs, prefix, group, row.value)
  {
    hide GroupRow, Group, FirstSeen, RowMeans, Divides;
    if n < |Output(rows, key, aggs)| {
      var prefix := if key.None? then [] else FirstSeen(key.value, rows)[n];
      GroupRowExact(aggs, prefix, if key.None? then rows else Group(key.value, rows, prefix));
    }
  }

  /** The rows among what the child delivers; `None` is a call that fails, or a row whose key fails. */
  function RowsOf(child: seq<Option<Row>>): (rows: seq<Row>)
    ensures |rows| <= |child|
  {
    if child == [] then [] else
    RowsOf(child[..|child| - 1]) + if child[|child| - 1].Some? then [child[|child| - 1].value] else []
  }

  lemma RowsOfMore(child: seq<Option<Row>>, n: nat)
    requires n < |child|
    ensures RowsOf(child[..n + 1]) == RowsOf(child[..n]) + if child[n].Some? then [child[n].value] else []
  {
    assert child[..n + 1][..n] == child[..n];
  }

  /** Each delivered row stands behind those delivered before it. */
  lemma {:induction false} RowsOfAt(child: seq<Option<Row>>, i: nat)
    requires i < |child|
    ensures |RowsOf(child[..i + 1])| == |RowsOf(child[..i])| + if child[i].Some? then 1 else 0
    ensures child[i].Some? ==>
      |RowsOf(child[..i])| < |RowsOf(child)| && RowsOf(child)[|RowsOf(child[..i])|] == child[i].value
  {
    RowsOfMore(child, i);
    if i == |child| - 1 {
      assert child[..i + 1] == child;
    } else {
      var front := child[..|child| - 1];
      RowsOfAt(front, i);
      assert front[..i] == child[..i];
    }
  }

  /** The first failure from `from` on, or the length. */
  function FirstFailure(child: seq<Option<Row>>, from: nat): (n: nat)
    requires from <= |child|
    ensures from <= n <= |child| && (n < |child| ==> child[n].None?)
    ensures forall i | from <= i < n :: child[i].Some?
    decreases |child| - from
  {
    if from == |child| || child[from].None? then from else FirstFailure(child, from + 1)
  }

  /** The closure of `Aggregator.Iterator`. */
  class Aggregator {
    const child: seq<Option<Row>>
    const key: Option<Row -> Key>
    const aggs: seq<Agg>
    var childAt: nat
    var single: seq<Option<AggState>>
    var groups: Groups
    var groupByList: seq<Key>
    var current: nat

    ghost predicate Valid()
      reads this
    {
      && Typed(aggs) && childAt <= |child| && current <= |Output(RowsOf(child), key, aggs)|
      && Collected(key, aggs, RowsOf(child[..childAt]), single, groups, groupByList)
    }

    constructor (child: seq<Option<Row>>, key: Option<Row -> Key>, aggs: seq<Agg>)
      requires Typed(aggs)
      ensures Valid() && current == 0 && this.child == child && this.key == key && this.aggs == aggs
    {
      this.child, this.key, this.aggs := child, key, aggs;
      childAt, current, groups, groupByList := 0, 0, map[], [];
      single := seq(|aggs|, i requires 0 <= i < |aggs| => Some(Fresh(aggs[i])));
    }

    /** No input from `from` on fails. */
    ghost predicate Sound(from: nat)
    {
      forall i | from <= i < |child| :: child[i].Some?
    }

    /** Take every remaining row from the child, or stop behind the first failure. */
    method DrainChild() returns (failed: bool)
      requires Valid()
      modifies this`childAt, this`single, this`groups, this`groupByList
      ensures Valid() && failed == (FirstFailure(child, old(childAt)) < |child|)
      ensures childAt == FirstFailure(child, old(childAt)) + if failed then 1 else 0
    {
      hide Collected, Output, RowsOf;
      while childAt < |child|
        invariant Valid() && old(childAt) <= childAt <= FirstFailure(child, old(childAt))
      {
        var t := child[childAt];
        RowsOfMore(child, childAt);
        childAt := childAt + 1;
        if t.None? {
          assert RowsOf(child[..childAt]) == RowsOf(child[..childAt - 1]);
          return true;
        }
        AddTuple(t.value, RowsOf(child[..childAt - 1]));
      }
      failed := false;
    }

    /** Add one row to its group, which is started if it is new. */
    method AddTuple(t: Row, ghost rows: seq<Row>)
      requires Typed(aggs) && Collected(key, aggs, rows, single, groups, groupByList)
      modifies this`single, this`groups, this`groupByList
      ensures Collected(key, aggs, rows + [t], single, groups, groupByList)
    {
      hide States, FirstSeen, Group, GroupsOf;
      if key.None? {
        single := AddTupleToGroup(aggs, single, t, rows);
      } else {
        GroupsStep(key.value, aggs, rows, t, groups);
        ghost var before := groups;
        var k := key.value(t);
        if k !in groups {
          groups := groups[k := seq(|aggs|, i => None)];
          groupByList := groupByList + [k];
        } else {
          GroupAt(key.value, aggs, rows, groups, k);
        }
        var states := AddTupleToGroup(aggs, groups[k], t, Group(key.value, rows, k));
        groups := groups[k := states];
        assert groups == before[k := states];
      }
    }

    /** Drain the child, then deliver the next row of the reference output. */
    method Deliver() returns (r: Step)
      requires Valid()
      modifies this
      ensures Valid()
      ensures var bad, out := FirstFailure(child, old(childAt)), Output(RowsOf(child), key, aggs);
        if bad < |child| then
          r == Failed && childAt == bad + 1 && current == old(current)
        else if old(current) < |out| then
          childAt == |child| && current == old(current) + 1 &&
          r == match out[old(current)] case Some(row) => Yield(row) case None => DivideByZero
        else childAt == |child| && r == Done && current == old(current)
    {
      hide Group, FirstSeen, States, FinalRow, GroupsOf, RowsOf, FirstFailure;
      var failed := DrainChild();
      if failed {
        return Failed;
      }
      assert child[..|child|] == child;
      if key.None? {
        if current > 0 || aggs == [] {
          return Done;
        }
        StatesAreSome(aggs, RowsOf(child));
        current := 1;
        r := FinalizeStates([], single);
      } else {
        if current == |groupByList| {
          return Done;
        }
        var k := groupByList[current];
        GroupAt(key.value, aggs, RowsOf(child), groups, k);
        StatesAreSome(aggs, Group(key.value, RowsOf(child), k));
        current := current + 1;
        r := FinalizeStates(k, groups[k]);
      }
    }

    /**
      Deliver the next result row.  Without grouping that is one row for the whole input; with
      grouping one row per key.
     */
    method Next() returns (r: Step)
      requires Valid()
      modifies this
      ensures Valid()
      ensures var bad := FirstFailure(child, old(childAt)); bad < |child| ==> r == Failed && childAt == bad + 1 && current == old(current)
      ensures key.None? && aggs != [] && Sound(old(childAt)) && old(current) == 0 ==>
        && current == 1
        && if Divides(aggs, RowsOf(child)) then r == DivideByZero
           else r.Yield? && RowMeans(aggs, [], RowsOf(child), r.row)
      ensures Sound(old(childAt)) ==> childAt == |child| && (r == Done ==> current == old(current))
      ensures key.None? && Sound(old(childAt)) && (aggs == [] || old(current) > 0) ==> r == Done
      ensures key.Some? && Sound(old(childAt)) ==>
        var ks := FirstSeen(key.value, RowsOf(child));
        if old(current) >= |ks| then r == Done
        else
          var k := ks[old(current)];
          var group := Group(key.value, RowsOf(child), k);
          && current == old(current) + 1
          && if Divides(aggs, group) then r == DivideByZero else r.Yield? && RowMeans(aggs, k, group, r.row)
    {
      hide Output, Group, FirstSeen, RowsOf, FirstFailure, RowMeans, Divides, Collected;
      NextMeans(RowsOf(child), key, aggs, current);
      NoFailure(child, childAt);
      r := Deliver();
    }
  }

  lemma NoFailure(child: seq<Option<Row>>, from: nat)
    requires from <= |child|
    ensures (forall i | from <= i < |child| :: child[i].Some?) ==> FirstFailure(child, from) == |child|
  {
  }
}
