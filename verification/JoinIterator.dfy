/**
  The resumable nested-loop join.  The two inputs are the sequences that their iterators
  deliver; every new right iterator delivers the same sequence from its start.
 */
module JoinIterator {
  import opened Values
  import opened JoinPairs

  type Expr = Row -> Value

  /** Rows match when the two expressions have the same value. */
  function OnFields(f: Expr, g: Expr): (Row, Row) -> bool {
    (l, r) => f(l) == g(r)
  }

  /** The joined rows of a list of pairs. */
  function JoinedRows(left: seq<Row>, right: seq<Row>, ps: seq<(nat, nat)>): (rows: seq<Row>)
    requires forall p | p in ps :: p.0 < |left| && p.1 < |right|
    ensures |rows| == |ps|
  {
    seq(|ps|, k requires 0 <= k < |ps| => left[ps[k].0] + right[ps[k].1])
  }

  /** The closure of `EqualityJoin.Iterator`. */
  class EqualityJoin {
    const left: seq<Row>
    const right: seq<Row>
    const leftField: Expr
    const rightField: Expr
    var leftAt: nat
    var rightAt: nat
    var leftTuple: Option<Row>

    ghost predicate Valid()
      reads this
    {
      && leftAt <= |left| && rightAt <= |right|
      && (leftTuple.Some? ==> 0 < leftAt && leftTuple.value == left[leftAt - 1])
      && (leftTuple.None? ==> leftAt == |left|)
    }

    /** The pairs still to come. */
    ghost function Remaining(): seq<(nat, nat)>
      reads this
    {
      if leftTuple.None? || leftAt == 0 then [] else Pairs(left, right, OnFields(leftField, rightField), leftAt - 1, rightAt)
    }

    constructor (left: seq<Row>, right: seq<Row>, leftField: Expr, rightField: Expr)
      requires left != []
      ensures Valid() && this.left == left && this.right == right && this.leftField == leftField && this.rightField == rightField
      ensures Remaining() == Pairs(left, right, OnFields(leftField, rightField), 0, 0)
    {
      this.left, this.right, this.leftField, this.rightField := left, right, leftField, rightField;
      leftAt, rightAt, leftTuple := 1, 0, Some(left[0]);
    }

    /** Deliver the next joined row; once none is left, nothing, on every later call too. */
    method Next() returns (t: Option<Row>)
      requires Valid() && right != []
      modifies this
      ensures Valid()
      ensures t.Some? ==> exists i: nat, j: nat ::
                i < |left| && j < |right| && leftField(left[i]) == rightField(right[j]) && t.value == left[i] + right[j]
      ensures old(Remaining()) == [] ==> t == None && Remaining() == []
      ensures old(Remaining()) != [] ==>
        var p := old(Remaining())[0];
        && p.0 < |left| && p.1 < |right| && t == Some(left[p.0] + right[p.1])
        && Remaining() == old(Remaining())[1..]
    {
      while true
        invariant Valid() && Remaining() == old(Remaining())
        decreases |left| - leftAt, if leftTuple.None? then (if rightAt == |right| then 1 else 0) else 2 + |right| - rightAt
      {
        if rightAt == |right| {
          if leftAt < |left| {
            leftTuple, leftAt := Some(left[leftAt]), leftAt + 1;
          } else {
            assert Pairs(left, right, OnFields(leftField, rightField), leftAt, 0) == [];
            leftTuple := None;
          }
          rightAt := 0;
          continue;
        }
        var rightTuple := right[rightAt];
        rightAt := rightAt + 1;
        if leftTuple.None? {
          return None;
        }
        if leftField(leftTuple.value) == rightField(rightTuple) {
          return Some(leftTuple.value + rightTuple);
        }
      }
    }
  }

  /** No iterator is made for an empty left input. */
  method Open(left: seq<Row>, right: seq<Row>, leftField: Expr, rightField: Expr) returns (join: EqualityJoin?)
    ensures join == null <==> left == []
    ensures join != null ==> fresh(join) && join.Valid() && join.left == left && join.right == right
                             && join.Remaining() == Pairs(left, right, OnFields(leftField, rightField), 0, 0)
  {
    if left == [] {
      return null;
    }
    join := new EqualityJoin(left, right, leftField, rightField);
  }

  /** Call until nothing comes back. */
  method Collect(left: seq<Row>, right: seq<Row>, leftField: Expr, rightField: Expr) returns (rows: seq<Row>)
    requires left != [] && right != []
    ensures var ps := Pairs(left, right, OnFields(leftField, rightField), 0, 0);
      (forall p | p in ps :: p.0 < |left| && p.1 < |right|) && rows == JoinedRows(left, right, ps)
  {
    hide *;
    PairsInRange(left, right, leftField, rightField);
    ghost var ps := Pairs(left, right, OnFields(leftField, rightField), 0, 0);
    ghost var all := JoinedRows(left, right, ps);
    var join := Open(left, right, leftField, rightField);
    rows := [];
    var t := join.Next();
    RowAt(left, right, ps, 0);
    while t.Some?
      invariant join.Valid() && fresh(join) && join.left == left && join.right == right
      invariant |rows| <= |all| && forall k | 0 <= k < |rows| :: rows[k] == all[k]
      invariant if t.Some? then |rows| < |all| && t.value == all[|rows|] else |rows| == |all|
      invariant t.Some? ==> join.Remaining() == ps[|rows| + 1..]
      decreases |ps| - |rows|, t.Some?
    {
      rows := rows + [t.value];
      t := join.Next();
      RowAt(left, right, ps, |rows|);
    }
    assert rows == all;
  }

  /**
    Calling until nothing comes back delivers exactly the joined rows of the pairs with equal
    field values, each pair once, in left-major order.
   */
  method Drain(left: seq<Row>, right: seq<Row>, leftField: Expr, rightField: Expr) returns (rows: seq<Row>)
    requires left != [] && right != []
    ensures exists ps :: JoinedAlong(left, right, leftField, rightField, rows, ps)
  {
    hide *;
    rows := Collect(left, right, leftField, rightField);
    DrainedPairs(left, right, leftField, rightField);
  }

  /** `ps` are the pairs with equal field values, in left-major order, and `rows` is what they join to. */
  ghost predicate JoinedAlong(left: seq<Row>, right: seq<Row>, f: Expr, g: Expr, rows: seq<Row>, ps: seq<(nat, nat)>) {
    && (forall p :: p in ps <==> EqualAt(left, right, f, g, p))
    && (forall a, b | 0 <= a < b < |ps| :: ps[a].0 < ps[b].0 || (ps[a].0 == ps[b].0 && ps[a].1 < ps[b].1))
    && |rows| == |ps|
    && forall k | 0 <= k < |ps| :: ps[k].0 < |left| && ps[k].1 < |right| && rows[k] == left[ps[k].0] + right[ps[k].1]
  }

  predicate EqualAt(left: seq<Row>, right: seq<Row>, f: Expr, g: Expr, p: (nat, nat)) {
    p.0 < |left| && p.1 < |right| && f(left[p.0]) == g(right[p.1])
  }

  lemma DrainedPairs(left: seq<Row>, right: seq<Row>, f: Expr, g: Expr)
    requires forall p | p in Pairs(left, right, OnFields(f, g), 0, 0) :: p.0 < |left| && p.1 < |right|
    ensures var ps := Pairs(left, right, OnFields(f, g), 0, 0);
      JoinedAlong(left, right, f, g, JoinedRows(left, right, ps), ps)
  {
    hide *;
    var ps := Pairs(left, right, OnFields(f, g), 0, 0);
    EqualPairs(left, right, f, g);
    RowsOfPairs(left, right, ps);
    Along(left, right, f, g, JoinedRows(left, right, ps), ps);
  }

  lemma Along(left: seq<Row>, right: seq<Row>, f: Expr, g: Expr, rows: seq<Row>, ps: seq<(nat, nat)>)
    requires (forall p :: p in ps <==> EqualAt(left, right, f, g, p)) && InOrder(ps) && |rows| == |ps|
    requires forall k | 0 <= k < |ps| :: ps[k].0 < |left| && ps[k].1 < |right| && rows[k] == left[ps[k].0] + right[ps[k].1]
    ensures JoinedAlong(left, right, f, g, rows, ps)
  {
    hide EqualAt;
  }

  lemma EqualPairs(left: seq<Row>, right: seq<Row>, f: Expr, g: Expr)
    ensures var ps := Pairs(left, right, OnFields(f, g), 0, 0);
      (forall p :: p in ps <==> EqualAt(left, right, f, g, p)) && InOrder(ps)
  {
    hide Pairs, InOrder;
    AllPairs(left, right, OnFields(f, g));
    forall p
      ensures Matching(left, right, OnFields(f, g), p) <==> EqualAt(left, right, f, g, p)
    {
    }
  }

  lemma RowsOfPairs(left: seq<Row>, right: seq<Row>, ps: seq<(nat, nat)>)
    requires forall p | p in ps :: p.0 < |left| && p.1 < |right|
    ensures forall k | 0 <= k < |ps| ::
              ps[k].0 < |left| && ps[k].1 < |right| && JoinedRows(left, right, ps)[k] == left[ps[k].0] + right[ps[k].1]
  {
    assert forall k | 0 <= k < |ps| :: ps[k] in ps;
  }

  lemma RowAt(left: seq<Row>, right: seq<Row>, ps: seq<(nat, nat)>, k: nat)
    requires (forall p | p in ps :: p.0 < |left| && p.1 < |right|) && k <= |ps|
    ensures ps[k..] == [] <==> k == |ps|
    ensures k < |ps| ==>
      && ps[k..][0] == ps[k] && ps[k..][1..] == ps[k + 1..]
      && JoinedRows(left, right, ps)[k] == left[ps[k].0] + right[ps[k].1]
  {
  }

  lemma PairsInRange(left: seq<Row>, right: seq<Row>, f: Expr, g: Expr)
    ensures forall p | p in Pairs(left, right, OnFields(f, g), 0, 0) :: p.0 < |left| && p.1 < |right|
  {
    AllPairs(left, right, OnFields(f, g));
  }
}
