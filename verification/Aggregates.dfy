/** The running states of COUNT, SUM, AVG, MAX and MIN and what they amount to. */
module Aggregates {
  import opened Values
  import opened Ordering

  // ---- 64-bit arithmetic ----

  const Modulus: int := 0x1_0000_0000_0000_0000
  const Half: int := 0x8000_0000_0000_0000

  /** Wrap-around of two's complement arithmetic. */
  function Wrap(n: int): Int64 {
    (n + Half) % Modulus - Half
  }

  lemma WrapAdd(a: int, b: int)
    ensures Wrap(Wrap(a) + b) == Wrap(a + b)
  {
    var m := Wrap(a);
    assert (m - a) % Modulus == 0;
    var k := (m - a) / Modulus;
    assert m + b + Half == (a + b + Half) + Modulus * k;
    ModShift(a + b + Half, k);
  }

  lemma ModShift(n: int, k: int)
    ensures (n + Modulus * k) % Modulus == n % Modulus
  {
  }

  lemma WrapSmall(n: int)
    ensures Wrap(n) == n <==> -Half <= n < Half
  {
  }

  /** Integer division truncated toward zero. */
  function TruncatedDiv(a: int, b: int): int
    requires b != 0
  {
    if (a < 0) == (b < 0) then Abs(a) / Abs(b) else -(Abs(a) / Abs(b))
  }

  function Abs(a: int): nat {
    if a < 0 then -a else a
  }

  /** The remainder is smaller than the divisor and the quotient does not overshoot, on either side of zero. */
  lemma TruncatedDivMeans(a: int, b: int)
    requires b != 0
    ensures var p := TruncatedDiv(a, b) * b;
      Abs(a - p) < Abs(b) && Abs(p) <= Abs(a) && (p == 0 || (p < 0 <==> a < 0))
  {
    var x, y, n := Abs(a) as int, Abs(b) as int, Abs(a) / Abs(b);
    QuotientBounds(x, y, n);
    Signs(n, y);
    var q, m := TruncatedDiv(a, b), n * y;
    hide *;
    assert q * b == if a < 0 then -m else m by {
      assert (q == n || q == -n) && (b == y || b == -y);
    }
  }

  lemma QuotientBounds(x: nat, y: nat, n: nat)
    requires y > 0 && n == x / y
    ensures n * y <= x < n * y + y
  {
    assert x == y * (x / y) + x % y;
  }

  lemma Signs(n: int, y: int)
    requires n >= 0 && y >= 0
    ensures n * y >= 0 && (-n) * y == -(n * y) && n * (-y) == -(n * y) && (-n) * (-y) == n * y
  {
  }

  lemma TruncatedDivSmaller(a: int, b: int)
    requires b > 0
    ensures if a < 0 then a <= TruncatedDiv(a, b) <= 0 else 0 <= TruncatedDiv(a, b) <= a
  {
    QuotientAtMost(Abs(a), b);
  }

  lemma QuotientAtMost(x: nat, y: nat)
    requires y > 0
    ensures 0 <= x / y <= x
  {
    QuotientBounds(x, y, x / y);
    ProductAtLeast(x / y, y);
  }

  lemma {:induction false} ProductAtLeast(n: nat, y: nat)
    requires y > 0
    ensures n * y >= n
  {
    if n > 0 {
      ProductAtLeast(n - 1, y);
      assert n * y == (n - 1) * y + y;
    }
  }

  // ---- States ----

  datatype Agg =
    | Count
    | Sum(ofInt: Row -> Int64)
    | Avg(ofInt: Row -> Int64)
    | Max(expr: Row -> Value, ftype: DBType)
    | Min(expr: Row -> Value, ftype: DBType)

  datatype AggState =
    | CountState(count: Int64)
    | SumState(sum: Int64)
    | AvgState(total: Int64, number: Int64)
    | BestState(best: Value, isNull: bool)

  ghost predicate AggTyped(a: Agg) {
    a.Max? || a.Min? ==> forall row :: TypeOf(a.expr(row)) == a.ftype
  }

  predicate StateOf(a: Agg, s: AggState) {
    match a
    case Count => s.CountState?
    case Sum(_) => s.SumState?
    case Avg(_) => s.AvgState?
    case Max(_, t) => s.BestState? && TypeOf(s.best) == t
    case Min(_, t) => s.BestState? && TypeOf(s.best) == t
  }

  /** `Copy` of an initialised state: zero, or null for MAX and MIN. */
  function Fresh(a: Agg): (s: AggState)
    ensures StateOf(a, s)
  {
    match a
    case Count => CountState(0)
    case Sum(_) => SumState(0)
    case Avg(_) => AvgState(0, 0)
    case Max(_, t) => BestState(ZeroValue(t), true)
    case Min(_, t) => BestState(ZeroValue(t), true)
  }

  function ZeroValue(t: DBType): Value {
    if t.IntType? then IntField(0) else StringField([])
  }

  /** Whether `v` replaces the best value seen so far. */
  predicate Better(a: Agg, v: Value, best: Value)
    requires (a.Max? || a.Min?) && SameType(v, best)
  {
    Compare(v, best) == if a.Max? then GreaterThan else LessThan
  }

  /** `AddTuple`. */
  function Add(a: Agg, s: AggState, row: Row): (s': AggState)
    requires AggTyped(a) && StateOf(a, s)
    ensures StateOf(a, s')
  {
    match s
    case CountState(n) => CountState(Wrap(n + 1))
    case SumState(t) => SumState(Wrap(t + a.ofInt(row)))
    case AvgState(t, n) => AvgState(Wrap(t + a.ofInt(row)), Wrap(n + 1))
    case BestState(best, isNull) =>
      var v := a.expr(row);
      if isNull || Better(a, v, best) then BestState(v, false) else s
  }

  /** `Finalize`; none where AVG divides by zero. */
  function Finalize(s: AggState): Option<Value> {
    match s
    case CountState(n) => Some(IntField(n))
    case SumState(t) => Some(IntField(t))
    case AvgState(t, n) => if n == 0 then None else Some(IntField(Wrap(TruncatedDiv(t, n))))
    case BestState(best, _) => Some(best)
  }

  function Fold(a: Agg, rows: seq<Row>): (s: AggState)
    requires AggTyped(a)
    ensures StateOf(a, s)
  {
    if rows == [] then Fresh(a) else Add(a, Fold(a, rows[..|rows| - 1]), rows[|rows| - 1])
  }

  // ---- What the aggregates mean ----

  function Total(f: Row -> Int64, rows: seq<Row>): int {
    if rows == [] then 0 else Total(f, rows[..|rows| - 1]) + f(rows[|rows| - 1])
  }

  /** `v` is taken by some row and no row has a better value. */
  ghost predicate IsBest(a: Agg, rows: seq<Row>, v: Value)
    requires (a.Max? || a.Min?) && AggTyped(a)
  {
    TypeOf(v) == a.ftype && (exists r :: r in rows && a.expr(r) == v) && forall r | r in rows :: !Better(a, a.expr(r), v)
  }

  /** The aggregate of `rows` by definition. */
  ghost predicate Means(a: Agg, rows: seq<Row>, v: Option<Value>)
    requires AggTyped(a)
  {
    match a
    case Count => v == Some(IntField(Wrap(|rows|)))
    case Sum(f) => v == Some(IntField(Wrap(Total(f, rows))))
    case Avg(f) =>
      if Wrap(|rows|) == 0 then v == None
      else v == Some(IntField(Wrap(TruncatedDiv(Wrap(Total(f, rows)), Wrap(|rows|)))))
    case Max(_, t) => if rows == [] then v == Some(ZeroValue(t)) else v.Some? && IsBest(a, rows, v.value)
    case Min(_, t) => if rows == [] then v == Some(ZeroValue(t)) else v.Some? && IsBest(a, rows, v.value)
  }

  lemma {:induction false} FoldNumbers(a: Agg, rows: seq<Row>)
    requires AggTyped(a)
    ensures a.Count? ==> Fold(a, rows) == CountState(Wrap(|rows|))
    ensures a.Sum? ==> Fold(a, rows) == SumState(Wrap(Total(a.ofInt, rows)))
    ensures a.Avg? ==> Fold(a, rows) == AvgState(Wrap(Total(a.ofInt, rows)), Wrap(|rows|))
  {
    hide Wrap;
    if rows == [] {
      WrapSmall(0);
    } else {
      var front, last := rows[..|rows| - 1], rows[|rows| - 1];
      FoldNumbers(a, front);
      WrapAdd(|front|, 1);
      if a.Sum? || a.Avg? {
        WrapAdd(Total(a.ofInt, front), a.ofInt(last));
      }
    }
  }

  lemma BetterOrder(a: Agg, u: Value, v: Value, w: Value)
    requires (a.Max? || a.Min?) && SameType(u, v) && SameType(v, w)
    ensures !Better(a, u, u)
    ensures !Better(a, u, v) && Better(a, w, v) ==> !Better(a, u, w)
  {
    CompareTotal(u, u);
    CompareTotal(u, v);
    CompareTotal(v, w);
    CompareTotal(u, w);
    if Better(a, u, w) && Better(a, w, v) {
      if a.Max? {
        CompareTransitive(v, w, u);
      } else {
        CompareTransitive(u, w, v);
      }
    }
  }

  lemma {:induction false} FoldBest(a: Agg, rows: seq<Row>)
    requires AggTyped(a) && (a.Max? || a.Min?)
    ensures Fold(a, rows).isNull <==> rows == []
    ensures rows != [] ==> IsBest(a, rows, Fold(a, rows).best)
  {
    hide IsBest, Better;
    if rows != [] {
      var front, last := rows[..|rows| - 1], rows[|rows| - 1];
      FoldBest(a, front);
      BestStep(a, front, last, Fold(a, front));
      assert rows == front + [last];
    }
  }

  lemma BestStep(a: Agg, front: seq<Row>, last: Row, s: AggState)
    requires AggTyped(a) && (a.Max? || a.Min?) && StateOf(a, s) && (s.isNull <==> front == [])
    requires front != [] ==> IsBest(a, front, s.best)
    ensures IsBest(a, front + [last], Add(a, s, last).best)
  {
    hide Compare, Better;
    var rows, v := front + [last], a.expr(last);
    var best := Add(a, s, last).best;
    BetterOrder(a, v, v, v);
    assert rows[|front|] == last && last in rows;
    if best == v {
      forall r | r in rows
        ensures !Better(a, a.expr(r), v)
      {
        if r in front && !s.isNull {
          BetterOrder(a, a.expr(r), s.best, v);
        }
      }
    } else {
      var r :| r in front && a.expr(r) == s.best;
      assert r in rows;
    }
  }

  /** Adding rows one by one and finalising gives the aggregate of all of them. */
  lemma FoldMeans(a: Agg, rows: seq<Row>)
    requires AggTyped(a)
    ensures Means(a, rows, Finalize(Fold(a, rows)))
  {
    FoldNumbers(a, rows);
    if a.Max? || a.Min? {
      FoldBest(a, rows);
    }
  }

  /**
    MAX (MIN) over integers is the value of some row, and no row has a greater (smaller) one; on
    no rows it is 0.
   */
  lemma BestOfInts(a: Agg, rows: seq<Row>)
    requires AggTyped(a) && (a.Max? || a.Min?) && a.ftype == IntType
    ensures rows == [] ==> Finalize(Fold(a, rows)) == Some(IntField(0))
    ensures rows != [] ==> exists m: Int64 ::
              && Finalize(Fold(a, rows)) == Some(IntField(m))
              && (exists r :: r in rows && a.expr(r) == IntField(m))
              && forall r | r in rows :: a.expr(r).IntField? && if a.Max? then a.expr(r).i <= m else m <= a.expr(r).i
  {
    hide Fold, Compare;
    FoldBest(a, rows);
    FoldMeans(a, rows);
    if rows != [] {
      var v := Fold(a, rows).best;
      forall r | r in rows
        ensures a.expr(r).IntField? && if a.Max? then a.expr(r).i <= v.i else v.i <= a.expr(r).i
      {
        assert TypeOf(a.expr(r)) == a.ftype && !Better(a, a.expr(r), v);
        IntsMean(a.expr(r).i, v.i);
      }
    }
  }

  /** MAX (MIN) over strings is the value of some row, and no row has one after (before) it; on no rows it is empty. */
  lemma BestOfStrings(a: Agg, rows: seq<Row>)
    requires AggTyped(a) && (a.Max? || a.Min?) && a.ftype == StringType
    ensures rows == [] ==> Finalize(Fold(a, rows)) == Some(StringField([]))
    ensures rows != [] ==> exists v ::
              && Finalize(Fold(a, rows)) == Some(v) && v.StringField?
              && (exists r :: r in rows && a.expr(r) == v)
              && forall r | r in rows :: if a.Max? then !Smaller(v, a.expr(r)) else !Smaller(a.expr(r), v)
  {
    hide Fold, Compare, Smaller;
    FoldBest(a, rows);
    FoldMeans(a, rows);
    if rows != [] {
      var v := Fold(a, rows).best;
      forall r | r in rows
        ensures if a.Max? then !Smaller(v, a.expr(r)) else !Smaller(a.expr(r), v)
      {
        assert TypeOf(a.expr(r)) == a.ftype && !Better(a, a.expr(r), v);
        CompareMeans(a.expr(r), v);
      }
    }
  }

  /** The total is additive, starts at zero, and of one row is its value. */
  lemma {:induction false} TotalIsSum(f: Row -> Int64, a: seq<Row>, b: seq<Row>, r: Row)
    ensures Total(f, []) == 0 && Total(f, [r]) == f(r) && Total(f, a + b) == Total(f, a) + Total(f, b)
  {
    assert Total(f, [r][..0]) == 0;
    if b == [] {
      assert a + b == a;
    } else {
      var c := a + b;
      assert c[..|c| - 1] == a + b[..|b| - 1] && c[|c| - 1] == b[|b| - 1];
      TotalIsSum(f, a, b[..|b| - 1], r);
    }
  }

  /** Wrapping moves a number by a multiple of 2^64. */
  lemma WrapMeans(n: int)
    ensures (Wrap(n) - n) % 0x1_0000_0000_0000_0000 == 0
  {
  }

  /** COUNT, SUM and AVG on fewer than 2^63 rows and a total that fits, in numbers. */
  lemma NumbersExact(f: Row -> Int64, rows: seq<Row>)
    requires |rows| < 0x8000_0000_0000_0000 && -0x8000_0000_0000_0000 <= Total(f, rows) < 0x8000_0000_0000_0000
    ensures Finalize(Fold(Count, rows)) == Some(IntField(|rows|))
    ensures Finalize(Fold(Sum(f), rows)) == Some(IntField(Total(f, rows)))
  {
    hide Fold, Total;
    FoldNumbers(Count, rows);
    FoldNumbers(Sum(f), rows);
    WrapSmall(|rows|);
    WrapSmall(Total(f, rows));
  }

  /** Without overflow AVG is the sum divided by the number of rows, truncated toward zero. */
  lemma AvgIsExact(f: Row -> Int64, rows: seq<Row>)
    requires 0 < |rows| < Half && -Half <= Total(f, rows) < Half
    ensures Finalize(Fold(Avg(f), rows)) == Some(IntField(Wrap(TruncatedDiv(Total(f, rows), |rows|))))
    ensures Wrap(TruncatedDiv(Total(f, rows), |rows|)) == TruncatedDiv(Total(f, rows), |rows|)
  {
    hide Wrap, TruncatedDiv, Fold;
    FoldNumbers(Avg(f), rows);
    WrapSmall(|rows|);
    WrapSmall(Total(f, rows));
    TruncatedDivSmaller(Total(f, rows), |rows|);
    WrapSmall(TruncatedDiv(Total(f, rows), |rows|));
  }

  /** AVG over no rows divides by zero, although a query without grouping can ask for it. */
  lemma AvgOfNothingFails(f: Row -> Int64)
    ensures Finalize(Fold(Avg(f), [])) == None
  {
  }
}
