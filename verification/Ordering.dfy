/** Comparison of field values: integers by value, strings byte by byte. */
module Ordering {
  import opened Values

  datatype Order = LessThan | Same | GreaterThan {
    function Flip(): Order {
      match this
      case LessThan => GreaterThan
      case Same => Same
      case GreaterThan => LessThan
    }
  }

  function CompareInts(a: int, b: int): Order {
    if a < b then LessThan else if a > b then GreaterThan else Same
  }

  /** Go's string order. */
  function CompareBytes(a: Bytes, b: Bytes): Order {
    if a == [] then (if b == [] then Same else LessThan)
    else if b == [] then GreaterThan
    else if a[0] != b[0] then CompareInts(a[0], b[0])
    else CompareBytes(a[1..], b[1..])
  }

  predicate SameType(a: Value, b: Value) {
    a.IntField? <==> b.IntField?
  }

  function Compare(a: Value, b: Value): Order
    requires SameType(a, b)
  {
    if a.IntField? then CompareInts(a.i, b.i) else CompareBytes(a.s, b.s)
  }

  lemma {:induction false} BytesTotal(a: Bytes, b: Bytes)
    ensures CompareBytes(b, a) == CompareBytes(a, b).Flip()
    ensures CompareBytes(a, b) == Same <==> a == b
  {
    if a != [] && b != [] && a[0] == b[0] {
      BytesTotal(a[1..], b[1..]);
      assert a == [a[0]] + a[1..] && b == [b[0]] + b[1..];
    }
  }

  lemma {:induction false} BytesTransitive(a: Bytes, b: Bytes, c: Bytes)
    requires CompareBytes(a, b) == LessThan && CompareBytes(b, c) == LessThan
    ensures CompareBytes(a, c) == LessThan
  {
    if a != [] && a[0] == b[0] && b[0] == c[0] {
      BytesTransitive(a[1..], b[1..], c[1..]);
    }
  }

  /** The numbers decide. */
  lemma IntsMean(a: Int64, b: Int64)
    ensures Compare(IntField(a), IntField(b)) == LessThan <==> a < b
    ensures Compare(IntField(a), IntField(b)) == GreaterThan <==> a > b
    ensures Compare(IntField(a), IntField(b)) == Same <==> a == b
  {
  }

  /** Where a smaller string differs from a greater one. */
  lemma {:induction false} LessAt(a: Bytes, b: Bytes) returns (i: nat)
    requires CompareBytes(a, b) == LessThan
    ensures i <= |a| && i < |b| && a[..i] == b[..i] && (i == |a| || a[i] < b[i])
  {
    i := 0;
    if a != [] && a[0] == b[0] {
      i := LessAt(a[1..], b[1..]);
      i := i + 1;
      assert a[..i] == [a[0]] + a[1..][..i - 1] && b[..i] == [b[0]] + b[1..][..i - 1];
    }
  }

  lemma {:induction false} SmallerAt(a: Bytes, b: Bytes, i: nat)
    requires i <= |a| && i < |b| && a[..i] == b[..i] && (i == |a| || a[i] < b[i])
    ensures CompareBytes(a, b) == LessThan
  {
    if i > 0 {
      assert a[0] == a[..i][0] && b[0] == b[..i][0];
      assert a[1..][..i - 1] == a[..i][1..] && b[1..][..i - 1] == b[..i][1..];
      SmallerAt(a[1..], b[1..], i - 1);
    }
  }

  /** The first string is less exactly when it is a proper prefix, or smaller at the first differing byte. */
  lemma BytesMean(a: Bytes, b: Bytes)
    ensures Compare(StringField(a), StringField(b)) == LessThan <==>
      exists i: nat :: i <= |a| && i < |b| && a[..i] == b[..i] && (i == |a| || a[i] < b[i])
  {
    hide CompareBytes;
    if CompareBytes(a, b) == LessThan {
      var i := LessAt(a, b);
    }
    if i: nat :| i <= |a| && i < |b| && a[..i] == b[..i] && (i == |a| || a[i] < b[i]) {
      SmallerAt(a, b, i);
    }
  }

  /** The smaller number, or the string that comes first. */
  ghost predicate Smaller(v: Value, w: Value) {
    if v.IntField? && w.IntField? then v.i < w.i
    else if v.StringField? && w.StringField? then
      exists i: nat :: i <= |v.s| && i < |w.s| && v.s[..i] == w.s[..i] && (i == |v.s| || v.s[i] < w.s[i])
    else false
  }

  lemma CompareMeans(v: Value, w: Value)
    requires SameType(v, w)
    ensures Compare(v, w) == LessThan <==> Smaller(v, w)
    ensures Compare(v, w) == GreaterThan <==> Smaller(w, v)
  {
    hide Compare, CompareBytes, CompareInts;
    CompareTotal(v, w);
    if v.IntField? {
      IntsMean(v.i, w.i);
    } else {
      BytesMean(v.s, w.s);
      BytesMean(w.s, v.s);
    }
  }

  /** The comparison is a total order on values of one type. */
  lemma CompareTotal(a: Value, b: Value)
    requires SameType(a, b)
    ensures Compare(b, a) == Compare(a, b).Flip()
    ensures Compare(a, b) == Same <==> a == b
  {
    if a.StringField? {
      BytesTotal(a.s, b.s);
    }
  }

  lemma CompareTransitive(a: Value, b: Value, c: Value)
    requires SameType(a, b) && SameType(b, c)
    requires Compare(a, b) == LessThan && Compare(b, c) == LessThan
    ensures Compare(a, c) == LessThan
  {
    if a.StringField? {
      BytesTransitive(a.s, b.s, c.s);
    }
  }
}
