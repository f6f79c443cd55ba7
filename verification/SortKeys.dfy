/** Comparison of tuples by several keys with mixed directions, as `ORDER BY` uses it. */
module SortKeys {
  import opened Values
  import opened Ordering

  datatype Key = Key(expr: Row -> Value, ftype: DBType, ascending: bool)

  /** The expressions of the keys have one type each. */
  ghost predicate Typed(keys: seq<Key>) {
    forall k | k in keys :: KeyTyped(k)
  }

  ghost predicate KeyTyped(k: Key) {
    forall row :: TypeOf(k.expr(row)) == k.ftype
  }

  lemma TypedAt(keys: seq<Key>, i: nat)
    requires Typed(keys) && i < |keys|
    ensures KeyTyped(keys[i])
  {
    assert keys[i] in keys;
  }

  /** The two values under one key, in the direction of the key. */
  function Directed(k: Key, p: Row, q: Row): Order
    requires KeyTyped(k)
  {
    var c := Compare(k.expr(p), k.expr(q));
    if k.ascending then c else c.Flip()
  }

  /** Lexicographic comparison: the first key that tells the rows apart decides. */
  function Lexicographic(keys: seq<Key>, p: Row, q: Row): Order
    requires Typed(keys)
  {
    if keys == [] then Same else
    TypedAt(keys, 0);
    var c := Directed(keys[0], p, q);
    if c != Same then c else Lexicographic(keys[1..], p, q)
  }

  /** One of the closures built in `OrderBy.Iterator`. */
  method LessByKey(k: Key, p: Row, q: Row) returns (less: bool)
    requires KeyTyped(k)
    ensures less <==> Directed(k, p, q) == LessThan
    ensures less <==> if k.ascending then Smaller(k.expr(p), k.expr(q)) else Smaller(k.expr(q), k.expr(p))
    ensures k.ftype == IntType ==> (less <==> if k.ascending then k.expr(p).i < k.expr(q).i else k.expr(p).i > k.expr(q).i)
  {
    CompareMeans(k.expr(p), k.expr(q));
    assert TypeOf(k.expr(p)) == k.ftype && TypeOf(k.expr(q)) == k.ftype;
    var order := Compare(k.expr(p), k.expr(q));
    if k.ascending {
      return order == LessThan;
    }
    return order == GreaterThan;
  }

  lemma DirectedTotal(k: Key, p: Row, q: Row)
    requires KeyTyped(k)
    ensures Directed(k, q, p) == Directed(k, p, q).Flip()
    ensures Directed(k, p, q) == Same <==> k.expr(p) == k.expr(q)
  {
    CompareTotal(k.expr(p), k.expr(q));
  }

  lemma DirectedTransitive(k: Key, p: Row, q: Row, r: Row)
    requires KeyTyped(k) && Directed(k, p, q) == LessThan && Directed(k, q, r) == LessThan
    ensures Directed(k, p, r) == LessThan
  {
    var a, b, c := k.expr(p), k.expr(q), k.expr(r);
    CompareTotal(a, b);
    CompareTotal(b, c);
    CompareTotal(a, c);
    if k.ascending {
      CompareTransitive(a, b, c);
    } else {
      CompareTransitive(c, b, a);
    }
  }

  /** The keys before the `k`th have equal values. */
  ghost predicate FirstDifference(keys: seq<Key>, p: Row, q: Row, k: nat) {
    k < |keys| && forall i | 0 <= i < k :: keys[i].expr(p) == keys[i].expr(q)
  }

  /** The `k`th key puts `p` first: the smaller value if it ascends, the greater one if it descends. */
  ghost predicate Puts(k: Key, p: Row, q: Row) {
    if k.ascending then Smaller(k.expr(p), k.expr(q)) else Smaller(k.expr(q), k.expr(p))
  }

  lemma DirectedMeans(k: Key, p: Row, q: Row)
    requires KeyTyped(k)
    ensures Directed(k, p, q) == LessThan <==> Puts(k, p, q)
    ensures Directed(k, p, q) == Same <==> k.expr(p) == k.expr(q)
    ensures Puts(k, p, q) ==> k.expr(p) != k.expr(q)
  {
    CompareMeans(k.expr(p), k.expr(q));
    CompareTotal(k.expr(p), k.expr(q));
  }

  /** The first key that tells the rows apart decides. */
  lemma {:induction false} LessDecides(keys: seq<Key>, p: Row, q: Row)
    requires Typed(keys)
    ensures Lexicographic(keys, p, q) == LessThan <==>
              exists k :: 0 <= k < |keys| && FirstDifference(keys, p, q, k) && Puts(keys[k], p, q)
  {
    hide Directed, Puts;
    if keys != [] {
      var rest := keys[1..];
      TypedAt(keys, 0);
      DirectedMeans(keys[0], p, q);
      LessDecides(rest, p, q);
      if Lexicographic(keys, p, q) == LessThan {
        if keys[0].expr(p) == keys[0].expr(q) {
          var k :| 0 <= k < |rest| && FirstDifference(rest, p, q, k) && Puts(rest[k], p, q);
          assert keys[k + 1] == rest[k];
          assert FirstDifference(keys, p, q, k + 1);
        } else {
          assert FirstDifference(keys, p, q, 0);
        }
      }
      if k :| 0 <= k < |keys| && FirstDifference(keys, p, q, k) && Puts(keys[k], p, q) {
        if k > 0 {
          assert rest[k - 1] == keys[k] && keys[0].expr(p) == keys[0].expr(q);
          assert FirstDifference(rest, p, q, k - 1);
        }
      }
    }
  }

  /** `multiSorter.Less` decides the lexicographic order; it needs at least one key. */
  method Less(keys: seq<Key>, p: Row, q: Row) returns (less: bool)
    requires keys != [] && Typed(keys)
    ensures less <==> Lexicographic(keys, p, q) == LessThan
    ensures less <==> exists k :: 0 <= k < |keys| && FirstDifference(keys, p, q, k) && Puts(keys[k], p, q)
  {
    hide Directed, Smaller, FirstDifference, Puts;
    LessDecides(keys, p, q);
    var k := 0;
    while k < |keys| - 1
      invariant 0 <= k <= |keys| - 1 && Typed(keys[k..])
      invariant Lexicographic(keys[k..], p, q) == Lexicographic(keys, p, q)
    {
      TypedAt(keys, k);
      assert keys[k..][1..] == keys[k + 1..] && keys[k..][0] == keys[k];
      DirectedTotal(keys[k], p, q);
      var pq := LessByKey(keys[k], p, q);
      if pq {
        return true;
      }
      var qp := LessByKey(keys[k], q, p);
      if qp {
        return false;
      }
      k := k + 1;
    }
    TypedAt(keys, k);
    assert keys[k..] == [keys[k]];
    assert Lexicographic(keys[k..][1..], p, q) == Same;
    less := LessByKey(keys[k], p, q);
  }

  /** Comparing the other way round flips the result; equal means equal under every key. */
  lemma {:induction false} LexicographicTotal(keys: seq<Key>, p: Row, q: Row)
    requires Typed(keys)
    ensures Lexicographic(keys, q, p) == Lexicographic(keys, p, q).Flip()
    ensures Lexicographic(keys, p, q) == Same <==> forall i | 0 <= i < |keys| :: keys[i].expr(p) == keys[i].expr(q)
  {
    if keys != [] {
      TypedAt(keys, 0);
      DirectedTotal(keys[0], p, q);
      LexicographicTotal(keys[1..], p, q);
      hide Directed;
      assert (forall i | 0 <= i < |keys| :: keys[i].expr(p) == keys[i].expr(q)) <==>
        keys[0].expr(p) == keys[0].expr(q) && forall i | 0 <= i < |keys| - 1 :: keys[1..][i].expr(p) == keys[1..][i].expr(q) by {
        assert forall i | 1 <= i < |keys| :: keys[i] == keys[1..][i - 1];
      }
    }
  }

  lemma {:induction false} LexicographicTransitive(keys: seq<Key>, p: Row, q: Row, r: Row)
    requires Typed(keys) && Lexicographic(keys, p, q) == LessThan && Lexicographic(keys, q, r) == LessThan
    ensures Lexicographic(keys, p, r) == LessThan
  {
    var k := keys[0];
    TypedAt(keys, 0);
    DirectedTotal(k, p, q);
    DirectedTotal(k, q, r);
    DirectedTotal(k, p, r);
    if Directed(k, p, q) == LessThan && Directed(k, q, r) == LessThan {
      DirectedTransitive(k, p, q, r);
    } else if Directed(k, p, q) == Same && Directed(k, q, r) == Same {
      LexicographicTransitive(keys[1..], p, q, r);
    } else if Directed(k, p, q) == Same {
      assert Directed(k, p, r) == Directed(k, q, r);
    } else {
      assert Directed(k, p, r) == Directed(k, p, q);
    }
  }

  ghost predicate Before(keys: seq<Key>, p: Row, q: Row)
    requires Typed(keys)
  {
    Lexicographic(keys, p, q) == LessThan
  }

  ghost predicate Tied(keys: seq<Key>, p: Row, q: Row)
    requires Typed(keys)
  {
    !Before(keys, p, q) && !Before(keys, q, p)
  }

  /** The order is a strict weak order: asymmetric, transitive, and ties are transitive. */
  lemma StrictWeakOrder(keys: seq<Key>, p: Row, q: Row, r: Row)
    requires Typed(keys)
    ensures !(Before(keys, p, q) && Before(keys, q, p)) && !Before(keys, p, p)
    ensures Before(keys, p, q) && Before(keys, q, r) ==> Before(keys, p, r)
    ensures Tied(keys, p, q) && Tied(keys, q, r) ==> Tied(keys, p, r)
    ensures Before(keys, p, q) && Tied(keys, q, r) ==> Before(keys, p, r)
  {
    LexicographicTotal(keys, p, p);
    LexicographicTotal(keys, p, q);
    LexicographicTotal(keys, q, r);
    LexicographicTotal(keys, p, r);
    if Before(keys, p, q) && Before(keys, q, r) {
      LexicographicTransitive(keys, p, q, r);
    }
    if Before(keys, p, q) && Tied(keys, q, r) {
      TiedSwap(keys, p, q, r);
    }
  }

  lemma {:induction false} TiedSwap(keys: seq<Key>, p: Row, q: Row, r: Row)
    requires Typed(keys) && Tied(keys, q, r)
    ensures Lexicographic(keys, p, q) == Lexicographic(keys, p, r)
  {
    LexicographicTotal(keys, q, r);
    if keys != [] {
      TypedAt(keys, 0);
      LexicographicTotal(keys[1..], q, r);
      assert keys[0].expr(q) == keys[0].expr(r);
      assert forall i | 0 <= i < |keys| - 1 :: keys[1..][i] == keys[i + 1];
      TiedSwap(keys[1..], p, q, r);
    }
  }
}
