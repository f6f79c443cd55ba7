/** Which tables a list of joins connects. */
module PlanGroups {
  type Name = string

  datatype FieldRef = FieldRef(table: Name, index: nat)

  datatype JoinNode = JoinNode(left: FieldRef, right: FieldRef)

  predicate Links(j: JoinNode, a: Name, b: Name) {
    (j.left.table == a && j.right.table == b) || (j.left.table == b && j.right.table == a)
  }

  ghost predicate Linked(joins: seq<JoinNode>, a: Name, b: Name) {
    exists j | j in joins :: Links(j, a, b)
  }

  /** A chain of tables, each linked to the next by some join. */
  ghost predicate IsChain(joins: seq<JoinNode>, p: seq<Name>) {
    |p| >= 1 && forall i, k | 0 <= i < |p| && k == i + 1 < |p| :: Linked(joins, p[i], p[k])
  }

  ghost predicate ChainBetween(joins: seq<JoinNode>, p: seq<Name>, a: Name, b: Name) {
    IsChain(joins, p) && p[0] == a && p[|p| - 1] == b
  }

  /** `a` and `b` lie in the same join-connected component. */
  ghost predicate Connected(joins: seq<JoinNode>, a: Name, b: Name) {
    exists p :: ChainBetween(joins, p, a, b)
  }

  /** No join closes a cycle. */
  ghost predicate Acyclic(joins: seq<JoinNode>) {
    forall i | 0 <= i < |joins| :: !Connected(joins[..i], joins[i].left.table, joins[i].right.table)
  }

  lemma ConnectedSelf(joins: seq<JoinNode>, a: Name)
    ensures Connected(joins, a, a)
  {
    assert ChainBetween(joins, [a], a, a);
  }

  lemma ConnectedJoin(joins: seq<JoinNode>, j: JoinNode, a: Name, b: Name)
    requires j in joins && Links(j, a, b)
    ensures Connected(joins, a, b)
  {
    assert Linked(joins, a, b);
    assert ChainBetween(joins, [a, b], a, b);
  }

  lemma ConnectedTrans(joins: seq<JoinNode>, a: Name, b: Name, c: Name)
    requires Connected(joins, a, b) && Connected(joins, b, c)
    ensures Connected(joins, a, c)
  {
    var p :| ChainBetween(joins, p, a, b);
    var q :| ChainBetween(joins, q, b, c);
    var r := p + q[1..];
    forall i, k | 0 <= i < |r| && k == i + 1 < |r|
      ensures Linked(joins, r[i], r[k])
    {
      if k < |p| {
        assert Linked(joins, p[i], p[k]);
      } else {
        assert Linked(joins, q[i - |p| + 1], q[k - |p| + 1]);
      }
    }
    assert ChainBetween(joins, r, a, c);
  }

  lemma {:induction false} ConnectedSym(joins: seq<JoinNode>, p: seq<Name>, a: Name, b: Name)
    requires ChainBetween(joins, p, a, b)
    ensures Connected(joins, b, a)
  {
    if |p| == 1 {
      ConnectedSelf(joins, a);
    } else {
      assert Linked(joins, p[0], p[1]);
      var j :| j in joins && Links(j, p[0], p[1]);
      ConnectedJoin(joins, j, p[1], p[0]);
      TailIsChain(joins, p);
      ConnectedSym(joins, p[1..], p[1], b);
      ConnectedTrans(joins, b, p[1], a);
    }
  }

  lemma TailIsChain(joins: seq<JoinNode>, p: seq<Name>)
    requires IsChain(joins, p) && |p| > 1
    ensures IsChain(joins, p[1..]) && Linked(joins, p[0], p[1])
  {
    var q := p[1..];
    forall i, k | 0 <= i < |q| && k == i + 1 < |q|
      ensures Linked(joins, q[i], q[k])
    {
      assert Linked(joins, p[i + 1], p[k + 1]);
    }
  }

  lemma {:induction false} ConnectedMore(joins: seq<JoinNode>, more: seq<JoinNode>, a: Name, b: Name)
    requires Connected(joins, a, b)
    ensures Connected(joins + more, a, b)
  {
    var p :| ChainBetween(joins, p, a, b);
    forall i, k | 0 <= i < |p| && k == i + 1 < |p|
      ensures Linked(joins + more, p[i], p[k])
    {
      assert Linked(joins, p[i], p[k]);
      var j :| j in joins && Links(j, p[i], p[k]);
      assert j in joins + more;
    }
    assert ChainBetween(joins + more, p, a, b);
  }

  /** The tables `a` reaches once the join `j` is added: through old joins, or across `j` once. */
  ghost predicate Across(joins: seq<JoinNode>, j: JoinNode, a: Name, b: Name) {
    var l, r := j.left.table, j.right.table;
    || Connected(joins, a, b)
    || (Connected(joins, a, l) && Connected(joins, r, b))
    || (Connected(joins, a, r) && Connected(joins, l, b))
  }

  lemma {:induction false} ChainCrossesOnce(joins: seq<JoinNode>, j: JoinNode, p: seq<Name>, a: Name, b: Name)
    requires ChainBetween(joins + [j], p, a, b)
    ensures Across(joins, j, a, b)
  {
    if |p| == 1 {
      ConnectedSelf(joins, a);
    } else {
      TailIsChain(joins + [j], p);
      ChainCrossesOnce(joins, j, p[1..], p[1], b);
      var k :| k in joins + [j] && Links(k, a, p[1]);
      StepAcross(joins, j, k, a, p[1], b);
    }
  }

  lemma StepAcross(joins: seq<JoinNode>, j: JoinNode, k: JoinNode, a: Name, x: Name, b: Name)
    requires k in joins + [j] && Links(k, a, x) && Across(joins, j, x, b)
    ensures Across(joins, j, a, b)
  {
    var l, r := j.left.table, j.right.table;
    if k in joins {
      ConnectedJoin(joins, k, a, x);
      if Connected(joins, x, b) {
        ConnectedTrans(joins, a, x, b);
      } else if Connected(joins, x, l) && Connected(joins, r, b) {
        ConnectedTrans(joins, a, x, l);
      } else {
        ConnectedTrans(joins, a, x, r);
      }
    } else {
      ConnectedSelf(joins, l);
      ConnectedSelf(joins, r);
      if Connected(joins, x, b) {
      } else if Connected(joins, x, l) && Connected(joins, r, b) {
      } else {
      }
    }
  }

  /** Adding a join merges exactly the two components it links. */
  lemma ConnectedSnoc(joins: seq<JoinNode>, j: JoinNode, a: Name, b: Name)
    ensures Connected(joins + [j], a, b) <==> Across(joins, j, a, b)
  {
    var l, r, all := j.left.table, j.right.table, joins + [j];
    if Connected(all, a, b) {
      var p :| ChainBetween(all, p, a, b);
      ChainCrossesOnce(joins, j, p, a, b);
    }
    if Across(joins, j, a, b) {
      assert j in all;
      ConnectedJoin(all, j, l, r);
      ConnectedJoin(all, j, r, l);
      if Connected(joins, a, b) {
        ConnectedMore(joins, [j], a, b);
      } else if Connected(joins, a, l) && Connected(joins, r, b) {
        ConnectedMore(joins, [j], a, l);
        ConnectedMore(joins, [j], r, b);
        ConnectedTrans(all, a, l, r);
        ConnectedTrans(all, a, r, b);
      } else {
        ConnectedMore(joins, [j], a, r);
        ConnectedMore(joins, [j], l, b);
        ConnectedTrans(all, a, r, l);
        ConnectedTrans(all, a, l, b);
      }
    }
  }
}
