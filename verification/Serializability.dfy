/**
  Strict two-phase locking over whole runs.  A session is the use of an id from one end to the
  next; conflicts between sessions follow the order of their ends in every run.  Where an id
  does not come back after its end, it is one transaction, and conflicts between committed
  transactions follow commit order.
 */
module Serializability {
  import opened PoolState
  import opened LockInvariants

  /** Two accesses clash when they touch the same page number and one of them writes. */
  predicate Conflicting(a: Event, b: Event) {
    (a.Read? || a.Write?) && (b.Read? || b.Write?) && a.t != b.t && a.key.pageNo == b.key.pageNo && (a.Write? || b.Write?)
  }

  /** A read and a write, either way round, and two writes of one page number by different transactions conflict. */
  lemma WhatConflicts(t: Tid, u: Tid, k: PageKey, l: PageKey, v: Contents, w: Contents, x: Contents, y: Contents)
    requires t != u && k.pageNo == l.pageNo
    ensures Conflicting(Read(t, k, v), Write(u, l, w, x)) && Conflicting(Write(t, k, v, y), Read(u, l, w))
    ensures Conflicting(Write(t, k, v, y), Write(u, l, w, x)) && !Conflicting(Read(t, k, v), Read(u, l, w))
  {
  }

  /** `t` holds a lock on `k`, exclusive if `exclusive` is set. */
  predicate Locked(s: State, t: Tid, k: PageKey, exclusive: bool) {
    t in s.locks && k in s.locks[t] && (exclusive ==> s.locks[t][k].perm == WritePerm)
  }

  lemma AccessIsLocked(s: State, e: Event)
    requires LockInv(s) && (e.Read? || e.Write?) && Enabled(s, e)
    ensures Locked(s, e.t, e.key, e.Write?) && e.t in s.inHand
  {
  }

  /** A held lock never weakens and is dropped only when its transaction ends. */
  lemma LockStays(s: State, e: Event, t: Tid, k: PageKey, exclusive: bool)
    requires Enabled(s, e) && Locked(s, t, k, exclusive) && !Ends(e, t)
    ensures Locked(Apply(s, e), t, k, exclusive)
  {
    TableStep(s, e);
    hide Apply, Enabled;
  }

  lemma {:induction false} LockStaysUntil(s0: State, tr: seq<Event>, i: nat, j: nat, t: Tid, k: PageKey, exclusive: bool)
    requires IsRun(s0, tr) && i <= j <= |tr| && Locked(At(s0, tr, i), t, k, exclusive)
    requires forall n | i <= n < j :: !Ends(tr[n], t)
    ensures Locked(At(s0, tr, j), t, k, exclusive)
    decreases j - i
  {
    hide Apply, Enabled, IsRun, At, Locked;
    if i < j {
      StepAt(s0, tr, i);
      LockStays(At(s0, tr, i), tr[i], t, k, exclusive);
      LockStaysUntil(s0, tr, i + 1, j, t, k, exclusive);
    }
  }

  /** Two transactions never hold clashing locks. */
  lemma NoClash(s: State, t: Tid, k: PageKey, x: bool, u: Tid, l: PageKey, y: bool)
    requires LockInv(s) && Locked(s, t, k, x) && Locked(s, u, l, y) && t != u && k.pageNo == l.pageNo
    ensures !x && !y
  {
    assert Compatible(s.locks[t], s.locks[u]);
  }

  lemma LockedAt(s0: State, tr: seq<Event>, i: nat)
    requires Init(s0) && IsRun(s0, tr) && i < |tr| && (tr[i].Read? || tr[i].Write?)
    ensures Locked(At(s0, tr, i), tr[i].t, tr[i].key, tr[i].Write?) && tr[i].t in At(s0, tr, i).inHand
  {
    hide Apply, Enabled, IsRun, At, LockInv, Locked;
    LocksAt(s0, tr, i);
    StepAt(s0, tr, i);
    AccessIsLocked(At(s0, tr, i), tr[i]);
  }

  /** Between two conflicting accesses the first transaction ends. */
  lemma ConflictsAreSeparated(s0: State, tr: seq<Event>, i: nat, j: nat) returns (n: nat)
    requires Init(s0) && IsRun(s0, tr) && i < j < |tr| && Conflicting(tr[i], tr[j])
    ensures i < n < j && Ends(tr[n], tr[i].t)
  {
    hide IsRun, At, LockInv, Locked;
    var a, b := tr[i], tr[j];
    n := i;
    while n < j && !Ends(tr[n], a.t)
      invariant i <= n <= j && forall m | i <= m < n :: !Ends(tr[m], a.t)
    {
      n := n + 1;
    }
    if n == j {
      LockedAt(s0, tr, i);
      LockedAt(s0, tr, j);
      LocksAt(s0, tr, j);
      LockStaysUntil(s0, tr, i, j, a.t, a.key, a.Write?);
      NoClash(At(s0, tr, j), a.t, a.key, a.Write?, b.t, b.key, b.Write?);
    }
  }

  // ---- Sessions: an id from one end to the next ----

  /** The first event from `i` on that ends `t`, or the length of the run. */
  function SessionEnd(tr: seq<Event>, i: nat, t: Tid): (n: nat)
    requires i <= |tr|
    ensures i <= n <= |tr| && (n < |tr| ==> Ends(tr[n], t))
    ensures forall m | i <= m < n :: !Ends(tr[m], t)
    decreases |tr| - i
  {
    if i == |tr| || Ends(tr[i], t) then i else SessionEnd(tr, i + 1, t)
  }

  /** A session that accesses a page before a conflicting access of another one ends before that access. */
  lemma SessionsInOrder(s0: State, tr: seq<Event>, i: nat, j: nat)
    requires Init(s0) && IsRun(s0, tr) && i < j < |tr| && Conflicting(tr[i], tr[j])
    ensures i < SessionEnd(tr, i, tr[i].t) < j < SessionEnd(tr, j, tr[j].t)
  {
    hide IsRun;
    var n := ConflictsAreSeparated(s0, tr, i, j);
    assert !Ends(tr[i], tr[i].t) && !Ends(tr[j], tr[j].t);
  }

  /** The session that ends at `m` has an access that conflicts with a later one of the session that ends at `n`. */
  ghost predicate SessionEdge(tr: seq<Event>, m: nat, n: nat) {
    exists i, j | 0 <= i < j < |tr| ::
      Conflicting(tr[i], tr[j]) && SessionEnd(tr, i, tr[i].t) == m && SessionEnd(tr, j, tr[j].t) == n
  }

  ghost predicate SessionPath(tr: seq<Event>, p: seq<nat>) {
    |p| >= 2 && forall i, j | 0 <= i < |p| && j == i + 1 < |p| :: SessionEdge(tr, p[i], p[j])
  }

  lemma SessionEdgeRises(s0: State, tr: seq<Event>, m: nat, n: nat)
    requires Init(s0) && IsRun(s0, tr) && SessionEdge(tr, m, n)
    ensures m < n
  {
    hide IsRun, SessionEnd;
    var i, j :| 0 <= i < j < |tr| && Conflicting(tr[i], tr[j])
      && SessionEnd(tr, i, tr[i].t) == m && SessionEnd(tr, j, tr[j].t) == n;
    SessionsInOrder(s0, tr, i, j);
  }

  /** The conflict graph of the sessions of any run follows the order of their ends, whatever ids come back. */
  lemma {:induction false} SessionGraphAcyclic(s0: State, tr: seq<Event>, p: seq<nat>)
    requires Init(s0) && IsRun(s0, tr) && SessionPath(tr, p)
    ensures p[0] < p[|p| - 1]
  {
    hide IsRun, SessionEdge;
    assert SessionEdge(tr, p[0], p[1]);
    SessionEdgeRises(s0, tr, p[0], p[1]);
    if |p| > 2 {
      assert SessionPath(tr, p[1..]);
      SessionGraphAcyclic(s0, tr, p[1..]);
    }
  }

  // ---- Transactions: ids that do not come back ----

  /** Once `t` has ended it neither asks for a page nor commits again. */
  ghost predicate NoReturn(tr: seq<Event>, t: Tid) {
    forall i, j | 0 <= i < j < |tr| && Ends(tr[i], t) :: !((tr[j].Ask? || tr[j].Commit?) && tr[j].t == t)
  }

  ghost predicate NoneReturns(tr: seq<Event>) {
    forall t :: NoReturn(tr, t)
  }

  lemma GoneStep(s: State, e: Event, t: Tid)
    requires Enabled(s, e) && !(e.Ask? && e.t == t)
    requires Ends(e, t) || (t !in s.pending && t !in s.inHand)
    ensures t !in Apply(s, e).pending && t !in Apply(s, e).inHand
  {
    TableStep(s, e);
    hide Apply, Enabled, SaveLock;
  }

  /** An ended transaction that does not ask again has no page in hand. */
  lemma {:induction false} GoneUntil(s0: State, tr: seq<Event>, i: nat, j: nat, t: Tid)
    requires IsRun(s0, tr) && i < j <= |tr| && Ends(tr[i], t)
    requires forall n | i < n < j :: !(tr[n].Ask? && tr[n].t == t)
    ensures t !in At(s0, tr, j).pending && t !in At(s0, tr, j).inHand
    decreases j
  {
    hide Apply, Enabled, IsRun, At;
    if i < j - 1 {
      GoneUntil(s0, tr, i, j - 1, t);
    }
    StepAt(s0, tr, j - 1);
    GoneStep(At(s0, tr, j - 1), tr[j - 1], t);
  }

  /** An id that does not come back makes no access after its end. */
  lemma NoLateAccess(s0: State, tr: seq<Event>, i: nat, j: nat)
    requires Init(s0) && IsRun(s0, tr) && i < j < |tr| && (tr[j].Read? || tr[j].Write?) && NoReturn(tr, tr[j].t)
    ensures !Ends(tr[i], tr[j].t)
  {
    hide IsRun, At;
    LockedAt(s0, tr, j);
    if Ends(tr[i], tr[j].t) {
      GoneUntil(s0, tr, i, j, tr[j].t);
    }
  }

  /**
    Conflict serializability in commit order: if a committed transaction accesses a page before
    a conflicting access by another one, it commits between the two accesses.
   */
  lemma CommitOrder(s0: State, tr: seq<Event>, i: nat, j: nat, c: nat)
    requires Init(s0) && IsRun(s0, tr) && i < j < |tr| && Conflicting(tr[i], tr[j])
    requires c < |tr| && tr[c] == Commit(tr[i].t) && NoReturn(tr, tr[i].t)
    ensures i < c < j
  {
    hide IsRun;
    var n := ConflictsAreSeparated(s0, tr, i, j);
    if c < i {
      NoLateAccess(s0, tr, c, i);
    }
  }

  // ---- The conflict graph ----

  ghost predicate Committed(tr: seq<Event>, t: Tid) {
    exists c | 0 <= c < |tr| :: tr[c] == Commit(t)
  }

  ghost predicate ConflictEdge(tr: seq<Event>, t: Tid, u: Tid) {
    exists i, j | 0 <= i < j < |tr| :: Conflicting(tr[i], tr[j]) && tr[i].t == t && tr[j].t == u
  }

  /** Committed transactions, each with an access that conflicts with a later one of the next. */
  ghost predicate ConflictPath(tr: seq<Event>, p: seq<Tid>) {
    && |p| >= 2
    && (forall i | 0 <= i < |p| :: Committed(tr, p[i]))
    && (forall i, j | 0 <= i < |p| && j == i + 1 < |p| :: ConflictEdge(tr, p[i], p[j]))
  }

  lemma EdgeFollowsCommits(s0: State, tr: seq<Event>, t: Tid, u: Tid, c: nat, d: nat)
    requires Init(s0) && IsRun(s0, tr) && ConflictEdge(tr, t, u) && NoReturn(tr, t) && NoReturn(tr, u)
    requires c < |tr| && tr[c] == Commit(t) && d < |tr| && tr[d] == Commit(u)
    ensures c < d
  {
    hide IsRun;
    var i, j :| 0 <= i < j < |tr| && Conflicting(tr[i], tr[j]) && tr[i].t == t && tr[j].t == u;
    CommitOrder(s0, tr, i, j, c);
    if d < j {
      NoLateAccess(s0, tr, d, j);
    }
  }

  lemma {:induction false} PathFollowsCommits(s0: State, tr: seq<Event>, p: seq<Tid>, c: nat, d: nat)
    requires Init(s0) && IsRun(s0, tr) && ConflictPath(tr, p) && forall i | 0 <= i < |p| :: NoReturn(tr, p[i])
    requires c < |tr| && tr[c] == Commit(p[0]) && d < |tr| && tr[d] == Commit(p[|p| - 1])
    ensures c < d
  {
    hide IsRun, NoReturn;
    assert ConflictEdge(tr, p[0], p[1]) && Committed(tr, p[1]);
    var m :| 0 <= m < |tr| && tr[m] == Commit(p[1]);
    EdgeFollowsCommits(s0, tr, p[0], p[1], c, m);
    if |p| > 2 {
      assert ConflictPath(tr, p[1..]);
      PathFollowsCommits(s0, tr, p[1..], m, d);
    } else {
      EdgeFollowsCommits(s0, tr, p[0], p[1], c, d);
    }
  }

  /** The conflict graph of the committed transactions is acyclic when their ids do not come back. */
  lemma ConflictGraphAcyclic(s0: State, tr: seq<Event>, p: seq<Tid>)
    requires Init(s0) && IsRun(s0, tr) && ConflictPath(tr, p) && forall i | 0 <= i < |p| :: NoReturn(tr, p[i])
    ensures p[0] != p[|p| - 1]
  {
    hide IsRun, NoReturn;
    assert Committed(tr, p[0]);
    var c :| 0 <= c < |tr| && tr[c] == Commit(p[0]);
    if p[0] == p[|p| - 1] {
      PathFollowsCommits(s0, tr, p, c, c);
      assert false;
    }
  }
}
