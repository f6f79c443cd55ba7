/**
  The deadlock detector is sound and complete over whole runs: it aborts only on a real
  cycle of blocked transactions, and no deadlock outlives a round of polling.
 */
module Deadlock {
  import opened PoolState
  import opened LockInvariants

  // ---- Cycles ----

  function Next(c: seq<Tid>, i: nat): nat
    requires i < |c|
  {
    if i + 1 == |c| then 0 else i + 1
  }

  /** Each transaction of `c` is blocked by the next one, and the last by the first. */
  ghost predicate BlockedCycle(s: State, c: seq<Tid>) {
    |c| >= 1 && forall i {:trigger Next(c, i)} | 0 <= i < |c| :: BlockedBy(s, c[i], c[Next(c, i)])
  }

  ghost predicate BlockedWithin(s: State, d: set<Tid>, t: Tid) {
    exists u :: u in d && BlockedBy(s, t, u)
  }

  /** A deadlock: every transaction in it is blocked by one that is in it too. */
  ghost predicate Deadlocked(s: State, d: set<Tid>) {
    d != {} && forall t {:trigger BlockedWithin(s, d, t)} | t in d :: BlockedWithin(s, d, t)
  }

  /** A trail of distinct transactions of `d`, each blocked by the one after it. */
  ghost predicate Trail(s: State, d: set<Tid>, w: seq<Tid>) {
    && |w| >= 1
    && (forall i | 0 <= i < |w| :: w[i] in d)
    && (forall i, j | 0 <= i < j < |w| :: w[i] != w[j])
    && (forall i, j | 0 <= i < |w| && j == i + 1 < |w| :: BlockedBy(s, w[i], w[j]))
  }

  lemma {:induction false} DistinctFits(w: seq<Tid>, d: set<Tid>)
    requires forall i | 0 <= i < |w| :: w[i] in d
    requires forall i, j | 0 <= i < j < |w| :: w[i] != w[j]
    ensures |w| <= |d|
  {
    if w != [] {
      var last := w[|w| - 1];
      DistinctFits(w[..|w| - 1], d - {last});
    }
  }

  /** Following a deadlock far enough closes a cycle. */
  lemma {:induction false} TrailCloses(s: State, d: set<Tid>, w: seq<Tid>) returns (c: seq<Tid>)
    requires Trail(s, d, w) && Deadlocked(s, d)
    ensures BlockedCycle(s, c) && forall i | 0 <= i < |c| :: c[i] in d
    decreases |d| - |w|
  {
    DistinctFits(w, d);
    assert BlockedWithin(s, d, w[|w| - 1]);
    var x :| x in d && BlockedBy(s, w[|w| - 1], x);
    if x in w {
      var k :| 0 <= k < |w| && w[k] == x;
      c := w[k..];
    } else {
      var longer := w + [x];
      DistinctFits(longer, d);
      c := TrailCloses(s, d, longer);
    }
  }

  /** A set of transactions blocked within itself contains a cycle of blocked transactions. */
  lemma DeadlockHasCycle(s: State, d: set<Tid>) returns (c: seq<Tid>)
    requires Deadlocked(s, d)
    ensures BlockedCycle(s, c) && forall i | 0 <= i < |c| :: c[i] in d
  {
    var t :| t in d;
    c := TrailCloses(s, d, [t]);
  }

  // ---- Soundness ----

  /**
    A detector abort happens only on a real cycle through the victim, and leaves the victim
    with no lock, no request and no edge in or out.
   */
  lemma NoFalseVictims(s0: State, tr: seq<Event>, n: nat) returns (c: seq<Tid>)
    requires Init(s0) && IsRun(s0, tr) && n < |tr| && tr[n].Victim?
    ensures BlockedCycle(At(s0, tr, n), c) && c[0] == tr[n].t
    ensures var s' := At(s0, tr, n + 1);
      && tr[n].t !in s'.locks && tr[n].t !in s'.pending && tr[n].t !in s'.waits
      && forall x :: tr[n].t !in Edges(s'.waits, x)
  {
    var s, t := At(s0, tr, n), tr[n].t;
    LocksAt(s0, tr, n);
    StepAt(s0, tr, n);
    PollKeepsWaits(s, t);
    ForgottenEdges(Polled(s, t), t);
    var p :| WalkBetween(Polled(s, t), p, t, t);
    c := p[..|p| - 1];
    forall i | 0 <= i < |c|
      ensures BlockedBy(s, c[i], c[Next(c, i)])
    {
      assert p[i + 1] in Edges(Polled(s, t), p[i]);
      assert BlockedBy(BlockStep(s, t), p[i], p[i + 1]);
    }
  }

  /** Every waits-for edge of every reachable state is a real wait. */
  lemma EdgesAreWaits(s0: State, tr: seq<Event>, t: Tid, u: Tid)
    requires Init(s0) && IsRun(s0, tr) && u in Edges(After(s0, tr).waits, t)
    ensures BlockedBy(After(s0, tr), t, u)
  {
    RunsKeepLocks(s0, tr);
  }

  // ---- Completeness ----

  predicate Polls(e: Event, t: Tid) {
    (e.Block? || e.Victim? || e.Grant?) && e.t == t
  }

  /** A blocked transaction cannot be granted or ended from outside: only the detector frees it. */
  lemma BlockedPersists(s: State, e: Event, t: Tid, u: Tid)
    requires Enabled(s, e) && BlockedBy(s, t, u) && u in s.pending
    requires !(e.Victim? && (e.t == t || e.t == u))
    requires !(e.Grant? && e.t == u)
    ensures BlockedBy(Apply(s, e), t, u)
  {
    NotGranted(s, e, t, u);
    hide Apply, Enabled, Blocks;
    RequestKept(s, e, t);
    LocksKept(s, e, u);
    BlocksFrame(s.locks, Apply(s, e).locks, t, s.pending[t], u);
  }

  lemma BlocksFrame(locks: LockTable, locks': LockTable, t: Tid, req: Request, u: Tid)
    requires Blocks(locks, t, req, u) && u in locks' && locks'[u] == locks[u]
    ensures Blocks(locks', t, req, u)
  {
    hide HasClash;
  }

  /** A pending request stays until it is granted or its transaction is aborted. */
  lemma RequestKept(s: State, e: Event, t: Tid)
    requires Enabled(s, e) && t in s.pending && !(e.Victim? && e.t == t) && !(e.Grant? && e.t == t)
    ensures t in Apply(s, e).pending && Apply(s, e).pending[t] == s.pending[t]
  {
    TableStep(s, e);
    hide Apply, Enabled, ForgetWaits, Polled, SaveLock;
  }

  /** The locks of a waiting transaction stay as they are. */
  lemma LocksKept(s: State, e: Event, u: Tid)
    requires Enabled(s, e) && u in s.locks && u in s.pending && !(e.Victim? && e.t == u) && !(e.Grant? && e.t == u)
    ensures u in Apply(s, e).locks && Apply(s, e).locks[u] == s.locks[u]
  {
    TableStep(s, e);
    hide Apply, Enabled, ForgetWaits, Polled, SaveLock;
    if e.Grant? {
      SavedElsewhere(s.locks, e.t, s.pending[e.t], u);
    }
  }

  lemma SavedElsewhere(locks: LockTable, t: Tid, req: Request, u: Tid)
    requires u in locks && u != t
    ensures u in SaveLock(locks, t, req) && SaveLock(locks, t, req)[u] == locks[u]
  {
  }

  /** A blocked request is not granted. */
  lemma NotGranted(s: State, e: Event, t: Tid, u: Tid)
    requires Enabled(s, e) && BlockedBy(s, t, u)
    ensures e.Grant? ==> e.t != t
  {
    assert u in Blockers(s.locks, t, s.pending[t]);
  }

  lemma EdgePersists(s: State, e: Event, t: Tid, u: Tid)
    requires Enabled(s, e) && BlockedBy(s, t, u) && u in s.pending
    requires !(e.Victim? && (e.t == t || e.t == u))
    requires !(e.Grant? && e.t == u)
    requires u in Edges(s.waits, t) || Polls(e, t)
    ensures u in Edges(Apply(s, e).waits, t)
  {
    NotGranted(s, e, t, u);
    assert u in Blockers(s.locks, t, s.pending[t]);
    TableStep(s, e);
    if e.Victim? || e.Block? {
      PolledEdge(s, e.t, t, u);
    }
    hide Apply, Enabled, Blocks, ForgetWaits, Blockers, SaveLock, Polled, Edges, BlockedBy;
    if e.Victim? {
      ForgottenEdges(Polled(s, e.t), e.t);
    } else if e.Grant? || EndsOne(e) {
      ForgottenEdges(s.waits, e.t);
    }
  }

  /** A poll of `x` keeps every edge and adds those to the blockers of `x`. */
  lemma PolledEdge(s: State, x: Tid, t: Tid, u: Tid)
    requires x in s.pending && (u in Edges(s.waits, t) || (x == t && u in Blockers(s.locks, t, s.pending[t])))
    ensures u in Edges(Polled(s, x), t)
  {
    hide Blockers;
  }

  ghost predicate PolledSince(tr: seq<Event>, from: nat, t: Tid) {
    exists j | from <= j < |tr| :: Polls(tr[j], t)
  }

  ghost predicate Spared(tr: seq<Event>, from: nat, c: seq<Tid>) {
    forall j | from <= j < |tr| :: !(tr[j].Victim? && tr[j].t in c)
  }

  /** Member `i` of the cycle has its edge to the next member recorded. */
  predicate Recorded(waits: WaitsFor, c: seq<Tid>, i: nat)
    requires i < |c|
  {
    c[Next(c, i)] in Edges(waits, c[i])
  }

  lemma MemberStep(s: State, e: Event, c: seq<Tid>, i: nat)
    requires Enabled(s, e) && BlockedCycle(s, c) && !(e.Victim? && e.t in c) && i < |c|
    ensures BlockedBy(Apply(s, e), c[i], c[Next(c, i)])
    ensures Recorded(s.waits, c, i) || Polls(e, c[i]) ==> Recorded(Apply(s, e).waits, c, i)
  {
    var j := Next(c, i);
    var t, u, v := c[i], c[j], c[Next(c, j)];
    assert BlockedBy(s, t, u) && BlockedBy(s, u, v);
    assert v in Blockers(s.locks, u, s.pending[u]);
    BlockedPersists(s, e, t, u);
    if Recorded(s.waits, c, i) || Polls(e, t) {
      EdgePersists(s, e, t, u);
    }
  }

  lemma CycleStep(s: State, e: Event, c: seq<Tid>)
    requires Enabled(s, e) && BlockedCycle(s, c) && !(e.Victim? && e.t in c)
    ensures BlockedCycle(Apply(s, e), c)
    ensures forall i | 0 <= i < |c| && (Recorded(s.waits, c, i) || Polls(e, c[i])) :: Recorded(Apply(s, e).waits, c, i)
  {
    forall i | 0 <= i < |c|
      ensures BlockedBy(Apply(s, e), c[i], c[Next(c, i)])
      ensures Recorded(s.waits, c, i) || Polls(e, c[i]) ==> Recorded(Apply(s, e).waits, c, i)
    {
      MemberStep(s, e, c, i);
    }
  }

  lemma PolledBefore(tr: seq<Event>, from: nat, t: Tid)
    requires |tr| > 0 && PolledSince(tr, from, t)
    ensures PolledSince(tr[..|tr| - 1], from, t) || Polls(tr[|tr| - 1], t)
  {
    var j :| from <= j < |tr| && Polls(tr[j], t);
    if j < |tr| - 1 {
      assert Polls(tr[..|tr| - 1][j], t);
    }
  }

  /** While the detector spares a cycle it persists, and its polled members keep their edges. */
  lemma {:induction false} CyclePersists(s0: State, tr: seq<Event>, from: nat, c: seq<Tid>)
    requires IsRun(s0, tr) && from <= |tr| && BlockedCycle(At(s0, tr, from), c) && Spared(tr, from, c)
    ensures BlockedCycle(After(s0, tr), c)
    ensures forall i | 0 <= i < |c| && PolledSince(tr, from, c[i]) :: Recorded(After(s0, tr).waits, c, i)
  {
    if from == |tr| {
      assert tr[..from] == tr;
    } else {
      var front, e := tr[..|tr| - 1], tr[|tr| - 1];
      assert front[..from] == tr[..from];
      CyclePersists(s0, front, from, c);
      CycleStep(After(s0, front), e, c);
      forall i | 0 <= i < |c| && PolledSince(tr, from, c[i])
        ensures Recorded(After(s0, tr).waits, c, i)
      {
        PolledBefore(tr, from, c[i]);
      }
    }
  }

  /** A cycle whose edges are all recorded is a walk from any member back to it. */
  lemma CycleReaches(waits: WaitsFor, c: seq<Tid>, i: nat)
    requires i < |c| && forall j | 0 <= j < |c| :: Recorded(waits, c, j)
    ensures Reaches(waits, c[i], c[i])
  {
    var p := c[i..] + c[..i + 1];
    forall j | 0 <= j < |p| - 1
      ensures p[j + 1] in Edges(waits, p[j])
    {
      var at := if j < |c| - i then i + j else j - (|c| - i);
      assert p[j] == c[at] && p[j + 1] == c[Next(c, at)];
      assert Recorded(waits, c, at);
    }
    assert WalkBetween(waits, p, c[i], c[i]);
  }

  /** The poll that completes the recorded cycle finds it. */
  lemma LastPollFinds(s: State, c: seq<Tid>, e: Event, i: nat)
    requires Enabled(s, e) && BlockedCycle(s, c) && i < |c| && Polls(e, c[i])
    requires forall j | 0 <= j < |c| && c[j] != c[i] :: Recorded(s.waits, c, j)
    ensures e.Victim?
  {
    assert BlockedBy(s, c[i], c[Next(c, i)]);
    assert c[Next(c, i)] in Blockers(s.locks, c[i], s.pending[c[i]]);
    forall j | 0 <= j < |c|
      ensures Recorded(Polled(s, c[i]), c, j)
    {
      if c[j] == c[i] {
        assert BlockedBy(s, c[j], c[Next(c, j)]);
        assert c[Next(c, j)] in Blockers(s.locks, c[i], s.pending[c[i]]);
      }
    }
    CycleReaches(Polled(s, c[i]), c, i);
  }

  /** If member `i` is the last of the cycle to poll, its poll aborts it. */
  lemma LastPollerDies(s0: State, front: seq<Event>, e: Event, from: nat, c: seq<Tid>, i: nat)
    requires IsRun(s0, front) && Enabled(After(s0, front), e) && from <= |front|
    requires BlockedCycle(At(s0, front, from), c) && Spared(front, from, c)
    requires i < |c| && !PolledSince(front, from, c[i])
    requires forall j | 0 <= j < |c| :: PolledSince(front, from, c[j]) || Polls(e, c[j])
    ensures e.Victim? && e.t == c[i]
  {
    assert PolledSince(front, from, c[i]) || Polls(e, c[i]);
    CyclePersists(s0, front, from, c);
    LastPollFinds(After(s0, front), c, e, i);
  }

  lemma {:induction false} CycleDies(s0: State, tr: seq<Event>, from: nat, c: seq<Tid>) returns (n: nat)
    requires IsRun(s0, tr) && from <= |tr| && BlockedCycle(At(s0, tr, from), c)
    requires forall i | 0 <= i < |c| :: PolledSince(tr, from, c[i])
    ensures from <= n < |tr| && tr[n].Victim? && tr[n].t in c
  {
    hide Apply, Enabled, BlockedBy;
    assert PolledSince(tr, from, c[0]);
    var front, e := tr[..|tr| - 1], tr[|tr| - 1];
    assert front[..from] == tr[..from];
    if j :| from <= j < |front| && front[j].Victim? && front[j].t in c {
      n := j;
    } else if i :| 0 <= i < |c| && !PolledSince(front, from, c[i]) {
      forall j | 0 <= j < |c|
        ensures PolledSince(front, from, c[j]) || Polls(e, c[j])
      {
        PolledBefore(tr, from, c[j]);
      }
      LastPollerDies(s0, front, e, from, c, i);
      n := |tr| - 1;
    } else {
      n := CycleDies(s0, front, from, c);
    }
  }

  /**
    No deadlock survives polling: if the transactions of `d` are deadlocked at some point of a
    run and each of them polls afterwards, the detector has aborted one of them by the end.
   */
  lemma NoDeadlockSurvives(s0: State, tr: seq<Event>, from: nat, d: set<Tid>) returns (n: nat)
    requires IsRun(s0, tr) && from <= |tr| && Deadlocked(At(s0, tr, from), d)
    requires forall t | t in d :: PolledSince(tr, from, t)
    ensures from <= n < |tr| && tr[n].Victim? && tr[n].t in d
  {
    var c := DeadlockHasCycle(At(s0, tr, from), d);
    n := CycleDies(s0, tr, from, c);
  }
}
