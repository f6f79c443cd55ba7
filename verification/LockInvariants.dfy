/**
  What every step keeps of the lock table and the waits-for graph, in every run and
  without any hypothesis on page contents.
 */
module LockInvariants {
  import opened PoolState

  /** Each entry is filed under its own key and page number. */
  ghost predicate Filed(held: map<PageKey, PageLock>) {
    forall k | k in held :: held[k].key == k && held[k].pageNo == k.pageNo
  }

  /** The locks of two transactions clash on no page number. */
  ghost predicate Compatible(a: map<PageKey, PageLock>, b: map<PageKey, PageLock>) {
    forall k, l | k in a && l in b && k.pageNo == l.pageNo :: a[k].perm == ReadPerm && b[l].perm == ReadPerm
  }

  ghost predicate TableOk(locks: LockTable) {
    && (forall t | t in locks :: Filed(locks[t]))
    && (forall t, u | t in locks && u in locks && t != u :: Compatible(locks[t], locks[u]))
  }

  /** A page in hand is covered by a lock at least as strong as the permission it was asked with. */
  ghost predicate Covered(h: Request, held: map<PageKey, PageLock>) {
    && h.key in held
    && (h.perm == WritePerm ==> held[h.key].perm == WritePerm && held[h.key].page == h.page)
  }

  ghost predicate HandsCovered(s: State) {
    forall t | t in s.inHand :: t in s.locks && Covered(s.inHand[t], s.locks[t])
  }

  ghost predicate LockInv(s: State) {
    TableOk(s.locks) && HandsCovered(s)
  }

  /** `t` is blocked by `u`: it has a pending request that clashes with a lock `u` holds now. */
  predicate BlockedBy(s: State, t: Tid, u: Tid) {
    t in s.pending && Blocks(s.locks, t, s.pending[t], u)
  }

  /** Every waits-for edge is a real wait. */
  ghost predicate WaitInv(s: State) {
    && (forall t, u | u in Edges(s.waits, t) :: BlockedBy(s, t, u))
    && (forall t | t in s.waits :: s.waits[t] != {})
  }

  // ---- When a request is in the way of a lock, in permissions and page numbers ----

  /** Somebody else holds a lock of that page number, and not both are for reading. */
  lemma BlockersMean(locks: LockTable, t: Tid, req: Request)
    ensures Blockers(locks, t, req) != {} <==>
      exists u, k :: u != t && u in locks && k in locks[u] && locks[u][k].pageNo == req.key.pageNo &&
                     !(locks[u][k].perm == ReadPerm && req.perm == ReadPerm)
    ensures forall u :: u in Blockers(locks, t, req) <==>
      u != t && u in locks && exists k :: k in locks[u] && locks[u][k].pageNo == req.key.pageNo &&
                                          !(locks[u][k].perm == ReadPerm && req.perm == ReadPerm)
  {
    forall u
      ensures u in Blockers(locks, t, req) <==>
        u != t && u in locks && exists k :: k in locks[u] && locks[u][k].pageNo == req.key.pageNo &&
                                            !(locks[u][k].perm == ReadPerm && req.perm == ReadPerm)
    {
      OneBlocks(locks, t, req, u);
    }
    if u, k :| u != t && u in locks && k in locks[u] && locks[u][k].pageNo == req.key.pageNo &&
               !(locks[u][k].perm == ReadPerm && req.perm == ReadPerm) {
      assert u in Blockers(locks, t, req);
    }
    if Blockers(locks, t, req) != {} {
      var u :| u in Blockers(locks, t, req);
    }
  }

  lemma OneBlocks(locks: LockTable, t: Tid, req: Request, u: Tid)
    ensures Blocks(locks, t, req, u) <==>
      u != t && u in locks && exists k :: k in locks[u] && locks[u][k].pageNo == req.key.pageNo &&
                                          !(locks[u][k].perm == ReadPerm && req.perm == ReadPerm)
  {
    if u in locks {
      forall k | k in locks[u]
        ensures Clashes(locks[u][k], req.key.pageNo, req.perm) <==>
          locks[u][k].pageNo == req.key.pageNo && !(locks[u][k].perm == ReadPerm && req.perm == ReadPerm)
      {
      }
    }
  }

  /** A pending read is granted exactly when nobody else write-locks that page number. */
  lemma ReadGrantable(s: State, t: Tid)
    requires t in s.pending && s.pending[t].perm == ReadPerm
    ensures Enabled(s, Grant(t)) <==>
      forall u, k | u in s.locks && u != t && k in s.locks[u] && s.locks[u][k].pageNo == s.pending[t].key.pageNo ::
        s.locks[u][k].perm == ReadPerm
  {
    hide Blockers;
    BlockersMean(s.locks, t, s.pending[t]);
  }

  /** A pending write is granted exactly when nobody else locks that page number at all. */
  lemma WriteGrantable(s: State, t: Tid)
    requires t in s.pending && s.pending[t].perm == WritePerm
    ensures Enabled(s, Grant(t)) <==>
      forall u, k | u in s.locks && u != t && k in s.locks[u] :: s.locks[u][k].pageNo != s.pending[t].key.pageNo
  {
    hide Blockers;
    BlockersMean(s.locks, t, s.pending[t]);
  }

  /** A poll has exactly one outcome: a grant, or else an abort if the recorded waits close a cycle, or else a wait. */
  lemma PollDecides(s: State, t: Tid)
    requires t in s.pending
    ensures Enabled(s, Grant(t)) <==> !(Enabled(s, Block(t)) || Enabled(s, Victim(t)))
    ensures !(Enabled(s, Block(t)) && Enabled(s, Victim(t)))
  {
    hide Blockers, Polled, Reaches;
  }

  /** An unobstructed request clashes with no lock of another transaction. */
  lemma Unobstructed(locks: LockTable, t: Tid, req: Request, u: Tid, l: PageKey)
    requires Blockers(locks, t, req) == {}
    requires u in locks && u != t && Filed(locks[u]) && l in locks[u] && l.pageNo == req.key.pageNo
    ensures locks[u][l].perm == ReadPerm && req.perm == ReadPerm
  {
    assert u !in Blockers(locks, t, req);
    assert !Clashes(locks[u][l], req.key.pageNo, req.perm);
  }

  lemma GrantKeepsTable(locks: LockTable, t: Tid, req: Request)
    requires TableOk(locks) && Blockers(locks, t, req) == {}
    ensures TableOk(SaveLock(locks, t, req))
  {
    var after := SaveLock(locks, t, req);
    forall u | u in locks && u != t
      ensures Compatible(after[t], locks[u]) && Compatible(locks[u], after[t])
    {
      assert t in locks ==> Compatible(locks[t], locks[u]);
      forall l | l in locks[u] && l.pageNo == req.key.pageNo
        ensures locks[u][l].perm == ReadPerm && req.perm == ReadPerm
      {
        Unobstructed(locks, t, req, u, l);
      }
    }
  }

  lemma GrantKeepsHands(s: State, t: Tid, s': State)
    requires HandsCovered(s) && t in s.pending
    requires s'.locks == SaveLock(s.locks, t, s.pending[t]) && s'.inHand == s.inHand[t := s.pending[t]]
    ensures HandsCovered(s')
  {
    forall u | u in s'.inHand
      ensures u in s'.locks && Covered(s'.inHand[u], s'.locks[u])
    {
      assert u != t ==> s'.inHand[u] == s.inHand[u] && s'.locks[u] == s.locks[u];
    }
  }

  /** Dropping one transaction everywhere keeps the lock invariant. */
  lemma EndKeepsLocks(s: State, t: Tid, s': State)
    requires LockInv(s)
    requires s'.locks == s.locks - {t} && s'.inHand == s.inHand - {t}
    ensures LockInv(s')
  {
  }

  lemma StepKeepsLocks(s: State, e: Event)
    requires LockInv(s) && Enabled(s, e)
    ensures LockInv(Apply(s, e))
  {
    hide Apply, SaveLock, TableOk, HandsCovered;
    var s' := Apply(s, e);
    TableStep(s, e);
    if e.Grant? {
      GrantKeepsTable(s.locks, e.t, s.pending[e.t]);
      GrantKeepsHands(s, e.t, s');
    } else if EndsOne(e) {
      hide Enabled, LockInv;
      EndKeepsLocks(s, e.t, s');
    } else {
      hide Enabled, LockInv;
      FrameKeepsLocks(s, s');
    }
  }

  lemma FrameKeepsLocks(s: State, s': State)
    requires LockInv(s) && s'.locks == s.locks && s'.inHand == s.inHand
    ensures LockInv(s')
  {
    hide TableOk;
  }

  lemma ForgottenEdges(waits: WaitsFor, t: Tid)
    ensures forall x :: Edges(ForgetWaits(waits, t), x) == if x == t then {} else Edges(waits, x) - {t}
    ensures t !in ForgetWaits(waits, t)
  {
  }

  /** A poll records only real waits. */
  lemma PollKeepsWaits(s: State, t: Tid)
    requires WaitInv(s) && t in s.pending && Conflicted(s, t)
    ensures WaitInv(s.(waits := Polled(s, t)))
    ensures Edges(Polled(s, t), t) == Blockers(s.locks, t, s.pending[t])
  {
    var s' := s.(waits := Polled(s, t));
    forall x, u | u in Edges(s'.waits, x)
      ensures BlockedBy(s', x, u)
    {
      assert u in Edges(s.waits, x) ==> BlockedBy(s, x, u);
    }
    forall u | u in Edges(s.waits, t)
      ensures u in Blockers(s.locks, t, s.pending[t])
    {
      assert BlockedBy(s, t, u);
    }
  }

  lemma EndKeepsWaits(s: State, t: Tid, s': State)
    requires WaitInv(s) && EndedTable(s, t, s.waits, s')
    ensures WaitInv(s')
  {
    ForgottenEdges(s.waits, t);
    forall x, u | u in Edges(s'.waits, x)
      ensures BlockedBy(s', x, u)
    {
      assert BlockedBy(s, x, u);
    }
  }

  lemma GrantKeepsWaits(s: State, t: Tid, s': State)
    requires WaitInv(s) && t in s.pending && !Conflicted(s, t) && GrantedTable(s, t, s')
    ensures WaitInv(s')
  {
    ForgottenEdges(s.waits, t);
    forall x, u | u in Edges(s'.waits, x)
      ensures BlockedBy(s', x, u)
    {
      assert BlockedBy(s, x, u);
      assert x != t && u != t;
      assert s'.locks[u] == s.locks[u];
    }
  }

  /** A step that keeps locks, edges and pending requests keeps the waits. */
  lemma FrameKeepsWaits(s: State, s': State)
    requires WaitInv(s) && s'.locks == s.locks && s'.waits == s.waits
    requires forall t | t in s.pending :: t in s'.pending && s'.pending[t] == s.pending[t]
    ensures WaitInv(s')
  {
    forall x, u | u in Edges(s'.waits, x)
      ensures BlockedBy(s', x, u)
    {
      assert BlockedBy(s, x, u);
    }
  }

  lemma StepKeepsWaits(s: State, e: Event)
    requires WaitInv(s) && Enabled(s, e)
    ensures WaitInv(Apply(s, e))
  {
    TableStep(s, e);
    var s' := Apply(s, e);
    if e.Grant? {
      NotConflicted(s, e);
      hide *;
      GrantKeepsWaits(s, e.t, s');
    } else if e.Block? || e.Victim? {
      NotConflicted(s, e);
      hide *;
      PollKeepsWaits(s, e.t);
      if e.Block? {
        FrameKeepsWaits(s.(waits := Polled(s, e.t)), s');
      } else {
        EndKeepsWaits(s.(waits := Polled(s, e.t)), e.t, s');
      }
    } else if EndsOne(e) {
      hide *;
      EndKeepsWaits(s, e.t, s');
    } else {
      hide Apply, Enabled, WaitInv;
      FrameKeepsWaits(s, s');
    }
  }

  lemma NotConflicted(s: State, e: Event)
    requires Enabled(s, e)
    ensures e.Grant? ==> e.t in s.pending && !Conflicted(s, e.t)
    ensures e.Block? || e.Victim? ==> e.t in s.pending && Conflicted(s, e.t)
  {
  }

  /** Both invariants hold in every state of every run of a fresh pool. */
  lemma {:induction false} RunsKeepLocks(s: State, tr: seq<Event>)
    requires Init(s) && IsRun(s, tr)
    ensures LockInv(After(s, tr)) && WaitInv(After(s, tr))
  {
    if tr != [] {
      hide Apply, Enabled, LockInv, WaitInv;
      var front := tr[..|tr| - 1];
      RunsKeepLocks(s, front);
      StepKeepsLocks(After(s, front), tr[|tr| - 1]);
      StepKeepsWaits(After(s, front), tr[|tr| - 1]);
    }
  }

  /** The same, at any point of a run. */
  lemma LocksAt(s: State, tr: seq<Event>, n: nat)
    requires Init(s) && IsRun(s, tr) && n <= |tr|
    ensures LockInv(At(s, tr, n)) && WaitInv(At(s, tr, n))
  {
    PrefixIsRun(s, tr, n);
    RunsKeepLocks(s, tr[..n]);
  }
}
