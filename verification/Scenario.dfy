/** Building concrete runs one event at a time. */
module Scenario {
  import opened PoolState
  import opened PoolContents
  import opened Refinement

  ghost predicate StepTo(s: State, e: Event, s': State) {
    Enabled(s, e) && Apply(s, e) == s'
  }

  lemma Then(s0: State, tr: seq<Event>, e: Event, s': State) returns (tr': seq<Event>)
    requires IsRun(s0, tr) && StepTo(After(s0, tr), e, s')
    ensures tr' == tr + [e] && IsRun(s0, tr') && After(s0, tr') == s'
  {
    hide Apply, Enabled;
    Snoc(s0, tr, e);
    tr' := tr + [e];
  }

  /** A coherent event after a coherent run. */
  lemma ThenCoherent(s0: State, tr: seq<Event>, e: Event, s': State) returns (tr': seq<Event>)
    requires IsRun(s0, tr) && CoherentRun(s0, tr) && StepTo(After(s0, tr), e, s') && Coherent(After(s0, tr), e)
    ensures tr' == tr + [e] && IsRun(s0, tr') && CoherentRun(s0, tr') && After(s0, tr') == s'
  {
    hide Apply, Enabled, Coherent;
    Snoc(s0, tr, e);
    tr' := tr + [e];
    assert tr'[..|tr|] == tr;
  }

  lemma NoEvents(s0: State)
    ensures IsRun(s0, []) && CoherentRun(s0, []) && After(s0, []) == s0
  {
  }

  lemma SecondEdge(waits: WaitsFor, p: seq<Tid>)
    requires IsWalk(waits, p) && |p| > 2
    ensures Edges(waits, p[1]) != {}
  {
    assert p[1 + 1] in Edges(waits, p[1]);
  }

  /** One edge between two transactions, of which the second waits for nobody, is no cycle. */
  lemma SingleEdge(waits: WaitsFor, t: Tid, u: Tid)
    requires Edges(waits, t) == {u} && u != t && Edges(waits, u) == {}
    ensures !Reaches(waits, t, t)
  {
    forall p | IsWalk(waits, p) && p[0] == t
      ensures p[|p| - 1] != t
    {
      assert p[0 + 1] in Edges(waits, p[0]);
      if |p| > 2 {
        SecondEdge(waits, p);
      }
    }
  }

  /** Two transactions that wait for each other are a cycle. */
  lemma MutualEdges(waits: WaitsFor, t: Tid, u: Tid)
    requires u in Edges(waits, t) && t in Edges(waits, u)
    ensures Reaches(waits, t, t)
  {
    assert WalkBetween(waits, [t, u, t], t, t);
  }

  /** A commit, from what it flushes. */
  lemma CommitGives(s: State, t: Tid, dirty: Store, objects: map<Ref, Page>, waits: WaitsFor)
    requires t !in s.pending && DirtyContents(s.objects, Held(s.locks, t)) == dirty && ForgetWaits(s.waits, t) == waits
    requires Cleaned(s.objects, FlushedRefs(s.objects, Held(s.locks, t))) == objects
    ensures StepTo(s, Commit(t), s.(disk := s.disk + dirty, objects := objects, locks := s.locks - {t},
                                    waits := waits, inHand := s.inHand - {t}))
  {
    hide DirtyContents, Held, ForgetWaits, Cleaned, FlushedRefs;
  }

  /** A detector abort, from the edges its poll records. */
  lemma VictimGives(s: State, t: Tid, waits: WaitsFor, dropped: set<PageKey>)
    requires t in s.pending && Conflicted(s, t) && Reaches(Polled(s, t), t, t)
    requires ForgetWaits(Polled(s, t), t) == waits && WriteLocked(Held(s.locks, t)) == dropped
    ensures StepTo(s, Victim(t), s.(pages := s.pages - dropped, locks := s.locks - {t}, waits := waits,
                                    pending := s.pending - {t}, inHand := s.inHand - {t}))
  {
    hide Held, ForgetWaits, Polled, WriteLocked, Reaches, Conflicted;
  }

  /** An abort by the caller. */
  lemma AbortGives(s: State, t: Tid, waits: WaitsFor, dropped: set<PageKey>)
    requires t !in s.pending && ForgetWaits(s.waits, t) == waits && WriteLocked(Held(s.locks, t)) == dropped
    ensures StepTo(s, Abort(t), s.(pages := s.pages - dropped, locks := s.locks - {t}, waits := waits,
                                   pending := s.pending - {t}, inHand := s.inHand - {t}))
  {
    hide Held, ForgetWaits, WriteLocked;
  }

  /** A grant, from the lock table and the edges it leaves. */
  lemma GrantGives(s: State, t: Tid, locks: LockTable, waits: WaitsFor)
    requires t in s.pending && Blockers(s.locks, t, s.pending[t]) == {}
    requires SaveLock(s.locks, t, s.pending[t]) == locks && ForgetWaits(s.waits, t) == waits
    ensures StepTo(s, Grant(t), s.(locks := locks, waits := waits, inHand := s.inHand[t := s.pending[t]], pending := s.pending - {t}))
  {
    hide SaveLock, ForgetWaits, Blockers;
  }

  /** A grant of the page that is still cached. */
  lemma CachedGrant(s: State, t: Tid)
    requires t in s.pending && Caches(s, s.pending[t].key, s.pending[t].page)
    ensures Coherent(s, Grant(t))
  {
  }
}
