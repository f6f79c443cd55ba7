/**
  The two hypotheses of the content theorems are exact, and the pool does not enforce them:
  a request that captured its page object before waiting can be granted a stale one.
 */
module Staleness {
  import opened Values
  import opened PoolState
  import opened LockInvariants
  import opened PoolContents
  import opened Refinement
  import opened Scenario

  /** A write keeps the store invariant exactly when the page in hand is still the cached one. */
  lemma WriteExact(s: State, e: Event)
    requires Inv(s) && e.Write? && Enabled(s, e)
    ensures Inv(Apply(s, e)) <==> HandCached(s, e.t)
  {
    hide Inv, Apply;
    if HandCached(s, e.t) {
      StepKeepsContents(s, e);
    } else {
      StaleWriteBreaks(s, e);
    }
  }

  lemma StaleWriteBreaks(s: State, e: Event)
    requires Inv(s) && e.Write? && Enabled(s, e) && !HandCached(s, e.t)
    ensures !Inv(Apply(s, e))
  {
    hide Inv;
    HandAt(s, e.t);
    var s' := WriteStep(s, e.t, e.written);
    assert !LockOk(s', e.t, e.key);
    if Inv(s') {
      LockAt(s', e.t, e.key);
    }
  }

  /** A grant keeps the store invariant exactly when the granted object is fresh. */
  lemma GrantExact(s: State, t: Tid)
    requires Inv(s) && Enabled(s, Grant(t))
    ensures Inv(GrantStep(s, t)) <==> FreshGrant(s, t)
  {
    hide Inv, FreshGrant, GrantStep;
    if FreshGrant(s, t) {
      StepKeepsContents(s, Grant(t));
    } else if Inv(GrantStep(s, t)) {
      GrantIsGranted(s, t);
      StaleGrantBreaks(s, t, GrantStep(s, t));
    }
  }

  lemma StaleGrantBreaks(s: State, t: Tid, s': State)
    requires Inv(s) && Granted(s, t, s') && Inv(s')
    ensures FreshGrant(s, t)
  {
    hide Inv;
    var req := s.pending[t];
    assert s'.inHand[t] == req && s'.objects == s.objects && s'.pages == s.pages && s'.disk == s.disk;
    HandAt(s', t);
    if !Dirty(s, req.page) && req.key in s.pages && Dirty(s, s.pages[req.key]) {
      DirtyIsOwn(s', t, req.key);
    }
  }

  /** A grant whose page object is still cached is fresh. */
  lemma CachedIsFresh(s: State, t: Tid)
    requires t in s.pending && Caches(s, s.pending[t].key, s.pending[t].page)
    ensures FreshGrant(s, t)
  {
  }

  /** Every page object granted or written is the one cached under its key at that moment. */
  ghost predicate CachedRun(s0: State, tr: seq<Event>)
    requires IsRun(s0, tr)
  {
    tr == [] || (CachedRun(s0, tr[..|tr| - 1]) && CachedEvent(After(s0, tr[..|tr| - 1]), tr[|tr| - 1]))
  }

  predicate CachedEvent(s: State, e: Event) {
    && (e.Grant? ==> e.t in s.pending && Caches(s, s.pending[e.t].key, s.pending[e.t].page))
    && (e.Write? ==> e.t in s.inHand && HandCached(s, e.t))
  }

  lemma {:induction false} CachedRunsAreCoherent(s0: State, tr: seq<Event>)
    requires IsRun(s0, tr) && CachedRun(s0, tr)
    ensures CoherentRun(s0, tr)
  {
    hide Apply, Enabled, FreshGrant;
    if tr != [] {
      var front, e := tr[..|tr| - 1], tr[|tr| - 1];
      CachedRunsAreCoherent(s0, front);
      if e.Grant? {
        CachedIsFresh(After(s0, front), e.t);
      }
    }
  }

  /** Serial equivalence for every run whose granted and written page objects are still cached. */
  lemma CachedRunsAreSerial(s0: State, tr: seq<Event>)
    requires Init(s0) && IsRun(s0, tr) && CachedRun(s0, tr)
    ensures ReplaySerially(Grown(s0.disk, tr), CommittedSessions(tr)) == Some(After(s0, tr).disk)
  {
    hide *;
    CachedRunsAreCoherent(s0, tr);
    EquivalentToCommitOrder(s0, tr);
  }

  // ---- A run that meets the hypotheses ----

  const K := PageKey("t", 0)
  const Rows: Contents := [[IntField(1)]]
  const Start := State(1, map[K := EmptyPage], map[], map[], map[], map[], map[], map[])
  const Cached := Start.(objects := map[0 := Page("t", 0, EmptyPage, false)], pages := map[K := 0])

  /** Transaction 1 asks for the page and locks it. */
  const Asking := Cached.(pending := map[1 := Request(K, 0, WritePerm)])
  const Holding := Cached.(
    locks := map[1 := map[K := PageLock(0, 0, WritePerm, K)]], inHand := map[1 := Request(K, 0, WritePerm)])

  /** And it has written the page. */
  const Writing := Holding.(objects := map[0 := Page("t", 0, Rows, true)])
  const Done := Cached.(objects := map[0 := Page("t", 0, Rows, false)], disk := map[K := Rows])

  lemma FetchOfK()
    ensures StepTo(Start, Fetch(None, K, 0), Cached) && StepTo(Cached, Ask(1, K, WritePerm), Asking)
  {
  }

  lemma GrantToOne()
    ensures StepTo(Asking, Grant(1), Holding) && Coherent(Asking, Grant(1))
  {
    assert Blockers(Asking.locks, 1, Asking.pending[1]) == {};
  }

  lemma WriteByOne()
    ensures StepTo(Holding, Write(1, K, EmptyPage, Rows), Writing) && Coherent(Holding, Write(1, K, EmptyPage, Rows))
  {
  }

  lemma CommitByOne()
    ensures StepTo(Writing, Commit(1), Done)
  {
    assert DirtyKeys(Writing.objects, Held(Writing.locks, 1)) == {K};
    assert FlushedRefs(Writing.objects, Held(Writing.locks, 1)) == {0};
  }

  const WritingEvents := [Fetch(None, K, 0), Ask(1, K, WritePerm), Grant(1), Write(1, K, EmptyPage, Rows)]

  lemma WritingRun()
    ensures IsRun(Start, WritingEvents) && CoherentRun(Start, WritingEvents) && After(Start, WritingEvents) == Writing
  {
    hide StepTo, IsRun, CoherentRun, After, FreshGrant, HandCached, Start, Cached, Asking, Holding, Writing;
    NoEvents(Start);
    FetchOfK();
    GrantToOne();
    WriteByOne();
    var tr := ThenCoherent(Start, [], Fetch(None, K, 0), Cached);
    tr := ThenCoherent(Start, tr, Ask(1, K, WritePerm), Asking);
    tr := ThenCoherent(Start, tr, Grant(1), Holding);
    tr := ThenCoherent(Start, tr, Write(1, K, EmptyPage, Rows), Writing);
    assert tr == WritingEvents;
  }

  /** The hypotheses can be met: a coherent run writes a page and commits it to disk. */
  lemma CommittedWrite() returns (tr: seq<Event>)
    ensures Init(Start) && IsRun(Start, tr) && CoherentRun(Start, tr)
    ensures After(Start, tr).disk == map[K := Rows] && Start.disk[K] != Rows
  {
    hide StepTo, IsRun, CoherentRun, After;
    WritingRun();
    CommitByOne();
    tr := ThenCoherent(Start, WritingEvents, Commit(1), Done);
  }

  // ---- A run that does not ----

  /** Transaction 2 waits for the page. */
  const Wanting := Writing.(pending := map[2 := Request(K, 0, ReadPerm)])
  const Waiting := Wanting.(waits := map[2 := {1}])

  /** Transaction 1 has aborted: its page is out of the cache, but 2 still has the object. */
  const Abandoned := Waiting.(pages := map[], locks := map[], inHand := map[], waits := map[])

  /** Transaction 2 gets the object. */
  const Stale := Abandoned.(
    pending := map[], locks := map[2 := map[K := PageLock(0, 0, ReadPerm, K)]], inHand := map[2 := Request(K, 0, ReadPerm)])

  lemma WaitOfTwo()
    ensures StepTo(Writing, Ask(2, K, ReadPerm), Wanting) && StepTo(Wanting, Block(2), Waiting)
  {
    assert Clashes(Wanting.locks[1][K], 0, ReadPerm);
    assert Blockers(Wanting.locks, 2, Wanting.pending[2]) == {1};
    SingleEdge(Polled(Wanting, 2), 2, 1);
  }

  lemma AbortOfOne()
    ensures StepTo(Waiting, Abort(1), Abandoned)
  {
    hide StepTo, ForgetWaits;
    assert WriteLocked(Held(Waiting.locks, 1)) == {K};
    AbortGives(Waiting, 1, ForgetWaits(Waiting.waits, 1), {K});
    OnlyOneWaits();
    assert Waiting.pages - {K} == map[] && Waiting.locks - {1} == map[] && Waiting.inHand - {1} == map[];
    assert Waiting.pending - {1} == Waiting.pending;
  }

  lemma OnlyOneWaits()
    ensures ForgetWaits(map[2 := {1}], 1) == map[]
  {
  }

  lemma StaleGrant()
    ensures StepTo(Abandoned, Grant(2), Stale) && !Coherent(Abandoned, Grant(2))
    ensures StepTo(Stale, Read(2, K, Rows), Stale)
  {
    hide Reaches;
    assert Blockers(Abandoned.locks, 2, Abandoned.pending[2]) == {};
  }

  lemma StaleDisk()
    ensures Init(Start) && Stale.disk == Start.disk && Start.disk[K] != Rows
  {
  }

  const DirtyReadEvents :=
    WritingEvents + [Ask(2, K, ReadPerm), Block(2), Abort(1), Grant(2), Read(2, K, Rows)]

  /**
    A dirty read: transaction 2 waits for the page that 1 has written, 1 aborts, and 2 then
    reads contents that were never committed and that it never wrote.
   */
  lemma DirtyRead()
    ensures Init(Start) && IsRun(Start, DirtyReadEvents) && !CoherentRun(Start, DirtyReadEvents)
    ensures After(Start, DirtyReadEvents).disk == Start.disk && Start.disk[K] != Rows
    ensures DirtyReadEvents[8] == Read(2, K, Rows)
    ensures forall e | e in DirtyReadEvents :: !e.Commit? && !(e.Write? && e.t == 2)
  {
    hide StepTo, IsRun, CoherentRun, After, Coherent, Cached, Asking, Holding, Writing, Wanting, Waiting, Abandoned, Start, Stale, Init;
    StaleDisk();
    WritingRun();
    WaitOfTwo();
    AbortOfOne();
    StaleGrant();
    var tr := Then(Start, WritingEvents, Ask(2, K, ReadPerm), Wanting);
    tr := Then(Start, tr, Block(2), Waiting);
    tr := Then(Start, tr, Abort(1), Abandoned);
    var granted := Then(Start, tr, Grant(2), Stale);
    NotCoherent(Start, tr, Grant(2));
    var read := Then(Start, granted, Read(2, K, Rows), Stale);
    NotCoherentLater(Start, granted, Read(2, K, Rows));
    assert read == DirtyReadEvents;
  }

  lemma NotCoherent(s0: State, tr: seq<Event>, e: Event)
    requires IsRun(s0, tr) && IsRun(s0, tr + [e]) && !Coherent(After(s0, tr), e)
    ensures !CoherentRun(s0, tr + [e])
  {
    hide Apply, Enabled, Coherent;
    assert (tr + [e])[..|tr|] == tr;
  }

  lemma NotCoherentLater(s0: State, tr: seq<Event>, e: Event)
    requires IsRun(s0, tr) && IsRun(s0, tr + [e]) && !CoherentRun(s0, tr)
    ensures !CoherentRun(s0, tr + [e])
  {
    hide Apply, Enabled, Coherent;
    assert (tr + [e])[..|tr|] == tr;
  }
}
