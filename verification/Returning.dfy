/**
  What happens when an id comes back.  A scan that drops the error of `GetPage` goes on under
  the id of a transaction the detector has just cleared, so the transaction commits with
  accesses from before and after; its sessions are still ordered, the transaction is not.
 */
module Returning {
  import opened Values
  import opened PoolState
  import opened LockInvariants
  import opened PoolContents
  import opened Serializability
  import opened Refinement
  import opened Scenario

  /** Page 0 of the left input of a join and page 1 of the right one. */
  const Left := PageKey("left", 0)
  const Right := PageKey("right", 1)
  const Rows: Contents := [[IntField(1)]]

  const Start := State(2, map[Left := EmptyPage, Right := EmptyPage], map[], map[], map[], map[], map[], map[])
  const LeftIn := Start.(objects := map[0 := Page("left", 0, EmptyPage, false)], pages := map[Left := 0])
  const BothIn := Start.(
    objects := map[0 := Page("left", 0, EmptyPage, false), 1 := Page("right", 1, EmptyPage, false)],
    pages := map[Left := 0, Right := 1])

  const ReadLeft := Request(Left, 0, ReadPerm)
  const LeftRead := PageLock(0, 0, ReadPerm, Left)

  /** Transaction 1 reads the left page. */
  const OneAsks := BothIn.(pending := map[1 := ReadLeft])
  const OneReads := BothIn.(locks := map[1 := map[Left := LeftRead]], inHand := map[1 := ReadLeft])

  const WriteRight := Request(Right, 1, WritePerm)
  const RightWrite := PageLock(1, 1, WritePerm, Right)

  /** Transaction 2 write-locks the right page and waits for the left one. */
  const TwoAsks := OneReads.(pending := map[2 := WriteRight])
  const TwoHolds := OneReads.(
    locks := map[1 := map[Left := LeftRead], 2 := map[Right := RightWrite]],
    inHand := map[1 := ReadLeft, 2 := WriteRight])
  const WriteLeft := Request(Left, 0, WritePerm)
  const TwoWants := TwoHolds.(pending := map[2 := WriteLeft])
  const TwoWaits := TwoWants.(waits := map[2 := {1}])

  /** Transaction 1 asks for the right page, and the detector clears it. */
  const OneWants := TwoWaits.(pending := map[1 := Request(Right, 1, ReadPerm), 2 := WriteLeft])
  const OneCleared := TwoHolds.(
    locks := map[2 := map[Right := RightWrite]], inHand := map[2 := WriteRight], pending := map[2 := WriteLeft])

  /** Transaction 2 writes the left page and commits. */
  const TwoGets := OneCleared.(
    locks := map[2 := map[Right := RightWrite, Left := PageLock(0, 0, WritePerm, Left)]],
    inHand := map[2 := WriteLeft], pending := map[])
  const TwoWrites := TwoGets.(
    objects := map[0 := Page("left", 0, Rows, true), 1 := Page("right", 1, EmptyPage, false)])
  const TwoDone := TwoWrites.(
    objects := map[0 := Page("left", 0, Rows, false), 1 := Page("right", 1, EmptyPage, false)],
    disk := map[Left := Rows, Right := EmptyPage], locks := map[], inHand := map[])

  /** Transaction 1 goes on, reads the left page again, and commits. */
  const OneBack := TwoDone.(pending := map[1 := ReadLeft])
  const OneAgain := TwoDone.(locks := map[1 := map[Left := LeftRead]], inHand := map[1 := ReadLeft])

  lemma Fetches()
    ensures StepTo(Start, Fetch(None, Left, 0), LeftIn) && StepTo(LeftIn, Fetch(None, Right, 1), BothIn)
    ensures StepTo(BothIn, Ask(1, Left, ReadPerm), OneAsks)
  {
  }

  lemma FirstGrant()
    ensures StepTo(OneAsks, Grant(1), OneReads) && Coherent(OneAsks, Grant(1))
  {
    assert Blockers(OneAsks.locks, 1, ReadLeft) == {};
  }

  lemma FirstRead()
    ensures StepTo(OneReads, Read(1, Left, EmptyPage), OneReads) && StepTo(OneReads, Ask(2, Right, WritePerm), TwoAsks)
  {
  }

  lemma SecondGrant()
    ensures StepTo(TwoAsks, Grant(2), TwoHolds) && Coherent(TwoAsks, Grant(2))
    ensures StepTo(TwoHolds, Ask(2, Left, WritePerm), TwoWants)
  {
    assert !Clashes(LeftRead, 1, WritePerm);
    assert Blockers(TwoAsks.locks, 2, WriteRight) == {};
  }

  lemma SecondWaits()
    ensures StepTo(TwoWants, Block(2), TwoWaits) && StepTo(TwoWaits, Ask(1, Right, ReadPerm), OneWants)
  {
    assert Clashes(TwoWants.locks[1][Left], 0, WritePerm);
    assert Blockers(TwoWants.locks, 2, WriteLeft) == {1};
    SingleEdge(Polled(TwoWants, 2), 2, 1);
  }

  lemma FirstCleared()
    ensures StepTo(OneWants, Victim(1), OneCleared)
  {
    hide StepTo, Blockers, Reaches, ForgetWaits, Polled, OneWants, OneCleared, WriteLocked, Held;
    FirstBlocked();
    FirstForgotten();
    MutualEdges(map[2 := {1}, 1 := {2}], 1, 2);
    NothingDropped();
    VictimGives(OneWants, 1, map[], {});
    ClearedState();
  }

  lemma NothingDropped()
    ensures WriteLocked(Held(OneWants.locks, 1)) == {}
  {
  }

  lemma ClearedMaps()
    ensures OneWants.pending - {1} == OneCleared.pending && OneWants.inHand - {1} == OneCleared.inHand
  {
  }

  lemma ClearedLocks()
    ensures OneWants.locks - {1} == OneCleared.locks
  {
  }

  lemma ClearedState()
    ensures OneCleared == OneWants.(pages := OneWants.pages - {}, locks := OneWants.locks - {1}, waits := map[],
                                    pending := OneWants.pending - {1}, inHand := OneWants.inHand - {1})
  {
    ClearedMaps();
    ClearedLocks();
    assert OneWants.pages - {} == OneCleared.pages;
  }

  lemma FirstBlocked()
    ensures 1 in OneWants.pending && Blockers(OneWants.locks, 1, OneWants.pending[1]) == {2}
    ensures Polled(OneWants, 1) == map[2 := {1}, 1 := {2}]
  {
    assert Clashes(OneWants.locks[2][Right], 1, ReadPerm);
    assert Edges(OneWants.waits, 1) + {2} == {2};
  }

  lemma FirstForgotten()
    ensures ForgetWaits(map[2 := {1}, 1 := {2}], 1) == map[]
  {
  }

  lemma SecondGets()
    ensures StepTo(OneCleared, Grant(2), TwoGets) && Coherent(OneCleared, Grant(2))
  {
    hide StepTo, ForgetWaits, Coherent, Blockers;
    SecondFree();
    NoWaits(2);
    GrantGives(OneCleared, 2, TwoGets.locks, map[]);
    CachedGrant(OneCleared, 2);
    assert OneCleared.pending - {2} == map[] && OneCleared.inHand[2 := WriteLeft] == TwoGets.inHand;
  }

  lemma SecondFree()
    ensures Blockers(OneCleared.locks, 2, WriteLeft) == {} && SaveLock(OneCleared.locks, 2, WriteLeft) == TwoGets.locks
  {
  }

  lemma SecondWrites()
    ensures StepTo(TwoGets, Write(2, Left, EmptyPage, Rows), TwoWrites) && Coherent(TwoGets, Write(2, Left, EmptyPage, Rows))
  {
  }

  /** The locks of transaction 2 when it commits. */
  const TwoLocks := map[Right := RightWrite, Left := PageLock(0, 0, WritePerm, Left)]

  lemma SecondFlushes()
    ensures DirtyContents(TwoWrites.objects, TwoLocks) == map[Left := Rows]
    ensures Cleaned(TwoWrites.objects, FlushedRefs(TwoWrites.objects, TwoLocks)) == TwoDone.objects
  {
    hide DirtyKeys;
    SecondDirty();
    assert FlushedRefs(TwoWrites.objects, TwoLocks) == {0};
  }

  lemma SecondDirty()
    ensures DirtyKeys(TwoWrites.objects, TwoLocks) == {Left}
  {
  }

  lemma SecondCommits()
    ensures StepTo(TwoWrites, Commit(2), TwoDone)
  {
    hide StepTo, DirtyContents, Cleaned, FlushedRefs, ForgetWaits, TwoWrites, TwoDone, TwoLocks;
    SecondFlushes();
    NoWaits(2);
    DoneState();
    CommitGives(TwoWrites, 2, map[Left := Rows], TwoDone.objects, map[]);
  }

  lemma DoneState()
    ensures 2 !in TwoWrites.pending && Held(TwoWrites.locks, 2) == TwoLocks && TwoWrites.waits == map[]
    ensures TwoDone == TwoWrites.(disk := TwoWrites.disk + map[Left := Rows], objects := TwoDone.objects,
                                  locks := TwoWrites.locks - {2}, waits := map[], inHand := TwoWrites.inHand - {2})
  {
    assert TwoWrites.disk + map[Left := Rows] == TwoDone.disk;
    assert TwoWrites.locks - {2} == map[] && TwoWrites.inHand - {2} == map[];
  }

  lemma NoWaits(t: Tid)
    ensures ForgetWaits(map[], t) == map[]
  {
  }

  lemma FirstReturns()
    ensures StepTo(TwoDone, Ask(1, Left, ReadPerm), OneBack)
    ensures StepTo(OneBack, Grant(1), OneAgain) && Coherent(OneBack, Grant(1))
  {
    hide ForgetWaits, Coherent;
    assert Blockers(OneBack.locks, 1, ReadLeft) == {};
    NoWaits(1);
    GrantGives(OneBack, 1, OneAgain.locks, map[]);
    CachedGrant(OneBack, 1);
    assert OneBack.pending - {1} == map[];
  }

  lemma FirstCommits()
    ensures StepTo(OneAgain, Read(1, Left, Rows), OneAgain) && StepTo(OneAgain, Commit(1), TwoDone)
  {
    hide DirtyContents, Cleaned, FlushedRefs, ForgetWaits;
    FirstFlushes();
    NoWaits(1);
    CommitGives(OneAgain, 1, map[], OneAgain.objects, map[]);
    assert OneAgain.disk + map[] == OneAgain.disk;
  }

  lemma FirstFlushes()
    ensures DirtyContents(OneAgain.objects, map[Left := LeftRead]) == map[]
    ensures Cleaned(OneAgain.objects, FlushedRefs(OneAgain.objects, map[Left := LeftRead])) == OneAgain.objects
  {
    assert DirtyKeys(OneAgain.objects, map[Left := LeftRead]) == {};
  }

  const Opening := [
    Fetch(None, Left, 0), Fetch(None, Right, 1), Ask(1, Left, ReadPerm), Grant(1), Read(1, Left, EmptyPage),
    Ask(2, Right, WritePerm), Grant(2), Ask(2, Left, WritePerm), Block(2), Ask(1, Right, ReadPerm)]

  const Ending := [
    Victim(1), Grant(2), Write(2, Left, EmptyPage, Rows), Commit(2),
    Ask(1, Left, ReadPerm), Grant(1), Read(1, Left, Rows), Commit(1)]

  lemma ReadingRun()
    ensures var tr := Opening[..5]; IsRun(Start, tr) && CoherentRun(Start, tr) && After(Start, tr) == OneReads
  {
    hide StepTo, IsRun, CoherentRun, After, FreshGrant, HandCached;
    hide Start, LeftIn, BothIn, OneAsks, OneReads, TwoAsks, TwoHolds, TwoWants, TwoWaits, OneWants, OneCleared, TwoGets, TwoWrites, TwoDone, OneBack, OneAgain;
    NoEvents(Start);
    Fetches();
    FirstGrant();
    FirstRead();
    var tr := ThenCoherent(Start, [], Fetch(None, Left, 0), LeftIn);
    tr := ThenCoherent(Start, tr, Fetch(None, Right, 1), BothIn);
    tr := ThenCoherent(Start, tr, Ask(1, Left, ReadPerm), OneAsks);
    tr := ThenCoherent(Start, tr, Grant(1), OneReads);
    tr := ThenCoherent(Start, tr, Read(1, Left, EmptyPage), OneReads);
    assert tr == Opening[..5];
  }

  lemma OpeningRun()
    ensures IsRun(Start, Opening) && CoherentRun(Start, Opening) && After(Start, Opening) == OneWants
  {
    hide StepTo, IsRun, CoherentRun, After, FreshGrant, HandCached;
    hide Start, LeftIn, BothIn, OneAsks, OneReads, TwoAsks, TwoHolds, TwoWants, TwoWaits, OneWants, OneCleared, TwoGets, TwoWrites, TwoDone, OneBack, OneAgain;
    ReadingRun();
    FirstRead();
    SecondGrant();
    SecondWaits();
    var tr := ThenCoherent(Start, Opening[..5], Ask(2, Right, WritePerm), TwoAsks);
    tr := ThenCoherent(Start, tr, Grant(2), TwoHolds);
    tr := ThenCoherent(Start, tr, Ask(2, Left, WritePerm), TwoWants);
    tr := ThenCoherent(Start, tr, Block(2), TwoWaits);
    tr := ThenCoherent(Start, tr, Ask(1, Right, ReadPerm), OneWants);
    assert tr == Opening;
  }

  lemma WholeRun()
    ensures IsRun(Start, Opening + Ending) && CoherentRun(Start, Opening + Ending)
  {
    hide StepTo, IsRun, CoherentRun, After, FreshGrant, HandCached;
    hide Start, LeftIn, BothIn, OneAsks, OneReads, TwoAsks, TwoHolds, TwoWants, TwoWaits, OneWants, OneCleared, TwoGets, TwoWrites, TwoDone, OneBack, OneAgain;
    OpeningRun();
    FirstCleared();
    SecondGets();
    SecondWrites();
    SecondCommits();
    FirstReturns();
    FirstCommits();
    var tr := ThenCoherent(Start, Opening, Victim(1), OneCleared);
    tr := ThenCoherent(Start, tr, Grant(2), TwoGets);
    tr := ThenCoherent(Start, tr, Write(2, Left, EmptyPage, Rows), TwoWrites);
    tr := ThenCoherent(Start, tr, Commit(2), TwoDone);
    tr := ThenCoherent(Start, tr, Ask(1, Left, ReadPerm), OneBack);
    tr := ThenCoherent(Start, tr, Grant(1), OneAgain);
    tr := ThenCoherent(Start, tr, Read(1, Left, Rows), OneAgain);
    tr := ThenCoherent(Start, tr, Commit(1), TwoDone);
    assert tr == Opening + Ending;
  }

  /**
    A victim that goes on: transaction 1 reads the left page, is cleared by the detector, reads
    it again after 2 has written and committed it, and commits.  The conflict graph of the
    committed transactions has a cycle, and only because the id of 1 comes back.
   */
  lemma VictimGoesOn() returns (tr: seq<Event>)
    ensures Init(Start) && IsRun(Start, tr) && CoherentRun(Start, tr)
    ensures ConflictPath(tr, [1, 2, 1]) && !NoReturn(tr, 1) && NoReturn(tr, 2)
  {
    hide IsRun, CoherentRun, Opening, Ending;
    WholeRun();
    tr := Opening + Ending;
    Accesses(tr);
    assert ConflictEdge(tr, 1, 2) && ConflictEdge(tr, 2, 1);
    assert Ends(tr[10], 1);
    OnlyEnd(tr);
  }

  lemma Accesses(tr: seq<Event>)
    requires tr == Opening + Ending
    ensures |tr| == 18 && Conflicting(tr[4], tr[12]) && Conflicting(tr[12], tr[16])
    ensures tr[4].t == 1 && tr[10] == Victim(1) && tr[12].t == 2 && tr[13] == Commit(2)
    ensures tr[14] == Ask(1, Left, ReadPerm) && tr[16].t == 1 && tr[17] == Commit(1)
  {
    assert |Opening| == 10 && |Ending| == 8;
    assert tr[4] == Opening[4] && tr[10] == Ending[0] && tr[12] == Ending[2] && tr[13] == Ending[3];
    assert tr[14] == Ending[4] && tr[16] == Ending[6] && tr[17] == Ending[7];
  }

  lemma OnlyEnd(tr: seq<Event>)
    requires tr == Opening + Ending
    ensures NoReturn(tr, 2)
  {
    forall i, j | 0 <= i < j < |tr| && Ends(tr[i], 2)
      ensures !((tr[j].Ask? || tr[j].Commit?) && tr[j].t == 2)
    {
      assert i == 13;
      assert j == 14 || j == 15 || j == 16 || j == 17;
    }
  }
}
