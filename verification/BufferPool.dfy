/**
  The buffer pool as the object it is: maps updated in place by methods.  Each method is
  proved to perform exactly events of the step machine, so every theorem about runs is a
  theorem about sequences of these calls, with the accesses to granted pages and the appends
  to files between them.
 */
module BufferPoolObject {
  import opened Values
  import opened PoolState
  import opened LockInvariants
  import opened WaitGraph
  import opened PoolContents

  /** How a call of `GetPage`, or one turn of its polling loop, ends. */
  datatype Outcome =
    | Granted(page: Ref)
    | Waiting
    | Aborted
    | PoolFull
    | ReadFailed

  class BufferPool {
    const numPages: nat
    var pages: map<PageKey, Ref>
    var mapPageLocksByTid: LockTable
    var waitTidLocks: WaitsFor

    // The page objects in memory and the files on disk.
    var objects: map<Ref, Page>
    var nextRef: Ref
    var disk: map<PageKey, Contents>

    // What the callers are doing: blocked requests and the pages they got last.
    ghost var pending: map<Tid, Request>
    ghost var inHand: map<Tid, Request>

    ghost function Snap(): State
      reads this
    {
      State(numPages, disk, objects, pages, mapPageLocksByTid, waitTidLocks, pending, inHand)
    }

    ghost predicate Valid()
      reads this
    {
      StructInv(Snap()) && forall r | r in objects :: r < nextRef
    }

    constructor (n: nat, files: map<PageKey, Contents>)
      ensures Valid() && Init(Snap()) && numPages == n && disk == files
    {
      numPages := n;
      pages, mapPageLocksByTid, waitTidLocks := map[], map[], map[];
      objects, nextRef, disk := map[], 0, files;
      pending, inHand := map[], map[];
    }

    /** Record an edge to every other transaction with a clashing lock. */
    method IsConflicted(tid: Tid, req: Request) returns (conflicted: bool)
      modifies this`waitTidLocks
      ensures waitTidLocks == AddEdges(old(waitTidLocks), tid, Blockers(mapPageLocksByTid, tid, req))
      ensures conflicted <==> Blockers(mapPageLocksByTid, tid, req) != {}
      ensures conflicted <==>
        exists u, k :: (u != tid && u in mapPageLocksByTid && k in mapPageLocksByTid[u] &&
                        mapPageLocksByTid[u][k].pageNo == req.key.pageNo &&
                        !(mapPageLocksByTid[u][k].perm == ReadPerm && req.perm == ReadPerm))
      ensures forall t, u :: HasEdge(waitTidLocks, t, u) <==>
        HasEdge(old(waitTidLocks), t, u) ||
        (t == tid && u != tid && u in mapPageLocksByTid && exists k :: (
          k in mapPageLocksByTid[u] && mapPageLocksByTid[u][k].pageNo == req.key.pageNo &&
          !(mapPageLocksByTid[u][k].perm == ReadPerm && req.perm == ReadPerm)))
    {
      hide Blocks, AddEdges, Found, HasClash, Edges, Blockers;
      conflicted := false;
      var rest := mapPageLocksByTid.Keys;
      FoundNone(mapPageLocksByTid, tid, req);
      NoEdges(waitTidLocks, tid);
      while rest != {}
        invariant rest <= mapPageLocksByTid.Keys
        invariant waitTidLocks == AddEdges(old(waitTidLocks), tid, Found(mapPageLocksByTid, tid, req, rest))
        invariant conflicted <==> Found(mapPageLocksByTid, tid, req, rest) != {}
        decreases |rest|
      {
        var t :| t in rest;
        FoundOneMore(mapPageLocksByTid, tid, req, rest, t);
        EdgesOneMore(old(waitTidLocks), tid, Found(mapPageLocksByTid, tid, req, rest), t);
        rest := rest - {t};
        if t != tid {
          var clash := AnyClash(mapPageLocksByTid[t], req.key.pageNo, req.perm);
          if clash {
            waitTidLocks := waitTidLocks[tid := Edges(waitTidLocks, tid) + {t}];
            conflicted := true;
          }
        }
      }
      FoundAll(mapPageLocksByTid, tid, req);
      BlockersMean(mapPageLocksByTid, tid, req);
      EdgesAdded(old(waitTidLocks), tid, Blockers(mapPageLocksByTid, tid, req));
    }

    /** Drop the edges into and out of `tid`, and the entries this empties. */
    method DeleteWaitTidLocks(tid: Tid)
      modifies this`waitTidLocks
      ensures waitTidLocks == ForgetWaits(old(waitTidLocks), tid)
      ensures forall t, u :: HasEdge(waitTidLocks, t, u) <==> HasEdge(old(waitTidLocks), t, u) && t != tid && u != tid
      ensures forall t | t in waitTidLocks :: waitTidLocks[t] != {}
    {
      hide Forgetting, ForgetWaits;
      ghost var before := waitTidLocks;
      var rest := waitTidLocks.Keys;
      ForgottenNone(before, tid);
      while rest != {}
        invariant rest <= before.Keys && waitTidLocks == Forgetting(before, tid, rest)
        decreases |rest|
      {
        var key :| key in rest;
        ForgetOneMore(before, tid, rest, key);
        rest := rest - {key};
        if key != tid {
          var left := waitTidLocks[key] - {tid};
          if left == {} {
            waitTidLocks := waitTidLocks - {key};
          } else {
            waitTidLocks := waitTidLocks[key := left];
          }
        }
      }
      ForgottenAll(before, tid);
      EdgesForgotten(before, tid);
      waitTidLocks := waitTidLocks - {tid};
    }

    /** A read keeps an existing entry; a write always files a fresh one. */
    method SaveMapAndUpgradeLock(tid: Tid, req: Request)
      modifies this`mapPageLocksByTid
      ensures mapPageLocksByTid == SaveLock(old(mapPageLocksByTid), tid, req)
      ensures mapPageLocksByTid.Keys == old(mapPageLocksByTid).Keys + {tid}
      ensures forall u | u in old(mapPageLocksByTid) && u != tid :: mapPageLocksByTid[u] == old(mapPageLocksByTid)[u]
      ensures tid in mapPageLocksByTid && req.key in mapPageLocksByTid[tid]
      ensures var had := if tid in old(mapPageLocksByTid) then old(mapPageLocksByTid)[tid] else map[];
        && (forall k | k in had && k != req.key :: k in mapPageLocksByTid[tid] && mapPageLocksByTid[tid][k] == had[k])
        && (forall k | k in mapPageLocksByTid[tid] :: k in had || k == req.key)
        && mapPageLocksByTid[tid][req.key] == if req.perm == ReadPerm && req.key in had then had[req.key]
                                              else PageLock(req.page, req.key.pageNo, req.perm, req.key)
    {
      if tid !in mapPageLocksByTid || req.key !in mapPageLocksByTid[tid] || req.perm == WritePerm {
        if tid !in mapPageLocksByTid {
          mapPageLocksByTid := mapPageLocksByTid[tid := map[]];
        }
        var entry := PageLock(req.page, req.key.pageNo, req.perm, req.key);
        mapPageLocksByTid := mapPageLocksByTid[tid := mapPageLocksByTid[tid][req.key := entry]];
      }
    }

    /** The loop of `clearMap`: drop the cached pages that are write-locked. */
    method DropPages(held: map<PageKey, PageLock>)
      modifies this`pages
      ensures pages == old(pages) - WriteLocked(held)
    {
      hide WriteLocked, Dropped;
      var rest := held.Keys;
      NothingDropped(pages, held);
      while rest != {}
        invariant rest <= held.Keys && pages == old(pages) - Dropped(held, rest)
        decreases |rest|
      {
        var k :| k in rest;
        DropOneMore(old(pages), held, rest, k);
        rest := rest - {k};
        if held[k].perm == WritePerm {
          pages := pages - {k};
        }
      }
      AllDropped(held);
    }

    /** Throw away the cached pages `tid` write-locks, then its locks, its edges and its request. */
    method ClearMap(tid: Tid)
      modifies this`pages, this`mapPageLocksByTid, this`waitTidLocks, this`pending, this`inHand
      ensures Snap() == ClearStep(old(Snap()), tid)
      ensures mapPageLocksByTid == old(mapPageLocksByTid) - {tid}
      ensures forall k :: k in pages <==> (k in old(pages) &&
        !(tid in old(mapPageLocksByTid) && k in old(mapPageLocksByTid)[tid] && old(mapPageLocksByTid)[tid][k].perm == WritePerm))
      ensures forall k | k in pages :: pages[k] == old(pages)[k]
    {
      hide ForgetWaits, WriteLocked;
      WriteLockedIs(if tid in mapPageLocksByTid then mapPageLocksByTid[tid] else map[]);
      DropPages(if tid in mapPageLocksByTid then mapPageLocksByTid[tid] else map[]);
      mapPageLocksByTid := mapPageLocksByTid - {tid};
      DeleteWaitTidLocks(tid);
      pending, inHand := pending - {tid}, inHand - {tid};
    }

    /**
      One turn of the polling loop: check for conflicts; if there are any, abort on a cycle or
      give up the mutex and wait; otherwise take the lock.
     */
    method Poll(tid: Tid, req: Request) returns (outcome: Outcome, ghost e: Event)
      requires Valid() && tid in pending && pending[tid] == req
      modifies this`pages, this`mapPageLocksByTid, this`waitTidLocks, this`pending, this`inHand
      ensures Valid() && Enabled(old(Snap()), e) && Snap() == Apply(old(Snap()), e)
      ensures e == PollEvent(outcome, tid)
      ensures outcome == Granted(req.page) || outcome == Aborted || outcome == Waiting
      ensures outcome.Granted? <==>
        forall u, k | u != tid && u in old(mapPageLocksByTid) && k in old(mapPageLocksByTid)[u] &&
                      old(mapPageLocksByTid)[u][k].pageNo == req.key.pageNo ::
          old(mapPageLocksByTid)[u][k].perm == ReadPerm && req.perm == ReadPerm
    {
      hide StructInv, Apply, Enabled, Reaches, ForgetWaits, SaveLock, Blockers, AddEdges, ClearStep;
      ghost var before := Snap();
      var conflicted := IsConflicted(tid, req);
      if conflicted {
        var cycle := HasCycle(waitTidLocks, tid);
        if cycle {
          VictimIs(before, tid);
          ClearMap(tid);
          outcome, e := Aborted, Victim(tid);
        } else {
          BlockIs(before, tid);
          outcome, e := Waiting, Block(tid);
        }
      } else {
        GrantIs(before, tid);
        TakeLock(tid, req);
        outcome, e := Granted(req.page), Grant(tid);
      }
      StructStep(before, e);
    }

    /** File the lock and drop the edges of a request that nothing obstructs. */
    method TakeLock(tid: Tid, req: Request)
      modifies this`mapPageLocksByTid, this`waitTidLocks, this`pending, this`inHand
      ensures mapPageLocksByTid == SaveLock(old(mapPageLocksByTid), tid, req)
      ensures waitTidLocks == ForgetWaits(old(waitTidLocks), tid)
      ensures pending == old(pending) - {tid} && inHand == old(inHand)[tid := req]
    {
      hide SaveLock, ForgetWaits;
      SaveMapAndUpgradeLock(tid, req);
      DeleteWaitTidLocks(tid);
      pending, inHand := pending - {tid}, inHand[tid := req];
    }

    /** Look for a clean page and drop it under the key it recomputes; this makes room for one page. */
    method EvictOne() returns (evicted: bool, ghost k: PageKey)
      requires Valid() && |pages| >= numPages
      modifies this`pages
      ensures evicted ==> Evictable(old(Snap()), k) && Snap() == EvictStep(old(Snap()), k)
      ensures evicted ==> pages == old(pages) - {k} && |pages| < numPages
      ensures !evicted ==> Snap() == old(Snap()) && forall l | l in pages :: objects[pages[l]].dirty
    {
      ghost var before := Snap();
      var rest := pages.Keys;
      k := PageKey("", 0);
      while rest != {}
        invariant rest <= pages.Keys && Snap() == before
        invariant forall l | l in pages && l !in rest :: pages[l] in objects && objects[pages[l]].dirty
        decreases |rest|
      {
        var l :| l in rest;
        rest := rest - {l};
        assert ObjectFor(before, pages[l], l);
        if !objects[pages[l]].dirty {
          EvictDrops(before, l);
          pages := pages - {objects[pages[l]].Key()};
          return true, l;
        }
      }
      evicted := false;
    }

    /** Read the page of `key` from disk into a new object and cache it; the size is not looked at. */
    method LoadPage(key: PageKey) returns (ghost r: Ref)
      requires key in disk && forall q | q in objects :: q < nextRef
      modifies this`pages, this`objects, this`nextRef
      ensures r == old(nextRef) && Snap() == LoadStep(old(Snap()), key, r) && key in pages
      ensures forall q | q in objects :: q < nextRef
    {
      r := nextRef;
      objects := objects[nextRef := Page(key.file, key.pageNo, disk[key], false)];
      pages := pages[key := nextRef];
      nextRef := nextRef + 1;
    }

    /** Bring the page of `key` into the cache, evicting one if the pool is full. */
    method FindPage(key: PageKey) returns (failure: Option<Outcome>, ghost tr: seq<Event>)
      requires Valid()
      modifies this`pages, this`objects, this`nextRef
      ensures Valid() && Play(old(Snap()), tr) == Some(Snap())
      ensures failure.None? ==> key in pages
      ensures failure.Some? ==> failure.value == PoolFull || failure.value == ReadFailed
      ensures failure == Some(PoolFull) ==> tr == [] && forall k | k in pages :: objects[pages[k]].dirty
      ensures failure == Some(ReadFailed) ==> key !in disk && (tr == [] || exists k :: tr == [Evict(k)])
      ensures failure.None? ==> tr == [] || exists k, r :: tr == [Fetch(k, key, r)]
    {
      hide Apply, StructInv, ObjectFor, Enabled, Play, Evictable, EvictStep, LoadStep;
      ghost var before := Snap();
      PlayNothing(before);
      tr := [];
      if key in pages {
        return None, tr;
      }
      ghost var victim: Option<PageKey> := None;
      if |pages| >= numPages {
        var evicted, k := EvictOne();
        if !evicted {
          return Some(PoolFull), tr;
        }
        victim := Some(k);
      }
      if key !in disk {
        if victim.Some? {
          EvictEvent(before, victim.value);
          StructStep(before, Evict(victim.value));
          Snoc(before, tr, Evict(victim.value));
          tr := tr + [Evict(victim.value)];
        }
        return Some(ReadFailed), tr;
      }
      ghost var r := LoadPage(key);
      FetchIs(before, victim, key, r);
      StructStep(before, Fetch(victim, key, r));
      Snoc(before, tr, Fetch(victim, key, r));
      tr := tr + [Fetch(victim, key, r)];
      failure := None;
    }

    /**
      `GetPage` up to the first release of the mutex: find or load the page, register the
      request with the page object found, and poll once.
     */
    method GetPage(file: string, pageNo: int, tid: Tid, perm: Perm) returns (outcome: Outcome, ghost tr: seq<Event>)
      requires Valid() && tid !in pending
      modifies this
      ensures Valid() && Play(old(Snap()), tr) == Some(Snap())
      ensures outcome.PoolFull? ==> tr == [] && forall k | k in pages :: objects[pages[k]].dirty
      ensures outcome.ReadFailed? ==> PageKey(file, pageNo) !in disk
      ensures !outcome.PoolFull? && !outcome.ReadFailed? ==>
                |tr| >= 2 && tr[|tr| - 2..] == [Ask(tid, PageKey(file, pageNo), perm), PollEvent(outcome, tid)]
    {
      hide ObjectFor, Apply, StructInv, Enabled, Play;
      ghost var before := Snap();
      var key := PageKey(file, pageNo);
      var failure;
      failure, tr := FindPage(key);
      if failure.Some? {
        return failure.value, tr;
      }
      ghost var fetched := Snap();
      var req := Request(key, pages[key], perm);
      AskIs(fetched, tid, key, perm);
      Snoc(before, tr, Ask(tid, key, perm));
      StructStep(fetched, Ask(tid, key, perm));
      tr := tr + [Ask(tid, key, perm)];
      pending := pending[tid := req];
      ghost var e;
      outcome, e := Poll(tid, req);
      Snoc(before, tr, e);
      tr := tr + [e];
    }

    /** The loop of a commit: write every dirty page of `held` to disk and mark it clean. */
    method FlushPages(held: map<PageKey, PageLock>)
      requires HeldObjects(Snap(), held)
      modifies this`disk, this`objects
      ensures disk == old(disk) + DirtyContents(old(objects), held)
      ensures objects == Cleaned(old(objects), FlushedRefs(old(objects), held))
    {
      hide FlushedExcept, DirtyContents, Cleaned, FlushedRefs, HeldObjects;
      ghost var before := Snap();
      var rest := held.Keys;
      FlushedNone(before, held);
      while rest != {}
        invariant rest <= held.Keys && FlushedExcept(before, held, rest, disk, objects)
        decreases |rest|
      {
        var k :| k in rest;
        FlushOne(before, held, rest, k, disk, objects);
        rest := rest - {k};
        var page := objects[held[k].page];
        if page.dirty {
          disk := disk[page.Key() := page.contents];
          objects := objects[held[k].page := page.(dirty := false)];
        }
      }
      FlushedAll(before, held, disk, objects);
    }

    /** Look at the rows of the page a transaction got last. */
    method ReadRows(tid: Tid, page: Ref) returns (rows: Contents)
      requires Valid() && tid !in pending && tid in inHand && inHand[tid].page == page
      ensures Enabled(Snap(), Read(tid, inHand[tid].key, rows)) && Snap() == Apply(Snap(), Read(tid, inHand[tid].key, rows))
    {
      hide CacheOk, HeldObjects;
      assert ObjectFor(Snap(), page, inHand[tid].key);
      rows := objects[page].contents;
    }

    /** Change the rows of the page a transaction got last for writing; the page becomes dirty. */
    method WriteRows(tid: Tid, page: Ref, rows: Contents)
      requires Valid() && tid !in pending && tid in inHand && inHand[tid].page == page && inHand[tid].perm == WritePerm
      modifies this`objects
      ensures Valid()
      ensures page in old(objects)
      ensures var e := Write(tid, inHand[tid].key, old(objects)[page].contents, rows);
        Enabled(old(Snap()), e) && Snap() == Apply(old(Snap()), e)
    {
      hide StructInv;
      ghost var before := Snap();
      HandObject(before, tid);
      objects := objects[page := objects[page].(contents := rows, dirty := true)];
      StructStep(before, Write(tid, inHand[tid].key, before.objects[page].contents, rows));
    }

    /** Append an empty page to a file on disk. */
    method AppendPage(key: PageKey)
      requires Valid() && key !in disk
      modifies this`disk
      ensures Valid() && Enabled(old(Snap()), Extend(key)) && Snap() == Apply(old(Snap()), Extend(key))
      ensures disk == old(disk)[key := []]
    {
      hide StructInv;
      ghost var before := Snap();
      disk := disk[key := EmptyPage];
      StructStep(before, Extend(key));
    }

    /** Flush every dirty page the transaction locks, then release its locks and edges. */
    method CommitTransaction(tid: Tid)
      requires Valid() && tid !in pending
      modifies this
      ensures Valid() && Enabled(old(Snap()), Commit(tid)) && Snap() == Apply(old(Snap()), Commit(tid))
      ensures mapPageLocksByTid == old(mapPageLocksByTid) - {tid} && pages == old(pages)
      ensures disk.Keys == old(disk).Keys
      ensures forall k | k in disk ::
        disk[k] == if WrittenBy(old(objects), old(mapPageLocksByTid), tid, k)
                   then old(objects)[old(mapPageLocksByTid)[tid][k].page].contents else old(disk)[k]
    {
      hide StructInv, Apply, Enabled, HeldObjects, ForgetWaits, DirtyContents, Cleaned, FlushedRefs, Held;
      ghost var before := Snap();
      var held := Held(mapPageLocksByTid, tid);
      HeldByOne(before, tid);
      CommitIs(before, tid);
      StructStep(before, Commit(tid));
      CleanedKeys(before.objects, FlushedRefs(before.objects, held));
      FlushedDisk(before, tid);
      FlushPages(held);
      mapPageLocksByTid := mapPageLocksByTid - {tid};
      DeleteWaitTidLocks(tid);
      inHand := inHand - {tid};
    }

    method AbortTransaction(tid: Tid)
      requires Valid() && tid !in pending
      modifies this
      ensures Valid() && Enabled(old(Snap()), Abort(tid)) && Snap() == Apply(old(Snap()), Abort(tid))
    {
      hide StructInv, ClearStep;
      ghost var before := Snap();
      ClearMap(tid);
      StructStep(before, Abort(tid));
    }
  }

  /** The event that one turn of the polling loop performs. */
  ghost function PollEvent(outcome: Outcome, tid: Tid): Event {
    match outcome
    case Granted(_) => Grant(tid)
    case Aborted => Victim(tid)
    case _ => Block(tid)
  }

  /** Whether some entry clashes with an access to `pageNo`. */
  method AnyClash(held: map<PageKey, PageLock>, pageNo: int, perm: Perm) returns (clash: bool)
    ensures clash <==> HasClash(held, pageNo, perm)
  {
    clash := false;
    var rest := held.Keys;
    while rest != {}
      invariant rest <= held.Keys
      invariant clash <==> exists k | k in held && k !in rest :: Clashes(held[k], pageNo, perm)
      decreases |rest|
    {
      var k :| k in rest;
      rest := rest - {k};
      if held[k].pageNo == pageNo && (held[k].perm == WritePerm || perm == WritePerm) {
        assert Clashes(held[k], pageNo, perm);
        clash := true;
      }
    }
  }

  /** The locks of `held` outside `rest` have had their dirty pages flushed. */
  ghost predicate FlushedExcept(s: State, held: map<PageKey, PageLock>, rest: set<PageKey>,
                                disk: map<PageKey, Contents>, objects: map<Ref, Page>)
  {
    && disk == s.disk + DirtyContents(s.objects, Done(held, rest))
    && objects == Cleaned(s.objects, FlushedRefs(s.objects, Done(held, rest)))
  }

  ghost function Done(held: map<PageKey, PageLock>, rest: set<PageKey>): map<PageKey, PageLock> {
    map k | k in held && k !in rest :: held[k]
  }

  lemma FlushedAll(s: State, held: map<PageKey, PageLock>, disk: map<PageKey, Contents>, objects: map<Ref, Page>)
    requires FlushedExcept(s, held, {}, disk, objects)
    ensures disk == s.disk + DirtyContents(s.objects, held) && objects == Cleaned(s.objects, FlushedRefs(s.objects, held))
  {
    assert Done(held, {}) == held;
  }

  /** Flushing the page of one more lock. */
  lemma FlushOne(s: State, held: map<PageKey, PageLock>, rest: set<PageKey>, k: PageKey,
                 disk: map<PageKey, Contents>, objects: map<Ref, Page>)
    requires k in rest && rest <= held.Keys && HeldObjects(s, held) && FlushedExcept(s, held, rest, disk, objects)
    ensures held[k].page in objects
    ensures var page := objects[held[k].page];
      && page.Key() == k
      && FlushedExcept(s, held, rest - {k},
           if page.dirty then disk[k := page.contents] else disk,
           if page.dirty then objects[held[k].page := page.(dirty := false)] else objects)
  {
    hide DirtyContents, FlushedRefs, Cleaned, Done;
    var r := held[k].page;
    assert ObjectFor(s, r, k);
    NotYetFlushed(s, held, rest, k);
    DoneOneMore(s.objects, held, rest, k);
    CleanedAt(s.objects, FlushedRefs(s.objects, Done(held, rest)), r);
    CleanedMore(s.objects, FlushedRefs(s.objects, Done(held, rest)), r);
    PutAfter(s.disk, DirtyContents(s.objects, Done(held, rest)), k, s.objects[r].contents);
  }

  lemma PutAfter(disk: map<PageKey, Contents>, dirty: map<PageKey, Contents>, k: PageKey, v: Contents)
    ensures disk + dirty[k := v] == (disk + dirty)[k := v]
  {
  }

  lemma NotYetFlushed(s: State, held: map<PageKey, PageLock>, rest: set<PageKey>, k: PageKey)
    requires k in rest && rest <= held.Keys && HeldObjects(s, held)
    ensures held[k].page !in FlushedRefs(s.objects, Done(held, rest))
  {
    var done := Done(held, rest);
    assert ObjectFor(s, held[k].page, k);
    forall l | l in DirtyKeys(s.objects, done)
      ensures done[l].page != held[k].page
    {
      assert ObjectFor(s, held[l].page, l);
    }
  }

  lemma CleanedAt(o: map<Ref, Page>, refs: set<Ref>, r: Ref)
    requires r in o && r !in refs
    ensures r in Cleaned(o, refs) && Cleaned(o, refs)[r] == o[r]
  {
  }

  lemma CleanedMore(o: map<Ref, Page>, refs: set<Ref>, r: Ref)
    requires r in o
    ensures Cleaned(o, refs + {r}) == Cleaned(o, refs)[r := o[r].(dirty := false)]
    ensures refs + {} == refs
  {
  }

  lemma DoneOneMore(o: map<Ref, Page>, held: map<PageKey, PageLock>, rest: set<PageKey>, k: PageKey)
    requires k in rest && rest <= held.Keys && held[k].page in o
    ensures var done, more := Done(held, rest), Done(held, rest - {k});
      && more == done[k := held[k]]
      && DirtyContents(o, more) == (if o[held[k].page].dirty then DirtyContents(o, done)[k := o[held[k].page].contents] else DirtyContents(o, done))
      && FlushedRefs(o, more) == FlushedRefs(o, done) + (if o[held[k].page].dirty then {held[k].page} else {})
  {
    var done, more := Done(held, rest), Done(held, rest - {k});
    assert more == done[k := held[k]];
    assert DirtyKeys(o, more) == DirtyKeys(o, done) + (if o[held[k].page].dirty then {k} else {});
    forall r
      ensures r in FlushedRefs(o, more) <==> r in FlushedRefs(o, done) || (o[held[k].page].dirty && r == held[k].page)
    {
      if r in FlushedRefs(o, done) {
        var l :| l in DirtyKeys(o, done) && done[l].page == r;
        assert l in DirtyKeys(o, more) && more[l].page == r;
      }
      if o[held[k].page].dirty && r == held[k].page {
        assert k in DirtyKeys(o, more);
      }
    }
  }

  /** `tid` locks `k` with a page object that is dirty. */
  predicate WrittenBy(objects: map<Ref, Page>, locks: LockTable, tid: Tid, k: PageKey) {
    tid in locks && k in locks[tid] && locks[tid][k].page in objects && objects[locks[tid][k].page].dirty
  }

  lemma FlushedDisk(s: State, t: Tid)
    requires StructInv(s)
    ensures var disk := s.disk + DirtyContents(s.objects, Held(s.locks, t));
      && disk.Keys == s.disk.Keys
      && forall k | k in disk ::
           disk[k] == if WrittenBy(s.objects, s.locks, t, k) then s.objects[s.locks[t][k].page].contents else s.disk[k]
  {
    hide StructInv, CacheOk, DirtyContents, WrittenBy;
    var dirty := DirtyContents(s.objects, Held(s.locks, t));
    DirtyIsWritten(s, t);
    assert (s.disk + dirty).Keys == s.disk.Keys + dirty.Keys;
  }

  lemma DirtyIsWritten(s: State, t: Tid)
    requires StructInv(s)
    ensures var dirty := DirtyContents(s.objects, Held(s.locks, t));
      && dirty.Keys <= s.disk.Keys
      && (forall k :: k in dirty <==> WrittenBy(s.objects, s.locks, t, k))
      && forall k | k in dirty :: WrittenBy(s.objects, s.locks, t, k) && dirty[k] == s.objects[s.locks[t][k].page].contents
  {
    hide CacheOk;
    HeldByOne(s, t);
    forall k | k in DirtyContents(s.objects, Held(s.locks, t))
      ensures k in s.disk
    {
      assert ObjectFor(s, Held(s.locks, t)[k].page, k);
    }
  }

  /** `t` is recorded as waiting for `u`. */
  predicate HasEdge(waits: WaitsFor, t: Tid, u: Tid) {
    t in waits && u in waits[t]
  }

  lemma EdgesAdded(waits: WaitsFor, tid: Tid, blockers: set<Tid>)
    ensures forall t, u :: HasEdge(AddEdges(waits, tid, blockers), t, u) <==> HasEdge(waits, t, u) || (t == tid && u in blockers)
  {
  }

  lemma EdgesForgotten(waits: WaitsFor, tid: Tid)
    ensures forall t, u :: HasEdge(ForgetWaits(waits, tid), t, u) <==> HasEdge(waits, t, u) && t != tid && u != tid
    ensures forall t | t in ForgetWaits(waits, tid) :: ForgetWaits(waits, tid)[t] != {}
  {
    forall t, u | HasEdge(waits, t, u) && t != tid && u != tid
      ensures HasEdge(ForgetWaits(waits, tid), t, u)
    {
      assert u in waits[t] - {tid};
    }
  }

  lemma WriteLockedIs(held: map<PageKey, PageLock>)
    ensures forall k :: k in WriteLocked(held) <==> k in held && held[k].perm == WritePerm
  {
  }

  lemma HandObject(s: State, t: Tid)
    requires StructInv(s) && t in s.inHand
    ensures ObjectFor(s, s.inHand[t].page, s.inHand[t].key)
  {
    hide CacheOk, HeldObjects, ObjectFor;
  }

  lemma HeldByOne(s: State, t: Tid)
    requires StructInv(s)
    ensures HeldObjects(s, Held(s.locks, t))
  {
    EmptyHeld(s);
  }

  lemma CleanedKeys(o: map<Ref, Page>, refs: set<Ref>)
    ensures Cleaned(o, refs).Keys == o.Keys
  {
  }

  lemma FlushedNone(s: State, held: map<PageKey, PageLock>)
    ensures FlushedExcept(s, held, held.Keys, s.disk, s.objects)
  {
    assert Done(held, held.Keys) == map[];
    assert DirtyKeys(s.objects, map[]) == {};
  }

  // ---- The loops of the conflict check and of clearMap ----

  /** The blockers among the transactions already looked at, all but `rest`. */
  ghost function Found(locks: LockTable, tid: Tid, req: Request, rest: set<Tid>): set<Tid> {
    set u | u in locks && u !in rest && Blocks(locks, tid, req, u)
  }

  lemma FoundOneMore(locks: LockTable, tid: Tid, req: Request, rest: set<Tid>, t: Tid)
    requires t in rest && rest <= locks.Keys
    ensures Found(locks, tid, req, rest - {t}) ==
            if t != tid && HasClash(locks[t], req.key.pageNo, req.perm) then Found(locks, tid, req, rest) + {t}
            else Found(locks, tid, req, rest)
  {
  }

  lemma FoundNone(locks: LockTable, tid: Tid, req: Request)
    ensures Found(locks, tid, req, locks.Keys) == {}
  {
  }

  lemma FoundAll(locks: LockTable, tid: Tid, req: Request)
    ensures Found(locks, tid, req, {}) == Blockers(locks, tid, req)
  {
  }

  lemma NoEdges(waits: WaitsFor, tid: Tid)
    ensures AddEdges(waits, tid, {}) == waits
  {
  }

  lemma EdgesOneMore(waits: WaitsFor, tid: Tid, found: set<Tid>, t: Tid)
    ensures AddEdges(waits, tid, found + {t}) == AddEdges(waits, tid, found)[tid := Edges(AddEdges(waits, tid, found), tid) + {t}]
  {
    assert Edges(waits, tid) + (found + {t}) == Edges(waits, tid) + found + {t};
    if found == {} {
      assert found + {t} == {t};
    } else {
      assert AddEdges(waits, tid, found)[tid := Edges(waits, tid) + found + {t}] == waits[tid := Edges(waits, tid) + found + {t}];
    }
  }

  /** The graph when all entries but those of `rest` have been gone through. */
  ghost function Forgetting(waits: WaitsFor, tid: Tid, rest: set<Tid>): WaitsFor {
    map x | x in waits && (x in rest || x == tid || waits[x] - {tid} != {}) ::
      if x in rest || x == tid then waits[x] else waits[x] - {tid}
  }

  lemma ForgottenNone(waits: WaitsFor, tid: Tid)
    ensures Forgetting(waits, tid, waits.Keys) == waits
  {
  }

  lemma ForgetOneMore(waits: WaitsFor, tid: Tid, rest: set<Tid>, x: Tid)
    requires x in rest && rest <= waits.Keys
    ensures var now := Forgetting(waits, tid, rest);
      && x in now && now[x] == waits[x]
      && Forgetting(waits, tid, rest - {x}) ==
         if x == tid then now else if waits[x] - {tid} == {} then now - {x} else now[x := waits[x] - {tid}]
  {
  }

  lemma ForgottenAll(waits: WaitsFor, tid: Tid)
    ensures Forgetting(waits, tid, {}) - {tid} == ForgetWaits(waits, tid)
  {
  }

  /** The write-locked keys among the locks looked at so far. */
  ghost function Dropped(held: map<PageKey, PageLock>, rest: set<PageKey>): set<PageKey> {
    set k | k in held && k !in rest && held[k].perm == WritePerm
  }

  lemma DropOneMore(pages: map<PageKey, Ref>, held: map<PageKey, PageLock>, rest: set<PageKey>, k: PageKey)
    requires k in rest && rest <= held.Keys
    ensures pages - Dropped(held, rest - {k}) ==
            if held[k].perm == WritePerm then pages - Dropped(held, rest) - {k} else pages - Dropped(held, rest)
  {
    assert Dropped(held, rest - {k}) == Dropped(held, rest) + if held[k].perm == WritePerm then {k} else {};
  }

  lemma NothingDropped(pages: map<PageKey, Ref>, held: map<PageKey, PageLock>)
    ensures pages - Dropped(held, held.Keys) == pages
  {
    assert Dropped(held, held.Keys) == {};
  }

  lemma AllDropped(held: map<PageKey, PageLock>)
    ensures Dropped(held, {}) == WriteLocked(held)
  {
  }

  // ---- What each event is, for a state known to allow it ----

  lemma VictimIs(s: State, t: Tid)
    requires t in s.pending && Conflicted(s, t) && Reaches(Polled(s, t), t, t)
    ensures Enabled(s, Victim(t)) && Apply(s, Victim(t)) == ClearStep(s.(waits := Polled(s, t)), t)
  {
    hide ClearStep;
  }

  lemma BlockIs(s: State, t: Tid)
    requires t in s.pending && Conflicted(s, t) && !Reaches(Polled(s, t), t, t)
    ensures Enabled(s, Block(t)) && Apply(s, Block(t)) == s.(waits := Polled(s, t))
  {
  }

  lemma GrantIs(s: State, t: Tid)
    requires t in s.pending && !Conflicted(s, t)
    ensures Enabled(s, Grant(t))
    ensures AddEdges(s.waits, t, Blockers(s.locks, t, s.pending[t])) == s.waits
    ensures Apply(s, Grant(t)) ==
            s.(locks := SaveLock(s.locks, t, s.pending[t]), waits := ForgetWaits(s.waits, t),
               inHand := s.inHand[t := s.pending[t]], pending := s.pending - {t})
  {
  }

  lemma PlayNothing(s: State)
    ensures Play(s, []) == Some(s)
  {
  }

  lemma EvictEvent(s: State, k: PageKey)
    requires Evictable(s, k)
    ensures Enabled(s, Evict(k)) && Apply(s, Evict(k)) == EvictStep(s, k)
  {
    hide Evictable, EvictStep;
  }

  lemma FetchIs(s: State, victim: Option<PageKey>, k: PageKey, r: Ref)
    requires k !in s.pages && k in s.disk && r !in s.objects
    requires if victim.Some? then Evictable(s, victim.value) else |s.pages| < s.numPages
    ensures Enabled(s, Fetch(victim, k, r))
    ensures Apply(s, Fetch(victim, k, r)) == LoadStep(MakeRoom(s, victim), k, r)
  {
    hide Evictable, EvictStep, LoadStep;
  }

  lemma AskIs(s: State, t: Tid, k: PageKey, perm: Perm)
    requires k in s.pages && t !in s.pending
    ensures Enabled(s, Ask(t, k, perm))
    ensures Apply(s, Ask(t, k, perm)) == s.(pending := s.pending[t := Request(k, s.pages[k], perm)])
  {
  }

  lemma CommitIs(s: State, t: Tid)
    requires t !in s.pending
    ensures Enabled(s, Commit(t))
    ensures Apply(s, Commit(t)) ==
            s.(disk := s.disk + DirtyContents(s.objects, Held(s.locks, t)),
               objects := Cleaned(s.objects, FlushedRefs(s.objects, Held(s.locks, t))),
               locks := s.locks - {t}, waits := ForgetWaits(s.waits, t),
               inHand := s.inHand - {t})
  {
    hide DirtyContents, Cleaned, FlushedRefs, ForgetWaits;
  }
}
