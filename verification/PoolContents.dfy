/**
  What every step keeps of the cache, the page objects and the disk.  `StructInv` holds in
  every run.  `ContentInv` (NO STEAL and cache agreement) holds in every run in which a
  granted page is fresh and a written page is still cached; both conditions are exact.
 */
module PoolContents {
  import opened Values
  import opened PoolState
  import opened LockInvariants

  // ---- Structure: holds in every run ----

  /** `r` is a live page object for the key `k`. */
  predicate ObjectFor(s: State, r: Ref, k: PageKey) {
    r in s.objects && s.objects[r].Key() == k && k in s.disk
  }

  ghost predicate HeldObjects(s: State, held: map<PageKey, PageLock>) {
    forall k | k in held :: ObjectFor(s, held[k].page, k)
  }

  /** Each cached page recomputes the key it is stored under, and the pool is within its size. */
  ghost predicate CacheOk(s: State) {
    && (forall k | k in s.pages :: ObjectFor(s, s.pages[k], k))
    && |s.pages| <= s.numPages
  }

  ghost predicate StructInv(s: State) {
    && CacheOk(s)
    && (forall t | t in s.locks :: HeldObjects(s, s.locks[t]))
    && (forall t | t in s.pending :: ObjectFor(s, s.pending[t].page, s.pending[t].key))
    && (forall t | t in s.inHand :: ObjectFor(s, s.inHand[t].page, s.inHand[t].key))
  }

  /** Page objects keep their key for ever, and the disk only gains pages. */
  lemma ObjectStays(s: State, e: Event, r: Ref, k: PageKey)
    requires Enabled(s, e) && ObjectFor(s, r, k)
    ensures ObjectFor(Apply(s, e), r, k)
  {
    hide Blockers, Polled, Reaches, GrantStep, ClearStep, CommitStep, FetchStep, Evictable;
    match e
    case Commit(t) => CommitObjectStays(s, t, r, k);
    case Fetch(evicted, l, q) => FetchObjectStays(s, evicted, l, q, r, k);
    case Grant(t) => TableObjectStays(s, t, r, k);
    case Victim(t) => TableObjectStays(s.(waits := Polled(s, t)), t, r, k);
    case Abort(t) => TableObjectStays(s, t, r, k);
    case _ =>
  }

  lemma CommitObjectStays(s: State, t: Tid, r: Ref, k: PageKey)
    requires ObjectFor(s, r, k)
    ensures ObjectFor(CommitStep(s, t), r, k)
  {
    hide ForgetWaits, FlushedRefs, DirtyContents;
  }

  lemma FetchObjectStays(s: State, evicted: Option<PageKey>, l: PageKey, q: Ref, r: Ref, k: PageKey)
    requires ObjectFor(s, r, k) && l in s.disk && q !in s.objects && (evicted.Some? ==> Evictable(s, evicted.value))
    ensures ObjectFor(FetchStep(s, evicted, l, q), r, k)
  {
  }

  lemma TableObjectStays(s: State, t: Tid, r: Ref, k: PageKey)
    requires ObjectFor(s, r, k)
    ensures ObjectFor(ClearStep(s, t), r, k) && (t in s.pending ==> ObjectFor(GrantStep(s, t), r, k))
  {
    hide ForgetWaits, WriteLocked, SaveLock;
  }

  lemma ObjectsStay(s: State, e: Event)
    requires Enabled(s, e)
    ensures forall r, k | ObjectFor(s, r, k) :: ObjectFor(Apply(s, e), r, k)
  {
    hide Apply, Enabled;
    forall r, k | ObjectFor(s, r, k)
      ensures ObjectFor(Apply(s, e), r, k)
    {
      ObjectStays(s, e, r, k);
    }
  }

  // ---- The size of the cache ----

  /** Eviction drops the page under the key it is cached under, since it recomputes that key. */
  lemma EvictDrops(s: State, k: PageKey)
    requires CacheOk(s) && Evictable(s, k)
    ensures EvictStep(s, k).pages == s.pages - {k} && |EvictStep(s, k).pages| == |s.pages| - 1
  {
    assert ObjectFor(s, s.pages[k], k);
    DropSize(s.pages, k);
  }

  lemma DropSize(m: map<PageKey, Ref>, k: PageKey)
    requires k in m
    ensures |m - {k}| == |m| - 1
  {
    assert (m - {k}).Keys == m.Keys - {k};
  }

  lemma PutSize(m: map<PageKey, Ref>, k: PageKey, r: Ref)
    ensures |m[k := r]| <= |m| + 1
  {
    assert m[k := r].Keys == m.Keys + {k};
  }

  /** A miss never grows the pool past its size, although the size is not looked at after the eviction. */
  lemma FetchFits(s: State, evicted: Option<PageKey>, k: PageKey, r: Ref)
    requires CacheOk(s) && Enabled(s, Fetch(evicted, k, r))
    ensures var s' := FetchStep(s, evicted, k, r);
      && s'.numPages == s.numPages && |s'.pages| <= s.numPages
      && s'.pages == (if evicted.Some? then s.pages - {evicted.value} else s.pages)[k := r]
      && ObjectFor(s', r, k)
  {
    hide ObjectFor;
    if evicted.Some? {
      EvictDrops(s, evicted.value);
    }
    PutSize(MakeRoom(s, evicted).pages, k, r);
    NewObject(s, evicted, k, r);
  }

  lemma NewObject(s: State, evicted: Option<PageKey>, k: PageKey, r: Ref)
    requires k in s.disk && (evicted.Some? ==> Evictable(s, evicted.value))
    ensures ObjectFor(FetchStep(s, evicted, k, r), r, k)
  {
  }

  /** A step that is no miss only drops pages from the cache. */
  lemma PagesKept(s: State, e: Event)
    requires Enabled(s, e) && !e.Fetch?
    ensures forall k | k in Apply(s, e).pages :: k in s.pages && Apply(s, e).pages[k] == s.pages[k]
    ensures Apply(s, e).numPages == s.numPages
  {
    hide ForgetWaits, Reaches, SaveLock, Cleaned, DirtyContents, FlushedRefs, Blockers, Polled;
  }

  lemma {:induction false} Subset(a: set<PageKey>, b: set<PageKey>)
    requires a <= b
    ensures |a| <= |b|
  {
    if a != {} {
      var x :| x in a;
      Subset(a - {x}, b - {x});
    }
  }

  lemma CacheStep(s: State, e: Event)
    requires CacheOk(s) && Enabled(s, e)
    ensures CacheOk(Apply(s, e)) && Apply(s, e).numPages == s.numPages
  {
    ObjectsStay(s, e);
    if e.Fetch? {
      FetchFits(s, e.evicted, e.key, e.ref);
      assert Apply(s, e) == FetchStep(s, e.evicted, e.key, e.ref);
      hide Apply, Enabled, FetchStep, ObjectFor, Evictable;
      FetchedCacheOk(s, e.evicted, e.key, e.ref, Apply(s, e));
    } else {
      PagesKept(s, e);
      hide Apply, Enabled, ObjectFor;
      Subset(Apply(s, e).pages.Keys, s.pages.Keys);
    }
  }

  lemma FetchedCacheOk(s: State, evicted: Option<PageKey>, k: PageKey, r: Ref, s': State)
    requires CacheOk(s) && |s'.pages| <= s'.numPages && ObjectFor(s', r, k)
    requires forall q, l | ObjectFor(s, q, l) :: ObjectFor(s', q, l)
    requires s'.pages == (if evicted.Some? then s.pages - {evicted.value} else s.pages)[k := r]
    ensures CacheOk(s')
  {
    hide ObjectFor;
  }

  lemma HeldMono(s: State, s': State, held: map<PageKey, PageLock>)
    requires HeldObjects(s, held) && forall r, k | ObjectFor(s, r, k) :: ObjectFor(s', r, k)
    ensures HeldObjects(s', held)
  {
    hide ObjectFor;
  }

  lemma SavedObjects(s: State, locks: LockTable, t: Tid, req: Request)
    requires HeldObjects(s, Held(locks, t)) && ObjectFor(s, req.page, req.key)
    ensures t in SaveLock(locks, t, req) && HeldObjects(s, SaveLock(locks, t, req)[t])
    ensures forall u | u in SaveLock(locks, t, req) && u != t :: u in locks && SaveLock(locks, t, req)[u] == locks[u]
  {
    hide ObjectFor;
  }

  lemma GrantHeld(s: State, t: Tid, u: Tid)
    requires StructInv(s) && t in s.pending && u in SaveLock(s.locks, t, s.pending[t])
    ensures HeldObjects(s, SaveLock(s.locks, t, s.pending[t])[u])
  {
    hide CacheOk, ObjectFor;
    EmptyHeld(s);
    assert ObjectFor(s, s.pending[t].page, s.pending[t].key);
    SavedObjects(s, s.locks, t, s.pending[t]);
  }

  lemma HeldStep(s: State, e: Event, t: Tid)
    requires StructInv(s) && Enabled(s, e) && t in Apply(s, e).locks
    ensures HeldObjects(Apply(s, e), Apply(s, e).locks[t])
  {
    var s' := Apply(s, e);
    ObjectsStay(s, e);
    TableStep(s, e);
    if e.Grant? {
      hide Apply, StructInv, HeldObjects, ObjectFor, SaveLock, Conflicted;
      GrantHeld(s, e.t, t);
      HeldMono(s, s', s'.locks[t]);
    } else {
      hide Apply, Enabled, CacheOk, HeldObjects, ObjectFor;
      HeldMono(s, s', s'.locks[t]);
    }
  }

  lemma EmptyHeld(s: State)
    ensures HeldObjects(s, map[])
  {
  }

  lemma PendingStep(s: State, e: Event, t: Tid)
    requires StructInv(s) && Enabled(s, e) && t in Apply(s, e).pending
    ensures ObjectFor(Apply(s, e), Apply(s, e).pending[t].page, Apply(s, e).pending[t].key)
  {
    ObjectsStay(s, e);
    TableStep(s, e);
    hide ObjectFor, Apply, SaveLock, Reaches, Blockers, Polled, HeldObjects;
    if e.Ask? && e.t == t {
      assert ObjectFor(s, s.pages[e.key], e.key);
    } else {
      hide Enabled;
      assert ObjectFor(s, s.pending[t].page, s.pending[t].key);
    }
  }

  lemma HandStep(s: State, e: Event, t: Tid)
    requires StructInv(s) && Enabled(s, e) && t in Apply(s, e).inHand
    ensures ObjectFor(Apply(s, e), Apply(s, e).inHand[t].page, Apply(s, e).inHand[t].key)
  {
    ObjectsStay(s, e);
    TableStep(s, e);
    hide ObjectFor, Apply, SaveLock, Reaches, Blockers, Polled, HeldObjects;
    if e.Grant? && e.t == t {
      assert ObjectFor(s, s.pending[t].page, s.pending[t].key);
    } else {
      hide Enabled;
      assert ObjectFor(s, s.inHand[t].page, s.inHand[t].key);
    }
  }

  lemma StructStep(s: State, e: Event)
    requires StructInv(s) && Enabled(s, e)
    ensures StructInv(Apply(s, e))
  {
    hide Apply, Enabled, CacheOk, HeldObjects, ObjectFor;
    CacheStep(s, e);
    var s' := Apply(s, e);
    forall t | t in s'.locks
      ensures HeldObjects(s', s'.locks[t])
    {
      HeldStep(s, e, t);
    }
    forall t | t in s'.pending
      ensures ObjectFor(s', s'.pending[t].page, s'.pending[t].key)
    {
      PendingStep(s, e, t);
    }
    forall t | t in s'.inHand
      ensures ObjectFor(s', s'.inHand[t].page, s'.inHand[t].key)
    {
      HandStep(s, e, t);
    }
  }

  lemma SizeOf(s: State)
    requires StructInv(s)
    ensures |s.pages| <= s.numPages
  {
  }

  /** The pool never holds more than `numPages` pages, in any reachable state. */
  lemma {:induction false} CapacityRespected(s0: State, tr: seq<Event>)
    requires Init(s0) && IsRun(s0, tr)
    ensures StructInv(After(s0, tr))
    ensures |After(s0, tr).pages| <= s0.numPages
    ensures After(s0, tr).numPages == s0.numPages
  {
    if tr != [] {
      hide Apply, Enabled, CacheOk, HeldObjects, ObjectFor;
      var front, e := tr[..|tr| - 1], tr[|tr| - 1];
      CapacityRespected(s0, front);
      StructStep(After(s0, front), e);
      CacheStep(After(s0, front), e);
    }
    SizeOf(After(s0, tr));
  }

  // ---- Contents ----

  predicate Caches(s: State, k: PageKey, r: Ref) {
    k in s.pages && s.pages[k] == r
  }

  /** `t` write-locks `k` through the object cached there. */
  predicate Writer(s: State, t: Tid, k: PageKey) {
    && t in s.locks && k in s.locks[t]
    && s.locks[t][k].perm == WritePerm && Caches(s, k, s.locks[t][k].page)
  }

  /** `r` is clean and shows what the disk holds for `k`. */
  predicate ShowsDisk(s: State, r: Ref, k: PageKey) {
    r in s.objects && !s.objects[r].dirty && k in s.disk && s.objects[r].contents == s.disk[k]
  }

  /** A cached page shows the disk, or it is dirty and some transaction write-locks that object. */
  ghost predicate CachedOk(s: State, k: PageKey)
    requires k in s.pages
  {
    ShowsDisk(s, s.pages[k], k) || (Dirty(s, s.pages[k]) && exists t :: Writer(s, t, k))
  }

  /** NO STEAL: a dirty page object named by a lock is write-locked and in the cache. */
  predicate LockOk(s: State, t: Tid, k: PageKey)
    requires t in s.locks && k in s.locks[t]
  {
    Dirty(s, s.locks[t][k].page) ==> Writer(s, t, k)
  }

  /** A page in hand is the transaction's own dirty page, or shows the disk and it has no dirty one. */
  predicate HandOk(s: State, t: Tid)
    requires t in s.inHand && t in s.locks && s.inHand[t].key in s.locks[t]
  {
    var h := s.inHand[t];
    if Dirty(s, h.page) then Caches(s, h.key, h.page)
    else ShowsDisk(s, h.page, h.key) && !Dirty(s, s.locks[t][h.key].page)
  }

  ghost predicate ContentInv(s: State)
    requires LockInv(s)
  {
    && (forall k | k in s.pages :: CachedOk(s, k))
    && (forall t, k | t in s.locks && k in s.locks[t] :: LockOk(s, t, k))
    && (forall t | t in s.inHand :: HandOk(s, t))
  }

  ghost predicate Inv(s: State) {
    LockInv(s) && StructInv(s) && ContentInv(s)
  }

  /**
    The granted object is the one cached under its key, or at least a clean copy of the disk
    while no dirty page is cached there.
   */
  predicate FreshGrant(s: State, t: Tid)
    requires t in s.pending
  {
    var req := s.pending[t];
    || Caches(s, req.key, req.page)
    || (ShowsDisk(s, req.page, req.key) && !(req.key in s.pages && Dirty(s, s.pages[req.key])))
  }

  /** `t` has a pending request that nothing stands in the way of. */
  predicate Unblocked(s: State, t: Tid) {
    t in s.pending && !Conflicted(s, t)
  }

  /** The page in hand is still the cached one. */
  predicate HandCached(s: State, t: Tid)
    requires t in s.inHand
  {
    Caches(s, s.inHand[t].key, s.inHand[t].page)
  }

  predicate Coherent(s: State, e: Event) {
    && (e.Grant? ==> e.t in s.pending && FreshGrant(s, e.t))
    && (e.Write? ==> e.t in s.inHand && HandCached(s, e.t))
  }

  /** If `t` holds a lock on `k`, a write lock on `k` can only be its own. */
  lemma SoleWriter(s: State, t: Tid, u: Tid, k: PageKey)
    requires LockInv(s)
    requires t in s.locks && k in s.locks[t]
    requires u in s.locks && k in s.locks[u] && s.locks[u][k].perm == WritePerm
    ensures t == u
  {
    assert t != u ==> Compatible(s.locks[t], s.locks[u]);
  }

  /** A dirty cached page is the one write-locked by the only transaction that locks its key. */
  lemma DirtyIsOwn(s: State, t: Tid, k: PageKey)
    requires Inv(s) && t in s.locks && k in s.locks[t] && k in s.pages && Dirty(s, s.pages[k])
    ensures Writer(s, t, k)
  {
    assert CachedOk(s, k);
    var u :| Writer(s, u, k);
    SoleWriter(s, t, u, k);
  }

  lemma CachedAt(s: State, k: PageKey)
    requires Inv(s) && k in s.pages
    ensures CachedOk(s, k) && ObjectFor(s, s.pages[k], k)
  {
    hide LockInv, HeldObjects, CachedOk, ObjectFor, LockOk, HandOk;
  }

  lemma LockAt(s: State, t: Tid, k: PageKey)
    requires Inv(s) && t in s.locks && k in s.locks[t]
    ensures LockOk(s, t, k) && ObjectFor(s, s.locks[t][k].page, k)
  {
    hide LockInv, CacheOk, CachedOk, ObjectFor, LockOk, HandOk;
    assert HeldObjects(s, s.locks[t]);
  }

  lemma HandCovered(s: State, t: Tid)
    requires LockInv(s) && t in s.inHand
    ensures t in s.locks && Covered(s.inHand[t], s.locks[t]) && s.inHand[t].key in s.locks[t]
  {
    hide TableOk;
  }

  lemma HandAt(s: State, t: Tid)
    requires Inv(s) && t in s.inHand
    ensures t in s.locks && Covered(s.inHand[t], s.locks[t]) && s.inHand[t].key in s.locks[t]
    ensures HandOk(s, t) && ObjectFor(s, s.inHand[t].page, s.inHand[t].key)
  {
    HandCovered(s, t);
    hide LockInv, CacheOk, HeldObjects, CachedOk, ObjectFor, LockOk, HandOk;
  }

  lemma PendingAt(s: State, t: Tid)
    requires Inv(s) && t in s.pending
    ensures ObjectFor(s, s.pending[t].page, s.pending[t].key)
  {
    hide LockInv, ContentInv, CacheOk, HeldObjects, ObjectFor;
  }

  lemma InvLocks(s: State)
    requires Inv(s)
    ensures LockInv(s) && StructInv(s) && CacheOk(s)
  {
    hide LockInv, ContentInv, CacheOk;
  }

  /** Whoever has a page in hand has it locked. */
  ghost predicate HandsLocked(s: State) {
    forall t | t in s.inHand :: t in s.locks && s.inHand[t].key in s.locks[t]
  }

  lemma LockedHands(s: State)
    requires LockInv(s)
    ensures HandsLocked(s)
  {
    hide LockInv;
    forall t | t in s.inHand
      ensures t in s.locks && s.inHand[t].key in s.locks[t]
    {
      HandCovered(s, t);
    }
  }

  // ---- Preservation ----

  lemma EvictKeeps(s: State, k: PageKey)
    requires Inv(s) && Evictable(s, k) && LockInv(EvictStep(s, k))
    ensures ContentInv(EvictStep(s, k))
  {
    hide Inv, LockInv, EvictStep, Evictable, CacheOk, ObjectFor;
    EvictGuard(s, k);
    var s' := EvictStep(s, k);
    InvLocks(s);
    EvictDrops(s, k);
    EvictFields(s, k);
    LockedHands(s');
    forall l | l in s'.pages
      ensures CachedOk(s', l)
    {
      CachedAt(s, l);
      if t :| Writer(s, t, l) {
        assert Writer(s', t, l);
      }
    }
    forall t, l | t in s'.locks && l in s'.locks[t]
      ensures LockOk(s', t, l)
    {
      LockAt(s, t, l);
      EvictSparesDirty(s, k, s.locks[t][l].page, l, s');
    }
    forall t | t in s'.inHand
      ensures HandOk(s', t)
    {
      HandAt(s, t);
      EvictSparesDirty(s, k, s.inHand[t].page, s.inHand[t].key, s');
    }
  }

  /** A dirty page object that is cached stays cached. */
  lemma EvictSparesDirty(s: State, k: PageKey, r: Ref, l: PageKey, s': State)
    requires Evictable(s, k) && s'.pages == s.pages - {k} && s'.objects == s.objects
    ensures Dirty(s, r) && Caches(s, l, r) ==> Caches(s', l, r)
  {
  }

  /** `s'` is `s` with a fresh object `r` showing the disk cached under `k`. */
  ghost predicate Loaded(s: State, k: PageKey, r: Ref, s': State) {
    && k !in s.pages && s'.pages == s.pages[k := r] && s'.disk == s.disk && s'.locks == s.locks && s'.inHand == s.inHand
    && (forall q | q in s.objects :: q in s'.objects && s'.objects[q] == s.objects[q])
    && ShowsDisk(s', r, k)
  }

  lemma LoadIsLoaded(s: State, k: PageKey, r: Ref)
    requires k !in s.pages && k in s.disk && r !in s.objects
    ensures Loaded(s, k, r, LoadStep(s, k, r))
  {
  }

  /** Making room keeps the store invariant, and so does the load that follows. */
  lemma FetchKeeps(s: State, evicted: Option<PageKey>, k: PageKey, r: Ref)
    requires Inv(s) && Enabled(s, Fetch(evicted, k, r)) && LockInv(FetchStep(s, evicted, k, r))
    ensures ContentInv(FetchStep(s, evicted, k, r))
  {
    hide LockInv, StructInv, ContentInv, Loaded, LoadStep, EvictStep, Evictable;
    var room := MakeRoom(s, evicted);
    RoomFields(s, evicted);
    if evicted.Some? {
      EvictKeepsInv(s, evicted.value);
    }
    LoadIsLoaded(room, k, r);
    LoadKeeps(room, k, r, LoadStep(room, k, r));
  }

  lemma RoomFields(s: State, evicted: Option<PageKey>)
    requires evicted.Some? ==> Evictable(s, evicted.value)
    ensures var room := MakeRoom(s, evicted);
      && room.disk == s.disk && room.objects == s.objects && room.locks == s.locks && room.inHand == s.inHand
      && room.pages.Keys <= s.pages.Keys
  {
  }

  lemma EvictFields(s: State, k: PageKey)
    requires k in s.pages && s.pages[k] in s.objects
    ensures var s' := EvictStep(s, k);
      s'.disk == s.disk && s'.objects == s.objects && s'.locks == s.locks && s'.inHand == s.inHand
  {
  }

  lemma EvictKeepsInv(s: State, k: PageKey)
    requires Inv(s) && Evictable(s, k)
    ensures Inv(EvictStep(s, k))
  {
    hide LockInv, StructInv, ContentInv, EvictStep, Evictable;
    StepKeepsLocks(s, Evict(k));
    StructStep(s, Evict(k));
    EvictKeeps(s, k);
  }

  lemma LoadKeeps(s: State, k: PageKey, r: Ref, s': State)
    requires Inv(s) && Loaded(s, k, r, s') && LockInv(s')
    ensures ContentInv(s')
  {
    hide Inv, LockInv;
    LockedHands(s');
    forall l | l in s'.pages
      ensures CachedOk(s', l)
    {
      if l != k {
        CachedAt(s, l);
        if t :| Writer(s, t, l) {
          assert Writer(s', t, l);
        }
      }
    }
    forall t, l | t in s'.locks && l in s'.locks[t]
      ensures LockOk(s', t, l)
    {
      LockAt(s, t, l);
    }
    forall t | t in s'.inHand
      ensures HandOk(s', t)
    {
      HandAt(s, t);
      LockAt(s, t, s.inHand[t].key);
    }
  }

  /** Steps that leave locks, cache, objects and pages in hand alone, and only add to the disk. */
  lemma IdleKeeps(s: State, s': State)
    requires Inv(s) && LockInv(s')
    requires s'.pages == s.pages && s'.objects == s.objects && s'.locks == s.locks && s'.inHand == s.inHand
    requires forall k | k in s.disk :: k in s'.disk && s'.disk[k] == s.disk[k]
    ensures ContentInv(s')
  {
    forall l | l in s'.pages
      ensures CachedOk(s', l)
    {
      assert CachedOk(s, l);
      if t :| Writer(s, t, l) {
        assert Writer(s', t, l);
      }
    }
    forall t, l | t in s'.locks && l in s'.locks[t]
      ensures LockOk(s', t, l)
    {
      assert LockOk(s, t, l);
    }
    forall t | t in s'.inHand
      ensures HandOk(s', t)
    {
      assert HandOk(s, t);
    }
  }

  /** `s'` is `s` after throwing away `t` and the pages it write-locks. */
  ghost predicate Cleared(s: State, t: Tid, s': State) {
    && s'.disk == s.disk && s'.objects == s.objects && s'.inHand == s.inHand - {t} && s'.locks == s.locks - {t}
    && s'.pages == s.pages - WriteLocked(Held(s.locks, t))
  }

  lemma ClearCached(s: State, t: Tid, s': State, l: PageKey)
    requires Inv(s) && Cleared(s, t, s') && l in s'.pages
    ensures CachedOk(s', l)
  {
    assert CachedOk(s, l);
    if u :| Writer(s, u, l) {
      assert u != t;
      assert Writer(s', u, l);
    }
  }

  lemma ClearSpares(s: State, t: Tid, s': State, u: Tid, l: PageKey)
    requires Inv(s) && Cleared(s, t, s') && u in s'.locks && l in s'.locks[u]
    ensures l in s.pages ==> l in s'.pages && s'.pages[l] == s.pages[l]
  {
    if l in WriteLocked(Held(s.locks, t)) {
      SoleWriter(s, u, t, l);
    }
  }

  lemma ClearLock(s: State, t: Tid, s': State, u: Tid, l: PageKey)
    requires Inv(s) && Cleared(s, t, s') && u in s'.locks && l in s'.locks[u]
    ensures LockOk(s', u, l)
  {
    assert LockOk(s, u, l);
    ClearSpares(s, t, s', u, l);
  }

  lemma ClearHand(s: State, t: Tid, s': State, u: Tid)
    requires Inv(s) && LockInv(s') && Cleared(s, t, s') && u in s'.inHand
    ensures HandOk(s', u)
  {
    assert HandOk(s, u);
    ClearSpares(s, t, s', u, s.inHand[u].key);
  }

  lemma ClearKeeps(s: State, t: Tid, s': State)
    requires Inv(s) && LockInv(s') && Cleared(s, t, s')
    ensures ContentInv(s')
  {
    hide Inv, LockInv, CachedOk, LockOk, HandOk, Cleared;
    LockedHands(s');
    forall l | l in s'.pages
      ensures CachedOk(s', l)
    {
      ClearCached(s, t, s', l);
    }
    forall u, l | u in s'.locks && l in s'.locks[u]
      ensures LockOk(s', u, l)
    {
      ClearLock(s, t, s', u, l);
    }
    forall u | u in s'.inHand
      ensures HandOk(s', u)
    {
      ClearHand(s, t, s', u);
    }
  }

  /** The objects a commit flushes are those of the keys it has dirty pages for. */
  lemma FlushedByKey(s: State, t: Tid, r: Ref, k: PageKey)
    requires StructInv(s) && ObjectFor(s, r, k) && r in FlushedRefs(s.objects, Held(s.locks, t))
    ensures k in DirtyKeys(s.objects, Held(s.locks, t))
  {
    var held := Held(s.locks, t);
    var l :| l in DirtyKeys(s.objects, held) && held[l].page == r;
    assert HeldObjects(s, s.locks[t]) && ObjectFor(s, held[l].page, l);
  }

  /** A commit leaves alone the keys other transactions lock. */
  lemma CommitSpares(s: State, t: Tid, u: Tid, r: Ref, k: PageKey)
    requires Inv(s) && ObjectFor(s, r, k) && t != u && u in s.locks && k in s.locks[u]
    ensures r !in FlushedRefs(s.objects, Held(s.locks, t)) && k !in DirtyKeys(s.objects, Held(s.locks, t))
  {
    if r in FlushedRefs(s.objects, Held(s.locks, t)) {
      FlushedByKey(s, t, r, k);
    }
    if k in DirtyKeys(s.objects, Held(s.locks, t)) {
      SoleWriter(s, u, t, k);
    }
  }

  /** What a commit of `t` does to the store: flush the dirty pages it locks, and drop its locks. */
  ghost predicate Flushed(s: State, t: Tid, s': State) {
    var held := Held(s.locks, t);
    && s'.pages == s.pages && s'.locks == s.locks - {t} && s'.inHand == s.inHand - {t}
    && (forall r | r in s.objects :: r in s'.objects &&
          s'.objects[r] == if r in FlushedRefs(s.objects, held) then s.objects[r].(dirty := false) else s.objects[r])
    && (forall r | Dirty(s', r) :: Dirty(s, r))
    && (forall k | k in s.disk && k !in DirtyKeys(s.objects, held) :: k in s'.disk && s'.disk[k] == s.disk[k])
    && (forall k | k in DirtyKeys(s.objects, held) :: k in s'.disk && s'.disk[k] == s.objects[held[k].page].contents)
  }

  lemma CommitIsFlushed(s: State, t: Tid)
    ensures Flushed(s, t, CommitStep(s, t))
  {
    hide ForgetWaits;
  }

  lemma CommitCached(s: State, t: Tid, s': State, l: PageKey)
    requires Inv(s) && Flushed(s, t, s') && l in s.pages
    ensures CachedOk(s', l)
  {
    hide Inv, LockInv, StructInv, CacheOk;
    var held := Held(s.locks, t);
    CachedAt(s, l);
    InvLocks(s);
    if l in DirtyKeys(s.objects, held) {
      LockAt(s, t, l);
      assert s.pages[l] == held[l].page;
      assert s.pages[l] in FlushedRefs(s.objects, held);
    } else {
      if s.pages[l] in FlushedRefs(s.objects, held) {
        FlushedByKey(s, t, s.pages[l], l);
      }
      if u :| Writer(s, u, l) {
        if Dirty(s, s.pages[l]) {
          assert u != t;
          assert Writer(s', u, l);
        }
      }
    }
  }

  lemma HandFrame(s: State, s': State, u: Tid)
    requires u in s.inHand && u in s.locks && s.inHand[u].key in s.locks[u] && HandOk(s, u)
    requires u in s'.inHand && u in s'.locks && s'.inHand[u] == s.inHand[u] && s'.locks[u] == s.locks[u]
    requires s'.pages == s.pages && forall r | Dirty(s', r) :: Dirty(s, r)
    requires var r := s.inHand[u].page; r in s.objects ==> r in s'.objects && s'.objects[r] == s.objects[r]
    requires var k := s.inHand[u].key; k in s.disk ==> k in s'.disk && s'.disk[k] == s.disk[k]
    ensures HandOk(s', u)
  {
  }

  lemma CommitHand(s: State, t: Tid, s': State, u: Tid)
    requires Inv(s) && Flushed(s, t, s') && u in s'.inHand && LockInv(s')
    ensures HandOk(s', u)
  {
    hide Inv, LockInv;
    HandAt(s, u);
    HandCovered(s', u);
    CommitSpares(s, t, u, s.inHand[u].page, s.inHand[u].key);
    HandFrame(s, s', u);
  }

  lemma CommitLock(s: State, t: Tid, s': State, u: Tid, l: PageKey)
    requires Inv(s) && Flushed(s, t, s') && u in s'.locks && l in s'.locks[u]
    ensures LockOk(s', u, l)
  {
    hide Inv;
    LockAt(s, u, l);
  }

  lemma CommitKeeps(s: State, t: Tid, s': State)
    requires Inv(s) && Flushed(s, t, s') && LockInv(s')
    ensures ContentInv(s')
  {
    hide Inv, LockInv, CachedOk, LockOk, HandOk;
    LockedHands(s');
    assert s'.pages == s.pages;
    forall l | l in s'.pages
      ensures CachedOk(s', l)
    {
      CommitCached(s, t, s', l);
    }
    forall u, l | u in s'.locks && l in s'.locks[u]
      ensures LockOk(s', u, l)
    {
      CommitLock(s, t, s', u, l);
    }
    forall u | u in s'.inHand
      ensures HandOk(s', u)
    {
      CommitHand(s, t, s', u);
    }
  }

  /** `s'` is `s` after `t` writes the cached page it has in hand, object `r` of key `k`. */
  ghost predicate Written(s: State, t: Tid, k: PageKey, r: Ref, s': State) {
    && t in s.inHand && s.inHand[t] == Request(k, r, WritePerm) && Caches(s, k, r)
    && r in s.objects && r in s'.objects && s'.objects[r].dirty && s'.objects == s.objects[r := s'.objects[r]]
    && s'.disk == s.disk && s'.pages == s.pages && s'.locks == s.locks && s'.inHand == s.inHand
  }

  lemma WriteCached(s: State, t: Tid, k: PageKey, r: Ref, s': State, l: PageKey)
    requires Inv(s) && Written(s, t, k, r, s') && l in s'.pages
    ensures CachedOk(s', l)
  {
    hide Inv;
    HandAt(s, t);
    CachedAt(s, l);
    assert Writer(s', t, k);
    if l != k {
      if u :| Writer(s, u, l) {
        assert Writer(s', u, l);
      }
    }
  }

  lemma WriteLock(s: State, t: Tid, k: PageKey, r: Ref, s': State, u: Tid, l: PageKey)
    requires Inv(s) && Written(s, t, k, r, s') && u in s'.locks && l in s'.locks[u]
    ensures LockOk(s', u, l)
  {
    hide Inv, LockInv, StructInv, CacheOk;
    HandAt(s, t);
    LockAt(s, u, l);
    InvLocks(s);
    if s.locks[u][l].page == r {
      SoleWriter(s, u, t, k);
    }
  }

  lemma WriteHand(s: State, t: Tid, k: PageKey, r: Ref, s': State, u: Tid)
    requires Inv(s) && LockInv(s') && Written(s, t, k, r, s') && u in s'.inHand
    ensures HandOk(s', u)
  {
    hide Inv, LockInv, StructInv, CacheOk;
    HandAt(s, t);
    HandAt(s, u);
    LockAt(s, u, s.inHand[u].key);
    HandCovered(s', u);
    InvLocks(s);
    if s.inHand[u].key == k {
      SoleWriter(s, u, t, k);
    }
  }

  lemma WriteKeeps(s: State, t: Tid, k: PageKey, r: Ref, s': State)
    requires Inv(s) && LockInv(s') && Written(s, t, k, r, s')
    ensures ContentInv(s')
  {
    hide Inv, LockInv, CachedOk, LockOk, HandOk, Written;
    LockedHands(s');
    forall l | l in s'.pages
      ensures CachedOk(s', l)
    {
      WriteCached(s, t, k, r, s', l);
    }
    forall u, l | u in s'.locks && l in s'.locks[u]
      ensures LockOk(s', u, l)
    {
      WriteLock(s, t, k, r, s', u, l);
    }
    forall u | u in s'.inHand
      ensures HandOk(s', u)
    {
      WriteHand(s, t, k, r, s', u);
    }
  }

  /** What a grant to `t` does to the store: nothing but the lock entry and the page in hand. */
  ghost predicate Granted(s: State, t: Tid, s': State) {
    && t in s.pending
    && s'.pages == s.pages && s'.objects == s.objects && s'.disk == s.disk
    && s'.locks == SaveLock(s.locks, t, s.pending[t]) && s'.inHand == s.inHand[t := s.pending[t]]
  }

  lemma GrantCached(s: State, t: Tid, s': State, l: PageKey)
    requires Inv(s) && Unblocked(s, t) && FreshGrant(s, t) && Granted(s, t, s') && l in s'.pages
    ensures CachedOk(s', l)
  {
    hide Inv, FreshGrant, Unblocked, ObjectFor;
    CachedAt(s, l);
    GrantOwn(s, t);
    if Dirty(s, s.pages[l]) {
      var u :| Writer(s, u, l);
      assert Writer(s', u, l);
    }
  }

  lemma GrantLock(s: State, t: Tid, s': State, u: Tid, l: PageKey)
    requires Inv(s) && Unblocked(s, t) && FreshGrant(s, t) && Granted(s, t, s')
    requires u in s'.locks && l in s'.locks[u]
    ensures LockOk(s', u, l)
  {
    hide Inv, Unblocked, FreshGrant;
    if u == t && l == s.pending[t].key {
      GrantOwnLock(s, t, s');
    } else {
      LockAt(s, u, l);
      GrantOwn(s, t);
    }
  }

  lemma GrantOwnLock(s: State, t: Tid, s': State)
    requires Inv(s) && Unblocked(s, t) && FreshGrant(s, t) && Granted(s, t, s')
    ensures LockOk(s', t, s.pending[t].key)
  {
    hide Inv, Unblocked, FreshGrant;
    var req := s.pending[t];
    GrantOwn(s, t);
    if req.key in Held(s.locks, t) {
      LockAt(s, t, req.key);
    }
    assert s'.pages == s.pages && s'.objects == s.objects;
    if Dirty(s', s'.locks[t][req.key].page) {
      assert s'.locks[t][req.key].page == req.page;
    }
  }

  lemma GrantHand(s: State, t: Tid, s': State, u: Tid)
    requires Inv(s) && Unblocked(s, t) && FreshGrant(s, t) && Granted(s, t, s') && LockInv(s')
    requires u in s'.inHand
    ensures HandOk(s', u)
  {
    hide Inv, LockInv, Unblocked, FreshGrant;
    HandCovered(s', u);
    GrantOwn(s, t);
    if u != t {
      HandAt(s, u);
    }
  }

  lemma GrantKeeps(s: State, t: Tid, s': State)
    requires Inv(s) && Unblocked(s, t) && FreshGrant(s, t) && Granted(s, t, s') && LockInv(s')
    ensures ContentInv(s')
  {
    hide Inv, LockInv, CachedOk, LockOk, HandOk, FreshGrant, Unblocked, Granted;
    LockedHands(s');
    forall l | l in s'.pages
      ensures CachedOk(s', l)
    {
      GrantCached(s, t, s', l);
    }
    forall u, l | u in s'.locks && l in s'.locks[u]
      ensures LockOk(s', u, l)
    {
      GrantLock(s, t, s', u, l);
    }
    forall u | u in s'.inHand
      ensures HandOk(s', u)
    {
      GrantHand(s, t, s', u);
    }
  }

  /**
    At a fresh grant the object is dirty exactly when it is the transaction's own dirty page,
    and then its lock entry already names it.
   */
  lemma GrantOwn(s: State, t: Tid)
    requires Inv(s) && Unblocked(s, t) && FreshGrant(s, t)
    ensures var req := s.pending[t];
      && (Dirty(s, req.page) ==> Writer(s, t, req.key) && s.locks[t][req.key].page == req.page)
      && (!Dirty(s, req.page) ==> ShowsDisk(s, req.page, req.key))
      && (req.key in Held(s.locks, t) && Dirty(s, s.locks[t][req.key].page) ==> s.locks[t][req.key].page == req.page)
  {
    var req := s.pending[t];
    assert ObjectFor(s, req.page, req.key);
    if Caches(s, req.key, req.page) {
      assert CachedOk(s, req.key);
      if Dirty(s, req.page) {
        var u :| Writer(s, u, req.key);
        assert Filed(s.locks[u]) && Clashes(s.locks[u][req.key], req.key.pageNo, req.perm);
        assert u == t || u in Blockers(s.locks, t, req);
      }
    }
    if req.key in Held(s.locks, t) {
      assert LockOk(s, t, req.key);
    }
  }

  lemma WriteIsWritten(s: State, e: Event)
    requires e.Write? && Enabled(s, e) && HandCached(s, e.t)
    ensures Written(s, e.t, e.key, s.inHand[e.t].page, Apply(s, e))
  {
  }

  lemma ClearIsCleared(s: State, t: Tid)
    requires t in s.pending
    ensures Cleared(s, t, ClearStep(s, t)) && Cleared(s, t, ClearStep(BlockStep(s, t), t))
  {
  }

  lemma AbortIsCleared(s: State, t: Tid)
    ensures Cleared(s, t, ClearStep(s, t))
  {
  }

  lemma GrantIsGranted(s: State, t: Tid)
    requires Enabled(s, Grant(t))
    ensures Unblocked(s, t) && Granted(s, t, GrantStep(s, t))
  {
    hide ForgetWaits;
  }

  lemma VictimPending(s: State, t: Tid)
    requires Enabled(s, Victim(t))
    ensures t in s.pending
  {
  }

  /** Every coherent step keeps the store invariant. */
  lemma StepKeepsContents(s: State, e: Event)
    requires Inv(s) && Enabled(s, e) && Coherent(s, e)
    ensures Inv(Apply(s, e))
  {
    hide LockInv, StructInv, ContentInv, Cleared, Written, Flushed, Granted, Unblocked, FreshGrant, HandCached;
    hide GrantStep, CommitStep, ClearStep, WriteStep, EvictStep, FetchStep, AskStep, BlockStep, ExtendStep, Evictable, HandShows;
    StepKeepsLocks(s, e);
    StructStep(s, e);
    var s' := Apply(s, e);
    match e
    case Evict(k) => EvictIs(s, k); EvictKeeps(s, k);
    case Fetch(evicted, k, r) => FetchKeeps(s, evicted, k, r);
    case Grant(t) =>
      GrantIsGranted(s, t);
      GrantKeeps(s, t, s');
    case Write(t, _, _, _) =>
      WriteIsWritten(s, e);
      WriteKeeps(s, t, e.key, s.inHand[t].page, Apply(s, e));
    case Commit(t) =>
      CommitIsFlushed(s, t);
      CommitKeeps(s, t, s');
    case Victim(t) =>
      assert t in s.pending by { VictimPending(s, t); }
      ClearIsCleared(s, t);
      ClearKeeps(s, t, Apply(s, e));
    case Abort(t) =>
      AbortIsCleared(s, t);
      ClearKeeps(s, t, Apply(s, e));
    case _ =>
      IdleFields(s, e);
      IdleKeeps(s, Apply(s, e));
  }

  lemma EvictIs(s: State, k: PageKey)
    requires Enabled(s, Evict(k))
    ensures Evictable(s, k)
  {
  }

  lemma IdleFields(s: State, e: Event)
    requires Enabled(s, e) && (e.Ask? || e.Block? || e.Read? || e.Extend?)
    ensures var s' := Apply(s, e);
      && s'.pages == s.pages && s'.objects == s.objects && s'.locks == s.locks && s'.inHand == s.inHand
      && forall k | k in s.disk :: k in s'.disk && s'.disk[k] == s.disk[k]
  {
    hide Polled, Reaches;
  }
}
