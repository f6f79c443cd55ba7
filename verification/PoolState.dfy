/**
  The buffer pool as a step machine.  A state holds the page cache, the lock table,
  the waits-for graph, the disk, the page objects alive in memory and, for each
  transaction, the request it is blocked on and the page it got last.  A run is an
  initial state and a sequence of events; `Apply` is the effect of one event.

  One `GetPage` call is the events `Fetch`?, `Ask`, `Block`*, then `Grant` or `Victim`, or a
  lone `Evict` when the page cannot be read.  Splitting a critical section into several
  events only adds interleavings, so what holds of every run here holds of every run of the
  pool.  Nothing stops a transaction whose locks are gone from asking again under its id.
 */
module PoolState {
  import opened Values

  type Tid = nat

  /** The identity of a page object in memory. */
  type Ref = nat

  /** The rows in the occupied slots of a page, in slot order. */
  type Contents = seq<Row>

  const EmptyPage: Contents := []

  datatype Perm = ReadPerm | WritePerm

  datatype PageKey = PageKey(file: string, pageNo: int)

  datatype Page = Page(file: string, pageNo: int, contents: Contents, dirty: bool) {
    /** The key the file recomputes for this page (`pageKey`). */
    function Key(): PageKey {
      PageKey(file, pageNo)
    }
  }

  datatype PageLock = PageLock(page: Ref, pageNo: int, perm: Perm, key: PageKey)

  /** A `GetPage` call: the key, the page object captured before any waiting, the permission. */
  datatype Request = Request(key: PageKey, page: Ref, perm: Perm)

  type LockTable = map<Tid, map<PageKey, PageLock>>

  type WaitsFor = map<Tid, set<Tid>>

  datatype State = State(
    numPages: nat,
    disk: map<PageKey, Contents>,
    objects: map<Ref, Page>,
    pages: map<PageKey, Ref>,
    locks: LockTable,
    waits: WaitsFor,
    pending: map<Tid, Request>,
    inHand: map<Tid, Request>)

  datatype Event =
    | Evict(cached: PageKey)
    | Fetch(evicted: Option<PageKey>, key: PageKey, ref: Ref)
    | Ask(t: Tid, key: PageKey, perm: Perm)
    | Block(t: Tid)
    | Victim(t: Tid)
    | Grant(t: Tid)
    | Read(t: Tid, key: PageKey, seen: Contents)
    | Write(t: Tid, key: PageKey, seen: Contents, written: Contents)
    | Commit(t: Tid)
    | Abort(t: Tid)
    | Extend(key: PageKey)

  // ---- Conflicts and the waits-for graph ----

  /** Two accesses to a page number clash unless both read; the file name is not compared. */
  predicate Clashes(lock: PageLock, pageNo: int, perm: Perm) {
    lock.pageNo == pageNo && (lock.perm == WritePerm || perm == WritePerm)
  }

  predicate HasClash(held: map<PageKey, PageLock>, pageNo: int, perm: Perm) {
    exists k | k in held :: Clashes(held[k], pageNo, perm)
  }

  /** Whether `u` holds a lock that stands in the way of `t`'s request. */
  predicate Blocks(locks: LockTable, t: Tid, req: Request, u: Tid) {
    u in locks && u != t && HasClash(locks[u], req.key.pageNo, req.perm)
  }

  function Blockers(locks: LockTable, t: Tid, req: Request): set<Tid> {
    set u | u in locks && Blocks(locks, t, req, u)
  }

  function Edges(waits: WaitsFor, t: Tid): set<Tid> {
    if t in waits then waits[t] else {}
  }

  /** `isConflicted` adds an edge to every blocker, and creates no entry when there is none. */
  function AddEdges(waits: WaitsFor, t: Tid, blockers: set<Tid>): WaitsFor {
    if blockers == {} then waits else waits[t := Edges(waits, t) + blockers]
  }

  /** `deleteWaitTidLocks`: drop the edges out of and into `t`, and entries left empty. */
  function ForgetWaits(waits: WaitsFor, t: Tid): WaitsFor {
    map x | x in waits && x != t && waits[x] - {t} != {} :: waits[x] - {t}
  }

  /** A walk along waits-for edges with at least one edge. */
  predicate IsWalk(waits: WaitsFor, p: seq<Tid>) {
    && |p| >= 2
    && forall i | 0 <= i < |p| - 1 :: p[i + 1] in Edges(waits, p[i])
  }

  predicate WalkBetween(waits: WaitsFor, p: seq<Tid>, a: Tid, b: Tid) {
    IsWalk(waits, p) && p[0] == a && p[|p| - 1] == b
  }

  ghost predicate Reaches(waits: WaitsFor, a: Tid, b: Tid) {
    exists p :: WalkBetween(waits, p, a, b)
  }

  // ---- Lock table updates ----

  function Held(locks: LockTable, t: Tid): map<PageKey, PageLock> {
    if t in locks then locks[t] else map[]
  }

  /** `saveMapAndUpgradeLock`: a read never replaces an entry, a write always does. */
  function SaveLock(locks: LockTable, t: Tid, req: Request): LockTable {
    var held := Held(locks, t);
    if req.key !in held || req.perm == WritePerm then
      locks[t := held[req.key := PageLock(req.page, req.key.pageNo, req.perm, req.key)]]
    else
      locks
  }

  /** The keys whose cached page an abort throws away. */
  function WriteLocked(held: map<PageKey, PageLock>): set<PageKey> {
    set k | k in held && held[k].perm == WritePerm
  }

  /** The keys of the locks whose page object is dirty, which a commit flushes. */
  function DirtyKeys(objects: map<Ref, Page>, held: map<PageKey, PageLock>): set<PageKey> {
    set k | k in held && held[k].page in objects && objects[held[k].page].dirty
  }

  function DirtyContents(objects: map<Ref, Page>, held: map<PageKey, PageLock>): map<PageKey, Contents> {
    map k | k in DirtyKeys(objects, held) :: objects[held[k].page].contents
  }

  function FlushedRefs(objects: map<Ref, Page>, held: map<PageKey, PageLock>): set<Ref> {
    set k | k in DirtyKeys(objects, held) :: held[k].page
  }

  function Cleaned(objects: map<Ref, Page>, refs: set<Ref>): map<Ref, Page> {
    map r | r in objects :: if r in refs then objects[r].(dirty := false) else objects[r]
  }

  // ---- Steps ----

  predicate Dirty(s: State, r: Ref) {
    r in s.objects && s.objects[r].dirty
  }

  /** `t` polls its pending request: these are the edges its conflict check records. */
  function Polled(s: State, t: Tid): WaitsFor
    requires t in s.pending
  {
    AddEdges(s.waits, t, Blockers(s.locks, t, s.pending[t]))
  }

  predicate Conflicted(s: State, t: Tid)
    requires t in s.pending
  {
    Blockers(s.locks, t, s.pending[t]) != {}
  }

  /** The pool is full and the page cached under `k` is clean. */
  predicate Evictable(s: State, k: PageKey) {
    k in s.pages && s.pages[k] in s.objects && !Dirty(s, s.pages[k]) && |s.pages| >= s.numPages
  }

  ghost predicate Enabled(s: State, e: Event) {
    match e
    case Evict(k) => Evictable(s, k)
    case Fetch(evicted, k, r) =>
      && k !in s.pages && k in s.disk && r !in s.objects
      && (if evicted.Some? then Evictable(s, evicted.value) else |s.pages| < s.numPages)
    case Ask(t, k, perm) => k in s.pages && t !in s.pending
    case Block(t) => t in s.pending && Conflicted(s, t) && !Reaches(Polled(s, t), t, t)
    case Victim(t) => t in s.pending && Conflicted(s, t) && Reaches(Polled(s, t), t, t)
    case Grant(t) => t in s.pending && !Conflicted(s, t)
    case Read(t, k, seen) => HandShows(s, t, k, seen)
    case Write(t, k, seen, written) => HandShows(s, t, k, seen) && s.inHand[t].perm == WritePerm
    case Commit(t) => t !in s.pending
    case Abort(t) => t !in s.pending
    case Extend(k) => k !in s.disk
  }

  /** The page object `t` got last is the one for `k` and now has contents `seen`. */
  predicate HandShows(s: State, t: Tid, k: PageKey, seen: Contents) {
    && t !in s.pending
    && t in s.inHand && s.inHand[t].key == k
    && s.inHand[t].page in s.objects && s.objects[s.inHand[t].page].contents == seen
  }

  /** Eviction deletes by the key the evicted page recomputes. */
  function EvictStep(s: State, k: PageKey): State
    requires k in s.pages && s.pages[k] in s.objects
  {
    s.(pages := s.pages - {s.objects[s.pages[k]].Key()})
  }

  function LoadStep(s: State, k: PageKey, r: Ref): State
    requires k in s.disk
  {
    s.(objects := s.objects[r := Page(k.file, k.pageNo, s.disk[k], false)], pages := s.pages[k := r])
  }

  function MakeRoom(s: State, evicted: Option<PageKey>): State
    requires evicted.Some? ==> Evictable(s, evicted.value)
  {
    if evicted.Some? then EvictStep(s, evicted.value) else s
  }

  /** A miss: a full pool first evicts, then the page is loaded without looking at the size again. */
  function FetchStep(s: State, evicted: Option<PageKey>, k: PageKey, r: Ref): State
    requires k in s.disk && (evicted.Some? ==> Evictable(s, evicted.value))
  {
    LoadStep(MakeRoom(s, evicted), k, r)
  }

  function AskStep(s: State, t: Tid, k: PageKey, perm: Perm): State
    requires k in s.pages
  {
    s.(pending := s.pending[t := Request(k, s.pages[k], perm)])
  }

  function BlockStep(s: State, t: Tid): State
    requires t in s.pending
  {
    s.(waits := Polled(s, t))
  }

  function GrantStep(s: State, t: Tid): State
    requires t in s.pending
  {
    s.(locks := SaveLock(s.locks, t, s.pending[t]),
       waits := ForgetWaits(s.waits, t),
       inHand := s.inHand[t := s.pending[t]],
       pending := s.pending - {t})
  }

  function WriteStep(s: State, t: Tid, written: Contents): State
    requires t in s.inHand && s.inHand[t].page in s.objects
  {
    var r := s.inHand[t].page;
    s.(objects := s.objects[r := s.objects[r].(contents := written, dirty := true)])
  }

  function CommitStep(s: State, t: Tid): State {
    var held := Held(s.locks, t);
    s.(disk := s.disk + DirtyContents(s.objects, held),
       objects := Cleaned(s.objects, FlushedRefs(s.objects, held)),
       locks := s.locks - {t},
       waits := ForgetWaits(s.waits, t),
       inHand := s.inHand - {t})
  }

  /** `clearMap`: throw away the pages `t` write-locks, then its locks and edges. */
  function ClearStep(s: State, t: Tid): State {
    s.(pages := s.pages - WriteLocked(Held(s.locks, t)),
       locks := s.locks - {t},
       waits := ForgetWaits(s.waits, t),
       pending := s.pending - {t},
       inHand := s.inHand - {t})
  }

  function ExtendStep(s: State, k: PageKey): State {
    s.(disk := s.disk[k := EmptyPage])
  }

  ghost function Apply(s: State, e: Event): State
    requires Enabled(s, e)
  {
    match e
    case Evict(k) => EvictStep(s, k)
    case Fetch(evicted, k, r) => FetchStep(s, evicted, k, r)
    case Ask(t, k, perm) => AskStep(s, t, k, perm)
    case Block(t) => BlockStep(s, t)
    case Victim(t) => ClearStep(BlockStep(s, t), t)
    case Grant(t) => GrantStep(s, t)
    case Read(t, k, seen) => s
    case Write(t, k, seen, written) => WriteStep(s, t, written)
    case Commit(t) => CommitStep(s, t)
    case Abort(t) => ClearStep(s, t)
    case Extend(k) => ExtendStep(s, k)
  }

  /** The events that end a transaction. */
  predicate Ends(e: Event, t: Tid) {
    (e.Commit? || e.Abort? || e.Victim?) && e.t == t
  }

  predicate EndsOne(e: Event) {
    e.Commit? || e.Abort? || e.Victim?
  }

  // ---- What a step does to locks, requests, pages in hand and edges ----

  predicate SameTable(s: State, s': State) {
    s'.locks == s.locks && s'.inHand == s.inHand && s'.pending == s.pending && s'.waits == s.waits
  }

  predicate GrantedTable(s: State, t: Tid, s': State)
    requires t in s.pending
  {
    && s'.locks == SaveLock(s.locks, t, s.pending[t]) && s'.inHand == s.inHand[t := s.pending[t]]
    && s'.pending == s.pending - {t} && s'.waits == ForgetWaits(s.waits, t)
  }

  predicate EndedTable(s: State, t: Tid, waits: WaitsFor, s': State) {
    && s'.locks == s.locks - {t} && s'.inHand == s.inHand - {t}
    && s'.pending == s.pending - {t} && s'.waits == ForgetWaits(waits, t)
  }

  lemma GrantTable(s: State, t: Tid)
    requires t in s.pending
    ensures GrantedTable(s, t, GrantStep(s, t))
  {
    hide SaveLock, ForgetWaits;
  }

  lemma ClearTable(s: State, t: Tid)
    ensures EndedTable(s, t, s.waits, ClearStep(s, t))
  {
    hide ForgetWaits, WriteLocked;
  }

  lemma VictimTable(s: State, t: Tid)
    requires t in s.pending
    ensures EndedTable(s, t, Polled(s, t), ClearStep(BlockStep(s, t), t))
  {
    hide ForgetWaits, WriteLocked, Polled;
  }

  lemma CommitTable(s: State, t: Tid)
    requires t !in s.pending
    ensures EndedTable(s, t, s.waits, CommitStep(s, t))
  {
    hide ForgetWaits, Cleaned, DirtyContents, FlushedRefs;
    assert s.pending == s.pending - {t};
  }

  lemma EvictTable(s: State, k: PageKey)
    requires k in s.pages && s.pages[k] in s.objects
    ensures SameTable(s, EvictStep(s, k))
  {
  }

  lemma FetchTable(s: State, evicted: Option<PageKey>, k: PageKey, r: Ref)
    requires k in s.disk && (evicted.Some? ==> Evictable(s, evicted.value))
    ensures SameTable(s, FetchStep(s, evicted, k, r))
  {
  }

  /** What a step does to the lock table, the requests, the pages in hand and the waits-for graph. */
  lemma TableStep(s: State, e: Event)
    requires Enabled(s, e)
    ensures e.Grant? || e.Block? || e.Victim? ==> e.t in s.pending
    ensures e.Ask? ==> e.key in s.pages && e.t !in s.pending
    ensures e.Commit? || e.Abort? ==> e.t !in s.pending
    ensures var s' := Apply(s, e);
      if e.Grant? then GrantedTable(s, e.t, s')
      else if e.Victim? then EndedTable(s, e.t, Polled(s, e.t), s')
      else if EndsOne(e) then EndedTable(s, e.t, s.waits, s')
      else if e.Ask? then SameTable(s.(pending := s.pending[e.t := Request(e.key, s.pages[e.key], e.perm)]), s')
      else if e.Block? then SameTable(s.(waits := Polled(s, e.t)), s')
      else SameTable(s, s')
  {
    hide GrantStep, ClearStep, CommitStep, EvictStep, FetchStep, Reaches, Blockers, Polled;
    hide GrantedTable, EndedTable, Evictable;
    match e
    case Grant(t) => GrantTable(s, t);
    case Victim(t) => VictimTable(s, t);
    case Abort(t) => ClearTable(s, t);
    case Commit(t) => CommitTable(s, t);
    case Evict(k) => EvictGuard(s, k); EvictTable(s, k);
    case Fetch(evicted, k, r) => FetchTable(s, evicted, k, r);
    case _ =>
  }

  lemma EvictGuard(s: State, k: PageKey)
    requires Evictable(s, k)
    ensures k in s.pages && s.pages[k] in s.objects
  {
  }

  // ---- Runs ----

  /** A freshly created pool over any disk. */
  predicate Init(s: State) {
    && s.objects == map[] && s.pages == map[] && s.locks == map[] && s.waits == map[]
    && s.pending == map[] && s.inHand == map[]
  }

  /** Play the events from `s`; `None` when one of them is not enabled. */
  ghost function Play(s: State, tr: seq<Event>): Option<State> {
    if tr == [] then Some(s) else
    var before := Play(s, tr[..|tr| - 1]);
    if before.Some? && Enabled(before.value, tr[|tr| - 1]) then Some(Apply(before.value, tr[|tr| - 1])) else None
  }

  ghost predicate IsRun(s: State, tr: seq<Event>) {
    Play(s, tr).Some?
  }

  /** The state a run ends in. */
  ghost function After(s: State, tr: seq<Event>): State
    requires IsRun(s, tr)
  {
    Play(s, tr).value
  }

  lemma {:induction false} PrefixIsRun(s: State, tr: seq<Event>, n: nat)
    requires IsRun(s, tr) && n <= |tr|
    ensures IsRun(s, tr[..n])
  {
    if n == |tr| {
      assert tr[..n] == tr;
    } else {
      PrefixIsRun(s, tr[..|tr| - 1], n);
      assert tr[..|tr| - 1][..n] == tr[..n];
    }
  }

  /** The state before the `n`th event. */
  ghost function At(s: State, tr: seq<Event>, n: nat): State
    requires IsRun(s, tr) && n <= |tr|
  {
    PrefixIsRun(s, tr, n);
    After(s, tr[..n])
  }

  lemma StepAt(s: State, tr: seq<Event>, n: nat)
    requires IsRun(s, tr) && n < |tr|
    ensures Enabled(At(s, tr, n), tr[n])
    ensures At(s, tr, n + 1) == Apply(At(s, tr, n), tr[n])
  {
    PrefixIsRun(s, tr, n + 1);
    assert tr[..n + 1][..n] == tr[..n];
  }

  lemma Snoc(s0: State, tr: seq<Event>, e: Event)
    requires IsRun(s0, tr) && Enabled(After(s0, tr), e)
    ensures IsRun(s0, tr + [e]) && After(s0, tr + [e]) == Apply(After(s0, tr), e)
  {
    assert (tr + [e])[..|tr|] == tr;
  }
}
