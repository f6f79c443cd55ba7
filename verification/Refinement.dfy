/**
  The pool refines "one committed store plus a private workspace per transaction", and every
  run is equivalent to running its committed transactions one after another in commit order.
 */
module Refinement {
  import opened Values
  import opened PoolState
  import opened LockInvariants
  import opened PoolContents
  import opened Serializability

  type Store = map<PageKey, Contents>

  /** The abstract database. */
  datatype Spec = Spec(committed: Store, work: map<Tid, Store>) {
    function Work(t: Tid): Store {
      if t in work then work[t] else map[]
    }

    /** What `t` must see on `k`: its own uncommitted contents if it wrote the page, else the committed ones. */
    predicate Shows(t: Tid, k: PageKey, v: Contents) {
      if k in Work(t) then Work(t)[k] == v else k in committed && committed[k] == v
    }
  }

  /** No workspace but that of `t` changes. */
  ghost predicate OthersSame(a: Spec, b: Spec, t: Tid) {
    forall u | u != t :: b.Work(u) == a.Work(u)
  }

  ghost predicate SameSpec(a: Spec, b: Spec) {
    b.committed == a.committed && forall u :: b.Work(u) == a.Work(u)
  }

  ghost predicate SpecStep(a: Spec, e: Event, b: Spec) {
    match e
    case Read(t, k, seen) => a.Shows(t, k, seen) && SameSpec(a, b)
    case Write(t, k, seen, written) =>
      && a.Shows(t, k, seen)
      && b.committed == a.committed && b.Work(t) == a.Work(t)[k := written] && OthersSame(a, b, t)
    case Commit(t) =>
      b.committed == a.committed + a.Work(t) && b.Work(t) == map[] && OthersSame(a, b, t)
    case Abort(t) => b.committed == a.committed && b.Work(t) == map[] && OthersSame(a, b, t)
    case Victim(t) => b.committed == a.committed && b.Work(t) == map[] && OthersSame(a, b, t)
    case Extend(k) =>
      k !in a.committed && b.committed == a.committed[k := EmptyPage] && forall u :: b.Work(u) == a.Work(u)
    case _ => SameSpec(a, b)
  }

  /** The committed store is the disk; a workspace is the dirty pages a transaction locks. */
  ghost function Abs(s: State): Spec {
    Spec(s.disk, map t | t in s.locks :: DirtyContents(s.objects, s.locks[t]))
  }

  lemma AbsWork(s: State, t: Tid)
    ensures Abs(s).Work(t) == DirtyContents(s.objects, Held(s.locks, t))
  {
  }

  /** A granted page shows the transaction's own contents, or else the committed ones. */
  lemma HandShowsView(s: State, t: Tid, k: PageKey, v: Contents)
    requires Inv(s) && HandShows(s, t, k, v)
    ensures Abs(s).Shows(t, k, v)
  {
    AbsWork(s, t);
    var r := s.inHand[t].page;
    assert Covered(s.inHand[t], s.locks[t]) && HandOk(s, t) && ObjectFor(s, r, k);
    if Dirty(s, r) {
      DirtyIsOwn(s, t, k);
    }
  }

  /** Lock tables that agree on which pages are dirty and what they hold give the same workspace. */
  lemma SameDirty(o: map<Ref, Page>, h: map<PageKey, PageLock>, o': map<Ref, Page>, h': map<PageKey, PageLock>)
    requires DirtyKeys(o, h) == DirtyKeys(o', h')
    requires forall k | k in DirtyKeys(o, h) :: o[h[k].page].contents == o'[h'[k].page].contents
    ensures DirtyContents(o, h) == DirtyContents(o', h')
  {
  }

  /** The object `t` has in hand for writing is named by no lock but its own. */
  lemma NamedOnce(s: State, t: Tid, k: PageKey, r: Ref, u: Tid, l: PageKey)
    requires Inv(s) && t in s.inHand && s.inHand[t] == Request(k, r, WritePerm) && u in s.locks && l in s.locks[u]
    ensures s.locks[u][l].page == r <==> u == t && l == k
  {
    assert Covered(s.inHand[t], s.locks[t]) && ObjectFor(s, r, k);
    assert HeldObjects(s, s.locks[u]) && ObjectFor(s, s.locks[u][l].page, l);
    if s.locks[u][l].page == r {
      SoleWriter(s, u, t, k);
    }
  }

  lemma DirtyAfterWrite(o: map<Ref, Page>, o': map<Ref, Page>, held: map<PageKey, PageLock>, r: Ref, k: PageKey, own: bool)
    requires r in o && r in o' && o' == o[r := o'[r]] && o'[r].dirty
    requires forall l | l in held :: held[l].page == r <==> own && l == k
    requires own ==> k in held
    ensures DirtyContents(o', held) == if own then DirtyContents(o, held)[k := o'[r].contents] else DirtyContents(o, held)
  {
    assert DirtyKeys(o', held) == if own then DirtyKeys(o, held) + {k} else DirtyKeys(o, held);
  }

  /** Only the writer's workspace changes, and only at the page it wrote. */
  lemma WriteWork(s: State, t: Tid, k: PageKey, r: Ref, s': State, u: Tid)
    requires Inv(s) && Written(s, t, k, r, s') && u in s.locks
    ensures DirtyContents(s'.objects, s.locks[u]) ==
            if u == t then DirtyContents(s.objects, s.locks[t])[k := s'.objects[r].contents] else DirtyContents(s.objects, s.locks[u])
  {
    assert Covered(s.inHand[t], s.locks[t]);
    forall l | l in s.locks[u]
      ensures s.locks[u][l].page == r <==> u == t && l == k
    {
      NamedOnce(s, t, k, r, u, l);
    }
    DirtyAfterWrite(s.objects, s'.objects, s.locks[u], r, k, u == t);
  }

  lemma WriteRefines(s: State, t: Tid, k: PageKey, r: Ref, s': State)
    requires Inv(s) && Written(s, t, k, r, s')
    ensures Abs(s').Work(t) == Abs(s).Work(t)[k := s'.objects[r].contents] && OthersSame(Abs(s), Abs(s'), t)
  {
    forall u
      ensures u == t ==> Abs(s').Work(u) == Abs(s).Work(u)[k := s'.objects[r].contents]
      ensures u != t ==> Abs(s').Work(u) == Abs(s).Work(u)
    {
      AbsWork(s, u);
      AbsWork(s', u);
      if u in s.locks {
        WriteWork(s, t, k, r, s', u);
      }
    }
  }

  lemma DirtyAfterSave(o: map<Ref, Page>, locks: LockTable, t: Tid, req: Request)
    requires req.page in o
    requires o[req.page].dirty ==> req.key in Held(locks, t) && Held(locks, t)[req.key].page == req.page
    requires req.key in DirtyKeys(o, Held(locks, t)) ==> Held(locks, t)[req.key].page == req.page
    ensures DirtyContents(o, Held(SaveLock(locks, t, req), t)) == DirtyContents(o, Held(locks, t))
  {
    SameDirty(o, Held(SaveLock(locks, t, req), t), o, Held(locks, t));
  }

  lemma GrantRefines(s: State, t: Tid, s': State, u: Tid)
    requires Inv(s) && Unblocked(s, t) && FreshGrant(s, t)
    requires s'.objects == s.objects && s'.locks == SaveLock(s.locks, t, s.pending[t])
    ensures Abs(s').Work(u) == Abs(s).Work(u)
  {
    hide Inv, FreshGrant, Conflicted, Abs, DirtyContents;
    AbsWork(s, u);
    AbsWork(s', u);
    if u == t {
      GrantOwn(s, t);
      PendingAt(s, t);
      DirtyAfterSave(s.objects, s.locks, t, s.pending[t]);
    } else {
      assert Held(s'.locks, u) == Held(s.locks, u);
    }
  }

  /** Objects that agree on what a transaction locks give it the same workspace. */
  lemma SameObjects(o: map<Ref, Page>, o': map<Ref, Page>, held: map<PageKey, PageLock>)
    requires forall k | k in held :: held[k].page in o && held[k].page in o' && o[held[k].page] == o'[held[k].page]
    ensures DirtyContents(o, held) == DirtyContents(o', held)
  {
    SameDirty(o, held, o', held);
  }

  lemma CommitWork(s: State, t: Tid, o': map<Ref, Page>, u: Tid)
    requires Inv(s) && u in s.locks && u != t
    requires o' == Cleaned(s.objects, FlushedRefs(s.objects, Held(s.locks, t)))
    ensures DirtyContents(s.objects, s.locks[u]) == DirtyContents(o', s.locks[u])
  {
    forall k | k in s.locks[u]
      ensures s.locks[u][k].page in s.objects && s.locks[u][k].page in o'
      ensures s.objects[s.locks[u][k].page] == o'[s.locks[u][k].page]
    {
      assert HeldObjects(s, s.locks[u]) && ObjectFor(s, s.locks[u][k].page, k);
      CommitSpares(s, t, u, s.locks[u][k].page, k);
    }
    SameObjects(s.objects, o', s.locks[u]);
  }

  lemma NoWork(objects: map<Ref, Page>)
    ensures DirtyContents(objects, map[]) == map[]
  {
  }

  lemma CommitRefines(s: State, t: Tid, s': State, u: Tid)
    requires Inv(s) && s'.objects == Cleaned(s.objects, FlushedRefs(s.objects, Held(s.locks, t))) && s'.locks == s.locks - {t}
    ensures Abs(s').Work(u) == if u == t then map[] else Abs(s).Work(u)
  {
    hide Inv, Abs, DirtyContents, Cleaned, FlushedRefs;
    AbsWork(s, u);
    AbsWork(s', u);
    assert Held(s'.locks, u) == if u == t then map[] else Held(s.locks, u);
    NoWork(s'.objects);
    NoWork(s.objects);
    if u in s.locks && u != t {
      CommitWork(s, t, s'.objects, u);
    }
  }

  lemma LoadRefines(s: State, r: Ref, s': State, u: Tid)
    requires StructInv(s) && r !in s.objects && s'.locks == s.locks
    requires forall q | q in s.objects :: q in s'.objects && s'.objects[q] == s.objects[q]
    ensures Abs(s').Work(u) == Abs(s).Work(u)
  {
    AbsWork(s, u);
    AbsWork(s', u);
    if u in s.locks {
      assert HeldObjects(s, s.locks[u]);
      SameObjects(s.objects, s'.objects, s.locks[u]);
    }
  }

  lemma ClearRefines(s: State, t: Tid, s': State, u: Tid)
    requires Cleared(s, t, s')
    ensures Abs(s').Work(u) == if u == t then map[] else Abs(s).Work(u)
  {
    AbsWork(s, u);
    AbsWork(s', u);
  }

  // One lemma per event: its effect on the committed store and on every workspace.

  lemma AbsDisk(s: State)
    ensures Abs(s).committed == s.disk
  {
  }

  lemma SameSpecFrom(s: State, s': State)
    requires s'.disk == s.disk && forall u :: Abs(s').Work(u) == Abs(s).Work(u)
    ensures SameSpec(Abs(s), Abs(s'))
  {
    hide Abs;
    AbsDisk(s);
    AbsDisk(s');
  }

  lemma SameWork(s: State, s': State)
    requires s'.objects == s.objects && s'.locks == s.locks
    ensures forall u :: Abs(s').Work(u) == Abs(s).Work(u)
  {
    hide Abs;
    forall u
      ensures Abs(s').Work(u) == Abs(s).Work(u)
    {
      AbsWork(s, u);
      AbsWork(s', u);
    }
  }

  lemma IdleSpec(s: State, e: Event, s': State)
    requires (e.Evict? || e.Ask? || e.Block?) && s'.disk == s.disk && s'.objects == s.objects && s'.locks == s.locks
    ensures SpecStep(Abs(s), e, Abs(s'))
  {
    hide Abs;
    SameWork(s, s');
    SameSpecFrom(s, s');
  }

  lemma ReadSpec(s: State, e: Event)
    requires Inv(s) && e.Read? && Enabled(s, e)
    ensures SpecStep(Abs(s), e, Abs(s))
  {
    HandShowsView(s, e.t, e.key, e.seen);
    hide Abs, Inv;
  }

  lemma WriteSpec(s: State, e: Event, s': State)
    requires Inv(s) && e.Write? && Enabled(s, e) && HandCached(s, e.t) && s' == WriteStep(s, e.t, e.written)
    ensures SpecStep(Abs(s), e, Abs(s'))
  {
    hide Abs, Inv;
    HandShowsView(s, e.t, e.key, e.seen);
    WriteIsWritten(s, e);
    WriteRefines(s, e.t, e.key, s.inHand[e.t].page, s');
    AbsDisk(s);
    AbsDisk(s');
  }

  lemma GrantSpec(s: State, t: Tid, s': State)
    requires Inv(s) && Unblocked(s, t) && FreshGrant(s, t) && Granted(s, t, s')
    ensures SpecStep(Abs(s), Grant(t), Abs(s'))
  {
    hide Inv, Abs, SaveLock;
    forall u
      ensures Abs(s').Work(u) == Abs(s).Work(u)
    {
      GrantRefines(s, t, s', u);
    }
    SameSpecFrom(s, s');
  }

  lemma FetchSpec(s: State, evicted: Option<PageKey>, k: PageKey, r: Ref)
    requires StructInv(s) && Enabled(s, Fetch(evicted, k, r))
    ensures SpecStep(Abs(s), Fetch(evicted, k, r), Abs(FetchStep(s, evicted, k, r)))
  {
    hide StructInv, Abs, FetchStep, Evictable;
    var s' := FetchStep(s, evicted, k, r);
    FetchFields(s, evicted, k, r);
    forall u
      ensures Abs(s').Work(u) == Abs(s).Work(u)
    {
      LoadRefines(s, r, s', u);
    }
    SameSpecFrom(s, s');
  }

  lemma FetchFields(s: State, evicted: Option<PageKey>, k: PageKey, r: Ref)
    requires k in s.disk && r !in s.objects && (evicted.Some? ==> Evictable(s, evicted.value))
    ensures var s' := FetchStep(s, evicted, k, r);
      && s'.disk == s.disk && s'.locks == s.locks
      && forall q | q in s.objects :: q in s'.objects && s'.objects[q] == s.objects[q]
  {
  }

  lemma ClearSpec(s: State, t: Tid, s': State)
    requires Cleared(s, t, s')
    ensures SpecStep(Abs(s), Abort(t), Abs(s')) && SpecStep(Abs(s), Victim(t), Abs(s'))
  {
    hide Abs;
    AbsDisk(s);
    AbsDisk(s');
    forall u
      ensures Abs(s').Work(u) == if u == t then map[] else Abs(s).Work(u)
    {
      ClearRefines(s, t, s', u);
    }
  }

  lemma CommitSpec(s: State, t: Tid)
    requires Inv(s)
    ensures SpecStep(Abs(s), Commit(t), Abs(CommitStep(s, t)))
  {
    var s' := CommitStep(s, t);
    hide Abs, Inv, DirtyContents, Cleaned, FlushedRefs, ForgetWaits;
    AbsWork(s, t);
    AbsDisk(s);
    AbsDisk(s');
    forall u
      ensures Abs(s').Work(u) == if u == t then map[] else Abs(s).Work(u)
    {
      CommitRefines(s, t, s', u);
    }
  }

  lemma ExtendSpec(s: State, k: PageKey)
    requires k !in s.disk
    ensures SpecStep(Abs(s), Extend(k), Abs(ExtendStep(s, k)))
  {
    hide Abs;
    AbsDisk(s);
    AbsDisk(ExtendStep(s, k));
    SameWork(s, ExtendStep(s, k));
  }

  lemma InvStruct(s: State)
    requires Inv(s)
    ensures StructInv(s)
  {
  }

  /** Every coherent step of the pool is a step of the abstract database. */
  lemma StepRefines(s: State, e: Event)
    requires Inv(s) && Enabled(s, e) && Coherent(s, e)
    ensures SpecStep(Abs(s), e, Abs(Apply(s, e)))
  {
    hide Inv, StructInv, Abs, SpecStep, FreshGrant, HandCached, Granted, Unblocked, Cleared;
    hide GrantStep, CommitStep, ClearStep, FetchStep, Polled, Reaches, Blockers, Evictable;
    var s' := Apply(s, e);
    match e
    case Read(_, _, _) => ReadSpec(s, e);
    case Write(_, _, _, _) => WriteSpec(s, e, s');
    case Grant(t) =>
      GrantIsGranted(s, t);
      GrantSpec(s, t, s');
    case Commit(t) => CommitSpec(s, t);
    case Fetch(evicted, k, r) =>
      InvStruct(s);
      FetchSpec(s, evicted, k, r);
    case Abort(t) =>
      AbortIsCleared(s, t);
      ClearSpec(s, t, s');
    case Victim(t) =>
      ClearIsCleared(s, t);
      ClearSpec(s, t, s');
    case Extend(k) => ExtendSpec(s, k);
    case _ => IdleSpec(s, e, s');
  }

  // ---- Whole runs ----

  /** Every grant is fresh and every write goes to a cached page. */
  ghost predicate CoherentRun(s0: State, tr: seq<Event>)
    requires IsRun(s0, tr)
  {
    tr == [] || (CoherentRun(s0, tr[..|tr| - 1]) && Coherent(After(s0, tr[..|tr| - 1]), tr[|tr| - 1]))
  }

  lemma {:induction false} RunsKeepContents(s0: State, tr: seq<Event>)
    requires Init(s0) && IsRun(s0, tr) && CoherentRun(s0, tr)
    ensures Inv(After(s0, tr))
  {
    if tr != [] {
      RunsKeepContents(s0, tr[..|tr| - 1]);
      StepKeepsContents(After(s0, tr[..|tr| - 1]), tr[|tr| - 1]);
    }
  }

  /** NO STEAL: a dirty cached page is write-locked, through that very object, by exactly one transaction. */
  lemma DirtyPagesAreOwned(s0: State, tr: seq<Event>, k: PageKey) returns (t: Tid)
    requires Init(s0) && IsRun(s0, tr) && CoherentRun(s0, tr)
    requires var s := After(s0, tr); k in s.pages && Dirty(s, s.pages[k])
    ensures var s := After(s0, tr); Writer(s, t, k) && forall u | u in s.locks && k in s.locks[u] :: u == t
  {
    var s := After(s0, tr);
    RunsKeepContents(s0, tr);
    assert CachedOk(s, k);
    t :| Writer(s, t, k);
    forall u | u in s.locks && k in s.locks[u]
      ensures u == t
    {
      SoleWriter(s, u, t, k);
    }
  }

  // ---- Serial equivalence ----

  predicate AccessBy(e: Event, t: Tid) {
    (e.Read? || e.Write?) && e.t == t
  }

  /** The reads and writes of `t` since its last end, in the order it made them. */
  function Session(tr: seq<Event>, t: Tid): seq<Event> {
    if tr == [] then [] else
    var e := tr[|tr| - 1];
    if Ends(e, t) then [] else Session(tr[..|tr| - 1], t) + if AccessBy(e, t) then [e] else []
  }

  /** The committed sessions, in commit order. */
  function CommittedSessions(tr: seq<Event>): seq<seq<Event>> {
    if tr == [] then [] else
    var front, e := tr[..|tr| - 1], tr[|tr| - 1];
    CommittedSessions(front) + if e.Commit? then [Session(front, e.t)] else []
  }

  /** The initial disk with the pages appended during the run, all empty. */
  function Grown(disk: Store, tr: seq<Event>): Store {
    if tr == [] then disk else
    var d := Grown(disk, tr[..|tr| - 1]);
    if tr[|tr| - 1].Extend? then d[tr[|tr| - 1].key := EmptyPage] else d
  }

  /** Replay accesses on a store by themselves; `None` when one would see other contents than it saw in the run. */
  function Replay(store: Store, ops: seq<Event>): Option<Store> {
    if ops == [] then Some(store) else
    var before := Replay(store, ops[..|ops| - 1]);
    var e := ops[|ops| - 1];
    if before.None? || !(e.Read? || e.Write?) || e.key !in before.value || before.value[e.key] != e.seen then None
    else if e.Write? then Some(before.value[e.key := e.written])
    else before
  }

  /** Replay whole sessions one after another. */
  function ReplaySerially(store: Store, sessions: seq<seq<Event>>): Option<Store> {
    if sessions == [] then Some(store) else
    var before := ReplaySerially(store, sessions[..|sessions| - 1]);
    if before.None? then None else Replay(before.value, sessions[|sessions| - 1])
  }

  ghost predicate Touches(ops: seq<Event>, keys: set<PageKey>) {
    forall i | 0 <= i < |ops| :: (ops[i].Read? || ops[i].Write?) && ops[i].key in keys
  }

  // One more event, access or session.

  lemma SessionSnoc(tr: seq<Event>, e: Event, t: Tid)
    ensures Session(tr + [e], t) ==
      if Ends(e, t) then [] else if AccessBy(e, t) then Session(tr, t) + [e] else Session(tr, t)
  {
    assert (tr + [e])[..|tr|] == tr;
  }

  lemma CommittedSnoc(tr: seq<Event>, e: Event)
    ensures CommittedSessions(tr + [e]) ==
      if e.Commit? then CommittedSessions(tr) + [Session(tr, e.t)] else CommittedSessions(tr)
  {
    assert (tr + [e])[..|tr|] == tr;
  }

  lemma GrownSnoc(disk: Store, tr: seq<Event>, e: Event)
    ensures Grown(disk, tr + [e]) == if e.Extend? then Grown(disk, tr) + map[e.key := EmptyPage] else Grown(disk, tr)
  {
    assert (tr + [e])[..|tr|] == tr;
  }

  lemma ReplaySnoc(store: Store, ops: seq<Event>, e: Event)
    requires Replay(store, ops).Some? && (e.Read? || e.Write?)
    requires e.key in Replay(store, ops).value && Replay(store, ops).value[e.key] == e.seen
    ensures Replay(store, ops + [e]) ==
      Some(if e.Write? then Replay(store, ops).value[e.key := e.written] else Replay(store, ops).value)
  {
    assert (ops + [e])[..|ops|] == ops;
  }

  lemma SerialSnoc(store: Store, sessions: seq<seq<Event>>, ops: seq<Event>)
    requires ReplaySerially(store, sessions).Some?
    ensures ReplaySerially(store, sessions + [ops]) == Replay(ReplaySerially(store, sessions).value, ops)
  {
    hide Replay;
    assert (sessions + [ops])[..|sessions|] == sessions;
  }

  /** What the accesses do not touch rides along unchanged. */
  lemma {:induction false} ReplayFrame(store: Store, extra: Store, ops: seq<Event>, keys: set<PageKey>)
    requires Replay(store, ops).Some? && Touches(ops, keys) && keys !! extra.Keys
    ensures Replay(store + extra, ops) == Some(Replay(store, ops).value + extra)
  {
    if ops != [] {
      var front, e := ops[..|ops| - 1], ops[|ops| - 1];
      ReplayFrame(store, extra, front, keys);
      assert e.key in keys;
      var r := Replay(store, front).value;
      if e.Write? {
        assert r[e.key := e.written] + extra == (r + extra)[e.key := e.written];
      }
    }
  }

  lemma {:induction false} ReplayKeys(store: Store, ops: seq<Event>)
    requires Replay(store, ops).Some?
    ensures Replay(store, ops).value.Keys == store.Keys && Touches(ops, store.Keys)
  {
    if ops != [] {
      ReplayKeys(store, ops[..|ops| - 1]);
    }
  }

  lemma {:induction false} SerialFrame(store: Store, extra: Store, sessions: seq<seq<Event>>)
    requires ReplaySerially(store, sessions).Some? && store.Keys !! extra.Keys
    ensures ReplaySerially(store, sessions).value.Keys == store.Keys
    ensures ReplaySerially(store + extra, sessions) == Some(ReplaySerially(store, sessions).value + extra)
  {
    hide Replay;
    if sessions != [] {
      var front, ops := sessions[..|sessions| - 1], sessions[|sessions| - 1];
      SerialFrame(store, extra, front);
      var mid := ReplaySerially(store, front).value;
      ReplayKeys(mid, ops);
      ReplayFrame(mid, extra, ops, store.Keys);
    }
  }

  // ---- Each session replays alone ----

  /** Replaying `ops` alone on the committed store shows what they saw and leaves `t`'s workspace. */
  ghost predicate Alone(a: Spec, ops: seq<Event>, t: Tid) {
    Replay(a.committed, ops) == Some(a.committed + a.Work(t))
  }

  lemma DisjointCommute(a: Store, b: Store, c: Store)
    requires b.Keys !! c.Keys
    ensures a + b + c == a + c + b
  {
  }

  /** An access extends its own session's replay by exactly itself. */
  lemma AccessAlone(a: Spec, e: Event, b: Spec, ops: seq<Event>)
    requires SpecStep(a, e, b) && (e.Read? || e.Write?) && Alone(a, ops, e.t)
    ensures Alone(b, ops + [e], e.t)
  {
    hide Replay;
    var view := a.committed + a.Work(e.t);
    assert e.key in view && view[e.key] == e.seen;
    ReplaySnoc(a.committed, ops, e);
    if e.Write? {
      assert view[e.key := e.written] == b.committed + b.Work(e.t);
    }
  }

  /** A commit of `u` does not disturb the replay of `t`, whose accesses it does not touch. */
  lemma CommitAlone(a: Spec, u: Tid, b: Spec, ops: seq<Event>, t: Tid, keys: set<PageKey>)
    requires SpecStep(a, Commit(u), b) && u != t && Alone(a, ops, t)
    requires Touches(ops, keys) && keys !! a.Work(u).Keys && a.Work(t).Keys !! a.Work(u).Keys
    ensures Alone(b, ops, t)
  {
    hide Replay, Touches;
    ReplayFrame(a.committed, a.Work(u), ops, keys);
    DisjointCommute(a.committed, a.Work(t), a.Work(u));
  }

  lemma ExtendAlone(a: Spec, k: PageKey, b: Spec, ops: seq<Event>, t: Tid)
    requires SpecStep(a, Extend(k), b) && Alone(a, ops, t) && k !in a.Work(t)
    ensures Alone(b, ops, t)
  {
    hide Replay, Touches;
    var extra := map[k := EmptyPage];
    ReplayKeys(a.committed, ops);
    ReplayFrame(a.committed, extra, ops, a.committed.Keys);
    assert b.committed == a.committed + extra;
    DisjointCommute(a.committed, a.Work(t), extra);
  }

  lemma OtherAlone(a: Spec, e: Event, b: Spec, ops: seq<Event>, t: Tid)
    requires SpecStep(a, e, b) && Alone(a, ops, t)
    requires !e.Commit? && !e.Extend? && !AccessBy(e, t) && !Ends(e, t)
    ensures Alone(b, ops, t)
  {
    hide Replay;
    assert b.Work(t) == a.Work(t) && b.committed == a.committed;
  }

  /** An id that has just ended starts over with nothing. */
  lemma NothingAlone(a: Spec, e: Event, b: Spec, t: Tid)
    requires SpecStep(a, e, b) && Ends(e, t)
    ensures Alone(b, [], t)
  {
    assert b.Work(t) == map[];
    assert b.committed + map[] == b.committed;
  }

  lemma HeldGrows(s: State, e: Event, t: Tid)
    requires Enabled(s, e) && !Ends(e, t)
    ensures Held(s.locks, t).Keys <= Held(Apply(s, e).locks, t).Keys
  {
    hide Apply, Enabled, ForgetWaits, Polled;
    TableStep(s, e);
  }

  lemma WorkInDisk(s: State, t: Tid)
    requires Inv(s)
    ensures Abs(s).Work(t).Keys <= Held(s.locks, t).Keys && Abs(s).Work(t).Keys <= s.disk.Keys
  {
    hide Inv, Abs;
    AbsWork(s, t);
    forall k | k in Abs(s).Work(t)
      ensures k in s.disk
    {
      LockAt(s, t, k);
    }
  }

  /** What one transaction has dirty, no other one locks. */
  lemma WorkIsPrivate(s: State, t: Tid, u: Tid)
    requires Inv(s) && u != t
    ensures Held(s.locks, t).Keys !! Abs(s).Work(u).Keys
  {
    hide Inv, LockInv, StructInv, CacheOk, Abs;
    AbsWork(s, u);
    InvLocks(s);
    forall k | k in Held(s.locks, t)
      ensures k !in Abs(s).Work(u)
    {
      if k in Abs(s).Work(u) {
        LockAt(s, u, k);
        SoleWriter(s, t, u, k);
      }
    }
  }

  /** The session of `t` replays alone, and touches only what `t` locks. */
  ghost predicate Running(s: State, tr: seq<Event>, t: Tid) {
    Alone(Abs(s), Session(tr, t), t) && Touches(Session(tr, t), Held(s.locks, t).Keys)
  }

  lemma TouchesSnoc(ops: seq<Event>, e: Event, keys: set<PageKey>)
    requires Touches(ops, keys) && (e.Read? || e.Write?) && e.key in keys
    ensures Touches(ops + [e], keys)
  {
  }

  lemma TouchesMore(ops: seq<Event>, keys: set<PageKey>, more: set<PageKey>)
    requires Touches(ops, keys) && keys <= more
    ensures Touches(ops, more)
  {
  }

  lemma AccessRunning(s: State, tr: seq<Event>, e: Event)
    requires Inv(s) && (e.Read? || e.Write?) && Enabled(s, e) && Coherent(s, e) && Running(s, tr, e.t)
    ensures Running(Apply(s, e), tr + [e], e.t)
  {
    hide Inv, LockInv, StructInv, CacheOk, Apply, Enabled, Coherent, Abs, SpecStep, Alone, Touches, Session;
    StepRefines(s, e);
    SessionSnoc(tr, e, e.t);
    AccessAlone(Abs(s), e, Abs(Apply(s, e)), Session(tr, e.t));
    InvLocks(s);
    AccessIsLocked(s, e);
    HeldGrows(s, e, e.t);
    TouchesMore(Session(tr, e.t), Held(s.locks, e.t).Keys, Held(Apply(s, e).locks, e.t).Keys);
    TouchesSnoc(Session(tr, e.t), e, Held(Apply(s, e).locks, e.t).Keys);
  }

  lemma OtherRunning(s: State, tr: seq<Event>, e: Event, t: Tid)
    requires Inv(s) && Enabled(s, e) && Coherent(s, e) && Running(s, tr, t) && !Ends(e, t) && !AccessBy(e, t)
    ensures Running(Apply(s, e), tr + [e], t)
  {
    hide Inv, Apply, Enabled, Coherent, Abs, Alone, Touches, Session, Held;
    var a, b, ops := Abs(s), Abs(Apply(s, e)), Session(tr, t);
    StepRefines(s, e);
    SessionSnoc(tr, e, t);
    HeldGrows(s, e, t);
    TouchesMore(ops, Held(s.locks, t).Keys, Held(Apply(s, e).locks, t).Keys);
    WorkInDisk(s, t);
    AbsDisk(s);
    if e.Commit? {
      WorkIsPrivate(s, t, e.t);
      CommitAlone(a, e.t, b, ops, t, Held(s.locks, t).Keys);
    } else if e.Extend? {
      ExtendAlone(a, e.key, b, ops, t);
    } else {
      OtherAlone(a, e, b, ops, t);
    }
  }

  lemma EndedRunning(s: State, tr: seq<Event>, e: Event, t: Tid)
    requires Inv(s) && Enabled(s, e) && Coherent(s, e) && Ends(e, t)
    ensures Running(Apply(s, e), tr + [e], t)
  {
    hide Inv, Apply, Enabled, Coherent, Abs, SpecStep, Alone, Session;
    StepRefines(s, e);
    SessionSnoc(tr, e, t);
    NothingAlone(Abs(s), e, Abs(Apply(s, e)), t);
  }

  // ---- The serial replay keeps up with the disk ----

  ghost predicate SerialOk(disk0: Store, tr: seq<Event>, disk: Store) {
    && ReplaySerially(Grown(disk0, tr), CommittedSessions(tr)) == Some(disk)
    && Grown(disk0, tr).Keys == disk.Keys
  }

  lemma SerialCommit(disk0: Store, tr: seq<Event>, a: Spec, t: Tid, b: Spec)
    requires SerialOk(disk0, tr, a.committed) && SpecStep(a, Commit(t), b) && Alone(a, Session(tr, t), t)
    requires a.Work(t).Keys <= a.committed.Keys
    ensures SerialOk(disk0, tr + [Commit(t)], b.committed)
  {
    hide Session, CommittedSessions, Grown, Replay, ReplaySerially;
    CommittedSnoc(tr, Commit(t));
    GrownSnoc(disk0, tr, Commit(t));
    SerialSnoc(Grown(disk0, tr), CommittedSessions(tr), Session(tr, t));
  }

  lemma SerialExtend(disk0: Store, tr: seq<Event>, a: Spec, k: PageKey, b: Spec)
    requires SerialOk(disk0, tr, a.committed) && SpecStep(a, Extend(k), b)
    ensures SerialOk(disk0, tr + [Extend(k)], b.committed)
  {
    hide CommittedSessions, Grown, ReplaySerially;
    var extra := map[k := EmptyPage];
    CommittedSnoc(tr, Extend(k));
    GrownSnoc(disk0, tr, Extend(k));
    SerialFrame(Grown(disk0, tr), extra, CommittedSessions(tr));
    assert b.committed == a.committed + extra;
  }

  lemma SerialIdle(disk0: Store, tr: seq<Event>, e: Event, disk: Store)
    requires SerialOk(disk0, tr, disk) && !e.Commit? && !e.Extend?
    ensures SerialOk(disk0, tr + [e], disk)
  {
    hide CommittedSessions, Grown, ReplaySerially;
    CommittedSnoc(tr, e);
    GrownSnoc(disk0, tr, e);
  }

  lemma RunningAlone(s: State, tr: seq<Event>, t: Tid)
    requires Running(s, tr, t)
    ensures Alone(Abs(s), Session(tr, t), t)
  {
    hide Alone, Session, Touches;
  }

  /** Only a commit or an append changes what is committed. */
  lemma CommittedStays(a: Spec, e: Event, b: Spec)
    requires SpecStep(a, e, b) && !e.Commit? && !e.Extend?
    ensures b.committed == a.committed
  {
  }

  lemma SerialStep(s: State, disk0: Store, tr: seq<Event>, e: Event)
    requires Inv(s) && SerialOk(disk0, tr, s.disk) && Enabled(s, e) && Coherent(s, e)
    requires e.Commit? ==> Running(s, tr, e.t)
    ensures SerialOk(disk0, tr + [e], Apply(s, e).disk)
  {
    hide Abs, Inv, Apply, Enabled, Coherent, Running, SerialOk, SpecStep, Alone, Session, Held;
    var a, b := Abs(s), Abs(Apply(s, e));
    StepRefines(s, e);
    AbsDisk(s);
    AbsDisk(Apply(s, e));
    if e.Commit? {
      RunningAlone(s, tr, e.t);
      WorkInDisk(s, e.t);
      SerialCommit(disk0, tr, a, e.t, b);
    } else if e.Extend? {
      SerialExtend(disk0, tr, a, e.key, b);
    } else {
      CommittedStays(a, e, b);
      SerialIdle(disk0, tr, e, s.disk);
    }
  }

  lemma NothingYet(s0: State)
    requires Init(s0)
    ensures SerialOk(s0.disk, [], s0.disk) && forall t :: Running(s0, [], t)
  {
    assert s0.disk + map[] == s0.disk;
  }

  lemma RunningStep(s: State, tr: seq<Event>, e: Event, t: Tid)
    requires Inv(s) && Enabled(s, e) && Coherent(s, e) && Running(s, tr, t)
    ensures Running(Apply(s, e), tr + [e], t)
  {
    hide Inv, Apply, Enabled, Coherent, Running;
    if Ends(e, t) {
      EndedRunning(s, tr, e, t);
    } else if AccessBy(e, t) {
      AccessRunning(s, tr, e);
    } else {
      OtherRunning(s, tr, e, t);
    }
  }

  lemma {:induction false} SerialInv(s0: State, tr: seq<Event>)
    requires Init(s0) && IsRun(s0, tr) && CoherentRun(s0, tr)
    ensures SerialOk(s0.disk, tr, After(s0, tr).disk)
    ensures forall t :: Running(After(s0, tr), tr, t)
  {
    hide Inv, Apply, Enabled, Coherent, Running, SerialOk;
    if tr == [] {
      NothingYet(s0);
    } else {
      var front, e := tr[..|tr| - 1], tr[|tr| - 1];
      var s := After(s0, front);
      assert front + [e] == tr;
      SerialInv(s0, front);
      RunsKeepContents(s0, front);
      SerialStep(s, s0.disk, front, e);
      forall t
        ensures Running(Apply(s, e), tr, t)
      {
        RunningStep(s, front, e, t);
      }
    }
  }

  /**
    Serial equivalence and crash safety.  At the end of any coherent run, hence at any step
    boundary, the disk is exactly what the committed sessions produce when run one after
    another in commit order on the initial disk with its appended empty pages, each reading
    what it read in the run.
   */
  lemma EquivalentToCommitOrder(s0: State, tr: seq<Event>)
    requires Init(s0) && IsRun(s0, tr) && CoherentRun(s0, tr)
    ensures ReplaySerially(Grown(s0.disk, tr), CommittedSessions(tr)) == Some(After(s0, tr).disk)
  {
    hide IsRun, CoherentRun, ReplaySerially, CommittedSessions, Grown, Running;
    SerialInv(s0, tr);
  }

  // ---- Ids that do not come back ----

  /** All reads and writes of `t`. */
  function Ops(tr: seq<Event>, t: Tid): seq<Event> {
    if tr == [] then [] else Ops(tr[..|tr| - 1], t) + if AccessBy(tr[|tr| - 1], t) then [tr[|tr| - 1]] else []
  }

  /** The committed transactions, in commit order. */
  function CommitList(tr: seq<Event>): (ts: seq<Tid>) {
    if tr == [] then [] else
    CommitList(tr[..|tr| - 1]) + if tr[|tr| - 1].Commit? then [tr[|tr| - 1].t] else []
  }

  /** Before its first end, a transaction is one session. */
  lemma {:induction false} OneSession(tr: seq<Event>, t: Tid)
    requires forall i | 0 <= i < |tr| :: !Ends(tr[i], t)
    ensures Session(tr, t) == Ops(tr, t)
  {
    if tr != [] {
      OneSession(tr[..|tr| - 1], t);
    }
  }

  lemma {:induction false} InCommitList(tr: seq<Event>, i: nat) returns (c: nat)
    requires i < |CommitList(tr)|
    ensures c < |tr| && tr[c] == Commit(CommitList(tr)[i])
  {
    var front, e := tr[..|tr| - 1], tr[|tr| - 1];
    if i < |CommitList(front)| {
      c := InCommitList(front, i);
    } else {
      c := |tr| - 1;
    }
  }

  lemma NoReturnPrefix(tr: seq<Event>)
    requires tr != [] && NoneReturns(tr)
    ensures NoneReturns(tr[..|tr| - 1])
  {
    var front := tr[..|tr| - 1];
    forall t
      ensures NoReturn(front, t)
    {
      assert NoReturn(tr, t);
      forall i, j | 0 <= i < j < |front| && Ends(front[i], t)
        ensures !((front[j].Ask? || front[j].Commit?) && front[j].t == t)
      {
        assert tr[i] == front[i] && tr[j] == front[j];
      }
    }
  }

  /**
    Where no id comes back after its end, the committed sessions are the committed transactions
    with all their accesses, so the disk is the result of running these in commit order.
   */
  lemma {:induction false} SessionsAreTransactions(s0: State, tr: seq<Event>)
    requires Init(s0) && IsRun(s0, tr) && NoneReturns(tr)
    ensures |CommittedSessions(tr)| == |CommitList(tr)|
    ensures forall i | 0 <= i < |CommitList(tr)| :: CommittedSessions(tr)[i] == Ops(tr, CommitList(tr)[i])
  {
    hide NoReturn, Apply, Enabled;
    if tr != [] {
      var front, e := tr[..|tr| - 1], tr[|tr| - 1];
      NoReturnPrefix(tr);
      SessionsAreTransactions(s0, front);
      forall i | 0 <= i < |CommitList(front)|
        ensures Ops(tr, CommitList(front)[i]) == Ops(front, CommitList(front)[i])
      {
        OpsStay(s0, tr, i);
      }
      if e.Commit? {
        assert NoReturn(tr, e.t);
        CommitsOnce(tr, e.t);
        OneSession(front, e.t);
        assert Ops(tr, e.t) == Ops(front, e.t);
      }
    }
  }

  lemma OpsStay(s0: State, tr: seq<Event>, i: nat)
    requires Init(s0) && IsRun(s0, tr) && tr != [] && NoneReturns(tr)
    requires i < |CommitList(tr[..|tr| - 1])|
    ensures var front := tr[..|tr| - 1]; Ops(tr, CommitList(front)[i]) == Ops(front, CommitList(front)[i])
  {
    hide IsRun, NoReturn;
    var front, last := tr[..|tr| - 1], |tr| - 1;
    var t := CommitList(front)[i];
    assert NoReturn(tr, t);
    var c := InCommitList(front, i);
    assert tr[c] == Commit(t);
    if AccessBy(tr[last], t) {
      NoLateAccess(s0, tr, c, last);
    }
  }

  lemma CommitsOnce(tr: seq<Event>, t: Tid)
    requires tr != [] && tr[|tr| - 1] == Commit(t) && NoReturn(tr, t)
    ensures forall i | 0 <= i < |tr| - 1 :: !Ends(tr[i], t)
  {
  }
}
