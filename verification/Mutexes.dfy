/**
  The mutex discipline of the buffer pool and the heap files.  Every thread runs inserts,
  deletes, scans, commits and aborts; between two mutex operations it only works on memory, so
  a thread is a position in the program text and the mutexes are a map to their holders.
 */
module Mutexes {

  type Thread = nat

  datatype Mutex = PoolMutex | FileMutex(file: nat)

  /** Who called `GetPage`. */
  datatype Caller = Insert(file: nat) | Delete(file: nat) | Scan

  datatype Position =
    | Idle
    /** At the first `f.mu.Lock()` of an insert or delete. */
    | Enter(call: Caller)
    /** Between `f.mu.Lock()` and `f.mu.Unlock()`. */
    | Body(call: Caller)
    /** At `bp.mu.Lock()` in `GetPage`. */
    | Calling(call: Caller)
    /** Inside `GetPage`. */
    | InPool(call: Caller)
    /** Sleeping after a conflict, before taking the pool mutex again. */
    | Asleep(call: Caller)
    /** Back from `GetPage`. */
    | Returned(call: Caller)
    /** At `bp.mu.Lock()` of a commit that will write pages of these files. */
    | Ending(todo: seq<nat>)
    | Committing(todo: seq<nat>)
    /** Writing a page of this file, then those of the rest. */
    | Writing(file: nat, todo: seq<nat>)
    /** At `bp.mu.Lock()` of an abort or a begin. */
    | Turning
    | Turned

  datatype Effect = Take(m: Mutex) | Release(m: Mutex) | Quiet

  datatype State = State(at: map<Thread, Position>, owner: map<Mutex, Thread>)

  datatype Move = Move(t: Thread, effect: Effect, to: Position)

  // ---- The program text ----

  /** The first position of an insert, delete, scan, commit, or of an abort or begin. */
  predicate Starts(p: Position) {
    (p.Enter? && !p.call.Scan?) || (p.Calling? && p.call.Scan?) || p.Ending? || p.Turning?
  }

  /** The mutex operation a thread does next at a position, and where it goes. */
  predicate Code(p: Position, e: Effect, p': Position) {
    match p
    case Idle => e == Quiet && Starts(p')
    case Enter(c) => !c.Scan? && e == Take(FileMutex(c.file)) && p' == Body(c)
    case Body(c) => !c.Scan? && e == Release(FileMutex(c.file)) && (p' == Calling(c) || p' == Idle)
    case Calling(c) => e == Take(PoolMutex) && p' == InPool(c)
    case InPool(c) => e == Release(PoolMutex) && (p' == Asleep(c) || p' == Returned(c))
    case Asleep(c) => e == Take(PoolMutex) && p' == InPool(c)
    case Returned(c) =>
      if c.Scan? then e == Quiet && (p' == Calling(c) || p' == Idle)
      else e == Take(FileMutex(c.file)) && p' == Body(c)
    case Ending(todo) => e == Take(PoolMutex) && p' == Committing(todo)
    case Committing(todo) =>
      if todo == [] then e == Release(PoolMutex) && p' == Idle
      else e == Take(FileMutex(todo[0])) && p' == Writing(todo[0], todo[1..])
    case Writing(f, todo) => e == Release(FileMutex(f)) && p' == Committing(todo)
    case Turning => e == Take(PoolMutex) && p' == Turned
    case Turned => e == Release(PoolMutex) && p' == Idle
  }

  /** Taking a mutex waits until it is free. */
  predicate Enabled(s: State, m: Move) {
    m.t in s.at && Code(s.at[m.t], m.effect, m.to) && (m.effect.Take? ==> m.effect.m !in s.owner)
  }

  /** A release frees the mutex, whoever holds it. */
  function Apply(s: State, m: Move): State {
    State(s.at[m.t := m.to],
          match m.effect
          case Take(x) => s.owner[x := m.t]
          case Release(x) => s.owner - {x}
          case Quiet => s.owner)
  }

  predicate Init(s: State) {
    s.owner == map[] && forall t | t in s.at :: s.at[t] == Idle
  }

  predicate IsRun(s: State, run: seq<Move>)
    decreases |run|
  {
    run == [] || (IsRun(s, run[..|run| - 1]) && Enabled(After(s, run[..|run| - 1]), run[|run| - 1]))
  }

  function After(s: State, run: seq<Move>): State {
    if run == [] then s else Apply(After(s, run[..|run| - 1]), run[|run| - 1])
  }

  // ---- What a position implies ----

  function Held(p: Position): set<Mutex> {
    match p
    case Body(c) => if c.Scan? then {} else {FileMutex(c.file)}
    case InPool(_) => {PoolMutex}
    case Committing(_) => {PoolMutex}
    case Writing(f, _) => {PoolMutex, FileMutex(f)}
    case Turned => {PoolMutex}
    case _ => {}
  }

  /** Only inserts and deletes hold a file mutex around their work. */
  predicate Sound(p: Position) {
    (p.Enter? || p.Body?) ==> !p.call.Scan?
  }

  /** The mutexes are held exactly as the positions of the threads say. */
  ghost predicate Inv(s: State) {
    && (forall t | t in s.at :: Sound(s.at[t]))
    && (forall t, x | t in s.at && x in Held(s.at[t]) :: x in s.owner && s.owner[x] == t)
    && (forall x | x in s.owner :: s.owner[x] in s.at && x in Held(s.at[s.owner[x]]))
  }

  /** One move takes, releases or keeps exactly what the program text says. */
  lemma CodeHeld(p: Position, e: Effect, p': Position)
    requires Code(p, e, p') && Sound(p)
    ensures Sound(p')
    ensures match e
      case Take(x) => x !in Held(p) && Held(p') == Held(p) + {x}
      case Release(x) => x in Held(p) && Held(p') == Held(p) - {x}
      case Quiet => Held(p') == Held(p)
  {
  }

  lemma MoveKeepsInv(s: State, m: Move)
    requires Inv(s) && Enabled(s, m)
    ensures Inv(Apply(s, m))
  {
    hide Code, Held;
    var s', p := Apply(s, m), s.at[m.t];
    CodeHeld(p, m.effect, m.to);
    forall t, x | t in s'.at && x in Held(s'.at[t])
      ensures x in s'.owner && s'.owner[x] == t
    {
      if t != m.t {
        assert x in s.owner && s.owner[x] == t;
        assert x !in Held(p);
        assert m.effect != Release(x) && m.effect != Take(x);
      }
    }
    forall x | x in s'.owner
      ensures s'.owner[x] in s'.at && x in Held(s'.at[s'.owner[x]])
    {
    }
  }

  lemma {:induction false} RunsKeepInv(s: State, run: seq<Move>)
    requires Init(s) && IsRun(s, run)
    ensures Inv(After(s, run))
  {
    hide Held, Inv, Code;
    if run == [] {
      InitInv(s);
    } else {
      RunsKeepInv(s, run[..|run| - 1]);
      MoveKeepsInv(After(s, run[..|run| - 1]), run[|run| - 1]);
    }
  }

  lemma InitInv(s: State)
    requires Init(s)
    ensures Inv(s)
  {
  }

  // ---- The discipline ----

  /** Every unlock is by the holder. */
  lemma UnlockByHolder(s: State, run: seq<Move>, m: Move)
    requires Init(s) && IsRun(s, run) && Enabled(After(s, run), m) && m.effect.Release?
    ensures m.effect.m in After(s, run).owner && After(s, run).owner[m.effect.m] == m.t
  {
    hide IsRun, After, Held;
    RunsKeepInv(s, run);
    var u := After(s, run);
    CodeHeld(u.at[m.t], m.effect, m.to);
  }

  /** A thread about to take the pool mutex holds no mutex at all. */
  lemma PoolMutexTakenFirst(s: State, run: seq<Move>, t: Thread, p': Position)
    requires Init(s) && IsRun(s, run) && t in After(s, run).at && Code(After(s, run).at[t], Take(PoolMutex), p')
    ensures forall x | x in After(s, run).owner :: After(s, run).owner[x] != t
  {
    hide IsRun, After;
    RunsKeepInv(s, run);
    assert Held(After(s, run).at[t]) == {};
  }

  /** The next move of a thread that holds something; only a commit still takes a mutex, and only of a file. */
  function NextMove(p: Position): (e: (Effect, Position))
    requires Sound(p) && Held(p) != {}
    ensures Code(p, e.0, e.1)
    ensures e.0.Take? ==> p.Committing? && e.0.m.FileMutex?
  {
    match p
    case Body(c) => (Release(FileMutex(c.file)), Idle)
    case InPool(c) => (Release(PoolMutex), Returned(c))
    case Committing(todo) =>
      if todo == [] then (Release(PoolMutex), Idle) else (Take(FileMutex(todo[0])), Writing(todo[0], todo[1..]))
    case Writing(f, todo) => (Release(FileMutex(f)), Committing(todo))
    case Turned => (Release(PoolMutex), Idle)
  }

  /** A mutex other than the pool's is held by a thread that is not about to take another one. */
  lemma FileHolderReleases(p: Position, f: nat)
    requires Sound(p) && FileMutex(f) in Held(p)
    ensures !NextMove(p).0.Take?
  {
  }

  /** The thread that holds `x`, or the one that holds the file mutex it waits for. */
  ghost function Mover(s: State, x: Mutex): (t: Thread)
    requires Inv(s) && x in s.owner
  {
    var t := s.owner[x];
    var e := NextMove(s.at[t]).0;
    if e.Take? && e.m in s.owner then s.owner[e.m] else t
  }

  /** From any held mutex it takes at most one step of waiting to reach a holder that can move. */
  lemma HolderCanMove(s: State, x: Mutex)
    requires Inv(s) && x in s.owner
    ensures var t := Mover(s, x);
      && t in s.owner.Values && t in s.at && Held(s.at[t]) != {}
      && Enabled(s, Move(t, NextMove(s.at[t]).0, NextMove(s.at[t]).1))
  {
    hide Code;
    var t := s.owner[x];
    var e := NextMove(s.at[t]).0;
    assert s.owner[x] in s.owner.Values;
    if e.Take? && e.m in s.owner {
      FileHolderReleases(s.at[s.owner[e.m]], e.m.file);
      assert s.owner[e.m] in s.owner.Values;
    }
  }

  /** In every reachable state some mutex owner can move. */
  lemma SomeOwnerCanMove(s: State, run: seq<Move>)
    requires Init(s) && IsRun(s, run) && After(s, run).owner != map[]
    ensures exists m :: Enabled(After(s, run), m) && m.t in After(s, run).owner.Values
  {
    hide IsRun, After, Code, Held;
    RunsKeepInv(s, run);
    var u := After(s, run);
    assert u.owner.Keys != {};
    var x :| x in u.owner;
    HolderCanMove(u, x);
    var t := Mover(u, x);
    var m := Move(t, NextMove(u.at[t]).0, NextMove(u.at[t]).1);
    assert Enabled(u, m) && m.t in u.owner.Values;
  }

  /** A move that a thread can make at any position when no mutex is held. */
  function FreeMove(p: Position): (e: (Effect, Position))
    requires Sound(p) && Held(p) == {}
    ensures Code(p, e.0, e.1) && !e.0.Release?
  {
    match p
    case Idle => (Quiet, Turning)
    case Enter(c) => (Take(FileMutex(c.file)), Body(c))
    case Calling(c) => (Take(PoolMutex), InPool(c))
    case Asleep(c) => (Take(PoolMutex), InPool(c))
    case Returned(c) => if c.Scan? then (Quiet, Idle) else (Take(FileMutex(c.file)), Body(c))
    case Ending(todo) => (Take(PoolMutex), Committing(todo))
    case Turning => (Take(PoolMutex), Turned)
  }

  lemma NothingHeld(s: State, t: Thread)
    requires Inv(s) && s.owner == map[] && t in s.at
    ensures Held(s.at[t]) == {}
  {
    hide Held, Sound;
    forall x
      ensures x !in Held(s.at[t])
    {
      assert x !in s.owner;
    }
  }

  /** The mutexes never bring the system to a halt: while a thread is at work, some thread at work can move. */
  lemma NoMutexDeadlock(s: State, run: seq<Move>, t: Thread)
    requires Init(s) && IsRun(s, run) && t in After(s, run).at && After(s, run).at[t] != Idle
    ensures exists m :: Enabled(After(s, run), m) && After(s, run).at[m.t] != Idle
  {
    var u := After(s, run);
    if u.owner == map[] {
      RunsKeepInv(s, run);
      hide IsRun, After, Code;
      NothingHeld(u, t);
      var e := FreeMove(u.at[t]);
      assert Enabled(u, Move(t, e.0, e.1));
    } else {
      SomeOwnerCanMove(s, run);
      RunsKeepInv(s, run);
      hide IsRun, After, Code;
      var m :| Enabled(u, m) && m.t in u.owner.Values;
      var x :| x in u.owner && u.owner[x] == m.t;
      assert x in Held(u.at[m.t]);
    }
  }
}
