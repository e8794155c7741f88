/** The per-path lock manager as a protocol: any number of threads, each running one
    `Lock` or `LockMany` call and its unlock closure, interleaved step by step.
    `locker.mutex` is never held while blocking on an entry's mutex, so each block
    between `locker.mutex.Lock()` and `locker.mutex.Unlock()` is one atomic step.
    Entries have identity: an entry is an index into `heap`, and a deleted entry's
    index is never used again. */
module LockProtocol {
  import opened Strings

  type EntryId = nat

  /** `type entry struct { mutex; waiters }`. */
  datatype Entry = Entry(waiters: int, locked: bool)

  /** What `locker.mutex` guards: the map, and the entries it points into. */
  datatype Shared = Shared(locks: map<string, EntryId>, heap: seq<Entry>)

  /** Where a thread stands. `Ready`: about to register its next path, or inside the
      critical section once it holds them all. `Waiting(e)`: registered, blocked on `e.mutex`.
      `Unlocking`: running the unlock closures, last lock first. `Leaving(e)`: has released
      `e.mutex` and still counts among `e.waiters`. */
  datatype Phase = Ready | Waiting(ent: EntryId) | Unlocking | Leaving(ent: EntryId)

  /** `held[k]` is the entry locked for `paths[k]`. */
  datatype Thread = Thread(paths: seq<string>, held: seq<EntryId>, phase: Phase) {
    predicate Finished() { phase.Unlocking? && held == [] }

    /** How many of `paths`, from the front, the thread is counted for in `waiters`. */
    function Reach(): nat { |held| + if phase.Waiting? || phase.Leaving? then 1 else 0 }

    /** The path the thread is registering, waiting for or leaving. */
    function Target(): string {
      if |held| < |paths| then paths[|held|] else ""
    }

    function EntryAt(k: nat): EntryId {
      if k < |held| then held[k] else if phase.Waiting? || phase.Leaving? then phase.ent else 0
    }

    predicate Sorted() {
      forall i, j :: 0 <= i < j < |paths| ==> Less(paths[i], paths[j])
    }

    ghost predicate Uses(p: string) {
      exists k :: 0 <= k < Reach() && k < |paths| && paths[k] == p
    }

    ghost predicate Holds(p: string) {
      exists k :: 0 <= k < |held| && k < |paths| && paths[k] == p
    }

    /** The number of steps the thread still has to take. */
    function Work(): int {
      match phase
      case Ready => 2 * (|paths| - |held|) + 2 * |paths| + 1
      case Waiting(_) => 2 * (|paths| - |held|) + 2 * |paths|
      case Unlocking => 2 * |held|
      case Leaving(_) => 2 * |held| + 1
    }
  }

  datatype State = State(shared: Shared, threads: seq<Thread>)

  const INITIAL := State(Shared(map[], []), [])

  // ---- The atomic blocks ----

  function Mutex(heap: seq<Entry>, e: EntryId): (r: Entry) {
    if e < |heap| then heap[e] else Entry(0, false)
  }

  function Store(s: Shared, e: EntryId, ent: Entry): (r: Shared) {
    if e < |s.heap| then s.(heap := s.heap[e := ent]) else s
  }

  /** `Lock` up to `locker.mutex.Unlock()`: find or create the entry, count one more waiter. */
  function RegisterEntry(s: Shared, path: string): (r: (Shared, EntryId)) {
    if path in s.locks then
      var e := s.locks[path];
      (Store(s, e, Mutex(s.heap, e).(waiters := Mutex(s.heap, e).waiters + 1)), e)
    else
      (Shared(s.locks[path := |s.heap|], s.heap + [Entry(1, false)]), |s.heap|)
  }

  /** The unlock closure's second block: count one waiter less, delete the map entry at zero. */
  function UnregisterEntry(s: Shared, path: string, e: EntryId): (r: Shared) {
    var left := Mutex(s.heap, e).waiters - 1;
    var counted := Store(s, e, Mutex(s.heap, e).(waiters := left));
    if left == 0 then counted.(locks := s.locks - {path}) else counted
  }

  /** `e.mutex.Lock()` and `e.mutex.Unlock()`. */
  function SetLocked(s: Shared, e: EntryId, locked: bool): (r: Shared) {
    Store(s, e, Mutex(s.heap, e).(locked := locked))
  }

  // ---- Steps ----

  /** `Spawn(paths)`: some goroutine starts a call for these paths. `Run(t)`: thread `t` takes its next step. */
  datatype Action = Spawn(paths: seq<string>) | Run(t: nat)

  /** Thread `t` can take a step: it is not finished, and if it waits on a mutex, the mutex is free. */
  predicate Runnable(s: State, t: nat) {
    && t < |s.threads|
    && var th := s.threads[t];
    && !th.Finished()
    && (th.phase.Waiting? ==> !Mutex(s.shared.heap, th.phase.ent).locked)
  }

  /** The next step of thread `t`; its place in the code decides which one. */
  function RunThread(s: State, t: nat): (r: State)
    requires Runnable(s, t)
  {
    var th := s.threads[t];
    match th.phase
    case Ready =>
      if |th.held| < |th.paths| then
        var (shared, e) := RegisterEntry(s.shared, th.Target());
        State(shared, s.threads[t := th.(phase := Waiting(e))])
      else
        s.(threads := s.threads[t := th.(phase := Unlocking)])
    case Waiting(e) =>
      State(SetLocked(s.shared, e, true), s.threads[t := th.(held := th.held + [e], phase := Ready)])
    case Unlocking =>
      var n := |th.held| - 1;
      State(SetLocked(s.shared, th.held[n], false),
          s.threads[t := th.(held := th.held[..n], phase := Leaving(th.held[n]))])
    case Leaving(e) =>
      State(UnregisterEntry(s.shared, th.Target(), e), s.threads[t := th.(phase := Unlocking)])
  }

  /** `LockMany` sorts and removes duplicates before it locks; `Lock` is the one-path case. */
  predicate Enabled(s: State, a: Action) {
    match a
    case Spawn(paths) => Thread(paths, [], Ready).Sorted()
    case Run(t) => Runnable(s, t)
  }

  function Do(s: State, a: Action): (r: State)
    requires Enabled(s, a)
  {
    match a
    case Spawn(paths) => s.(threads := s.threads + [Thread(paths, [], Ready)])
    case Run(t) => RunThread(s, t)
  }

  /** `s1` is reached from `s0` by the listed actions, each enabled when taken. */
  ghost predicate Reaches(s0: State, run: seq<Action>, s1: State)
    decreases |run|
  {
    if run == [] then s0 == s1
    else Enabled(s0, run[0]) && Reaches(Do(s0, run[0]), run[1..], s1)
  }

  // ---- Invariant ----

  /** The map points at the thread's own entry for each path it is counted for. */
  ghost predicate ThreadInv(s: State, t: nat)
    requires t < |s.threads|
  {
    var th := s.threads[t];
    && th.Sorted()
    && th.Reach() <= |th.paths|
    && forall k | 0 <= k < th.Reach() ::
         th.paths[k] in s.shared.locks && s.shared.locks[th.paths[k]] == th.EntryAt(k)
  }

  ghost function Users(s: State, p: string): set<nat> {
    set t | 0 <= t < |s.threads| && s.threads[t].Uses(p)
  }

  ghost predicate Held(s: State, p: string) {
    exists t :: 0 <= t < |s.threads| && s.threads[t].Holds(p)
  }

  /** A path is mapped exactly while some thread is counted for it. Its entry is live: `waiters`
      is the number of those threads, and the mutex is locked exactly while a thread holds the path. */
  ghost predicate EntryInv(s: State, p: string) {
    && (p in s.shared.locks <==> Users(s, p) != {})
    && (p in s.shared.locks ==>
          && var e := s.shared.locks[p];
          && e < |s.shared.heap|
          && s.shared.heap[e].waiters == |Users(s, p)|
          && (s.shared.heap[e].locked <==> Held(s, p)))
  }

  ghost predicate Injective(s: State) {
    forall p, q | p in s.shared.locks && q in s.shared.locks && s.shared.locks[p] == s.shared.locks[q] :: p == q
  }

  /** Mutual exclusion: no two threads hold the same path. */
  ghost predicate Exclusive(s: State) {
    forall t, u, p | 0 <= t < |s.threads| && 0 <= u < |s.threads| && s.threads[t].Holds(p) && s.threads[u].Holds(p) ::
      t == u
  }

  ghost predicate Inv(s: State) {
    && (forall t | 0 <= t < |s.threads| :: ThreadInv(s, t))
    && (forall p :: EntryInv(s, p))
    && Injective(s)
    && Exclusive(s)
  }
}
