/** Mutual exclusion of the lock manager: the invariant holds initially and every step
    of every thread keeps it, although entries are deleted and created again. */
module LockSafety {
  import opened Strings
  import opened LockProtocol

  lemma UsesOnce(th: Thread, j: nat, k: nat)
    requires th.Sorted() && j < |th.paths| && k < |th.paths| && th.paths[j] == th.paths[k]
    ensures j == k
  {
    LessIrreflexive(th.paths[j]);
  }

  /** Replacing one thread changes who uses and who holds a path only by that thread. */
  lemma Frame(s: State, s': State, t: nat, p: string)
    requires t < |s.threads| && |s'.threads| == |s.threads|
    requires forall u | 0 <= u < |s.threads| && u != t :: s'.threads[u] == s.threads[u]
    ensures Users(s', p) - {t} == Users(s, p) - {t}
    ensures t in Users(s, p) <==> s.threads[t].Uses(p)
    ensures t in Users(s', p) <==> s'.threads[t].Uses(p)
    ensures s.threads[t].Uses(p) == s'.threads[t].Uses(p) ==> Users(s', p) == Users(s, p)
    ensures s.threads[t].Holds(p) == s'.threads[t].Holds(p) ==> Held(s', p) == Held(s, p)
  {
    assert Users(s', p) - {t} == Users(s, p) - {t};
    if s.threads[t].Uses(p) == s'.threads[t].Uses(p) {
      assert Users(s', p) == Users(s, p);
    }
    if s.threads[t].Holds(p) == s'.threads[t].Holds(p) {
      forall u | 0 <= u < |s.threads| ensures s.threads[u].Holds(p) == s'.threads[u].Holds(p) {}
    }
  }

  /** Whoever holds a path is counted for it. */
  lemma HoldsUses(s: State, p: string)
    ensures Held(s, p) ==> Users(s, p) != {}
  {
    if Held(s, p) {
      var t :| 0 <= t < |s.threads| && s.threads[t].Holds(p);
      assert s.threads[t].Uses(p);
      assert t in Users(s, p);
    }
  }

  /** Registering a path changes nothing about the thread's other paths. */
  lemma RegisterUses(th: Thread, e: EntryId, p: string)
    requires th.Sorted() && th.phase.Ready? && |th.held| < |th.paths|
    ensures !th.Uses(th.Target()) && th.(phase := Waiting(e)).Uses(th.Target())
    ensures p != th.Target() ==> th.(phase := Waiting(e)).Uses(p) == th.Uses(p)
  {
    var n, th' := |th.held|, th.(phase := Waiting(e));
    assert th'.paths[n] == th.Target();
    if th.Uses(th.Target()) { var k :| 0 <= k < n && th.paths[k] == th.Target(); UsesOnce(th, k, n); }
    if p != th.Target() {
      if th'.Uses(p) { var k :| 0 <= k < n + 1 && th.paths[k] == p; assert k < n; }
      if th.Uses(p) { var k :| 0 <= k < n && th.paths[k] == p; assert th'.paths[k] == p; }
    }
  }

  /** The path being registered gains one user, and no holder. */
  lemma RegisterUsers(s: State, t: nat)
    requires Runnable(s, t) && ThreadInv(s, t)
    requires s.threads[t].phase.Ready? && |s.threads[t].held| < |s.threads[t].paths|
    ensures var s', p := RunThread(s, t), s.threads[t].Target();
      t !in Users(s, p) && Users(s', p) == Users(s, p) + {t} && Held(s', p) == Held(s, p)
  {
    var s', p := RunThread(s, t), s.threads[t].Target();
    RegisterUses(s.threads[t], s'.threads[t].phase.ent, p);
    Frame(s, s', t, p);
    assert Users(s', p) == Users(s, p) + {t};
  }

  lemma RegisterTarget(s: State, t: nat)
    requires Runnable(s, t) && ThreadInv(s, t) && EntryInv(s, s.threads[t].Target())
    requires s.threads[t].phase.Ready? && |s.threads[t].held| < |s.threads[t].paths|
    ensures EntryInv(RunThread(s, t), s.threads[t].Target())
  {
    var s', p := RunThread(s, t), s.threads[t].Target();
    RegisterUsers(s, t);
    assert |Users(s', p)| == |Users(s, p)| + 1;
    HoldsUses(s, p);
  }

  lemma RegisterOther(s: State, t: nat, p: string)
    requires Inv(s) && Runnable(s, t)
    requires s.threads[t].phase.Ready? && |s.threads[t].held| < |s.threads[t].paths| && p != s.threads[t].Target()
    ensures EntryInv(RunThread(s, t), p)
  {
    var s', p0 := RunThread(s, t), s.threads[t].Target();
    assert ThreadInv(s, t) && EntryInv(s, p) && EntryInv(s, p0);
    RegisterUses(s.threads[t], s'.threads[t].phase.ent, p);
    Frame(s, s', t, p);
    if p in s.shared.locks && p0 in s.shared.locks { assert s.shared.locks[p] != s.shared.locks[p0]; }
  }

  lemma RegisterKeeps(s: State, t: nat)
    requires Inv(s) && Runnable(s, t)
    requires s.threads[t].phase.Ready? && |s.threads[t].held| < |s.threads[t].paths|
    ensures Inv(RunThread(s, t))
  {
    var s' := RunThread(s, t);
    assert ThreadInv(s, t) && EntryInv(s, s.threads[t].Target());
    forall p ensures EntryInv(s', p) {
      if p == s.threads[t].Target() { RegisterTarget(s, t); } else { RegisterOther(s, t, p); }
    }
    assert Injective(s') by {
      forall p | p in s.shared.locks ensures s.shared.locks[p] < |s.shared.heap| { assert EntryInv(s, p); }
    }
    forall u | 0 <= u < |s'.threads| ensures ThreadInv(s', u) { assert ThreadInv(s, u); }
    forall u, v, p | 0 <= u < |s'.threads| && 0 <= v < |s'.threads| && s'.threads[u].Holds(p) && s'.threads[v].Holds(p)
      ensures u == v
    {
      assert s.threads[u].Holds(p) && s.threads[v].Holds(p);
    }
  }

  lemma FinishKeeps(s: State, t: nat)
    requires Inv(s) && Runnable(s, t)
    requires s.threads[t].phase.Ready? && |s.threads[t].held| >= |s.threads[t].paths|
    ensures Inv(RunThread(s, t))
  {
    var s' := RunThread(s, t);
    assert s'.threads[t].held == s.threads[t].held && s'.threads[t].paths == s.threads[t].paths;
    assert ThreadInv(s, t);
    forall p ensures EntryInv(s', p) {
      assert EntryInv(s, p);
      Frame(s, s', t, p);
    }
    forall u | 0 <= u < |s'.threads| ensures ThreadInv(s', u) { assert ThreadInv(s, u); }
    forall u, v, p | 0 <= u < |s'.threads| && 0 <= v < |s'.threads| && s'.threads[u].Holds(p) && s'.threads[v].Holds(p)
      ensures u == v
    {
      assert s.threads[u].Holds(p) && s.threads[v].Holds(p);
    }
  }

  /** The heart of mutual exclusion: a waiter that gets its mutex is the only holder of the path,
      because its entry is the one in the map. */
  lemma AcquireKeeps(s: State, t: nat)
    requires Inv(s) && Runnable(s, t) && s.threads[t].phase.Waiting?
    ensures Inv(RunThread(s, t))
  {
    var s' := RunThread(s, t);
    var th, th' := s.threads[t], s'.threads[t];
    var e, n := th.phase.ent, |th.held|;
    var p0 := th.Target();
    assert ThreadInv(s, t);
    assert th.EntryAt(n) == e && s.shared.locks[p0] == e;
    assert EntryInv(s, p0);
    assert !Held(s, p0);
    assert th'.Holds(p0) by { assert th'.paths[n] == p0; }
    assert Held(s', p0);
    forall u | 0 <= u < |s.threads| && u != t ensures !s'.threads[u].Holds(p0) {
      assert s'.threads[u] == s.threads[u];
    }
    forall p | p != p0 ensures th'.Holds(p) == th.Holds(p) {
      if th'.Holds(p) { var k :| 0 <= k < n + 1 && th.paths[k] == p; assert k < n; }
      if th.Holds(p) { var k :| 0 <= k < n && th.paths[k] == p; assert th'.paths[k] == p; }
    }
    forall p ensures EntryInv(s', p) {
      assert EntryInv(s, p);
      Frame(s, s', t, p);
      assert th'.Reach() == th.Reach();
    }
    forall u | 0 <= u < |s'.threads| ensures ThreadInv(s', u) { assert ThreadInv(s, u); }
    forall u, v, p | 0 <= u < |s'.threads| && 0 <= v < |s'.threads| && s'.threads[u].Holds(p) && s'.threads[v].Holds(p)
      ensures u == v
    {
      if p != p0 {
        assert s.threads[u].Holds(p) && s.threads[v].Holds(p);
      }
    }
  }

  /** Releasing gives up exactly the last path taken. */
  lemma ReleaseHolds(s: State, t: nat) returns (p0: string)
    requires Inv(s) && Runnable(s, t) && s.threads[t].phase.Unlocking?
    ensures var n := |s.threads[t].held| - 1; n < |s.threads[t].paths| && p0 == s.threads[t].paths[n]
    ensures s.threads[t].Holds(p0) && forall u | 0 <= u < |s.threads| :: !RunThread(s, t).threads[u].Holds(p0)
    ensures forall p | p != p0 :: RunThread(s, t).threads[t].Holds(p) == s.threads[t].Holds(p)
  {
    var s' := RunThread(s, t);
    var th, th' := s.threads[t], s'.threads[t];
    var n := |th.held| - 1;
    assert ThreadInv(s, t);
    p0 := th.paths[n];
    assert th.Holds(p0);
    assert !th'.Holds(p0) by {
      if th'.Holds(p0) { var k :| 0 <= k < n && th.paths[k] == p0; UsesOnce(th, k, n); }
    }
    forall u | 0 <= u < |s.threads| ensures !s'.threads[u].Holds(p0) {
      if u != t { assert s'.threads[u] == s.threads[u]; }
    }
    forall p | p != p0 ensures th'.Holds(p) == th.Holds(p) {
      if th.Holds(p) { var k :| 0 <= k < n + 1 && th.paths[k] == p; assert k < n; assert th'.paths[k] == p; }
      if th'.Holds(p) { var k :| 0 <= k < n && th.paths[k] == p; assert th.paths[k] == p; }
    }
  }

  lemma ReleaseEntries(s: State, t: nat, p: string)
    requires Inv(s) && Runnable(s, t) && s.threads[t].phase.Unlocking?
    ensures EntryInv(RunThread(s, t), p)
  {
    var s', th := RunThread(s, t), s.threads[t];
    var n := |th.held| - 1;
    assert ThreadInv(s, t) && EntryInv(s, p);
    assert th.EntryAt(n) == th.held[n] && s.shared.locks[th.paths[n]] == th.held[n];
    var _ := ReleaseHolds(s, t);
    assert s'.threads[t].Reach() == th.Reach();
    Frame(s, s', t, p);
  }

  lemma ReleaseKeeps(s: State, t: nat)
    requires Inv(s) && Runnable(s, t) && s.threads[t].phase.Unlocking?
    ensures Inv(RunThread(s, t))
  {
    var s' := RunThread(s, t);
    var p0 := ReleaseHolds(s, t);
    forall p ensures EntryInv(s', p) { ReleaseEntries(s, t, p); }
    forall u | 0 <= u < |s'.threads| ensures ThreadInv(s', u) { assert ThreadInv(s, u); }
    forall u, v, p | 0 <= u < |s'.threads| && 0 <= v < |s'.threads| && s'.threads[u].Holds(p) && s'.threads[v].Holds(p)
      ensures u == v
    {
      if p != p0 {
        assert s.threads[u].Holds(p) && s.threads[v].Holds(p);
      }
    }
  }

  /** Leaving a path changes nothing about the thread's other paths. */
  lemma LeavingUses(th: Thread, p: string)
    requires th.Sorted() && th.phase.Leaving? && th.Reach() <= |th.paths|
    ensures th.Uses(th.Target()) && !th.(phase := Unlocking).Uses(th.Target())
    ensures p != th.Target() ==> th.(phase := Unlocking).Uses(p) == th.Uses(p)
  {
    var n, th' := |th.held|, th.(phase := Unlocking);
    assert th.paths[n] == th.Target();
    if th'.Uses(th.Target()) { var k :| 0 <= k < n && th.paths[k] == th.Target(); UsesOnce(th, k, n); }
    if p != th.Target() {
      if th.Uses(p) { var k :| 0 <= k < n + 1 && th.paths[k] == p; assert k < n && th'.paths[k] == p; }
      if th'.Uses(p) { var k :| 0 <= k < n && th'.paths[k] == p; assert th.paths[k] == p; }
    }
  }

  /** The left path: one user less, and unmapped exactly when that was the last one. */
  lemma UnregisterTarget(s: State, t: nat)
    requires Runnable(s, t) && s.threads[t].phase.Leaving? && ThreadInv(s, t)
    requires EntryInv(s, s.threads[t].Target())
    ensures EntryInv(RunThread(s, t), s.threads[t].Target())
  {
    var s' := RunThread(s, t);
    var th := s.threads[t];
    var p0 := th.Target();
    assert th.EntryAt(|th.held|) == th.phase.ent == s.shared.locks[p0];
    LeavingUses(th, p0);
    Frame(s, s', t, p0);
    HoldsUses(s', p0);
    assert Users(s', p0) == Users(s, p0) - {t};
    assert Users(s, p0) == Users(s', p0) + {t};
  }

  lemma UnregisterOther(s: State, t: nat, p: string)
    requires Runnable(s, t) && s.threads[t].phase.Leaving? && ThreadInv(s, t)
    requires EntryInv(s, p) && p != s.threads[t].Target()
    requires p in s.shared.locks ==> s.shared.locks[p] != s.threads[t].phase.ent
    ensures EntryInv(RunThread(s, t), p)
  {
    LeavingUses(s.threads[t], p);
    Frame(s, RunThread(s, t), t, p);
  }

  lemma UnregisterKeeps(s: State, t: nat)
    requires Inv(s) && Runnable(s, t) && s.threads[t].phase.Leaving?
    ensures Inv(RunThread(s, t))
  {
    var s' := RunThread(s, t);
    assert ThreadInv(s, t);
    var p0 := s.threads[t].Target();
    assert s.threads[t].EntryAt(|s.threads[t].held|) == s.shared.locks[p0];
    forall p ensures EntryInv(s', p) {
      assert EntryInv(s, p) && EntryInv(s, p0);
      if p == p0 { UnregisterTarget(s, t); } else { UnregisterOther(s, t, p); }
    }
    forall u | 0 <= u < |s'.threads| ensures ThreadInv(s', u) {
      assert ThreadInv(s, u);
      var th := s'.threads[u];
      forall k | 0 <= k < th.Reach()
        ensures th.paths[k] in s'.shared.locks && s'.shared.locks[th.paths[k]] == th.EntryAt(k)
      {
        assert th.Uses(th.paths[k]);
        assert u in Users(s', th.paths[k]);
        assert EntryInv(s', th.paths[k]);
        assert th.EntryAt(k) == s.threads[u].EntryAt(k);
      }
    }
    forall u, v, p | 0 <= u < |s'.threads| && 0 <= v < |s'.threads| && s'.threads[u].Holds(p) && s'.threads[v].Holds(p)
      ensures u == v
    {
      assert s.threads[u].Holds(p) && s.threads[v].Holds(p);
    }
  }

  lemma SpawnKeeps(s: State, paths: seq<string>)
    requires Inv(s) && Enabled(s, Spawn(paths))
    ensures Inv(Do(s, Spawn(paths)))
  {
    var s' := Do(s, Spawn(paths));
    forall p ensures EntryInv(s', p) {
      assert EntryInv(s, p);
      assert Users(s', p) == Users(s, p);
      forall u | 0 <= u < |s'.threads| && s'.threads[u].Holds(p) ensures u < |s.threads| && s.threads[u].Holds(p) {}
      if Held(s, p) { var u :| 0 <= u < |s.threads| && s.threads[u].Holds(p); assert s'.threads[u].Holds(p); }
    }
    forall u | 0 <= u < |s'.threads| ensures ThreadInv(s', u) {
      if u < |s.threads| { assert ThreadInv(s, u); }
    }
    forall u, v, p | 0 <= u < |s'.threads| && 0 <= v < |s'.threads| && s'.threads[u].Holds(p) && s'.threads[v].Holds(p)
      ensures u == v
    {
      assert s.threads[u].Holds(p) && s.threads[v].Holds(p);
    }
  }

  lemma StepKeeps(s: State, a: Action)
    requires Inv(s) && Enabled(s, a)
    ensures Inv(Do(s, a))
  {
    match a
    case Spawn(paths) => SpawnKeeps(s, paths);
    case Run(t) =>
      match s.threads[t].phase
      case Ready => if |s.threads[t].held| < |s.threads[t].paths| { RegisterKeeps(s, t); } else { FinishKeeps(s, t); }
      case Waiting(_) => AcquireKeeps(s, t);
      case Unlocking => ReleaseKeeps(s, t);
      case Leaving(_) => UnregisterKeeps(s, t);
  }

  lemma {:induction false} RunKeeps(s0: State, run: seq<Action>, s1: State)
    requires Inv(s0) && Reaches(s0, run, s1)
    ensures Inv(s1)
    decreases |run|
  {
    if run == [] {
    } else {
      StepKeeps(s0, run[0]);
      RunKeeps(Do(s0, run[0]), run[1..], s1);
    }
  }

  /** In every reachable interleaving of any number of threads, no two threads hold the same path. */
  lemma MutualExclusion(run: seq<Action>, s: State, t: nat, u: nat, p: string)
    requires Reaches(INITIAL, run, s)
    requires t < |s.threads| && u < |s.threads| && s.threads[t].Holds(p) && s.threads[u].Holds(p)
    ensures t == u
  {
    InitialInv();
    RunKeeps(INITIAL, run, s);
  }

  /** A thread leaves the critical section, by its first step towards unlocking, only where it holds every path it
      asked for; and while it does, no other thread holds any of them. */
  lemma UnlocksAfterAll(run: seq<Action>, s: State, t: nat, p: string)
    requires Reaches(INITIAL, run, s) && Runnable(s, t)
    requires s.threads[t].phase.Ready? && RunThread(s, t).threads[t].phase.Unlocking? && p in s.threads[t].paths
    ensures s.threads[t].Holds(p)
    ensures forall u | 0 <= u < |s.threads| && u != t :: !s.threads[u].Holds(p)
  {
    var th := s.threads[t];
    var k :| 0 <= k < |th.paths| && th.paths[k] == p;
    assert 0 <= k < |th.held|;
    forall u | 0 <= u < |s.threads| && s.threads[u].Holds(p) ensures u == t { MutualExclusion(run, s, t, u, p); }
  }

  lemma InitialInv()
    ensures Inv(INITIAL)
  {
    forall p ensures EntryInv(INITIAL, p) {
      assert Users(INITIAL, p) == {};
    }
  }

  /** Deleting and recreating entries never makes a thread wait for a path nobody holds: in every
      reachable state a waiter's mutex is free exactly when no thread holds the waiter's path. */
  lemma WaitsExactlyForHolder(run: seq<Action>, s: State, t: nat)
    requires Reaches(INITIAL, run, s)
    requires t < |s.threads| && s.threads[t].phase.Waiting?
    ensures Runnable(s, t) <==> !Held(s, s.threads[t].Target())
  {
    InitialInv();
    RunKeeps(INITIAL, run, s);
    assert ThreadInv(s, t);
    var th := s.threads[t];
    assert s.shared.locks[th.Target()] == th.EntryAt(|th.held|) == th.phase.ent;
    assert EntryInv(s, th.Target());
  }
}
