/** Deadlock freedom and termination of the lock manager. */
module LockProgress {
  import opened Strings
  import opened LockProtocol
  import opened LockSafety

  /** The threads that wait for a path greater than `p`. */
  ghost function WaitingAbove(s: State, p: string): set<nat> {
    set u | 0 <= u < |s.threads| && s.threads[u].phase.Waiting? && Less(p, s.threads[u].Target())
  }

  /** From an unfinished thread, follow the chain "waits for a path held by". Each holder waits for a
      greater path than the one it holds, so the chain ends at a thread that can run. */
  lemma {:induction false} Unblock(s: State, t: nat) returns (r: nat)
    requires Inv(s) && t < |s.threads| && !s.threads[t].Finished()
    ensures Runnable(s, r)
    decreases if s.threads[t].phase.Waiting? then 0 else 1, WaitingAbove(s, s.threads[t].Target())
  {
    if Runnable(s, t) { return t; }
    var th := s.threads[t];
    var p := th.Target();
    assert ThreadInv(s, t);
    assert s.shared.locks[p] == th.EntryAt(|th.held|) == th.phase.ent;
    assert EntryInv(s, p);
    var h :| 0 <= h < |s.threads| && s.threads[h].Holds(p);
    if Runnable(s, h) { return h; }
    var holder := s.threads[h];
    assert ThreadInv(s, h);
    var k :| 0 <= k < |holder.held| && holder.paths[k] == p;
    assert Less(p, holder.Target());
    forall u | u in WaitingAbove(s, holder.Target()) ensures u in WaitingAbove(s, p) {
      LessTransitive(p, holder.Target(), s.threads[u].Target());
    }
    LessIrreflexive(holder.Target());
    assert h in WaitingAbove(s, p) && h !in WaitingAbove(s, holder.Target());
    r := Unblock(s, h);
  }

  /** No reachable state with an unfinished thread is stuck. */
  lemma DeadlockFree(run: seq<Action>, s: State, t: nat)
    requires Reaches(INITIAL, run, s)
    requires t < |s.threads| && !s.threads[t].Finished()
    ensures exists r: nat :: Runnable(s, r)
  {
    InitialInv();
    RunKeeps(INITIAL, run, s);
    var r := Unblock(s, t);
  }

  // ---- Termination ----

  function TotalWork(threads: seq<Thread>): int {
    if threads == [] then 0 else threads[0].Work() + TotalWork(threads[1..])
  }

  lemma {:induction false} TotalWorkUpdate(threads: seq<Thread>, t: nat, th: Thread)
    requires t < |threads|
    ensures TotalWork(threads[t := th]) == TotalWork(threads) - threads[t].Work() + th.Work()
  {
    if t == 0 {
      assert threads[t := th][1..] == threads[1..];
    } else {
      TotalWorkUpdate(threads[1..], t - 1, th);
      assert threads[t := th][1..] == threads[1..][t - 1 := th];
    }
  }

  lemma {:induction false} TotalWorkNonNegative(threads: seq<Thread>)
    requires forall t | 0 <= t < |threads| :: threads[t].Work() >= 0
    ensures TotalWork(threads) >= 0
    ensures TotalWork(threads) == 0 ==> forall t | 0 <= t < |threads| :: threads[t].Work() == 0
  {
    if threads == [] {
    } else {
      forall t | 0 <= t < |threads[1..]|
        ensures threads[1..][t].Work() >= 0
      {
        assert threads[1..][t] == threads[t + 1];
      }
      TotalWorkNonNegative(threads[1..]);
      if TotalWork(threads) == 0 {
        forall t | 0 <= t < |threads| ensures threads[t].Work() == 0 {
          if t > 0 { assert threads[1..][t - 1] == threads[t]; }
        }
      }
    }
  }

  lemma StepWorks(s: State, t: nat)
    requires Inv(s) && Runnable(s, t)
    ensures TotalWork(RunThread(s, t).threads) == TotalWork(s.threads) - 1
  {
    assert ThreadInv(s, t);
    TotalWorkUpdate(s.threads, t, RunThread(s, t).threads[t]);
  }

  ghost predicate NoSpawns(run: seq<Action>) {
    forall i | 0 <= i < |run| :: run[i].Run?
  }

  lemma {:induction false} RunWorks(s0: State, run: seq<Action>, s1: State)
    requires Inv(s0) && NoSpawns(run) && Reaches(s0, run, s1)
    ensures TotalWork(s1.threads) == TotalWork(s0.threads) - |run|
    decreases |run|
  {
    if run == [] {
    } else {
      StepWorks(s0, run[0].t);
      StepKeeps(s0, run[0]);
      RunWorks(Do(s0, run[0]), run[1..], s1);
    }
  }

  /** Once no new calls arrive, every run from a reachable state is finite: it takes at most the
      remaining work of all threads. A run that cannot be continued took exactly that many steps;
      then every call has returned, and the lock map is empty again. */
  lemma EveryRunEnds(prefix: seq<Action>, s0: State, run: seq<Action>, s1: State)
    requires Reaches(INITIAL, prefix, s0)
    requires NoSpawns(run) && Reaches(s0, run, s1)
    ensures |run| <= TotalWork(s0.threads)
    ensures (forall t: nat :: !Runnable(s1, t)) <==> |run| == TotalWork(s0.threads)
    ensures (forall t: nat :: !Runnable(s1, t)) ==>
      s1.shared.locks == map[] && forall t | 0 <= t < |s1.threads| :: s1.threads[t].Finished()
  {
    InitialInv();
    RunKeeps(INITIAL, prefix, s0);
    RunKeeps(s0, run, s1);
    RunWorks(s0, run, s1);
    forall t | 0 <= t < |s1.threads|
      ensures s1.threads[t].Work() >= 0 && (s1.threads[t].Work() == 0 <==> s1.threads[t].Finished())
    {
      assert ThreadInv(s1, t);
    }
    TotalWorkNonNegative(s1.threads);
    if forall t: nat :: !Runnable(s1, t) {
      forall t | 0 <= t < |s1.threads| ensures s1.threads[t].Finished() {
        if !s1.threads[t].Finished() { var r := Unblock(s1, t); }
      }
      AllFinishedWork(s1.threads);
      forall p ensures p !in s1.shared.locks {
        assert EntryInv(s1, p);
        assert Users(s1, p) == {};
      }
    }
  }

  lemma {:induction false} AllFinishedWork(threads: seq<Thread>)
    requires forall t | 0 <= t < |threads| :: threads[t].Finished()
    ensures TotalWork(threads) == 0
  {
    if threads == [] {
    } else {
      AllFinishedWork(threads[1..]);
    }
  }

  // ---- Why LockMany sorts ----

  /** Two calls that took the same two locks in opposite orders, without sorting. */
  function Opposite(p: string, q: string): State {
    State(Shared(map[], []), [Thread([p, q], [], Ready), Thread([q, p], [], Ready)])
  }

  /** Each thread holds its first lock. */
  function BothHoldOne(p: string, q: string): State {
    State(Shared(map[p := 0, q := 1], [Entry(1, true), Entry(1, true)]),
        [Thread([p, q], [0], Ready), Thread([q, p], [1], Ready)])
  }

  lemma BothTakeOne(p: string, q: string)
    requires p != q
    ensures Reaches(Opposite(p, q), [Run(0), Run(0), Run(1), Run(1)], BothHoldOne(p, q))
  {
    var s1 := RunThread(Opposite(p, q), 0);
    var s2 := RunThread(s1, 0);
    assert s2.threads[0] == Thread([p, q], [0], Ready) && s2.shared == Shared(map[p := 0], [Entry(1, true)]);
    var s3 := RunThread(s2, 1);
    assert s3.threads == [Thread([p, q], [0], Ready), Thread([q, p], [], Waiting(1))];
    assert s3.shared.locks == map[p := 0, q := 1] && s3.shared.heap == [Entry(1, true), Entry(1, false)];
    var s4 := RunThread(s3, 1);
    var none: seq<EntryId> := [];
    assert none + [1] == [1] && s4.threads[1] == Thread([q, p], [1], Ready);
    assert s4.threads == BothHoldOne(p, q).threads && s4.shared.heap == BothHoldOne(p, q).shared.heap;
    assert Reaches(s4, [], s4);
    ReachesCons(Run(1), s3, [], s4);
    ReachesCons(Run(1), s2, [Run(1)], s4);
    ReachesCons(Run(0), s1, [Run(1), Run(1)], s4);
    ReachesCons(Run(0), Opposite(p, q), [Run(0), Run(1), Run(1)], s4);
    assert [Run(0)] + [Run(0), Run(1), Run(1)] == [Run(0), Run(0), Run(1), Run(1)];
  }

  lemma BothWait(p: string, q: string) returns (s: State)
    requires p != q
    ensures Reaches(BothHoldOne(p, q), [Run(0), Run(1)], s)
    ensures forall t: nat :: !Runnable(s, t)
    ensures forall t | 0 <= t < |s.threads| :: !s.threads[t].Finished()
  {
    var s5 := RunThread(BothHoldOne(p, q), 0);
    s := RunThread(s5, 1);
    assert s.threads == [Thread([p, q], [0], Waiting(1)), Thread([q, p], [1], Waiting(0))];
    assert s.shared.heap == [Entry(2, true), Entry(2, true)];
    assert Reaches(s5, [Run(1)], s);
  }

  lemma {:induction false} ReachesConcat(s0: State, a: seq<Action>, s1: State, b: seq<Action>, s2: State)
    requires Reaches(s0, a, s1) && Reaches(s1, b, s2)
    ensures Reaches(s0, a + b, s2)
    decreases |a|
  {
    if a == [] {
      assert a + b == b;
    } else {
      ReachesConcat(Do(s0, a[0]), a[1..], s1, b, s2);
      ConcatTail(a, b);
    }
  }

  /** Without the sort there is a run of six steps into a state where nothing can move and nothing is finished. */
  lemma UnsortedDeadlocks(p: string, q: string) returns (run: seq<Action>, s: State)
    requires p != q
    ensures NoSpawns(run) && Reaches(Opposite(p, q), run, s)
    ensures forall t: nat :: !Runnable(s, t)
    ensures forall t | 0 <= t < |s.threads| :: !s.threads[t].Finished()
  {
    BothTakeOne(p, q);
    s := BothWait(p, q);
    run := [Run(0), Run(0), Run(1), Run(1)] + [Run(0), Run(1)];
    ReachesConcat(Opposite(p, q), [Run(0), Run(0), Run(1), Run(1)], BothHoldOne(p, q), [Run(0), Run(1)], s);
  }

  lemma ReachesCons(a: Action, s0: State, run: seq<Action>, s1: State)
    requires Enabled(s0, a) && Reaches(Do(s0, a), run, s1)
    ensures Reaches(s0, [a] + run, s1)
  {
    assert ([a] + run)[1..] == run;
  }
}
