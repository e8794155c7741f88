/** `Locker` itself: the mutable map and entries, whose atomic blocks are proved to be
    the steps of `LockProtocol`, and the ordering loop of `LockMany`. */
module PathLock {
  import opened Strings
  import P = LockProtocol

  /** `type entry struct`. The ghost `id` is the entry's identity, its place in the order of creation. */
  class Entry {
    var locked: bool
    var waiters: int
    ghost const id: nat

    constructor (ghost id: nat)
      ensures this.id == id && !locked && waiters == 0
    {
      this.id := id;
      locked, waiters := false, 0;
    }
  }

  class Locker {
    var locks: map<string, Entry>
    ghost var heap: seq<Entry>  // every entry ever created

    /** This locker is in the protocol state `s`. */
    ghost predicate Represents(s: P.Shared)
      reads this, heap
    {
      && |heap| == |s.heap|
      && (forall i | 0 <= i < |heap| :: heap[i].id == i && P.Entry(heap[i].waiters, heap[i].locked) == s.heap[i])
      && locks.Keys == s.locks.Keys
      && (forall p | p in locks :: s.locks[p] < |heap| && locks[p] == heap[s.locks[p]])
    }

    constructor ()
      ensures Represents(P.INITIAL.shared)
    {
      locks, heap := map[], [];
    }

    /** `Lock`, first block. */
    method Register(path: string, ghost s: P.Shared) returns (ent: Entry)
      requires Represents(s)
      modifies this, heap
      ensures var (s', e) := P.RegisterEntry(s, path); Represents(s') && e < |heap| && ent == heap[e]
    {
      if path in locks {
        ent := locks[path];
      } else {
        ent := new Entry(|heap|);
        locks := locks[path := ent];
        heap := heap + [ent];
      }
      ent.waiters := ent.waiters + 1;
    }

    /** `ent.mutex.Lock()` returning: the mutex was free and is now taken. */
    method Acquire(ent: Entry, ghost s: P.Shared)
      requires Represents(s) && ent in heap && !ent.locked
      modifies ent`locked
      ensures Represents(P.SetLocked(s, ent.id, true))
    {
      ent.locked := true;
    }

    /** The unlock closure, first block: `ent.mutex.Unlock()`, a fatal error on a free mutex. */
    method Release(ent: Entry, ghost s: P.Shared)
      requires Represents(s) && ent in heap && ent.locked
      modifies ent`locked
      ensures Represents(P.SetLocked(s, ent.id, false))
    {
      ent.locked := false;
    }

    /** The unlock closure, second block. */
    method Unregister(path: string, ent: Entry, ghost s: P.Shared)
      requires Represents(s) && ent in heap
      modifies this`locks, ent`waiters
      ensures Represents(P.UnregisterEntry(s, path, ent.id))
    {
      ent.waiters := ent.waiters - 1;
      if ent.waiters == 0 {
        locks := locks - {path};
      }
    }
  }

  // ---- LockMany's order ----

  function Insert(p: string, s: seq<string>): (r: seq<string>)
    ensures forall q :: q in r <==> q == p || q in s
  {
    if s == [] then [p] else if Less(p, s[0]) then [p] + s else [s[0]] + Insert(p, s[1..])
  }

  /** `sort.Strings` on distinct strings. */
  function Sort(s: seq<string>): (r: seq<string>)
    ensures forall q :: q in r <==> q in s
  {
    if s == [] then [] else Insert(s[0], Sort(s[1..]))
  }

  lemma {:induction false} InsertSorted(p: string, s: seq<string>)
    requires StrictlySorted(s) && p !in s
    ensures StrictlySorted(Insert(p, s))
  {
    if s == [] {
    } else {
      if Less(p, s[0]) {
        forall i | 0 <= i < |s| ensures Less(p, s[i]) { if i > 0 { LessTransitive(p, s[0], s[i]); } }
      } else {
        InsertSorted(p, s[1..]);
        LessTotal(p, s[0]);
        var r := Insert(p, s[1..]);
        forall i | 0 <= i < |r| ensures Less(s[0], r[i]) {
          assert r[i] in r;
          if r[i] != p { var j :| 0 <= j < |s[1..]| && s[1..][j] == r[i]; assert s[j + 1] == r[i]; }
        }
      }
    }
  }

  lemma {:induction false} SortSorted(s: seq<string>)
    requires forall i, j | 0 <= i < j < |s| :: s[i] != s[j]
    ensures StrictlySorted(Sort(s))
  {
    if s == [] {
    } else {
      SortSorted(s[1..]);
      InsertSorted(s[0], Sort(s[1..]));
    }
  }

  /** The paths `LockMany` locks, in the order it locks them: each given path once, increasing.
      By `StrictlySortedUnique` the order depends only on which paths are given. */
  method LockOrder(paths: seq<string>) returns (unique: seq<string>)
    ensures StrictlySorted(unique)
    ensures forall p :: p in unique <==> p in paths
    ensures forall s: P.State :: P.Enabled(s, P.Spawn(unique))
  {
    var seen: set<string> := {};
    unique := [];
    for i := 0 to |paths|
      invariant forall p :: p in seen <==> p in unique
      invariant forall p :: p in unique <==> p in paths[..i]
      invariant forall j, k | 0 <= j < k < |unique| :: unique[j] != unique[k]
    {
      if paths[i] in seen { continue; }
      seen := seen + {paths[i]};
      unique := unique + [paths[i]];
    }
    assert paths[..|paths|] == paths;
    SortSorted(unique);
    unique := Sort(unique);
  }
}
