/** Faults of the disk and of the database: on a faulty store any call may fail, on a sound one a call
    fails only for the reasons its method gives. */
module Faults {
  /** Whether a call gets through. */
  method Reach(faulty: bool) returns (ok: bool)
    ensures !faulty ==> ok
  {
    ok := *;
    if !faulty { ok := true; }
  }
}
