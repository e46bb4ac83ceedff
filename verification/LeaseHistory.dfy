/** Runs of the server with a database that may fail to be written, and what a restart gives back. */
module LeaseHistory {
  import opened Common
  import opened LeaseSpec
  import opened LeaseUpdate
  import opened LeaseDb

  /** A request, and whether it wrote the database. */
  datatype Request = Request(op: Op, written: bool)

  function Ops(reqs: seq<Request>): seq<Op> {
    seq(|reqs|, i requires 0 <= i < |reqs| => reqs[i].op)
  }

  /** The state after the last request of the run that wrote the database, or saved if none did. */
  function LastWritten(ranges: Ranges, s: State, saved: State, reqs: seq<Request>): State
    requires Shaped(ranges, s)
    decreases |reqs|
  {
    if reqs == [] then saved
    else
      var t := Step(ranges, s, reqs[0].op);
      LastWritten(ranges, t, if reqs[0].written then t else saved, reqs[1..])
  }

  /** The run may leave the file as last, in whatever order each write lists the leases. */
  ghost predicate LeavesFile(ranges: Ranges, s: State, file: seq<JsonLease>, reqs: seq<Request>, last: seq<JsonLease>)
    requires Shaped(ranges, s)
    decreases |reqs|
  {
    if reqs == [] then last == file
    else
      var t := Step(ranges, s, reqs[0].op);
      exists next :: Wrote(reqs[0].written, t.byAddr, file, next) && LeavesFile(ranges, t, next, reqs[1..], last)
  }

  /** Whatever writes fail, the file is a store of the state after the last one that did not. */
  lemma {:induction false} FileIsLastWritten(
    ranges: Ranges, s: State, saved: State, file: seq<JsonLease>, reqs: seq<Request>, last: seq<JsonLease>)
    requires Shaped(ranges, s) && Stored(saved.byAddr, file) && LeavesFile(ranges, s, file, reqs, last)
    ensures Stored(LastWritten(ranges, s, saved, reqs).byAddr, last)
    decreases |reqs|
  {
    if reqs != [] {
      var t := Step(ranges, s, reqs[0].op);
      var next :| Wrote(reqs[0].written, t.byAddr, file, next) && LeavesFile(ranges, t, next, reqs[1..], last);
      FileIsLastWritten(ranges, t, if reqs[0].written then t else saved, next, reqs[1..], last);
    }
  }

  lemma {:induction false} LastWrittenAgrees(ranges: Ranges, s: State, saved: State, reqs: seq<Request>)
    requires Consistent(ranges, s) && Consistent(ranges, saved) && ValidRanges(ranges) && AllSafe(ranges, s, Ops(reqs))
    ensures Consistent(ranges, LastWritten(ranges, s, saved, reqs))
    decreases |reqs|
  {
    if reqs != [] {
      assert Ops(reqs)[0] == reqs[0].op && Ops(reqs)[1..] == Ops(reqs[1..]);
      StepKeepsIff(ranges, s, reqs[0].op);
      var t := Step(ranges, s, reqs[0].op);
      LastWrittenAgrees(ranges, t, if reqs[0].written then t else saved, reqs[1..]);
    }
  }

  /**
   * After any run of safe requests, whichever of their writes fail, a restart gives back the state
   * after the last write that did not, up to what a stored lease keeps.
   */
  lemma RestartGivesLastWritten(
    ranges: Ranges, s: State, file: seq<JsonLease>, reqs: seq<Request>, last: seq<JsonLease>)
    requires Consistent(ranges, s) && ValidRanges(ranges) && AllSafe(ranges, s, Ops(reqs))
    requires Stored(s.byAddr, file) && LeavesFile(ranges, s, file, reqs, last)
    ensures Decoded(last).1 == 0
    ensures LoadLeases(ranges, EmptyState(|ranges|), Decoded(last).0) == KeptState(LastWritten(ranges, s, s, reqs))
  {
    FileIsLastWritten(ranges, s, s, file, reqs, last);
    LastWrittenAgrees(ranges, s, s, reqs);
    StoreLoadRoundTrip(ranges, LastWritten(ranges, s, s, reqs), last);
  }
}
