/** `process_wait` of userprog/process.c.  A parent keeps one
    `child_status` record per child in its `child` list; waiting for a
    child looks its record up by thread id, collects the exit status and
    removes the record, so that a child can be waited for once. */
module Children {

  /** `struct child_status`: the child's id, the exit status the child
      publishes, and the two flags. */
  datatype ChildStatus = ChildStatus(tid: int, exitStatus: int, hasExited: bool, hasBeenWaited: bool)

  /** `tid_t` value that names no thread. */
  const NO_TID: int := 0

  /** No two records of the list are for the same child. */
  predicate DistinctTids(rs: seq<ChildStatus>)
  {
    forall i, j :: 0 <= i < j < |rs| ==> rs[i].tid != rs[j].tid
  }

  /** Position of the first record for `tid` in list order, or |rs| when
      there is none. */
  function FindChild(rs: seq<ChildStatus>, tid: int): (k: nat)
    ensures k <= |rs|
    ensures k < |rs| ==> rs[k].tid == tid
    ensures forall i :: 0 <= i < k ==> rs[i].tid != tid
  {
    if rs == [] then 0
    else if rs[0].tid == tid then 0
    else 1 + FindChild(rs[1..], tid)
  }

  /** What `process_wait (tid)` returns and what is left of the list.
      `lateStatus` is the status a child that has not yet exited publishes
      before it wakes the parent (the child runs outside the model). */
  function WaitOutcome(rs: seq<ChildStatus>, tid: int, lateStatus: int): (r: (int, seq<ChildStatus>))
    ensures r.1 == rs ==> r.0 == -1
    ensures r.1 != rs ==> |r.1| == |rs| - 1 && forall c :: c in r.1 ==> c in rs
  {
    if tid == NO_TID then (-1, rs)
    else
      var k := FindChild(rs, tid);
      if k == |rs| || rs[k].hasBeenWaited then (-1, rs)
      else (if rs[k].hasExited then rs[k].exitStatus else lateStatus, rs[..k] + rs[k + 1..])
  }

  /** A wait for the id that names no thread, or for an id with no
      record, fails with -1 and leaves the list alone. */
  lemma WaitWithoutRecord(rs: seq<ChildStatus>, tid: int, lateStatus: int)
    requires tid == NO_TID || forall i :: 0 <= i < |rs| ==> rs[i].tid != tid
    ensures WaitOutcome(rs, tid, lateStatus) == (-1, rs)
  {
    if tid != NO_TID {
      var k := FindChild(rs, tid);
      assert k == |rs|;
    }
  }

  /** A wait decided by the first record `rs[k]` for the id: it fails with
      -1 and changes nothing when that record was already waited for;
      otherwise it returns the record's status (or the status the child
      goes on to publish) and removes exactly that record, keeping the
      others in order. */
  lemma WaitFirstRecord(rs: seq<ChildStatus>, tid: int, lateStatus: int, k: nat)
    requires tid != NO_TID && k < |rs| && rs[k].tid == tid
    requires forall i :: 0 <= i < k ==> rs[i].tid != tid
    ensures rs[k].hasBeenWaited ==> WaitOutcome(rs, tid, lateStatus) == (-1, rs)
    ensures !rs[k].hasBeenWaited ==>
      WaitOutcome(rs, tid, lateStatus)
        == (if rs[k].hasExited then rs[k].exitStatus else lateStatus, rs[..k] + rs[k + 1..])
    ensures !rs[k].hasBeenWaited ==> |WaitOutcome(rs, tid, lateStatus).1| == |rs| - 1
  {
    var f := FindChild(rs, tid);
  }

  /** Removing one record keeps the ids distinct, and the removed id is
      gone. */
  lemma RemoveRecord(rs: seq<ChildStatus>, k: nat)
    requires DistinctTids(rs) && k < |rs|
    ensures var rs' := rs[..k] + rs[k + 1..];
      DistinctTids(rs') && forall i :: 0 <= i < |rs'| ==> rs'[i].tid != rs[k].tid
  {
    var rs' := rs[..k] + rs[k + 1..];
    forall i | 0 <= i < |rs'|
      ensures rs'[i] == rs[if i < k then i else i + 1]
    {
    }
  }

  /** Waiting keeps the child ids distinct. */
  lemma WaitKeepsDistinct(rs: seq<ChildStatus>, tid: int, lateStatus: int)
    requires DistinctTids(rs)
    ensures DistinctTids(WaitOutcome(rs, tid, lateStatus).1)
  {
    var k := FindChild(rs, tid);
    if tid != NO_TID && k < |rs| && !rs[k].hasBeenWaited {
      RemoveRecord(rs, k);
    }
  }

  /** With one record per child, a second wait for the same child fails
      with -1, whatever the first returned. */
  lemma SecondWaitFails(rs: seq<ChildStatus>, tid: int, lateStatus: int, lateStatus': int)
    requires DistinctTids(rs)
    requires WaitOutcome(rs, tid, lateStatus).1 != rs
    ensures WaitOutcome(WaitOutcome(rs, tid, lateStatus).1, tid, lateStatus') == (-1, WaitOutcome(rs, tid, lateStatus).1)
  {
    var k := FindChild(rs, tid);
    RemoveRecord(rs, k);
    var rs' := rs[..k] + rs[k + 1..];
    assert FindChild(rs', tid) == |rs'|;
  }

  /** The calling process's list of children. */
  class ChildList {
    var records: seq<ChildStatus>

    constructor ()
      ensures records == []
    {
      records := [];
    }

    /** `process_wait`: walk the list for the first record of `childTid`.
        The `has_been_waited` flag the source sets lands on the record it
        then removes, so the model removes it directly. */
    method ProcessWait(childTid: int, lateStatus: int) returns (status: int)
      modifies this
      ensures (status, records) == WaitOutcome(old(records), childTid, lateStatus)
    {
      if childTid == NO_TID {
        return -1;
      }
      var i := 0;
      while i < |records|
        invariant 0 <= i <= |records|
        invariant forall j :: 0 <= j < i ==> records[j].tid != childTid
      {
        var cs := records[i];
        if cs.tid == childTid {
          if cs.hasBeenWaited {
            return -1;
          }
          status := if cs.hasExited then cs.exitStatus else lateStatus;
          records := records[..i] + records[i + 1..];
          return;
        }
        i := i + 1;
      }
      return -1;
    }
  }
}
