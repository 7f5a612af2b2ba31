/** The file-descriptor table of a process (`fdt` of the thread): `sys_open`
    in userprog/syscall.c fills its lowest free entry, and the loop at the
    start of `process_exit` in userprog/process.c closes and empties it. */
module Descriptors {
  import opened Machine

  /** An open file (`struct file *`); files themselves are outside the model. */
  type File = nat

  /** Entries 0 and 1 stand for standard input and output and are never assigned. */
  const FIRST_FD: nat := 2
  /** `sys_open` assigns entries below this bound. */
  const OPEN_LIMIT: nat := 128
  /** `process_exit`, as written, closes entries below this bound. */
  const EXIT_LIMIT: nat := 64

  /** The lowest empty entry in [lo, hi), or `hi` when all are taken. */
  function FirstFree(fdt: seq<Option<File>>, lo: nat, hi: nat): (k: nat)
    requires lo <= hi <= |fdt|
    ensures lo <= k <= hi
    ensures k < hi ==> fdt[k] == None
    ensures forall i :: lo <= i < k ==> fdt[i] != None
    decreases hi - lo
  {
    if lo == hi then hi
    else if fdt[lo] == None then lo
    else FirstFree(fdt, lo + 1, hi)
  }

  /** `sys_open (name)`: the descriptor it returns and the table after it.
      `name` is the user pointer (0 is NULL) and `handle` what
      `filesys_open` returns for it. */
  function OpenOutcome(fdt: seq<Option<File>>, name: int, handle: Option<File>): (r: (int, seq<Option<File>>))
    requires |fdt| >= OPEN_LIMIT
    ensures r.0 == -1 || FIRST_FD <= r.0 < OPEN_LIMIT
    ensures |r.1| == |fdt|
    ensures r.0 == -1 ==> r.1 == fdt
    ensures r.0 != -1 ==> fdt[r.0] == None && r.1[r.0] == handle && handle != None
  {
    if name == 0 || handle == None then (-1, fdt)
    else
      var k: int := FirstFree(fdt, FIRST_FD, OPEN_LIMIT);
      if k == OPEN_LIMIT then (-1, fdt) else (k, fdt[k := handle])
  }

  /** A successful open stores the file in the lowest empty entry of
      [2, 128) and returns that entry's number, changing no other entry.
      It fails with -1, leaving the table as it was, exactly when the name
      is NULL, the file cannot be opened or every entry is taken. */
  lemma OpenAssignsLowest(fdt: seq<Option<File>>, name: int, handle: Option<File>)
    requires |fdt| >= OPEN_LIMIT
    ensures var (fd, fdt') := OpenOutcome(fdt, name, handle);
      fd >= 0 ==>
        && FIRST_FD <= fd < OPEN_LIMIT && fdt[fd] == None && handle != None
        && (forall i :: FIRST_FD <= i < fd ==> fdt[i] != None)
        && fdt' == fdt[fd := handle]
    ensures var (fd, fdt') := OpenOutcome(fdt, name, handle);
      (fd == -1 <==> name == 0 || handle == None || forall i :: FIRST_FD <= i < OPEN_LIMIT ==> fdt[i] != None)
      && (fd == -1 ==> fdt' == fdt)
  {
    var k := FirstFree(fdt, FIRST_FD, OPEN_LIMIT);
    if name != 0 && handle != None && k == OPEN_LIMIT {
      assert forall i :: FIRST_FD <= i < OPEN_LIMIT ==> fdt[i] != None;
    }
  }

  /** The table with the entries of [lo, hi) emptied. */
  function Cleared(fdt: seq<Option<File>>, lo: nat, hi: nat): (r: seq<Option<File>>)
    ensures |r| == |fdt|
    ensures forall i :: 0 <= i < |r| ==> r[i] == None || r[i] == fdt[i]
    ensures forall i :: lo <= i < hi && i < |r| ==> r[i] == None
  {
    seq(|fdt|, i requires 0 <= i < |fdt| => if lo <= i < hi then None else fdt[i])
  }

  /** The files in the entries of [lo, hi), in descriptor order. */
  function Handles(fdt: seq<Option<File>>, lo: nat, hi: nat): (fs: seq<File>)
    requires hi <= |fdt|
    ensures |fs| <= if lo <= hi then hi - lo else 0
    decreases hi
  {
    if hi <= lo then []
    else Handles(fdt, lo, hi - 1) + (if fdt[hi - 1] == None then [] else [fdt[hi - 1].value])
  }

  /** A file is among the handles of [lo, hi) exactly when some entry of
      [lo, hi) holds it. */
  lemma {:induction false} HandlesHold(fdt: seq<Option<File>>, lo: nat, hi: nat, f: File)
    requires hi <= |fdt|
    ensures f in Handles(fdt, lo, hi) <==> exists i :: lo <= i < hi && fdt[i] == Some(f)
    decreases hi
  {
    if lo < hi {
      HandlesHold(fdt, lo, hi - 1, f);
      if fdt[hi - 1] == Some(f) {
        assert f in Handles(fdt, lo, hi);
      }
    }
  }

  lemma AllHandlesHold(fdt: seq<Option<File>>, lo: nat, hi: nat)
    requires hi <= |fdt|
    ensures forall f :: f in Handles(fdt, lo, hi) <==> exists i :: lo <= i < hi && fdt[i] == Some(f)
  {
    forall f
      ensures f in Handles(fdt, lo, hi) <==> exists i :: lo <= i < hi && fdt[i] == Some(f)
    {
      HandlesHold(fdt, lo, hi, f);
    }
  }

  /** As written, a process that has used descriptors 2 to 63 and opens
      one more file gets descriptor 64, which the exit loop, stopping at
      64, neither closes nor empties. */
  lemma ExitAsWrittenLeaks()
    ensures var fdt: seq<Option<File>> := seq(OPEN_LIMIT, i requires 0 <= i < OPEN_LIMIT => if FIRST_FD <= i < EXIT_LIMIT then Some(i) else None);
      var (fd, fdt') := OpenOutcome(fdt, 1, Some(1000));
      && fd == EXIT_LIMIT
      && Cleared(fdt', FIRST_FD, EXIT_LIMIT)[fd] == Some(1000)
      && 1000 !in Handles(fdt', FIRST_FD, EXIT_LIMIT)
  {
    var fdt: seq<Option<File>> := seq(OPEN_LIMIT, i requires 0 <= i < OPEN_LIMIT => if FIRST_FD <= i < EXIT_LIMIT then Some(i) else None);
    assert forall i :: FIRST_FD <= i < EXIT_LIMIT ==> fdt[i] == Some(i);
    OpenPastExitLimit(fdt, 1000);
  }

  /** When descriptors 2 to 63 hold files other than `f` and descriptor 64
      is free, opening `f` yields 64, which the exit loop as written keeps. */
  lemma OpenPastExitLimit(fdt: seq<Option<File>>, f: File)
    requires |fdt| >= OPEN_LIMIT && fdt[EXIT_LIMIT] == None
    requires forall i :: FIRST_FD <= i < EXIT_LIMIT ==> fdt[i] != None && fdt[i] != Some(f)
    ensures var (fd, fdt') := OpenOutcome(fdt, 1, Some(f));
      && fd == EXIT_LIMIT
      && Cleared(fdt', FIRST_FD, EXIT_LIMIT)[fd] == Some(f)
      && f !in Handles(fdt', FIRST_FD, EXIT_LIMIT)
  {
    var k := FirstFree(fdt, FIRST_FD, OPEN_LIMIT);
    assert k == EXIT_LIMIT;
    var fdt' := fdt[k := Some(f)];
    assert OpenOutcome(fdt, 1, Some(f)) == (k, fdt');
    assert Cleared(fdt', FIRST_FD, EXIT_LIMIT)[k] == fdt'[k];
    assert forall i :: FIRST_FD <= i < EXIT_LIMIT ==> fdt'[i] != Some(f);
    HandlesHold(fdt', FIRST_FD, EXIT_LIMIT, f);
  }

  /** With the exit loop running to the bound `sys_open` uses, the file of
      every descriptor `sys_open` hands out is closed and its entry emptied. */
  lemma OpenedIsClosedOnExit(fdt: seq<Option<File>>, name: int, handle: Option<File>)
    requires |fdt| >= OPEN_LIMIT
    ensures var (fd, fdt') := OpenOutcome(fdt, name, handle);
      fd >= 0 ==>
        && handle != None
        && Cleared(fdt', FIRST_FD, OPEN_LIMIT)[fd] == None
        && handle.value in Handles(fdt', FIRST_FD, OPEN_LIMIT)
  {
    var (fd, fdt') := OpenOutcome(fdt, name, handle);
    OpenAssignsLowest(fdt, name, handle);
    if fd >= 0 {
      HandlesHold(fdt', FIRST_FD, OPEN_LIMIT, handle.value);
      assert fdt'[fd] == Some(handle.value);
    }
  }

  /** The descriptor table of the running thread. */
  class FdTable {
    const fdt: array<Option<File>>

    /** A fresh table with every entry empty; `sys_open` needs at least
        128 entries. */
    constructor (size: nat)
      requires size >= OPEN_LIMIT
      ensures fresh(fdt) && fdt.Length == size
      ensures forall i :: 0 <= i < size ==> fdt[i] == None
    {
      fdt := new Option<File>[size](_ => None);
    }

    /** `sys_open`: scan [2, 128) for the first empty entry.  When there
        is none the source closes the file again, which is outside the
        model. */
    method Open(name: int, handle: Option<File>) returns (fd: int)
      requires fdt.Length >= OPEN_LIMIT
      modifies fdt
      ensures (fd, fdt[..]) == OpenOutcome(old(fdt[..]), name, handle)
    {
      if name == 0 || handle == None {
        return -1;
      }
      fd := FIRST_FD;
      while fd < OPEN_LIMIT
        invariant FIRST_FD <= fd <= OPEN_LIMIT
        invariant forall i :: FIRST_FD <= i < fd ==> fdt[i] != None
        invariant fdt[..] == old(fdt[..])
      {
        if fdt[fd] == None {
          FirstFreeIs(fdt[..], FIRST_FD, OPEN_LIMIT, fd);
          fdt[fd] := handle;
          return;
        }
        fd := fd + 1;
      }
      FirstFreeIs(fdt[..], FIRST_FD, OPEN_LIMIT, OPEN_LIMIT);
      return -1;
    }

    /** The exit loop over [2, hi): close every file in the range, in
        descriptor order, and empty its entry. */
    method CloseRange(hi: nat) returns (closed: seq<File>)
      requires hi <= fdt.Length
      modifies fdt
      ensures fdt[..] == Cleared(old(fdt[..]), FIRST_FD, hi)
      ensures closed == Handles(old(fdt[..]), FIRST_FD, hi)
    {
      ghost var s := fdt[..];
      closed := [];
      var i := FIRST_FD;
      if hi < i {
        assert fdt[..] == Cleared(s, FIRST_FD, hi);
        return;
      }
      while i < hi
        invariant FIRST_FD <= i <= hi
        invariant fdt[..] == Cleared(s, FIRST_FD, i)
        invariant closed == Handles(s, FIRST_FD, i)
      {
        if fdt[i] != None {
          closed := closed + [fdt[i].value];
          fdt[i] := None;
        }
        assert fdt[..] == Cleared(s, FIRST_FD, i + 1);
        i := i + 1;
      }
    }

    /** The descriptor loop of `process_exit`, run to the bound `sys_open`
        assigns below: afterwards no entry `sys_open` could have filled
        holds a file, and every file that was in one has been closed. */
    method ProcessExit() returns (closed: seq<File>)
      requires fdt.Length >= OPEN_LIMIT
      modifies fdt
      ensures fdt[..] == Cleared(old(fdt[..]), FIRST_FD, OPEN_LIMIT)
      ensures forall i :: FIRST_FD <= i < OPEN_LIMIT ==> fdt[i] == None
      ensures forall i :: 0 <= i < fdt.Length && !(FIRST_FD <= i < OPEN_LIMIT) ==> fdt[i] == old(fdt[i])
      ensures forall f :: f in closed <==> exists i :: FIRST_FD <= i < OPEN_LIMIT && old(fdt[i]) == Some(f)
    {
      closed := CloseRange(OPEN_LIMIT);
      AllHandlesHold(old(fdt[..]), FIRST_FD, OPEN_LIMIT);
    }
  }

  /** `k` is the lowest empty entry of [lo, hi) (or `hi`, when they are
      all taken). */
  lemma FirstFreeIs(fdt: seq<Option<File>>, lo: nat, hi: nat, k: nat)
    requires lo <= k <= hi <= |fdt|
    requires forall i :: lo <= i < k ==> fdt[i] != None
    requires k < hi ==> fdt[k] == None
    ensures FirstFree(fdt, lo, hi) == k
  {
    var f := FirstFree(fdt, lo, hi);
  }
}
