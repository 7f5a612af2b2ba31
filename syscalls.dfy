/** `syscall_handler` of userprog/syscall.c: the switch on the system-call
    number in `rax`, which stores the called function's result back into
    `rax` for the calls that return one, and the two calls that do their
    work in the handler's file, `sys_read` and `sys_write` (`sys_open`
    belongs to the descriptor table, module Descriptors). */
module Syscalls {
  import opened Machine
  import opened Descriptors
  import Arguments

  /** The cases of the switch. */
  datatype Syscall =
    | Halt | Exit | Fork | Exec | Wait | Create | Remove | Open | Filesize
    | Read | Write | Seek | Tell | Close
    | Unimplemented  // mmap, munmap, chdir, mkdir, readdir, isdir, inumber, symlink, dup2, mount, umount
    | Unknown

  /** The calls numbered 0 to 13, in number order. */
  const NUMBERED: seq<Syscall> :=
    [Halt, Exit, Fork, Exec, Wait, Create, Remove, Open, Filesize, Read, Write, Seek, Tell, Close]

  /** The case of the switch that system-call number `n` selects:
      numbers 14 to 24 have empty cases, the rest the default case. */
  function Decode(n: int): (c: Syscall)
    ensures 0 <= n < |NUMBERED| <==> c != Unimplemented && c != Unknown
  {
    if 0 <= n < |NUMBERED| then NUMBERED[n]
    else if n <= 24 && n >= 14 then Unimplemented
    else Unknown
  }

  /** The calls whose C prototype returns a value (`halt`, `exit`, `seek`
      and `close` return `void`; the unimplemented calls have no function). */
  predicate Returns(c: Syscall)
  {
    match c
    case Fork | Exec | Wait | Create | Remove | Open | Filesize | Read | Write | Tell => true
    case Halt | Exit | Seek | Close | Unimplemented | Unknown => false
  }

  /** The handler stores a result in `rax` for numbers 2 to 10 and 12, and
      for no other number. */
  lemma RaxWrittenFor(n: int)
    ensures Returns(Decode(n)) <==> 2 <= n <= 10 || n == 12
  {
    if 0 <= n < |NUMBERED| {
      assert Decode(n) == NUMBERED[n];
    }
  }

  /** `sys_write (fd, buffer, size)`: the console takes all `size` bytes
      written to descriptor 1; any other descriptor fails with -1.  The
      unsigned count is returned through `int`. */
  function SysWrite(fd: int, size: u32): (r: int)
    ensures r == -1 <==> fd != 1 || size == U32 - 1
    ensures r != -1 ==> Wrap32(r) == size
    ensures fd == 1 && size < 0x8000_0000 ==> r == size
  {
    if fd == 1 then ToInt32(size) else -1
  }

  /** `sys_read (fd, buffer, size)` on a table `fdt` with an entry for
      `fd` (the source indexes the table without a bounds check).  `input`
      is the key `input_getc` returns and `fileRead` the count `file_read`
      returns: an `off_t`, at most `size`. */
  function SysRead(fdt: seq<Option<File>>, fd: int, size: u32, input: byte, fileRead: nat): (r: int)
    requires 0 <= fd < |fdt|
    requires fileRead <= size && fileRead < 0x8000_0000
    ensures fd == 0 ==> 0 <= r < 256
    ensures fd != 0 ==> (r == -1 <==> fdt[fd] == None)
    ensures fd != 0 && r != -1 ==> (r == size <==> fileRead == size) && (r != size ==> r == 0)
  {
    if fd == 0 then input
    else if fdt[fd] == None then -1
    else if fileRead != size then 0
    else fileRead
  }

  /** What the calls the handler makes get from outside the model: the key
      `input_getc` returns, the file `filesys_open` returns, the count
      `file_read` returns, and the value a stub call leaves behind (the
      stubs return without one). */
  datatype World = World(input: byte, handle: Option<File>, fileRead: nat, stub: int)

  /** Where control goes after the handler: back to the user program, or
      nowhere (the machine powers off, or the thread exits with a status). */
  datatype Outcome = Resume | PowerOff | ThreadExit(status: int)

  /** `int` argument taken from a 64-bit register. */
  function IntArg(reg: int): int
  {
    ToInt32(Wrap32(reg))
  }

  /** What `sys_read` needs: a table entry for the descriptor, and a
      `file_read` count that fits the request. */
  predicate ReadAllowed(fdt: seq<Option<File>>, rdi: int, rdx: int, w: World)
  {
    && 0 <= IntArg(rdi) < |fdt|
    && w.fileRead <= Wrap32(rdx) && w.fileRead < 0x8000_0000
  }

  /** The value the called function returns, for the calls that return one. */
  function Result(c: Syscall, fdt: seq<Option<File>>, rdi: int, rdx: int, w: World): int
    requires |fdt| >= OPEN_LIMIT
    requires c == Read ==> ReadAllowed(fdt, rdi, rdx, w)
  {
    match c
    case Open => OpenOutcome(fdt, rdi, w.handle).0
    case Read => SysRead(fdt, IntArg(rdi), Wrap32(rdx), w.input, w.fileRead)
    case Write => SysWrite(IntArg(rdi), Wrap32(rdx))
    case _ => w.stub
  }

  /** The descriptor table after the call. */
  function TableAfter(c: Syscall, fdt: seq<Option<File>>, rdi: int, w: World): seq<Option<File>>
    requires |fdt| >= OPEN_LIMIT
  {
    match c
    case Open => OpenOutcome(fdt, rdi, w.handle).1
    case Exit => Cleared(fdt, FIRST_FD, OPEN_LIMIT)
    case _ => fdt
  }

  /** `syscall_handler`: dispatch on `rax`; the calls that return a value
      have it stored, sign-extended, in `rax`.  `exit` empties the
      descriptor table (the loop of `process_exit`, reached through
      `thread_exit`) and does not come back; neither does `halt`. */
  method SyscallHandler(f: Arguments.IntrFrame, t: FdTable, w: World) returns (outcome: Outcome)
    requires t.fdt.Length >= OPEN_LIMIT
    requires Decode(f.rax) == Read ==> ReadAllowed(t.fdt[..], f.rdi, f.rdx, w)
    modifies f, t.fdt
    ensures var c := Decode(old(f.rax));
      f.rax == if Returns(c) then Wrap64(Result(c, old(t.fdt[..]), old(f.rdi), old(f.rdx), w)) else old(f.rax)
    ensures f.rdi == old(f.rdi) && f.rsi == old(f.rsi) && f.rdx == old(f.rdx)
    ensures f.rsp == old(f.rsp) && f.stack == old(f.stack)
    ensures t.fdt[..] == TableAfter(Decode(old(f.rax)), old(t.fdt[..]), old(f.rdi), w)
    ensures outcome == match Decode(old(f.rax))
      case Halt => PowerOff
      case Exit => ThreadExit(IntArg(old(f.rdi)))
      case _ => Resume
  {
    var c := Decode(f.rax);
    outcome := Resume;
    match c {
      case Halt =>
        outcome := PowerOff;
      case Exit =>
        var _ := t.ProcessExit();
        outcome := ThreadExit(IntArg(f.rdi));
      case Open =>
        var fd := t.Open(f.rdi, w.handle);
        f.rax := Wrap64(fd);
      case Read =>
        f.rax := Wrap64(SysRead(t.fdt[..], IntArg(f.rdi), Wrap32(f.rdx), w.input, w.fileRead));
      case Write =>
        f.rax := Wrap64(SysWrite(IntArg(f.rdi), Wrap32(f.rdx)));
      case Fork | Exec | Wait | Create | Remove | Filesize | Tell =>
        f.rax := Wrap64(w.stub);
      case Seek | Close | Unimplemented | Unknown =>
    }
  }
}
