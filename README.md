# pintos-kaist kernel core in Dafny

This project models the parts of the pintos-kaist teaching kernel that
other parts rely on.

- **Intrusive doubly linked list** (`lib/kernel/list.c`, `include/lib/kernel/list.h`). Every
  kernel queue is built from it: `list_insert`, `list_remove`, `list_splice`,
  `list_reverse`, and the merge sort `list_sort` built from `is_sorted`,
  `find_end_of_run` and `inplace_merge`. Also `list_insert_ordered`, `list_unique`,
  `list_max` and `list_min`.
- **User programs** (`userprog/process.c`):
  - the ELF header test and the program-header switch of `load`;
  - `validate_segment`, and the page counts `load` hands to `load_segment`;
  - `load_segment`'s page loop;
  - the command-line tokenising and user-stack layout of `process_exec`;
  - `process_wait`;
  - the descriptor loop of `process_exit`.
- **System calls** (`userprog/syscall.c`): the dispatch in `syscall_handler`, and
  `sys_open`, `sys_read` and `sys_write`.

Nodes are integer indices into an `Arena` class that holds the `next` and `prev`
link arrays. A `List` is a class with its two sentinels and the ghost sequence
of its interior elements. Every mutating list operation is a method that
relinks the arrays in place. It is proved against a function on sequences:

- `Merge` for `inplace_merge`;
- `InsertPos` for `list_insert_ordered`;
- `Unique` and `Dups` for `list_unique`;
- `Reverse` for `list_reverse`;
- `Spliced` for `list_splice`.

Lemmas then prove what the source promises about those functions: sorted,
a permutation, stable, and so on. The comparator `less (a, b, aux)` is a
strict order given by integer keys: `less(a, b)` is `key(a) < key(b)`. The
node identity doubles as the tag that stability is stated with.

In the loader, all arithmetic is done on mathematical integers, and the C
conversions are written out explicitly:

- `uint64_t` wrap-around (`Wrap64`);
- `uint32_t` truncation (`Wrap32`);
- `unsigned` to `int` (`ToInt32`).

`PGSIZE` is 4096, and `is_user_vaddr` is `va < KERN_BASE` with `KERN_BASE`
= 0x8004000000. The stack layout follows section 3.2.3 of the System V AMD64
ABI, as the code does. `process_wait` runs over a `ChildList` class whose
records field the method updates. The descriptor table is an `FdTable` class
whose array `sys_open` and `process_exit` write in place.

The source disagrees with itself in two places:

- `sys_open` assigns descriptors up to 127 (`syscall.c:178`), while the exit
  loop of `process_exit` stops at 64 (`process.c:363`);
- a comment at `list.c:789` says `list_max` returns the last of equal maxima,
  but the strict comparison returns the first, which is what the model does.

The model's working path (`Segments`, `ProcessExit` and the handler's `exit`)
uses the corrected side of the two findings below. The as-written side is
stated and proved beside it.

## Model

| member | source | states |
|---|---|---|
| Lists.List.constructor | pintos-kaist/lib/kernel/list.c:99-105 | `list_init`: the list is valid and empty (head linked to tail), and no other node's links change |
| Lists.List.Begin | pintos-kaist/lib/kernel/list.c:119-122 | the beginning is the front of a non-empty list and the tail of an empty one |
| Lists.List.Next | pintos-kaist/lib/kernel/list.c:138-141 | the successor of the element at chain position i is the element at position i+1 (the tail after the back) |
| Lists.List.Rbegin | pintos-kaist/lib/kernel/list.c:173-176 | the reverse beginning is the back of a non-empty list and the head of an empty one |
| Lists.List.Prev | pintos-kaist/lib/kernel/list.c:192-195 | the predecessor of the element at chain position i is the element at position i-1 (the head before the front) |
| Lists.List.Insert | pintos-kaist/lib/kernel/list.c:284-292 | with `before` interior or the tail, the interior sequence is the old one with the element placed immediately before `before`; no node outside the chain and the new element changes |
| Lists.Arena.InsertAt | pintos-kaist/lib/kernel/list.c:288-291 | the four link writes of `list_insert` turn the chain c into c with x inserted at position q, touching no node outside the chain and x |
| Lists.List.Splice | pintos-kaist/lib/kernel/list.c:311-330 | within one list: nothing changes when `first == last`; otherwise the chain is the old one with [first, last) moved intact, in order, to just before `before`, and nodes outside the chain are untouched |
| Lists.List.MoveRange | pintos-kaist/lib/kernel/list.c:316-329 | the relinking half of `list_splice` for a non-empty range: cut [first, last) out, then paste it before `before` |
| Lists.Arena.Relink | pintos-kaist/lib/kernel/list.c:322-329 | within one chain, the six link writes of `list_splice` realise the spliced chain, and links off the chain keep their values |
| Lists.List.SpliceFrom | pintos-kaist/lib/kernel/list.c:311-330 | between two disjoint lists of one arena: nothing changes when `first == last`; otherwise the source list loses [first, last), the range appears intact and in order just before `before` in this list, both stay valid, and nodes outside the two chains are untouched |
| Lists.Arena.Transfer | pintos-kaist/lib/kernel/list.c:322-329 | the six link writes of `list_splice`, across two disjoint chains, leave the first chain without the range and the second with the range inserted at position q, and no node outside the two chains changes |
| Lists.List.PushFront | pintos-kaist/lib/kernel/list.c:347-349 | the new element becomes the front; the rest is unchanged |
| Lists.List.PushBack | pintos-kaist/lib/kernel/list.c:365-367 | the new element becomes the back; the rest is unchanged |
| Lists.List.Remove | pintos-kaist/lib/kernel/list.c:414-419 | an interior element is deleted, the others keep their order, and its former successor (possibly the tail) is returned |
| Lists.List.PopFront | pintos-kaist/lib/kernel/list.c:433-437 | on a non-empty list, returns the former front and leaves the rest |
| Lists.List.PopBack | pintos-kaist/lib/kernel/list.c:451-455 | on a non-empty list, returns the former back and leaves the rest |
| Lists.List.Front | pintos-kaist/lib/kernel/list.c:468-471 | defined only on a non-empty list: the first interior element, neither head nor tail |
| Lists.List.Back | pintos-kaist/lib/kernel/list.c:484-487 | defined only on a non-empty list: the last interior element, neither head nor tail |
| Lists.List.Size | pintos-kaist/lib/kernel/list.c:502-509 | the walk from begin to end counts exactly the interior elements |
| Lists.List.Empty | pintos-kaist/lib/kernel/list.c:521-523 | true exactly when the list has no interior element |
| Lists.List.Reverse | pintos-kaist/lib/kernel/list.c:555-564 | the interior sequence becomes its reverse and stays a consistent doubly linked chain; an empty list is left as it is |
| Lists.Arena.SwapEnds | pintos-kaist/lib/kernel/list.c:561-562 | the final two swaps of `list_reverse`: the head's `next` is exchanged with the tail's `prev`, then the new front's `prev` with the new back's `next` |
| ListOrder.Reverse | pintos-kaist/lib/kernel/list.c:555-564 | position i of the reverse holds the element at position n-1-i |
| ListAlgorithms.IsSorted | pintos-kaist/lib/kernel/list.c:581-588 | returns true exactly when the range [a, b) is nondecreasing under `less` |
| ListOrder.NoDescentIsSorted | pintos-kaist/lib/kernel/list.c:581-588 | "no element is less than its predecessor", which `is_sorted` checks, holds exactly when the sequence is sorted |
| ListOrder.DescentUnsorted | pintos-kaist/lib/kernel/list.c:584-586 | one element less than its predecessor makes the range unsorted |
| ListAlgorithms.FindEndOfRun | pintos-kaist/lib/kernel/list.c:609-620 | returns the element past the nondecreasing run that starts at `a`, which is at least one element long; the run ends at `b` or at a descent |
| ListAlgorithms.InplaceMerge | pintos-kaist/lib/kernel/list.c:642-659 | the two adjacent sorted runs are replaced by their merge, while the prefix and the suffix stay and nodes off the list are untouched |
| ListAlgorithms.MergeWalk | pintos-kaist/lib/kernel/list.c:652-658 | the cursor loop of `inplace_merge` leaves P + Merge(A, B) + S and keeps the multiset of chain nodes |
| ListAlgorithms.MoveBefore | pintos-kaist/lib/kernel/list.c:655-657 | moving the right-run element at position j in front of the left-run element at position i |
| ListOrder.Merge | pintos-kaist/lib/kernel/list.c:642-659 | the merge has the combined length and the combined multiset of the two runs |
| ListOrder.MergeSorted | pintos-kaist/lib/kernel/list.c:642-659 | merging two sorted runs gives a sorted sequence |
| ListOrder.MergeStable | pintos-kaist/lib/kernel/list.c:652-658 | for every key, the equal elements of the merge are those of the left run followed by those of the right run, because a right-run element moves only when strictly less |
| ListOrder.MergeDescents | pintos-kaist/lib/kernel/list.c:698-704 | merging two adjacent maximal runs removes exactly one descent from the list |
| ListOrder.SortedNoDescents | pintos-kaist/lib/kernel/list.c:678-710 | a sorted sequence has no descents |
| ListAlgorithms.MergeRuns | pintos-kaist/lib/kernel/list.c:698-704 | one merge of a pass keeps the list a stable permutation of the input, and advances the pass by one output run |
| ListAlgorithms.MergeRunPair | pintos-kaist/lib/kernel/list.c:698-704 | finding the second run and merging it with the first |
| ListAlgorithms.SortPass | pintos-kaist/lib/kernel/list.c:691-707 | one pass of `list_sort` is a stable permutation; with at most one output run the list is sorted, otherwise the number of descents went down, which bounds the outer loop |
| ListAlgorithms.Sort | pintos-kaist/lib/kernel/list.c:678-710 | the list ends sorted, as a permutation of the input that is stable (for every key, equal elements keep their order); only its own nodes are relinked |
| ListOrder.InsertPos | pintos-kaist/lib/kernel/list.c:736-738 | the position of the first element `elem` is less than: everything before it is not greater than `elem` |
| ListAlgorithms.InsertOrdered | pintos-kaist/lib/kernel/list.c:728-740 | the element is inserted at `InsertPos`, immediately before the first element it is less than (or at the back) |
| ListOrder.InsertSorted | pintos-kaist/lib/kernel/list.c:728-740 | inserting into a sorted list keeps it sorted |
| ListOrder.InsertStable | pintos-kaist/lib/kernel/list.c:728-740 | the new element lands after every existing element with an equal key |
| ListAlgorithms.Unique | pintos-kaist/lib/kernel/list.c:762-779 | the list becomes `Unique` of the input; when `duplicates` is non-null, the removed elements are appended to it in encounter order; no other node changes |
| ListAlgorithms.UniqueVisit | pintos-kaist/lib/kernel/list.c:772-778 | one iteration of `list_unique` visits one more input element and keeps the loop invariant: the list is `Unique` of the visited prefix followed by the unvisited rest, and `duplicates` has gained exactly the dropped elements |
| ListAlgorithms.DropDuplicate | pintos-kaist/lib/kernel/list.c:774-776 | removing a duplicate from the list and pushing it on the back of `duplicates` |
| ListOrder.Unique | pintos-kaist/lib/kernel/list.c:762-779 | the kept sequence is empty only for an empty input, starts with the first element, and ends with the key of the last one |
| ListOrder.UniqueNoAdjacentEqual | pintos-kaist/lib/kernel/list.c:762-779 | no two adjacent kept elements are mutually not-less |
| ListOrder.UniquePartition | pintos-kaist/lib/kernel/list.c:762-779 | kept and removed elements together are the input, as a multiset |
| ListOrder.UniqueOfSorted | pintos-kaist/lib/kernel/list.c:762-779 | on a sorted list the kept elements are strictly increasing: one per key |
| ListOrder.UniqueKeepsKeys | pintos-kaist/lib/kernel/list.c:762-779 | every key value of the input is still present after `list_unique` |
| ListOrder.UniqueKeepsFirst | pintos-kaist/lib/kernel/list.c:771-778 | on distinct nodes, an element survives exactly when it is the first of the list or its key differs from its predecessor's, so the first of each group of equal elements is the one kept |
| ListAlgorithms.Max | pintos-kaist/lib/kernel/list.c:799-809 | the tail for an empty list, otherwise the earliest maximal element |
| ListAlgorithms.Min | pintos-kaist/lib/kernel/list.c:828-838 | the tail for an empty list, otherwise the earliest minimal element |
| ListOrder.FirstMaxUnique | pintos-kaist/lib/kernel/list.c:803-805 | with the strict comparison, ties go to the earliest element, so the result is unique |
| ListOrder.FirstMinUnique | pintos-kaist/lib/kernel/list.c:833-835 | the same for the minimum |
| ListOrder.FirstMinIsMaxOfNegated | pintos-kaist/lib/kernel/list.c:828-838 | the earliest minimum is the earliest maximum under the reversed order |
| ListOrder.SortedFirstMax | pintos-kaist/lib/kernel/list.c:799-809 | on a sorted list, the maximum `list_max` returns is the first of the last group of equal elements |
| Elf.MemcmpZero | pintos-kaist/userprog/process.c:502 | `memcmp` returns 0 exactly when the bytes are equal |
| Elf.HeaderAccepted | pintos-kaist/userprog/process.c:501-507 | the header is accepted exactly when a whole header was read, the ident starts with "\177ELF\2\1\1", the type is 2, the machine is 0x3E, the version is 1, the entry size is that of a program header, and there are at most 1024 entries |
| Elf.Classify | pintos-kaist/userprog/process.c:524-535 | `PT_DYNAMIC`, `PT_INTERP` and `PT_SHLIB` abort the load, `PT_LOAD` is mapped, and every other type is skipped |
| Elf.ValidateSegment | pintos-kaist/userprog/process.c:585-624 | the check-by-check test; an accepted segment has equal page offsets, 0 < memsz, filesz <= memsz, and a user address no lower than PGSIZE |
| Elf.ValidateSegmentExact | pintos-kaist/userprog/process.c:585-624 | `validate_segment`, with its 64-bit wrap-around test, accepts exactly the segments with equal page offsets, an offset within the file, filesz <= memsz, memsz > 0, and the region [vaddr, vaddr+memsz] in user space above page 0 |
| Elf.LoadCounts | pintos-kaist/userprog/process.c:536-554 | file and memory pages are page-aligned round-downs of the offset and address; read + zero is a multiple of PGSIZE that covers the memory image and runs less than a page past it; `read_bytes` is offset + filesz or 0; writable iff `PF_W` is set |
| Elf.LoadCountsAsWritten | pintos-kaist/userprog/process.c:542-554 | the `uint32_t` counts: both below 2^32, and their sum equals the rounded-up size only modulo 2^32 |
| Elf.AsWrittenAgreesBelow4G | pintos-kaist/userprog/process.c:542-554 | below 4 GiB the truncated counts equal the exact ones |
| Elf.AsWrittenDropsHugeSegment | pintos-kaist/userprog/process.c:547-553 | a segment of 2^32 bytes that `validate_segment` accepts gets zero read and zero bytes |
| Elf.Segments | pintos-kaist/userprog/process.c:514-563 | at most one segment per header, and every segment meets what `load_segment` asserts (process.c:651-653): page-aligned file and memory pages, and a read + zero total that is a multiple of PGSIZE |
| Elf.SegmentsSpec | pintos-kaist/userprog/process.c:514-563 | the load fails exactly when some header is fatal (an aborting type, or a `PT_LOAD` that fails validation); otherwise one segment per `PT_LOAD` header is loaded, in order, with `LoadCounts` |
| Elf.ScanSegments | pintos-kaist/userprog/process.c:514-563 | the loop over the program headers computes `Segments` |
| Machine.RoundUp | pintos-kaist/userprog/process.c:547 | `ROUND_UP (x, PGSIZE)` is the least multiple of PGSIZE not below x |
| Loader.LoadSegment | pintos-kaist/userprog/process.c:649-688 | succeeds exactly when every page of the plan can be installed; the pages installed are the plan's prefix up to the first failure |
| Loader.Plan | pintos-kaist/userprog/process.c:656-686 | the pages the loop fills: none exactly when both counts are 0; otherwise the first page is at `upage`, is read from `ofs`, and is filled completely |
| Loader.PlanTotals | pintos-kaist/userprog/process.c:651-686 | the loop fills exactly (read + zero) / PGSIZE pages, reading `read_bytes` bytes in all and zeroing `zero_bytes` |
| Loader.PlanPage | pintos-kaist/userprog/process.c:660-685 | page i lands at upage + i*PGSIZE, reads min(remaining file bytes, PGSIZE) from where the previous page stopped, and zeroes the rest |
| Loader.PlanStep | pintos-kaist/userprog/process.c:656-685 | while bytes remain, one more page is filled, and the zero count never underflows |
| Arguments.WordLen | pintos-kaist/userprog/process.c:219 | the word at the front runs up to the first space |
| Arguments.TokensAreWords | pintos-kaist/userprog/process.c:219-226 | every token `strtok_r` yields is a non-empty run of non-space bytes |
| Arguments.TokensOfJoin | pintos-kaist/userprog/process.c:219-226 | joining words with single spaces and tokenising gives back the words |
| Arguments.TokensNormalise | pintos-kaist/userprog/process.c:219-226 | tokenising is idempotent through a join |
| Arguments.TokensSubstrings | pintos-kaist/userprog/process.c:219-226 | tokens of a NUL-free line are NUL-free |
| Arguments.Tokens | pintos-kaist/userprog/process.c:219-226 | the tokens `strtok_r` yields for a space delimiter; there are no more of them than bytes in the line |
| Arguments.Tokenize | pintos-kaist/userprog/process.c:217-226 | the `strtok_r` loop collects exactly the tokens of the command line, in order |
| Arguments.PushStrings | pintos-kaist/userprog/process.c:258-263 | the strings with their NULs are pushed so that argv[0] is highest, and each recorded address is where its string starts |
| Arguments.AlignStack | pintos-kaist/userprog/process.c:267-276 | rsp is rounded down to a multiple of 8, the gap is zero-filled, and an 8-byte null pointer follows |
| Arguments.PushPointers | pintos-kaist/userprog/process.c:280-284 | the string addresses are pushed as 8-byte little-endian words, argv[0]'s lowest |
| Arguments.Image | pintos-kaist/userprog/process.c:258-290 | the bytes pushed below the old rsp: 16 + 8·argc + padding + the strings, with the new rsp a multiple of 8 |
| Arguments.PushArguments | pintos-kaist/userprog/process.c:248-290 | rdi = argc, the stack gains exactly the image `Image(argv, rsp)`, and rsi points at argv[0]'s slot just above the fake return address |
| Arguments.PassArguments | pintos-kaist/userprog/process.c:217-290 | with fewer than 99 tokens, argv[0] is the file name, and the registers and stack are as `PushArguments` lays them out |
| Arguments.StackLayout | pintos-kaist/userprog/process.c:258-290 | from rsp up: a zero fake return address, the argv pointers, a null pointer, fewer than 8 zero padding bytes, then the strings; the final rsp is 8-aligned |
| Arguments.StackPointers | pintos-kaist/userprog/process.c:280-286 | slot k of the pointer array holds the address of argv[k]'s string |
| Arguments.StackStrings | pintos-kaist/userprog/process.c:258-263 | the bytes at argv[k]'s address are argv[k] followed by NUL |
| Arguments.WordOfLe | pintos-kaist/userprog/process.c:283 | reading back the 8 little-endian bytes of a stored pointer gives the pointer |
| Arguments.ImageAligned | pintos-kaist/userprog/process.c:268 | after the padding, rsp is a multiple of 8 |
| Children.FindChild | pintos-kaist/userprog/process.c:330-333 | the first record for the id in list order, or none |
| Children.WaitOutcome | pintos-kaist/userprog/process.c:322-352 | a wait that leaves the list as it was returns -1; one that changes it removes exactly one record and adds none |
| Children.ChildList.ProcessWait | pintos-kaist/userprog/process.c:322-352 | the status returned and the remaining list are those of `WaitOutcome` |
| Children.WaitWithoutRecord | pintos-kaist/userprog/process.c:323-325 | for id 0 or an id with no record, the result is -1 and the list is unchanged |
| Children.WaitFirstRecord | pintos-kaist/userprog/process.c:331-348 | an already-waited record gives -1 with no change; otherwise the record's exit status is returned (or the status the child then publishes), and exactly that record is removed with the others left in order |
| Children.WaitKeepsDistinct | pintos-kaist/userprog/process.c:344 | removing the record keeps one record per child |
| Children.SecondWaitFails | pintos-kaist/userprog/process.c:322-352 | after a successful wait, a second wait on the same id returns -1 |
| Descriptors.FirstFree | pintos-kaist/userprog/syscall.c:178-183 | the lowest empty entry of the range, or the bound when every entry is taken |
| Descriptors.OpenAssignsLowest | pintos-kaist/userprog/syscall.c:169-187 | on success, the file goes in the lowest empty entry of [2, 128) and that index is returned, with no other entry changing; the result is -1, with the table unchanged, exactly when the name is NULL, the open fails, or the range is full |
| Descriptors.OpenOutcome | pintos-kaist/userprog/syscall.c:169-187 | the result is -1 with the table unchanged, or a descriptor in [2, 128) whose entry was empty and now holds the opened file, with the table's size kept |
| Descriptors.FdTable.Open | pintos-kaist/userprog/syscall.c:169-187 | the scan computes `OpenOutcome` on the table in place |
| Descriptors.FdTable.CloseRange | pintos-kaist/userprog/process.c:363-368 | the loop empties the entries [2, hi) and closes their files in descriptor order |
| Descriptors.Cleared | pintos-kaist/userprog/process.c:363-368 | the table after the loop over [lo, hi): same size, every entry of the range empty, every other entry empty or as before |
| Descriptors.Handles | pintos-kaist/userprog/process.c:363-368 | the files the loop closes, in descriptor order; at most one per entry of the range |
| Descriptors.HandlesHold | pintos-kaist/userprog/process.c:363-368 | a file is closed by the loop exactly when some entry in the range held it |
| Descriptors.FdTable.ProcessExit | pintos-kaist/userprog/process.c:363-368 | run to the bound `sys_open` uses: every entry in [2, 128) ends empty, the other entries are unchanged, and every file held in the range is closed |
| Descriptors.ExitAsWrittenLeaks | pintos-kaist/userprog/process.c:363 | as written (bound 64), a file opened when 2..63 are taken gets descriptor 64 and survives the exit loop |
| Descriptors.OpenPastExitLimit | pintos-kaist/userprog/process.c:363 | for any table whose entries 2..63 hold other files and whose entry 64 is free, the opened file gets descriptor 64, which the exit loop as written neither empties nor closes |
| Descriptors.OpenedIsClosedOnExit | pintos-kaist/userprog/syscall.c:178-182 | with the matching bound, every descriptor `sys_open` returns is emptied by the exit loop and its file is closed |
| Syscalls.Decode | pintos-kaist/userprog/syscall.c:66-134 | numbers 0-13 select the fourteen implemented calls; 14-24 and everything else select empty cases |
| Syscalls.RaxWrittenFor | pintos-kaist/userprog/syscall.c:66-134 | the calls whose C prototype returns a value are those numbered 2-10 and 12 |
| Syscalls.SysWrite | pintos-kaist/userprog/syscall.c:213-219 | descriptor 1 returns `size` through `int` (so `size` for any count below 2^31); any other descriptor returns -1 |
| Syscalls.SysRead | pintos-kaist/userprog/syscall.c:194-211 | fd 0 returns one input byte; otherwise -1 exactly for an empty entry, 0 for a short read, and the byte count only for a full read |
| Syscalls.SyscallHandler | pintos-kaist/userprog/syscall.c:63-135 | `rax` receives the sign-extended result exactly for calls that return a value; other registers and the stack are unchanged; `open` and `exit` update the descriptor table; `halt` and `exit` do not return to the program |

## Left out

- Elf.SegmentsSpec: its segments carry the exact counts of `LoadCounts`, not the `uint32_t`
  counts process.c:546-553 computes. The two differ only for images of 4 GiB and more
  (`AsWrittenAgreesBelow4G`), which is the first finding below.
- Elf.ScanSegments: computes `Segments`, so it uses the exact counts too. For the header of
  `AsWrittenDropsHugeSegment` the code passes (0, 0) to `load_segment`, while the model passes
  (0, 2^32).
- Descriptors.FdTable.ProcessExit: it empties entries [2, 128), the range `sys_open` fills. The
  code at process.c:363 stops at 64 and leaves entries 64 to 127 as they were, which is the
  second finding below. `CloseRange` models the loop for any bound, including the code's 64.
- Syscalls.SyscallHandler: its `exit` case empties [2, 128) through `ProcessExit` (and
  `TableAfter`), where the code's `process_exit` empties only [2, 64).
- Concurrency and the scheduler. This covers the semaphores, locks and condition
  variables of `threads/synch.c`, and the blocking in `process_wait`. A child that
  has not yet exited is represented by the status it will publish, the
  `lateStatus` parameter.
- `process_fork`, `__do_fork`, `duplicate_pte`, `install_page`, `setup_stack`,
  `process_cleanup` and `process_activate`. They are page-table and allocator calls
  whose behaviour is not visible here.
- File-system and console I/O:
  - `filesys_open`, `file_read`, `file_seek`, `file_length`, `input_getc` and
    `putbuf` become parameters (the `World` record, `avail` and `fileLength`).
  - `file_close` becomes the list of closed files.
  - The `file_close` that `sys_open` makes when the table is full is not recorded.
- The reading of program headers from the file in `load`. The `file_ofs` range
  test and short reads (process.c:517-522) are not modelled. The model takes the
  sequence of headers that were read.
- `pml4_create`, the entry point (`rip`) and the segment registers of `load` and
  `process_exec`. The stack is laid out for the successful path only, and
  `process_exec` builds it even when `load` failed.
- Loader.LoadSegment: the page contents are abstract, described by where each
  page goes, where its bytes come from and how many bytes are read and zeroed.
  The allocator, the reads and `install_page` are summarised by `avail`, the
  number of pages for which they all succeed.
- Arguments.PassArguments: it requires fewer than 99 tokens, because the fixed
  `argv` array of the source overflows beyond that.
- The stub system calls (`fork`, `exec`, `wait`, `create`, `remove`, `filesize`,
  `seek`, `tell`, `close`) return without a value. Whatever they leave in `rax` is
  the `stub` parameter.
- `sys_exit` prints a message, which is not modelled. Its call into
  `thread_exit` is modelled only by the descriptor loop of `process_exit`.
- Syscalls.SysRead: the descriptor must be in the table, because the source
  indexes `fdt` without a bounds check. `file_read` is assumed to return at most
  `size` bytes.
- The pointer checks on user buffers and names, because the source makes none.
- The child list of `process_wait` is kept as a sequence of records rather than
  as an intrusive list in the arena of the list model. The walk and the removal
  have the same effect, but the sharing of `list_elem` storage with the rest of the
  thread structure is not modelled.
- The size of the thread's descriptor table: it is declared in `threads/thread.h`, which is
  not part of this model. `FdTable` assumes at least the 128 entries that `sys_open` indexes.
- `list_entry`'s `offsetof` arithmetic: elements are identified by index.
- The `aux` argument of the comparators. Comparators are restricted to orders
  given by an integer key.
- `list_sort`'s debugging assertion `is_sorted` at the end: `Sort` proves the
  same thing as a postcondition.

## Findings

| source | as written | input that shows it | evidently intended | confidence | as-written member | corrected member |
|---|---|---|---|---|---|---|
| pintos-kaist/userprog/process.c:542-554 | `read_bytes` and `zero_bytes` are `uint32_t`, so a segment whose rounded-up memory image reaches 4 GiB gets truncated counts | a `PT_LOAD` header with p_vaddr 0x400000, p_offset 0, p_filesz 0 and p_memsz 2^32 passes `validate_segment`, yet both counts truncate to 0, so `load_segment` maps no page | counts that are wide enough for every segment `validate_segment` admits, which is the rounded-up image split into read and zero parts | not executed; medium (user space reaches 2^39) | Elf.AsWrittenDropsHugeSegment | Elf.LoadCounts |
| pintos-kaist/userprog/process.c:363 | `process_exit` closes descriptors 2..63, but `sys_open` (syscall.c:178) hands out 2..127 | a process holding descriptors 2..63 opens one more file and gets 64; at exit, entry 64 is neither closed nor emptied | one bound shared by `sys_open`, the exit loop and the copy loop of `__do_fork` (process.c:181), so every descriptor `sys_open` can return is closed at exit | not executed; high | Descriptors.ExitAsWrittenLeaks | Descriptors.OpenedIsClosedOnExit |
