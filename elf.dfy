/** The executable-image checks of `load` in userprog/process.c: the ELF
    header test, the program-header type switch, `validate_segment`, and
    the read/zero byte counts handed to `load_segment`.  Addresses and
    sizes are 64-bit unsigned values; the C arithmetic on them is written
    out modulo 2^64 (or 2^32 where the source stores into `uint32_t`). */
module Elf {

  import opened Machine

  /** Sizes of the two on-disk structures. */
  const EHDR_SIZE: int := 64
  const PHDR_SIZE: int := 56

  /** Program-header types. */
  const PT_NULL: int := 0
  const PT_LOAD: int := 1
  const PT_DYNAMIC: int := 2
  const PT_INTERP: int := 3
  const PT_NOTE: int := 4
  const PT_SHLIB: int := 5
  const PT_PHDR: int := 6
  const PT_STACK: int := 0x6474e551

  const PF_W: int := 2

  /** "\177ELF\2\1\1": magic, 64-bit class, little-endian, version 1. */
  const ELF_MAGIC: seq<byte> := [0x7f, 0x45, 0x4c, 0x46, 2, 1, 1]

  type Ident = s: seq<byte> | |s| == 16 witness [0, 0, 0, 0, 0, 0, 0, 0, 0, 0, 0, 0, 0, 0, 0, 0]

  /** `struct ELF64_hdr`. */
  datatype Ehdr = Ehdr(
    e_ident: Ident, e_type: u16, e_machine: u16, e_version: u32,
    e_entry: u64, e_phoff: u64, e_shoff: u64, e_flags: u32,
    e_ehsize: u16, e_phentsize: u16, e_phnum: u16,
    e_shentsize: u16, e_shnum: u16, e_shstrndx: u16)

  /** `struct ELF64_PHDR`. */
  datatype Phdr = Phdr(
    p_type: u32, p_flags: u32, p_offset: u64, p_vaddr: u64,
    p_paddr: u64, p_filesz: u64, p_memsz: u64, p_align: u64)

  /** `memcmp` over two equally long byte strings: the difference of the
      first differing pair (compared as unsigned bytes), 0 if none. */
  function Memcmp(a: seq<byte>, b: seq<byte>): int
    requires |a| == |b|
  {
    if a == [] then 0
    else if a[0] != b[0] then a[0] - b[0]
    else Memcmp(a[1..], b[1..])
  }

  /** `memcmp` reports no difference exactly when the bytes are equal. */
  lemma {:induction false} MemcmpZero(a: seq<byte>, b: seq<byte>)
    requires |a| == |b|
    ensures Memcmp(a, b) == 0 <==> a == b
  {
    if a != [] && a[0] == b[0] {
      MemcmpZero(a[1..], b[1..]);
      assert a == [a[0]] + a[1..] && b == [b[0]] + b[1..];
    }
  }

  /** The header test of `load`: the read returned a whole header, the
      identification starts with the magic, and the type, machine,
      version, program-header entry size and count are acceptable. */
  function HeaderAccepted(bytesRead: int, h: Ehdr): (ok: bool)
    ensures ok <==>
      && bytesRead == EHDR_SIZE
      && h.e_ident[..7] == ELF_MAGIC
      && h.e_type == 2 && h.e_machine == 0x3E && h.e_version == 1
      && h.e_phentsize == PHDR_SIZE && h.e_phnum <= 1024
  {
    MemcmpZero(h.e_ident[..7], ELF_MAGIC);
    !(|| bytesRead != EHDR_SIZE
      || Memcmp(h.e_ident[..7], ELF_MAGIC) != 0
      || h.e_type != 2
      || h.e_machine != 0x3E
      || h.e_version != 1
      || h.e_phentsize != PHDR_SIZE
      || h.e_phnum > 1024)
  }

  /** What the switch in `load` does with a program header. */
  datatype Action = Skip | Abort | Map

  function Classify(p_type: u32): (a: Action)
    ensures a == Abort <==> p_type in {PT_DYNAMIC, PT_INTERP, PT_SHLIB}
    ensures a == Map <==> p_type == PT_LOAD
    ensures p_type in {PT_NULL, PT_NOTE, PT_PHDR, PT_STACK} ==> a == Skip
  {
    if p_type == PT_LOAD then Map
    else if p_type == PT_DYNAMIC || p_type == PT_INTERP || p_type == PT_SHLIB then Abort
    else Skip
  }

  /** `validate_segment`, check by check in the order of the source;
      the end address and the wrap-around test use 64-bit addition, and
      the file length (an `off_t`) is converted to `uint64_t`. */
  function ValidateSegment(ph: Phdr, fileLength: int): (ok: bool)
    ensures ok ==> PageOffset(ph.p_offset) == PageOffset(ph.p_vaddr)
    ensures ok ==> 0 < ph.p_memsz && ph.p_filesz <= ph.p_memsz
    ensures ok ==> PGSIZE <= ph.p_vaddr && IsUserVaddr(ph.p_vaddr)
  {
    var end := Wrap64(ph.p_vaddr + ph.p_memsz);
    if PageOffset(ph.p_offset) != PageOffset(ph.p_vaddr) then false
    else if ph.p_offset > Wrap64(fileLength) then false
    else if ph.p_memsz < ph.p_filesz then false
    else if ph.p_memsz == 0 then false
    else if !IsUserVaddr(ph.p_vaddr) then false
    else if !IsUserVaddr(end) then false
    else if end < ph.p_vaddr then false
    else if ph.p_vaddr < PGSIZE then false
    else true
  }

  /** The segment the checks are meant to admit, in exact arithmetic: same
      page offset in file and memory, starting inside the file, a nonempty
      memory image at least as large as the file image, and the whole
      region [p_vaddr, p_vaddr + p_memsz] in user space above page 0. */
  ghost predicate SegmentAcceptable(ph: Phdr, fileLength: int) {
    && PageOffset(ph.p_offset) == PageOffset(ph.p_vaddr)
    && ph.p_offset <= Wrap64(fileLength)
    && 0 < ph.p_memsz
    && ph.p_filesz <= ph.p_memsz
    && PGSIZE <= ph.p_vaddr
    && ph.p_vaddr + ph.p_memsz < KERN_BASE
  }

  /** With the 64-bit wrap-around test in place, the source's checks admit
      exactly the acceptable segments. */
  lemma ValidateSegmentExact(ph: Phdr, fileLength: int)
    ensures ValidateSegment(ph, fileLength) <==> SegmentAcceptable(ph, fileLength)
  {
    var sum := ph.p_vaddr + ph.p_memsz;
    if U64 <= sum {
      assert Wrap64(sum) == sum - U64 < ph.p_vaddr;
    }
  }

  /** The page-aligned numbers `load` passes to `load_segment`. */
  datatype SegmentLoad = SegmentLoad(
    filePage: int, memPage: int, readBytes: int, zeroBytes: int, writable: bool)

  /** Read/zero counts for a `PT_LOAD` segment in exact arithmetic: the
      page offset plus the file image is read, the rest of the rounded-up
      memory image is zeroed. */
  function LoadCounts(ph: Phdr): (r: SegmentLoad)
    requires ph.p_filesz <= ph.p_memsz
    ensures r.filePage % PGSIZE == 0 && r.memPage % PGSIZE == 0
    ensures r.filePage <= ph.p_offset < r.filePage + PGSIZE
    ensures r.memPage <= ph.p_vaddr < r.memPage + PGSIZE
    ensures 0 <= r.readBytes && 0 <= r.zeroBytes
    ensures (r.readBytes + r.zeroBytes) % PGSIZE == 0
    ensures r.memPage + r.readBytes + r.zeroBytes >= ph.p_vaddr + ph.p_memsz
    ensures r.memPage + r.readBytes + r.zeroBytes < ph.p_vaddr + ph.p_memsz + PGSIZE
    ensures r.readBytes == if ph.p_filesz > 0 then PageOffset(ph.p_vaddr) + ph.p_filesz else 0
    ensures r.writable <==> (ph.p_flags / PF_W) % 2 == 1
  {
    var pageOffset := PageOffset(ph.p_vaddr);
    var total := RoundUp(pageOffset + ph.p_memsz);
    var readBytes := if ph.p_filesz > 0 then pageOffset + ph.p_filesz else 0;
    SegmentLoad(ph.p_offset - PageOffset(ph.p_offset), ph.p_vaddr - pageOffset,
                readBytes, total - readBytes, (ph.p_flags / PF_W) % 2 == 1)
  }

  /** The counts as the source computes them: `read_bytes` and
      `zero_bytes` are `uint32_t`, so both are truncated to 32 bits (the
      subtraction itself is done in 64 bits, on the truncated
      `read_bytes`). */
  function LoadCountsAsWritten(ph: Phdr): (r: SegmentLoad)
    requires ph.p_filesz <= ph.p_memsz
    ensures 0 <= r.readBytes < U32 && 0 <= r.zeroBytes < U32
    ensures (r.readBytes + r.zeroBytes) % U32 == RoundUp(PageOffset(ph.p_vaddr) + ph.p_memsz) % U32
  {
    var pageOffset := PageOffset(ph.p_vaddr);
    var total := RoundUp(pageOffset + ph.p_memsz);
    var readBytes := if ph.p_filesz > 0 then Wrap32(pageOffset + ph.p_filesz) else 0;
    WrapNarrow(total - readBytes);
    Wrap32Sum(readBytes, total - readBytes);
    SegmentLoad(ph.p_offset - PageOffset(ph.p_offset), ph.p_vaddr - pageOffset,
                readBytes, Wrap32(Wrap64(total - readBytes)), (ph.p_flags / PF_W) % 2 == 1)
  }

  /** Below 4 GiB of rounded-up memory image the truncated counts agree
      with the exact ones. */
  lemma AsWrittenAgreesBelow4G(ph: Phdr)
    requires ph.p_filesz <= ph.p_memsz
    requires RoundUp(PageOffset(ph.p_vaddr) + ph.p_memsz) < U32
    ensures LoadCountsAsWritten(ph) == LoadCounts(ph)
  {
  }

  /** A segment `validate_segment` accepts whose memory image is 4 GiB:
      the truncated counts are both 0, so `load_segment` maps no page at
      all, while the exact counts ask for 2^20 zero-filled pages. */
  lemma AsWrittenDropsHugeSegment()
    ensures var ph := Phdr(PT_LOAD, 6, 0, 0x40_0000, 0, 0, U32, PGSIZE);
      && ValidateSegment(ph, 0)
      && LoadCountsAsWritten(ph).readBytes == 0 && LoadCountsAsWritten(ph).zeroBytes == 0
      && LoadCounts(ph).zeroBytes == U32
  {
    var ph := Phdr(PT_LOAD, 6, 0, 0x40_0000, 0, 0, U32, PGSIZE);
    ValidateSegmentExact(ph, 0);
    assert PageOffset(ph.p_vaddr) == 0;
    assert (U32 + PGSIZE - 1) / PGSIZE == 0x10_0000;
    assert RoundUp(U32) == U32;
    assert Wrap32(Wrap64(U32 - 0)) == 0;
  }

  /** The segments `load` maps, header by header, or `None` when a header
      aborts the load (a dynamic-linking type, or a `PT_LOAD` that fails
      `validate_segment`). */
  function Segments(phdrs: seq<Phdr>, fileLength: int): (r: Option<seq<SegmentLoad>>)
    ensures r.Some? ==> |r.value| <= |phdrs|
    ensures r.Some? ==> forall k :: 0 <= k < |r.value| ==>
      && r.value[k].filePage % PGSIZE == 0 && r.value[k].memPage % PGSIZE == 0
      && 0 <= r.value[k].readBytes && 0 <= r.value[k].zeroBytes
      && (r.value[k].readBytes + r.value[k].zeroBytes) % PGSIZE == 0
  {
    if phdrs == [] then Some([])
    else
      var ph := phdrs[0];
      match Classify(ph.p_type)
      case Skip => Segments(phdrs[1..], fileLength)
      case Abort => None
      case Map =>
        if !ValidateSegment(ph, fileLength) then None
        else match Segments(phdrs[1..], fileLength)
          case None => None
          case Some(rest) => Some([LoadCounts(ph)] + rest)
  }

  /** A header that stops the load. */
  ghost predicate Fatal(ph: Phdr, fileLength: int) {
    Classify(ph.p_type) == Abort || (Classify(ph.p_type) == Map && !ValidateSegment(ph, fileLength))
  }

  function Loadable(phdrs: seq<Phdr>): seq<Phdr>
  {
    if phdrs == [] then []
    else if phdrs[0].p_type == PT_LOAD then [phdrs[0]] + Loadable(phdrs[1..])
    else Loadable(phdrs[1..])
  }

  /** The load goes ahead exactly when no header is fatal, and then maps
      one segment per `PT_LOAD` header, in header order, with the counts
      of `LoadCounts`. */
  lemma {:induction false} SegmentsSpec(phdrs: seq<Phdr>, fileLength: int)
    ensures Segments(phdrs, fileLength).None? <==> exists i :: 0 <= i < |phdrs| && Fatal(phdrs[i], fileLength)
    ensures Segments(phdrs, fileLength).Some? ==>
      && |Segments(phdrs, fileLength).value| == |Loadable(phdrs)|
      && forall k :: 0 <= k < |Loadable(phdrs)| ==>
           && ValidateSegment(Loadable(phdrs)[k], fileLength)
           && Segments(phdrs, fileLength).value[k] == LoadCounts(Loadable(phdrs)[k])
  {
    if phdrs != [] {
      var tail := phdrs[1..];
      SegmentsSpec(tail, fileLength);
      assert forall i :: 0 < i < |phdrs| ==> phdrs[i] == tail[i - 1];
      if Segments(phdrs, fileLength).None? && !Fatal(phdrs[0], fileLength) {
        var i :| 0 <= i < |tail| && Fatal(tail[i], fileLength);
        assert Fatal(phdrs[i + 1], fileLength);
      }
      if exists i :: 0 <= i < |tail| && Fatal(tail[i], fileLength) {
        assert Segments(tail, fileLength).None?;
      }
    }
  }

  function Prepend(loads: seq<SegmentLoad>, o: Option<seq<SegmentLoad>>): Option<seq<SegmentLoad>>
  {
    match o
    case None => None
    case Some(rest) => Some(loads + rest)
  }

  lemma PrependNone(o: Option<seq<SegmentLoad>>)
    ensures Prepend([], o) == o
  {
    if o.Some? {
      assert [] + o.value == o.value;
    }
  }

  lemma PrependTwice(a: seq<SegmentLoad>, b: seq<SegmentLoad>, o: Option<seq<SegmentLoad>>)
    ensures Prepend(a, Prepend(b, o)) == Prepend(a + b, o)
  {
    if o.Some? {
      assert a + (b + o.value) == (a + b) + o.value;
    }
  }

  /** The loop of `load` over the program headers read from the file. */
  method ScanSegments(phdrs: seq<Phdr>, fileLength: int) returns (r: Option<seq<SegmentLoad>>)
    ensures r == Segments(phdrs, fileLength)
  {
    var loads: seq<SegmentLoad> := [];
    var i := 0;
    assert phdrs[0..] == phdrs;
    PrependNone(Segments(phdrs, fileLength));
    while i < |phdrs|
      invariant 0 <= i <= |phdrs|
      invariant Segments(phdrs, fileLength) == Prepend(loads, Segments(phdrs[i..], fileLength))
    {
      var ph := phdrs[i];
      assert phdrs[i..][0] == ph && phdrs[i..][1..] == phdrs[i + 1..];
      var action := Classify(ph.p_type);
      if action == Abort {
        return None;
      } else if action == Map {
        if !ValidateSegment(ph, fileLength) {
          return None;
        }
        PrependTwice(loads, [LoadCounts(ph)], Segments(phdrs[i + 1..], fileLength));
        loads := loads + [LoadCounts(ph)];
      }
      i := i + 1;
    }
    assert phdrs[i..] == [];
    assert loads + [] == loads;
    return Some(loads);
  }
}
