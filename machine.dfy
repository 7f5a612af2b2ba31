/** Machine words and pages of the x86-64 kernel: C's unsigned integer
    types, conversions into them, and the page and address-space
    constants the loader and the stack set-up use. */
module Machine {

  const U32: int := 0x1_0000_0000
  const U64: int := 0x1_0000_0000_0000_0000

  type byte = x: int | 0 <= x < 256
  type u16 = x: int | 0 <= x < 0x1_0000
  type u32 = x: int | 0 <= x < 0x1_0000_0000
  type u64 = x: int | 0 <= x < 0x1_0000_0000_0000_0000

  /** Page size of the kernel (1 << 12). */
  const PGSIZE: int := 4096
  /** First kernel virtual address; `is_user_vaddr(va)` is `va < KERN_BASE`. */
  const KERN_BASE: int := 0x80_0400_0000

  /** Conversion of a C integer to `uint64_t`. */
  function Wrap64(x: int): (r: u64)
    ensures 0 <= x < U64 ==> r == x
    ensures U64 <= x < 2 * U64 ==> r == x - U64
  {
    x % U64
  }

  /** Conversion to `uint32_t`. */
  function Wrap32(x: int): (r: u32)
    ensures 0 <= x < U32 ==> r == x
  {
    x % U32
  }

  lemma ModShift(a: int, k: int)
    ensures (a + k * U32) % U32 == a % U32
  {
    var q, r := a / U32, a % U32;
    assert a + k * U32 == (q + k) * U32 + r;
  }

  /** Truncating to 64 bits and then to 32 is truncating to 32. */
  lemma WrapNarrow(x: int)
    ensures Wrap32(Wrap64(x)) == Wrap32(x)
  {
    var q := x / U64;
    assert x % U64 == x + (-q * U32) * U32;
    ModShift(x, -q * U32);
  }

  /** Truncating an addend does not change a sum modulo 2^32. */
  lemma Wrap32Sum(a: int, b: int)
    ensures (a + Wrap32(b)) % U32 == (a + b) % U32
  {
    var q := b / U32;
    assert a + Wrap32(b) == (a + b) + (-q) * U32;
    ModShift(a + b, -q);
  }

  function PageOffset(x: int): int { x % PGSIZE }

  /** `ROUND_UP (x, PGSIZE)`. */
  function RoundUp(x: nat): (r: nat)
    ensures r % PGSIZE == 0 && x <= r < x + PGSIZE
  {
    (x + PGSIZE - 1) / PGSIZE * PGSIZE
  }

  predicate IsUserVaddr(va: int) { va < KERN_BASE }

  /** Conversion of an `unsigned` to `int`: values of 2^31 and above
      wrap to negative, as in two's complement. */
  function ToInt32(x: u32): (r: int)
    ensures -0x8000_0000 <= r < 0x8000_0000
    ensures Wrap32(r) == x
  {
    if x < 0x8000_0000 then x else x - U32
  }

  /** A value that may be absent (a pointer that may be NULL). */
  datatype Option<T> = None | Some(value: T)
}
