// Shared vocabulary for the model: optional values, results that carry the
// reason a Rust routine would have panicked, and 64-bit unsigned words.

module Prelude {

  datatype Option<T> = None | Some(value: T)

  /** The panics of the modelled code, each named after the check that raises it. */
  datatype Fault =
    | RangeInverted            // a physical range was built with end < start
    | MapFull                  // "couldn't allocate memory map region": all slots occupied
    | SlotOutOfBounds          // init wrote past the last memory-map slot
    | ZeroDescriptorSize       // init divided the firmware map size by a zero stride
    | KernelImageNotReserved   // init could not carve out the kernel image region
    | Misaligned               // an address was not a multiple of the page size
    | PageTablesExhausted      // the bump allocator reached the end of its region
    | NullTablePointer         // a new table was placed at physical address 0
    | Unsupported4KiB          // mapping 4 KiB pages is not implemented
    | InvalidPrivilegeLevel    // a privilege level outside 0..3
    | TooManyPages             // map_pages was asked for more than 512 pages
    | GdtFull                  // a GDT push found no room at the cursor
    | NotAFrameSize            // from_range met a length that is no frame size
    | IndexOutOfBounds         // an entry index past the end of a page table or the memory map

  datatype Result<T> = Ok(value: T) | Err(fault: Fault)

  const U64_LIMIT: int := 0x1_0000_0000_0000_0000

  /** A Rust `u64`. */
  type u64 = x: int | 0 <= x < U64_LIMIT

  /** Wrapping u64 arithmetic, as the kernel's release build performs it. */
  function Wrap(x: int): (r: u64)
    ensures 0 <= x < U64_LIMIT ==> r == x
    ensures (r - x) % U64_LIMIT == 0
  {
    x % U64_LIMIT
  }

  // Integer division facts used to read bit fields written as quotients and remainders.

  lemma MulAtLeast(d: int, u: int)
    requires d >= 1 && u > 0
    ensures d * u >= u
  {
    assert d * u == (d - 1) * u + u;
    if d > 1 { MulAtLeast(d - 1, u); }
  }

  /** Quotient and remainder are determined by any decomposition `v == n * u + r` with `0 <= r < u`. */
  lemma DivModUnique(v: int, n: int, r: int, u: int)
    requires u > 0 && v == n * u + r && 0 <= r < u
    ensures v / u == n && v % u == r
  {
    var q := v / u;
    var m := v % u;
    assert q * u + m == n * u + r;
    assert (q - n) * u == r - m;
    if q > n {
      MulAtLeast(q - n, u);
    } else if q < n {
      MulAtLeast(n - q, u);
    }
  }

  /** The low bits of the low bits: `v % (k * u)` is its field above `u` plus `v % u`. */
  lemma PeelField(v: int, k: int, u: int)
    requires v >= 0 && k > 0 && u > 0
    ensures v % (k * u) == v % (k * u) / u * u + v % u
  {
    var hi := k * u;
    MulAtLeast(k, u);
    var r := v % hi;
    var q := v / hi;
    assert v == q * hi + r;
    assert r == r / u * u + r % u;
    assert v == (q * k + r / u) * u + r % u;
    DivModUnique(v, q * k + r / u, r % u, u);
  }
}
