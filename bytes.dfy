/** Rust's one-byte integer types and the checked arithmetic the decoder uses on them,
    modelled over unbounded `int`. Overflow is written out: a checked operation whose exact
    result leaves the type's range yields `None`, which the callers turn into a panic (the
    behaviour of Rust's `+` and `-` in a debug build). */
module Bytes {

  /** Rust `u8`. */
  type U8 = x: int | 0 <= x < 256

  /** Rust `i8`. */
  type I8 = x: int | -128 <= x < 128

  datatype Option<+T> = None | Some(value: T)

  /** `x as i8` for `x: u8`: the same eight bits read in two's complement. The result is the
      only `i8` congruent to `x` modulo 256. */
  function AsI8(x: U8): (r: I8)
    ensures (r - x) % 256 == 0
    ensures r < 0 <==> x >= 128
  {
    if x < 128 then x else x - 256
  }

  /** `y as u8` for `y: i8`, the inverse reinterpretation. */
  function AsU8(y: I8): (r: U8)
    ensures (r - y) % 256 == 0
  {
    if y >= 0 then y else y + 256
  }

  /** The two reinterpretations are inverse bijections between `u8` and `i8`. */
  lemma ReinterpretRoundTrip(x: U8, y: I8)
    ensures AsU8(AsI8(x)) == x
    ensures AsI8(AsU8(y)) == y
  {
  }

  /** `a + b` on `u8` with overflow checking. */
  function CheckedAddU8(a: U8, b: U8): (r: Option<U8>)
    ensures r.Some? <==> a + b <= 255
    ensures r.Some? ==> r.value == a + b
  {
    if a + b < 256 then Some(a + b) else None
  }

  /** `a - b` on `i8` with overflow checking. */
  function CheckedSubI8(a: I8, b: I8): (r: Option<I8>)
    ensures r.Some? <==> -128 <= a - b <= 127
    ensures r.Some? ==> r.value == a - b
  {
    if -128 <= a - b < 128 then Some(a - b) else None
  }
}

/** What a call can end in: a value, an error returned through `Result`, or a panic. */
module Outcomes {
  import opened Bytes

  /** The errors the decoder returns. The I/O errors of `std::io` are kept abstract; only the
      bank error carries data, the 1-based number of the offending track. */
  datatype Error =
    | UnexpectedEof                  // `read_exact` ran out of bytes
    | SeekFailed                     // `seek` was refused
    | InvalidBank(trackNumber: U8)   // "Error parsing Bank for track {n}"

  /** Why a call panicked instead of returning. */
  datatype PanicReason =
    | AddOverflow        // `u8` addition overflowed
    | SubtractOverflow   // `i8` subtraction overflowed
    | UnwrapNone         // `unwrap()` on `None`

  datatype Outcome<+T> = Ok(value: T) | Err(error: Error) | Panic(reason: PanicReason)
}
