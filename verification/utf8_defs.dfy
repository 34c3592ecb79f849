/**
 * The constants and types of utf8.h: the byte and codepoint types, the
 * negative error codes, the byte-order-mark and replacement sequences,
 * and the outcome type used when a C call can run into undefined behaviour.
 */
module Utf8Defs {

  /** A byte of a string, read as `uint8_t`. */
  type Byte = bv8

  /** The range of `int32_t`, the type behind `utf8_codepoint_t`. */
  predicate FitsInt32(x: int) {
    -0x8000_0000 <= x < 0x8000_0000
  }

  /** `utf8_codepoint_t`: a 32-bit signed integer. */
  type Int32 = x: int | FitsInt32(x)

  /** The enumerators of `utf8_error_t`. */
  datatype Error = InvalidString | InvalidCodepoint | InvalidLength

  /** The value of each enumerator: -(1 << 0), -(1 << 1) and -(1 << 2).
      Every code is negative, so no code can be mistaken for a codepoint. */
  function Code(e: Error): (c: Int32)
    ensures c < 0
  {
    match e
    case InvalidString => -1
    case InvalidCodepoint => -2
    case InvalidLength => -4
  }

  /** The three error codes are pairwise distinct. */
  lemma CodesDistinct(e1: Error, e2: Error)
    ensures Code(e1) == Code(e2) <==> e1 == e2
  {
  }

  /** `UTF8_BOM`, the encoding of U+FEFF, and its length `UTF8_BOM_STRLEN`. */
  const BOM: seq<Byte> := [0xEF, 0xBB, 0xBF]
  const BOM_STRLEN: nat := 3

  /** `UTF8_REPLACEMENT`, the encoding of U+FFFD. */
  const REPLACEMENT: seq<Byte> := [0xEF, 0xBF, 0xBD]

  /** The BOM is `UTF8_BOM_STRLEN` bytes long and none of its bytes is the
      terminator, so a string that equals it byte for byte is never cut short. */
  lemma BomConstants()
    ensures |BOM| == BOM_STRLEN
    ensures forall k :: 0 <= k < |BOM| ==> BOM[k] != 0
    ensures forall k :: 0 <= k < |REPLACEMENT| ==> REPLACEMENT[k] != 0
  {
  }

  /** The two ways the C code leaves defined behaviour: reading past the
      terminating zero of the buffer, and overflowing the signed 32-bit
      codepoint while shifting. The model never picks a value for either. */
  datatype Ub = Overrun | Overflow

  /** The outcome of a C call: the value it returns, or undefined behaviour. */
  datatype Run<T> = Returns(value: T) | Undefined(ub: Ub)

  function Pow2(n: nat): (r: nat)
    ensures r >= 1
  {
    if n == 0 then 1 else 2 * Pow2(n - 1)
  }

  function Pow64(n: nat): (r: nat)
    ensures r >= 1
  {
    if n == 0 then 1 else 64 * Pow64(n - 1)
  }
}

/**
 * A `const char*` into a zero-terminated buffer. The model represents the
 * pointer by the bytes from it up to, not including, the buffer's final
 * terminating zero; the terminator itself sits at index |s|. Bytes beyond the
 * terminator are not part of the model. Reads that can reach the terminator
 * go through `At`, whose precondition is that it stays within the buffer;
 * every other index is bounded by |s|.
 */
module CString {
  import opened Utf8Defs

  /** `str[i]`, for an index at most the terminator's. */
  function At(s: seq<Byte>, i: nat): Byte
    requires i <= |s|
  {
    if i < |s| then s[i] else 0
  }
}

/** The bitwise `&` of a byte with a mask, as a number. */
module Bits {
  import opened Utf8Defs

  function Masked(b: Byte, m: Byte): nat {
    (b & m) as int
  }

  /** A mask keeps no bit the mask does not have. */
  lemma MaskedBound(b: Byte, m: Byte)
    ensures Masked(b, m) <= m as int
  {
  }
}
