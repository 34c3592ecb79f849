/**
 * `utf8_valid_codepoint`: the scalar-value test of section 3 of RFC 3629.
 * No other function of the library calls it; in particular neither string
 * walk does.
 */
module CodepointCheck {
  import opened Utf8Defs

  /** The C function converts the signed codepoint to `uint32_t`, which adds
      2^32 to a negative value, and then tests the range and the surrogate
      block on the unsigned value. */
  function ValidCodepoint(codepoint: Int32): (r: bool)
    ensures r <==> 0 <= codepoint < 0x11_0000 && !(0xD800 <= codepoint <= 0xDFFF)
  {
    assert FitsInt32(codepoint);
    var cp := if codepoint < 0 then codepoint + 0x1_0000_0000 else codepoint;
    cp < 0x11_0000 && (cp < 0xD800 || cp > 0xDFFF)
  }

  /** No error code passes the test. */
  lemma NoErrorCodeIsValid(e: Error)
    ensures !ValidCodepoint(Code(e))
  {
  }
}
