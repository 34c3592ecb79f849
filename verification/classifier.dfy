/**
 * `utf8_get_codepoint_info`: the lead-byte classifier. It maps the first
 * byte of a sequence to the mask that extracts the lead byte's payload bits
 * and the number of bytes the sequence claims. It follows the six-byte table
 * of section 2 of RFC 2279, not the four-byte limit of section 3 of RFC 3629.
 */
module Classifier {
  import opened Utf8Defs
  import opened Bits

  /** The boolean the C function returns, with the `mask` and `length` it
      writes through its out-parameters. The C `mask` is an `int32_t`; it
      never exceeds 0x7F, so the model keeps it as a byte. */
  datatype Info = Info(accepted: bool, mask: Byte, length: Int32)

  /** The (mask, length) pairs the classifier writes for an accepted byte;
      these are the pairs `utf8_encode_info` is called with. */
  predicate Classified(mask: Byte, length: int) {
    || (mask == 0x7F && length == 1)
    || (mask == 0x1F && length == 2)
    || (mask == 0x0F && length == 3)
    || (mask == 0x07 && length == 4)
    || (mask == 0x03 && length == 5)
    || (mask == 0x01 && length == 6)
  }

  /** The classification of lead byte `ch`, matched pattern by pattern in the
      order of the C `if` chain. */
  function GetCodepointInfo(ch: Byte): (r: Info)
    ensures r.accepted <==> 1 <= r.length <= 6
    ensures r.accepted <==> Classified(r.mask, r.length)
    ensures !r.accepted <==> (0x80 <= ch <= 0xBF || ch == 0xFE || ch == 0xFF)
    ensures !r.accepted ==> r.mask == 0 && r.length == Code(InvalidLength)
    ensures 0x00 <= ch <= 0x7F ==> r == Info(true, 0x7F, 1)
    ensures 0xC0 <= ch <= 0xDF ==> r == Info(true, 0x1F, 2)
    ensures 0xE0 <= ch <= 0xEF ==> r == Info(true, 0x0F, 3)
    ensures 0xF0 <= ch <= 0xF7 ==> r == Info(true, 0x07, 4)
    ensures 0xF8 <= ch <= 0xFB ==> r == Info(true, 0x03, 5)
    ensures 0xFC <= ch <= 0xFD ==> r == Info(true, 0x01, 6)
  {
    if ch < 128 then Info(true, 0x7F, 1)
    else if ch & 0xE0 == 0xC0 then Info(true, 0x1F, 2)
    else if ch & 0xF0 == 0xE0 then Info(true, 0x0F, 3)
    else if ch & 0xF8 == 0xF0 then Info(true, 0x07, 4)
    else if ch & 0xFC == 0xF8 then Info(true, 0x03, 5)
    else if ch & 0xFE == 0xFC then Info(true, 0x01, 6)
    else Info(false, 0, Code(InvalidLength))
  }

  /** The payload bits the mask keeps from an accepted lead byte are the bits
      after its length prefix: a value below 2^(7 - length) for a multi-byte
      lead, all seven bits for an ASCII byte. Only 0xFD keeps the one
      payload bit of a six-byte lead set. */
  lemma LeadPayload(ch: Byte)
    requires GetCodepointInfo(ch).accepted
    ensures var r := GetCodepointInfo(ch);
      && Masked(ch, r.mask) <= r.mask as int
      && (r.length == 1 ==> Masked(ch, r.mask) == ch as int)
      && (r.length >= 2 ==> r.mask as int + 1 == Pow2(7 - r.length))
      && (ch == 0xFD <==> r.length == 6 && Masked(ch, r.mask) == 1)
  {
    var r := GetCodepointInfo(ch);
    MaskedBound(ch, r.mask);
    assert Pow2(1) == 2 && Pow2(2) == 4 && Pow2(3) == 8 && Pow2(4) == 16 && Pow2(5) == 32;
  }

  /** The accepted lead bytes whose masked payload is zero: the terminator
      and the bare length prefixes 0xC0, 0xE0, 0xF0, 0xF8 and 0xFC. */
  lemma LeadWithoutPayload(ch: Byte)
    requires GetCodepointInfo(ch).accepted
    ensures Masked(ch, GetCodepointInfo(ch).mask) == 0 <==>
      ch == 0 || ch == 0xC0 || ch == 0xE0 || ch == 0xF0 || ch == 0xF8 || ch == 0xFC
  {
  }
}
