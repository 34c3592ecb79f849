/**
 * `utf8_encode_info` and its wrapper `utf8_encode`: assembling the value of
 * one sequence from its lead byte and continuation bytes. The C code shifts
 * the lead byte's payload left by `7 - length` before folding in the
 * continuation bytes, so its value agrees with standard UTF-8 decoding only
 * when the lead byte carries no payload bits.
 */
module Assembler {
  import opened Utf8Defs
  import opened CString
  import opened Bits
  import opened Classifier

  /** The payload of a continuation byte, `*str & 0b00111111`. Its high two
      bits are never looked at, so any byte is taken as a continuation. */
  function Low6(b: Byte): nat {
    Masked(b, 0x3F)
  }

  /** The payloads of the `n` bytes after the lead byte, `s[1..n]`, read as
      one base-64 numeral, most significant digit first. */
  function Payload(s: seq<Byte>, n: nat): nat
    requires n <= |s|
  {
    if n == 0 then 0 else Payload(s, n - 1) * 64 + Low6(At(s, n))
  }

  /** The value `utf8_encode_info` assembles from the `length` bytes at `s`:
      the lead byte's masked payload, shifted left by `7 - length`, followed by
      `length - 1` six-bit digits. The mathematical value; where it does not
      fit in `int32_t` the C shift overflows, which `Encode` and the walks
      report. The sequence may end in the terminator itself. */
  function Assembled(s: seq<Byte>, mask: Byte, length: int): nat
    requires Classified(mask, length) && length <= |s| + 1
  {
    var lead := Masked(At(s, 0), mask);
    var shift := Pow2(7 - length);
    var weight := Pow64(length - 1);
    NonNegative(lead, shift, weight);
    lead * shift * weight + Payload(s, length - 1)
  }

  lemma NonNegative(a: nat, b: nat, c: nat)
    ensures a * b * c >= 0
  {
  }

  /** The value standard decoding (section 3 of RFC 3629, extended to the six
      byte forms of section 2 of RFC 2279) gives the same bytes: the lead
      payload followed by the continuation digits, with no extra shift. */
  function StandardValue(s: seq<Byte>, mask: Byte, length: int): nat
    requires Classified(mask, length) && length <= |s| + 1
  {
    var lead := Masked(At(s, 0), mask);
    NonNegative(lead, Pow64(length - 1), 1);
    lead * Pow64(length - 1) + Payload(s, length - 1)
  }

  /** `utf8_encode_info`, step for step: mask the lead byte, shift it by
      `7 - length`, then `while (--length && ++str)` shift by six and or in
      the next byte's low six bits. `++str` never yields a null pointer, so
      the loop runs exactly `length - 1` times, reads exactly `length` bytes,
      and the `UTF8_INVALID_CODEPOINT` return after it is dead code. A shift
      by six that leaves the range of `int32_t` is undefined behaviour, and
      that happens exactly when the assembled value does not fit. */
  method EncodeInfo(str: seq<Byte>, mask: Byte, length: int) returns (r: Run<Int32>)
    requires Classified(mask, length) && length <= |str| + 1
    ensures FitsInt32(Assembled(str, mask, length)) ==> r == Returns(Assembled(str, mask, length))
    ensures !FitsInt32(Assembled(str, mask, length)) ==> r == Undefined(Overflow)
    ensures r != Returns(Code(InvalidCodepoint))
  {
    var lead := Masked(At(str, 0), mask);
    LeadShiftFits(At(str, 0), mask, length);
    var codepoint := lead * Pow2(7 - length);
    var base := codepoint;
    var m: Byte := 0x3F;
    var len := length - 1;
    var k := 0;
    while len != 0
      invariant 0 <= len <= length - 1
      invariant k == length - 1 - len
      invariant codepoint == base * Pow64(k) + Payload(str, k)
      invariant 0 <= codepoint < 0x8000_0000
      decreases len
    {
      if codepoint >= 0x200_0000 {
        // `codepoint <<= 6` would pass 2^31 - 1: signed overflow.
        PartialBound(str, mask, length, base, k);
        r := Undefined(Overflow);
        return;
      }
      // After `<<= 6` the low six bits are zero, so `|=` adds.
      var digit := Masked(At(str, k + 1), m);
      MaskedBound(At(str, k + 1), m);
      ShiftStep(str, base, k);
      codepoint := codepoint * 64 + digit;
      k := k + 1;
      len := len - 1;
    }
    if len != 0 {
      r := Returns(Code(InvalidCodepoint));
      return;
    }
    assert codepoint == Assembled(str, mask, length);
    r := Returns(codepoint);
  }

  /** The lead byte's payload, shifted by `7 - length`, fits in `int32_t`. */
  lemma LeadShiftFits(b: Byte, mask: Byte, length: int)
    requires Classified(mask, length)
    ensures 0 <= Masked(b, mask) * Pow2(7 - length) < 0x8000_0000
  {
    MaskedBound(b, mask);
    assert Pow2(1) == 2 && Pow2(2) == 4 && Pow2(3) == 8 && Pow2(4) == 16 && Pow2(5) == 32 && Pow2(6) == 64;
  }

  /** Before the last digit is shifted in, the partial value times 64 is at
      most the assembled value: every later step only shifts and adds. */
  lemma PartialBound(s: seq<Byte>, mask: Byte, length: int, base: nat, k: nat)
    requires Classified(mask, length) && length <= |s| + 1
    requires base == Masked(At(s, 0), mask) * Pow2(7 - length)
    requires k < length - 1
    ensures (base * Pow64(k) + Payload(s, k)) * 64 <= Assembled(s, mask, length)
  {
    var j := length - 1 - k;
    PayloadExtends(s, k, length - 1);
    Pow64Add(k, j);
    assert Pow64(j) == 64 * Pow64(j - 1);
    PartialStep(Assembled(s, mask, length), base, Pow64(length - 1),
      Pow64(k), Pow64(j), Payload(s, k), Payload(s, length - 1));
  }

  /** The arithmetic of `PartialBound`, on plain numbers. */
  lemma PartialStep(a: nat, base: nat, w: nat, wk: nat, wj: nat, pk: nat, pl: nat)
    requires a == base * w + pl && w == wk * wj
    requires pl >= pk * wj && wj >= 64
    ensures (base * wk + pk) * 64 <= a
  {
    var c := base * wk + pk;
    assert base * w == base * wk * wj;
    assert c * wj == base * wk * wj + pk * wj;
    assert c * 64 <= c * wj;
  }

  /** Reading `n - k` more digits scales a payload numeral by `64^(n - k)`
      at least. */
  lemma {:induction false} PayloadExtends(s: seq<Byte>, k: nat, n: nat)
    requires k <= n <= |s|
    ensures Payload(s, n) >= Payload(s, k) * Pow64(n - k)
    decreases n - k
  {
    if k < n {
      PayloadExtends(s, k, n - 1);
      assert Pow64(n - k) == 64 * Pow64(n - 1 - k);
      ExtendStep(Payload(s, n), Payload(s, n - 1), Low6(At(s, n)), Payload(s, k), Pow64(n - 1 - k));
    }
  }

  /** One digit more multiplies the lower bound by 64. */
  lemma ExtendStep(pn: nat, x: nat, d: nat, p: nat, q: nat)
    requires pn == x * 64 + d && x >= p * q
    ensures pn >= p * (64 * q)
  {
    assert p * (64 * q) == (p * q) * 64;
  }

  lemma {:induction false} Pow64Add(a: nat, b: nat)
    ensures Pow64(a + b) == Pow64(a) * Pow64(b)
    decreases b
  {
    if b > 0 {
      Pow64Add(a, b - 1);
      assert Pow64(a) * Pow64(b) == Pow64(a) * (64 * Pow64(b - 1));
    }
  }

  /** Shifting the partial value by six and adding the next digit appends
      that digit to the payload numeral. */
  lemma ShiftStep(s: seq<Byte>, base: nat, k: nat)
    requires k + 1 <= |s|
    ensures (base * Pow64(k) + Payload(s, k)) * 64 + Low6(At(s, k + 1))
      == base * Pow64(k + 1) + Payload(s, k + 1)
  {
  }

  /** The continuation digits are a base-64 numeral of `n` digits. */
  lemma {:induction false} PayloadBound(s: seq<Byte>, n: nat)
    requires n <= |s|
    ensures Payload(s, n) < Pow64(n)
  {
    if n > 0 {
      PayloadBound(s, n - 1);
      MaskedBound(At(s, n), 0x3F);
    }
  }

  /** The range of the assembled value: below 2^28 for lengths 1 to 5, and
      representable as `int32_t` unless the lead byte is 0xFD, whose six-byte
      sequences reach 2^31. It is never negative, so never an error code. */
  lemma AssembledRange(s: seq<Byte>, mask: Byte, length: int)
    requires Classified(mask, length) && length <= |s| + 1
    requires GetCodepointInfo(At(s, 0)) == Info(true, mask, length)
    ensures length <= 5 ==> Assembled(s, mask, length) < 0x1000_0000
    ensures length == 6 ==> Assembled(s, mask, length) < 0x1_0000_0000
    ensures At(s, 0) == 0xFD ==> Assembled(s, mask, length) >= 0x8000_0000
    ensures FitsInt32(Assembled(s, mask, length)) <==> At(s, 0) != 0xFD
  {
    var b := At(s, 0);
    LeadPayload(b);
    PayloadBound(s, length - 1);
    ValueRange(Masked(b, mask), Payload(s, length - 1), length);
  }

  /** The arithmetic behind `AssembledRange`, for a payload `a` below the
      mask's bound and `length - 1` continuation digits `p`. */
  lemma ValueRange(a: nat, p: nat, length: int)
    requires 1 <= length <= 6
    requires a < (if length == 1 then 128 else Pow2(7 - length))
    requires p < Pow64(length - 1)
    ensures length <= 5 ==> a * Pow2(7 - length) * Pow64(length - 1) + p < 0x1000_0000
    ensures length == 6 ==> a * Pow2(7 - length) * Pow64(length - 1) + p < 0x1_0000_0000
    ensures length == 6 && a == 1 ==> a * Pow2(7 - length) * Pow64(length - 1) + p >= 0x8000_0000
    ensures !(length == 6 && a == 1) ==> a * Pow2(7 - length) * Pow64(length - 1) + p < 0x8000_0000
  {
    if length == 1 {
      assert Pow2(6) == 64 && Pow64(0) == 1;
      Scale(a, Pow2(6), Pow64(0), 64);
    } else if length == 2 {
      assert Pow2(5) == 32 && Pow64(1) == 64;
      Scale(a, Pow2(5), Pow64(1), 2048);
    } else if length == 3 {
      assert Pow2(4) == 16 && Pow64(2) == 4096;
      Scale(a, Pow2(4), Pow64(2), 65536);
    } else if length == 4 {
      assert Pow2(3) == 8 && Pow64(3) == 262144;
      Scale(a, Pow2(3), Pow64(3), 2097152);
    } else if length == 5 {
      assert Pow2(2) == 4 && Pow64(4) == 16777216;
      Scale(a, Pow2(2), Pow64(4), 67108864);
    } else {
      assert Pow2(1) == 2 && Pow64(5) == 0x4000_0000;
      Scale(a, Pow2(1), Pow64(5), 0x8000_0000);
    }
  }

  lemma Scale(a: int, x: int, y: int, k: int)
    requires x * y == k
    ensures a * x * y == a * k
  {
  }

  /** Only the lead byte and the low six bits of the next `length - 1` bytes
      enter the value: bytes further on, and the `10` prefix a continuation
      byte should carry, are never looked at. */
  lemma AssembledReadsOnly(s: seq<Byte>, t: seq<Byte>, mask: Byte, length: int)
    requires Classified(mask, length) && length <= |s| + 1 && length <= |t| + 1
    requires At(s, 0) == At(t, 0)
    requires forall k :: 1 <= k < length ==> Low6(At(s, k)) == Low6(At(t, k))
    ensures Assembled(s, mask, length) == Assembled(t, mask, length)
  {
    PayloadAgree(s, t, length - 1);
  }

  lemma {:induction false} PayloadAgree(s: seq<Byte>, t: seq<Byte>, n: nat)
    requires n <= |s| && n <= |t|
    requires forall k :: 1 <= k <= n ==> Low6(At(s, k)) == Low6(At(t, k))
    ensures Payload(s, n) == Payload(t, n)
  {
    if n > 0 {
      PayloadAgree(s, t, n - 1);
    }
  }

  /** The extra shift is harmless exactly when the lead byte's masked payload
      is zero; otherwise the assembled value differs from the standard one. */
  lemma MatchesStandardIff(s: seq<Byte>, mask: Byte, length: int)
    requires Classified(mask, length) && length <= |s| + 1
    ensures Assembled(s, mask, length) == StandardValue(s, mask, length)
        <==> Masked(At(s, 0), mask) == 0
  {
    var a, sh, w, p := Masked(At(s, 0), mask), Pow2(7 - length), Pow64(length - 1), Payload(s, length - 1);
    assert Assembled(s, mask, length) == a * sh * w + p;
    assert StandardValue(s, mask, length) == a * w + p;
    assert sh == 2 * Pow2(6 - length);
    ShiftChanges(a, sh, w);
  }

  lemma ShiftChanges(a: nat, sh: nat, w: nat)
    requires sh >= 2 && w >= 1
    ensures a * sh * w == a * w <==> a == 0
  {
    if a > 0 {
      var x := a * w;
      assert x >= 1;
      assert a * sh * w == sh * x;
      assert sh * x >= 2 * x;
    }
  }

  /** `utf8_encode`: classify the first byte, give `UTF8_INVALID_CODEPOINT`
      for a rejected one, and otherwise assemble. The C code reads the
      `length` bytes whatever they are: past the terminator its behaviour is
      undefined, and so is the overflow of a 0xFD sequence. */
  function Encode(s: seq<Byte>): (r: Run<Int32>)
    ensures r == Returns(Code(InvalidCodepoint))
        <==> |s| > 0 && (0x80 <= s[0] <= 0xBF || s[0] == 0xFE || s[0] == 0xFF)
    ensures r == Undefined(Overrun)
        <==> GetCodepointInfo(At(s, 0)).accepted && GetCodepointInfo(At(s, 0)).length > |s| + 1
    ensures r == Undefined(Overflow) <==> |s| >= 5 && s[0] == 0xFD
    ensures r.Returns? && r.value != Code(InvalidCodepoint) ==>
      var info := GetCodepointInfo(At(s, 0));
      info.accepted && r.value == Assembled(s, info.mask, info.length)
  {
    var info := GetCodepointInfo(At(s, 0));
    if info.length == Code(InvalidLength) then Returns(Code(InvalidCodepoint))
    else if info.length > |s| + 1 then Undefined(Overrun)
    else
      var cp: int := Assembled(s, info.mask, info.length);
      AssembledRange(s, info.mask, info.length);
      if FitsInt32(cp) then Returns(cp) else Undefined(Overflow)
  }

  /** `utf8_encode` returns the standard decoding of a complete sequence
      exactly when the lead byte is the terminator or a bare length prefix.
      Among the canonical encodings of Unicode scalar values those are the
      encodings of U+0000, of U+0800 to U+0FFF and of U+10000 to U+3FFFF. */
  lemma EncodeStandardIff(s: seq<Byte>)
    requires GetCodepointInfo(At(s, 0)).accepted
    requires GetCodepointInfo(At(s, 0)).length <= |s| + 1
    ensures var info := GetCodepointInfo(At(s, 0));
      Encode(s) == Returns(StandardValue(s, info.mask, info.length)) <==>
        At(s, 0) in {0x00, 0xC0, 0xE0, 0xF0, 0xF8, 0xFC}
  {
    var info := GetCodepointInfo(At(s, 0));
    MatchesStandardIff(s, info.mask, info.length);
    LeadWithoutPayload(At(s, 0));
    LeadPayload(At(s, 0));
  }
}
