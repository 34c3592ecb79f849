/**
 * The checks of main.c and the behaviours they do and do not pin down,
 * evaluated on the model as the C code is written.
 */
module Vectors {
  import opened Utf8Defs
  import opened CString
  import opened Classifier
  import opened Assembler
  import opened CodepointCheck
  import opened StringWalk
  import opened WalkSpec

  /** A string of ASCII bytes other than zero walks as one codepoint per
      byte, so `utf8_strlen` returns its byte count. */
  lemma {:induction false} AsciiWalk(s: seq<Byte>)
    requires forall k :: 0 <= k < |s| ==> 0 < s[k] < 0x80
    ensures Walk(s) == End(|s|)
    decreases |s|
  {
    if |s| > 0 {
      AsciiWalk(s[1..]);
      AssembledRange(s, 0x7F, 1);
    }
  }

  /** `utf8_strlen` does not skip a byte-order mark: it is one more codepoint. */
  lemma BomCounted(t: seq<Byte>)
    ensures Walk(BOM + t) == Shift(Walk(t), 1)
  {
    assert IsUnit(BOM);
    assert Concat([BOM]) == BOM;
    WalkOverUnits([BOM], t);
  }

  /** A single unit walks as one codepoint. */
  lemma OneUnit(c: seq<Byte>)
    requires IsUnit(c)
    ensures Walk(c) == End(1)
  {
    assert Concat([c]) + [] == c;
    WalkOverUnits([c], []);
  }

  /** Two units in a row walk as two codepoints. */
  lemma TwoUnits(a: seq<Byte>, b: seq<Byte>)
    requires IsUnit(a) && IsUnit(b)
    ensures Walk(a + b) == End(2)
  {
    assert Concat([b]) == b + Concat([]);
    assert Concat([a, b]) == a + Concat([b]);
    assert Concat([a, b]) + [] == a + b;
    WalkOverUnits([a, b], []);
  }

  /** main.c:66 and 68: a three-byte and a two-byte sequence. */
  lemma MainTwoCodepoints()
    ensures Walk([0xE6, 0x97, 0xA5, 0xD1, 0x88]) == End(2)
  {
    var a: seq<Byte> := [0xE6, 0x97, 0xA5];
    var b: seq<Byte> := [0xD1, 0x88];
    TwoUnits(a, b);
    assert a + b == [0xE6, 0x97, 0xA5, 0xD1, 0x88];
  }

  /** main.c:67 and 69: "Hello, world!", thirteen ASCII bytes. */
  lemma MainHello()
    ensures Walk([0x48, 0x65, 0x6C, 0x6C, 0x6F, 0x2C, 0x20, 0x77, 0x6F, 0x72, 0x6C, 0x64, 0x21]) == End(13)
  {
    var hello: seq<Byte> := [0x48, 0x65, 0x6C, 0x6C, 0x6F, 0x2C, 0x20, 0x77, 0x6F, 0x72, 0x6C, 0x64, 0x21];
    assert forall k :: 0 <= k < |hello| ==> 0 < hello[k] < 0x80;
    AsciiWalk(hello);
  }

  /** main.c:81-83: a lone 0xFF, a lone continuation byte, and 0xFE, which
      matches none of the lead patterns, are all rejected. */
  lemma MainRejects()
    ensures Walk([0xFF, 0xEE]) == Invalid
    ensures Walk([0xBE, 0xEF]) == Invalid
    ensures Walk([0xFE]) == Invalid
  {
  }

  /** main.c:61-64 and 75-78 as written: the extra shift turns `$` into
      0x900, `¢` into 0x1022 and `€` into 0x200AC; only U+10348, whose lead
      byte 0xF0 has no payload bits, decodes to itself. */
  lemma MainEncodes()
    ensures Encode([0x24]) == Returns(0x900)
    ensures Encode([0xC2, 0xA2]) == Returns(0x1022)
    ensures Encode([0xE2, 0x82, 0xAC]) == Returns(0x200AC)
    ensures Encode([0xF0, 0x90, 0x8D, 0x88]) == Returns(0x10348)
  {
    assert Pow2(6) == 64 && Pow2(5) == 32 && Pow2(4) == 16 && Pow2(3) == 8;
    assert Pow64(0) == 1 && Pow64(1) == 64 && Pow64(2) == 4096 && Pow64(3) == 262144;
  }

  /** main.c:79-80 as written: the BOM and the replacement character do not
      decode to U+FEFF and U+FFFD. */
  lemma MainBomAndReplacement()
    ensures Encode(BOM) == Returns(0xF0EFF)
    ensures Encode(REPLACEMENT) == Returns(0xF0FFD)
  {
    assert Pow2(4) == 16 && Pow64(2) == 4096;
  }

  /** main.c:70-74 and 84-85: the codepoint test on the values the model
      computes. All of them hold as written, since every shifted value still
      lies below 0x110000 outside the surrogates. */
  lemma MainCodepoints()
    ensures !ValidCodepoint(Code(InvalidCodepoint))
    ensures ValidCodepoint(0x900) && ValidCodepoint(0x1022)
    ensures ValidCodepoint(0x200AC) && ValidCodepoint(0x10348)
    ensures Encode([0x3F]) == Returns(0xFC0) && ValidCodepoint(0xFC0)
  {
    assert Pow2(6) == 64 && Pow64(0) == 1;
  }

  /** The replacement character's lead byte claims three bytes and the whole
      sequence walks as one codepoint. */
  lemma ReplacementWalks()
    ensures GetCodepointInfo(REPLACEMENT[0]).length == 3
    ensures Walk(REPLACEMENT) == End(1)
  {
    OneUnit(REPLACEMENT);
  }

  /** `utf8_strlen` counts a leading BOM: BOM then "abc" is four codepoints. */
  lemma BomThenAscii()
    ensures Walk(BOM + [0x61, 0x62, 0x63]) == End(4)
  {
    BomCounted([0x61, 0x62, 0x63]);
    AsciiWalk([0x61, 0x62, 0x63]);
  }

  /** The walk accepts a sequence whose value fails the codepoint test: as
      written, DB 80 assembles to the surrogate 0xD800. The walk never tests
      the codepoint. */
  lemma WalkAcceptsSurrogate()
    ensures Encode([0xDB, 0x80]) == Returns(0xD800) && !ValidCodepoint(0xD800)
    ensures Walk([0xDB, 0x80]) == End(1)
  {
    assert Encode([0xDB, 0x80]) == Returns(0xD800) by {
      assert Pow2(5) == 32 && Pow64(1) == 64;
    }
    assert Walk([0xDB, 0x80]) == End(1) by {
      OneUnit([0xDB, 0x80]);
    }
  }

  /** Likewise F4 90 80 80, which assembles to 0x810000, past U+10FFFF. */
  lemma WalkAcceptsPastMax()
    ensures Encode([0xF4, 0x90, 0x80, 0x80]) == Returns(0x81_0000) && !ValidCodepoint(0x81_0000)
    ensures Walk([0xF4, 0x90, 0x80, 0x80]) == End(1)
  {
    assert Encode([0xF4, 0x90, 0x80, 0x80]) == Returns(0x81_0000) by {
      assert Pow2(3) == 8 && Pow64(3) == 262144;
    }
    assert Walk([0xF4, 0x90, 0x80, 0x80]) == End(1) by {
      OneUnit([0xF4, 0x90, 0x80, 0x80]);
    }
  }

  /** The walk accepts an overlong encoding of U+0000, and a continuation
      byte that lacks its `10` prefix. */
  lemma WalkAcceptsMalformed()
    ensures Walk([0xC0, 0x80]) == End(1)
    ensures Walk([0xC2, 0x41]) == End(1)
  {
    OneUnit([0xC0, 0x80]);
    OneUnit([0xC2, 0x41]);
  }

  /** A zero byte inside a sequence does not end the string: the cursor jumps
      over it and the walk goes on to the `A` after it. */
  lemma WalkJumpsZero()
    ensures Walk([0xC2, 0x00, 0x41]) == End(2)
  {
    var a: seq<Byte> := [0xC2, 0x00];
    var b: seq<Byte> := [0x41];
    TwoUnits(a, b);
    assert a + b == [0xC2, 0x00, 0x41];
  }

  /** A lead byte whose sequence the terminator cuts off runs past it. */
  lemma WalkOverruns()
    ensures Walk([0xF0]) == Stuck(Overrun)
    ensures Walk([0xC2]) == Stuck(Overrun)
  {
  }

  /** A complete 0xFD sequence overflows, while the same sequence led by 0xFC
      fits. */
  lemma WalkOverflows()
    ensures Walk([0xFD, 0x80, 0x80, 0x80, 0x80, 0x80]) == Stuck(Overflow)
    ensures Walk([0xFC, 0x80, 0x80, 0x80, 0x80, 0x80]) == End(1)
  {
    OneUnit([0xFC, 0x80, 0x80, 0x80, 0x80, 0x80]);
    AssembledRange([0xFD, 0x80, 0x80, 0x80, 0x80, 0x80], 0x01, 6);
  }

  /** `utf8_encode` on a two-byte lead followed by the terminator reads the
      terminator as its continuation byte and returns a value. */
  lemma EncodeReadsTerminator()
    ensures Encode([0xC2]) == Returns(0x1000)
  {
    assert Pow2(5) == 32 && Pow64(1) == 64;
  }
}
