# libUTF8, modelled in Dafny

libUTF8 is a small C library that reads zero-terminated byte strings as
UTF-8. `utf8_get_codepoint_info` classifies a lead byte: it gives the mask
for the lead byte's payload bits and the number of bytes the sequence claims.
It uses the six-byte table of section 2 of RFC 2279. `utf8_encode_info`
builds the value of one sequence, and `utf8_encode` wraps the two.
`utf8_valid_codepoint` is the scalar-value test of section 3 of RFC 3629.
`utf8_has_bom` tests for the byte-order mark of section 6 of RFC 3629. The
two string walks are `utf8_strlen` and `utf8_valid`.

This project models that code as it is written, and proves what it does.

- A `const char*` is the sequence of bytes from the pointer up to the
  buffer's final zero. The terminator itself sits just past the end.
  Bytes after it are not part of the model. Reads that can reach the
  terminator go through `CString.At`, and every other index is bounded by
  the sequence's length, so the verifier checks that no modelled read goes
  past the terminator.
- Where the C code's behaviour becomes undefined, the model gives
  `Undefined(Overrun)` or `Undefined(Overflow)` and picks no value. Overrun
  means a read past the terminator: a sequence cut short by the
  terminator, which the walk then jumps over. Overflow means the signed
  overflow of `codepoint <<= 6` on a complete 0xFD sequence;
  `utf8_encode_info` reports it at the shift that overflows.
- `utf8_encode_info` shifts the lead byte's payload left by `7 - length`
  before it folds in the continuation bytes. The model keeps that shift. As
  a result `$` decodes to 0x900, and the result agrees with standard
  decoding only when the lead byte has no payload bits. The loop guard
  `--length && ++str` always runs the loop `length - 1` times, so the
  `UTF8_INVALID_CODEPOINT` return after the loop is dead code.
- The walks never call `utf8_valid_codepoint`. They never check that a
  continuation byte carries the `10` prefix. Only a lead byte the
  classifier rejects can make them fail. `WalkSpec` characterises exactly
  where a walk ends: the string splits into units the walk steps over,
  followed by a rest whose lead byte, with the number of bytes left before
  the terminator, decides the outcome.

Several behaviours one might expect of a UTF-8 library are not in the
code. The model follows the code:

- `utf8_strlen` does not skip a leading BOM; it counts it as one codepoint
  (`Vectors.BomCounted`).
- A sequence cut off by the terminator is not detected. The C code reads
  past the terminator, which the model reports as Overrun
  (`Vectors.WalkOverruns`).
- 0xFE matches no lead pattern and is rejected by the classifier; it is not
  classified as a six-byte lead.
- No decoding iterator and no codepoint-array builder exist in the code.
  `utf8_iterator_t` is declared and never defined.
- The `size_t` cast of `UTF8_INVALID_STRING` is the all-ones value. No
  count of a shorter string can equal it (`StringWalk.StrlenSentinel`).
- Checks main.c:75-77 and main.c:79-80 do not hold for the code as
  written. The model computes the values the code returns instead
  (`Vectors.MainEncodes`, `Vectors.MainBomAndReplacement`). Checks
  main.c:71-74, 84 and 85 hold, because the shifted values are still scalar
  values (`Vectors.MainCodepoints`).

Files: `utf8_defs.dfy` holds the constants of utf8.h, the string cursor and
bit helpers. `classifier.dfy`, `assembler.dfy` and `codepoint_check.dfy`
model the single-sequence functions, and `bom.dfy` the BOM test. `walk.dfy` holds the
two walks. `walk_spec.dfy` holds the characterisation of where they stop.
`vectors.dfy` holds the checks of main.c and the edge cases.

## Model

| member | source | states |
|---|---|---|
| `Utf8Defs.Code` | utf8.h:56-61 | every `utf8_error_t` enumerator is a negative `int32_t` |
| `Utf8Defs.CodesDistinct` | utf8.h:58-60 | the three error codes are pairwise distinct |
| `Utf8Defs.BomConstants` | utf8.h:46-51 | the BOM is `UTF8_BOM_STRLEN` = 3 bytes long, and no byte of the BOM or of the replacement sequence is the terminator |
| `Classifier.GetCodepointInfo` | utf8.c:33-77 | 0x00-0x7F, 0xC0-0xDF, 0xE0-0xEF, 0xF0-0xF7, 0xF8-0xFB and 0xFC-0xFD give the masks 0x7F, 0x1F, 0x0F, 0x07, 0x03, 0x01 and the lengths 1 to 6; a byte is rejected, with mask 0 and `UTF8_INVALID_LENGTH`, exactly when it is 0x80-0xBF, 0xFE or 0xFF; a byte is accepted exactly when its length is in 1..6 |
| `Classifier.LeadPayload` | utf8.c:39-68 | the masked payload of an accepted lead fits in its mask, which is 2^(7-length) - 1 for a multi-byte lead; an ASCII byte is its own payload; 0xFD is the only six-byte lead with its payload bit set |
| `Classifier.LeadWithoutPayload` | utf8.c:39-68 | an accepted lead has zero payload exactly when it is 0x00, 0xC0, 0xE0, 0xF0, 0xF8 or 0xFC |
| `Assembler.EncodeInfo` | utf8.c:87-110 | the loop runs `length - 1` times and reads exactly `length` bytes; when the value fits `int32_t` the result is the lead payload times 2^(7-length), followed by the low six bits of each later byte as base-64 digits; when it does not, a shift by six overflows (utf8.c:99) and the result is Overflow, with no value; it is never `UTF8_INVALID_CODEPOINT`, so the return at utf8.c:104-107 is dead |
| `Assembler.PartialBound` | utf8.c:97-101 | before each shift by six the partial value times 64 is at most the value of the whole sequence, so a shift that overflows `int32_t` means the whole value does not fit |
| `Assembler.PayloadExtends` | utf8.c:97-101 | each further continuation byte multiplies the digits read so far by at least 64 |
| `Assembler.PayloadBound` | utf8.c:96-101 | the continuation digits of `n` bytes are below 64^n |
| `Assembler.AssembledRange` | utf8.c:92-101 | for lengths 1 to 5 the value is below 2^28; for length 6 it is below 2^32; it fits `int32_t` exactly when the lead is not 0xFD, and a 0xFD sequence reaches at least 2^31 |
| `Assembler.AssembledReadsOnly` | utf8.c:95-101 | the value depends only on the lead byte and the low six bits of the next `length - 1` bytes, never on their `10` prefix or on later bytes |
| `Assembler.MatchesStandardIff` | utf8.c:92-93 | the value with the extra shift equals the standard decoding exactly when the lead byte's masked payload is zero |
| `Assembler.Encode` | utf8.c:119-131 | `UTF8_INVALID_CODEPOINT` exactly for a rejected first byte; Overrun exactly when the sequence reaches past the terminator; Overflow exactly for a complete 0xFD sequence; otherwise the assembled value |
| `Assembler.EncodeStandardIff` | utf8.c:119-131 | for a complete sequence, `utf8_encode` returns the standard decoding exactly when the lead byte is 0x00, 0xC0, 0xE0, 0xF0, 0xF8 or 0xFC |
| `CodepointCheck.ValidCodepoint` | utf8.c:233-244 | true exactly when 0 <= cp < 0x110000 and cp is outside 0xD800-0xDFFF; the unsigned cast makes every negative value false |
| `CodepointCheck.NoErrorCodeIsValid` | utf8.c:242-243 | no error code passes the codepoint test |
| `Bom.HasBom` | utf8.c:139-148 | true exactly when the string has at least three bytes and they are EF BB BF |
| `Bom.HasBomStopsAtZero` | utf8.c:141-145 | the answer does not depend on any byte after the first zero |
| `StringWalk.Strlen` | utf8.c:157-188 | the C loop returns what the recursive walk predicts: the count of sequences stepped over at a zero lead byte, `UTF8_INVALID_STRING` at a rejected lead, or undefined behaviour |
| `StringWalk.Valid` | utf8.c:196-225 | the C loop returns true at a zero lead byte, false at a rejected lead, or undefined behaviour, as the recursive walk predicts |
| `StringWalk.Walk` | utf8.c:165-187 | the walk both loops run: it ends after no sequence exactly at a zero lead byte; it is Invalid at a lead byte the classifier rejects, Stuck(Overrun) once the classified length passes the bytes left before the terminator, and Stuck(Overflow) at a complete 0xFD sequence; a walk that ends counts at most as many sequences as the string has bytes |
| `StringWalk.StrlenSentinel` | utf8.c:173-180 | once cast to a `size_t` of any width wider than the string's length, the result is all-ones exactly when the string is invalid |
| `StringWalk.StrlenAgreesWithValid` | utf8.c:157-225 | `utf8_strlen` gives `UTF8_INVALID_STRING` exactly when `utf8_valid` gives false, and a count exactly when it gives true |
| `WalkSpec.HaltIsWalk` | utf8.c:165-181 | at a cursor where no unit starts, the walk's end is read off the lead byte and the number of bytes left before the terminator |
| `WalkSpec.WalkOverUnits` | utf8.c:183-185 | the walk steps over every unit, whatever value it assembles to, and counts one per unit |
| `WalkSpec.Decompose` | utf8.c:165-185 | every string splits into units followed by a rest where the walk halts |
| `WalkSpec.WalkCharacterized` | utf8.c:157-225 | the walk ends with `r` exactly when the string splits into units and a halting rest that predicts `r` |
| `WalkSpec.InvalidIffRejectedLead` | utf8.c:168-181 | `utf8_valid` is false, and `utf8_strlen` is `UTF8_INVALID_STRING`, exactly when the walk reaches a rejected lead after whole units |
| `WalkSpec.EndIffUnits` | utf8.c:165-187 | `utf8_strlen` returns `n` exactly when the string is `n` units followed by a zero lead or the terminator, and `utf8_valid` is true exactly when it is some number of units followed by one |
| `WalkSpec.StuckIff` | utf8.c:177-184 | the walk runs into Overrun exactly at a sequence the terminator cuts off, and into Overflow exactly at a complete 0xFD sequence, after whole units |
| `Vectors.AsciiWalk` | main.c:69 | a string of non-zero ASCII bytes has as many codepoints as bytes |
| `Vectors.BomCounted` | utf8.c:157-188 | a leading BOM adds one to the count and does not change the outcome otherwise |
| `Vectors.MainTwoCodepoints` | main.c:66-68 | E6 97 A5 D1 88 walks to a count of 2 |
| `Vectors.MainHello` | main.c:67-69 | "Hello, world!" walks to a count of 13 |
| `Vectors.MainRejects` | main.c:81-83 | FF EE, BE EF and FE are invalid |
| `Vectors.MainEncodes` | main.c:61-64 | `$`, `¢`, `€` and U+10348 decode to 0x900, 0x1022, 0x200AC and 0x10348 as written |
| `Vectors.MainBomAndReplacement` | main.c:79-80 | the BOM decodes to 0xF0EFF and the replacement character to 0xF0FFD as written |
| `Vectors.MainCodepoints` | main.c:70-74 | `UTF8_INVALID_CODEPOINT` fails the codepoint test; the four decoded values and the decoding 0xFC0 of `?` pass it |
| `Vectors.ReplacementWalks` | utf8.h:51 | the replacement character's lead claims three bytes and the sequence walks as one codepoint |
| `Vectors.BomThenAscii` | utf8.c:157-188 | BOM followed by "abc" has a count of 4 |
| `Vectors.WalkAcceptsSurrogate` | utf8.c:214-219 | DB 80 assembles to the surrogate 0xD800, which fails the codepoint test, yet walks as one codepoint |
| `Vectors.WalkAcceptsPastMax` | utf8.c:214-219 | F4 90 80 80 assembles to 0x810000, past U+10FFFF, which fails the codepoint test, yet walks as one codepoint |
| `Vectors.WalkAcceptsMalformed` | utf8.c:95-101 | the overlong C0 80 and the bad continuation in C2 41 walk as one codepoint each |
| `Vectors.WalkJumpsZero` | utf8.c:221 | in C2 00 41 the zero inside the first sequence is jumped over, giving a count of 2 |
| `Vectors.WalkOverruns` | utf8.c:97-101 | a lone F0 or C2 before the terminator runs past it |
| `Vectors.WalkOverflows` | utf8.c:99 | FD followed by five continuation bytes overflows; the same bytes led by FC do not |
| `Vectors.EncodeReadsTerminator` | utf8.c:97-101 | `utf8_encode` of a lone C2 reads the terminator as its continuation and returns 0x1000 |

## Left out

- `validate_file` and the argument loop of main.c: file I/O and printing. Its asserts appear only as checks in `Vectors`.
- The `UTF8_MALLOC`/`UTF8_FREE` macros (utf8.h:25-33) and the `bool_t` typedef (utf8.h:36-44): platform plumbing. No modelled function allocates, and `bool_t` is `bool`.
- `utf8_iterator_t` (utf8.h:71) is declared but never defined, so there is nothing to model.
- Signed versus unsigned `char`: bytes are modelled as `uint8_t`. Every mask the code applies to a `char` is at most 0x7F, and `utf8_has_bom` compares `char` with `char`, so the result is the same either way.
- What C does after undefined behaviour. Overrun and Overflow are outcomes, and no value is chosen for them. When a sequence both overruns and is led by 0xFD, the model reports Overrun.
- The growth of `length_str` past `SIZE_MAX`: the count is bounded by the string's length (`StringWalk.Walk`), and no buffer reaches that size.
- `|=` after `<<= 6` is modelled as addition. The low six bits are zero after the shift, so the two agree.
