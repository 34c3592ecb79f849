/**
 * `utf8_strlen` and `utf8_valid`: the two string walks. Both run the same
 * loop: while the byte under the cursor is not zero, classify it, assemble
 * a value, and move the cursor on by the classified length. Neither calls
 * `utf8_valid_codepoint`, neither checks that continuation bytes look like
 * continuation bytes, and `utf8_strlen` does not skip a byte-order mark.
 */
module StringWalk {
  import opened Utf8Defs
  import opened CString
  import opened Classifier
  import opened Assembler

  /** How the walk ends: at a zero lead byte after `count` sequences, at a
      lead byte the classifier rejects, or in undefined behaviour. */
  datatype Scan = End(count: nat) | Invalid | Stuck(ub: Ub)

  /** The end of a walk that first stepped over `k` more sequences. */
  function Shift(r: Scan, k: nat): Scan {
    if r.End? then End(r.count + k) else r
  }

  /** The walk from cursor `t`. A sequence that reaches the terminator is
      undefined behaviour: if its last byte lies past the terminator the
      assembly reads it, and if its last byte is the terminator the cursor
      then moves past it and the loop test reads there. The walk ends at
      once, after no sequence, exactly at a zero lead byte; a walk that ends
      never counts more sequences than the string has bytes. */
  function Walk(t: seq<Byte>): (r: Scan)
    ensures r.End? ==> r.count <= |t|
    ensures r == End(0) <==> At(t, 0) == 0
    ensures At(t, 0) != 0 && !GetCodepointInfo(t[0]).accepted ==> r == Invalid
    ensures At(t, 0) != 0 && GetCodepointInfo(t[0]).accepted && GetCodepointInfo(t[0]).length > |t|
      ==> r == Stuck(Overrun)
    ensures |t| >= 6 && t[0] == 0xFD ==> r == Stuck(Overflow)
    decreases |t|
  {
    if At(t, 0) == 0 then End(0)
    else
      var info := GetCodepointInfo(t[0]);
      if info.length == Code(InvalidLength) then Invalid
      else if info.length > |t| then Stuck(Overrun)
      else
        var cp: int := Assembled(t, info.mask, info.length);
        AssembledRange(t, info.mask, info.length);
        if !FitsInt32(cp) then Stuck(Overflow)
        else if cp == Code(InvalidCodepoint) then Invalid
        else Shift(Walk(t[info.length..]), 1)
  }

  /** What `utf8_strlen` returns for each end of the walk, before the cast to
      `size_t`: the count, or `UTF8_INVALID_STRING`. */
  function StrlenOf(w: Scan): Run<int> {
    match w
    case End(n) => Returns(n)
    case Invalid => Returns(Code(InvalidString))
    case Stuck(u) => Undefined(u)
  }

  /** What `utf8_valid` returns for each end of the walk. */
  function ValidOf(w: Scan): Run<bool> {
    match w
    case End(_) => Returns(true)
    case Invalid => Returns(false)
    case Stuck(u) => Undefined(u)
  }

  /** `utf8_strlen`, loop for loop. The guards on the cursor mark where the C
      code's behaviour becomes undefined; the C code itself does not test. */
  method Strlen(str: seq<Byte>) returns (r: Run<int>)
    ensures r == StrlenOf(Walk(str))
  {
    var iter := str;
    var lengthStr: nat := 0;
    while At(iter, 0) != 0
      invariant Shift(Walk(iter), lengthStr) == Walk(str)
      decreases |iter|
    {
      var info := GetCodepointInfo(iter[0]);
      if info.length == Code(InvalidLength) {
        return Returns(Code(InvalidString));
      }
      if info.length > |iter| {
        return Undefined(Overrun);
      }
      var res := EncodeInfo(iter, info.mask, info.length);
      if res.Undefined? {
        return Undefined(res.ub);
      }
      var codepoint := res.value;
      if codepoint == Code(InvalidCodepoint) {
        return Returns(Code(InvalidString));
      }
      StepOver(iter, lengthStr);
      lengthStr := lengthStr + 1;
      iter := iter[info.length..];
    }
    return Returns(lengthStr);
  }

  /** One step of the walk over a sequence that assembles without error
      moves the count on by one. */
  lemma StepOver(t: seq<Byte>, n: nat)
    requires At(t, 0) != 0
    requires GetCodepointInfo(t[0]).accepted && GetCodepointInfo(t[0]).length <= |t|
    requires FitsInt32(Assembled(t, GetCodepointInfo(t[0]).mask, GetCodepointInfo(t[0]).length))
    requires Assembled(t, GetCodepointInfo(t[0]).mask, GetCodepointInfo(t[0]).length) != Code(InvalidCodepoint)
    ensures Shift(Walk(t), n) == Shift(Walk(t[GetCodepointInfo(t[0]).length..]), n + 1)
  {
  }

  /** `utf8_valid`, loop for loop: the walk of `utf8_strlen` without the count. */
  method Valid(str: seq<Byte>) returns (r: Run<bool>)
    ensures r == ValidOf(Walk(str))
  {
    var iter := str;
    while At(iter, 0) != 0
      invariant Walk(iter).End? ==> Walk(str).End?
      invariant !Walk(iter).End? ==> Walk(iter) == Walk(str)
      decreases |iter|
    {
      var info := GetCodepointInfo(iter[0]);
      if info.length == Code(InvalidLength) {
        return Returns(false);
      }
      if info.length > |iter| {
        return Undefined(Overrun);
      }
      var res := EncodeInfo(iter, info.mask, info.length);
      if res.Undefined? {
        return Undefined(res.ub);
      }
      var codepoint := res.value;
      if codepoint == Code(InvalidCodepoint) {
        return Returns(false);
      }
      iter := iter[info.length..];
    }
    return Returns(true);
  }

  /** `(size_t)v` on a platform whose `size_t` has `bits` bits, for a value
      within one turn of the unsigned range: a negative value gains 2^bits. */
  function SizeT(v: int, bits: nat): nat
    requires -(Pow2(bits) as int) <= v < Pow2(bits)
  {
    if v < 0 then v + Pow2(bits) else v
  }

  /** Once cast to `size_t`, the `UTF8_INVALID_STRING` result of `utf8_strlen`
      is the all-ones value, and no count of a string shorter than that can
      take the same value: the caller can tell the two apart. */
  lemma StrlenSentinel(str: seq<Byte>, bits: nat)
    requires |str| < Pow2(bits) - 1
    ensures Walk(str).End? ==> Walk(str).count <= |str|
    ensures StrlenOf(Walk(str)).Returns? ==>
      (SizeT(StrlenOf(Walk(str)).value, bits) == Pow2(bits) - 1 <==> Walk(str) == Invalid)
  {
  }

  /** `utf8_strlen` reports `UTF8_INVALID_STRING` exactly when `utf8_valid`
      reports false, and a count exactly when it reports true. */
  lemma StrlenAgreesWithValid(str: seq<Byte>)
    ensures StrlenOf(Walk(str)) == Returns(Code(InvalidString)) <==> ValidOf(Walk(str)) == Returns(false)
    ensures (StrlenOf(Walk(str)).Returns? && StrlenOf(Walk(str)).value >= 0) <==> ValidOf(Walk(str)) == Returns(true)
  {
  }
}
