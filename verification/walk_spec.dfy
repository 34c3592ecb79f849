/**
 * An independent description of where the string walk stops. A string is
 * cut into units, each a lead byte the walk steps over followed by exactly
 * the bytes it claims, and then a rest the walk stops at. The theorems say
 * that the walk ends exactly as this cut predicts: the value each unit
 * assembles to never matters, only the lead bytes.
 */
module WalkSpec {
  import opened Utf8Defs
  import opened CString
  import opened Classifier
  import opened Assembler
  import opened StringWalk

  /** A sequence the walk steps over: a non-zero lead byte the classifier
      accepts, other than 0xFD, followed by as many bytes as it claims.
      The bytes after the lead can be anything, zero included. */
  predicate IsUnit(c: seq<Byte>) {
    && |c| >= 1
    && c[0] != 0
    && GetCodepointInfo(c[0]).accepted
    && GetCodepointInfo(c[0]).length == |c|
    && c[0] != 0xFD
  }

  function Concat(cs: seq<seq<Byte>>): seq<Byte> {
    if |cs| == 0 then [] else cs[0] + Concat(cs[1..])
  }

  ghost predicate AllUnits(cs: seq<seq<Byte>>) {
    forall k :: 0 <= k < |cs| ==> IsUnit(cs[k])
  }

  /** The walk does not step over a unit at cursor `t`. */
  predicate Halts(t: seq<Byte>) {
    || |t| == 0
    || t[0] == 0
    || !GetCodepointInfo(t[0]).accepted
    || GetCodepointInfo(t[0]).length > |t|
    || t[0] == 0xFD
  }

  /** How the walk ends at a cursor where it halts, read off the lead byte
      and the number of bytes left before the terminator: a zero ends it, a rejected byte makes the string invalid, a
      sequence cut off by the terminator runs past it, and a complete 0xFD
      sequence overflows. */
  function Halt(t: seq<Byte>): Scan
    requires Halts(t)
  {
    if |t| == 0 || t[0] == 0 then End(0)
    else if !GetCodepointInfo(t[0]).accepted then Invalid
    else if GetCodepointInfo(t[0]).length > |t| then Stuck(Overrun)
    else Stuck(Overflow)
  }

  /** `s` is the units `cs` followed by a rest the walk halts at. */
  ghost predicate Splits(s: seq<Byte>, cs: seq<seq<Byte>>, rest: seq<Byte>) {
    AllUnits(cs) && Halts(rest) && s == Concat(cs) + rest
  }

  lemma HaltIsWalk(t: seq<Byte>)
    requires Halts(t)
    ensures Walk(t) == Halt(t)
  {
    if |t| > 0 && t[0] != 0 && GetCodepointInfo(t[0]).accepted && GetCodepointInfo(t[0]).length <= |t| {
      var info := GetCodepointInfo(t[0]);
      AssembledRange(t, info.mask, info.length);
    }
  }

  /** The walk steps over every unit, whatever value it assembles to. */
  lemma {:induction false} WalkOverUnits(cs: seq<seq<Byte>>, rest: seq<Byte>)
    requires AllUnits(cs)
    ensures Walk(Concat(cs) + rest) == Shift(Walk(rest), |cs|)
    decreases |cs|
  {
    if |cs| > 0 {
      var c := cs[0];
      var tail := Concat(cs[1..]) + rest;
      var t := Concat(cs) + rest;
      assert t == c + tail;
      assert AllUnits(cs[1..]) by {
        forall k | 0 <= k < |cs[1..]| ensures IsUnit(cs[1..][k]) {
          assert cs[1..][k] == cs[k + 1];
        }
      }
      WalkOverUnits(cs[1..], rest);
      assert IsUnit(c);
      assert t[0] == c[0];
      var info := GetCodepointInfo(t[0]);
      assert info.length as int == |c| <= |t|;
      AssembledRange(t, info.mask, info.length);
      assert t[info.length..] == tail;
      assert Walk(t) == Shift(Walk(tail), 1);
      assert Walk(tail) == Shift(Walk(rest), |cs| - 1);
      assert Shift(Shift(Walk(rest), |cs| - 1), 1) == Shift(Walk(rest), |cs|);
    } else {
      assert Concat(cs) + rest == rest;
    }
  }

  /** Every string splits into units and a rest the walk halts at. */
  lemma {:induction false} Decompose(s: seq<Byte>) returns (cs: seq<seq<Byte>>, rest: seq<Byte>)
    ensures Splits(s, cs, rest)
    decreases |s|
  {
    if Halts(s) {
      cs, rest := [], s;
      assert Concat(cs) == [];
    } else {
      var n := GetCodepointInfo(s[0]).length as int;
      var c := s[..n];
      var cs', rest' := Decompose(s[n..]);
      cs, rest := [c] + cs', rest';
      assert cs[1..] == cs';
      assert IsUnit(c);
      assert AllUnits(cs) by {
        forall k | 0 <= k < |cs| ensures IsUnit(cs[k]) {
          if k > 0 {
            assert cs[k] == cs'[k - 1];
          }
        }
      }
      assert s == c + s[n..];
    }
  }

  /** The walk ends with `r` exactly when the string splits into units and a
      halting rest whose lead byte predicts `r`. */
  lemma WalkCharacterized(s: seq<Byte>, r: Scan)
    ensures Walk(s) == r <==>
      exists cs, rest :: Splits(s, cs, rest) && r == Shift(Halt(rest), |cs|)
  {
    if Walk(s) == r {
      var cs, rest := Decompose(s);
      WalkOverUnits(cs, rest);
      HaltIsWalk(rest);
    }
    if exists cs, rest :: Splits(s, cs, rest) && r == Shift(Halt(rest), |cs|) {
      var cs, rest :| Splits(s, cs, rest) && r == Shift(Halt(rest), |cs|);
      WalkOverUnits(cs, rest);
      HaltIsWalk(rest);
    }
  }

  /** `utf8_valid` returns false, and `utf8_strlen` `UTF8_INVALID_STRING`,
      exactly when the walk reaches a lead byte the classifier rejects after
      stepping over whole units. */
  lemma InvalidIffRejectedLead(s: seq<Byte>)
    ensures ValidOf(Walk(s)) == Returns(false) <==>
      exists cs, rest :: Splits(s, cs, rest) && |rest| > 0 && !GetCodepointInfo(rest[0]).accepted
    ensures StrlenOf(Walk(s)) == Returns(Code(InvalidString)) <==> ValidOf(Walk(s)) == Returns(false)
  {
    WalkCharacterized(s, Invalid);
    if exists cs, rest :: Splits(s, cs, rest) && |rest| > 0 && !GetCodepointInfo(rest[0]).accepted {
      var cs, rest :| Splits(s, cs, rest) && |rest| > 0 && !GetCodepointInfo(rest[0]).accepted;
      assert Invalid == Shift(Halt(rest), |cs|);
    }
  }

  /** The walk over a split ends as its rest predicts, after its units. */
  lemma SplitWalk(s: seq<Byte>, cs: seq<seq<Byte>>, rest: seq<Byte>)
    requires Splits(s, cs, rest)
    ensures Walk(s) == Shift(Halt(rest), |cs|)
  {
    WalkOverUnits(cs, rest);
    HaltIsWalk(rest);
  }

  /** `utf8_valid` returns true, and `utf8_strlen` the count `n`, exactly
      when the string is `n` units followed by a zero lead byte or the
      terminator. */
  lemma EndIffUnits(s: seq<Byte>, n: nat)
    ensures StrlenOf(Walk(s)) == Returns(n) <==>
      exists cs, rest :: Splits(s, cs, rest) && |cs| == n && (|rest| == 0 || rest[0] == 0)
    ensures ValidOf(Walk(s)) == Returns(true) <==>
      exists cs, rest :: Splits(s, cs, rest) && (|rest| == 0 || rest[0] == 0)
  {
    var cs, rest := Decompose(s);
    SplitWalk(s, cs, rest);
    if Walk(s).End? {
      assert Halt(rest).End?;
      assert Splits(s, cs, rest) && (|rest| == 0 || rest[0] == 0);
      if Walk(s) == End(n) {
        assert Splits(s, cs, rest) && |cs| == n && (|rest| == 0 || rest[0] == 0);
      }
    }
    if exists cs, rest :: Splits(s, cs, rest) && |cs| == n && (|rest| == 0 || rest[0] == 0) {
      var cs', rest' :| Splits(s, cs', rest') && |cs'| == n && (|rest'| == 0 || rest'[0] == 0);
      SplitWalk(s, cs', rest');
      assert Walk(s) == End(n);
    }
    if exists cs, rest :: Splits(s, cs, rest) && (|rest| == 0 || rest[0] == 0) {
      var cs', rest' :| Splits(s, cs', rest') && (|rest'| == 0 || rest'[0] == 0);
      SplitWalk(s, cs', rest');
      assert Walk(s) == End(|cs'|);
    }
  }

  /** The walk runs into undefined behaviour exactly when, after whole units,
      it reaches a sequence the terminator cuts off, or a complete 0xFD one. */
  lemma StuckIff(s: seq<Byte>)
    ensures Walk(s) == Stuck(Overrun) <==>
      exists cs, rest :: Splits(s, cs, rest) && |rest| > 0 && rest[0] != 0
        && GetCodepointInfo(rest[0]).accepted && GetCodepointInfo(rest[0]).length > |rest|
    ensures Walk(s) == Stuck(Overflow) <==>
      exists cs, rest :: Splits(s, cs, rest) && |rest| >= 6 && rest[0] == 0xFD
  {
    WalkCharacterized(s, Stuck(Overrun));
    WalkCharacterized(s, Stuck(Overflow));
    if exists cs, rest :: Splits(s, cs, rest) && |rest| > 0 && rest[0] != 0
        && GetCodepointInfo(rest[0]).accepted && GetCodepointInfo(rest[0]).length > |rest| {
      var cs, rest :| Splits(s, cs, rest) && |rest| > 0 && rest[0] != 0
        && GetCodepointInfo(rest[0]).accepted && GetCodepointInfo(rest[0]).length > |rest|;
      assert Stuck(Overrun) == Shift(Halt(rest), |cs|);
    }
    if exists cs, rest :: Splits(s, cs, rest) && |rest| >= 6 && rest[0] == 0xFD {
      var cs, rest :| Splits(s, cs, rest) && |rest| >= 6 && rest[0] == 0xFD;
      assert Stuck(Overflow) == Shift(Halt(rest), |cs|);
    }
  }
}
