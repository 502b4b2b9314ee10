/**
 * ECMAScript String values as sequences of UTF-16 code units, and the
 * conversions between code units and code points that the URI functions use
 * (sections 6.1.4, 11.1.1 and 11.1.4 of ECMA-262).
 */
module Utf16 {

  /** One UTF-16 code unit, the element type of an ECMAScript String. */
  newtype CodeUnit = x: int | 0 <= x < 0x1_0000

  /** An ECMAScript String value. Unlike a Dafny `string`, it may hold lone surrogates. */
  type JsString = seq<CodeUnit>

  predicate IsLeadingSurrogate(u: CodeUnit) { 0xD800 <= u <= 0xDBFF }

  predicate IsTrailingSurrogate(u: CodeUnit) { 0xDC00 <= u <= 0xDFFF }

  predicate IsSurrogate(u: CodeUnit) { 0xD800 <= u <= 0xDFFF }

  /** A Unicode scalar value: any code point except a surrogate. */
  predicate IsScalarValue(cp: int) { 0 <= cp < 0xD800 || 0xE000 <= cp <= 0x10FFFF }

  /** UTF16EncodeCodePoint: one code unit in the BMP, a surrogate pair above it. */
  function EncodeCodePoint(cp: int): (r: JsString)
    requires IsScalarValue(cp)
    ensures |r| == (if cp < 0x1_0000 then 1 else 2)
    ensures |r| == 1 ==> r[0] as int == cp && !IsSurrogate(r[0])
    ensures |r| == 2 ==> IsLeadingSurrogate(r[0]) && IsTrailingSurrogate(r[1])
  {
    if cp < 0x1_0000 then [cp as CodeUnit]
    else
      var v := cp - 0x1_0000;
      [(0xD800 + v / 0x400) as CodeUnit, (0xDC00 + v % 0x400) as CodeUnit]
  }

  /** UTF16SurrogatePairToCodePoint. */
  function SurrogatePairToCodePoint(lead: CodeUnit, trail: CodeUnit): (cp: int)
    requires IsLeadingSurrogate(lead) && IsTrailingSurrogate(trail)
    ensures 0x1_0000 <= cp <= 0x10FFFF
    ensures EncodeCodePoint(cp) == [lead, trail]
  {
    var hi := lead as int - 0xD800;
    var lo := trail as int - 0xDC00;
    DivModUnique(hi * 0x400 + lo, hi, lo);
    hi * 0x400 + lo + 0x1_0000
  }

  /** Division by 0x400 is determined by its quotient and remainder. */
  lemma DivModUnique(n: int, q: int, m: int)
    requires 0 <= m < 0x400 && n == q * 0x400 + m
    ensures n / 0x400 == q && n % 0x400 == m
  {
    var q', m' := n / 0x400, n % 0x400;
    assert n == q' * 0x400 + m';
    assert (q - q') * 0x400 == m' - m;
  }

  /** The record that CodePointAt returns. */
  datatype CodePointRecord = CodePointRecord(codePoint: int, codeUnitCount: nat, isUnpairedSurrogate: bool)

  /**
   * CodePointAt(s, position): the code point starting at `position`, reading a
   * surrogate pair as one code point and flagging a surrogate that is not
   * part of a pair.
   */
  function CodePointAt(s: JsString, position: nat): (r: CodePointRecord)
    requires position < |s|
    ensures r.codeUnitCount == 1 || r.codeUnitCount == 2
    ensures position + r.codeUnitCount <= |s|
    ensures r.isUnpairedSurrogate <==>
      IsTrailingSurrogate(s[position])
      || (IsLeadingSurrogate(s[position]) && (position + 1 == |s| || !IsTrailingSurrogate(s[position + 1])))
    ensures !r.isUnpairedSurrogate ==>
      IsScalarValue(r.codePoint) && s[position..position + r.codeUnitCount] == EncodeCodePoint(r.codePoint)
  {
    var first := s[position];
    if !IsSurrogate(first) then
      CodePointRecord(first as int, 1, false)
    else if IsTrailingSurrogate(first) || position + 1 == |s| then
      CodePointRecord(first as int, 1, true)
    else
      var second := s[position + 1];
      if !IsTrailingSurrogate(second) then
        CodePointRecord(first as int, 1, true)
      else
        CodePointRecord(SurrogatePairToCodePoint(first, second), 2, false)
  }

  /** CodePointAt reads back what EncodeCodePoint wrote, whatever follows it. */
  lemma CodePointAtEncoded(cp: int, rest: JsString)
    requires IsScalarValue(cp)
    ensures CodePointAt(EncodeCodePoint(cp) + rest, 0)
         == CodePointRecord(cp, |EncodeCodePoint(cp)|, false)
  {
    var s := EncodeCodePoint(cp) + rest;
    var r := CodePointAt(s, 0);
    assert s[0..r.codeUnitCount] == EncodeCodePoint(r.codePoint);
    if cp >= 0x1_0000 {
      assert r.codeUnitCount == 2;
    }
    EncodeCodePointInjective(cp, r.codePoint);
  }

  lemma EncodeCodePointInjective(a: int, b: int)
    requires IsScalarValue(a) && IsScalarValue(b)
    requires EncodeCodePoint(a) == EncodeCodePoint(b)
    ensures a == b
  {
    if a >= 0x1_0000 {
      var va, vb := a - 0x1_0000, b - 0x1_0000;
      assert va / 0x400 == vb / 0x400 && va % 0x400 == vb % 0x400;
    }
  }

  /**
   * A surrogate at index `i` that is not half of a surrogate pair: a leading
   * surrogate not followed by a trailing one, or a trailing surrogate not
   * preceded by a leading one.
   */
  predicate IsLoneSurrogateAt(s: JsString, i: nat)
    requires i < |s|
  {
    || (IsLeadingSurrogate(s[i]) && (i + 1 == |s| || !IsTrailingSurrogate(s[i + 1])))
    || (IsTrailingSurrogate(s[i]) && (i == 0 || !IsLeadingSurrogate(s[i - 1])))
  }

  /** A String is well-formed UTF-16 exactly when it has no lone surrogate. */
  predicate HasLoneSurrogate(s: JsString)
  {
    exists i | 0 <= i < |s| :: IsLoneSurrogateAt(s, i)
  }

  /**
   * The String value that a Dafny string literal denotes when written in
   * ECMAScript source: the UTF-16 encoding of its code points. (It recurses
   * from the end so that the verifier does not unfold it on literals.)
   */
  function FromString(s: string): (r: JsString)
    ensures |r| >= |s|
    ensures r != [] ==> !IsLeadingSurrogate(r[|r| - 1])
  {
    if s == [] then [] else FromString(s[..|s| - 1]) + EncodeCodePoint(s[|s| - 1] as int)
  }

  /** A string literal never denotes a String with a lone surrogate. */
  lemma {:induction false} FromStringWellFormed(s: string)
    ensures !HasLoneSurrogate(FromString(s))
    decreases |s|
  {
    if s != [] {
      var init := FromString(s[..|s| - 1]);
      var r := FromString(s);
      FromStringWellFormed(s[..|s| - 1]);
      assert forall i | 0 <= i < |init| :: !IsLoneSurrogateAt(init, i);
      forall i | 0 <= i < |r|
        ensures !IsLoneSurrogateAt(r, i)
      {
        if i < |init| {
          assert r[i] == init[i];
          if i > 0 { assert r[i - 1] == init[i - 1]; }
          assert !IsLoneSurrogateAt(init, i);
        }
      }
    }
  }

  /** Text inside the Basic Multilingual Plane: one UTF-16 code unit per character. */
  predicate IsBmp(s: string)
  {
    forall i | 0 <= i < |s| :: s[i] as int < 0x1_0000
  }

  /** On text inside the Basic Multilingual Plane, FromString is the identity on code points. */
  lemma {:induction false} FromStringBmp(s: string)
    requires IsBmp(s)
    ensures |FromString(s)| == |s|
    ensures forall i | 0 <= i < |s| :: FromString(s)[i] as int == s[i] as int
  {
    if s != [] {
      FromStringBmp(s[..|s| - 1]);
    }
  }
}
