/**
 * encodeURIComponent (the Encode operation of ECMA-262 section 19.2.6 with an
 * empty extra-unescaped set) and, as its partner, the decoding that
 * decodeURIComponent performs.
 */
module UriComponent {
  import opened Options
  import opened Utf16
  import Utf8
  import opened Percent

  /**
   * The code units encodeURIComponent copies unchanged: the ASCII letters and
   * digits and `- _ . ! ~ * ' ( )`.
   */
  predicate IsUnescaped(u: CodeUnit)
  {
    || ('A' as CodeUnit <= u <= 'Z' as CodeUnit)
    || ('a' as CodeUnit <= u <= 'z' as CodeUnit)
    || ('0' as CodeUnit <= u <= '9' as CodeUnit)
    || u == '-' as CodeUnit || u == '_' as CodeUnit || u == '.' as CodeUnit
    || u == '!' as CodeUnit || u == '~' as CodeUnit || u == '*' as CodeUnit
    || u == '\'' as CodeUnit || u == '(' as CodeUnit || u == ')' as CodeUnit
  }

  /**
   * The unescaped set as ECMA-262 lists it (section 19.2.6.1): uriAlpha,
   * DecimalDigit and uriMark.
   */
  const LowerAlpha: string := "abcdefghijklmnopqrstuvwxyz"
  const UpperAlpha: string := "ABCDEFGHIJKLMNOPQRSTUVWXYZ"
  const DecimalDigit: string := "0123456789"
  const UriMark: string := "-_.!~*'()"

  predicate IsListed(c: char)
  {
    c in LowerAlpha || c in UpperAlpha || c in DecimalDigit || c in UriMark
  }

  lemma LowerListed(c: char)
    ensures c in LowerAlpha <==> 'a' <= c <= 'z'
  {
  }

  lemma UpperListed(c: char)
    ensures c in UpperAlpha <==> 'A' <= c <= 'Z'
  {
  }

  lemma DigitListed(c: char)
    ensures c in DecimalDigit <==> '0' <= c <= '9'
  {
  }

  lemma MarkListed(c: char)
    ensures c in UriMark <==>
      c == '-' || c == '_' || c == '.' || c == '!' || c == '~' || c == '*' || c == '\'' || c == '(' || c == ')'
  {
  }

  /** The ranges of IsUnescaped cover exactly the characters the standard lists. */
  lemma UnescapedIsListed(u: CodeUnit)
    ensures IsUnescaped(u) <==> u < 0x80 && IsListed(u as int as char)
  {
    if u < 0x80 {
      var c := u as int as char;
      LowerListed(c);
      UpperListed(c);
      DigitListed(c);
      MarkListed(c);
    }
  }

  /**
   * The shape of every encoded component: unescaped code units and `%XY`
   * triplets with uppercase hexadecimal digits, and nothing else.
   */
  predicate IsEncodedComponent(r: JsString)
    decreases |r|
  {
    if r == [] then true
    else if IsUnescaped(r[0]) then IsEncodedComponent(r[1..])
    else
      && |r| >= 3 && r[0] == PercentSign
      && IsUpperHexDigit(r[1]) && IsUpperHexDigit(r[2])
      && IsEncodedComponent(r[3..])
  }

  /**
   * The functional definition of encodeURIComponent: `None` is the URIError
   * thrown at an unpaired surrogate. Each unescaped code unit is copied;
   * every other code point becomes the triplets of its UTF-8 octets.
   */
  function Encode(s: JsString): (r: Option<JsString>)
    ensures r.Some? ==> IsEncodedComponent(r.value)
    ensures r.Some? ==> |r.value| >= |s|
    decreases |s|
  {
    if s == [] then Some([])
    else if IsUnescaped(s[0]) then
      Prepend([s[0]], Encode(s[1..]))
    else
      var cp := CodePointAt(s, 0);
      if cp.isUnpairedSurrogate then None
      else
        var escaped := EscapeOctets(Utf8.Encode(cp.codePoint));
        EscapedIsEncoded(Utf8.Encode(cp.codePoint), Encode(s[cp.codeUnitCount..]));
        Prepend(escaped, Encode(s[cp.codeUnitCount..]))
  }

  /** A run of triplets in front of an encoded component keeps it encoded. */
  lemma {:induction false} EscapedIsEncoded(bs: seq<Utf8.Byte>, tail: Option<JsString>)
    requires |bs| >= 1
    requires tail.Some? ==> IsEncodedComponent(tail.value)
    ensures var r := Prepend(EscapeOctets(bs), tail);
      r.Some? ==> IsEncodedComponent(r.value) && |r.value| >= 3 + |tail.value|
  {
    if tail.Some? {
      var r := EscapeOctets(bs) + tail.value;
      var e := EscapeOctet(bs[0]);
      assert r == e + (EscapeOctets(bs[1..]) + tail.value);
      assert r[0] == e[0] && r[1] == e[1] && r[2] == e[2];
      assert r[3..] == EscapeOctets(bs[1..]) + tail.value;
      if |bs| > 1 {
        EscapedIsEncoded(bs[1..], tail);
      } else {
        assert r[3..] == tail.value;
      }
    }
  }

  /**
   * Dropping a complete leading part (no lone surrogate in it, not ending in a
   * leading surrogate) neither adds nor removes a lone surrogate.
   */
  lemma LoneSurrogateAfter(s: JsString, n: nat)
    requires 1 <= n <= |s|
    requires forall j | 0 <= j < n :: !IsLoneSurrogateAt(s, j)
    requires !IsLeadingSurrogate(s[n - 1])
    ensures HasLoneSurrogate(s) <==> HasLoneSurrogate(s[n..])
  {
    var t := s[n..];
    forall i | n <= i < |s|
      ensures IsLoneSurrogateAt(s, i) <==> IsLoneSurrogateAt(t, i - n)
    {
      assert t[i - n] == s[i];
      if i + 1 < |s| { assert t[i - n + 1] == s[i + 1]; }
      if i > n { assert t[i - n - 1] == s[i - 1]; }
    }
    if HasLoneSurrogate(s) {
      var i :| 0 <= i < |s| && IsLoneSurrogateAt(s, i);
      assert IsLoneSurrogateAt(t, i - n);
    }
    if HasLoneSurrogate(t) {
      var i :| 0 <= i < |t| && IsLoneSurrogateAt(t, i);
      assert IsLoneSurrogateAt(s, i + n);
    }
  }

  /** encodeURIComponent throws exactly when its argument holds a lone surrogate. */
  lemma {:induction false} EncodeFailsIffLoneSurrogate(s: JsString)
    ensures Encode(s).None? <==> HasLoneSurrogate(s)
    decreases |s|
  {
    if s == [] {
    } else if IsUnescaped(s[0]) {
      LoneSurrogateAfter(s, 1);
      EncodeFailsIffLoneSurrogate(s[1..]);
    } else {
      var cp := CodePointAt(s, 0);
      if cp.isUnpairedSurrogate {
        assert IsLoneSurrogateAt(s, 0);
      } else {
        if cp.codeUnitCount == 2 {
          assert s[0..2] == EncodeCodePoint(cp.codePoint);
        }
        LoneSurrogateAfter(s, cp.codeUnitCount);
        EncodeFailsIffLoneSurrogate(s[cp.codeUnitCount..]);
      }
    }
  }

  /**
   * Decodes the escape sequence at the start of `r` (which starts with `%`)
   * as decodeURIComponent does: one triplet for an ASCII octet, or the two to
   * four triplets of one UTF-8 encoded code point. Yields the code units it
   * stands for and the number of code units it spans, or `None` for the
   * URIError decodeURIComponent throws.
   */
  function DecodeEscape(r: JsString): (res: Option<(JsString, nat)>)
    requires |r| > 0 && r[0] == PercentSign
    ensures res.Some? ==> 3 <= res.value.1 <= |r|
  {
    if |r| < 3 then None
    else match ParseHexOctet(r[1], r[2])
      case None => None
      case Some(b) =>
        var n := Utf8.LeadingOnes(b);
        if n == 0 then Some(([b as CodeUnit], 3))
        else if n == 1 || n > 4 then None
        else match ParseEscapes(r[3..], n - 1)
          case None => None
          case Some(more) =>
            match Utf8.Decode([b] + more)
            case None => None
            case Some(cp) => Some((EncodeCodePoint(cp), 3 * n))
  }

  /** decodeURIComponent: every escape sequence replaced by the code units it encodes. */
  function Decode(r: JsString): (res: Option<JsString>)
    decreases |r|
  {
    if r == [] then Some([])
    else if r[0] != PercentSign then Prepend([r[0]], Decode(r[1..]))
    else match DecodeEscape(r)
      case None => None
      case Some((units, used)) => Prepend(units, Decode(r[used..]))
  }

  /** The front of a run of triplets: `%`, the first octet's digits, then the other triplets. */
  lemma EscapeHead(octets: seq<Utf8.Byte>, rest: JsString)
    requires |octets| >= 1
    ensures var r := EscapeOctets(octets) + rest;
      && |r| >= 3 && r[0] == PercentSign
      && ParseHexOctet(r[1], r[2]) == Some(octets[0])
      && r[3..] == EscapeOctets(octets[1..]) + rest
  {
    var e := EscapeOctet(octets[0]);
    var tail := EscapeOctets(octets[1..]) + rest;
    assert EscapeOctets(octets) == e + EscapeOctets(octets[1..]);
    var r := e + tail;
    assert r == EscapeOctets(octets) + rest;
    assert r[0] == e[0] && r[1] == e[1] && r[2] == e[2];
    assert r[3..] == tail;
  }

  /** The single triplet of an ASCII code point decodes to that one code unit. */
  lemma DecodeEscapeOfAscii(cp: int, rest: JsString)
    requires 0 <= cp < 0x80
    ensures DecodeEscape(EscapeOctets(Utf8.Encode(cp)) + rest) == Some((EncodeCodePoint(cp), 3))
  {
    var octets := Utf8.Encode(cp);
    EscapeHead(octets, rest);
    var b := octets[0];
    assert Utf8.LeadingOnes(b) == 0;
    assert EncodeCodePoint(cp) == [b as CodeUnit];
  }

  /** The two to four triplets of a non-ASCII code point decode to its code units. */
  lemma DecodeEscapeOfMultiOctet(cp: int, rest: JsString)
    requires IsScalarValue(cp) && cp >= 0x80
    ensures var octets := Utf8.Encode(cp);
      DecodeEscape(EscapeOctets(octets) + rest) == Some((EncodeCodePoint(cp), 3 * |octets|))
  {
    var octets := Utf8.Encode(cp);
    var r := EscapeOctets(octets) + rest;
    EscapeHead(octets, rest);
    var b := octets[0];
    var n := Utf8.LeadingOnes(b);
    assert n == |octets|;
    ParseEscapeOctets(octets[1..], rest);
    assert ParseEscapes(r[3..], n - 1) == Some(octets[1..]);
    assert [b] + octets[1..] == octets;
    Utf8.DecodeEncode(cp);
  }

  /** The escape sequence written for one code point decodes back to its code units. */
  lemma DecodeEscapeOfEncoded(cp: int, rest: JsString)
    requires IsScalarValue(cp)
    ensures var octets := Utf8.Encode(cp);
      DecodeEscape(EscapeOctets(octets) + rest) == Some((EncodeCodePoint(cp), 3 * |octets|))
  {
    if cp < 0x80 {
      DecodeEscapeOfAscii(cp, rest);
    } else {
      DecodeEscapeOfMultiOctet(cp, rest);
    }
  }

  /** Decoding past a unit that is not `%`. */
  lemma DecodeUnescapedStep(u: CodeUnit, tail: JsString)
    requires u != PercentSign
    ensures Decode([u] + tail) == Prepend([u], Decode(tail))
  {
    assert ([u] + tail)[1..] == tail;
  }

  /** Decoding past the escape sequence written for one code point. */
  lemma DecodeEscapedStep(cp: int, tail: JsString)
    requires IsScalarValue(cp)
    ensures Decode(EscapeOctets(Utf8.Encode(cp)) + tail) == Prepend(EncodeCodePoint(cp), Decode(tail))
  {
    var octets := Utf8.Encode(cp);
    var r := EscapeOctets(octets) + tail;
    DecodeEscapeOfEncoded(cp, tail);
    assert r[3 * |octets|..] == tail;
  }

  /** Decoding an encoded component gives back the original String. */
  lemma {:induction false} DecodeEncode(s: JsString)
    requires Encode(s).Some?
    ensures Decode(Encode(s).value) == Some(s)
    decreases |s|
  {
    if s == [] {
    } else if IsUnescaped(s[0]) {
      DecodeUnescapedStep(s[0], Encode(s[1..]).value);
      DecodeEncode(s[1..]);
      assert [s[0]] + s[1..] == s;
    } else {
      var cp := CodePointAt(s, 0);
      var n := cp.codeUnitCount;
      DecodeEscapedStep(cp.codePoint, Encode(s[n..]).value);
      DecodeEncode(s[n..]);
      assert s[..n] + s[n..] == s;
    }
  }

  /** One step of the Encode loop, read off the functional definition at index `k`. */
  lemma EncodeAt(s: JsString, k: nat)
    requires k < |s|
    ensures IsUnescaped(s[k]) ==> Encode(s[k..]) == Prepend([s[k]], Encode(s[k + 1..]))
    ensures !IsUnescaped(s[k]) && CodePointAt(s, k).isUnpairedSurrogate ==> Encode(s[k..]) == None
    ensures !IsUnescaped(s[k]) && !CodePointAt(s, k).isUnpairedSurrogate ==>
      var cp := CodePointAt(s, k);
      Encode(s[k..]) == Prepend(EscapeOctets(Utf8.Encode(cp.codePoint)), Encode(s[k + cp.codeUnitCount..]))
  {
    var t := s[k..];
    assert t[0] == s[k];
    assert CodePointAt(s, k) == CodePointAt(t, 0);
    assert t[1..] == s[k + 1..];
    var n := CodePointAt(s, k).codeUnitCount;
    assert t[n..] == s[k + n..];
  }

  /** Appends the triplets of `octets` to `out`, one octet at a time. */
  method AppendEscapes(out: JsString, octets: seq<Utf8.Byte>) returns (r: JsString)
    ensures r == out + EscapeOctets(octets)
  {
    r := out;
    var j := 0;
    while j < |octets|
      invariant j <= |octets|
      invariant r == out + EscapeOctets(octets[..j])
    {
      EscapeOctetsAppend(octets[..j], octets[j]);
      assert octets[..j + 1] == octets[..j] + [octets[j]];
      r := r + EscapeOctet(octets[j]);
      j := j + 1;
    }
    assert octets[..j] == octets;
  }

  /**
   * The Encode loop as ECMA-262 writes it: walk the String by code unit,
   * copy unescaped code units, and for any other code point append the
   * triplets of its UTF-8 octets; stop with a URIError at an unpaired
   * surrogate.
   */
  method EncodeLoop(s: JsString) returns (r: Option<JsString>)
    ensures r == Encode(s)
  {
    var out: JsString := [];
    var k := 0;
    assert s[0..] == s;
    while k < |s|
      invariant k <= |s|
      invariant Encode(s) == Prepend(out, Encode(s[k..]))
      decreases |s| - k
    {
      EncodeAt(s, k);
      if IsUnescaped(s[k]) {
        PrependTwice(out, [s[k]], Encode(s[k + 1..]));
        out := out + [s[k]];
        k := k + 1;
      } else {
        var cp := CodePointAt(s, k);
        if cp.isUnpairedSurrogate {
          return None;
        }
        var octets := Utf8.Encode(cp.codePoint);
        var next := k + cp.codeUnitCount;
        ghost var rest := Encode(s[next..]);
        assert Encode(s[k..]) == Prepend(EscapeOctets(octets), rest);
        PrependTwice(out, EscapeOctets(octets), rest);
        out := AppendEscapes(out, octets);
        assert Encode(s) == Prepend(out, rest);
        k := next;
      }
    }
    assert s[k..] == [] && Encode(s[k..]) == Some([]);
    assert out + [] == out;
    return Some(out);
  }

  /**
   * encodeURIComponent: the Encode loop, which throws exactly on a String
   * holding an unpaired surrogate and otherwise returns a well-formed
   * component that decodes back to the String.
   */
  method EncodeUriComponent(s: JsString) returns (r: Option<JsString>)
    ensures r == Encode(s)
    ensures r.None? <==> HasLoneSurrogate(s)
    ensures r.Some? ==> IsEncodedComponent(r.value) && Decode(r.value) == Some(s)
  {
    r := EncodeLoop(s);
    EncodeFailsIffLoneSurrogate(s);
    if r.Some? {
      DecodeEncode(s);
    }
  }

  /**
   * An encoded component holds none of the code units that delimit URL parts
   * or query parameters, so it always stays one query-parameter value.
   */
  lemma {:induction false} EncodedHasNoDelimiters(r: JsString)
    requires IsEncodedComponent(r)
    ensures forall i | 0 <= i < |r| ::
      r[i] !in ['&' as CodeUnit, '=' as CodeUnit, '?' as CodeUnit, '#' as CodeUnit, '/' as CodeUnit, '+' as CodeUnit]
    decreases |r|
  {
    if r != [] {
      var n := if IsUnescaped(r[0]) then 1 else 3;
      EncodedHasNoDelimiters(r[n..]);
      forall i | 0 <= i < |r|
        ensures r[i] !in ['&' as CodeUnit, '=' as CodeUnit, '?' as CodeUnit, '#' as CodeUnit, '/' as CodeUnit, '+' as CodeUnit]
      {
        if i >= n {
          assert r[i] == r[n..][i - n];
        }
      }
    }
  }

  /** A String made only of unescaped code units encodes to itself. */
  lemma {:induction false} EncodeUnescapedIsIdentity(s: JsString)
    requires forall i | 0 <= i < |s| :: IsUnescaped(s[i])
    ensures Encode(s) == Some(s)
    decreases |s|
  {
    if s != [] {
      EncodeUnescapedIsIdentity(s[1..]);
      assert [s[0]] + s[1..] == s;
    }
  }

  /** Joins two encoding results; a failure in either part is a failure of the whole. */
  function Join(x: Option<JsString>, y: Option<JsString>): Option<JsString>
  {
    if x.Some? && y.Some? then Some(x.value + y.value) else None
  }

  lemma JoinPrepend(p: JsString, x: Option<JsString>, y: Option<JsString>)
    ensures Prepend(p, Join(x, y)) == Join(Prepend(p, x), y)
  {
    if x.Some? && y.Some? {
      assert p + (x.value + y.value) == (p + x.value) + y.value;
    }
  }

  /**
   * Encoding works code point by code point, so a String split anywhere but
   * inside a surrogate pair encodes as the concatenation of its parts.
   */
  lemma {:induction false} EncodeAppend(a: JsString, b: JsString)
    requires a == [] || !IsLeadingSurrogate(a[|a| - 1])
    ensures Encode(a + b) == Join(Encode(a), Encode(b))
    decreases |a|
  {
    if a == [] {
      assert a + b == b;
      if Encode(b).Some? {
        assert [] + Encode(b).value == Encode(b).value;
      }
    } else {
      var ab := a + b;
      assert ab[0] == a[0];
      if IsUnescaped(a[0]) {
        assert ab[1..] == a[1..] + b;
        EncodeAppend(a[1..], b);
        JoinPrepend([a[0]], Encode(a[1..]), Encode(b));
      } else {
        if |a| > 1 {
          assert ab[1] == a[1];
        }
        var cp := CodePointAt(a, 0);
        assert CodePointAt(ab, 0) == cp;
        if !cp.isUnpairedSurrogate {
          assert ab[cp.codeUnitCount..] == a[cp.codeUnitCount..] + b;
          if cp.codeUnitCount == |a| {
            assert a[cp.codeUnitCount..] == [];
          }
          EncodeAppend(a[cp.codeUnitCount..], b);
          JoinPrepend(EscapeOctets(Utf8.Encode(cp.codePoint)), Encode(a[cp.codeUnitCount..]), Encode(b));
        }
      }
    }
  }
}
