/**
 * Percent-encoding of octets (section 2.1 of RFC 3986) with the uppercase
 * hexadecimal digits that ECMA-262's Encode writes, and the parsing of such
 * triplets back into octets, which accepts either case as ECMA-262's
 * ParseHexOctet does.
 */
module Percent {
  import opened Options
  import opened Utf16
  import opened Utf8

  const PercentSign: CodeUnit := '%' as CodeUnit

  predicate IsUpperHexDigit(u: CodeUnit)
  {
    ('0' as CodeUnit <= u <= '9' as CodeUnit) || ('A' as CodeUnit <= u <= 'F' as CodeUnit)
  }

  /** The value of a hexadecimal digit of either case, or `None` for any other code unit. */
  function HexValue(u: CodeUnit): (r: Option<int>)
    ensures r.Some? ==> 0 <= r.value < 16
  {
    if '0' as CodeUnit <= u <= '9' as CodeUnit then Some((u - '0' as CodeUnit) as int)
    else if 'A' as CodeUnit <= u <= 'F' as CodeUnit then Some((u - 'A' as CodeUnit) as int + 10)
    else if 'a' as CodeUnit <= u <= 'f' as CodeUnit then Some((u - 'a' as CodeUnit) as int + 10)
    else None
  }

  /** The uppercase hexadecimal digit for a value below sixteen. */
  function HexDigit(d: int): (u: CodeUnit)
    requires 0 <= d < 16
    ensures IsUpperHexDigit(u)
    ensures HexValue(u) == Some(d)
  {
    if d < 10 then '0' as CodeUnit + d as CodeUnit else 'A' as CodeUnit + (d - 10) as CodeUnit
  }

  /** The octet two hexadecimal digits spell, high digit first. */
  function ParseHexOctet(high: CodeUnit, low: CodeUnit): (r: Option<Byte>)
    ensures r.Some? <==> HexValue(high).Some? && HexValue(low).Some?
  {
    match (HexValue(high), HexValue(low))
    case (Some(h), Some(l)) => Some((h * 16 + l) as Byte)
    case _ => None
  }

  /** The triplet `%XY` for one octet. */
  function EscapeOctet(b: Byte): (r: JsString)
    ensures |r| == 3 && r[0] == PercentSign
    ensures IsUpperHexDigit(r[1]) && IsUpperHexDigit(r[2])
    ensures ParseHexOctet(r[1], r[2]) == Some(b)
  {
    [PercentSign, HexDigit(b as int / 16), HexDigit(b as int % 16)]
  }

  /** The triplets of a sequence of octets, in order. */
  function EscapeOctets(bs: seq<Byte>): (r: JsString)
    ensures |r| == 3 * |bs|
  {
    if bs == [] then [] else EscapeOctet(bs[0]) + EscapeOctets(bs[1..])
  }

  lemma {:induction false} EscapeOctetsAppend(bs: seq<Byte>, b: Byte)
    ensures EscapeOctets(bs + [b]) == EscapeOctets(bs) + EscapeOctet(b)
  {
    if bs == [] {
      assert bs + [b] == [b];
    } else {
      assert (bs + [b])[1..] == bs[1..] + [b];
      EscapeOctetsAppend(bs[1..], b);
    }
  }

  /**
   * Reads `count` consecutive triplets from the start of `r`; `None` when
   * the text is too short, a triplet does not start with `%`, or its digits
   * are not hexadecimal.
   */
  function ParseEscapes(r: JsString, count: nat): (res: Option<seq<Byte>>)
    ensures res.Some? ==> |res.value| == count && 3 * count <= |r|
  {
    if count == 0 then Some([])
    else if |r| < 3 || r[0] != PercentSign then None
    else match ParseHexOctet(r[1], r[2])
      case None => None
      case Some(b) => Prepend([b], ParseEscapes(r[3..], count - 1))
  }

  /** Parsing the triplets of `bs` gives back `bs`, whatever follows them. */
  lemma {:induction false} ParseEscapeOctets(bs: seq<Byte>, rest: JsString)
    ensures ParseEscapes(EscapeOctets(bs) + rest, |bs|) == Some(bs)
  {
    if bs != [] {
      var r := EscapeOctets(bs) + rest;
      var e := EscapeOctet(bs[0]);
      assert r == e + (EscapeOctets(bs[1..]) + rest);
      assert r[0] == e[0] && r[1] == e[1] && r[2] == e[2];
      assert r[3..] == EscapeOctets(bs[1..]) + rest;
      ParseEscapeOctets(bs[1..], rest);
      assert [bs[0]] + bs[1..] == bs;
    }
  }
}
