/**
 * The UTF-8 transformation of RFC 3629 (section 3): a Unicode scalar value
 * as one to four octets, and its inverse.
 */
module Utf8 {
  import opened Options
  import Utf16

  newtype Byte = x: int | 0 <= x < 0x100

  predicate IsContinuation(b: Byte) { 0x80 <= b <= 0xBF }

  /**
   * The number of leading 1 bits of an octet, capped at 5: 0 for ASCII, 1 for
   * a continuation octet, 2 to 4 for the first octet of a multi-octet
   * sequence, 5 for an octet that never occurs in UTF-8.
   */
  function LeadingOnes(b: Byte): (n: nat)
    ensures n <= 5
    ensures n == 0 <==> b < 0x80
    ensures n == 1 <==> IsContinuation(b)
  {
    if b < 0x80 then 0
    else if b < 0xC0 then 1
    else if b < 0xE0 then 2
    else if b < 0xF0 then 3
    else if b < 0xF8 then 4
    else 5
  }

  /** The UTF-8 octets of a scalar value, shortest form. */
  function Encode(cp: int): (r: seq<Byte>)
    requires Utf16.IsScalarValue(cp)
    ensures 1 <= |r| <= 4
    ensures |r| == 1 <==> cp < 0x80
    ensures |r| == 1 ==> LeadingOnes(r[0]) == 0
    ensures |r| > 1 ==> LeadingOnes(r[0]) == |r|
    ensures forall i | 1 <= i < |r| :: IsContinuation(r[i])
  {
    if cp < 0x80 then
      [cp as Byte]
    else if cp < 0x800 then
      [(0xC0 + cp / 0x40) as Byte, (0x80 + cp % 0x40) as Byte]
    else if cp < 0x1_0000 then
      [(0xE0 + cp / 0x1000) as Byte, (0x80 + cp / 0x40 % 0x40) as Byte, (0x80 + cp % 0x40) as Byte]
    else
      [(0xF0 + cp / 0x4_0000) as Byte, (0x80 + cp / 0x1000 % 0x40) as Byte,
       (0x80 + cp / 0x40 % 0x40) as Byte, (0x80 + cp % 0x40) as Byte]
  }

  /** The six payload bits of a continuation octet. */
  function Payload(b: Byte): int
    requires IsContinuation(b)
  {
    b as int - 0x80
  }

  /**
   * The scalar value that a complete octet sequence encodes, or `None` when
   * the octets are not a valid UTF-8 encoding: a bad first octet, a missing
   * or bad continuation octet, an overlong form, a surrogate or a value above
   * U+10FFFF.
   */
  function Decode(bs: seq<Byte>): (r: Option<int>)
    ensures r.Some? ==> Utf16.IsScalarValue(r.value) && Encode(r.value) == bs
  {
    if |bs| == 0 then None
    else
      var n := LeadingOnes(bs[0]);
      if n == 0 then
        if |bs| == 1 then Some(bs[0] as int) else None
      else if n == 1 || n > 4 || |bs| != n then None
      else if exists i | 1 <= i < n :: !IsContinuation(bs[i]) then None
      else
        var cp :=
          if n == 2 then (bs[0] as int - 0xC0) * 0x40 + Payload(bs[1])
          else if n == 3 then ((bs[0] as int - 0xE0) * 0x40 + Payload(bs[1])) * 0x40 + Payload(bs[2])
          else (((bs[0] as int - 0xF0) * 0x40 + Payload(bs[1])) * 0x40 + Payload(bs[2])) * 0x40 + Payload(bs[3]);
        if n == 2 && cp < 0x80 then None
        else if n == 3 && (cp < 0x800 || !Utf16.IsScalarValue(cp)) then None
        else if n == 4 && (cp < 0x1_0000 || cp > 0x10FFFF) then None
        else
          DecodeInvertsEncode(n, bs, cp);
          Some(cp)
  }

  /** The arithmetic half of the round trip: re-encoding a decoded value gives back its octets. */
  lemma DecodeInvertsEncode(n: nat, bs: seq<Byte>, cp: int)
    requires 2 <= n <= 4 && |bs| == n && LeadingOnes(bs[0]) == n
    requires forall i | 1 <= i < n :: IsContinuation(bs[i])
    requires n == 2 ==> cp == (bs[0] as int - 0xC0) * 0x40 + Payload(bs[1]) && 0x80 <= cp
    requires n == 3 ==> cp == ((bs[0] as int - 0xE0) * 0x40 + Payload(bs[1])) * 0x40 + Payload(bs[2])
                        && 0x800 <= cp && Utf16.IsScalarValue(cp)
    requires n == 4 ==> cp == (((bs[0] as int - 0xF0) * 0x40 + Payload(bs[1])) * 0x40 + Payload(bs[2])) * 0x40 + Payload(bs[3])
                        && 0x1_0000 <= cp <= 0x10FFFF
    ensures Utf16.IsScalarValue(cp) && Encode(cp) == bs
  {
    if n == 2 {
      ReencodeTwo(bs[0], bs[1], cp);
      assert bs == [bs[0], bs[1]];
    } else if n == 3 {
      ReencodeThree(bs[0], bs[1], bs[2], cp);
      assert bs == [bs[0], bs[1], bs[2]];
    } else {
      ReencodeFour(bs[0], bs[1], bs[2], bs[3], cp);
      assert bs == [bs[0], bs[1], bs[2], bs[3]];
    }
  }

  lemma ReencodeTwo(b0: Byte, b1: Byte, cp: int)
    requires LeadingOnes(b0) == 2 && IsContinuation(b1)
    requires cp == (b0 as int - 0xC0) * 0x40 + Payload(b1) && 0x80 <= cp
    ensures Utf16.IsScalarValue(cp) && Encode(cp) == [b0, b1]
  {
    SplitSixBits(cp, b0 as int - 0xC0, Payload(b1));
  }

  lemma ReencodeThree(b0: Byte, b1: Byte, b2: Byte, cp: int)
    requires LeadingOnes(b0) == 3 && IsContinuation(b1) && IsContinuation(b2)
    requires cp == ((b0 as int - 0xE0) * 0x40 + Payload(b1)) * 0x40 + Payload(b2)
    requires 0x800 <= cp && Utf16.IsScalarValue(cp)
    ensures Encode(cp) == [b0, b1, b2]
  {
    var hi := (b0 as int - 0xE0) * 0x40 + Payload(b1);
    SplitSixBits(cp, hi, Payload(b2));
    SplitSixBits(hi, b0 as int - 0xE0, Payload(b1));
  }

  lemma ReencodeFour(b0: Byte, b1: Byte, b2: Byte, b3: Byte, cp: int)
    requires LeadingOnes(b0) == 4 && IsContinuation(b1) && IsContinuation(b2) && IsContinuation(b3)
    requires cp == (((b0 as int - 0xF0) * 0x40 + Payload(b1)) * 0x40 + Payload(b2)) * 0x40 + Payload(b3)
    requires 0x1_0000 <= cp <= 0x10FFFF
    ensures Utf16.IsScalarValue(cp) && Encode(cp) == [b0, b1, b2, b3]
  {
    var mid := (b0 as int - 0xF0) * 0x40 + Payload(b1);
    var hi := mid * 0x40 + Payload(b2);
    SplitSixBits(cp, hi, Payload(b3));
    SplitSixBits(hi, mid, Payload(b2));
    SplitSixBits(mid, b0 as int - 0xF0, Payload(b1));
  }

  /** Dividing by 0x40 undoes a shift by six bits. */
  lemma SplitSixBits(n: int, q: int, m: int)
    requires 0 <= m < 0x40 && n == q * 0x40 + m
    ensures n / 0x40 == q && n % 0x40 == m
  {
    var q', m' := n / 0x40, n % 0x40;
    assert (q - q') * 0x40 == m' - m;
  }

  /** Decode recovers every scalar value from its encoding. */
  lemma DecodeEncode(cp: int)
    requires Utf16.IsScalarValue(cp)
    ensures Decode(Encode(cp)) == Some(cp)
  {
    ShiftsCompose(cp);
    var bs := Encode(cp);
    if cp < 0x80 {
    } else if cp < 0x800 {
      assert (bs[0] as int - 0xC0) * 0x40 + Payload(bs[1]) == cp;
    } else if cp < 0x1_0000 {
      assert ((bs[0] as int - 0xE0) * 0x40 + Payload(bs[1])) * 0x40 + Payload(bs[2]) == cp;
    } else {
      assert (((bs[0] as int - 0xF0) * 0x40 + Payload(bs[1])) * 0x40 + Payload(bs[2])) * 0x40 + Payload(bs[3]) == cp;
    }
  }

  /** Shifting right by twelve or eighteen bits is shifting by six bits repeatedly. */
  lemma ShiftsCompose(a: int)
    requires a >= 0
    ensures a == a / 0x40 * 0x40 + a % 0x40
    ensures a / 0x40 == a / 0x1000 * 0x40 + a / 0x40 % 0x40
    ensures a / 0x1000 == a / 0x4_0000 * 0x40 + a / 0x1000 % 0x40
  {
    var x := a / 0x40;
    var y := x / 0x40;
    assert a == y * 0x1000 + (x % 0x40 * 0x40 + a % 0x40);
    var q, m := a / 0x1000, a % 0x1000;
    assert (y - q) * 0x1000 == m - (x % 0x40 * 0x40 + a % 0x40);
    var z := a / 0x1000;
    var w := z / 0x40;
    assert a == w * 0x4_0000 + (z % 0x40 * 0x1000 + a % 0x1000);
    var q2, m2 := a / 0x4_0000, a % 0x4_0000;
    assert (w - q2) * 0x4_0000 == m2 - (z % 0x40 * 0x1000 + a % 0x1000);
  }
}
