/**
 * Facts about short string literals that the verifier checks directly, and
 * how they carry over to the String values the literals denote. Long
 * constants are handled by cutting them into short pieces.
 */
module Literals {
  import opened Utf16

  /** The character `c` does not occur in `s`. */
  predicate Lacks(s: string, c: char)
  {
    forall i | 0 <= i < |s| :: s[i] != c
  }

  /** The character `x` is never directly followed by `y` in `s`. */
  predicate LacksPair(s: string, x: char, y: char)
  {
    forall i | 0 <= i < |s| - 1 :: !(s[i] == x && s[i + 1] == y)
  }

  lemma IsBmpAppend(a: string, b: string)
    requires IsBmp(a) && IsBmp(b)
    ensures IsBmp(a + b)
  {
  }

  lemma LacksAppend(a: string, b: string, c: char)
    requires Lacks(a, c) && Lacks(b, c)
    ensures Lacks(a + b, c)
  {
  }

  /** A pair absent from both parts is absent from the whole unless it straddles the join. */
  lemma LacksPairAppend(a: string, b: string, x: char, y: char)
    requires LacksPair(a, x, y) && LacksPair(b, x, y)
    requires a != [] && b != [] && !(a[|a| - 1] == x && b[0] == y)
    ensures LacksPair(a + b, x, y)
  {
    var ab := a + b;
    forall i | 0 <= i < |ab| - 1
      ensures !(ab[i] == x && ab[i + 1] == y)
    {
      if i < |a| - 1 {
        assert ab[i] == a[i] && ab[i + 1] == a[i + 1];
      } else if i >= |a| {
        assert ab[i] == b[i - |a|] && ab[i + 1] == b[i - |a| + 1];
      }
    }
  }

  /** A character missing from a literal is a code unit missing from its String. */
  lemma LacksUnit(s: string, c: char)
    requires IsBmp(s) && Lacks(s, c)
    ensures forall i | 0 <= i < |FromString(s)| :: FromString(s)[i] as int != c as int
  {
    FromStringBmp(s);
  }

  /** A character pair missing from a literal is a code unit pair missing from its String. */
  lemma LacksUnitPair(s: string, x: char, y: char)
    requires IsBmp(s) && LacksPair(s, x, y)
    ensures forall i | 0 <= i < |FromString(s)| - 1 ::
      !(FromString(s)[i] as int == x as int && FromString(s)[i + 1] as int == y as int)
  {
    FromStringBmp(s);
  }

  /** On text inside the Basic Multilingual Plane, FromString commutes with concatenation. */
  lemma FromStringAppendBmp(a: string, b: string)
    requires IsBmp(a) && IsBmp(b)
    ensures IsBmp(a + b)
    ensures FromString(a + b) == FromString(a) + FromString(b)
  {
    IsBmpAppend(a, b);
    FromStringBmp(a);
    FromStringBmp(b);
    FromStringBmp(a + b);
    var x, y, z := FromString(a), FromString(b), FromString(a + b);
    forall i | 0 <= i < |z|
      ensures z[i] == (x + y)[i]
    {
      if i < |a| {
        assert (a + b)[i] == a[i];
      } else {
        assert (a + b)[i] == b[i - |a|];
      }
    }
  }
}
