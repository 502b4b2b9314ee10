/**
 * optimizeImage: turns an image reference into the URL the page loads. A
 * missing or non-string reference becomes a fixed placeholder image, a
 * reference that is already proxied or served from the local lesson-image
 * path is kept as it is, and any other reference is wrapped in a URL of the
 * images.weserv.nl resizing proxy asking for width 480 and quality 80.
 */
module ImageOptimizer {
  import opened Options
  import opened Utf16
  import UriComponent
  import opened Literals

  /**
   * The argument of optimizeImage, narrowed to what the function looks at: a
   * String, or some other value (undefined, null, a number, an object, ...).
   */
  datatype JsValue = StringValue(text: JsString) | NonString

  /** The image shown when there is no usable reference. */
  const Placeholder: JsString := FromString("https://www.redbubble.com/frontend-static/error/artwork.jpg")

  /** Marks a reference that already goes through the resizing proxy. */
  const ProxyHost: JsString := FromString("images.weserv.nl")

  /** Marks a reference to an image the application serves itself. */
  const LessonImagesPath: JsString := FromString("/lesson-images")

  /** The proxy URL around the encoded reference. */
  const ProxyUrlPrefix: JsString := FromString("https://images.weserv.nl/?url=")
  const ProxyUrlSuffix: JsString := FromString("&w=480&q=80")

  /** `m` occurs in `s` starting at index `i`. */
  predicate OccursAt(s: JsString, m: JsString, i: nat)
  {
    i + |m| <= |s| && s[i..i + |m|] == m
  }

  /** String.prototype.includes: `m` occurs somewhere in `s`, at any position. */
  predicate Contains(s: JsString, m: JsString)
  {
    exists i: nat | i <= |s| :: OccursAt(s, m, i)
  }

  /** The references the function passes through untouched. */
  predicate IsPassthrough(s: JsString)
  {
    Contains(s, ProxyHost) || Contains(s, LessonImagesPath)
  }

  /**
   * String.prototype.includes as a search: try each start position in turn,
   * from 0 up to the last one at which `m` still fits. The empty String is
   * found at position 0.
   */
  method Includes(s: JsString, m: JsString) returns (found: bool)
    ensures found <==> Contains(s, m)
  {
    var i := 0;
    while i + |m| <= |s|
      invariant i <= |s| + 1
      invariant forall j: nat | j < i :: !OccursAt(s, m, j)
      decreases |s| - i
    {
      if s[i..i + |m|] == m {
        assert OccursAt(s, m, i);
        return true;
      }
      i := i + 1;
    }
    return false;
  }

  /** The passthrough test of optimizeImage: two substring searches. */
  method MentionsMarker(s: JsString) returns (b: bool)
    ensures b <==> IsPassthrough(s)
  {
    b := Includes(s, ProxyHost);
    if !b {
      b := Includes(s, LessonImagesPath);
    }
  }

  /** The proxy URL for an already encoded reference. */
  function ProxyUrl(encoded: JsString): JsString
  {
    ProxyUrlPrefix + encoded + ProxyUrlSuffix
  }

  /**
   * optimizeImage. A falsy or non-string argument gives the placeholder; a
   * String mentioning the proxy host or the lesson-image path is returned as
   * it is; any other String is percent-encoded into the proxy URL, and the
   * placeholder replaces it when encodeURIComponent throws. Whatever comes
   * back is non-empty, and it is either the placeholder or a String that a
   * further call passes through.
   */
  function OptimizeImage(v: JsValue): (r: JsString)
    ensures |r| > 0
    ensures r == Placeholder || IsPassthrough(r)
  {
    if v.NonString? || v.text == [] then
      Placeholder
    else if IsPassthrough(v.text) then
      v.text
    else
      match UriComponent.Encode(v.text)
      case Some(encoded) =>
        ProxyUrlNamesProxyHost(encoded);
        ProxyUrl(encoded)
      case None => Placeholder
  }

  /* Substrings */

  lemma ContainsInfix(a: JsString, m: JsString, b: JsString)
    ensures Contains(a + m + b, m)
  {
    assert (a + m + b)[|a|..|a| + |m|] == m;
    assert OccursAt(a + m + b, m, |a|);
  }

  /** A String lacking one of the code units of `m` does not contain `m`. */
  lemma MissingUnitNotContained(s: JsString, m: JsString, j: nat)
    requires j < |m|
    requires forall i | 0 <= i < |s| :: s[i] != m[j]
    ensures !Contains(s, m)
  {
    forall i: nat | i <= |s|
      ensures !OccursAt(s, m, i)
    {
      if i + |m| <= |s| {
        assert s[i..i + |m|][j] == s[i + j];
      }
    }
  }

  /** A String in which `m[0]` is never followed by `m[1]` does not contain `m`. */
  lemma MissingPairNotContained(s: JsString, m: JsString)
    requires |m| >= 2
    requires forall i | 0 <= i < |s| - 1 :: !(s[i] == m[0] && s[i + 1] == m[1])
    ensures !Contains(s, m)
  {
    forall i: nat | i <= |s|
      ensures !OccursAt(s, m, i)
    {
      if i + |m| <= |s| {
        assert s[i..i + |m|][0] == s[i] && s[i..i + |m|][1] == s[i + 1];
      }
    }
  }

  /* Facts about the constants */

  lemma PlaceholderHead()
    ensures var t := "https://www.redbubble.c"; IsBmp(t) && Lacks(t, 'v') && LacksPair(t, '/', 'l')
  {
  }

  lemma PlaceholderMiddle()
    ensures var t := "om/frontend-static/er"; IsBmp(t) && Lacks(t, 'v') && LacksPair(t, '/', 'l')
  {
  }

  lemma PlaceholderTail()
    ensures var t := "ror/artwork.jpg"; IsBmp(t) && Lacks(t, 'v') && LacksPair(t, '/', 'l')
  {
  }

  lemma PlaceholderPieces()
    ensures "https://www.redbubble.com/frontend-static/error/artwork.jpg"
         == "https://www.redbubble.c" + "om/frontend-static/er" + "ror/artwork.jpg"
  {
  }

  /** The placeholder has no `v` and no `/` followed by `l`. */
  lemma PlaceholderText()
    ensures forall i | 0 <= i < |Placeholder| :: Placeholder[i] as int != 'v' as int
    ensures forall i | 0 <= i < |Placeholder| - 1 ::
      !(Placeholder[i] as int == '/' as int && Placeholder[i + 1] as int == 'l' as int)
  {
    var a, b, c := "https://www.redbubble.c", "om/frontend-static/er", "ror/artwork.jpg";
    PlaceholderHead();
    PlaceholderMiddle();
    PlaceholderTail();
    IsBmpAppend(a, b);
    LacksAppend(a, b, 'v');
    LacksPairAppend(a, b, '/', 'l');
    IsBmpAppend(a + b, c);
    LacksAppend(a + b, c, 'v');
    LacksPairAppend(a + b, c, '/', 'l');
    PlaceholderPieces();
    LacksUnit(a + b + c, 'v');
    LacksUnitPair(a + b + c, '/', 'l');
  }

  /** A String with no `v` and no `/` followed by `l` names neither marker. */
  lemma NotPassthroughWithout(s: JsString)
    requires forall i | 0 <= i < |s| :: s[i] as int != 'v' as int
    requires forall i | 0 <= i < |s| - 1 :: !(s[i] as int == '/' as int && s[i + 1] as int == 'l' as int)
    ensures !IsPassthrough(s)
  {
    var host := "images.weserv.nl";
    FromStringBmp(host);
    assert host[12] == 'v';
    assert ProxyHost[12] as int == 'v' as int;
    MissingUnitNotContained(s, ProxyHost, 12);
    var path := "/lesson-images";
    FromStringBmp(path);
    assert path[0] == '/' && path[1] == 'l';
    assert LessonImagesPath[0] as int == '/' as int && LessonImagesPath[1] as int == 'l' as int;
    MissingPairNotContained(s, LessonImagesPath);
  }

  /** The placeholder mentions neither marker, so it is not passed through. */
  lemma PlaceholderIsNotPassthrough()
    ensures !IsPassthrough(Placeholder)
  {
    PlaceholderText();
    NotPassthroughWithout(Placeholder);
  }

  lemma PrefixPieces()
    ensures "https://images.weserv.nl/?url=" == "https://" + "images.weserv.nl" + "/?url="
    ensures IsBmp("https://") && IsBmp("images.weserv.nl") && IsBmp("/?url=")
  {
  }

  lemma PrefixIsBmp()
    ensures IsBmp("https://images.weserv.nl/?url=")
  {
    PrefixPieces();
    IsBmpAppend("https://", "images.weserv.nl");
    IsBmpAppend("https://" + "images.weserv.nl", "/?url=");
  }

  lemma PrefixNamesHost()
    ensures |ProxyUrlPrefix| == 30 && ProxyUrlPrefix[8..24] == ProxyHost
  {
    var prefix, host := "https://images.weserv.nl/?url=", "images.weserv.nl";
    PrefixIsBmp();
    FromStringBmp(prefix);
    FromStringBmp(host);
    PrefixPieces();
    assert |"https://"| == 8;
    assert ("https://" + host + "/?url=")[8..24] == host;
    forall i | 0 <= i < 16
      ensures ProxyUrlPrefix[8 + i] == ProxyHost[i]
    {
      assert prefix[8 + i] == host[i];
    }
  }

  const Ampersand: CodeUnit := '&' as CodeUnit

  lemma SuffixStartsWithAmpersand()
    ensures |ProxyUrlSuffix| == 11 && ProxyUrlSuffix[0] == Ampersand
  {
    var suffix := "&w=480&q=80";
    assert IsBmp(suffix) && suffix[0] == '&';
    FromStringBmp(suffix);
  }

  /* What the function promises */

  /** Every proxy URL names the proxy host. */
  lemma ProxyUrlNamesProxyHost(encoded: JsString)
    ensures Contains(ProxyUrl(encoded), ProxyHost)
  {
    PrefixNamesHost();
    var url := ProxyUrl(encoded);
    assert url[8..24] == ProxyUrlPrefix[8..24];
    assert OccursAt(url, ProxyHost, 8);
  }

  /**
   * A non-empty reference is a fixed point after one call, as long as that
   * call did not fall back to the placeholder: passed-through references
   * are passed through again, and a proxy URL names the proxy host.
   */
  lemma Idempotent(s: JsString)
    requires s != []
    requires IsPassthrough(s) || !HasLoneSurrogate(s)
    ensures OptimizeImage(StringValue(OptimizeImage(StringValue(s)))) == OptimizeImage(StringValue(s))
  {
    if !IsPassthrough(s) {
      UriComponent.EncodeFailsIffLoneSurrogate(s);
      ProxyUrlNamesProxyHost(UriComponent.Encode(s).value);
    }
  }

  /**
   * The placeholder is not a fixed point: it names neither marker, so a
   * second call wraps it in a proxy URL.
   */
  lemma PlaceholderIsRewritten()
    ensures OptimizeImage(StringValue(Placeholder)) != Placeholder
    ensures UriComponent.Encode(Placeholder).Some?
    ensures OptimizeImage(StringValue(Placeholder)) == ProxyUrl(UriComponent.Encode(Placeholder).value)
  {
    PlaceholderIsNotPassthrough();
    FromStringWellFormed("https://www.redbubble.com/frontend-static/error/artwork.jpg");
    UriComponent.EncodeFailsIffLoneSurrogate(Placeholder);
    ProxyUrlNamesProxyHost(UriComponent.Encode(Placeholder).value);
  }

  /**
   * For a String that is not passed through, the placeholder comes back
   * exactly when encodeURIComponent throws, that is, when the String holds
   * a lone surrogate.
   */
  lemma PlaceholderExactlyOnLoneSurrogate(s: JsString)
    requires s != [] && !IsPassthrough(s)
    ensures OptimizeImage(StringValue(s)) == Placeholder <==> HasLoneSurrogate(s)
  {
    UriComponent.EncodeFailsIffLoneSurrogate(s);
    if !HasLoneSurrogate(s) {
      ProxyUrlNamesProxyHost(UriComponent.Encode(s).value);
      PlaceholderIsNotPassthrough();
    }
  }

  /**
   * A String that names neither marker and holds no lone surrogate comes
   * back as the fixed template around its percent-encoding.
   */
  lemma RewriteTemplate(s: JsString)
    requires s != [] && !IsPassthrough(s) && !HasLoneSurrogate(s)
    ensures UriComponent.Encode(s).Some?
    ensures OptimizeImage(StringValue(s)) == ProxyUrlPrefix + UriComponent.Encode(s).value + ProxyUrlSuffix
  {
    UriComponent.EncodeFailsIffLoneSurrogate(s);
  }

  /**
   * The markers are found anywhere in the String, not only as its host or
   * path: text around a marker, even in a query string, does not matter.
   */
  lemma PassthroughIsUnanchored(before: JsString, marker: JsString, after: JsString)
    requires marker == ProxyHost || marker == LessonImagesPath
    ensures OptimizeImage(StringValue(before + marker + after)) == before + marker + after
  {
    ContainsInfix(before, marker, after);
  }

  /** The longest prefix of `s` without the code unit `u`. */
  function TakeUntil(s: JsString, u: CodeUnit): (r: JsString)
    ensures r <= s && u !in r
    ensures |r| < |s| ==> s[|r|] == u
  {
    if s == [] || s[0] == u then [] else [s[0]] + TakeUntil(s[1..], u)
  }

  lemma TakeUntilStops(a: JsString, b: JsString, u: CodeUnit)
    requires u !in a && b != [] && b[0] == u
    ensures TakeUntil(a + b, u) == a
  {
    assert (a + b)[..|a|] == a;
  }

  /**
   * How the proxy reads the reference back out of one of these URLs: the
   * value of the `url` query parameter, up to the next `&`, percent-decoded.
   */
  function ProxiedReference(url: JsString): Option<JsString>
  {
    if |url| >= |ProxyUrlPrefix| && url[..|ProxyUrlPrefix|] == ProxyUrlPrefix then
      UriComponent.Decode(TakeUntil(url[|ProxyUrlPrefix|..], Ampersand))
    else
      None
  }

  /** The proxy reads back exactly the encoded text, provided it holds no `&`. */
  lemma ProxyUrlReference(encoded: JsString)
    requires Ampersand !in encoded
    ensures ProxiedReference(ProxyUrl(encoded)) == UriComponent.Decode(encoded)
  {
    var url := ProxyUrl(encoded);
    assert url[..|ProxyUrlPrefix|] == ProxyUrlPrefix;
    assert url[|ProxyUrlPrefix|..] == encoded + ProxyUrlSuffix;
    SuffixStartsWithAmpersand();
    TakeUntilStops(encoded, ProxyUrlSuffix, Ampersand);
  }

  /**
   * A rewritten reference survives the trip to the proxy: the `url`
   * parameter of the proxy URL is a single query value (no `&`, `=`, `?`,
   * `#` or `/` in it) that decodes back to the original String.
   */
  lemma ProxyUrlCarriesReference(s: JsString)
    requires s != [] && !IsPassthrough(s) && !HasLoneSurrogate(s)
    ensures ProxiedReference(OptimizeImage(StringValue(s))) == Some(s)
  {
    UriComponent.EncodeFailsIffLoneSurrogate(s);
    var encoded := UriComponent.Encode(s).value;
    UriComponent.EncodedHasNoDelimiters(encoded);
    assert Ampersand !in encoded;
    ProxyUrlReference(encoded);
    UriComponent.DecodeEncode(s);
  }
}
