/**
 * Sample calls of optimizeImage, one for each branch, worked through the model.
 */
module ImageOptimizerExamples {
  import opened Options
  import opened Utf16
  import opened Literals
  import UriComponent
  import opened ImageOptimizer
  import Percent
  import Utf8

  /** `null`, `42` and `""` all give the placeholder. */
  lemma MissingReferences()
    ensures OptimizeImage(NonString) == Placeholder
    ensures OptimizeImage(StringValue(FromString(""))) == Placeholder
  {
  }

  lemma LocalImagePieces()
    ensures FromString("/lesson-images/foo.png") == LessonImagesPath + FromString("/foo.png")
  {
    assert "/lesson-images/foo.png" == "/lesson-images" + "/foo.png";
    assert IsBmp("/lesson-images") && IsBmp("/foo.png");
    FromStringAppendBmp("/lesson-images", "/foo.png");
  }

  /** A local lesson image is returned as it is. */
  lemma LocalImagePassesThrough()
    ensures OptimizeImage(StringValue(FromString("/lesson-images/foo.png")))
         == FromString("/lesson-images/foo.png")
  {
    LocalImagePieces();
    var empty: JsString := [];
    var tail := FromString("/foo.png");
    assert empty + LessonImagesPath + tail == LessonImagesPath + tail;
    PassthroughIsUnanchored(empty, LessonImagesPath, tail);
  }

  /** An already proxied URL is returned as it is. */
  lemma ProxiedImagePassesThrough()
    ensures OptimizeImage(StringValue(FromString("https://images.weserv.nl/?url=x")))
         == FromString("https://images.weserv.nl/?url=x")
  {
    ProxiedImagePieces();
    PassthroughIsUnanchored(FromString("https://"), ProxyHost, FromString("/?url=x"));
  }

  lemma ProxiedImagePieces()
    ensures FromString("https://images.weserv.nl/?url=x")
         == FromString("https://") + ProxyHost + FromString("/?url=x")
  {
    assert "https://images.weserv.nl/?url=x" == "https://" + "images.weserv.nl" + "/?url=x";
    assert IsBmp("https://") && IsBmp("images.weserv.nl") && IsBmp("/?url=x");
    FromStringAppendBmp("https://", "images.weserv.nl");
    FromStringAppendBmp("https://" + "images.weserv.nl", "/?url=x");
  }

  /* The rewriting example, "https://example.com/a.jpg", piece by piece */

  /** A literal of unescaped characters encodes to itself. */
  lemma UnescapedLiteral(s: string)
    requires forall i | 0 <= i < |s| :: s[i] as int < 0x1_0000 && UriComponent.IsUnescaped(s[i] as int as CodeUnit)
    ensures IsBmp(s)
    ensures UriComponent.Encode(FromString(s)) == Some(FromString(s))
  {
    FromStringBmp(s);
    UriComponent.EncodeUnescapedIsIdentity(FromString(s));
  }

  /** An ASCII code unit outside the unescaped set becomes one triplet. */
  lemma AsciiEscape(u: CodeUnit)
    requires u < 0x80 && !UriComponent.IsUnescaped(u)
    ensures UriComponent.Encode([u]) == Some(Percent.EscapeOctet(u as int as Utf8.Byte))
  {
    var s := [u];
    assert CodePointAt(s, 0) == CodePointRecord(u as int, 1, false);
    assert Utf8.Encode(u as int) == [u as int as Utf8.Byte];
    assert s[1..] == [];
    assert Percent.EscapeOctets([u as int as Utf8.Byte]) == Percent.EscapeOctet(u as int as Utf8.Byte) + [];
    assert UriComponent.Encode(s[1..]) == Some([]);
    assert UriComponent.Encode(s) == Prepend(Percent.EscapeOctets([u as int as Utf8.Byte]), Some([]));
    var e := Percent.EscapeOctet(u as int as Utf8.Byte);
    assert e + [] + [] == e;
  }

  lemma ColonIsEscaped()
    ensures UriComponent.Encode(FromString(":")) == Some(FromString("%3A"))
  {
    AsciiEscape(0x3A);
    FromStringBmp(":");
    FromStringBmp("%3A");
    assert FromString(":") == [0x3A];
    assert FromString("%3A") == [0x25, 0x33, 0x41];
  }

  lemma SlashIsEscaped()
    ensures UriComponent.Encode(FromString("/")) == Some(FromString("%2F"))
  {
    AsciiEscape(0x2F);
    FromStringBmp("/");
    FromStringBmp("%2F");
    assert FromString("/") == [0x2F];
    assert FromString("%2F") == [0x25, 0x32, 0x46];
  }

  /** Encoding two literals one after the other encodes their concatenation. */
  lemma EncodeLiterals(a: string, b: string, ea: string, eb: string)
    requires IsBmp(a) && IsBmp(b) && IsBmp(ea) && IsBmp(eb)
    requires UriComponent.Encode(FromString(a)) == Some(FromString(ea))
    requires UriComponent.Encode(FromString(b)) == Some(FromString(eb))
    ensures IsBmp(a + b) && IsBmp(ea + eb)
    ensures UriComponent.Encode(FromString(a + b)) == Some(FromString(ea + eb))
  {
    var x, y := FromString(a), FromString(b);
    FromStringAppendBmp(a, b);
    FromStringAppendBmp(ea, eb);
    UriComponent.EncodeAppend(x, y);
    assert UriComponent.Encode(x + y) == Some(FromString(ea) + FromString(eb));
  }

  lemma RemoteUrlPieces()
    ensures "https://example.com/a.jpg" == "https" + ":" + "/" + "/" + "example.com" + "/" + "a.jpg"
  {
  }

  lemma EncodedUrlPieces()
    ensures "https%3A%2F%2Fexample.com%2Fa.jpg" == "https" + "%3A" + "%2F" + "%2F" + "example.com" + "%2F" + "a.jpg"
  {
  }

  lemma EscapePiecesAreBmp()
    ensures IsBmp(":") && IsBmp("/") && IsBmp("%3A") && IsBmp("%2F")
  {
  }

  lemma SchemeIsUnescaped()
    ensures IsBmp("https") && UriComponent.Encode(FromString("https")) == Some(FromString("https"))
  {
    UnescapedLiteral("https");
  }

  lemma DomainIsUnescaped()
    ensures IsBmp("example.com") && UriComponent.Encode(FromString("example.com")) == Some(FromString("example.com"))
  {
    UnescapedLiteral("example.com");
  }

  lemma FileNameIsUnescaped()
    ensures IsBmp("a.jpg") && UriComponent.Encode(FromString("a.jpg")) == Some(FromString("a.jpg"))
  {
    UnescapedLiteral("a.jpg");
  }

  /** The remote URL of the rewriting example, percent-encoded. */
  lemma RemoteUrlEncoded()
    ensures IsBmp("https%3A%2F%2Fexample.com%2Fa.jpg")
    ensures UriComponent.Encode(FromString("https://example.com/a.jpg"))
         == Some(FromString("https%3A%2F%2Fexample.com%2Fa.jpg"))
  {
    RemoteUrlPieces();
    EncodedUrlPieces();
    EscapePiecesAreBmp();
    SchemeIsUnescaped();
    DomainIsUnescaped();
    FileNameIsUnescaped();
    ColonIsEscaped();
    SlashIsEscaped();
    var a1, e1 := "https" + ":", "https" + "%3A";
    EncodeLiterals("https", ":", "https", "%3A");
    var a2, e2 := a1 + "/", e1 + "%2F";
    EncodeLiterals(a1, "/", e1, "%2F");
    var a3, e3 := a2 + "/", e2 + "%2F";
    EncodeLiterals(a2, "/", e2, "%2F");
    var a4, e4 := a3 + "example.com", e3 + "example.com";
    EncodeLiterals(a3, "example.com", e3, "example.com");
    var a5, e5 := a4 + "/", e4 + "%2F";
    EncodeLiterals(a4, "/", e4, "%2F");
    EncodeLiterals(a5, "a.jpg", e5, "a.jpg");
  }

  lemma RemoteUrlText()
    ensures var t := "https://example.com/a.jpg"; IsBmp(t) && Lacks(t, 'v') && LacksPair(t, '/', 'l')
  {
  }

  lemma SuffixIsBmp()
    ensures IsBmp("&w=480&q=80")
  {
  }

  lemma RemoteUrlIsNotPassthrough()
    ensures !IsPassthrough(FromString("https://example.com/a.jpg"))
  {
    var url := "https://example.com/a.jpg";
    RemoteUrlText();
    LacksUnit(url, 'v');
    LacksUnitPair(url, '/', 'l');
    NotPassthroughWithout(FromString(url));
  }

  /** The proxy URL for an encoded literal, as one literal. */
  lemma ProxyUrlOfLiteral(encoded: string)
    requires IsBmp(encoded)
    ensures ProxyUrl(FromString(encoded)) == FromString("https://images.weserv.nl/?url=" + encoded + "&w=480&q=80")
  {
    var prefix, suffix := "https://images.weserv.nl/?url=", "&w=480&q=80";
    PrefixIsBmp();
    SuffixIsBmp();
    FromStringAppendBmp(prefix, encoded);
    FromStringAppendBmp(prefix + encoded, suffix);
  }

  /** A remote URL is percent-encoded into a proxy URL. */
  lemma RemoteUrlIsRewritten()
    ensures OptimizeImage(StringValue(FromString("https://example.com/a.jpg")))
         == FromString("https://images.weserv.nl/?url=" + "https%3A%2F%2Fexample.com%2Fa.jpg" + "&w=480&q=80")
  {
    var input := FromString("https://example.com/a.jpg");
    RemoteUrlIsNotPassthrough();
    RemoteUrlEncoded();
    ProxyUrlOfLiteral("https%3A%2F%2Fexample.com%2Fa.jpg");
    assert input != [];
  }
}
