/** `_sanitizeURL`: every character outside the URL set is dropped, then `&` is escaped. */
module Sanitize {
  import opened Strings
  import opened Rewrite

  /** The first replace: characters outside the class are removed. */
  function DropUnsafe(url: string): string { ReplaceAll(UnsafeUrlChar, url) }

  function SanitizeUrl(url: string): string {
    ReplaceAll(Literal("&", "&amp;"), DropUnsafe(url))
  }

  /** The reference: the URL characters of `s`, in their order. */
  function UrlChars(s: string): (r: string)
    ensures |r| <= |s|
    ensures forall i :: 0 <= i < |r| ==> IsUrlChar(r[i])
  {
    if s == [] then [] else (if IsUrlChar(s[0]) then [s[0]] else []) + UrlChars(s[1..])
  }

  /** The first replace keeps exactly the URL characters, in order. */
  lemma {:induction false} DropUnsafeFrom(s: string, k: nat)
    requires k <= |s|
    ensures ReplaceFrom(UnsafeUrlChar, s, k) == UrlChars(s[k..])
    decreases |s| - k
  {
    if k < |s| {
      DropUnsafeFrom(s, k + 1);
      assert s[k..][1..] == s[k + 1..];
    }
  }

  lemma DropUnsafeIsFilter(url: string)
    ensures DropUnsafe(url) == UrlChars(url)
  {
    DropUnsafeFrom(url, 0);
    assert url[0..] == url;
  }

  /** Sanitizing is the filter followed by the character-wise escape of `&`. */
  lemma SanitizeIsEscapedFilter(url: string)
    ensures SanitizeUrl(url) == SubstChar(UrlChars(url), '&', "&amp;")
  {
    DropUnsafeIsFilter(url);
    var f := UrlChars(url);
    SingleCharReplace('&', "&amp;", f, 0);
    assert f[0..] == f;
  }

  /** A sanitized URL holds URL characters only. */
  lemma SanitizeOnlyUrlChars(url: string)
    ensures forall i :: 0 <= i < |SanitizeUrl(url)| ==> IsUrlChar(SanitizeUrl(url)[i])
  {
    SanitizeIsEscapedFilter(url);
    var f := UrlChars(url);
    var r := SanitizeUrl(url);
    forall i | 0 <= i < |r| ensures IsUrlChar(r[i]) {
      assert r[i] in r;
      if r[i] in f {
        var j :| 0 <= j < |f| && f[j] == r[i];
      }
    }
  }

  /** Decoding `&amp;` in a sanitized URL gives the filtered URL back. */
  lemma SanitizeRoundTrip(url: string)
    ensures ReplaceAll(Literal("&amp;", "&"), SanitizeUrl(url)) == UrlChars(url)
  {
    SanitizeIsEscapedFilter(url);
    DecodeAmpChars(UrlChars(url));
  }

  lemma {:induction false} UrlCharsKeeps(s: string)
    requires forall i :: 0 <= i < |s| ==> IsUrlChar(s[i])
    ensures UrlChars(s) == s
  {
    if s != [] {
      UrlCharsKeeps(s[1..]);
      assert s == [s[0]] + s[1..];
    }
  }

  /** A URL made of URL characters and without `&` comes out unchanged. */
  lemma SanitizeKeepsCleanUrl(url: string)
    requires forall i :: 0 <= i < |url| ==> IsUrlChar(url[i])
    requires '&' !in url
    ensures SanitizeUrl(url) == url
  {
    SanitizeIsEscapedFilter(url);
    UrlCharsKeeps(url);
  }
}
