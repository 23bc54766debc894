/** The clear engine behind `clearAllFormat`: an ordered chain of rewrites that strips
    markup tokens and image sentinel lines and decodes three entities. */
module Clear {
  import opened Wrappers
  import opened Strings
  import opened Rewrite
  import Toggle

  /** Step 1: every `<` or `</` followed by a markup name, up to the next `>`, is removed. */
  function StripMarkup(s: string): string { ReplaceAll(MarkupToken, s) }

  /** Step 2: every image sentinel line goes, with the white space around it: blank
      lines before it, and the white space after it up to the last line end there. */
  function DropSentinelLines(s: string): string { ReplaceAll(SentinelLine, s) }

  /** Step 3: `&nbsp;`, then `&lt;`, then `&gt;` are decoded. */
  function DecodeEntities(s: string): string {
    ReplaceAll(Literal("&gt;", ">"), ReplaceAll(Literal("&lt;", "<"), ReplaceAll(Literal("&nbsp;", " "), s)))
  }

  /** `cleanedText` for a target text. */
  function Clean(s: string): string { DecodeEntities(DropSentinelLines(StripMarkup(s))) }

  /** The result of clearing a non-empty selection: the cleaned selection spliced back in. */
  function CleanSplice(text: string, start: nat, end: nat): (r: Toggle.Spliced)
    requires start < end <= |text|
    ensures start <= r.selEnd <= end && r.selEnd <= |r.text|
    ensures r.text[..start] == text[..start]
    ensures r.text[start..r.selEnd] == Clean(text[start..end])
    ensures r.text[r.selEnd..] == text[end..]
  {
    var cleaned := Clean(text[start..end]);
    CleanNeverLonger(text[start..end]);
    var r := Toggle.Spliced(text[..start] + cleaned + text[end..], start + |cleaned|);
    assert r.text[..start] == text[..start];
    assert r.text[start..r.selEnd] == cleaned;
    r
  }

  lemma LiteralNeverLonger(pat: string, rep: string, s: string)
    requires |rep| <= |pat|
    ensures |ReplaceAll(Literal(pat, rep), s)| <= |s|
  {
    ReplaceNeverLonger(Literal(pat, rep), s, 0);
  }

  /** Clearing never lengthens the text: every step replaces a match by something shorter. */
  lemma CleanNeverLonger(s: string)
    ensures |Clean(s)| <= |s|
  {
    ReplaceNeverLonger(MarkupToken, s, 0);
    var s1 := StripMarkup(s);
    ReplaceNeverLonger(SentinelLine, s1, 0);
    var s2 := DropSentinelLines(s1);
    LiteralNeverLonger("&nbsp;", " ", s2);
    var s3 := ReplaceAll(Literal("&nbsp;", " "), s2);
    LiteralNeverLonger("&lt;", "<", s3);
    var s4 := ReplaceAll(Literal("&lt;", "<"), s3);
    LiteralNeverLonger("&gt;", ">", s4);
  }

  /** Without `<`, step 1 has nothing to remove. */
  lemma StripMarkupPlain(s: string)
    requires '<' !in s
    ensures StripMarkup(s) == s
  {
    forall p | 0 <= p < |s| ensures MatchAt(MarkupToken, s, p).None? {
      assert s[p] in s;
    }
    NoMatchIdentity(MarkupToken, s, 0);
  }

  /** A `<` that is not followed, after an optional `/`, by a markup name is not markup:
      step 1 keeps a text whose every `<` is of that kind. */
  lemma StripMarkupKeepsUnnamed(s: string)
    requires forall p :: 0 <= p < |s| && s[p] == '<' ==> !MarkupNameAt(s, NameStart(s, p))
    ensures StripMarkup(s) == s
  {
    NoMatchIdentity(MarkupToken, s, 0);
  }

  /** HTML tags other than the eight names survive step 1. */
  lemma StripKeepsHtmlExample()
    ensures StripMarkup("<p>x</p>") == "<p>x</p>"
  {
    var s := "<p>x</p>";
    forall p | 0 <= p < |s| && s[p] == '<' ensures !MarkupNameAt(s, NameStart(s, p)) {
      if MarkupNameAt(s, NameStart(s, p)) {
        NameLead(s, NameStart(s, p));
      }
    }
    StripMarkupKeepsUnnamed(s);
  }

  /** So does a `<` in running text. */
  lemma StripKeepsLessThanExample()
    ensures StripMarkup("a<3") == "a<3"
  {
    var s := "a<3";
    forall p | 0 <= p < |s| && s[p] == '<' ensures !MarkupNameAt(s, NameStart(s, p)) {
      if MarkupNameAt(s, NameStart(s, p)) {
        NameLead(s, NameStart(s, p));
      }
    }
    StripMarkupKeepsUnnamed(s);
  }

  /** Without `$`, step 2 has nothing to remove. */
  lemma DropSentinelPlain(s: string)
    requires '$' !in s
    ensures DropSentinelLines(s) == s
  {
    NoMatchIdentity(SentinelLine, s, 0);
  }

  /** A literal rule whose first character is absent changes nothing. */
  lemma LiteralAbsent(pat: string, rep: string, s: string)
    requires pat != [] && pat[0] !in s
    ensures ReplaceAll(Literal(pat, rep), s) == s
  {
    NoMatchIdentity(Literal(pat, rep), s, 0);
  }

  /** Text without `<`, `&` or `$` is left exactly as it is. */
  lemma CleanKeepsPlainText(s: string)
    requires '<' !in s && '&' !in s && '$' !in s
    ensures Clean(s) == s
  {
    StripMarkupPlain(s);
    DropSentinelPlain(s);
    LiteralAbsent("&nbsp;", " ", s);
    LiteralAbsent("&lt;", "<", s);
    LiteralAbsent("&gt;", ">", s);
  }

  lemma StripSizeExample(s: string)
    requires s == "<size=50%>x</size>"
    ensures StripMarkup(s) == "x"
  {
    OccursByChars(s, "size", 1);
    TokenAt(s, 0, 1, 9);
    OccursByChars(s, "size", 13);
    TokenAt(s, 11, 13, 17);
    assert MatchAt(MarkupToken, s, 10).None?;
    assert ReplaceFrom(MarkupToken, s, 18) == [];
    assert ReplaceFrom(MarkupToken, s, 11) == [];
    assert ReplaceFrom(MarkupToken, s, 10) == "x";
  }

  /** A token that starts at `p`, names a tag at `k` and closes at `g`. */
  lemma TokenAt(s: string, p: nat, k: nat, g: nat)
    requires p < k <= g < |s| && s[p] == '<' && s[g] == '>'
    requires k == NameStart(s, p)
    requires MarkupNameAt(s, k) && forall i :: k <= i < g ==> s[i] != '>'
    ensures MatchAt(MarkupToken, s, p) == Some(Match(g + 1, []))
  {
    assert Span(s, k, NotGt) == g;
  }

  /** A percent size pair is stripped down to its content. */
  lemma SizeMarkupExample()
    ensures Clean("<size=50%>x</size>") == "x"
  {
    StripSizeExample("<size=50%>x</size>");
    CleanKeepsPlainText("x");
  }

  lemma DecodeBracketsExample(s: string)
    requires s == "&lt;b&gt;"
    ensures DecodeEntities(s) == "<b>"
  {
    forall p | 0 <= p < |s| ensures MatchAt(Literal("&nbsp;", " "), s, p).None? {
      if p + 6 <= |s| { assert s[p] != '&' || s[p + 1] != 'n'; }
    }
    NoMatchIdentity(Literal("&nbsp;", " "), s, 0);
    DecodeLtExample(s);
    DecodeGtExample("<b&gt;");
  }

  lemma DecodeLtExample(s: string)
    requires s == "&lt;b&gt;"
    ensures ReplaceAll(Literal("&lt;", "<"), s) == "<b&gt;"
  {
    assert MatchAt(Literal("&lt;", "<"), s, 0) == Some(Match(4, "<")) by {
      assert s[0..4] == "&lt;";
    }
    forall p | 4 <= p < |s| ensures MatchAt(Literal("&lt;", "<"), s, p).None? {
      if p + 4 <= |s| { assert s[p] != '&' || s[p + 1] != 'l'; }
    }
    NoMatchIdentity(Literal("&lt;", "<"), s, 4);
  }

  lemma DecodeGtExample(t: string)
    requires t == "<b&gt;"
    ensures ReplaceAll(Literal("&gt;", ">"), t) == "<b>"
  {
    assert MatchAt(Literal("&gt;", ">"), t, 0).None? by { assert t[0..4][0] == '<'; }
    assert MatchAt(Literal("&gt;", ">"), t, 1).None? by { assert t[1..5][0] == 'b'; }
    assert MatchAt(Literal("&gt;", ">"), t, 2) == Some(Match(6, ">")) by {
      assert t[2..6] == "&gt;";
    }
    assert ReplaceFrom(Literal("&gt;", ">"), t, 6) == [];
    assert ReplaceFrom(Literal("&gt;", ">"), t, 2) == ">";
    assert ReplaceFrom(Literal("&gt;", ">"), t, 1) == "b>";
  }

  lemma StripBoldExample(s: string)
    requires s == "<b>"
    ensures StripMarkup(s) == []
  {
    TokenAt(s, 0, 1, 2);
    assert ReplaceFrom(MarkupToken, s, 3) == [];
  }

  /** Clearing is not idempotent: decoded brackets form a tag that a second clear removes. */
  lemma CleanNotIdempotent()
    ensures Clean("&lt;b&gt;") == "<b>"
    ensures Clean("<b>") == []
  {
    StripMarkupPlain("&lt;b&gt;");
    DropSentinelPlain("&lt;b&gt;");
    DecodeBracketsExample("&lt;b&gt;");
    StripBoldExample("<b>");
    DropSentinelPlain([]);
    LiteralNeverLonger("&nbsp;", " ", []);
    LiteralNeverLonger("&lt;", "<", []);
    LiteralNeverLonger("&gt;", ">", []);
  }

  /** A sentinel line between two lines is blanked: its text goes, its line feed stays. */
  lemma DropSentinelBlanksLine(s: string)
    requires s == "a\n$img:u\nb"
    ensures DropSentinelLines(s) == "a\n\nb"
  {
    SpanIs(s, 0, IsSpace, 0);
    assert MatchAt(SentinelLine, s, 0).None?;
    assert MatchAt(SentinelLine, s, 1).None?;
    SpanIs(s, 2, IsSpace, 2);
    OccursByChars(s, "$img:", 2);
    SpanIs(s, 7, NotNewline, 8);
    SpanIs(s, 8, IsSpace, 9);
    assert LastLineEnd(s, 8, 9) == 8;
    assert MatchAt(SentinelLine, s, 2) == Some(Match(8, []));
    assert MatchAt(SentinelLine, s, 8).None?;
    SpanIs(s, 9, IsSpace, 9);
    assert MatchAt(SentinelLine, s, 9).None?;
    assert ReplaceFrom(SentinelLine, s, 10) == [];
    assert ReplaceFrom(SentinelLine, s, 9) == "b";
    assert ReplaceFrom(SentinelLine, s, 8) == "\nb";
    assert ReplaceFrom(SentinelLine, s, 1) == "\n\nb";
  }

  /** Blank lines after a sentinel go with it, up to the last line end: here the
      sentinel's own line feed goes too, and the text loses a line. */
  lemma DropSentinelTakesBlankLines(s: string)
    requires s == "$img:u\n\nb"
    ensures DropSentinelLines(s) == "\nb"
  {
    SpanIs(s, 0, IsSpace, 0);
    OccursByChars(s, "$img:", 0);
    SpanIs(s, 5, NotNewline, 6);
    SpanIs(s, 6, IsSpace, 8);
    assert LastLineEnd(s, 6, 8) == 7;
    assert MatchAt(SentinelLine, s, 0) == Some(Match(7, []));
    SpanIs(s, 7, IsSpace, 8);
    assert MatchAt(SentinelLine, s, 7).None?;
    SpanIs(s, 8, IsSpace, 8);
    assert MatchAt(SentinelLine, s, 8).None?;
    assert ReplaceFrom(SentinelLine, s, 9) == [];
    assert ReplaceFrom(SentinelLine, s, 8) == "b";
    assert ReplaceFrom(SentinelLine, s, 7) == "\nb";
  }

  /** The leading white space of the pattern reaches back over line feeds: the line feed
      before a final sentinel line goes with it. */
  lemma DropSentinelTakesLineBefore(s: string)
    requires s == "\n$img:u"
    ensures DropSentinelLines(s) == ""
  {
    SpanIs(s, 0, IsSpace, 1);
    OccursByChars(s, "$img:", 1);
    SpanIs(s, 6, NotNewline, 7);
    SpanIs(s, 7, IsSpace, 7);
    assert LastLineEnd(s, 7, 7) == 7;
    assert MatchAt(SentinelLine, s, 0) == Some(Match(7, []));
    assert ReplaceFrom(SentinelLine, s, 7) == [];
  }

  /** Clearing a text that holds an inserted image leaves the blank line in its place. */
  lemma ClearImageExample(s: string)
    requires s == "$img:http://x.com/a.png\npic"
    ensures Clean(s) == "\npic"
  {
    assert '<' !in "$img:http://x.com/" && '<' !in "$img:http://x.com/a.png\npic";
    StripMarkupPlain(s);
    ImageLineMatch(s);
    forall p | 23 <= p < |s| ensures MatchAt(SentinelLine, s, p).None? {
      if p == 23 {
        assert !AtLineStart(s, 23);
      }
    }
    NoMatchIdentity(SentinelLine, s, 23);
    assert s[23..] == "\npic";
    assert DropSentinelLines(s) == "\npic";
    LiteralAbsent("&nbsp;", " ", "\npic");
    LiteralAbsent("&lt;", "<", "\npic");
    LiteralAbsent("&gt;", ">", "\npic");
  }

  /** The image line is one sentinel match, which stops before its line feed. */
  lemma ImageLineMatch(s: string)
    requires s == "$img:http://x.com/a.png\npic"
    ensures MatchAt(SentinelLine, s, 0) == Some(Match(23, []))
  {
    SpanIs(s, 0, IsSpace, 0);
    OccursByChars(s, "$img:", 0);
    SpanIs(s, 5, NotNewline, 23);
    SpanIs(s, 23, IsSpace, 24);
    assert LastLineEnd(s, 23, 24) == 23;
  }
}
