/** The render pipeline behind `updateOutput`: image sentinel lines become `<img>`
    elements, then an ordered chain of global rewrites turns the markup into HTML. */
module Output {
  import opened Wrappers
  import opened Strings
  import opened Rewrite
  import Tags

  // ---------------------------------------------------------------------------
  // Image lines

  /** The partial escaping of an image source: `&` first, then `<`. */
  function EscapeSrc(u: string): string {
    ReplaceAll(Literal("<", "&lt;"), ReplaceAll(Literal("&", "&amp;"), u))
  }

  /** The escape of one character, the reference for `EscapeSrc`. */
  function EscapeChar(c: char): string {
    if c == '&' then "&amp;" else if c == '<' then "&lt;" else [c]
  }

  function EscapeChars(u: string): string {
    if u == [] then [] else EscapeChar(u[0]) + EscapeChars(u[1..])
  }

  /** Decoding `&lt;` and then `&amp;`: what a reader of the `src` attribute undoes. */
  function UnescapeSrc(x: string): string {
    ReplaceAll(Literal("&amp;", "&"), ReplaceAll(Literal("&lt;", "<"), x))
  }

  /** A line whose trimmed form starts with the image sentinel. */
  predicate IsSentinelLine(line: string) { StartsWith(Trim(line), "$img:") }

  function ImageElement(src: string): string {
    "<img src=\"" + src + "\" style=\"max-width:100%;height:auto;display:block\">"
  }

  /** The source is cut at index 5 of the line as it stands, leading white space included,
      and only then trimmed. */
  function RenderLine(line: string): string {
    if IsSentinelLine(line) then ImageElement(EscapeSrc(Trim(SubstringFrom(line, 5)))) else line
  }

  function RenderLines(lines: seq<string>): (r: seq<string>)
    ensures |r| == |lines|
    ensures forall i :: 0 <= i < |lines| ==> r[i] == RenderLine(lines[i])
  {
    if lines == [] then [] else [RenderLine(lines[0])] + RenderLines(lines[1..])
  }

  /** `split('\n').map(...).join('\n')`. */
  function RenderImages(text: string): string {
    Join(RenderLines(Split(text, '\n')), '\n')
  }

  // ---------------------------------------------------------------------------
  // The rewrite chain

  /** The global rewrites after the image step, in the order they are applied: links,
      line breaks, then the decorations. */
  function Stages(percentPx: string -> string): seq<Rule> {
    [LinkPair, LineBreak] + Decorations(percentPx)
  }

  /** Double spaces, bold, italic, size and colour. */
  function Decorations(percentPx: string -> string): seq<Rule> {
    [ Literal("  ", "&nbsp;&nbsp;"),
      Literal("<b>", "<strong>"), Literal("</b>", "</strong>"),
      Literal("<i>", "<em>"), Literal("</i>", "</em>"),
      SizeOpen(percentPx), Literal("</size>", "</span>"),
      ColorOpen, Literal("</color>", "</span>") ]
  }

  /** Each rule of `rules` applied globally to the result of the one before. */
  function ApplyAll(rules: seq<Rule>, s: string): string
    decreases |rules|
  {
    if rules == [] then s else ApplyAll(rules[1..], ReplaceAll(rules[0], s))
  }

  /** The HTML the preview shows for `text`. */
  function Render(text: string, percentPx: string -> string): string {
    ApplyAll(Stages(percentPx), RenderImages(text))
  }

  // ---------------------------------------------------------------------------
  // Escaping the image source

  lemma {:induction false} SubstAmpThenLt(u: string)
    ensures SubstChar(SubstChar(u, '&', "&amp;"), '<', "&lt;") == EscapeChars(u)
  {
    if u != [] {
      var head := if u[0] == '&' then "&amp;" else [u[0]];
      assert SubstChar(u, '&', "&amp;") == head + SubstChar(u[1..], '&', "&amp;");
      SubstCharAppend(head, SubstChar(u[1..], '&', "&amp;"), '<', "&lt;");
      assert SubstChar(head, '<', "&lt;") == EscapeChar(u[0]) by {
        if u[0] != '&' {
          assert head[1..] == [];
        }
      }
      SubstAmpThenLt(u[1..]);
    }
  }

  /** The two global replaces escape the source character by character. */
  lemma EscapeSrcIsCharwise(u: string)
    ensures EscapeSrc(u) == EscapeChars(u)
  {
    SingleCharReplace('&', "&amp;", u, 0);
    assert u[0..] == u;
    var v := SubstChar(u, '&', "&amp;");
    SingleCharReplace('<', "&lt;", v, 0);
    assert v[0..] == v;
    SubstAmpThenLt(u);
  }

  /** An escaped source holds no `<`, and is the source itself when it holds neither
      `&` nor `<`. */
  lemma EscapeSrcNoLt(u: string)
    ensures '<' !in EscapeSrc(u)
    ensures '&' !in u && '<' !in u ==> EscapeSrc(u) == u
  {
    SingleCharReplace('&', "&amp;", u, 0);
    assert u[0..] == u;
    var v := SubstChar(u, '&', "&amp;");
    SingleCharReplace('<', "&lt;", v, 0);
    assert v[0..] == v;
  }

  lemma {:induction false} DecodeLtChars(u: string)
    ensures ReplaceAll(Literal("&lt;", "<"), EscapeChars(u)) == SubstChar(u, '&', "&amp;")
  {
    if u != [] {
      var a, b := EscapeChar(u[0]), EscapeChars(u[1..]);
      assert EscapeChars(u) == a + b;
      if u[0] == '<' {
        ChunkMatch("&lt;", "<", b);
      } else {
        forall i | 0 <= i < |a| ensures !OccursAt(a + b, "&lt;", i) {
          if i + 4 <= |a + b| {
            if i == 0 && u[0] == '&' {
              assert (a + b)[1] == 'a';
              MissByChar(a + b, "&lt;", 0, 1);
            } else {
              assert (a + b)[i] == a[i] != '&';
              MissByChar(a + b, "&lt;", i, 0);
            }
          }
        }
        ChunkCopy("&lt;", "<", a, b, 0);
        assert a[0..] == a;
      }
      DecodeLtChars(u[1..]);
    }
  }

  /** Decoding the escaped source gives the source back. */
  lemma UnescapeEscapeSrc(u: string)
    ensures UnescapeSrc(EscapeSrc(u)) == u
  {
    EscapeSrcIsCharwise(u);
    DecodeLtChars(u);
    DecodeAmpChars(u);
  }

  // ---------------------------------------------------------------------------
  // The image step

  /** A sentinel line holds a `$`. */
  lemma SentinelHasDollar(line: string)
    requires IsSentinelLine(line)
    ensures '$' in line
  {
    var t := TrimStart(line);
    assert Trim(line)[0] == '$';
    assert t[0] == Trim(line)[0];
    assert line[|line| - |t|] == t[0];
  }

  /** A line that is not a sentinel line is kept as it is. */
  lemma RenderLinePlain(line: string)
    requires !IsSentinelLine(line)
    ensures RenderLine(line) == line
  {
  }

  lemma SubstringFromIn(line: string, from: nat, c: char)
    requires c !in line
    ensures c !in Trim(SubstringFrom(line, from))
  {
    var t := SubstringFrom(line, from);
    assert forall x :: x in t ==> x in line;
    var u := TrimStart(t);
    assert forall x :: x in u ==> x in t;
    assert forall x :: x in TrimEnd(u) ==> x in u;
  }

  /** An image element is a single line. */
  lemma RenderLineOneLine(line: string)
    requires '\n' !in line
    ensures '\n' !in RenderLine(line)
  {
    if IsSentinelLine(line) {
      var src := Trim(SubstringFrom(line, 5));
      SubstringFromIn(line, 5, '\n');
      EscapeSrcOneLine(src);
      ImageElementOneLine(EscapeSrc(src));
    }
  }

  lemma EscapeSrcOneLine(u: string)
    requires '\n' !in u
    ensures '\n' !in EscapeSrc(u)
  {
    EscapeSrcIsCharwise(u);
    EscapeCharsAvoids(u, '\n');
  }

  lemma ImageElementOneLine(src: string)
    requires '\n' !in src
    ensures '\n' !in ImageElement(src)
  {
    assert '\n' !in "<img src=\"";
    assert '\n' !in "\" style=\"max-width:";
    assert '\n' !in "\" style=\"max-width:100%;height:";
    assert '\n' !in "\" style=\"max-width:100%;height:auto;display:";
    assert '\n' !in "\" style=\"max-width:100%;height:auto;display:block\">";
  }

  lemma {:induction false} EscapeCharsAvoids(u: string, c: char)
    requires c !in u && c !in "&amp;lt"
    ensures c !in EscapeChars(u)
  {
    if u != [] {
      assert u[0] in u;
      EscapeCharsAvoids(u[1..], c);
    }
  }

  /** The image step rewrites line by line and keeps the line structure: its result
      split at line feeds is the rendered lines of the input. */
  lemma RenderImagesLines(text: string)
    ensures Split(RenderImages(text), '\n') == RenderLines(Split(text, '\n'))
  {
    var lines := Split(text, '\n');
    var out := RenderLines(lines);
    forall i | 0 <= i < |out| ensures '\n' !in out[i] {
      RenderLineOneLine(lines[i]);
    }
    SplitJoin(out, '\n');
  }

  /** A text with no sentinel line goes through the image step unchanged. */
  lemma RenderImagesPlain(text: string)
    requires forall i :: 0 <= i < |Split(text, '\n')| ==> !IsSentinelLine(Split(text, '\n')[i])
    ensures RenderImages(text) == text
  {
    var lines := Split(text, '\n');
    forall i | 0 <= i < |lines| ensures RenderLines(lines)[i] == lines[i] {
      RenderLinePlain(lines[i]);
    }
    assert RenderLines(lines) == lines;
    JoinSplit(text, '\n');
  }

  /** A text without `$` has no sentinel line. */
  lemma RenderImagesNoDollar(text: string)
    requires '$' !in text
    ensures RenderImages(text) == text
  {
    var lines := Split(text, '\n');
    SplitPartsIn(text, '\n', '$');
    forall i | 0 <= i < |lines| ensures !IsSentinelLine(lines[i]) {
      if IsSentinelLine(lines[i]) {
        SentinelHasDollar(lines[i]);
      }
    }
    RenderImagesPlain(text);
  }

  /** As written, an indented sentinel line loses the start of its URL: on a line indented
      by one space the cut at index 5 falls on the colon of the sentinel, which stays in
      the image source. */
  lemma IndentedSentinelKeepsColon(url: string)
    requires url != [] && !IsSpace(url[|url| - 1])
    ensures RenderLine(" $img:" + url) == ImageElement(EscapeSrc(":" + url))
  {
    IndentedCut(url);
    SentinelRendered(" $img:" + url);
  }

  lemma SentinelRendered(line: string)
    requires IsSentinelLine(line)
    ensures RenderLine(line) == ImageElement(EscapeSrc(Trim(SubstringFrom(line, 5))))
  {
  }

  /** The line is a sentinel line, and its source is the colon and the URL. */
  lemma IndentedCut(url: string)
    requires url != [] && !IsSpace(url[|url| - 1])
    ensures IsSentinelLine(" $img:" + url)
    ensures Trim(SubstringFrom(" $img:" + url, 5)) == ":" + url
  {
    IndentedIsSentinel(url);
    IndentedSource(url);
  }

  lemma IndentedIsSentinel(url: string)
    requires url != [] && !IsSpace(url[|url| - 1])
    ensures IsSentinelLine(" $img:" + url)
  {
    var t := "$img:" + url;
    assert " $img:" + url == " " + t;
    TrimUnpadded(" ", t);
    assert t[..5] == "$img:";
  }

  lemma IndentedSource(url: string)
    requires url != [] && !IsSpace(url[|url| - 1])
    ensures Trim(SubstringFrom(" $img:" + url, 5)) == ":" + url
  {
    var c := ":" + url;
    assert (" $img:" + url)[5..] == c;
    assert [] + c == c;
    TrimUnpadded([], c);
  }

  /** Trimming removes a run of leading white space from a text that starts and ends
      with other characters. */
  lemma {:induction false} TrimUnpadded(pad: string, t: string)
    requires forall i :: 0 <= i < |pad| ==> IsSpace(pad[i])
    requires t != [] && !IsSpace(t[0]) && !IsSpace(t[|t| - 1])
    ensures Trim(pad + t) == t
    decreases |pad|
  {
    if pad == [] {
      assert pad + t == t;
    } else {
      assert (pad + t)[1..] == pad[1..] + t;
      TrimUnpadded(pad[1..], t);
    }
  }

  // ---------------------------------------------------------------------------
  // The rewrite chain

  /** After the line-break step no line feed is left. */
  lemma LineBreakRemovesNewlines(s: string)
    ensures '\n' !in ReplaceAll(LineBreak, s)
  {
    ReplaceAvoids(LineBreak, s, 0, '\n');
  }

  /** A rule that does not put a line feed into its replacements. */
  ghost predicate AddsNoNewline(rule: Rule) {
    match rule
    case Literal(_, rep) => '\n' !in rep
    case SizeOpen(percentPx) => forall v :: '\n' !in percentPx(v)
    case _ => true
  }

  lemma {:induction false} NoNewlineIntroduced(rule: Rule, s: string)
    requires '\n' !in s && AddsNoNewline(rule)
    ensures '\n' !in ReplaceAll(rule, s)
  {
    forall p | 0 <= p < |s| ensures AvoidsAt(rule, s, p, '\n') {
      assert s[p] in s;
      match MatchAt(rule, s, p)
      case None =>
      case Some(m) => RepAvoidsNewline(rule, s, p);
    }
    ReplaceAvoids(rule, s, 0, '\n');
  }

  lemma SliceIn(s: string, i: nat, j: nat, c: char)
    requires i <= j <= |s| && c !in s
    ensures c !in s[i..j]
  {
  }

  lemma RepAvoidsNewline(rule: Rule, s: string, p: nat)
    requires p < |s| && '\n' !in s && AddsNoNewline(rule) && MatchAt(rule, s, p).Some?
    ensures '\n' !in MatchAt(rule, s, p).value.rep
  {
    match rule
    case LinkPair => LinkRepAvoidsNewline(s, p);
    case SizeOpen(percentPx) => SizeRepAvoidsNewline(s, p, percentPx);
    case ColorOpen => ColorRepAvoidsNewline(s, p);
    case _ =>
  }

  lemma LinkRepAvoidsNewline(s: string, p: nat)
    requires p < |s| && '\n' !in s && LinkPairAt(s, p).Some?
    ensures '\n' !in LinkPairAt(s, p).value.rep
  {
    var u := p + 6;
    var g := Span(s, u, NotGt);
    var h := Span(s, g + 1, NotLt);
    SliceIn(s, u, g, '\n');
    SliceIn(s, g + 1, h, '\n');
    AnchorOneLine(s[u..g], s[g + 1..h]);
  }

  lemma AnchorOneLine(url: string, text: string)
    requires '\n' !in url && '\n' !in text
    ensures '\n' !in Anchor(url, text)
  {
    assert '\n' !in "\" target=\"";
    assert '\n' !in "\" target=\"_blank\" style=";
    assert '\n' !in "\" target=\"_blank\" style=\"text-decoration:";
    assert '\n' !in "\" target=\"_blank\" style=\"text-decoration:underline\">";
  }

  lemma SizeRepAvoidsNewline(s: string, p: nat, percentPx: string -> string)
    requires p < |s| && '\n' !in s && SizeOpenAt(s, p, percentPx).Some?
    requires forall v :: '\n' !in percentPx(v)
    ensures '\n' !in SizeOpenAt(s, p, percentPx).value.rep
  {
    var q := p + 6;
    var r := Span(s, q, IsDigitOrDot);
    SliceIn(s, q, r, '\n');
    assert '\n' !in "<span style=\"";
    assert '\n' !in "font-size:";
  }

  lemma ColorRepAvoidsNewline(s: string, p: nat)
    requires p < |s| && '\n' !in s && ColorOpenAt(s, p).Some?
    ensures '\n' !in ColorOpenAt(s, p).value.rep
  {
    var q := p + 7;
    if q + 7 < |s| {
      SliceIn(s, q, q + 7, '\n');
    }
    var r := Span(s, q, IsAsciiLetter);
    SliceIn(s, q, r, '\n');
    assert '\n' !in "<span style=\"";
  }

  lemma {:induction false} ApplyAllNoNewline(rules: seq<Rule>, s: string)
    requires '\n' !in s
    requires forall i :: 0 <= i < |rules| ==> AddsNoNewline(rules[i])
    ensures '\n' !in ApplyAll(rules, s)
    decreases |rules|
  {
    if rules != [] {
      NoNewlineIntroduced(rules[0], s);
      ApplyAllNoNewline(rules[1..], ReplaceAll(rules[0], s));
    }
  }

  /** Every line feed of the text ends up as `<br>`: the preview holds none, provided the
      percent formatting prints none. */
  lemma RenderHasNoNewline(text: string, percentPx: string -> string)
    requires forall v :: '\n' !in percentPx(v)
    ensures '\n' !in Render(text, percentPx)
  {
    var s1 := ReplaceAll(LinkPair, RenderImages(text));
    var s2 := ReplaceAll(LineBreak, s1);
    ApplyAllTwo(LinkPair, LineBreak, Decorations(percentPx), RenderImages(text));
    LineBreakRemovesNewlines(s1);
    DecorationsAddNoNewline(percentPx);
    ApplyAllNoNewline(Decorations(percentPx), s2);
  }

  lemma ApplyAllTwo(a: Rule, b: Rule, rest: seq<Rule>, s: string)
    ensures ApplyAll([a, b] + rest, s) == ApplyAll(rest, ReplaceAll(b, ReplaceAll(a, s)))
  {
    assert ([a, b] + rest)[1..] == [b] + rest;
    assert ([b] + rest)[1..] == rest;
  }

  lemma DecorationsAddNoNewline(percentPx: string -> string)
    requires forall v :: '\n' !in percentPx(v)
    ensures forall i :: 0 <= i < |Decorations(percentPx)| ==> AddsNoNewline(Decorations(percentPx)[i])
  {
  }

  /** The preview is the image step followed by the eleven global replaces, in the order
      the chain applies them. */
  lemma RenderChain(text: string, percentPx: string -> string)
    ensures Render(text, percentPx) ==
      var s0 := RenderImages(text);
      var s1 := ReplaceAll(LineBreak, ReplaceAll(LinkPair, s0));
      var s2 := ReplaceAll(Literal("</b>", "</strong>"), ReplaceAll(Literal("<b>", "<strong>"),
                  ReplaceAll(Literal("  ", "&nbsp;&nbsp;"), s1)));
      var s3 := ReplaceAll(Literal("</i>", "</em>"), ReplaceAll(Literal("<i>", "<em>"), s2));
      var s4 := ReplaceAll(Literal("</size>", "</span>"), ReplaceAll(SizeOpen(percentPx), s3));
      ReplaceAll(Literal("</color>", "</span>"), ReplaceAll(ColorOpen, s4))
  {
    var s0 := RenderImages(text);
    ApplyAllTwo(LinkPair, LineBreak, Decorations(percentPx), s0);
    DecorationsChain(percentPx, ReplaceAll(LineBreak, ReplaceAll(LinkPair, s0)));
  }

  lemma DecorationsChain(percentPx: string -> string, s1: string)
    ensures ApplyAll(Decorations(percentPx), s1) ==
      var s2 := ReplaceAll(Literal("</b>", "</strong>"), ReplaceAll(Literal("<b>", "<strong>"),
                  ReplaceAll(Literal("  ", "&nbsp;&nbsp;"), s1)));
      var s3 := ReplaceAll(Literal("</i>", "</em>"), ReplaceAll(Literal("<i>", "<em>"), s2));
      var s4 := ReplaceAll(Literal("</size>", "</span>"), ReplaceAll(SizeOpen(percentPx), s3));
      ReplaceAll(Literal("</color>", "</span>"), ReplaceAll(ColorOpen, s4))
  {
    var front := [Literal("  ", "&nbsp;&nbsp;"), Literal("<b>", "<strong>"), Literal("</b>", "</strong>"),
                  Literal("<i>", "<em>"), Literal("</i>", "</em>")];
    var back := [SizeOpen(percentPx), Literal("</size>", "</span>"), ColorOpen, Literal("</color>", "</span>")];
    assert Decorations(percentPx) == front + back;
    ApplyAllAppend(front, back, s1);
    FrontChain(front, s1);
    BackChain(back, percentPx, ApplyAll(front, s1));
  }

  lemma FrontChain(front: seq<Rule>, s1: string)
    requires front == [Literal("  ", "&nbsp;&nbsp;"), Literal("<b>", "<strong>"), Literal("</b>", "</strong>"),
                       Literal("<i>", "<em>"), Literal("</i>", "</em>")]
    ensures ApplyAll(front, s1) ==
      var s2 := ReplaceAll(Literal("</b>", "</strong>"), ReplaceAll(Literal("<b>", "<strong>"),
                  ReplaceAll(Literal("  ", "&nbsp;&nbsp;"), s1)));
      ReplaceAll(Literal("</i>", "</em>"), ReplaceAll(Literal("<i>", "<em>"), s2))
  {
    ApplyAllTwo(front[0], front[1], front[2..], s1);
    assert front == [front[0], front[1]] + front[2..];
    var t := ReplaceAll(front[1], ReplaceAll(front[0], s1));
    ApplyAllTwo(front[2], front[3], [front[4]], t);
    assert front[2..] == [front[2], front[3]] + [front[4]];
    assert ApplyAll([front[4]], ReplaceAll(front[3], ReplaceAll(front[2], t))) ==
           ReplaceAll(front[4], ReplaceAll(front[3], ReplaceAll(front[2], t)));
  }

  lemma BackChain(back: seq<Rule>, percentPx: string -> string, s3: string)
    requires back == [SizeOpen(percentPx), Literal("</size>", "</span>"), ColorOpen, Literal("</color>", "</span>")]
    ensures ApplyAll(back, s3) ==
      var s4 := ReplaceAll(Literal("</size>", "</span>"), ReplaceAll(SizeOpen(percentPx), s3));
      ReplaceAll(Literal("</color>", "</span>"), ReplaceAll(ColorOpen, s4))
  {
    ApplyAllTwo(back[0], back[1], back[2..], s3);
    assert back == [back[0], back[1]] + back[2..];
    var t := ReplaceAll(back[1], ReplaceAll(back[0], s3));
    ApplyAllTwo(back[2], back[3], [], t);
    assert back[2..] == [back[2], back[3]] + [];
  }

  /** Running two chains one after the other is running their concatenation. */
  lemma {:induction false} ApplyAllAppend(first: seq<Rule>, second: seq<Rule>, s: string)
    ensures ApplyAll(first + second, s) == ApplyAll(second, ApplyAll(first, s))
    decreases |first|
  {
    if first == [] {
      assert first + second == second;
    } else {
      assert (first + second)[1..] == first[1..] + second;
      ApplyAllAppend(first[1..], second, ReplaceAll(first[0], s));
    }
  }

  /** Without a line feed the line-break step has nothing to replace. */
  lemma LineBreakAbsent(s: string)
    requires '\n' !in s
    ensures ReplaceAll(LineBreak, s) == s
  {
    forall p | 0 <= p < |s| ensures MatchAt(LineBreak, s, p).None? {
      assert s[p] in s;
      if p + 1 < |s| {
        assert s[p + 1] in s;
      }
    }
    NoMatchIdentity(LineBreak, s, 0);
    assert s[0..] == s;
  }

  /** A `<`-led pattern absent from two tokens is absent from any text without `<` that
      they enclose, when the tokens cannot take part in a straddling occurrence. */
  lemma WrappedAbsent(x: string, t: string, y: string, pat: string)
    requires pat != [] && pat[0] == '<' && '<' !in t
    requires !Contains(x, pat) && !Contains(y, pat)
    requires x != [] && x[|x| - 1] !in pat[..|pat| - 1]
    requires y == [] || y[0] !in pat[1..]
    ensures !Contains(x + t + y, pat)
  {
    AbsentByChar(t, pat, 0);
    AbsentConcat(x, t, pat);
    AbsentConcat(x + t, y, pat);
  }

  /** The bold stages turn a bold pair around a plain line into a `strong` element, and no
      other stage touches it. */
  lemma BoldRender(t: string, percentPx: string -> string)
    requires '\n' !in t && '<' !in t && '$' !in t && !Contains(t, "  ")
    ensures Render("<b>" + t + "</b>", percentPx) == "<strong>" + t + "</strong>"
  {
    var s0 := "<b>" + t + "</b>";
    RenderChain(s0, percentPx);
    BoldEarlyStages(t);
    var s1 := BoldOpens(t);
    var s2 := BoldCloses(t);
    StrongUntouched(t, percentPx);
  }

  /** A CR LF pair is one line break. */
  lemma CrLfExample()
    ensures ReplaceAll(LineBreak, "x\r\ny") == "x<br>y"
  {
    var s := "x\r\ny";
    assert ReplaceFrom(LineBreak, s, 4) == [];
    assert ReplaceFrom(LineBreak, s, 3) == "y";
    assert ReplaceFrom(LineBreak, s, 1) == "<br>y";
  }

  // ---------------------------------------------------------------------------
  // A mixed line: a double space, a line feed, a bold pair and a colour pair

  /** A word of a mixed line: non-empty, and without any character a stage reacts to alone. */
  predicate Word(w: string) {
    w != [] && '<' !in w && '$' !in w && '\n' !in w && '\r' !in w && ' ' !in w
  }

  /** The words of the mixed line `a  b`, line feed, `<b>t</b> <color=v>u</color>`. */
  predicate MixedWords(a: string, b: string, t: string, v: string, u: string) {
    Word(a) && Word(b) && Word(t) && Word(u) && Tags.IsHexColor(v)
  }

  /** The text `l1`, the break `m`, the bold piece `k1`, a space and the colour piece `k2`. */
  function Line(l1: string, m: string, k1: string, k2: string): string {
    l1 + m + k1 + " " + k2
  }

  /** A bold pair and a colour pair as the markup spells them. */
  function BoldPair(t: string): string { "<b>" + t + "</b>" }
  function ColorPair(v: string, u: string): string { "<color=" + v + ">" + u + "</color>" }

  /** A line with a double space, a line feed, a bold pair and a hex colour pair renders to
      non-breaking spaces, a break, a `strong` element and a colour span. */
  lemma RenderMixed(a: string, b: string, t: string, v: string, u: string,
                    percentPx: string -> string)
    requires MixedWords(a, b, t, v, u)
    ensures Render(a + "  " + b + "\n" + BoldPair(t) + " " + ColorPair(v, u), percentPx) ==
      a + "&nbsp;&nbsp;" + b + "<br>" + ("<strong>" + t + "</strong>") + " " +
      (ColorSpan(v) + u + "</span>")
  {
    RenderChain(Line(a + "  " + b, "\n", BoldPair(t), ColorPair(v, u)), percentPx);
    MixedImagesLinks(a, b, t, v, u);
    MixedBreak(a, b, t, v, u);
    MixedSpaces(a, b, t, v, u);
    MixedBoldOpen(a, b, t, v, u);
    MixedBoldClose(a, b, t, v, u);
    MixedNoItalic(a, b, t, v, u);
    MixedNoSize(a, b, t, v, u, percentPx);
    MixedColorOpen(a, b, t, v, u);
    MixedColorClose(a, b, t, v, u);
  }

  /** The example of such a line. */
  lemma RenderExample(percentPx: string -> string)
    ensures Render("a  b\n<b>bold</b> <color=#FF0000>red</color>", percentPx) ==
            "a&nbsp;&nbsp;b<br><strong>bold</strong> " +
            "<span style=\"color:#FF0000\">red</span>"
  {
    ExampleWords();
    RenderMixed("a", "b", "bold", "#FF0000", "red", percentPx);
    ExampleInput();
    ExampleOutput();
  }

  lemma ExampleWords()
    ensures MixedWords("a", "b", "bold", "#FF0000", "red")
  {
    assert forall i :: 1 <= i < 7 ==> "#FF0000"[i] in "F0";
  }

  /** The input, piece by piece. */
  lemma ExampleInput()
    ensures "a" + "  " + "b" + "\n" + BoldPair("bold") + " " + ColorPair("#FF0000", "red") ==
            "a  b\n<b>bold</b> <color=#FF0000>red</color>"
  {
    ExampleInputPieces();
    ExampleInputStep1();
    ExampleInputStep2();
    ExampleInputStep3();
  }

  /** Literal joins, one seam per lemma: a long literal is costly to take apart. */
  lemma ExampleInputStep1()
    ensures "a  b\n" + "<b>bold</b>" == "a  b\n<b>bold</b>"
  {
  }

  lemma ExampleInputStep2()
    ensures "a  b\n<b>bold</b>" + " " == "a  b\n<b>bold</b> "
  {
  }

  lemma ExampleInputStep3()
    ensures "a  b\n<b>bold</b> " + "<color=#FF0000>red</color>" == "a  b\n<b>bold</b> <color=#FF0000>red</color>"
  {
  }

  lemma ExampleInputPieces()
    ensures "a" + "  " + "b" + "\n" == "a  b\n"
    ensures BoldPair("bold") == "<b>bold</b>"
    ensures ColorPair("#FF0000", "red") == "<color=#FF0000>red</color>"
  {
    assert "a" + "  " == "a  ";
    assert "a  " + "b" == "a  b";
    assert "a  b" + "\n" == "a  b\n";
    assert "<b>" + "bold" == "<b>bold";
    assert "<b>bold" + "</b>" == "<b>bold</b>";
    assert "<color=" + "#FF0000" == "<color=#FF0000";
    assert "<color=#FF0000" + ">" == "<color=#FF0000>";
    assert "<color=#FF0000>" + "red" == "<color=#FF0000>red";
    assert "<color=#FF0000>red" + "</color>" == "<color=#FF0000>red</color>";
  }

  /** The output, piece by piece. */
  lemma ExampleOutput()
    ensures "a" + "&nbsp;&nbsp;" + "b" + "<br>" + ("<strong>" + "bold" + "</strong>") + " " +
            (ColorSpan("#FF0000") + "red" + "</span>") ==
            "a&nbsp;&nbsp;b<br><strong>bold</strong> " +
            "<span style=\"color:#FF0000\">red</span>"
  {
    ExampleOutputPieces();
    ExampleOutputStep1();
    ExampleOutputStep2();
  }

  /** The same for the output. */
  lemma ExampleOutputStep1()
    ensures "a&nbsp;&nbsp;b<br>" + "<strong>bold</strong>" == "a&nbsp;&nbsp;b<br><strong>bold</strong>"
  {
  }

  lemma ExampleOutputStep2()
    ensures "a&nbsp;&nbsp;b<br><strong>bold</strong>" + " " == "a&nbsp;&nbsp;b<br><strong>bold</strong> "
  {
  }

  lemma ExampleOutputPieces()
    ensures "a" + "&nbsp;&nbsp;" + "b" + "<br>" == "a&nbsp;&nbsp;b<br>"
    ensures "<strong>" + "bold" + "</strong>" == "<strong>bold</strong>"
    ensures ColorSpan("#FF0000") + "red" + "</span>" == "<span style=\"color:#FF0000\">red</span>"
  {
    assert "a" + "&nbsp;&nbsp;" == "a&nbsp;&nbsp;";
    assert "a&nbsp;&nbsp;" + "b" == "a&nbsp;&nbsp;b";
    assert "a&nbsp;&nbsp;b" + "<br>" == "a&nbsp;&nbsp;b<br>";
    assert "<strong>" + "bold" == "<strong>bold";
    assert "<strong>bold" + "</strong>" == "<strong>bold</strong>";
    assert "<span style=\"color:" + "#FF0000" == "<span style=\"color:#FF0000";
    assert "<span style=\"color:#FF0000" + "\">" == "<span style=\"color:#FF0000\">";
    assert "<span style=\"color:#FF0000\">" + "red" == "<span style=\"color:#FF0000\">red";
    assert "<span style=\"color:#FF0000\">red" + "</span>" == "<span style=\"color:#FF0000\">red</span>";
  }

  lemma HexColorWord(v: string)
    requires Tags.IsHexColor(v)
    ensures Word(v) && '/' !in v
  {
    forall c | c in v ensures c != '<' && c != '$' && c != '\n' && c != '\r' && c != ' ' && c != '/' {
      var i :| 0 <= i < |v| && v[i] == c;
      if i > 0 { assert IsHexDigit(v[i]); }
    }
  }

  /** A literal stage works on a mixed line piece by piece when no seam can hide a match. */
  lemma LineLiteral(pat: string, rep: string, l1: string, m: string, k1: string, k2: string)
    requires pat != [] && l1 != [] && m != [] && k1 != [] && !Contains(" ", pat)
    requires SeamSafe(l1, m, pat) && SeamSafe(m, k1, pat)
    requires SeamSafe(k1, " ", pat) && SeamSafe(" ", k2, pat)
    ensures ReplaceAll(Literal(pat, rep), Line(l1, m, k1, k2)) ==
      Line(ReplaceAll(Literal(pat, rep), l1), ReplaceAll(Literal(pat, rep), m),
           ReplaceAll(Literal(pat, rep), k1), ReplaceAll(Literal(pat, rep), k2))
  {
    LiteralConcat(pat, rep, l1, m);
    assert (l1 + m)[|l1 + m| - 1] == m[|m| - 1];
    LiteralConcat(pat, rep, l1 + m, k1);
    assert (l1 + m + k1)[|l1 + m + k1| - 1] == k1[|k1| - 1];
    LiteralConcat(pat, rep, l1 + m + k1, " ");
    LiteralConcat(pat, rep, l1 + m + k1 + " ", k2);
    NoLeadIdentity(Literal(pat, rep), " ");
  }

  /** A pattern absent from every piece of a mixed line, and unable to straddle a seam, is
      absent from the line. */
  lemma LineLacks(pat: string, l1: string, m: string, k1: string, k2: string)
    requires l1 != [] && m != [] && k1 != []
    requires !Contains(l1, pat) && !Contains(m, pat) && !Contains(k1, pat)
    requires !Contains(" ", pat) && !Contains(k2, pat)
    requires SeamSafe(l1, m, pat) && SeamSafe(m, k1, pat)
    requires SeamSafe(k1, " ", pat) && SeamSafe(" ", k2, pat)
    ensures !Contains(Line(l1, m, k1, k2), pat)
  {
    AbsentConcat(l1, m, pat);
    assert (l1 + m)[|l1 + m| - 1] == m[|m| - 1];
    AbsentConcat(l1 + m, k1, pat);
    assert (l1 + m + k1)[|l1 + m + k1| - 1] == k1[|k1| - 1];
    AbsentConcat(l1 + m + k1, " ", pat);
    AbsentConcat(l1 + m + k1 + " ", k2, pat);
  }

  /** A `<`-led pattern with a letter two tags lack is absent from a tag pair around a
      text without `<`. */
  lemma TagPairLacks(o: string, t: string, c: string, pat: string, j: nat)
    requires pat != [] && pat[0] == '<' && '<' !in t
    requires j < |pat| && pat[j] !in o && pat[j] !in c
    requires o != [] && o[|o| - 1] !in pat[..|pat| - 1] && (c == [] || c[0] !in pat[1..])
    ensures !Contains(o + t + c, pat)
  {
    AbsentByChar(o, pat, j);
    AbsentByChar(c, pat, j);
    WrappedAbsent(o, t, c, pat);
  }

  /** The same for a colour pair. */
  lemma ColorPairLacks(v: string, u: string, pat: string, j: nat)
    requires '<' !in v && '<' !in u
    requires pat != [] && pat[0] == '<' && '<' !in pat[1..] && '=' !in pat[..|pat| - 1]
    requires j < |pat| && pat[j] !in "<color=" && pat[j] !in "</color>"
    ensures !Contains(ColorPair(v, u), pat)
  {
    assert ColorPair(v, u) == "<color=" + (v + ">" + u) + "</color>";
    TagPairLacks("<color=", v + ">" + u, "</color>", pat, j);
  }

  /** No image sentinel and no link pair: the first two stages change nothing. */
  lemma MixedImagesLinks(a: string, b: string, t: string, v: string, u: string)
    requires MixedWords(a, b, t, v, u)
    ensures var s := Line(a + "  " + b, "\n", BoldPair(t), ColorPair(v, u));
      ReplaceAll(LinkPair, RenderImages(s)) == s
  {
    var s := Line(a + "  " + b, "\n", BoldPair(t), ColorPair(v, u));
    HexColorWord(v);
    assert '$' !in s;
    RenderImagesNoDollar(s);
    MixedNoLink(a, b, t, v, u);
  }

  lemma MixedNoLink(a: string, b: string, t: string, v: string, u: string)
    requires MixedWords(a, b, t, v, u)
    ensures var s := Line(a + "  " + b, "\n", BoldPair(t), ColorPair(v, u));
      ReplaceAll(LinkPair, s) == s
  {
    var pat := "<link=";
    HexColorWord(v);
    AbsentByChar(a + "  " + b, pat, 0);
    AbsentByChar("\n", pat, 0);
    TagPairLacks("<b>", t, "</b>", pat, 1);
    AbsentByChar(" ", pat, 0);
    ColorPairLacks(v, u, pat, 4);
    LineLacks(pat, a + "  " + b, "\n", BoldPair(t), ColorPair(v, u));
    NoLeadIdentity(LinkPair, Line(a + "  " + b, "\n", BoldPair(t), ColorPair(v, u)));
  }

  /** Without a carriage return, the line feed is the one break. */
  lemma MixedBreak(a: string, b: string, t: string, v: string, u: string)
    requires MixedWords(a, b, t, v, u)
    ensures ReplaceAll(LineBreak, Line(a + "  " + b, "\n", BoldPair(t), ColorPair(v, u))) ==
            Line(a + "  " + b, "<br>", BoldPair(t), ColorPair(v, u))
  {
    HexColorWord(v);
    var s := Line(a + "  " + b, "\n", BoldPair(t), ColorPair(v, u));
    assert '\r' !in s;
    LineBreakLiteral(s);
    LineLiteral("\n", "<br>", a + "  " + b, "\n", BoldPair(t), ColorPair(v, u));
    LiteralLacks("\n", "<br>", a + "  " + b, 0);
    LiteralToken("\n", "<br>");
    LiteralLacks("\n", "<br>", BoldPair(t), 0);
    LiteralLacks("\n", "<br>", ColorPair(v, u), 0);
  }

  /** The double space becomes two non-breaking spaces. */
  lemma MixedSpaces(a: string, b: string, t: string, v: string, u: string)
    requires MixedWords(a, b, t, v, u)
    ensures ReplaceAll(Literal("  ", "&nbsp;&nbsp;"),
              Line(a + "  " + b, "<br>", BoldPair(t), ColorPair(v, u))) ==
            Line(a + "&nbsp;&nbsp;" + b, "<br>", BoldPair(t), ColorPair(v, u))
  {
    var pat := "  ";
    HexColorWord(v);
    assert !Contains(" ", pat);
    LineLiteral(pat, "&nbsp;&nbsp;", a + "  " + b, "<br>", BoldPair(t), ColorPair(v, u));
    AbsentByChar(a, pat, 0);
    AbsentByChar(b, pat, 0);
    assert a[|a| - 1] in a;
    LiteralOnce(pat, "&nbsp;&nbsp;", a, b);
    LiteralLacks(pat, "&nbsp;&nbsp;", "<br>", 0);
    LiteralLacks(pat, "&nbsp;&nbsp;", BoldPair(t), 0);
    LiteralLacks(pat, "&nbsp;&nbsp;", ColorPair(v, u), 0);
  }

  lemma BreakLacksBold()
    ensures !Contains("<br>", "<b>")
  {
    AbsentByChar("r>", "<b>", 0);
    assert "<b" + "r>" == "<br>";
    AbsentByChar("<b", "<b>", 2);
    AbsentConcat("<b", "r>", "<b>");
  }

  /** The bold opening tag becomes `<strong>`. */
  lemma MixedBoldOpen(a: string, b: string, t: string, v: string, u: string)
    requires MixedWords(a, b, t, v, u)
    ensures ReplaceAll(Literal("<b>", "<strong>"),
              Line(a + "&nbsp;&nbsp;" + b, "<br>", BoldPair(t), ColorPair(v, u))) ==
            Line(a + "&nbsp;&nbsp;" + b, "<br>", "<strong>" + t + "</b>", ColorPair(v, u))
  {
    var pat := "<b>";
    HexColorWord(v);
    LineLiteral(pat, "<strong>", a + "&nbsp;&nbsp;" + b, "<br>", BoldPair(t), ColorPair(v, u));
    LiteralLacks(pat, "<strong>", a + "&nbsp;&nbsp;" + b, 0);
    BreakLacksBold();
    NoLeadIdentity(Literal(pat, "<strong>"), "<br>");
    var _ := BoldOpens(t);
    ColorPairLacks(v, u, pat, 1);
    NoLeadIdentity(Literal(pat, "<strong>"), ColorPair(v, u));
  }

  /** The bold closing tag becomes `</strong>`. */
  lemma MixedBoldClose(a: string, b: string, t: string, v: string, u: string)
    requires MixedWords(a, b, t, v, u)
    ensures ReplaceAll(Literal("</b>", "</strong>"),
              Line(a + "&nbsp;&nbsp;" + b, "<br>", "<strong>" + t + "</b>", ColorPair(v, u))) ==
            Line(a + "&nbsp;&nbsp;" + b, "<br>", "<strong>" + t + "</strong>", ColorPair(v, u))
  {
    LineLiteral("</b>", "</strong>", a + "&nbsp;&nbsp;" + b, "<br>", "<strong>" + t + "</b>",
                ColorPair(v, u));
    BoldCloseKeeps(a, b, v, u);
    var _ := BoldCloses(t);
  }

  /** The first line, the break and the colour pair hold no bold closing tag. */
  lemma BoldCloseKeeps(a: string, b: string, v: string, u: string)
    requires Word(a) && Word(b) && Word(u) && Tags.IsHexColor(v)
    ensures var rule := Literal("</b>", "</strong>");
      ReplaceAll(rule, a + "&nbsp;&nbsp;" + b) == a + "&nbsp;&nbsp;" + b &&
      ReplaceAll(rule, "<br>") == "<br>" &&
      ReplaceAll(rule, ColorPair(v, u)) == ColorPair(v, u)
  {
    var pat := "</b>";
    HexColorWord(v);
    LiteralLacks(pat, "</strong>", a + "&nbsp;&nbsp;" + b, 0);
    LiteralLacks(pat, "</strong>", "<br>", 1);
    ColorPairLacks(v, u, pat, 2);
    NoLeadIdentity(Literal(pat, "</strong>"), ColorPair(v, u));
  }

  /** A rule whose lead holds a letter none of the tags left after the bold stages has
      finds nothing in the line. */
  lemma MixedUntouched(rule: Rule, pat: string, j: nat,
                       a: string, b: string, t: string, v: string, u: string)
    requires MixedWords(a, b, t, v, u)
    requires HasLead(rule) && Lead(rule) == pat
    requires pat[0] == '<' && '<' !in pat[1..] && ' ' !in pat
    requires '>' !in pat[..|pat| - 1] && '=' !in pat[..|pat| - 1]
    requires j < |pat| && pat[j] !in "<br>" && pat[j] !in "<strong>" && pat[j] !in "</strong>"
    requires pat[j] !in "<color=" && pat[j] !in "</color>"
    ensures var s := Line(a + "&nbsp;&nbsp;" + b, "<br>", "<strong>" + t + "</strong>", ColorPair(v, u));
      ReplaceAll(rule, s) == s
  {
    var k1 := "<strong>" + t + "</strong>";
    HexColorWord(v);
    AbsentByChar(a + "&nbsp;&nbsp;" + b, pat, 0);
    AbsentByChar("<br>", pat, j);
    TagPairLacks("<strong>", t, "</strong>", pat, j);
    AbsentByChar(" ", pat, 0);
    ColorPairLacks(v, u, pat, j);
    LineLacks(pat, a + "&nbsp;&nbsp;" + b, "<br>", k1, ColorPair(v, u));
    NoLeadIdentity(rule, Line(a + "&nbsp;&nbsp;" + b, "<br>", k1, ColorPair(v, u)));
  }

  /** No `i` is left: the italic stages change nothing. */
  lemma MixedNoItalic(a: string, b: string, t: string, v: string, u: string)
    requires MixedWords(a, b, t, v, u)
    ensures var s := Line(a + "&nbsp;&nbsp;" + b, "<br>", "<strong>" + t + "</strong>", ColorPair(v, u));
      ReplaceAll(Literal("</i>", "</em>"), ReplaceAll(Literal("<i>", "<em>"), s)) == s
  {
    MixedUntouched(Literal("<i>", "<em>"), "<i>", 1, a, b, t, v, u);
    MixedUntouched(Literal("</i>", "</em>"), "</i>", 2, a, b, t, v, u);
  }

  /** Nor do the size stages. */
  lemma MixedNoSize(a: string, b: string, t: string, v: string, u: string,
                    percentPx: string -> string)
    requires MixedWords(a, b, t, v, u)
    ensures var s := Line(a + "&nbsp;&nbsp;" + b, "<br>", "<strong>" + t + "</strong>", ColorPair(v, u));
      ReplaceAll(Literal("</size>", "</span>"), ReplaceAll(SizeOpen(percentPx), s)) == s
  {
    MixedUntouched(SizeOpen(percentPx), "<size=", 2, a, b, t, v, u);
    MixedUntouched(Literal("</size>", "</span>"), "</size>", 3, a, b, t, v, u);
  }

  /** The hex colour token becomes a colour span. */
  lemma MixedColorOpen(a: string, b: string, t: string, v: string, u: string)
    requires MixedWords(a, b, t, v, u)
    ensures ReplaceAll(ColorOpen,
              Line(a + "&nbsp;&nbsp;" + b, "<br>", "<strong>" + t + "</strong>", ColorPair(v, u))) ==
            Line(a + "&nbsp;&nbsp;" + b, "<br>", "<strong>" + t + "</strong>",
                 ColorSpan(v) + u + "</color>")
  {
    var pat := "<color=";
    var l1 := a + "&nbsp;&nbsp;" + b;
    var k1 := "<strong>" + t + "</strong>";
    var x := l1 + "<br>" + k1 + " ";
    HexColorWord(v);
    AbsentByChar(l1, pat, 0);
    AbsentByChar("<br>", pat, 1);
    TagPairLacks("<strong>", t, "</strong>", pat, 1);
    AbsentConcat(l1, "<br>", pat);
    AbsentConcat(l1 + "<br>", k1, pat);
    assert (l1 + "<br>" + k1)[|l1 + "<br>" + k1| - 1] == '>';
    AbsentByChar(" ", pat, 0);
    AbsentConcat(l1 + "<br>" + k1, " ", pat);
    AbsentByChar(u, pat, 0);
    AbsentByChar("</color>", pat, 6);
    AbsentConcat(u, "</color>", pat);
    assert Line(l1, "<br>", k1, ColorPair(v, u)) == x + "<color=" + v + ">" + (u + "</color>");
    ColorOnce(x, v, u + "</color>");
  }

  /** The colour closing tag becomes `</span>`. */
  lemma MixedColorClose(a: string, b: string, t: string, v: string, u: string)
    requires MixedWords(a, b, t, v, u)
    ensures ReplaceAll(Literal("</color>", "</span>"),
              Line(a + "&nbsp;&nbsp;" + b, "<br>", "<strong>" + t + "</strong>",
                   ColorSpan(v) + u + "</color>")) ==
            Line(a + "&nbsp;&nbsp;" + b, "<br>", "<strong>" + t + "</strong>",
                 ColorSpan(v) + u + "</span>")
  {
    LineLiteral("</color>", "</span>", a + "&nbsp;&nbsp;" + b, "<br>",
                "<strong>" + t + "</strong>", ColorSpan(v) + u + "</color>");
    ColorCloseKeeps(a, b, t);
    ColorCloses(v, u);
  }

  /** The first line, the break and the `strong` element hold no colour closing tag. */
  lemma ColorCloseKeeps(a: string, b: string, t: string)
    requires Word(a) && Word(b) && Word(t)
    ensures var rule := Literal("</color>", "</span>");
      ReplaceAll(rule, a + "&nbsp;&nbsp;" + b) == a + "&nbsp;&nbsp;" + b &&
      ReplaceAll(rule, "<br>") == "<br>" &&
      ReplaceAll(rule, "<strong>" + t + "</strong>") == "<strong>" + t + "</strong>"
  {
    var pat := "</color>";
    LiteralLacks(pat, "</span>", a + "&nbsp;&nbsp;" + b, 0);
    LiteralLacks(pat, "</span>", "<br>", 1);
    TagPairLacks("<strong>", t, "</strong>", pat, 2);
    NoLeadIdentity(Literal(pat, "</span>"), "<strong>" + t + "</strong>");
  }

  lemma ColorCloses(v: string, u: string)
    requires Tags.IsHexColor(v) && '<' !in u
    ensures ReplaceAll(Literal("</color>", "</span>"), ColorSpan(v) + u + "</color>") ==
            ColorSpan(v) + u + "</span>"
  {
    var pat := "</color>";
    HexColorWord(v);
    assert ColorSpan(v)[|ColorSpan(v)| - 1] == '>';
    AbsentByChar(ColorSpan(v), pat, 1);
    AbsentByChar(u, pat, 0);
    AbsentConcat(ColorSpan(v), u, pat);
    LiteralConcat(pat, "</span>", ColorSpan(v) + u, pat);
    LiteralToken(pat, "</span>");
    NoLeadIdentity(Literal(pat, "</span>"), ColorSpan(v) + u);
  }

  /** Images, links, line breaks and double spaces: none occurs in a bold pair around a
      plain line. */
  lemma BoldEarlyStages(t: string)
    requires '\n' !in t && '<' !in t && '$' !in t && !Contains(t, "  ")
    ensures var s0 := "<b>" + t + "</b>";
      ReplaceAll(Literal("  ", "&nbsp;&nbsp;"), ReplaceAll(LineBreak, ReplaceAll(LinkPair, RenderImages(s0)))) == s0
  {
    var s0 := "<b>" + t + "</b>";
    BoldNoLinkOrBreak(t, s0);
    BoldNoDoubleSpace(t, s0);
  }

  lemma BoldNoLinkOrBreak(t: string, s0: string)
    requires '\n' !in t && '<' !in t && '$' !in t && s0 == "<b>" + t + "</b>"
    ensures ReplaceAll(LineBreak, ReplaceAll(LinkPair, RenderImages(s0))) == s0
  {
    BoldNoImage(t, s0);
    BoldNoLink(t, s0);
    BoldNoBreak(t, s0);
  }

  lemma BoldNoImage(t: string, s0: string)
    requires '$' !in t && s0 == "<b>" + t + "</b>"
    ensures RenderImages(s0) == s0
  {
    forall c | c in s0 ensures c != '$' {
      assert c in "<b>" || c in t || c in "</b>";
    }
    RenderImagesNoDollar(s0);
  }

  lemma BoldNoLink(t: string, s0: string)
    requires '<' !in t && s0 == "<b>" + t + "</b>"
    ensures ReplaceAll(LinkPair, s0) == s0
  {
    AbsentByChar("<b>", "<link=", 1);
    AbsentByChar("</b>", "<link=", 1);
    WrappedAbsent("<b>", t, "</b>", "<link=");
    NoLeadIdentity(LinkPair, s0);
  }

  lemma BoldNoBreak(t: string, s0: string)
    requires '\n' !in t && s0 == "<b>" + t + "</b>"
    ensures ReplaceAll(LineBreak, s0) == s0
  {
    forall c | c in s0 ensures c != '\n' {
      assert c in "<b>" || c in t || c in "</b>";
    }
    LineBreakAbsent(s0);
  }

  lemma BoldNoDoubleSpace(t: string, s0: string)
    requires !Contains(t, "  ") && s0 == "<b>" + t + "</b>"
    ensures ReplaceAll(Literal("  ", "&nbsp;&nbsp;"), s0) == s0
  {
    AbsentByChar("<b>", "  ", 0);
    AbsentByChar("</b>", "  ", 0);
    AbsentConcat("<b>", t, "  ");
    AbsentConcat("<b>" + t, "</b>", "  ");
    NoLeadIdentity(Literal("  ", "&nbsp;&nbsp;"), s0);
  }

  lemma CloseBoldLacksOpen()
    ensures !Contains("</b>", "<b>")
  {
    AbsentByChar("/b>", "<b>", 0);
    assert "<" + "/b>" == "</b>";
    AbsentConcat("<", "/b>", "<b>");
  }

  /** The `<b>` stage on a bold pair. */
  lemma BoldOpens(t: string) returns (s: string)
    requires '<' !in t
    ensures s == "<strong>" + t + "</b>"
    ensures ReplaceAll(Literal("<b>", "<strong>"), "<b>" + t + "</b>") == s
  {
    assert "<b>" + t + "</b>" == "<b>" + (t + "</b>");
    LiteralConcat("<b>", "<strong>", "<b>", t + "</b>");
    LiteralToken("<b>", "<strong>");
    CloseBoldLacksOpen();
    AbsentByChar(t, "<b>", 0);
    AbsentConcat(t, "</b>", "<b>");
    NoLeadIdentity(Literal("<b>", "<strong>"), t + "</b>");
    s := "<strong>" + t + "</b>";
  }

  /** The `</b>` stage after it. */
  lemma BoldCloses(t: string) returns (s: string)
    requires '<' !in t
    ensures s == "<strong>" + t + "</strong>"
    ensures ReplaceAll(Literal("</b>", "</strong>"), "<strong>" + t + "</b>") == s
  {
    LiteralConcat("</b>", "</strong>", "<strong>" + t, "</b>");
    LiteralToken("</b>", "</strong>");
    AbsentByChar("<strong>", "</b>", 1);
    AbsentByChar(t, "</b>", 0);
    AbsentConcat("<strong>", t, "</b>");
    NoLeadIdentity(Literal("</b>", "</strong>"), "<strong>" + t);
    s := "<strong>" + t + "</strong>";
  }

  /** The italic, size and colour stages find nothing in a `strong` element around a
      text without `<`. */
  lemma StrongUntouched(t: string, percentPx: string -> string)
    requires '<' !in t
    ensures var s := "<strong>" + t + "</strong>";
      var s3 := ReplaceAll(Literal("</i>", "</em>"), ReplaceAll(Literal("<i>", "<em>"), s));
      var s4 := ReplaceAll(Literal("</size>", "</span>"), ReplaceAll(SizeOpen(percentPx), s3));
      ReplaceAll(Literal("</color>", "</span>"), ReplaceAll(ColorOpen, s4)) == s
  {
    var s := "<strong>" + t + "</strong>";
    StrongNoItalic(t, s);
    StrongNoSize(t, s, percentPx);
    StrongNoColor(t, s);
  }

  lemma StrongNoItalic(t: string, s: string)
    requires '<' !in t && s == "<strong>" + t + "</strong>"
    ensures ReplaceAll(Literal("</i>", "</em>"), ReplaceAll(Literal("<i>", "<em>"), s)) == s
  {
    UntouchedBy(Literal("<i>", "<em>"), "<i>", t, 1);
    UntouchedBy(Literal("</i>", "</em>"), "</i>", t, 2);
  }

  lemma StrongNoSize(t: string, s: string, percentPx: string -> string)
    requires '<' !in t && s == "<strong>" + t + "</strong>"
    ensures ReplaceAll(Literal("</size>", "</span>"), ReplaceAll(SizeOpen(percentPx), s)) == s
  {
    UntouchedBy(SizeOpen(percentPx), "<size=", t, 2);
    UntouchedBy(Literal("</size>", "</span>"), "</size>", t, 3);
  }

  lemma StrongNoColor(t: string, s: string)
    requires '<' !in t && s == "<strong>" + t + "</strong>"
    ensures ReplaceAll(Literal("</color>", "</span>"), ReplaceAll(ColorOpen, s)) == s
  {
    UntouchedBy(ColorOpen, "<color=", t, 1);
    UntouchedBy(Literal("</color>", "</span>"), "</color>", t, 2);
  }

  /** A rule whose lead holds a letter the `strong` tags lack leaves such an element alone. */
  lemma UntouchedBy(rule: Rule, pat: string, t: string, j: nat)
    requires HasLead(rule) && Lead(rule) == pat
    requires pat[0] == '<' && j < |pat| && pat[j] !in "<strong>" && pat[j] !in "</strong>"
    requires '>' !in pat[..|pat| - 1] && '<' !in pat[1..]
    requires '<' !in t
    ensures ReplaceAll(rule, "<strong>" + t + "</strong>") == "<strong>" + t + "</strong>"
  {
    AbsentByChar("<strong>", pat, j);
    AbsentByChar("</strong>", pat, j);
    WrappedAbsent("<strong>", t, "</strong>", pat);
    NoLeadIdentity(rule, "<strong>" + t + "</strong>");
  }

  /** A rule with no match anywhere in `s` leaves it unchanged, stage after stage. */
  lemma {:induction false} ApplyAllIdentity(rules: seq<Rule>, s: string)
    requires forall i, p :: 0 <= i < |rules| && 0 <= p < |s| ==> MatchAt(rules[i], s, p).None?
    ensures ApplyAll(rules, s) == s
    decreases |rules|
  {
    if rules != [] {
      NoMatchIdentity(rules[0], s, 0);
      assert s[0..] == s;
      ApplyAllIdentity(rules[1..], s);
    }
  }

  /** A one-line text with no `<`, `$` or double space is shown exactly as typed. */
  lemma RenderPlain(text: string, percentPx: string -> string)
    requires '\n' !in text && '<' !in text && '$' !in text && !Contains(text, "  ")
    ensures Render(text, percentPx) == text
  {
    RenderImagesNoDollar(text);
    forall p | 0 <= p < |text| ensures MatchAt(LinkPair, text, p).None? {
      PlainNoMatch(LinkPair, text, p);
    }
    NoMatchIdentity(LinkPair, text, 0);
    forall p | 0 <= p < |text| ensures MatchAt(LineBreak, text, p).None? {
      PlainNoMatch(LineBreak, text, p);
    }
    NoMatchIdentity(LineBreak, text, 0);
    assert text[0..] == text;
    var rules := Decorations(percentPx);
    DecorationsShape(percentPx);
    forall i, p | 0 <= i < |rules| && 0 <= p < |text| ensures MatchAt(rules[i], text, p).None? {
      PlainNoMatch(rules[i], text, p);
    }
    ApplyAllIdentity(rules, text);
    ApplyAllTwo(LinkPair, LineBreak, rules, text);
  }

  /** The rules a plain text cannot trigger: each needs a `<`, a line feed or a double space. */
  ghost predicate NeedsMarkup(rule: Rule) {
    match rule
    case Literal(pat, _) => pat == "  " || (pat != [] && pat[0] == '<')
    case LinkPair => true
    case LineBreak => true
    case SizeOpen(_) => true
    case ColorOpen => true
    case _ => false
  }

  lemma DecorationsShape(percentPx: string -> string)
    ensures forall i :: 0 <= i < |Decorations(percentPx)| ==> NeedsMarkup(Decorations(percentPx)[i])
  {
  }

  lemma NotAtLt(s: string, p: nat, pat: string)
    requires p < |s| && '<' !in s && pat != [] && pat[0] == '<'
    ensures !OccursAt(s, pat, p)
  {
    assert s[p] in s;
    if p + |pat| <= |s| {
      assert s[p..p + |pat|][0] == s[p];
    }
  }

  lemma PlainNoMatch(rule: Rule, s: string, p: nat)
    requires p < |s| && NeedsMarkup(rule)
    requires '\n' !in s && '<' !in s && !Contains(s, "  ")
    ensures MatchAt(rule, s, p).None?
  {
    assert s[p] in s;
    match rule
    case Literal(pat, rep) =>
      if pat == "  " {
        assert !OccursAt(s, "  ", p);
      } else {
        NotAtLt(s, p, pat);
      }
    case LinkPair => NotAtLt(s, p, "<link=");
    case LineBreak =>
      if p + 1 < |s| {
        assert s[p + 1] in s;
      }
    case SizeOpen(_) => NotAtLt(s, p, "<size=");
    case ColorOpen => NotAtLt(s, p, "<color=");
  }

  // ---------------------------------------------------------------------------
  // Single tokens

  /** A colour token renders as a colour span exactly when its value passes the colour
      validator of the tag registry. */
  lemma ColorSpanIff(v: string, s: string)
    requires s == "<color=" + v + ">"
    ensures ColorOpenAt(s, 0) == Some(Match(|s|, ColorSpan(v))) <==> Tags.IsColorValue(v)
  {
    assert s[0..7] == "<color=";
    assert s[7..7 + |v|] == v;
    assert s[|s| - 1] == '>';
    assert forall i :: 0 <= i < |v| ==> s[7 + i] == v[i];
    var r := Span(s, 7, IsAsciiLetter);
    if Tags.IsColorName(v) {
      assert r == 7 + |v|;
    }
  }

  /** A hex colour token between a text without a colour lead and a text without one is
      the one thing the colour stage changes. */
  lemma ColorOnce(a: string, v: string, b: string)
    requires !Contains(a, "<color=")
    requires Tags.IsHexColor(v)
    requires !Contains(b, "<color=")
    ensures ReplaceAll(ColorOpen, a + "<color=" + v + ">" + b) == a + ColorSpan(v) + b
  {
    var s := a + "<color=" + v + ">" + b;
    var n := |a| + 15;
    ColorPrefixUnmatched(a, v, b);
    CopyRun(ColorOpen, s, 0, |a|);
    assert s[0..|a|] == a;
    ColorTokenMatch(a, v, b);
    MatchStep(ColorOpen, s, |a|, Match(n, ColorSpan(v)));
    ColorSuffixUnmatched(a, v, b);
    NoMatchIdentity(ColorOpen, s, n);
    assert s[n..] == b;
  }

  lemma ColorPrefixUnmatched(a: string, v: string, b: string)
    requires !Contains(a, "<color=")
    ensures forall p :: 0 <= p < |a| ==> MatchAt(ColorOpen, a + "<color=" + v + ">" + b, p).None?
  {
    var rest := "<color=" + v + ">" + b;
    assert a + "<color=" + v + ">" + b == a + rest;
    assert rest[0] !in "<color="[1..];
    ContainsIff(a, "<color=");
    forall p | 0 <= p < |a| ensures MatchAt(ColorOpen, a + rest, p).None? {
      AbsentAt(a, rest, "<color=", p);
    }
  }

  lemma ColorTokenMatch(a: string, v: string, b: string)
    requires Tags.IsHexColor(v)
    ensures MatchAt(ColorOpen, a + "<color=" + v + ">" + b, |a|) == Some(Match(|a| + 15, ColorSpan(v)))
  {
    var s := a + "<color=" + v + ">" + b;
    var q := |a| + 7;
    assert forall j :: 0 <= j < 7 ==> s[|a| + j] == "<color="[j];
    OccursByChars(s, "<color=", |a|);
    assert forall i :: 0 <= i < 7 ==> s[q + i] == v[i];
    assert s[q + 7] == '>';
    assert s[q..q + 7] == v;
  }

  lemma ColorSuffixUnmatched(a: string, v: string, b: string)
    requires |v| == 7 && !Contains(b, "<color=")
    ensures forall p :: |a| + 15 <= p < |a| + 15 + |b| ==>
      MatchAt(ColorOpen, a + "<color=" + v + ">" + b, p).None?
  {
    var t := a + "<color=" + v + ">";
    assert |t| == |a| + 15;
    ContainsIff(b, "<color=");
    forall p | |t| <= p < |t| + |b| ensures MatchAt(ColorOpen, t + b, p).None? {
      OccursShift(t, b, "<color=", p - |t|);
    }
  }

  /** A size token that passes the size validator renders as a font-size span: the digits
      themselves in pixels, or the percent formatting of them. */
  lemma SizeSpanValid(v: string, s: string, percentPx: string -> string)
    requires s == "<size=" + v + ">"
    requires Tags.IsSizeValue(v)
    ensures v[|v| - 1] != '%' ==> SizeOpenAt(s, 0, percentPx) == Some(Match(|s|, SizeSpan(v)))
    ensures v[|v| - 1] == '%' ==>
      SizeOpenAt(s, 0, percentPx) == Some(Match(|s|, SizeSpan(percentPx(v[..|v| - 1]))))
  {
    assert s[0..6] == "<size=";
    assert forall i :: 0 <= i < |v| ==> s[6 + i] == v[i];
    var n := if v[|v| - 1] == '%' then |v| - 1 else |v|;
    var r := Span(s, 6, IsDigitOrDot);
    assert r == 6 + n by {
      assert forall i :: 6 <= i < 6 + n ==> IsDigitOrDot(s[i]);
      assert !IsDigitOrDot(s[6 + n]);
    }
    assert s[6..r] == v[..n];
  }

  /** A link pair whose URL has no `>` and whose text is non-empty without `<` renders as
      an anchor to that URL around that text. */
  lemma LinkPairAnchor(u: string, t: string, s: string)
    requires s == "<link=" + u + ">" + t + "</link>"
    requires u != [] && '>' !in u && t != [] && '<' !in t
    ensures LinkPairAt(s, 0) == Some(Match(|s|, Anchor(u, t)))
  {
    var g := 6 + |u|;
    var h := g + 1 + |t|;
    LinkPairPieces(u, t, s);
    forall i | 6 <= i < g ensures NotGt(s[i]) {
      assert s[i] == s[6..g][i - 6];
      assert u[i - 6] in u;
    }
    SpanIs(s, 6, NotGt, g);
    forall i | g + 1 <= i < h ensures NotLt(s[i]) {
      assert s[i] == s[g + 1..h][i - g - 1];
      assert t[i - g - 1] in t;
    }
    SpanIs(s, g + 1, NotLt, h);
  }

  /** The pieces of a link pair, by position. */
  lemma LinkPairPieces(u: string, t: string, s: string)
    requires s == "<link=" + u + ">" + t + "</link>"
    ensures |s| == 6 + |u| + 1 + |t| + 7
    ensures s[0..6] == "<link=" && s[6..6 + |u|] == u && s[6 + |u|] == '>'
    ensures s[7 + |u|..7 + |u| + |t|] == t && s[7 + |u| + |t|..] == "</link>"
  {
    var a := "<link=" + u;
    var b := a + ">";
    var c := b + t;
    assert s == c + "</link>";
    assert s[..|c|] == c && c[..|b|] == b && b[..|a|] == a;
  }
}
