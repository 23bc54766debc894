/** The regular expressions the editor applies with the `g` flag, each written out as a
    matcher at one position, and the left-to-right scan of a global `replace`. */
module Rewrite {
  import opened Wrappers
  import opened Strings

  /** A match ending (exclusively) at `end`, to be replaced by `rep`. */
  datatype Match = Match(end: nat, rep: string)

  datatype Rule =
    | Literal(pat: string, rep: string)       // an escaped literal pattern
    | MarkupToken                             // /<\/?(color|b|i|size|link|strong|em|span)[^>]*>/g  -> ''
    | SentinelLine                            // /^\s*\$img:[^\n]+\s*$/gm                          -> ''
    | LinkPair                                // /<link=([^>]+)>([^<]+)<\/link>/g                 -> anchor
    | LineBreak                               // /\r?\n/g                                          -> '<br>'
    | SizeOpen(percentPx: string -> string)   // /<size=([\d.]+)(%?)\>/g                           -> font-size span
    | ColorOpen                               // /<color=(#[0-9a-fA-F]{6}|[a-zA-Z]+)\>/g           -> color span
    | UnsafeUrlChar                           // /[^a-z0-9-._~:/?#[\]@!$&'()*+,;=]/gi              -> ''

  predicate NotGt(c: char) { c != '>' }
  predicate NotLt(c: char) { c != '<' }
  predicate NotNewline(c: char) { c != '\n' }
  predicate IsDigitOrDot(c: char) { IsDigit(c) || c == '.' }

  /** The characters `_sanitizeURL` keeps: ASCII letters of either case (the `i` flag),
      digits, and the URL punctuation of its class. */
  predicate IsUrlChar(c: char) {
    IsAsciiLetter(c) || IsDigit(c) || c in "-._~:/?#[]@!$&'()*+,;="
  }

  /** A literal pattern; an empty one only ever matches the empty string, which the
      editor only ever replaces by the empty string, so it changes nothing. */
  function LiteralAt(s: string, p: nat, pat: string, rep: string): (m: Option<Match>)
    ensures m.Some? <==> pat != [] && OccursAt(s, pat, p)
    ensures m.Some? ==> m.value == Match(p + |pat|, rep)
  {
    if pat != [] && OccursAt(s, pat, p) then Some(Match(p + |pat|, rep)) else None
  }

  predicate MarkupNameAt(s: string, k: nat) {
    OccursAt(s, "color", k) || OccursAt(s, "b", k) || OccursAt(s, "i", k) || OccursAt(s, "size", k)
    || OccursAt(s, "link", k) || OccursAt(s, "strong", k) || OccursAt(s, "em", k) || OccursAt(s, "span", k)
  }

  /** Where the tag name of a token starting at `p` begins: after `<`, or after `</`. */
  function NameStart(s: string, p: nat): (k: nat)
    requires p < |s|
    ensures p < k <= |s|
    ensures k == p + 2 <==> p + 1 < |s| && s[p + 1] == '/'
  {
    if p + 1 < |s| && s[p + 1] == '/' then p + 2 else p + 1
  }

  /** `<` or `</`, a markup name, anything but `>`, then `>`. No name contains `>`, so the
      token ends at the first `>` after the slash whichever name matched. */
  function MarkupTokenAt(s: string, p: nat): (m: Option<Match>)
    requires p < |s|
    ensures m.Some? ==> p < m.value.end <= |s| && m.value.rep == [] && s[p] == '<'
    ensures m.Some? ==> MarkupNameAt(s, NameStart(s, p))
    ensures m.Some? ==> s[m.value.end - 1] == '>' && '>' !in s[p..m.value.end - 1]
  {
    if s[p] != '<' then None
    else
      var k := NameStart(s, p);
      var g := Span(s, k, NotGt);
      if MarkupNameAt(s, k) && g < |s| then Some(Match(g + 1, [])) else None
  }

  /** The markup pattern matches at `p` exactly when `p` holds `<`, a markup name follows
      the optional `/`, and a `>` comes somewhere after it. */
  lemma MarkupTokenAtIff(s: string, p: nat)
    requires p < |s|
    ensures MarkupTokenAt(s, p).Some? <==>
      s[p] == '<' && MarkupNameAt(s, NameStart(s, p))
      && exists g :: NameStart(s, p) <= g < |s| && s[g] == '>'
  {
    var k := NameStart(s, p);
    var g := Span(s, k, NotGt);
    if g < |s| {
      assert k <= g < |s| && s[g] == '>';
    } else {
      assert forall g' :: k <= g' < |s| ==> NotGt(s[g']);
    }
  }

  /** A markup name starts with one of the letters `c`, `b`, `i`, `s`, `l`, `e`. */
  lemma NameLead(s: string, k: nat)
    requires MarkupNameAt(s, k)
    ensures k < |s| && s[k] in "cbisle"
  {
    if OccursAt(s, "color", k) { OccursLead(s, "color", k); }
    else if OccursAt(s, "b", k) { OccursLead(s, "b", k); }
    else if OccursAt(s, "i", k) { OccursLead(s, "i", k); }
    else if OccursAt(s, "size", k) { OccursLead(s, "size", k); }
    else if OccursAt(s, "link", k) { OccursLead(s, "link", k); }
    else if OccursAt(s, "strong", k) { OccursLead(s, "strong", k); }
    else if OccursAt(s, "em", k) { OccursLead(s, "em", k); }
    else { OccursLead(s, "span", k); }
  }

  /** `$` with the `m` flag: end of input or just before a line terminator. */
  predicate AtLineEnd(s: string, i: nat) { i == |s| || (i < |s| && IsLineTerminator(s[i])) }

  /** `^` with the `m` flag: start of input or just after a line terminator. */
  predicate AtLineStart(s: string, p: nat) { p == 0 || (p <= |s| && IsLineTerminator(s[p - 1])) }

  /** The last line end in `[lo, hi]`: where a greedy `\s*$` stops after backtracking. */
  function LastLineEnd(s: string, lo: nat, hi: nat): (e: nat)
    requires lo <= hi <= |s| && AtLineEnd(s, lo)
    ensures lo <= e <= hi && AtLineEnd(s, e)
    ensures forall i :: e < i <= hi ==> !AtLineEnd(s, i)
    decreases hi - lo
  {
    if AtLineEnd(s, hi) then hi else LastLineEnd(s, lo, hi - 1)
  }

  /** `^\s*\$img:[^\n]+\s*$` in multiline mode. The leading `\s*` must stop right before
      `$img:`; the greedy `[^\n]+` runs to the end of its line, where `$` already holds,
      so the trailing `\s*` takes the longest run of white space that ends at a line end. */
  function SentinelLineAt(s: string, p: nat): (m: Option<Match>)
    requires p < |s|
    ensures m.Some? ==> p < m.value.end <= |s| && m.value.rep == []
  {
    var w := Span(s, p, IsSpace);
    if AtLineStart(s, p) && OccursAt(s, "$img:", w) && w + 5 < |s| && s[w + 5] != '\n' then
      var r := Span(s, w + 5, NotNewline);
      Some(Match(LastLineEnd(s, r, Span(s, r, IsSpace)), []))
    else None
  }

  /** The sentinel pattern matches at a line start `p` exactly when, after a run of white
      space ending at `w`, the line holds `$img:` and at least one more character that is
      not a line feed. */
  lemma SentinelLineAtIff(s: string, p: nat)
    requires p < |s|
    ensures SentinelLineAt(s, p).Some? <==>
      AtLineStart(s, p) &&
      exists w :: p <= w && w + 5 < |s| && (forall i :: p <= i < w ==> IsSpace(s[i]))
                  && OccursAt(s, "$img:", w) && s[w + 5] != '\n'
  {
    var w := Span(s, p, IsSpace);
    if AtLineStart(s, p) && OccursAt(s, "$img:", w) && w + 5 < |s| && s[w + 5] != '\n' {
      assert p <= w && w + 5 < |s| && (forall i :: p <= i < w ==> IsSpace(s[i]));
    }
    if AtLineStart(s, p) {
      forall w' | p <= w' && w' + 5 < |s| && (forall i :: p <= i < w' ==> IsSpace(s[i]))
                  && OccursAt(s, "$img:", w') && s[w' + 5] != '\n'
        ensures SentinelLineAt(s, p).Some?
      {
        assert s[w'..w' + 5][0] == '$';
        SpanIs(s, p, IsSpace, w');
      }
    }
  }

  /** Where the sentinel pattern ends: `r` is the end of the sentinel's line, and the
      match goes on through white space to the last line end it reaches; a line feed
      there stays, the ones before it go. */
  lemma SentinelLineEnd(s: string, p: nat)
    requires p < |s| && SentinelLineAt(s, p).Some?
    ensures var w := Span(s, p, IsSpace);
      var r := Span(s, w + 5, NotNewline);
      var e := SentinelLineAt(s, p).value.end;
      && w + 5 < r <= e
      && (forall i :: w + 5 <= i < r ==> s[i] != '\n')
      && (r == |s| || s[r] == '\n')
      && (forall i :: r <= i < e ==> IsSpace(s[i]))
      && AtLineEnd(s, e)
      && (forall i :: e < i <= Span(s, r, IsSpace) ==> !AtLineEnd(s, i))
  {
    var w := Span(s, p, IsSpace);
    var r := Span(s, w + 5, NotNewline);
    assert NotNewline(s[w + 5]);
    assert AtLineEnd(s, r);
  }

  function Anchor(url: string, text: string): string {
    "<a href=\"" + url + "\" target=\"_blank\" style=\"text-decoration:underline\">" + text + "</a>"
  }

  /** `<link=`, a non-empty run without `>`, `>`, a non-empty run without `<`, `</link>`.
      Both runs are greedy and each stops at the only character that may follow it. */
  function LinkPairAt(s: string, p: nat): (m: Option<Match>)
    requires p < |s|
    ensures m.Some? ==> p < m.value.end <= |s|
  {
    if !OccursAt(s, "<link=", p) then None
    else
      var u := p + 6;
      var g := Span(s, u, NotGt);
      if g == u || g == |s| then None
      else
        var h := Span(s, g + 1, NotLt);
        if h == g + 1 || !OccursAt(s, "</link>", h) then None
        else Some(Match(h + 7, Anchor(s[u..g], s[g + 1..h])))
  }

  /** `\r?\n`. */
  function LineBreakAt(s: string, p: nat): (m: Option<Match>)
    requires p < |s|
    ensures m.Some? <==> s[p] == '\n' || (s[p] == '\r' && p + 1 < |s| && s[p + 1] == '\n')
    ensures m.Some? ==> p < m.value.end <= |s| && m.value.rep == "<br>"
    ensures m.Some? ==> m.value.end == if s[p] == '\r' then p + 2 else p + 1
  {
    if s[p] == '\r' && p + 1 < |s| && s[p + 1] == '\n' then Some(Match(p + 2, "<br>"))
    else if s[p] == '\n' then Some(Match(p + 1, "<br>"))
    else None
  }

  function SizeSpan(px: string): string { "<span style=\"font-size:" + px + "px\">" }

  /** `<size=`, a non-empty run of digits and dots, an optional `%`, `>`. A percent value
      is rendered through `percentPx`, which stands for `parseFloat(size)/5` printed as a
      JavaScript number; otherwise the run itself becomes the pixel size. */
  function SizeOpenAt(s: string, p: nat, percentPx: string -> string): (m: Option<Match>)
    requires p < |s|
    ensures m.Some? ==> p < m.value.end <= |s|
  {
    if !OccursAt(s, "<size=", p) then None
    else
      var q := p + 6;
      var r := Span(s, q, IsDigitOrDot);
      if r == q then None
      else if r + 1 < |s| && s[r] == '%' && s[r + 1] == '>' then
        Some(Match(r + 2, SizeSpan(percentPx(s[q..r]))))
      else if r < |s| && s[r] == '>' then Some(Match(r + 1, SizeSpan(s[q..r])))
      else None
  }

  function ColorSpan(v: string): string { "<span style=\"color:" + v + "\">" }

  /** `<color=`, then `#` and six hex digits or else a non-empty run of ASCII letters, `>`. */
  function ColorOpenAt(s: string, p: nat): (m: Option<Match>)
    requires p < |s|
    ensures m.Some? ==> p < m.value.end <= |s|
  {
    if !OccursAt(s, "<color=", p) then None
    else
      var q := p + 7;
      if q + 7 < |s| && s[q] == '#' && (forall i :: q + 1 <= i < q + 7 ==> IsHexDigit(s[i]))
         && s[q + 7] == '>'
      then Some(Match(q + 8, ColorSpan(s[q..q + 7])))
      else
        var r := Span(s, q, IsAsciiLetter);
        if q < r < |s| && s[r] == '>' then Some(Match(r + 1, ColorSpan(s[q..r]))) else None
  }

  /** The match of `rule` that starts at `p`, if any; every match is non-empty. */
  function MatchAt(rule: Rule, s: string, p: nat): (m: Option<Match>)
    requires p < |s|
    ensures m.Some? ==> p < m.value.end <= |s|
  {
    match rule
    case Literal(pat, rep) => LiteralAt(s, p, pat, rep)
    case MarkupToken => MarkupTokenAt(s, p)
    case SentinelLine => SentinelLineAt(s, p)
    case LinkPair => LinkPairAt(s, p)
    case LineBreak => LineBreakAt(s, p)
    case SizeOpen(percentPx) => SizeOpenAt(s, p, percentPx)
    case ColorOpen => ColorOpenAt(s, p)
    case UnsafeUrlChar => if IsUrlChar(s[p]) then None else Some(Match(p + 1, []))
  }

  /** `replace` with the `g` flag from position `k` on: a match is replaced and the scan
      resumes at its end; where none starts, one character is copied. */
  function ReplaceFrom(rule: Rule, s: string, k: nat): string
    requires k <= |s|
    decreases |s| - k
  {
    if k == |s| then []
    else
      match MatchAt(rule, s, k)
      case Some(m) => m.rep + ReplaceFrom(rule, s, m.end)
      case None => [s[k]] + ReplaceFrom(rule, s, k + 1)
  }

  function ReplaceAll(rule: Rule, s: string): string { ReplaceFrom(rule, s, 0) }

  /** Where no match starts, the scan copies the text. */
  lemma {:induction false} NoMatchIdentity(rule: Rule, s: string, k: nat)
    requires k <= |s|
    requires forall p :: k <= p < |s| ==> MatchAt(rule, s, p).None?
    ensures ReplaceFrom(rule, s, k) == s[k..]
    decreases |s| - k
  {
    if k < |s| {
      NoMatchIdentity(rule, s, k + 1);
      assert s[k..] == [s[k]] + s[k + 1..];
    }
  }

  /** The match of `rule` at `p`, if any, is replaced by something no longer. */
  predicate ShrinksAt(rule: Rule, s: string, p: nat)
    requires p < |s|
  {
    match MatchAt(rule, s, p)
    case None => true
    case Some(m) => |m.rep| <= m.end - p
  }

  /** A rule whose replacements are never longer than their matches never lengthens the text. */
  lemma {:induction false} ReplaceNeverLonger(rule: Rule, s: string, k: nat)
    requires k <= |s|
    requires forall p :: k <= p < |s| ==> ShrinksAt(rule, s, p)
    ensures |ReplaceFrom(rule, s, k)| <= |s| - k
    decreases |s| - k
  {
    if k < |s| {
      assert ShrinksAt(rule, s, k);
      match MatchAt(rule, s, k)
      case Some(m) => ReplaceNeverLonger(rule, s, m.end);
      case None => ReplaceNeverLonger(rule, s, k + 1);
    }
  }

  /** At `p`, either no match starts and the character there is not `c`, or the match's
      replacement does not contain `c`. */
  predicate AvoidsAt(rule: Rule, s: string, p: nat, c: char)
    requires p < |s|
  {
    match MatchAt(rule, s, p)
    case None => s[p] != c
    case Some(m) => c !in m.rep
  }

  /** A character is absent from the result when every copied character differs from it
      and no replacement contains it. */
  lemma {:induction false} ReplaceAvoids(rule: Rule, s: string, k: nat, c: char)
    requires k <= |s|
    requires forall p :: k <= p < |s| ==> AvoidsAt(rule, s, p, c)
    ensures c !in ReplaceFrom(rule, s, k)
    decreases |s| - k
  {
    if k < |s| {
      assert AvoidsAt(rule, s, k, c);
      match MatchAt(rule, s, k)
      case Some(m) => ReplaceAvoids(rule, s, m.end, c);
      case None => ReplaceAvoids(rule, s, k + 1, c);
    }
  }

  /** A literal rule only looks at the text from the scan position on. */
  lemma {:induction false} LiteralShift(pat: string, rep: string, a: string, b: string, k: nat)
    requires k <= |b|
    ensures ReplaceFrom(Literal(pat, rep), a + b, |a| + k) == ReplaceFrom(Literal(pat, rep), b, k)
    decreases |b| - k
  {
    if k < |b| {
      if pat != [] && OccursAt(b, pat, k) {
        LiteralShift(pat, rep, a, b, k + |pat|);
        ShiftMatchStep(pat, rep, a, b, k);
      } else {
        LiteralShift(pat, rep, a, b, k + 1);
        ShiftCopyStep(pat, rep, a, b, k);
      }
    }
  }

  /** The step of `LiteralShift` where the pattern matches at `k`. */
  lemma ShiftMatchStep(pat: string, rep: string, a: string, b: string, k: nat)
    requires k < |b| && pat != [] && OccursAt(b, pat, k)
    requires ReplaceFrom(Literal(pat, rep), a + b, |a| + (k + |pat|)) == ReplaceFrom(Literal(pat, rep), b, k + |pat|)
    ensures ReplaceFrom(Literal(pat, rep), a + b, |a| + k) == ReplaceFrom(Literal(pat, rep), b, k)
  {
    OccursShift(a, b, pat, k);
    LiteralMatchStep(pat, rep, b, k);
    LiteralMatchStep(pat, rep, a + b, |a| + k);
  }

  /** The step of `LiteralShift` where one character is copied. */
  lemma ShiftCopyStep(pat: string, rep: string, a: string, b: string, k: nat)
    requires k < |b| && !(pat != [] && OccursAt(b, pat, k))
    requires ReplaceFrom(Literal(pat, rep), a + b, |a| + (k + 1)) == ReplaceFrom(Literal(pat, rep), b, k + 1)
    ensures ReplaceFrom(Literal(pat, rep), a + b, |a| + k) == ReplaceFrom(Literal(pat, rep), b, k)
  {
    OccursShift(a, b, pat, k);
    LiteralCopyStep(pat, rep, b, k);
    LiteralCopyStep(pat, rep, a + b, |a| + k);
    assert (a + b)[|a| + k] == b[k];
  }

  /** One step of the scan for a literal rule where the pattern occurs: it is replaced. */
  lemma LiteralMatchStep(pat: string, rep: string, s: string, k: nat)
    requires k < |s| && pat != [] && OccursAt(s, pat, k)
    ensures ReplaceFrom(Literal(pat, rep), s, k) == rep + ReplaceFrom(Literal(pat, rep), s, k + |pat|)
  {
    assert MatchAt(Literal(pat, rep), s, k) == Some(Match(k + |pat|, rep));
  }

  /** One step of the scan for a literal rule where the pattern does not occur: one
      character is copied. */
  lemma LiteralCopyStep(pat: string, rep: string, s: string, k: nat)
    requires k < |s| && !(pat != [] && OccursAt(s, pat, k))
    ensures ReplaceFrom(Literal(pat, rep), s, k) == [s[k]] + ReplaceFrom(Literal(pat, rep), s, k + 1)
  {
    assert MatchAt(Literal(pat, rep), s, k) == None;
  }

  /** A literal replace over `a + b` splits at the seam when no occurrence straddles it. */
  lemma LiteralConcat(pat: string, rep: string, a: string, b: string)
    requires pat != [] && SeamSafe(a, b, pat)
    ensures ReplaceAll(Literal(pat, rep), a + b) ==
            ReplaceAll(Literal(pat, rep), a) + ReplaceAll(Literal(pat, rep), b)
  {
    ConcatFrom(pat, rep, a, b, 0);
  }

  lemma {:induction false} ConcatFrom(pat: string, rep: string, a: string, b: string, k: nat)
    requires pat != [] && SeamSafe(a, b, pat) && k <= |a|
    ensures ReplaceFrom(Literal(pat, rep), a + b, k) ==
            ReplaceFrom(Literal(pat, rep), a, k) + ReplaceAll(Literal(pat, rep), b)
    decreases |a| - k
  {
    if k == |a| {
      LiteralShift(pat, rep, a, b, 0);
    } else if OccursAt(a, pat, k) {
      OccursExtend(a, b, pat, k);
      ConcatFrom(pat, rep, a, b, k + |pat|);
      LiteralMatchStep(pat, rep, a, k);
      LiteralMatchStep(pat, rep, a + b, k);
    } else {
      AbsentAt(a, b, pat, k);
      ConcatFrom(pat, rep, a, b, k + 1);
      LiteralCopyStep(pat, rep, a, k);
      LiteralCopyStep(pat, rep, a + b, k);
      assert (a + b)[k] == a[k];
    }
  }

  /** An occurrence in `a + b` that starts in `a` lies within `a` when the seam is safe. */
  lemma AbsentAt(a: string, b: string, pat: string, k: nat)
    requires k < |a| && SeamSafe(a, b, pat) && !OccursAt(a, pat, k)
    ensures !OccursAt(a + b, pat, k)
  {
    if k + |pat| <= |a| {
      assert (a + b)[k..k + |pat|] == a[k..k + |pat|];
    } else if k + |pat| <= |a + b| {
      var w := (a + b)[k..k + |pat|];
      assert w[|a| - 1 - k] == a[|a| - 1];
      assert w[|a| - k] == b[0];
      assert pat[..|pat| - 1][|a| - 1 - k] == pat[|a| - 1 - k];
      assert pat[1..][|a| - k - 1] == pat[|a| - k];
      assert w != pat;
    }
  }

  /** A literal rule turns its own pattern into its replacement. */
  lemma LiteralToken(pat: string, rep: string)
    requires pat != []
    ensures ReplaceAll(Literal(pat, rep), pat) == rep
  {
    assert pat + [] == pat;
    ChunkMatch(pat, rep, []);
  }

  /** The rules whose every match starts with a fixed text. */
  predicate HasLead(rule: Rule) {
    (rule.Literal? && rule.pat != []) || rule.LinkPair? || rule.SizeOpen? || rule.ColorOpen?
  }

  /** That fixed text. */
  function Lead(rule: Rule): (r: string)
    requires HasLead(rule)
    ensures r != [] && r[0] == (if rule.Literal? then rule.pat[0] else '<')
  {
    match rule
    case Literal(pat, _) => pat
    case LinkPair => "<link="
    case SizeOpen(_) => "<size="
    case ColorOpen => "<color="
  }

  /** A match of such a rule starts with its lead. */
  lemma LeadNeeded(rule: Rule, s: string, p: nat)
    requires p < |s| && HasLead(rule) && MatchAt(rule, s, p).Some?
    ensures OccursAt(s, Lead(rule), p)
  {
  }

  /** Where its lead never occurs, such a rule changes nothing. */
  lemma NoLeadIdentity(rule: Rule, s: string)
    requires HasLead(rule) && !Contains(s, Lead(rule))
    ensures ReplaceAll(rule, s) == s
  {
    ContainsIff(s, Lead(rule));
    forall p | 0 <= p < |s| ensures MatchAt(rule, s, p).None? {
      if MatchAt(rule, s, p).Some? {
        LeadNeeded(rule, s, p);
      }
    }
    NoMatchIdentity(rule, s, 0);
    assert s[0..] == s;
  }

  /** A literal rule changes nothing in a text that lacks one of its pattern's characters. */
  lemma LiteralLacks(pat: string, rep: string, s: string, j: nat)
    requires j < |pat| && pat[j] !in s
    ensures ReplaceAll(Literal(pat, rep), s) == s
  {
    AbsentByChar(s, pat, j);
    NoLeadIdentity(Literal(pat, rep), s);
  }

  /** A literal pattern that occurs once, where nothing straddles it, is replaced there
      and nowhere else. */
  lemma LiteralOnce(pat: string, rep: string, a: string, b: string)
    requires pat != [] && !Contains(a, pat) && !Contains(b, pat)
    requires SeamSafe(a, pat + b, pat) && SeamSafe(pat, b, pat)
    ensures ReplaceAll(Literal(pat, rep), a + pat + b) == a + rep + b
  {
    assert a + pat + b == a + (pat + b);
    LiteralConcat(pat, rep, a, pat + b);
    LiteralConcat(pat, rep, pat, b);
    LiteralToken(pat, rep);
    NoLeadIdentity(Literal(pat, rep), a);
    NoLeadIdentity(Literal(pat, rep), b);
  }

  /** One step of the scan where a match starts: it is replaced. */
  lemma MatchStep(rule: Rule, s: string, k: nat, m: Match)
    requires k < |s| && MatchAt(rule, s, k) == Some(m)
    ensures ReplaceFrom(rule, s, k) == m.rep + ReplaceFrom(rule, s, m.end)
  {
  }

  /** One step of the scan where no match starts: one character is copied. */
  lemma CopyStep(rule: Rule, s: string, k: nat)
    requires k < |s| && MatchAt(rule, s, k).None?
    ensures ReplaceFrom(rule, s, k) == [s[k]] + ReplaceFrom(rule, s, k + 1)
  {
  }

  /** The two rules give the same match at position `p` of `s`. */
  predicate SameAt(r1: Rule, r2: Rule, s: string, p: nat) {
    p < |s| && MatchAt(r1, s, p) == MatchAt(r2, s, p)
  }

  /** Two rules that match alike at every position replace alike. */
  lemma {:induction false} SameMatches(r1: Rule, r2: Rule, s: string, k: nat)
    requires k <= |s|
    requires forall p :: k <= p < |s| ==> SameAt(r1, r2, s, p)
    ensures ReplaceFrom(r1, s, k) == ReplaceFrom(r2, s, k)
    decreases |s| - k
  {
    if k < |s| {
      assert SameAt(r1, r2, s, k);
      var m := MatchAt(r1, s, k);
      if m.Some? {
        SameMatches(r1, r2, s, m.value.end);
        SameMatchStep(r1, r2, s, k, m.value);
      } else {
        SameMatches(r1, r2, s, k + 1);
        SameCopyStep(r1, r2, s, k);
      }
    }
  }

  lemma SameMatchStep(r1: Rule, r2: Rule, s: string, k: nat, m: Match)
    requires k < |s| && MatchAt(r1, s, k) == Some(m) && MatchAt(r2, s, k) == Some(m)
    requires ReplaceFrom(r1, s, m.end) == ReplaceFrom(r2, s, m.end)
    ensures ReplaceFrom(r1, s, k) == ReplaceFrom(r2, s, k)
  {
    MatchStep(r1, s, k, m);
    MatchStep(r2, s, k, m);
  }

  lemma SameCopyStep(r1: Rule, r2: Rule, s: string, k: nat)
    requires k < |s| && MatchAt(r1, s, k).None? && MatchAt(r2, s, k).None?
    requires ReplaceFrom(r1, s, k + 1) == ReplaceFrom(r2, s, k + 1)
    ensures ReplaceFrom(r1, s, k) == ReplaceFrom(r2, s, k)
  {
    CopyStep(r1, s, k);
    CopyStep(r2, s, k);
  }

  /** Without a carriage return the line-break step is the literal replace of each line
      feed. */
  lemma LineBreakLiteral(s: string)
    requires '\r' !in s
    ensures ReplaceAll(LineBreak, s) == ReplaceAll(Literal("\n", "<br>"), s)
  {
    forall p | 0 <= p < |s| ensures SameAt(LineBreak, Literal("\n", "<br>"), s, p) {
      assert s[p] in s;
      assert s[p..p + 1] == [s[p]];
    }
    SameMatches(LineBreak, Literal("\n", "<br>"), s, 0);
  }

  /** A run of positions where no match starts is copied as it is. */
  lemma {:induction false} CopyRun(rule: Rule, s: string, k: nat, n: nat)
    requires k <= n <= |s|
    requires forall p :: k <= p < n ==> MatchAt(rule, s, p).None?
    ensures ReplaceFrom(rule, s, k) == s[k..n] + ReplaceFrom(rule, s, n)
    decreases n - k
  {
    if k < n {
      var tail := ReplaceFrom(rule, s, n);
      calc {
        ReplaceFrom(rule, s, k);
        { CopyStep(rule, s, k); }
        [s[k]] + ReplaceFrom(rule, s, k + 1);
        { CopyRun(rule, s, k + 1, n); }
        [s[k]] + (s[k + 1..n] + tail);
        { assert [s[k]] + s[k + 1..n] == s[k..n]; }
        s[k..n] + tail;
      }
    }
  }

  /** Every `c` replaced by `rep`, one character at a time: the reference for a global
      replace of a one-character literal. */
  function SubstChar(s: string, c: char, rep: string): (r: string)
    ensures c !in s ==> r == s
    ensures forall x :: x in r ==> x in s || x in rep
    ensures c !in rep ==> c !in r
  {
    if s == [] then [] else (if s[0] == c then rep else [s[0]]) + SubstChar(s[1..], c, rep)
  }

  lemma {:induction false} SubstCharAppend(a: string, b: string, c: char, rep: string)
    ensures SubstChar(a + b, c, rep) == SubstChar(a, c, rep) + SubstChar(b, c, rep)
  {
    if a == [] {
      assert a + b == b;
    } else {
      assert (a + b)[1..] == a[1..] + b;
      SubstCharAppend(a[1..], b, c, rep);
    }
  }

  /** A global replace of a one-character literal is the character-wise substitution. */
  lemma {:induction false} SingleCharReplace(c: char, rep: string, s: string, k: nat)
    requires k <= |s|
    ensures ReplaceFrom(Literal([c], rep), s, k) == SubstChar(s[k..], c, rep)
    decreases |s| - k
  {
    if k < |s| {
      assert OccursAt(s, [c], k) <==> s[k] == c by { assert s[k..k + 1] == [s[k]]; }
      SingleCharReplace(c, rep, s, k + 1);
      assert s[k..][1..] == s[k + 1..];
    }
  }

  /** Where `pat` starts nowhere inside `a`, a literal rule copies `a` and goes on with `b`. */
  lemma {:induction false} ChunkCopy(pat: string, rep: string, a: string, b: string, k: nat)
    requires k <= |a|
    requires forall i :: k <= i < |a| ==> !OccursAt(a + b, pat, i)
    ensures ReplaceFrom(Literal(pat, rep), a + b, k) == a[k..] + ReplaceFrom(Literal(pat, rep), b, 0)
    decreases |a| - k
  {
    if k == |a| {
      LiteralShift(pat, rep, a, b, 0);
    } else {
      ChunkCopy(pat, rep, a, b, k + 1);
      ChunkCopyStep(pat, rep, a, b, k);
    }
  }

  /** The step of `ChunkCopy` at one position of `a`. */
  lemma ChunkCopyStep(pat: string, rep: string, a: string, b: string, k: nat)
    requires k < |a| && !OccursAt(a + b, pat, k)
    requires ReplaceFrom(Literal(pat, rep), a + b, k + 1) == a[k + 1..] + ReplaceFrom(Literal(pat, rep), b, 0)
    ensures ReplaceFrom(Literal(pat, rep), a + b, k) == a[k..] + ReplaceFrom(Literal(pat, rep), b, 0)
  {
    LiteralCopyStep(pat, rep, a + b, k);
    assert (a + b)[k] == a[k];
    assert a[k..] == [a[k]] + a[k + 1..];
  }

  /** A literal rule replaces a leading `pat` and goes on with what follows it. */
  lemma ChunkMatch(pat: string, rep: string, b: string)
    requires pat != []
    ensures ReplaceFrom(Literal(pat, rep), pat + b, 0) == rep + ReplaceFrom(Literal(pat, rep), b, 0)
  {
    assert (pat + b)[0..|pat|] == pat;
    LiteralShift(pat, rep, pat, b, 0);
  }

  /** Decoding `&amp;` undoes the character-wise escape of `&`. */
  lemma {:induction false} DecodeAmpChars(u: string)
    ensures ReplaceAll(Literal("&amp;", "&"), SubstChar(u, '&', "&amp;")) == u
  {
    if u != [] {
      var b := SubstChar(u[1..], '&', "&amp;");
      if u[0] == '&' {
        assert SubstChar(u, '&', "&amp;") == "&amp;" + b;
        ChunkMatch("&amp;", "&", b);
      } else {
        var a := [u[0]];
        assert SubstChar(u, '&', "&amp;") == a + b;
        assert !OccursAt(a + b, "&amp;", 0) by { assert (a + b)[0] != '&'; }
        ChunkCopy("&amp;", "&", a, b, 0);
        assert a[0..] == a;
      }
      DecodeAmpChars(u[1..]);
      assert u == [u[0]] + u[1..];
    }
  }
}
