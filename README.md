# RichTextEditor editing core, in Dafny

`RichTextEditor` (html.unity.richtext.js) is a browser component. It pairs a textarea
holding Unity-style rich-text markup (`<b>`, `<i>`, `<color=…>`, `<size=…>`,
`<link=…>`, and `$img:` sentinel lines) with a live HTML preview. This project models
its editing core apart from the DOM.

**Tag registry.** A table maps each tag name to:
- an opening token, which is fixed or built from the argument;
- a closing token;
- a block flag;
- an optional validator.

Caller options replace entries by key. The validators are written out as predicates
(`Tags`).

**Toggle engine (`applyStyle`).**
- A collapsed selection first moves to the end of the text.
- The tag is looked up and its argument validated.
- The selected text is then rewritten:
  - A block tag is prefixed when absent; otherwise every occurrence is removed.
  - An inline tag wraps the text; or, when an `open … close` pair is present, the leftmost
    pair is stripped, leaving one layer fewer.
- The result is spliced back, and the selection end moves by the length change.

`escapeRegExp` exists so that the patterns built from the tokens match literally. The
model proves that an escaped pattern is a literal for exactly its source text
(`RegExpEscape`). Searching is therefore modelled as literal search (`Toggle`).

**Clear engine (`clearAllFormat`).** An ordered chain of global rewrites (`Clear`):
1. strip markup tokens;
2. remove image sentinel lines together with the white space around them: blank lines
   before the sentinel go, and after it everything up to the last line end in the
   white space that follows goes too, so a lone sentinel line leaves its line feed but
   one followed by blank lines takes its own line feed with it;
3. decode `&nbsp;`, then `&lt;`, then `&gt;`.

It runs over the whole text, or over the selection and is spliced back.

**Render pipeline (`updateOutput`).**
1. Image lines become `<img>` elements, with a partially escaped source.
2. An ordered chain of global rewrites turns links, line breaks, double spaces, bold,
   italic, size and colour markup into HTML (`Output`).

**URL sanitizer (`_sanitizeURL`).** It drops characters outside the URL set and escapes
`&` (`Sanitize`). The component never calls it.

**How the regular expressions are modelled.** Each one is written out as a matcher at
one position (`Rewrite.Rule`, `Rewrite.MatchAt`). `String.replace` with the `g` flag is
the scan `Rewrite.ReplaceFrom`:
- a match is replaced and scanning resumes at its end;
- elsewhere one character is copied.

Every match is non-empty.

**The editor object.** `Editor.RichTextEditor` is a class:
- fields: the textarea's value and selection, the preview's HTML and the tag table;
- methods that update them in place: `ApplyStyle`, `ClearAllFormat`, `UpdateOutput`,
  `SelectTextRange`, the value setter, and the `input` event.

Their postconditions tie the new state to the specification functions above. The lemmas
about those functions carry the properties.

**Behaviour the model keeps as the code has it:**
- The colour validator `/^(#[0-9A-F]{6}|[a-zA-Z]+)$/i` accepts any run of ASCII letters as
  a colour name, such as `notacolor` (`Tags.ColorValidatorExamples`).
- An unknown tag name is not a no-op. The collapsed-selection move (lines 164-167) happens
  before the lookup fails at line 171, so the cursor has already moved to the end
  (`Editor.RichTextEditor.ApplyStyle`).
- `\s` and `trim()` use the full ECMAScript white space and line terminator set, not only
  ASCII white space.

## Model

| member | source | states |
|---|---|---|
| Strings.LowerAscii | html.unity.richtext.js:28 | case folding under the `i` flag: letters map to lower-case letters, every other character to itself |
| Strings.Find | html.unity.richtext.js:183 | the result is an occurrence of the pattern at or after the start, and no occurrence lies before it; no result means there is no occurrence at all |
| Strings.TrimStart | html.unity.richtext.js:269 | the result is a suffix of the text; every removed character is white space; the result does not start with white space |
| Strings.TrimEnd | html.unity.richtext.js:269 | the result is a prefix of the text; every removed character is white space; the result does not end with white space |
| Strings.Split | html.unity.richtext.js:267 | at least one part, and no part contains the separator |
| Strings.JoinSplit | html.unity.richtext.js:267-277 | joining the parts of a split with the same separator gives the text back |
| Strings.SplitJoin | html.unity.richtext.js:267-277 | splitting a join of separator-free parts gives the parts back |
| Strings.SplitPartsIn | html.unity.richtext.js:267 | a character absent from the text is absent from every part |
| RegExpEscape.EscapeRegExp | html.unity.richtext.js:198-200 | the escaped text is at least as long as the input and at most twice as long |
| RegExpEscape.EscapeIsLiteral | html.unity.richtext.js:184-187 | the escaped pattern holds no operator and matches exactly the text it was built from |
| Rewrite.LiteralAt | html.unity.richtext.js:184 | a literal pattern matches at a position exactly when it is non-empty and occurs there, and the match spans it |
| Rewrite.MarkupTokenAt | html.unity.richtext.js:247 | a markup token starts with `<`, has one of the eight names after the optional `/`, ends at the first `>` after it, and is replaced by nothing |
| Rewrite.MarkupTokenAtIff | html.unity.richtext.js:247 | the markup rule matches at a position exactly when it holds `<`, a markup name follows the optional `/`, and a `>` comes later |
| Rewrite.NameLead | html.unity.richtext.js:247 | every one of the eight markup names starts with `c`, `b`, `i`, `s`, `l` or `e` |
| Rewrite.LastLineEnd | html.unity.richtext.js:248 | the trailing `\s*$` of a sentinel line stops at the last line end in reach |
| Rewrite.SentinelLineAt | html.unity.richtext.js:248 | a sentinel-line match is non-empty, stays in the text and is replaced by nothing |
| Rewrite.LinkPairAt | html.unity.richtext.js:278 | a link-pair match is non-empty and stays in the text |
| Rewrite.SentinelLineAtIff | html.unity.richtext.js:248 | the sentinel-line rule matches at a position exactly when it is a line start followed by optional white space, `$img:` and a character other than a line feed |
| Rewrite.SentinelLineEnd | html.unity.richtext.js:248 | a match covers the sentinel text up to its line feed, then only white space, and ends at the last line end within that white space, taking every line feed before that one |
| Rewrite.LineBreakAt | html.unity.richtext.js:279 | a match starts exactly at `\n` or at `\r\n`, and is replaced by `<br>` |
| Rewrite.SizeOpenAt | html.unity.richtext.js:283-286 | a size-token match is non-empty and stays in the text |
| Rewrite.ColorOpenAt | html.unity.richtext.js:288 | a colour-token match is non-empty and stays in the text |
| Rewrite.MatchAt | html.unity.richtext.js:247-251 | every match of every rule is non-empty and ends inside the text, so a global replace always advances |
| Rewrite.ReplaceFrom | html.unity.richtext.js:247-251 | `replace` with the `g` flag, scanning from a position: a match is replaced and the scan resumes at its end, elsewhere one character is copied; its properties are the lemmas below |
| Rewrite.ReplaceAll | html.unity.richtext.js:247-251 | the global replace of a whole text; stated through NoMatchIdentity, ReplaceNeverLonger, ReplaceAvoids and the literal lemmas |
| Rewrite.NoMatchIdentity | html.unity.richtext.js:184 | a global replace with no match from a position on copies the text from there |
| Rewrite.ReplaceNeverLonger | html.unity.richtext.js:247-251 | when no replacement is longer than its match, the result is no longer than the text |
| Rewrite.ReplaceAvoids | html.unity.richtext.js:279 | a character that no copied character equals and no replacement contains is absent from the result |
| Rewrite.LiteralShift | html.unity.richtext.js:184 | a literal replace inside a suffix does not depend on the text before it |
| Rewrite.SubstChar | html.unity.richtext.js:271 | substituting a character keeps a text without it unchanged, and adds only characters of the text or of the replacement |
| Rewrite.SubstCharAppend | html.unity.richtext.js:271 | character substitution distributes over concatenation |
| Rewrite.SingleCharReplace | html.unity.richtext.js:271-272 | a global replace of a one-character literal equals character-wise substitution |
| Rewrite.ChunkCopy | html.unity.richtext.js:249-251 | a literal replace copies a prefix in which the pattern starts nowhere |
| Rewrite.ChunkMatch | html.unity.richtext.js:249-251 | a literal replace rewrites a leading occurrence and continues after it |
| Rewrite.LiteralConcat | html.unity.richtext.js:184 | a literal replace distributes over a concatenation whose seam cannot hide an occurrence |
| Rewrite.LiteralToken | html.unity.richtext.js:184 | a literal replace turns its own pattern into its replacement |
| Rewrite.NoLeadIdentity | html.unity.richtext.js:278-289 | a rule whose fixed lead text is absent leaves the text unchanged |
| Rewrite.LiteralOnce | html.unity.richtext.js:280-289 | a single occurrence between texts without one is the only thing a literal replace changes |
| Rewrite.LineBreakLiteral | html.unity.richtext.js:279 | without a carriage return, `\r?\n` replaces exactly as the literal line feed does |
| Rewrite.DecodeAmpChars | html.unity.richtext.js:298 | decoding `&amp;` undoes the escape of `&` |
| Tags.IsColorValue | html.unity.richtext.js:16 | the colour validator: `#` and six hex digits, or a non-empty run of ASCII letters; ColorValidatorExamples shows its verdicts |
| Tags.IsSizeValue | html.unity.richtext.js:23 | the size validator: digits and an optional `%`; SizeValidatorExamples shows its verdicts |
| Tags.IsLinkValue | html.unity.richtext.js:28 | the link validator: an http, https or ftp scheme without case, a first host character outside white space, `/`, `$`, `.`, `?` and `#`, then one character other than a line terminator, then no white space |
| Tags.IsImageValue | html.unity.richtext.js:34 | the image validator: the same for http and https only; ImageValueIsLinkValue relates the two |
| Tags.Defaults | html.unity.richtext.js:12-36 | the default tag table; DefaultTable states each entry |
| Tags.Resolve | html.unity.richtext.js:171-180 | an unknown name fails with that name; a value the validator rejects fails with the name and value; otherwise the tokens are the entry's close and block flag and its opening token, filled with the argument when computed |
| Tags.DefaultTable | html.unity.richtext.js:12-36 | the six default tags, each with its tokens, block flag and validator |
| Tags.ImageValueIsLinkValue | html.unity.richtext.js:28-34 | every valid image URL is a valid link URL |
| Tags.ColorValidatorExamples | html.unity.richtext.js:16 | `notacolor`, `#EA1A1A` and `#ea1a1a` are accepted; `#12345` and `red1` are refused |
| Tags.SizeValidatorExamples | html.unity.richtext.js:23 | `12` and `50%` are accepted; `%` and `1.5` are refused |
| Tags.LinkValidatorExamples | html.unity.richtext.js:28 | the scheme is compared without case (`HTTPS://x.com` is accepted); a host part starting with `.` is refused |
| Tags.ImageValidatorExamples | html.unity.richtext.js:34 | an http image URL is accepted; an ftp URL is refused as an image but accepted as a link |
| Toggle.FindPair | html.unity.richtext.js:186-189 | the leftmost `open` and the nearest `close` after it; FindPairIsFirstMatch states that this is the regular expression's first match |
| Toggle.ToggleBlock | html.unity.richtext.js:182-185 | a block token that is present is removed everywhere and the text does not grow; an absent one is prefixed and the text grows by exactly its length |
| Toggle.ToggleInline | html.unity.richtext.js:186-190 | stripping a layer shortens the text by the lengths of `open` and `close`, wrapping lengthens it by the same; this is the length change that moves the selection end |
| Toggle.Process | html.unity.richtext.js:181-191 | the block or the inline toggle, by the tag's block flag; ToggleTwice states its round trip |
| Toggle.Relocate | html.unity.richtext.js:164-167 | a collapsed selection moves to the end of the text; ApplyStyle and CollapsedBoldExample state it |
| Toggle.FindPairIsFirstMatch | html.unity.richtext.js:187-189 | the pair found is a match of `open(.*?)close`: it starts at the leftmost possible `open` and its group ends at the nearest `close`; none is found exactly when no pair exists |
| Toggle.InlineStripAt | html.unity.richtext.js:187-189 | given the leftmost `open` that has a `close` after it, and the nearest such `close`, only that `open` and that `close` are removed, and the text between them is kept |
| Toggle.PairIsFound | html.unity.richtext.js:187 | the leftmost pair with its nearest `close` is the match the lazy pattern finds |
| Toggle.InlineWrapAt | html.unity.richtext.js:188-190 | when no `open` is followed by a `close` anywhere in the text, the text is wrapped in `open` and `close` |
| Toggle.UnwrapLeading | html.unity.richtext.js:187-189 | toggling `open + w` removes that `open` and the first `close` in `w` |
| Toggle.InlineRoundTrip | html.unity.richtext.js:187-194 | wrapping and toggling again restores the selection when the appended `close` is the first in `selected + close` |
| Toggle.StripsOneLayer | html.unity.richtext.js:187-189 | toggling a doubly wrapped text removes exactly one layer |
| Toggle.BlockRoundTrip | html.unity.richtext.js:182-185 | an absent block token is prefixed, and toggling again removes exactly that prefix |
| Toggle.ToggleTwice | html.unity.richtext.js:181-191 | under the round-trip conditions, processing twice gives the selection back |
| Toggle.Splice | html.unity.richtext.js:168-170 | the text before and after the selection is kept, and the new selection covers exactly the processed text; its start does not move |
| Toggle.SpliceRoundTrip | html.unity.richtext.js:192-194 | toggling twice over the returned selection restores the whole text and the original selection end |
| Toggle.CollapsedBoldExample | html.unity.richtext.js:164-167 | on `hello` with the cursor inside, bold inserts `<b></b>` at the end and selects up to after it |
| Toggle.OneLayerExample | html.unity.richtext.js:187-189 | bold on `<b><b>x</b></b>` gives `<b>x</b>` |
| Toggle.ImageBlockExample | html.unity.richtext.js:182-185 | the image sentinel line is prefixed to `pic`, and toggling again removes it |
| Clear.StripMarkup | html.unity.richtext.js:247 | the markup-token rewrite; TokenAt states what it removes, StripMarkupKeepsUnnamed and StripMarkupPlain what it keeps |
| Clear.DropSentinelLines | html.unity.richtext.js:248 | the sentinel-line rewrite; SentinelLineAtIff, SentinelLineEnd, DropSentinelBlanksLine, DropSentinelTakesBlankLines, DropSentinelTakesLineBefore and DropSentinelPlain state what it does |
| Clear.DecodeEntities | html.unity.richtext.js:249-251 | `&nbsp;`, then `&lt;`, then `&gt;` decoded in that order; the decode examples and CleanNotIdempotent show the order matters |
| Clear.Clean | html.unity.richtext.js:246-251 | the three steps in order; CleanNeverLonger, CleanKeepsPlainText and CleanSplice state it |
| Clear.CleanSplice | html.unity.richtext.js:245-258 | on a selection, the text before and after is kept, the selection covers the cleaned text, and it does not grow |
| Clear.CleanNeverLonger | html.unity.richtext.js:246-251 | clearing never lengthens the text |
| Clear.StripMarkupPlain | html.unity.richtext.js:247 | a text without `<` has no markup to strip |
| Clear.StripMarkupKeepsUnnamed | html.unity.richtext.js:247 | a text in which no `<` is followed, after an optional `/`, by a markup name is unchanged by step 1 |
| Clear.StripKeepsHtmlExample | html.unity.richtext.js:247 | other HTML tags survive: `<p>x</p>` is unchanged |
| Clear.StripKeepsLessThanExample | html.unity.richtext.js:247 | a `<` in running text survives: `a<3` is unchanged |
| Clear.DropSentinelPlain | html.unity.richtext.js:248 | a text without `$` has no sentinel line |
| Clear.LiteralAbsent | html.unity.richtext.js:249-251 | an entity whose `&` is absent is not decoded |
| Clear.CleanKeepsPlainText | html.unity.richtext.js:246-251 | a text without `<`, `&` or `$` is left exactly as it is |
| Clear.DropSentinelBlanksLine | html.unity.richtext.js:248 | a sentinel line between two lines is emptied and its line feed stays |
| Clear.DropSentinelTakesBlankLines | html.unity.richtext.js:248 | a blank line after a sentinel is taken with it: `$img:u\n\nb` becomes `\nb`, one line shorter |
| Clear.DropSentinelTakesLineBefore | html.unity.richtext.js:248 | the leading white space reaches back over line feeds: `\n$img:u` becomes the empty text |
| Clear.ClearImageExample | html.unity.richtext.js:246-251 | clearing an inserted image line `$img:http://x.com/a.png` followed by `pic` leaves a line feed and `pic` |
| Clear.TokenAt | html.unity.richtext.js:247 | a `<`, an optional `/`, a markup name and the next `>` form one token |
| Clear.StripSizeExample | html.unity.richtext.js:247 | `<size=50%>x</size>` loses both tokens |
| Clear.SizeMarkupExample | html.unity.richtext.js:246-251 | clearing `<size=50%>x</size>` gives `x` |
| Clear.StripBoldExample | html.unity.richtext.js:247 | `<b>` is stripped |
| Clear.DecodeLtExample | html.unity.richtext.js:250 | `&lt;b&gt;` has its `&lt;` decoded |
| Clear.DecodeGtExample | html.unity.richtext.js:251 | `<b&gt;` has its `&gt;` decoded |
| Clear.DecodeBracketsExample | html.unity.richtext.js:249-251 | decoding `&lt;b&gt;` gives `<b>` |
| Clear.CleanNotIdempotent | html.unity.richtext.js:246-251 | clearing `&lt;b&gt;` gives `<b>`, which a second clear removes |
| Output.EscapeSrc | html.unity.richtext.js:270-272 | `&` and then `<` escaped globally; EscapeSrcIsCharwise and UnescapeEscapeSrc state it |
| Output.RenderLine | html.unity.richtext.js:268-275 | a sentinel line becomes an `<img>` element of its cut, trimmed and escaped source; any other line is kept |
| Output.RenderImages | html.unity.richtext.js:266-277 | the lines rendered one by one and joined again; RenderImagesLines states it |
| Output.Stages | html.unity.richtext.js:278-289 | the rewrites of lines 278-289 in their order; RenderChain spells the order out |
| Output.Render | html.unity.richtext.js:266-289 | the image step, then the stages; RenderHasNoNewline, RenderPlain, BoldRender and RenderMixed state what it gives |
| Output.RenderLines | html.unity.richtext.js:268-276 | every line is rendered on its own, in order |
| Output.EscapeSrcIsCharwise | html.unity.richtext.js:270-272 | escaping `&` and then `<` globally is the character-wise escape |
| Output.EscapeSrcNoLt | html.unity.richtext.js:271-272 | an escaped source holds no `<`, and is unchanged when it held neither `&` nor `<` |
| Output.DecodeLtChars | html.unity.richtext.js:272 | decoding `&lt;` undoes the escape of `<` and keeps that of `&` |
| Output.UnescapeEscapeSrc | html.unity.richtext.js:270-272 | decoding `&lt;` and then `&amp;` gives the image source back |
| Output.RenderLineOneLine | html.unity.richtext.js:268-275 | a rendered line holds no line feed |
| Output.RenderImagesLines | html.unity.richtext.js:266-277 | the image step keeps the line structure: its result splits into the rendered input lines |
| Output.RenderImagesPlain | html.unity.richtext.js:266-277 | a text with no sentinel line goes through the image step unchanged |
| Output.RenderImagesNoDollar | html.unity.richtext.js:266-277 | a text without `$` goes through the image step unchanged |
| Output.TrimUnpadded | html.unity.richtext.js:269-270 | trimming removes leading white space from a text with no white space at either end |
| Output.IndentedSentinelKeepsColon | html.unity.richtext.js:269-270 | on a line indented by one space, the image source starts with the sentinel's colon |
| Output.IndentedCut | html.unity.richtext.js:269-270 | a line indented by one space is a sentinel line, and its cut and trimmed source is the colon and the URL |
| Output.LineBreakRemovesNewlines | html.unity.richtext.js:279 | after the line-break step no line feed is left |
| Output.NoNewlineIntroduced | html.unity.richtext.js:278-289 | no later rewrite puts a line feed back |
| Output.RenderHasNoNewline | html.unity.richtext.js:266-289 | the preview HTML holds no line feed |
| Output.RenderChain | html.unity.richtext.js:266-289 | rendering is the image step followed by the link, line-break, double-space, bold, italic, size and colour rewrites, in that order |
| Output.CrLfExample | html.unity.richtext.js:279 | a carriage return and line feed become one `<br>` |
| Output.BoldRender | html.unity.richtext.js:280-281 | a bold pair around a one-line text without `<`, `$` or a double space renders as a `strong` element around the same text |
| Output.RenderMixed | html.unity.richtext.js:266-289 | a line with a double space, a line feed, a bold pair and a hex colour pair renders to two non-breaking spaces, a `<br>`, a `strong` element and a colour span, for any words free of `<`, `$`, spaces and line ends |
| Output.RenderExample | html.unity.richtext.js:266-289 | `a  b`, a line feed, `<b>bold</b> <color=#FF0000>red</color>` renders to `a&nbsp;&nbsp;b<br><strong>bold</strong> <span style="color:#FF0000">red</span>` |
| Output.ApplyAllIdentity | html.unity.richtext.js:278-289 | a chain of rules with no match leaves the text unchanged |
| Output.PlainNoMatch | html.unity.richtext.js:278-289 | on one-line text without `<` or a double space, no rule that needs markup, a line feed or a double space matches |
| Output.RenderPlain | html.unity.richtext.js:266-289 | one-line text without `<`, `$` or a double space is shown exactly as typed |
| Output.ColorSpanIff | html.unity.richtext.js:288 | a colour token becomes a colour span exactly when its value passes the colour validator of line 16 (`Tags.IsColorValue`): the render rule and the validator agree |
| Output.ColorOnce | html.unity.richtext.js:288 | a hex colour token between texts without a colour lead is the one thing the colour stage changes |
| Output.SizeSpanValid | html.unity.richtext.js:283-286 | every size token whose value passes the size validator `Tags.IsSizeValue` becomes a font-size span: the digits in pixels, or the percent formatting of them |
| Output.LinkPairAnchor | html.unity.richtext.js:278 | a link pair whose URL has no `>` and whose text is non-empty without `<` becomes an anchor to that URL around that text |
| Sanitize.DropUnsafe | html.unity.richtext.js:297 | the first replace, removing characters outside the URL set; DropUnsafeIsFilter states it |
| Sanitize.SanitizeUrl | html.unity.richtext.js:295-299 | that removal followed by escaping `&`; SanitizeIsEscapedFilter and SanitizeRoundTrip state it |
| Sanitize.UrlChars | html.unity.richtext.js:297 | the kept characters are URL characters and never outnumber the input |
| Sanitize.DropUnsafeIsFilter | html.unity.richtext.js:297 | the first replace keeps exactly the URL characters, in order |
| Sanitize.SanitizeIsEscapedFilter | html.unity.richtext.js:296-298 | sanitizing is that filter followed by escaping `&` |
| Sanitize.SanitizeOnlyUrlChars | html.unity.richtext.js:296-298 | a sanitized URL holds URL characters only |
| Sanitize.SanitizeRoundTrip | html.unity.richtext.js:296-298 | decoding `&amp;` in a sanitized URL gives the filtered URL |
| Sanitize.SanitizeKeepsCleanUrl | html.unity.richtext.js:296-298 | a URL of URL characters without `&` comes out unchanged |
| Editor.OverlayOptions | html.unity.richtext.js:38-44 | each option replaces the entry of the same name, and every other default is kept |
| Editor.RichTextEditor.constructor | html.unity.richtext.js:12-44 | the tag table is the defaults overlaid with the options |
| Editor.RichTextEditor.SetValue | html.unity.richtext.js:252-254 | assigning a different value puts the cursor at its end; the same value keeps the selection |
| Editor.RichTextEditor.SelectTextRange | html.unity.richtext.js:202-205 | the selection is set, clamped to the text |
| Editor.RichTextEditor.UpdateOutput | html.unity.richtext.js:263-292 | the preview shows the rendering of the current text |
| Editor.RichTextEditor.OnInput | html.unity.richtext.js:47-49 | an edit by the user re-renders the preview |
| Editor.RichTextEditor.ApplyStyle | html.unity.richtext.js:160-196 | a collapsed selection moves to the end first. A lookup or validation failure returns the error and changes nothing else. Otherwise the text is the splice of the processed selection, the selection covers the processed text, and the preview is re-rendered |
| Editor.RichTextEditor.ClearAllFormat | html.unity.richtext.js:242-261 | with a collapsed selection the whole text is cleaned; otherwise the selection is cleaned in place and then covers the cleaned text; the preview is re-rendered |

## Left out

- The DOM shell is not modelled: element lookup, toolbar, CSS injection, buttons and
  event wiring (lines 3-10, 47-158). Only the effect of the `input` event is kept
  (`OnInput`).
- The prompt wrappers are not modelled: `applyColor`, `applyFontSize`, `applyLink`,
  `applyImage`, `applyBold`, `applyItalic` and `create` (lines 207-240, 301-303). They
  collect an argument from the user and call `applyStyle`. Their `null`/empty
  short-circuits and the `alert` are host interaction. A rejected argument is the
  `Fail` outcome of `ApplyStyle`.
- The argument is always a string. The `undefined` that bold and italic pass is not
  modelled; no validator ever sees it.
- Percent sizes are a parameter, `percentPx`. It stands for `parseFloat(size)/5` printed as
  a JavaScript number (line 284), which is floating point.
- `focus` is not modelled.
- Textarea behaviour is modelled where the core depends on it:
  - assigning a different value puts the cursor at the end;
  - `setSelectionRange` clamps its bounds.

  Both follow the HTML rules, not code in this repository.
- Editor.RichTextEditor.constructor: the preview starts out empty. The component does not
  render until the first edit, and a host-provided preview element's initial content is
  not modelled.
- Option entries are well-formed tag definitions. An option lacking `open` or `close`
  would make `applyStyle` insert `undefined`; this is not modelled.
- Output.LinkPairAnchor: only one direction. A URL containing `>` (the link validator
  allows one) splits the link differently; the model captures this in `LinkPairAt` but
  states no lemma about it.
- `RegExp` is not modelled as a general engine. Each expression the component uses is
  written out by hand, with these limits:
  - the lookup of the regex engine's case-insensitive canonicalisation is reduced to ASCII
    letters;
  - nothing beyond these expressions is covered.
- Output.IndentedSentinelKeepsColon: the image source of an indented sentinel line is cut
  at index 5 of the untrimmed line, so with one space of indentation the colon of `$img:`
  stays in the source. The model keeps this as written and shows it for one space of
  indentation; no other cut is modelled.
- Text is a sequence of Unicode scalar values, while JavaScript `length`, `substring` and
  the textarea's `selectionStart`/`selectionEnd` count UTF-16 code units (lines 161-170,
  193, 243-257). For text with characters outside the Basic Multilingual Plane, such as
  emoji, the model's offsets and length differences are other numbers than the
  component's. A selection that splits a surrogate pair, and a lone surrogate, cannot be
  represented.
- The image source is escaped only for `&` and `<`, as in the component. Quotes in a URL
  are not escaped, and no HTML hardening is modelled.
