/** The toggle engine behind `applyStyle`: it decides for the selected text whether to
    insert or strip a tag and splices the result back into the whole text. */
module Toggle {
  import opened Wrappers
  import opened Strings
  import opened Rewrite
  import opened Tags

  /** `open` at `i` and, no earlier than where it ends, `close` at `j`: a match of the
      pattern `open(.*?)close` with the `s` flag, whose group is `s[i + |open|..j]`. */
  predicate PairAt(s: string, open: string, close: string, i: nat, j: nat) {
    OccursAt(s, open, i) && i + |open| <= j && OccursAt(s, close, j)
  }

  /** The match that `replace` without the `g` flag rewrites: the first `open`, and the
      nearest `close` after it. */
  function FindPair(s: string, open: string, close: string): Option<(nat, nat)> {
    match Find(s, open, 0)
    case None => None
    case Some(i) =>
      match Find(s, close, i + |open|)
      case None => None
      case Some(j) => Some((i, j))
  }

  /** `FindPair` is the match a regular-expression engine finds for `open(.*?)close`: it
      exists exactly when some pair does, it starts at the leftmost position where the
      pattern matches, and its lazy group ends at the nearest `close`. */
  lemma FindPairIsFirstMatch(s: string, open: string, close: string)
    ensures var r := FindPair(s, open, close);
      && (r.Some? ==> PairAt(s, open, close, r.value.0, r.value.1))
      && (r.Some? ==> forall i, j :: PairAt(s, open, close, i, j) ==> r.value.0 <= i)
      && (r.Some? ==> forall j :: PairAt(s, open, close, r.value.0, j) ==> r.value.1 <= j)
      && (r.None? <==> forall i, j :: !PairAt(s, open, close, i, j))
  {
    match Find(s, open, 0)
    case None =>
    case Some(i) =>
      match Find(s, close, i + |open|)
      case None =>
      case Some(j) => assert PairAt(s, open, close, i, j);
  }

  /** `s.replace(new RegExp(escapeRegExp(pat), 'g'), '')`. */
  function RemoveAll(s: string, pat: string): string {
    ReplaceAll(Literal(pat, []), s)
  }

  /** A block tag: every occurrence of `open` is removed if there is one, else it is prefixed. */
  function ToggleBlock(open: string, selected: string): (r: string)
    ensures Contains(selected, open) ==> |r| <= |selected|
    ensures !Contains(selected, open) ==> |r| == |open| + |selected|
  {
    if Contains(selected, open) then
      assert forall p :: 0 <= p < |selected| ==> ShrinksAt(Literal(open, []), selected, p);
      ReplaceNeverLonger(Literal(open, []), selected, 0);
      RemoveAll(selected, open)
    else open + selected
  }

  /** An inline tag: the leftmost layer is stripped if there is one, else the text is wrapped. */
  function ToggleInline(open: string, close: string, selected: string): (r: string)
    ensures FindPair(selected, open, close).Some? ==> |r| + |open| + |close| == |selected|
    ensures FindPair(selected, open, close).None? ==> |r| == |open| + |selected| + |close|
  {
    var pair := FindPair(selected, open, close);
    if pair.Some? then
      FindPairIsFirstMatch(selected, open, close);
      var i, j := pair.value.0, pair.value.1;
      selected[..i] + selected[i + |open|..j] + selected[j + |close|..]
    else open + selected + close
  }

  /** `processedText` for the resolved tag. */
  function Process(tag: Resolved, selected: string): string {
    if tag.isBlock then ToggleBlock(tag.open, selected) else ToggleInline(tag.open, tag.close, selected)
  }

  /** A collapsed selection is moved to the end of the text before anything else happens. */
  function Relocate(text: string, start: nat, end: nat): (nat, nat) {
    if start == end then (|text|, |text|) else (start, end)
  }

  /** The new text and the new end of the selection; the start does not move. */
  datatype Spliced = Spliced(text: string, selEnd: nat)

  /** `before + processedText + after`, with the selection end moved by the length change. */
  function Splice(text: string, start: nat, end: nat, tag: Resolved): (r: Spliced)
    requires start <= end <= |text|
    ensures start <= r.selEnd <= |r.text|
    ensures r.text[..start] == text[..start]
    ensures r.text[start..r.selEnd] == Process(tag, text[start..end])
    ensures r.text[r.selEnd..] == text[end..]
  {
    var selected := text[start..end];
    var processed := Process(tag, selected);
    var lengthDiff := |processed| - |selected|;
    var r := Spliced(text[..start] + processed + text[end..], end + lengthDiff);
    assert r.text[..start] == text[..start];
    assert r.text[start..r.selEnd] == processed;
    r
  }

  /** With a pair whose `open` is the leftmost one and whose `close` is the nearest after
      it, the inline toggle removes exactly that `open` and that `close`. */
  lemma InlineStripAt(open: string, close: string, s: string, i: nat, j: nat)
    requires PairAt(s, open, close, i, j)
    requires forall i', j' :: PairAt(s, open, close, i', j') ==> i <= i'
    requires forall j' :: PairAt(s, open, close, i, j') ==> j <= j'
    ensures i + |open| <= j && j + |close| <= |s|
    ensures ToggleInline(open, close, s) == s[..i] + s[i + |open|..j] + s[j + |close|..]
  {
    PairIsFound(open, close, s, i, j);
  }

  /** The leftmost pair with its nearest `close` is the one `FindPair` returns. */
  lemma PairIsFound(open: string, close: string, s: string, i: nat, j: nat)
    requires PairAt(s, open, close, i, j)
    requires forall i', j' :: PairAt(s, open, close, i', j') ==> i <= i'
    requires forall j' :: PairAt(s, open, close, i, j') ==> j <= j'
    ensures FindPair(s, open, close) == Some((i, j))
  {
    FindPairIsFirstMatch(s, open, close);
    var r := FindPair(s, open, close);
    assert r.Some?;
    assert PairAt(s, open, close, r.value.0, r.value.1);
    assert r.value.0 == i;
    assert PairAt(s, open, close, i, r.value.1);
  }

  /** In `open + w` the pair starts at 0 and closes at the first `close` of `w`. */
  lemma LeadingPair(open: string, close: string, w: string, j: nat)
    requires Find(w, close, 0) == Some(j)
    ensures FindPair(open + w, open, close) == Some((0, |open| + j))
  {
    var s := open + w;
    assert s[0..|open|] == open;
    assert Find(s, open, 0) == Some(0);
    FindShift(open, w, close, 0);
  }

  lemma SlicesAfterPrefix(open: string, close: string, w: string, j: nat)
    requires j + |close| <= |w|
    ensures (open + w)[..0] == []
    ensures (open + w)[|open|..|open| + j] == w[..j]
    ensures (open + w)[|open| + j + |close|..] == w[j + |close|..]
  {
  }

  /** Toggling an inline tag on `open + w` strips that `open` and the first `close` in `w`. */
  lemma UnwrapLeading(open: string, close: string, w: string, j: nat)
    requires Find(w, close, 0) == Some(j)
    ensures ToggleInline(open, close, open + w) == w[..j] + w[j + |close|..]
  {
    var s := open + w;
    LeadingPair(open, close, w, j);
    FindPairIsFirstMatch(s, open, close);
    InlineStripAt(open, close, s, 0, |open| + j);
    SlicesAfterPrefix(open, close, w, j);
    var a, b, c := s[..0], s[|open|..|open| + j], s[|open| + j + |close|..];
    assert ToggleInline(open, close, s) == a + b + c;
    assert a + b == w[..j];
  }

  /** With no `open` followed by a `close` anywhere, the inline toggle wraps. */
  lemma InlineWrapAt(open: string, close: string, s: string)
    requires forall i, j :: !PairAt(s, open, close, i, j)
    ensures ToggleInline(open, close, s) == open + s + close
  {
    FindPairIsFirstMatch(s, open, close);
  }

  /** Wrapping and then toggling again restores the selection, provided the first `close`
      in `selected + close` is the one the wrap appended. */
  lemma {:induction false} InlineRoundTrip(open: string, close: string, selected: string)
    requires FindPair(selected, open, close).None?
    requires Find(selected + close, close, 0) == Some(|selected|)
    ensures ToggleInline(open, close, selected) == open + selected + close
    ensures ToggleInline(open, close, open + selected + close) == selected
  {
    FindPairIsFirstMatch(selected, open, close);
    InlineWrapAt(open, close, selected);
    var w := selected + close;
    UnwrapLeading(open, close, w, |selected|);
    assert open + selected + close == open + w;
    assert w[..|selected|] == selected;
    assert w[|selected| + |close|..] == [];
  }

  /** Toggling a doubly wrapped text removes one layer only. */
  lemma {:induction false} StripsOneLayer(open: string, close: string, x: string)
    requires Find(open + x + close, close, 0) == Some(|open| + |x|)
    ensures ToggleInline(open, close, open + open + x + close + close) == open + x + close
  {
    var w := open + x + close + close;
    FindExtend(open + x + close, close, close, 0, |open| + |x|);
    UnwrapLeading(open, close, w, |open| + |x|);
    DoubleWrapSlices(open, close, x);
  }

  lemma DoubleWrapSlices(open: string, close: string, x: string)
    ensures var w := open + x + close + close;
      && open + open + x + close + close == open + w
      && w[..|open| + |x|] == open + x
      && w[|open| + |x| + |close|..] == close
  {
  }

  /** A block tag is prefixed when absent, and toggling it again removes exactly that prefix. */
  lemma BlockRoundTrip(open: string, selected: string)
    requires !Contains(selected, open)
    ensures ToggleBlock(open, selected) == open + selected
    ensures ToggleBlock(open, open + selected) == selected
  {
    var s := open + selected;
    assert open != [] by { assert OccursAt(selected, [], 0); }
    assert OccursAt(s, open, 0);
    assert Contains(s, open);
    assert MatchAt(Literal(open, []), s, 0) == Some(Match(|open|, []));
    LiteralShift(open, [], open, selected, 0);
    NoMatchIdentity(Literal(open, []), selected, 0);
    assert selected[0..] == selected;
  }

  /** Toggling the same tag twice gives the selection back: for a block tag when the
      selection does not already hold it, for an inline tag when no pair is present and
      the first `close` of `selected + close` is the appended one. */
  lemma ToggleTwice(tag: Resolved, selected: string)
    requires tag.isBlock ==> !Contains(selected, tag.open)
    requires !tag.isBlock ==>
      FindPair(selected, tag.open, tag.close).None? && Find(selected + tag.close, tag.close, 0) == Some(|selected|)
    ensures Process(tag, Process(tag, selected)) == selected
  {
    if tag.isBlock {
      BlockRoundTrip(tag.open, selected);
    } else {
      InlineRoundTrip(tag.open, tag.close, selected);
    }
  }

  /** A toggle whose second application undoes the first leaves the whole text as it was,
      and the selection it returns is the one the second toggle works on. */
  lemma SpliceRoundTrip(text: string, start: nat, end: nat, tag: Resolved)
    requires start <= end <= |text|
    requires Process(tag, Process(tag, text[start..end])) == text[start..end]
    ensures var once := Splice(text, start, end, tag);
            Splice(once.text, start, once.selEnd, tag) == Spliced(text, end)
  {
    var once := Splice(text, start, end, tag);
    var twice := Splice(once.text, start, once.selEnd, tag);
    assert once.text[start..once.selEnd] == Process(tag, text[start..end]);
    assert twice.text == text[..start] + text[start..end] + text[end..];
    assert text == text[..start] + text[start..end] + text[end..];
  }

  /** A collapsed selection in "hello" wraps an empty bold pair at the end of the text. */
  lemma CollapsedBoldExample()
    ensures Relocate("hello", 2, 2) == (5, 5)
    ensures Splice("hello", 5, 5, Resolved("<b>", "</b>", false)) == Spliced("hello<b></b>", 12)
  {
    var tag := Resolved("<b>", "</b>", false);
    assert FindPair([], "<b>", "</b>").None? by { assert Find([], "<b>", 0).None?; }
    assert Process(tag, []) == "<b></b>";
  }

  /** Toggling bold on a doubly bold text leaves one bold layer. */
  lemma OneLayerExample()
    ensures Process(Resolved("<b>", "</b>", false), "<b><b>x</b></b>") == "<b>x</b>"
  {
    assert ToggleInline("<b>", "</b>", "<b><b>x</b></b>") == "<b>x</b>" by {
      BoldCloseAt4();
      assert "<b>" + "x" + "</b>" == "<b>x</b>";
      StripsOneLayer("<b>", "</b>", "x");
      DoubleBoldText();
    }
  }

  /** The first `</b>` of `<b>x</b>` is at index 4. */
  lemma BoldCloseAt4()
    ensures Find("<b>" + "x" + "</b>", "</b>", 0) == Some(4)
  {
    var inner := "<b>x</b>";
    MissByChar(inner, "</b>", 0, 1);
    MissByChar(inner, "</b>", 1, 0);
    MissByChar(inner, "</b>", 2, 0);
    MissByChar(inner, "</b>", 3, 0);
    OccursByChars(inner, "</b>", 4);
    FindIs(inner, "</b>", 0, 4);
    assert "<b>" + "x" + "</b>" == inner;
  }

  lemma DoubleBoldText()
    ensures "<b>" + "<b>" + "x" + "</b>" + "</b>" == "<b><b>x</b></b>"
  {
  }

  /** The image sentinel is prefixed to "pic", and toggling the result removes it again. */
  lemma ImageBlockExample()
    ensures var tag := Resolved("$img:http://x.com/a.png\n", "", true);
      && Process(tag, "pic") == "$img:http://x.com/a.png\npic"
      && Process(tag, "$img:http://x.com/a.png\npic") == "pic"
  {
    var open := "$img:http://x.com/a.png\n";
    assert Find("pic", open, 0).None?;
    BlockRoundTrip(open, "pic");
    assert open + "pic" == "$img:http://x.com/a.png\npic";
  }
}
