/** The editor object: the text and selection of its textarea, the HTML of its preview,
    and its tag table. Toolbar actions update the text and selection in place and
    re-render the preview. */
module Editor {
  import opened Wrappers
  import opened Tags
  import opened Toggle
  import opened Clear
  import opened Output

  /** The entries of `options` whose keys are in `keys`. */
  ghost function Restrict(options: map<string, TagDef>, keys: set<string>): map<string, TagDef>
    requires keys <= options.Keys
  {
    map k | k in keys :: options[k]
  }

  /** Putting one more entry of `options` over the table. */
  lemma OverlayStep(base: map<string, TagDef>, options: map<string, TagDef>, done: set<string>, key: string)
    requires done <= options.Keys && key in options
    ensures (base + Restrict(options, done))[key := options[key]] == base + Restrict(options, done + {key})
  {
  }

  /** The loop over the own keys of `options`, each assigned over the entry of the same
      name; the order of the keys does not matter. */
  method OverlayOptions(base: map<string, TagDef>, options: map<string, TagDef>)
    returns (config: map<string, TagDef>)
    ensures config == base + options
  {
    config := base;
    var pending := options.Keys;
    ghost var done: set<string> := {};
    while pending != {}
      invariant pending <= options.Keys && done == options.Keys - pending
      invariant config == base + Restrict(options, done)
      decreases |pending|
    {
      var key :| key in pending;
      OverlayStep(base, options, done, key);
      config := config[key := options[key]];
      pending := pending - {key};
      done := done + {key};
    }
    assert done == options.Keys;
    assert Restrict(options, done) == options;
  }

  class RichTextEditor {
    /** `textarea.value`. */
    var text: string
    /** `textarea.selectionStart` and `textarea.selectionEnd`. */
    var selStart: nat
    var selEnd: nat
    /** `preview.innerHTML`. */
    var preview: string
    /** `TAG_CONFIG`. */
    var tags: map<string, TagDef>
    /** The printing of `parseFloat(size)/5` for percent sizes (floating point). */
    const percentPx: string -> string

    /** A textarea's selection always lies within its value. */
    ghost predicate Valid()
      reads this
    {
      selStart <= selEnd <= |text|
    }

    /** The defaults, with every entry of `options` put over the entry of the same name.
        The textarea and a preview element come from the host. */
    constructor (value: string, start: nat, end: nat, options: map<string, TagDef>,
                 percentPx: string -> string)
      requires start <= end <= |value|
      ensures Valid()
      ensures text == value && selStart == start && selEnd == end && preview == []
      ensures tags == Defaults() + options
      ensures this.percentPx == percentPx
    {
      var config := OverlayOptions(Defaults(), options);
      text, selStart, selEnd, preview := value, start, end, [];
      this.percentPx := percentPx;
      tags := config;
    }

    /** Assigning `textarea.value`: a different value puts the cursor at its end. */
    method SetValue(v: string)
      modifies this`text, this`selStart, this`selEnd
      ensures Valid() || (v == old(text) && old(!Valid()))
      ensures text == v
      ensures v != old(text) ==> selStart == selEnd == |v|
      ensures v == old(text) ==> selStart == old(selStart) && selEnd == old(selEnd)
    {
      if v != text {
        text := v;
        selStart, selEnd := |v|, |v|;
      }
    }

    /** `setSelectionRange`: both ends are clamped to the value, and a start past the
        end is moved to the end. */
    method SelectTextRange(start: nat, end: nat)
      modifies this`selStart, this`selEnd
      ensures Valid()
      ensures selEnd == if end <= |text| then end else |text|
      ensures selStart == if start <= selEnd then start else selEnd
    {
      selEnd := if end <= |text| then end else |text|;
      selStart := if start <= selEnd then start else selEnd;
    }

    /** `updateOutput`: the preview shows the rendering of the current text. */
    method UpdateOutput()
      modifies this`preview
      ensures preview == Render(text, percentPx)
    {
      preview := Render(text, percentPx);
    }

    /** The `input` event: the user has changed the text and selection, and the preview
        is refreshed. */
    method OnInput(value: string, start: nat, end: nat)
      requires start <= end <= |value|
      modifies this`text, this`selStart, this`selEnd, this`preview
      ensures Valid()
      ensures text == value && selStart == start && selEnd == end
      ensures preview == Render(value, percentPx)
    {
      text, selStart, selEnd := value, start, end;
      UpdateOutput();
    }

    /** `applyStyle`: toggles tag `styleType` with argument `value` on the selection. A
        collapsed selection first moves to the end of the text, even when the tag is then
        rejected; a rejected tag changes nothing else. */
    method ApplyStyle(styleType: string, value: string) returns (outcome: Outcome<Error>)
      requires Valid()
      modifies this`text, this`selStart, this`selEnd, this`preview
      ensures Valid()
      ensures var sel := Relocate(old(text), old(selStart), old(selEnd));
        match Resolve(tags, styleType, value)
        case Failure(err) =>
          && outcome == Fail(err)
          && text == old(text) && preview == old(preview)
          && selStart == sel.0 && selEnd == sel.1
        case Success(tag) =>
          var r := Splice(old(text), sel.0, sel.1, tag);
          && outcome == Pass
          && text == r.text && selStart == sel.0 && selEnd == r.selEnd
          && preview == Render(r.text, percentPx)
    {
      var fullText := text;
      var newStart, newEnd := selStart, selEnd;
      if newStart == newEnd {
        newStart, newEnd := |fullText|, |fullText|;
        SelectTextRange(newStart, newEnd);
      }
      match Resolve(tags, styleType, value)
      case Failure(err) =>
        outcome := Fail(err);
      case Success(tag) =>
        var r := Splice(fullText, newStart, newEnd, tag);
        SetValue(r.text);
        SelectTextRange(newStart, r.selEnd);
        UpdateOutput();
        outcome := Pass;
    }

    /** `clearAllFormat`: cleans the whole text when the selection is collapsed, otherwise
        the selection, which then covers the cleaned text. */
    method ClearAllFormat()
      requires Valid()
      modifies this`text, this`selStart, this`selEnd, this`preview
      ensures Valid()
      ensures old(selStart) == old(selEnd) ==>
        && text == Clean(old(text))
        && (text != old(text) ==> selStart == selEnd == |text|)
        && (text == old(text) ==> selStart == old(selStart) && selEnd == old(selEnd))
      ensures old(selStart) < old(selEnd) ==>
        var r := CleanSplice(old(text), old(selStart), old(selEnd));
        text == r.text && selStart == old(selStart) && selEnd == r.selEnd
      ensures preview == Render(text, percentPx)
    {
      var start, end, fullText := selStart, selEnd, text;
      if start == end {
        SetValue(Clean(fullText));
      } else {
        var r := CleanSplice(fullText, start, end);
        SetValue(r.text);
        SelectTextRange(start, r.selEnd);
      }
      UpdateOutput();
    }
  }
}
