/** The tag registry: default tag definitions, their argument validators, the overlay
    of caller options, and the resolution of a tag name and argument into tokens. */
module Tags {
  import opened Wrappers
  import opened Strings

  /** An opening token: a fixed string, or a template filled with the argument. */
  datatype Template = Fixed(text: string) | Computed(fill: string -> string)

  /** One entry of the registry; a missing `isBlock` or `validator` reads as false / absent. */
  datatype TagDef = TagDef(open: Template, close: string, isBlock: bool, validator: Option<string -> bool>)

  /** The tokens for one toggle, after the argument has been filled in. */
  datatype Resolved = Resolved(open: string, close: string, isBlock: bool)

  datatype Error = UnknownTag(name: string) | InvalidArgument(name: string, value: string)

  /** `#` and six hex digits of either case. */
  predicate IsHexColor(v: string) {
    |v| == 7 && v[0] == '#' && forall i :: 1 <= i < 7 ==> IsHexDigit(v[i])
  }

  /** A non-empty run of ASCII letters. */
  predicate IsColorName(v: string) {
    |v| > 0 && forall i :: 0 <= i < |v| ==> IsAsciiLetter(v[i])
  }

  /** `/^(#[0-9A-F]{6}|[a-zA-Z]+)$/i`: a hex colour or a name. */
  predicate IsColorValue(v: string) { IsHexColor(v) || IsColorName(v) }

  /** `/^\d+%?$/`: one or more digits, then an optional `%`. */
  predicate IsSizeValue(v: string) {
    var n := if v != [] && v[|v| - 1] == '%' then |v| - 1 else |v|;
    n > 0 && forall i :: 0 <= i < n ==> IsDigit(v[i])
  }

  /** `v` starts with `scheme`, letters compared without case. */
  predicate HasScheme(v: string, scheme: string) {
    |scheme| <= |v| && forall i :: 0 <= i < |scheme| ==> LowerAscii(v[i]) == scheme[i]
  }

  /** `[^\s/$.?#].[^\s]*`: the part of a URL after `://`. */
  predicate IsUrlRest(t: string) {
    |t| >= 2 && !IsSpace(t[0]) && t[0] !in "/$.?#" && !IsLineTerminator(t[1])
    && forall i :: 2 <= i < |t| ==> !IsSpace(t[i])
  }

  predicate IsUrlWithScheme(v: string, scheme: string) {
    HasScheme(v, scheme) && IsUrlRest(v[|scheme|..])
  }

  /** `/^(https?|ftp):\/\/[^\s/$.?#].[^\s]*$/i`. */
  predicate IsLinkValue(v: string) {
    IsUrlWithScheme(v, "http://") || IsUrlWithScheme(v, "https://") || IsUrlWithScheme(v, "ftp://")
  }

  /** `/^(https?):\/\/[^\s/$.?#].[^\s]*$/i`. */
  predicate IsImageValue(v: string) {
    IsUrlWithScheme(v, "http://") || IsUrlWithScheme(v, "https://")
  }

  /** The built-in `TAG_CONFIG`. */
  function Defaults(): map<string, TagDef> {
    map[
      "color" := TagDef(Computed(v => "<color=" + v + ">"), "</color>", false, Some(IsColorValue)),
      "bold" := TagDef(Fixed("<b>"), "</b>", false, None),
      "italic" := TagDef(Fixed("<i>"), "</i>", false, None),
      "size" := TagDef(Computed(v => "<size=" + v + ">"), "</size>", false, Some(IsSizeValue)),
      "link" := TagDef(Computed(v => "<link=" + v + ">"), "</link>", false, Some(IsLinkValue)),
      "img" := TagDef(Computed(v => "$img:" + v + "\n"), "", true, Some(IsImageValue))
    ]
  }

  /** Looks the tag up, runs its validator on the argument, fills in the opening token. */
  function Resolve(tags: map<string, TagDef>, name: string, value: string): (r: Result<Resolved, Error>)
    ensures name !in tags ==> r == Failure(UnknownTag(name))
    ensures name in tags ==>
      var def := tags[name];
      if def.validator.Some? && !def.validator.value(value) then r == Failure(InvalidArgument(name, value))
      else r.Success? && r.value.close == def.close && r.value.isBlock == def.isBlock
           && r.value.open == (match def.open case Fixed(t) => t case Computed(f) => f(value))
  {
    if name !in tags then Failure(UnknownTag(name))
    else
      var def := tags[name];
      if def.validator.Some? && !def.validator.value(value) then Failure(InvalidArgument(name, value))
      else
        var open := match def.open case Fixed(t) => t case Computed(f) => f(value);
        Success(Resolved(open, def.close, def.isBlock))
  }

  /** The default table: each tag's tokens, kind and validator. */
  lemma DefaultTable(v: string)
    ensures Resolve(Defaults(), "color", v) ==
      if IsColorValue(v) then Success(Resolved("<color=" + v + ">", "</color>", false))
      else Failure(InvalidArgument("color", v))
    ensures Resolve(Defaults(), "bold", v) == Success(Resolved("<b>", "</b>", false))
    ensures Resolve(Defaults(), "italic", v) == Success(Resolved("<i>", "</i>", false))
    ensures Resolve(Defaults(), "size", v) ==
      if IsSizeValue(v) then Success(Resolved("<size=" + v + ">", "</size>", false))
      else Failure(InvalidArgument("size", v))
    ensures Resolve(Defaults(), "link", v) ==
      if IsLinkValue(v) then Success(Resolved("<link=" + v + ">", "</link>", false))
      else Failure(InvalidArgument("link", v))
    ensures Resolve(Defaults(), "img", v) ==
      if IsImageValue(v) then Success(Resolved("$img:" + v + "\n", "", true))
      else Failure(InvalidArgument("img", v))
  {
  }

  /** Every image URL is also a valid link URL. */
  lemma ImageValueIsLinkValue(v: string)
    requires IsImageValue(v)
    ensures IsLinkValue(v)
  {
  }

  /** Any run of letters passes the colour check, and a short hex code does not. */
  lemma ColorValidatorExamples()
    ensures IsColorValue("notacolor") && IsColorValue("#EA1A1A") && IsColorValue("#ea1a1a")
    ensures !IsColorValue("#12345") && !IsColorValue("red1")
  {
    assert !IsAsciiLetter("red1"[3]);
    assert !IsAsciiLetter("#12345"[0]);
  }

  /** Digits with an optional trailing percent sign, and nothing else. */
  lemma SizeValidatorExamples()
    ensures IsSizeValue("12") && IsSizeValue("50%") && !IsSizeValue("%") && !IsSizeValue("1.5")
  {
    assert !IsDigit("1.5"[1]);
  }

  /** The scheme is compared without case; the host part may not start with a dot. */
  lemma LinkValidatorExamples()
    ensures IsLinkValue("HTTPS://x.com") && !IsLinkValue("http://.x")
  {
    var h := "HTTPS://x.com";
    assert HasScheme(h, "https://") by {
      assert forall i :: 0 <= i < 8 ==> LowerAscii(h[i]) == "https://"[i];
    }
    assert IsUrlRest(h[8..]);
    var d := "http://.x";
    assert !HasScheme(d, "https://") by { assert LowerAscii(d[4]) != 's'; }
    assert !HasScheme(d, "ftp://") by { assert LowerAscii(d[0]) != 'f'; }
    assert d[7..] == ".x";
  }

  /** An image URL needs http or https; ftp is a link scheme only. */
  lemma ImageValidatorExamples()
    ensures IsImageValue("http://x.com/a.png") && !IsImageValue("ftp://x.com/a.png")
    ensures IsLinkValue("ftp://x.com/a.png")
  {
    var u := "http://x.com/a.png";
    assert HasScheme(u, "http://") by {
      assert forall i :: 0 <= i < 7 ==> LowerAscii(u[i]) == "http://"[i];
    }
    assert IsUrlRest(u[7..]);
    var f := "ftp://x.com/a.png";
    assert !HasScheme(f, "http://") by { assert LowerAscii(f[0]) != 'h'; }
    assert !HasScheme(f, "https://") by { assert LowerAscii(f[0]) != 'h'; }
    assert HasScheme(f, "ftp://") by {
      assert forall i :: 0 <= i < 6 ==> LowerAscii(f[i]) == "ftp://"[i];
    }
    assert IsUrlRest(f[6..]);
  }
}
