/** Character classes and literal string search, as JavaScript's string and
    regular-expression primitives see them. */
module Strings {
  import opened Wrappers

  /** A LineTerminator of ECMAScript: what `.` refuses and `$` (multiline) stops before. */
  predicate IsLineTerminator(c: char) {
    c == '\n' || c == '\r' || c == '\U{2028}' || c == '\U{2029}'
  }

  /** ECMAScript WhiteSpace or LineTerminator: what `\s` matches and `trim` removes. */
  predicate IsSpace(c: char) {
    IsLineTerminator(c) || c == '\t' || c == '\U{000B}' || c == '\U{000C}' || c == ' '
    || c == '\U{00A0}' || c == '\U{1680}' || ('\U{2000}' <= c <= '\U{200A}')
    || c == '\U{202F}' || c == '\U{205F}' || c == '\U{3000}' || c == '\U{FEFF}'
  }

  predicate IsDigit(c: char) { '0' <= c <= '9' }

  predicate IsAsciiLetter(c: char) { 'a' <= c <= 'z' || 'A' <= c <= 'Z' }

  predicate IsHexDigit(c: char) { IsDigit(c) || 'a' <= c <= 'f' || 'A' <= c <= 'F' }

  /** Case folding as a regular expression with the `i` flag applies it to ASCII. */
  function LowerAscii(c: char): (r: char)
    ensures IsAsciiLetter(c) <==> IsAsciiLetter(r) && 'a' <= r <= 'z'
    ensures 'A' <= c <= 'Z' ==> r as int == c as int + 32
    ensures 'a' <= c <= 'z' ==> r == c
    ensures !IsAsciiLetter(c) ==> r == c
  {
    if 'A' <= c <= 'Z' then (c as int + 32) as char else c
  }

  /** `pat` occurs in `s` starting at index `i`. */
  predicate OccursAt(s: string, pat: string, i: nat) {
    i + |pat| <= |s| && s[i..i + |pat|] == pat
  }

  predicate StartsWith(s: string, prefix: string) { OccursAt(s, prefix, 0) }

  /** The leftmost occurrence of `pat` in `s` at or after `from` (`indexOf`). */
  function Find(s: string, pat: string, from: nat): (r: Option<nat>)
    ensures r.Some? ==> from <= r.value && OccursAt(s, pat, r.value)
    ensures forall k :: from <= k && (r.None? || k < r.value) ==> !OccursAt(s, pat, k)
    decreases |s| - from
  {
    if from + |pat| > |s| then None
    else if OccursAt(s, pat, from) then Some(from)
    else Find(s, pat, from + 1)
  }

  /** `includes`: some occurrence of `pat` in `s`. */
  predicate Contains(s: string, pat: string) { Find(s, pat, 0).Some? }

  /** The end of the longest run of characters satisfying `P` that starts at `k`. */
  function Span(s: string, k: nat, P: char -> bool): (r: nat)
    requires k <= |s|
    ensures k <= r <= |s|
    ensures forall i :: k <= i < r ==> P(s[i])
    ensures r < |s| ==> !P(s[r])
    decreases |s| - k
  {
    if k < |s| && P(s[k]) then Span(s, k + 1, P) else k
  }

  /** `s` with its leading white space removed. */
  function TrimStart(s: string): (r: string)
    ensures |r| <= |s| && r == s[|s| - |r|..]
    ensures r != [] ==> !IsSpace(r[0])
    ensures forall i :: 0 <= i < |s| - |r| ==> IsSpace(s[i])
  {
    if s != [] && IsSpace(s[0]) then TrimStart(s[1..]) else s
  }

  /** `s` with its trailing white space removed. */
  function TrimEnd(s: string): (r: string)
    ensures |r| <= |s| && r == s[..|r|]
    ensures r != [] ==> !IsSpace(r[|r| - 1])
    ensures forall i :: |r| <= i < |s| ==> IsSpace(s[i])
  {
    if s != [] && IsSpace(s[|s| - 1]) then TrimEnd(s[..|s| - 1]) else s
  }

  /** `trim`: both ends. */
  function Trim(s: string): string { TrimEnd(TrimStart(s)) }

  /** `substring(from)`: empty when `from` is past the end. */
  function SubstringFrom(s: string, from: nat): string {
    if from <= |s| then s[from..] else []
  }

  /** The test "is not `sep`". */
  function NotChar(sep: char): char -> bool {
    c => c != sep
  }

  /** `split(sep)` for a one-character separator. */
  function Split(s: string, sep: char): (r: seq<string>)
    ensures |r| >= 1
    ensures forall i :: 0 <= i < |r| ==> sep !in r[i]
    decreases |s|
  {
    var k := Span(s, 0, NotChar(sep));
    if k == |s| then [s] else [s[..k]] + Split(s[k + 1..], sep)
  }

  /** `join(sep)` for a one-character separator. */
  function Join(parts: seq<string>, sep: char): string
    requires |parts| >= 1
  {
    if |parts| == 1 then parts[0] else parts[0] + [sep] + Join(parts[1..], sep)
  }

  /** Splitting at a separator and joining with it gives the text back. */
  lemma {:induction false} JoinSplit(s: string, sep: char)
    ensures Join(Split(s, sep), sep) == s
    decreases |s|
  {
    var k := Span(s, 0, NotChar(sep));
    if k < |s| {
      JoinSplit(s[k + 1..], sep);
      assert s == s[..k] + [sep] + s[k + 1..];
    }
  }

  /** `Span` is the only end of a run that satisfies its two conditions. */
  lemma SpanIs(s: string, k: nat, P: char -> bool, e: nat)
    requires k <= e <= |s|
    requires forall i :: k <= i < e ==> P(s[i])
    requires e < |s| ==> !P(s[e])
    ensures Span(s, k, P) == e
  {
  }

  /** Joining parts without the separator and splitting again gives the parts back. */
  lemma {:induction false} SplitJoin(parts: seq<string>, sep: char)
    requires |parts| >= 1
    requires forall i :: 0 <= i < |parts| ==> sep !in parts[i]
    ensures Split(Join(parts, sep), sep) == parts
    decreases |parts|
  {
    var s := Join(parts, sep);
    var p := parts[0];
    forall i | 0 <= i < |p| ensures NotChar(sep)(s[i]) {
      assert s[i] == p[i];
      assert p[i] in p;
    }
    if |parts| == 1 {
      SpanIs(s, 0, NotChar(sep), |p|);
    } else {
      var rest := Join(parts[1..], sep);
      assert s == p + [sep] + rest;
      assert s[|p|] == sep;
      SpanIs(s, 0, NotChar(sep), |p|);
      assert s[..|p|] == p;
      assert s[|p| + 1..] == rest;
      SplitJoin(parts[1..], sep);
      assert parts == [p] + parts[1..];
    }
  }

  /** A character absent from the text is absent from each of its parts. */
  lemma {:induction false} SplitPartsIn(s: string, sep: char, c: char)
    requires c !in s
    ensures forall i :: 0 <= i < |Split(s, sep)| ==> c !in Split(s, sep)[i]
    decreases |s|
  {
    var k := Span(s, 0, NotChar(sep));
    assert c !in s[..k];
    if k < |s| {
      assert c !in s[k + 1..];
      SplitPartsIn(s[k + 1..], sep, c);
    }
  }

  /** A text without the separator is a single part. */
  lemma SplitWithoutSeparator(s: string, sep: char)
    requires sep !in s
    ensures Split(s, sep) == [s]
  {
  }

  /** An occurrence, character by character. */
  lemma OccursByChars(s: string, pat: string, i: nat)
    requires i + |pat| <= |s| && forall j :: 0 <= j < |pat| ==> s[i + j] == pat[j]
    ensures OccursAt(s, pat, i)
  {
    assert s[i..i + |pat|] == pat;
  }

  /** An occurrence starts with the pattern's first character. */
  lemma OccursLead(s: string, pat: string, i: nat)
    requires pat != [] && OccursAt(s, pat, i)
    ensures i < |s| && s[i] == pat[0]
  {
    assert s[i..i + |pat|][0] == s[i];
  }

  /** One differing character rules out an occurrence. */
  lemma MissByChar(s: string, pat: string, i: nat, j: nat)
    requires i + |pat| <= |s| && j < |pat| && s[i + j] != pat[j]
    ensures !OccursAt(s, pat, i)
  {
    assert s[i..i + |pat|][j] == s[i + j];
  }

  /** An occurrence with none before it, from `from` on, is the one `indexOf` finds. */
  lemma FindIs(s: string, pat: string, from: nat, i: nat)
    requires from <= i && OccursAt(s, pat, i)
    requires forall k :: from <= k < i ==> !OccursAt(s, pat, k)
    ensures Find(s, pat, from) == Some(i)
  {
  }

  /** Occurrences in `b` are occurrences in `a + b`, shifted by `|a|`. */
  lemma OccursShift(a: string, b: string, pat: string, i: nat)
    ensures OccursAt(a + b, pat, |a| + i) <==> OccursAt(b, pat, i)
  {
    if i + |pat| <= |b| {
      assert (a + b)[|a| + i..|a| + i + |pat|] == b[i..i + |pat|];
    }
  }

  /** Occurrences in `a` are occurrences in `a + b`. */
  lemma OccursExtend(a: string, b: string, pat: string, i: nat)
    requires OccursAt(a, pat, i)
    ensures OccursAt(a + b, pat, i)
  {
    assert (a + b)[i..i + |pat|] == a[i..i + |pat|];
  }

  /** `includes` holds exactly when the pattern occurs somewhere. */
  lemma ContainsIff(s: string, pat: string)
    ensures Contains(s, pat) <==> exists p: nat :: OccursAt(s, pat, p)
  {
    if Contains(s, pat) {
      assert OccursAt(s, pat, Find(s, pat, 0).value);
    }
  }

  /** A pattern with a character the text lacks does not occur in it. */
  lemma AbsentByChar(s: string, pat: string, j: nat)
    requires j < |pat| && pat[j] !in s
    ensures !Contains(s, pat)
  {
    ContainsIff(s, pat);
    forall p: nat ensures !OccursAt(s, pat, p) {
      if p + |pat| <= |s| {
        assert s[p..p + |pat|][j] == s[p + j];
        assert s[p + j] in s;
      }
    }
  }

  /** No occurrence of `pat` in `a + b` can begin in `a` and end in `b`: the last
      character of `a` cannot be matched by a character of `pat` before its last, or the
      first character of `b` by one after its first. */
  ghost predicate SeamSafe(a: string, b: string, pat: string) {
    a == [] || b == [] || |pat| <= 1 || a[|a| - 1] !in pat[..|pat| - 1] || b[0] !in pat[1..]
  }

  /** A pattern absent from both parts and unable to straddle the seam is absent from
      their concatenation. */
  lemma AbsentConcat(a: string, b: string, pat: string)
    requires !Contains(a, pat) && !Contains(b, pat) && SeamSafe(a, b, pat)
    ensures !Contains(a + b, pat)
  {
    ContainsIff(a, pat);
    ContainsIff(b, pat);
    ContainsIff(a + b, pat);
    forall p: nat ensures !OccursAt(a + b, pat, p) {
      if p + |pat| <= |a| {
        assert (a + b)[p..p + |pat|] == a[p..p + |pat|];
        assert !OccursAt(a, pat, p);
      } else if p >= |a| {
        OccursShift(a, b, pat, p - |a|);
        assert !OccursAt(b, pat, p - |a|);
      } else if p + |pat| <= |a + b| {
        var w := (a + b)[p..p + |pat|];
        assert w[|a| - 1 - p] == a[|a| - 1];
        assert w[|a| - p] == b[0];
        assert pat[..|pat| - 1][|a| - 1 - p] == pat[|a| - 1 - p];
        assert pat[1..][|a| - p - 1] == pat[|a| - p];
        assert w != pat;
      }
    }
  }

  /** Searching `a + b` from inside `b` finds what searching `b` finds. */
  lemma FindShift(a: string, b: string, pat: string, k: nat)
    ensures Find(a + b, pat, |a| + k) ==
            (match Find(b, pat, k) case None => None case Some(i) => Some(|a| + i))
  {
    var r := Find(b, pat, k);
    var q := Find(a + b, pat, |a| + k);
    if q.Some? {
      OccursShift(a, b, pat, q.value - |a|);
    }
    if r.Some? {
      OccursShift(a, b, pat, r.value);
    }
  }

  /** Appending text after an occurrence does not move the leftmost occurrence. */
  lemma FindExtend(a: string, b: string, pat: string, k: nat, i: nat)
    requires Find(a, pat, k) == Some(i)
    ensures Find(a + b, pat, k) == Some(i)
  {
    OccursExtend(a, b, pat, i);
    var q := Find(a + b, pat, k);
    if q.Some? && q.value < i {
      assert q.value + |pat| <= |a|;
      assert (a + b)[q.value..q.value + |pat|] == a[q.value..q.value + |pat|];
      assert OccursAt(a, pat, q.value);
    }
  }
}
