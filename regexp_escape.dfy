/** `escapeRegExp` and the literal reading of the patterns it builds. */
module RegExpEscape {
  import opened Wrappers

  /** The characters `escapeRegExp` prefixes with a backslash: `.*+?^${}()|[]\` and space. */
  predicate IsEscaped(c: char) { c in ".*+?^${}()|[]\\ " }

  /** ECMAScript's SyntaxCharacter: outside an escape each of these is an operator. */
  predicate IsSyntaxCharacter(c: char) { c in "^$\\.*+?()[]{}|" }

  /** `string.replace(/[.*+?^${}()  |[\]\\]/g, '\\$&')`. */
  function EscapeRegExp(s: string): (r: string)
    ensures |s| <= |r| <= 2 * |s|
  {
    if s == [] then []
    else (if IsEscaped(s[0]) then ['\\', s[0]] else [s[0]]) + EscapeRegExp(s[1..])
  }

  function Prepend(c: char, rest: Option<string>): Option<string> {
    match rest
    case None => None
    case Some(t) => Some([c] + t)
  }

  /** The one string a pattern matches when it is made only of ordinary characters
      and identity escapes; `None` when it holds an operator or a dangling backslash. */
  function LiteralOf(p: string): Option<string>
    decreases |p|
  {
    if p == [] then Some([])
    else if p[0] == '\\' then
      if |p| >= 2 && IsEscaped(p[1]) then Prepend(p[1], LiteralOf(p[2..])) else None
    else if IsSyntaxCharacter(p[0]) then None
    else Prepend(p[0], LiteralOf(p[1..]))
  }

  /** An escaped pattern is a literal and matches exactly the text it was built from,
      which is why the toggle engine can search for `open` and `close` literally. */
  lemma {:induction false} EscapeIsLiteral(s: string)
    ensures LiteralOf(EscapeRegExp(s)) == Some(s)
  {
    if s != [] {
      EscapeIsLiteral(s[1..]);
      var head := if IsEscaped(s[0]) then ['\\', s[0]] else [s[0]];
      var p := head + EscapeRegExp(s[1..]);
      assert EscapeRegExp(s) == p;
      if IsEscaped(s[0]) {
        assert p[2..] == EscapeRegExp(s[1..]);
      } else {
        assert !IsSyntaxCharacter(s[0]);
        assert p[1..] == EscapeRegExp(s[1..]);
      }
      assert [s[0]] + s[1..] == s;
    }
  }
}
