/** String helpers the renderer relies on: the markdown escape, the
    line-break flattening applied to dialogue bodies, and the two suffixes
    the title-card divider rule inspects. JavaScript's regex `replace` with
    these fixed character classes is written out as recursion over the
    characters of the string. */
module Markdown {

  /** The characters the markdown escape prefixes with a backslash:
      `\ * _ < > ( ) #`. */
  predicate IsSpecial(c: char) {
    c == '\\' || c == '*' || c == '_' || c == '<' || c == '>' ||
    c == '(' || c == ')' || c == '#'
  }

  /** How many characters of `s` the escape has to prefix. */
  function SpecialCount(s: string): nat {
    if s == [] then 0 else (if IsSpecial(s[0]) then 1 else 0) + SpecialCount(s[1..])
  }

  /** `s.replace(/([\\\*\_\<\>\(\)\#])/g, "\\$1")`: one backslash goes in
      front of every special character. The result grows by exactly one
      character per special character and brings in no new character other
      than the backslash. */
  function Escape(s: string): (r: string)
    ensures |r| == |s| + SpecialCount(s)
    ensures forall c | c in r :: c in s || c == '\\'
  {
    if s == [] then []
    else (if IsSpecial(s[0]) then ['\\', s[0]] else [s[0]]) + Escape(s[1..])
  }

  /** The shape of escaped text: every special character is the second half
      of a backslash pair, and no special character stands alone. */
  predicate IsEscaped(t: string)
    decreases |t|
  {
    if t == [] then true
    else if t[0] == '\\' then |t| >= 2 && IsSpecial(t[1]) && IsEscaped(t[2..])
    else !IsSpecial(t[0]) && IsEscaped(t[1..])
  }

  /** Reference inverse of the escape: a backslash drops and keeps the
      character after it. */
  function Unescape(t: string): (s: string)
    ensures |s| <= |t|
    decreases |t|
  {
    if t == [] then []
    else if t[0] == '\\' && |t| >= 2 then [t[1]] + Unescape(t[2..])
    else [t[0]] + Unescape(t[1..])
  }

  /** The escape always produces well-formed escaped text. */
  lemma {:induction false} EscapeIsEscaped(s: string)
    ensures IsEscaped(Escape(s))
  {
    if s != [] {
      EscapeIsEscaped(s[1..]);
      var r := Escape(s);
      if IsSpecial(s[0]) {
        assert r == ['\\', s[0]] + Escape(s[1..]);
        assert r[2..] == Escape(s[1..]);
      } else {
        assert r == [s[0]] + Escape(s[1..]);
        assert r[1..] == Escape(s[1..]);
      }
    }
  }

  /** Undoing the escape gives back the original text: every character other
      than the inserted backslashes is kept, in order. */
  lemma {:induction false} UnescapeEscape(s: string)
    ensures Unescape(Escape(s)) == s
  {
    if s != [] {
      UnescapeEscape(s[1..]);
      var r := Escape(s);
      if IsSpecial(s[0]) {
        assert r == ['\\', s[0]] + Escape(s[1..]);
        assert r[2..] == Escape(s[1..]);
      } else {
        assert r == [s[0]] + Escape(s[1..]);
        assert r[1..] == Escape(s[1..]);
      }
    }
  }

  /** Conversely, every well-formed escaped text is the escape of its
      unescaping, so the escape is a bijection onto `IsEscaped`. */
  lemma {:induction false} EscapeUnescape(t: string)
    requires IsEscaped(t)
    ensures Escape(Unescape(t)) == t
  {
    if t != [] {
      if t[0] == '\\' {
        EscapeUnescape(t[2..]);
        assert Unescape(t) == [t[1]] + Unescape(t[2..]);
        assert t == [t[0], t[1]] + t[2..];
      } else {
        EscapeUnescape(t[1..]);
        assert Unescape(t) == [t[0]] + Unescape(t[1..]);
        assert t == [t[0]] + t[1..];
      }
    }
  }

  /** The escape works character by character, so it distributes over
      concatenation. */
  lemma {:induction false} EscapeAppend(a: string, b: string)
    ensures Escape(a + b) == Escape(a) + Escape(b)
  {
    if a != [] {
      assert (a + b)[0] == a[0];
      assert (a + b)[1..] == a[1..] + b;
      EscapeAppend(a[1..], b);
      var head := if IsSpecial(a[0]) then ['\\', a[0]] else [a[0]];
      calc {
        Escape(a + b);
        head + Escape(a[1..] + b);
        head + (Escape(a[1..]) + Escape(b));
        (head + Escape(a[1..])) + Escape(b);
        Escape(a) + Escape(b);
      }
    } else {
      assert a + b == b;
    }
  }

  /** Text with no special character is left exactly as it is. */
  lemma {:induction false} EscapePlain(s: string)
    requires forall i | 0 <= i < |s| :: !IsSpecial(s[i])
    ensures Escape(s) == s
  {
    if s != [] {
      EscapePlain(s[1..]);
      assert s == [s[0]] + s[1..];
    }
  }

  /** The characters the regex `[\n\r]` matches. */
  predicate IsLineBreak(c: char) {
    c == '\n' || c == '\r'
  }

  predicate NoLineBreak(s: string) {
    forall c | c in s :: !IsLineBreak(c)
  }

  /** `s.replace(/[\n\r]/g, " ")`: every line-break character, each `\r` and
      each `\n` on its own, becomes one space; nothing else moves. */
  function FlattenLineBreaks(s: string): (r: string)
    ensures |r| == |s|
    ensures forall i | 0 <= i < |s| :: r[i] == if IsLineBreak(s[i]) then ' ' else s[i]
    ensures NoLineBreak(r)
  {
    if s == [] then [] else [if IsLineBreak(s[0]) then ' ' else s[0]] + FlattenLineBreaks(s[1..])
  }

  /** Escaping flattened text cannot reintroduce a line break. */
  lemma EscapeKeepsNoLineBreak(s: string)
    requires NoLineBreak(s)
    ensures NoLineBreak(Escape(s))
  {
  }

  /** JavaScript's `String.prototype.endsWith`. */
  predicate EndsWith(s: string, suffix: string) {
    |suffix| <= |s| && s[|s| - |suffix|..] == suffix
  }

  /** A divider line. */
  const Divider: string := "---\n\n"

  /** The end of a rendered title card. */
  const TitleClose: string := "--**\n\n"

  /** The divider condition exactly as written before a title card:
      `(!endsWith("---\n\n") || !endsWith("--**\n\n")) && storyData != ""`. */
  predicate DividerGuard(s: string) {
    (!EndsWith(s, Divider) || !EndsWith(s, TitleClose)) && s != ""
  }

  /** No text ends with both a divider and a title close: their third-last
      characters are `-` and `*`. */
  lemma NoStringEndsWithBoth(s: string)
    ensures EndsWith(s, Divider) ==> !EndsWith(s, TitleClose)
  {
    if EndsWith(s, Divider) && |s| >= |TitleClose| {
      var n := |s|;
      assert s[n - 3] == '-' by { assert s[n - 5..][2] == s[n - 3]; }
      assert s[n - 6..][3] == '-';
    }
  }

  /** Because of the OR, the divider condition is just "the buffer is not
      empty": it does not suppress a divider after a divider or a title. */
  lemma GuardIsNonEmpty(s: string)
    ensures DividerGuard(s) <==> s != ""
  {
    NoStringEndsWithBoth(s);
  }
}
