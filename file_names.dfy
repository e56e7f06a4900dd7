/** The output path of an event's e-book: the event id left-padded with
    zeros, then the event name with the characters Windows forbids in file
    names replaced and one trailing dot removed. */
module FileNames {

  /** The characters of the class `[\<\>\:\"\/\\\|\?\*]`. */
  predicate IsForbidden(c: char) {
    c == '<' || c == '>' || c == ':' || c == '"' || c == '/' || c == '\\' ||
    c == '|' || c == '?' || c == '*'
  }

  predicate NoForbidden(s: string) {
    forall c | c in s :: !IsForbidden(c)
  }

  /** `s.replace(/[\<\>\:\"\/\\\|\?\*]/g, "_")`. */
  function ReplaceForbidden(s: string): (r: string)
    ensures |r| == |s|
    ensures forall i | 0 <= i < |s| :: r[i] == if IsForbidden(s[i]) then '_' else s[i]
    ensures NoForbidden(r)
  {
    if s == [] then [] else [if IsForbidden(s[0]) then '_' else s[0]] + ReplaceForbidden(s[1..])
  }

  /** `name.replace(badChars.windows, "_").replace(/\.$/, "")`. The second
      regex has no `g` flag and `$` matches only at the very end, so at most
      one dot goes, and it goes exactly when the name itself ends in a dot
      (a dot is not a forbidden character). Every other character keeps its
      place, forbidden ones turned into `_`. */
  function SanitizeName(name: string): (r: string)
    ensures NoForbidden(r)
    ensures |r| == if |name| > 0 && name[|name| - 1] == '.' then |name| - 1 else |name|
    ensures forall i | 0 <= i < |r| :: r[i] == if IsForbidden(name[i]) then '_' else name[i]
  {
    var t := ReplaceForbidden(name);
    if |t| > 0 && t[|t| - 1] == '.' then t[..|t| - 1] else t
  }

  /** `String.prototype.padStart(width, fill)` with a one-character fill:
      the result is `s` itself once it is long enough, otherwise `s` behind
      as many copies of `fill` as make up `width`. */
  function PadStart(s: string, width: nat, fill: char): (r: string)
    ensures |r| == if |s| < width then width else |s|
    ensures r[|r| - |s|..] == s
    ensures forall i | 0 <= i < |r| - |s| :: r[i] == fill
  {
    if |s| >= width then s
    else
      var r := Repeat(fill, width - |s|) + s;
      assert r[|r| - |s|..] == s;
      r
  }

  /** `k` copies of `c`. */
  function Repeat(c: char, k: nat): (r: string)
    ensures |r| == k && forall i | 0 <= i < k :: r[i] == c
  {
    if k == 0 then [] else [c] + Repeat(c, k - 1)
  }

  /** The directory every event e-book is written to. */
  const EventStoriesDir: string := "Stories/Event Stories/"

  /** The e-book's file name: `<id padded to 3> - <sanitised name>.epub`.
      The id part is the first max(3, |eventId|) characters, then ` - `,
      then the sanitised name up to the extension. When the id itself holds
      no forbidden character (the ids are numbers), the file name holds
      none. */
  function FileName(eventId: string, eventName: string): (f: string)
    ensures var k := if |eventId| < 3 then 3 else |eventId|;
      k + 3 <= |f| - 5 &&
      f[..k] == PadStart(eventId, 3, '0') &&
      f[k..k + 3] == " - " &&
      f[k + 3..|f| - 5] == SanitizeName(eventName) &&
      f[|f| - 5..] == ".epub"
    ensures NoForbidden(eventId) ==> NoForbidden(f)
  {
    var id := PadStart(eventId, 3, '0');
    var name := SanitizeName(eventName);
    assert NoForbidden(eventId) ==> NoForbidden(id + " - " + name + ".epub") by {
      if NoForbidden(eventId) {
        PadStartNoForbidden(eventId, 3, '0');
        FileNamePart(id, name);
      }
    }
    NameParts(id, name);
    id + " - " + name + ".epub"
  }

  /** Where each part of `<id> - <name>.epub` sits. */
  lemma NameParts(id: string, name: string)
    ensures var f, k := id + " - " + name + ".epub", |id|;
      k + 3 <= |f| - 5 &&
      f[..k] == id && f[k..k + 3] == " - " && f[k + 3..|f| - 5] == name &&
      f[|f| - 5..] == ".epub"
  {
    var f, k := id + " - " + name + ".epub", |id|;
    assert f[..k] == id;
    assert f[k..k + 3] == " - ";
    assert f[k + 3..|f| - 5] == name;
  }

  /** The `-o` argument handed to the converter: the event directory, then
      the file name. */
  function EpubPath(eventId: string, eventName: string): (p: string)
    ensures |p| > |EventStoriesDir| && p[..|EventStoriesDir|] == EventStoriesDir
    ensures p[|EventStoriesDir|..] == FileName(eventId, eventName)
  {
    var f := FileName(eventId, eventName);
    assert (EventStoriesDir + f)[|EventStoriesDir|..] == f;
    EventStoriesDir + f
  }

  /** A file name built from allowed parts is allowed. */
  lemma FileNamePart(id: string, name: string)
    requires NoForbidden(id) && NoForbidden(name)
    ensures NoForbidden(id + " - " + name + ".epub")
  {
    var sep, ext := " - ", ".epub";
    assert NoForbidden(sep) && NoForbidden(ext);
    NoForbiddenConcat(id, sep);
    NoForbiddenConcat(id + sep, name);
    NoForbiddenConcat(id + sep + name, ext);
  }

  lemma NoForbiddenConcat(a: string, b: string)
    requires NoForbidden(a) && NoForbidden(b)
    ensures NoForbidden(a + b)
  {
  }

  /** Padding with an allowed character adds no forbidden one. */
  lemma PadStartNoForbidden(s: string, width: nat, fill: char)
    requires NoForbidden(s) && !IsForbidden(fill)
    ensures NoForbidden(PadStart(s, width, fill))
  {
    var r := PadStart(s, width, fill);
    forall c | c in r ensures !IsForbidden(c) {
      var i :| 0 <= i < |r| && r[i] == c;
      if i >= |r| - |s| {
        assert r[|r| - |s|..][i - (|r| - |s|)] == c;
      }
    }
  }

  /** Padding an id with zeros keeps the number it reads as. */
  lemma PadStartKeepsNumber(id: string, width: nat)
    ensures Value(PadStart(id, width, '0')) == Value(id)
  {
    if |id| < width {
      RepeatZeros(width - |id|, id);
    }
  }

  /** The decimal value of a digit string; a character that is not a digit
      counts as zero. */
  function Value(s: string): nat {
    if s == [] then 0 else Value(s[..|s| - 1]) * 10 + Digit(s[|s| - 1])
  }

  function Digit(c: char): nat {
    if '0' <= c <= '9' then (c as int - '0' as int) else 0
  }

  /** Zeros in front of a digit string do not change its value. */
  lemma {:induction false} RepeatZeros(k: nat, s: string)
    ensures Value(Repeat('0', k) + s) == Value(s)
    decreases k
  {
    if k > 0 {
      RepeatZeros(k - 1, s);
      assert Repeat('0', k) + s == ['0'] + (Repeat('0', k - 1) + s);
      LeadingZero(Repeat('0', k - 1) + s);
    } else {
      assert Repeat('0', k) + s == s;
    }
  }

  /** One zero in front of a digit string does not change its value. */
  lemma {:induction false} LeadingZero(s: string)
    ensures Value(['0'] + s) == Value(s)
    decreases |s|
  {
    var z := ['0'] + s;
    if s == [] {
      assert z[..0] == [];
    } else {
      var init := s[..|s| - 1];
      assert z[..|z| - 1] == ['0'] + init;
      assert z[|z| - 1] == s[|s| - 1];
      LeadingZero(init);
    }
  }
}
