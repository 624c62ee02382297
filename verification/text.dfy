/**
 * The string operations the search queries rely on: `String.prototype.trim`,
 * `toLowerCase` (ASCII letters only) and the ordering `<` of strings.
 */
module Text {

  /** ECMAScript white space and line terminators: the characters `trim` strips. */
  predicate IsSpace(c: char) {
    || c == '\t' || c == '\n' || c == '\U{000B}' || c == '\U{000C}' || c == '\r' || c == ' '
    || c == '\U{00A0}' || c == '\U{1680}' || ('\U{2000}' <= c <= '\U{200A}')
    || c == '\U{2028}' || c == '\U{2029}' || c == '\U{202F}' || c == '\U{205F}'
    || c == '\U{3000}' || c == '\U{FEFF}'
  }

  function TrimStart(s: string): string {
    if s != [] && IsSpace(s[0]) then TrimStart(s[1..]) else s
  }

  function TrimEnd(s: string): string {
    if s != [] && IsSpace(s[|s| - 1]) then TrimEnd(s[..|s| - 1]) else s
  }

  /** `s.trim()`: `s` without its leading and trailing white space. */
  function Trim(s: string): string {
    TrimEnd(TrimStart(s))
  }

  lemma {:induction false} TrimStartEmpty(s: string)
    ensures TrimStart(s) == [] <==> forall i :: 0 <= i < |s| ==> IsSpace(s[i])
    ensures TrimStart(s) != [] ==> !IsSpace(TrimStart(s)[0])
  {
    if s != [] && IsSpace(s[0]) {
      TrimStartEmpty(s[1..]);
      assert forall i :: 1 <= i < |s| ==> s[i] == s[1..][i - 1];
    }
  }

  lemma {:induction false} TrimEndKeepsHead(s: string)
    ensures TrimEnd(s) == [] || TrimEnd(s)[0] == s[0]
    ensures s != [] && !IsSpace(s[0]) ==> TrimEnd(s) != []
  {
    if s != [] && IsSpace(s[|s| - 1]) {
      TrimEndKeepsHead(s[..|s| - 1]);
    }
  }

  /** A query is blank after trimming exactly when every character of it is white space. */
  lemma TrimmedEmpty(s: string)
    ensures Trim(s) == [] <==> forall i :: 0 <= i < |s| ==> IsSpace(s[i])
  {
    TrimStartEmpty(s);
    TrimEndKeepsHead(TrimStart(s));
  }

  function LowerChar(c: char): char {
    if 'A' <= c <= 'Z' then (c as int + 32) as char else c
  }

  /** `s.toLowerCase()` on the ASCII letters. */
  function Lower(s: string): string {
    seq(|s|, i requires 0 <= i < |s| => LowerChar(s[i]))
  }

  /** The largest UTF-16 code unit, `"￿"`. */
  const Top: char := '\U{FFFF}'

  /** `a < b` on strings: lexicographic order of characters, a proper prefix coming first. */
  predicate Less(a: string, b: string) {
    if b == [] then false
    else if a == [] then true
    else if a[0] != b[0] then a[0] < b[0]
    else Less(a[1..], b[1..])
  }

  /** The range `lo <= name < lo + "￿"` is a prefix test: it holds exactly
      when `lo` is a prefix of `name` and the character after it, if any, is
      below U+FFFF. */
  lemma {:induction false} PrefixRange(name: string, lo: string)
    ensures (!Less(name, lo) && Less(name, lo + [Top]))
        <==> (|lo| <= |name| && name[..|lo|] == lo && (|name| == |lo| || name[|lo|] < Top))
  {
    if lo != [] && name != [] && name[0] == lo[0] {
      PrefixRange(name[1..], lo[1..]);
      assert (lo + [Top])[1..] == lo[1..] + [Top];
      if |lo| <= |name| {
        assert name[..|lo|] == [name[0]] + name[1..][..|lo| - 1];
      }
      assert lo == [lo[0]] + lo[1..];
    } else if lo != [] && name != [] && |lo| <= |name| {
      assert name[..|lo|][0] != lo[0];
    }
  }
}
