/** The LaTeX escaper of the LaTeX generator: its escape table has the
    single entry `_` -> `\_`, applied to every occurrence. */
module Escaping {

  /** The escape sequence of one character. */
  function EscapeChar(c: char): string {
    if c == '_' then "\\_" else [c]
  }

  /** `text_escape`: every `_` becomes `\_`, every other character is
      copied; the result grows by one character per underscore. */
  function Escape(s: string): (r: string)
    ensures |r| == |s| + multiset(s)['_']
    ensures '_' !in s ==> r == s
  {
    if |s| == 0 then []
    else
      assert s == [s[0]] + s[1..];
      EscapeChar(s[0]) + Escape(s[1..])
  }

  /** Reads an escaped string back: `\_` becomes `_`, everything else is copied. */
  function Unescape(r: string): string
  {
    if |r| == 0 then []
    else if |r| >= 2 && r[0] == '\\' && r[1] == '_' then "_" + Unescape(r[2..])
    else [r[0]] + Unescape(r[1..])
  }

  lemma EscapeNeverStartsWithUnderscore(s: string)
    ensures |Escape(s)| > 0 ==> Escape(s)[0] != '_'
  {
  }

  /** Escaping loses nothing: unescaping its output gives the input back. */
  lemma {:induction false} UnescapeEscape(s: string)
    ensures Unescape(Escape(s)) == s
  {
    if |s| > 0 {
      var rest := Escape(s[1..]);
      assert Escape(s) == EscapeChar(s[0]) + rest;
      EscapeNeverStartsWithUnderscore(s[1..]);
      UnescapeStep(s[0], rest);
      UnescapeEscape(s[1..]);
      assert s == [s[0]] + s[1..];
    }
  }

  /** One escaped character followed by text that does not open with an
      underscore reads back as that character. */
  lemma UnescapeStep(c: char, rest: string)
    requires |rest| == 0 || rest[0] != '_'
    ensures Unescape(EscapeChar(c) + rest) == [c] + Unescape(rest)
  {
    var r := EscapeChar(c) + rest;
    if c == '_' {
      assert r[2..] == rest;
    } else {
      assert r[1..] == rest;
    }
  }

  /** Escaping is the identity exactly on strings without an underscore. */
  lemma EscapeIdentityIff(s: string)
    ensures Escape(s) == s <==> '_' !in s
  {
    if '_' in s {
      assert multiset(s)['_'] > 0;
    }
  }

  /** Escaping works character by character, so it distributes over concatenation. */
  lemma {:induction false} EscapeAppend(a: string, b: string)
    ensures Escape(a + b) == Escape(a) + Escape(b)
  {
    if |a| == 0 {
      assert a + b == b;
    } else {
      assert (a + b)[0] == a[0];
      assert (a + b)[1..] == a[1..] + b;
      EscapeAppend(a[1..], b);
    }
  }
}
