/** The Python string operations the translator relies on: whitespace as
    `str.isspace` sees it, `strip()`, the last word of `split()`, and
    `join`. */
module Strings {
  import opened Outcomes

  /** Python's `str.isspace` for one code point: the separators `strip()`
      and `split()` use when called without arguments. */
  predicate IsSpace(c: char) {
    var k := c as int;
    || (0x09 <= k <= 0x0d) || (0x1c <= k <= 0x20)
    || k == 0x85 || k == 0xa0 || k == 0x1680
    || (0x2000 <= k <= 0x200a)
    || k == 0x2028 || k == 0x2029 || k == 0x202f || k == 0x205f || k == 0x3000
  }

  predicate AllSpace(s: string) {
    forall i :: 0 <= i < |s| ==> IsSpace(s[i])
  }

  predicate NoSpace(s: string) {
    forall i :: 0 <= i < |s| ==> !IsSpace(s[i])
  }

  /** `s.lstrip()`: the longest suffix of `s` that does not start with whitespace. */
  function StripLeft(s: string): (r: string)
    ensures |r| <= |s| && r == s[|s| - |r|..]
    ensures AllSpace(s[..|s| - |r|])
    ensures r == [] || !IsSpace(r[0])
  {
    if |s| > 0 && IsSpace(s[0]) then
      var r := StripLeft(s[1..]);
      assert AllSpace(s[..|s| - |r|]) by {
        var k := |s| - |r|;
        assert forall i :: 1 <= i < k ==> s[..k][i] == s[1..][..k - 1][i - 1];
      }
      r
    else s
  }

  /** `s.rstrip()`: the longest prefix of `s` that does not end with whitespace. */
  function StripRight(s: string): (r: string)
    ensures |r| <= |s| && r == s[..|r|]
    ensures AllSpace(s[|r|..])
    ensures r == [] || !IsSpace(r[|r| - 1])
  {
    if |s| > 0 && IsSpace(s[|s| - 1]) then
      var r := StripRight(s[..|s| - 1]);
      assert AllSpace(s[|r|..]) by {
        var t := s[..|s| - 1];
        assert forall i :: 0 <= i < |t| - |r| ==> s[|r|..][i] == t[|r|..][i];
      }
      r
    else s
  }

  /** `s.strip()`: `s` without its leading and trailing whitespace. */
  function Strip(s: string): (r: string)
    ensures r == [] || (!IsSpace(r[0]) && !IsSpace(r[|r| - 1]))
  {
    StripRight(StripLeft(s))
  }

  /** The characterisation of `strip()`: the result is the middle `s[i..j]`
      of `s`, cut off between two all-whitespace margins. */
  lemma StripIsMiddle(s: string)
    ensures exists i, j :: 0 <= i <= j <= |s| && Strip(s) == s[i..j]
                           && AllSpace(s[..i]) && AllSpace(s[j..])
  {
    var l := StripLeft(s);
    var i := |s| - |l|;
    var j := i + |StripRight(l)|;
    assert Strip(s) == s[i..j];
    assert s[j..] == l[|StripRight(l)|..];
  }

  /** A string strips to nothing exactly when it is all whitespace. */
  lemma StripEmptyIff(s: string)
    ensures Strip(s) == [] <==> AllSpace(s)
  {
    var l := StripLeft(s);
    var p := |s| - |l|;
    if l == [] {
      assert s[..p] == s;
    } else {
      assert l[0] == s[p];
      assert l[0..] == l;
    }
  }

  /** A string that neither starts nor ends with whitespace strips to itself. */
  lemma StripTrimmed(s: string)
    requires s == [] || (!IsSpace(s[0]) && !IsSpace(s[|s| - 1]))
    ensures Strip(s) == s
  {
    if |s| > 0 {
      assert !IsSpace(s[0]);
      assert StripLeft(s) == s;
      assert !IsSpace(s[|s| - 1]);
      assert StripRight(s) == s;
    }
  }

  /** Stripping twice strips nothing more. */
  lemma StripIdempotent(s: string)
    ensures Strip(Strip(s)) == Strip(s)
  {
    StripTrimmed(Strip(s));
  }

  /** The maximal whitespace-free suffix of `s`. */
  function LastRun(s: string): (r: string)
    ensures |r| <= |s| && r == s[|s| - |r|..]
    ensures NoSpace(r)
    ensures |r| == |s| || IsSpace(s[|s| - |r| - 1])
  {
    if |s| == 0 || IsSpace(s[|s| - 1]) then []
    else LastRun(s[..|s| - 1]) + [s[|s| - 1]]
  }

  /** `s.split()[-1]`: the last whitespace-separated word of `s`, absent
      (the IndexError) when `s` is blank. The word is non-empty, holds no
      whitespace, ends `s.rstrip()` and is preceded there by whitespace or
      by nothing. */
  function LastWord(s: string): (r: Option<string>)
    ensures r.None? <==> AllSpace(s)
    ensures r.Some? ==> |r.value| > 0 && NoSpace(r.value)
    ensures r.Some? ==>
              var t := StripRight(s);
              var k := |t| - |r.value|;
              0 <= k && t[k..] == r.value && (k == 0 || IsSpace(t[k - 1]))
  {
    var t := StripRight(s);
    if t == [] then
      assert s[0..] == s;
      None
    else
      assert s[|t| - 1] == t[|t| - 1] && !IsSpace(t[|t| - 1]);
      var w := LastRun(t);
      assert |w| > 0;
      Some(w)
  }

  /** `todo_if_empty`: empty content becomes the `\todo` marker, anything
      else passes through. */
  function TodoIfEmpty(s: string): (r: string)
    ensures r != []
    ensures s != [] ==> r == s
    ensures s == [] ==> r == "\\todo"
  {
    if s == [] then "\\todo" else s
  }

  /** A string whose last character is a line break. */
  predicate EndsLine(s: string) {
    |s| > 0 && s[|s| - 1] == '\n'
  }

  /** `sep.join(ss)`: the parts in order, `sep` between neighbours; the
      result opens with the first part. */
  function Join(ss: seq<string>, sep: string): (r: string)
    ensures |ss| > 0 ==> |ss[0]| <= |r| && r[..|ss[0]|] == ss[0]
  {
    if |ss| == 0 then []
    else if |ss| == 1 then ss[0]
    else
      var rest := Join(ss[1..], sep);
      assert (ss[0] + sep + rest)[..|ss[0]|] == ss[0];
      ss[0] + sep + rest
  }

  /** Joining one part before a non-empty list puts `sep` between them. */
  lemma JoinCons(s: string, ss: seq<string>, sep: string)
    requires |ss| > 0
    ensures Join([s] + ss, sep) == s + sep + Join(ss, sep)
  {
    assert ([s] + ss)[1..] == ss;
  }

  /** Joining a non-empty list and one more part puts `sep` before it. */
  lemma JoinSnoc(ss: seq<string>, s: string, sep: string)
    requires |ss| > 0
    ensures Join(ss + [s], sep) == Join(ss, sep) + sep + s
  {
    JoinAppend(ss, [s], sep);
  }

  /** Joining two non-empty lists is joining each and putting `sep` between. */
  lemma {:induction false} JoinAppend(a: seq<string>, b: seq<string>, sep: string)
    requires |a| > 0 && |b| > 0
    ensures Join(a + b, sep) == Join(a, sep) + sep + Join(b, sep)
  {
    assert a + b == [a[0]] + (a[1..] + b);
    JoinCons(a[0], a[1..] + b, sep);
    if |a| > 1 {
      JoinAppend(a[1..], b, sep);
      JoinCons(a[0], a[1..], sep);
      assert a == [a[0]] + a[1..];
      var x, y := Join(a[1..], sep), Join(b, sep);
      assert a[0] + sep + (x + sep + y) == (a[0] + sep + x) + sep + y;
    } else {
      assert a[1..] + b == b;
    }
  }

  /** `''.join(ss)`. */
  function Concat(ss: seq<string>): (r: string)
    ensures |ss| > 0 && EndsLine(ss[|ss| - 1]) ==> EndsLine(r)
  {
    if |ss| == 0 then []
    else
      var rest := Concat(ss[1..]);
      assert |ss| > 1 ==> ss[1..][|ss| - 2] == ss[|ss| - 1];
      assert |ss| == 1 ==> rest == [];
      ss[0] + rest
  }

  lemma {:induction false} ConcatAppend(a: seq<string>, b: seq<string>)
    ensures Concat(a + b) == Concat(a) + Concat(b)
  {
    if |a| == 0 {
      assert a + b == b;
    } else {
      assert (a + b)[0] == a[0];
      assert (a + b)[1..] == a[1..] + b;
      ConcatAppend(a[1..], b);
      assert a[0] + (Concat(a[1..]) + Concat(b)) == (a[0] + Concat(a[1..])) + Concat(b);
    }
  }
}
