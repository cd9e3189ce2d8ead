/** The JavaScript string primitives the editor's text transforms are built
    from: the character classes `\s`, `\d` and `.` of its regular expressions,
    ASCII case folding for the `/i` flag, maximal runs of a class, and
    `String.prototype.trim`.  A string is a sequence of Dafny characters. */
module JsString {

  datatype Option<T> = None | Some(value: T)

  /** A regular-expression match found at the start of a string: how many
      characters it covers and the text of its first capture group (empty
      for a pattern without one). */
  datatype Hit = Hit(len: nat, group: string)

  /** White space as `\s` and `trim()` see it: ECMAScript's WhiteSpace and
      LineTerminator characters. */
  predicate IsSpace(c: char) {
    c == '\t' || c == '\n' || c == '\U{000B}' || c == '\U{000C}' || c == '\r' || c == ' '
    || c == '\U{00A0}' || c == '\U{1680}' || ('\U{2000}' <= c <= '\U{200A}')
    || c == '\U{2028}' || c == '\U{2029}' || c == '\U{202F}' || c == '\U{205F}'
    || c == '\U{3000}' || c == '\U{FEFF}'
  }

  /** The characters that `.` does not match; each of them is also white
      space for `\s`. */
  predicate IsLineTerminator(c: char)
    ensures IsLineTerminator(c) ==> IsSpace(c)
  {
    c == '\n' || c == '\r' || c == '\U{2028}' || c == '\U{2029}'
  }

  predicate IsDigit(c: char) {
    '0' <= c <= '9'
  }

  /** Case folding under `/i`: only ASCII letters fold (no other character
      canonicalises to an ASCII letter in a non-unicode pattern). */
  function Lower(c: char): (d: char)
    ensures 'A' <= c <= 'Z' ==> 'a' <= d <= 'z' && d as int == c as int + 32
    ensures !('A' <= c <= 'Z') ==> d == c
  {
    if 'A' <= c <= 'Z' then (c as int + 32) as char else c
  }

  /** `s` begins with the lower-case pattern text `lit`, ignoring ASCII case. */
  predicate StartsWithCI(s: string, lit: string) {
    |lit| <= |s| && forall i :: 0 <= i < |lit| ==> Lower(s[i]) == lit[i]
  }

  /** `n` copies of `c`. */
  function Repeat(c: char, n: nat): (r: string)
    ensures |r| == n && forall i :: 0 <= i < n ==> r[i] == c
  {
    if n == 0 then [] else [c] + Repeat(c, n - 1)
  }

  predicate AllSpace(s: string) {
    forall i :: 0 <= i < |s| ==> IsSpace(s[i])
  }

  predicate NoLineTerminator(s: string) {
    forall i :: 0 <= i < |s| ==> !IsLineTerminator(s[i])
  }

  /** Length of the longest prefix of white space: what a greedy `\s+` or
      `\s*` consumes. */
  function SpaceRun(s: string): (n: nat)
    ensures n <= |s| && AllSpace(s[..n])
    ensures n < |s| ==> !IsSpace(s[n])
  {
    if s != [] && IsSpace(s[0]) then 1 + SpaceRun(s[1..]) else 0
  }

  /** The white-space run starting at position `k` of `s`, in terms of
      `s`'s own positions. */
  lemma SpaceRunAt(s: string, k: nat)
    requires k <= |s|
    ensures k + SpaceRun(s[k..]) <= |s|
    ensures forall i :: k <= i < k + SpaceRun(s[k..]) ==> IsSpace(s[i])
    ensures k + SpaceRun(s[k..]) < |s| ==> !IsSpace(s[k + SpaceRun(s[k..])])
  {
    var m := SpaceRun(s[k..]);
    forall i | k <= i < k + m
      ensures IsSpace(s[i])
    {
      assert s[i] == s[k..][..m][i - k];
    }
    if k + m < |s| {
      assert s[k + m] == s[k..][m];
    }
  }

  /** Length of the longest prefix free of white space: one word. */
  function WordRun(s: string): (n: nat)
    ensures n <= |s| && forall i :: 0 <= i < n ==> !IsSpace(s[i])
    ensures n < |s| ==> IsSpace(s[n])
  {
    if s != [] && !IsSpace(s[0]) then 1 + WordRun(s[1..]) else 0
  }

  /** Length of the longest prefix free of `c`: what a greedy `[^c]*`
      consumes. */
  function RunWithout(s: string, c: char): (n: nat)
    ensures n <= |s| && c !in s[..n]
    ensures n < |s| ==> s[n] == c
  {
    if s != [] && s[0] != c then 1 + RunWithout(s[1..], c) else 0
  }

  /** Length of the longest prefix made of `c` only. */
  function RunOf(s: string, c: char): (n: nat)
    ensures n <= |s| && forall i :: 0 <= i < n ==> s[i] == c
    ensures n < |s| ==> s[n] != c
  {
    if s != [] && s[0] == c then 1 + RunOf(s[1..], c) else 0
  }

  /** Length of the longest prefix of decimal digits: what a greedy `\d+`
      consumes. */
  function DigitRun(s: string): (n: nat)
    ensures n <= |s| && forall i :: 0 <= i < n ==> IsDigit(s[i])
    ensures n < |s| ==> !IsDigit(s[n])
  {
    if s != [] && IsDigit(s[0]) then 1 + DigitRun(s[1..]) else 0
  }

  /** Length of the longest suffix of white space. */
  function TrailingSpaceRun(s: string): (n: nat)
    ensures n <= |s| && AllSpace(s[|s| - n..])
    ensures n < |s| ==> !IsSpace(s[|s| - n - 1])
  {
    if s != [] && IsSpace(s[|s| - 1]) then 1 + TrailingSpaceRun(s[..|s| - 1]) else 0
  }

  /** `String.prototype.trim`: the string without its leading and trailing
      white space.  The result is the unique middle piece `s[a..a+|r|]`
      with white space on either side that neither starts nor ends with
      white space. */
  function Trim(s: string): (r: string)
    ensures |r| <= |s|
    ensures r == [] || (!IsSpace(r[0]) && !IsSpace(r[|r| - 1]))
    ensures SpaceRun(s) + |r| <= |s|
    ensures r == s[SpaceRun(s)..SpaceRun(s) + |r|]
    ensures AllSpace(s[SpaceRun(s) + |r|..])
    ensures r == [] <==> AllSpace(s)
    ensures forall c :: c in r ==> c in s
  {
    var t := s[SpaceRun(s)..];
    var r := t[..|t| - TrailingSpaceRun(t)];
    assert AllSpace(s) ==> t == [];
    r
  }

  /** A string that neither starts nor ends with white space is its own
      trim; in particular trimming twice is trimming once. */
  lemma {:induction false} TrimTrimmed(s: string)
    requires s == [] || (!IsSpace(s[0]) && !IsSpace(s[|s| - 1]))
    ensures Trim(s) == s
  {
    if s != [] {
      assert SpaceRun(s) == 0;
      assert TrailingSpaceRun(s) == 0;
    }
  }

  lemma TrimIdempotent(s: string)
    ensures Trim(Trim(s)) == Trim(s)
  {
    TrimTrimmed(Trim(s));
  }

  /** The greedy runs stop exactly where the class ends. */
  lemma {:induction false} RunWithoutPrefix(p: string, c: char, rest: string)
    requires c !in p && rest != [] && rest[0] == c
    ensures RunWithout(p + rest, c) == |p|
  {
    if p != [] {
      assert (p + rest)[1..] == p[1..] + rest;
      RunWithoutPrefix(p[1..], c, rest);
    }
  }

  lemma {:induction false} SpaceRunPrefix(p: string, rest: string)
    requires AllSpace(p) && (rest == [] || !IsSpace(rest[0]))
    ensures SpaceRun(p + rest) == |p|
  {
    if p != [] {
      assert (p + rest)[1..] == p[1..] + rest;
      SpaceRunPrefix(p[1..], rest);
    } else {
      assert p + rest == rest;
    }
  }

  lemma {:induction false} WordRunPrefix(p: string, rest: string)
    requires (forall i :: 0 <= i < |p| ==> !IsSpace(p[i])) && (rest == [] || IsSpace(rest[0]))
    ensures WordRun(p + rest) == |p|
  {
    if p != [] {
      assert (p + rest)[1..] == p[1..] + rest;
      WordRunPrefix(p[1..], rest);
    } else {
      assert p + rest == rest;
    }
  }

  /** Characters of a trimmed string all come from the original. */
  lemma TrimChars(s: string, c: char)
    requires c in Trim(s)
    ensures c in s
  {
    var r := Trim(s);
    var i :| 0 <= i < |r| && r[i] == c;
    assert s[SpaceRun(s) + i] == c;
  }

  /** White space around a piece that neither starts nor ends with white
      space is what `trim()` removes. */
  lemma TrimAround(p: string, x: string, w: string)
    requires AllSpace(p) && AllSpace(w)
    requires x != [] && !IsSpace(x[0]) && !IsSpace(x[|x| - 1])
    ensures Trim(p + x + w) == x
  {
    var s := p + x + w;
    assert s == p + (x + w);
    SpaceRunPrefix(p, x + w);
    assert s[|p|..] == x + w;
    TrailingSpaceRunSuffix(x, w);
    assert (x + w)[..|x|] == x;
  }

  lemma {:induction false} TrailingSpaceRunSuffix(x: string, w: string)
    requires AllSpace(w) && (x == [] || !IsSpace(x[|x| - 1]))
    ensures TrailingSpaceRun(x + w) == |w|
    decreases |w|
  {
    var u := x + w;
    if w == [] {
      assert u == x;
    } else {
      var w' := w[..|w| - 1];
      assert u[|u| - 1] == w[|w| - 1];
      assert u[..|u| - 1] == x + w';
      TrailingSpaceRunSuffix(x, w');
    }
  }
}
