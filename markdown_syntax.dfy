/** The cascade of global substitutions that strips markdown markers from a
    text, shared (as two identical copies in the source) by the word counter
    of src/utils/wordCount.ts and `markdownToPlainText` of
    src/utils/markdown.ts.  Each substitution is a JavaScript global
    `replace`: the leftmost match is replaced, scanning resumes right after
    it, matches never overlap.  Every pattern here is deterministic (its
    greedy runs cannot give back a character that would let the rest
    match), so each matcher below is a direct computation of the one match
    the regular-expression engine finds at a position, or of its absence. */
module MarkdownSyntax {
  import opened JsString

  /** The ten marker-stripping substitutions, in the order they run. */
  datatype Cleanup =
    | Headers          // one to six '#' and the white space after them, removed
    | Bold             // '**' text without '*' '**', replaced by the text
    | Italic           // '*' text without '*' '*', replaced by the text
    | InlineCode       // '`' text without '`' '`', replaced by the text
    | CodeBlocks       // '```', the shortest stretch of anything, '```', removed
    | Links            // '[' text ']' '(' target ')', replaced by the text
    | Images           // '!' '[' alt ']' '(' target ')', removed
    | Blockquotes      // '>' and the white space after it, removed
    | ListMarkers      // one of '-', '*', '+' and the white space after it, removed
    | NumberedMarkers  // digits, '.', and the white space after them, removed

  /** A header marker at the start of `s`: the greedy `#` run may take at
      most six, and must then be followed by white space, all of which the
      match takes.  A run of seven or more '#' has no match at its first
      character (backing off leaves a '#' where white space is needed). */
  function HeaderAt(s: string): (r: Option<nat>)
    ensures r.Some? ==> 2 <= r.value <= |s| && s[0] == '#'
  {
    var k := if RunOf(s, '#') < 6 then RunOf(s, '#') else 6;
    if 1 <= k < |s| && IsSpace(s[k]) then Some(k + SpaceRun(s[k..])) else None
  }

  /** A header match exists exactly when the run of '#' has one to six
      characters and white space follows it. */
  lemma HeaderAtShape(s: string)
    ensures HeaderAt(s).Some? <==> (1 <= RunOf(s, '#') <= 6 && RunOf(s, '#') < |s| && IsSpace(s[RunOf(s, '#')]))
  {
    var k := RunOf(s, '#');
    if 1 <= k <= 6 && k < |s| && IsSpace(s[k]) {
      HeaderAtRun(s);
    } else if k > 6 {
      assert s[6] == '#';
    }
  }

  /** A header match takes all the white space after the '#' run. */
  lemma HeaderAtSpan(s: string)
    requires HeaderAt(s).Some?
    ensures RunOf(s, '#') <= HeaderAt(s).value
    ensures forall i :: RunOf(s, '#') <= i < HeaderAt(s).value ==> IsSpace(s[i])
    ensures HeaderAt(s).value < |s| ==> !IsSpace(s[HeaderAt(s).value])
  {
    var k := RunOf(s, '#');
    assert 1 <= k <= 6 && k < |s| && IsSpace(s[k]) by {
      HeaderAtShape(s);
    }
    HeaderAtRun(s);
    SpaceRunAt(s, k);
  }

  /** `width` copies of the delimiter `d`, a non-empty text free of `d`
      (the capture), then `width` copies of `d` again.  The greedy text run
      stops at the first `d`, so there is at most one such match. */
  function DelimitedAt(s: string, d: char, width: nat): (r: Option<Hit>)
    ensures r.Some? ==> r.value.len == 2 * width + |r.value.group| <= |s|
    ensures r.Some? && width > 0 ==> s[0] == d
  {
    if width <= |s| && s[..width] == Repeat(d, width) then
      var m := RunWithout(s[width..], d);
      if m >= 1 && width + m + width <= |s| && s[width + m..width + m + width] == Repeat(d, width) then
        Some(Hit(width + m + width, s[width..width + m]))
      else None
    else None
  }

  /** A delimited match is the delimiters around a non-empty capture free
      of the delimiter. */
  lemma DelimitedAtShape(s: string, d: char, width: nat)
    requires DelimitedAt(s, d, width).Some?
    ensures var h := DelimitedAt(s, d, width).value;
      h.group != [] && d !in h.group
      && s[..h.len] == Repeat(d, width) + h.group + Repeat(d, width)
  {
    var m := RunWithout(s[width..], d);
    var n := width + m + width;
    assert 1 <= m && n <= |s| && s[..width] == Repeat(d, width) && s[width + m..n] == Repeat(d, width);
    assert d !in s[width..width + m] by {
      assert s[width..][..m] == s[width..width + m];
    }
    var g := s[width..width + m];
    assert s[..n] == Repeat(d, width) + g + Repeat(d, width) by {
      SliceThree(s, width, width + m, n);
    }
    var h := DelimitedAt(s, d, width).value;
    assert h.len == n && h.group == g;
  }

  /** A prefix cut at two points is its three pieces. */
  lemma SliceThree(s: string, a: nat, b: nat, c: nat)
    requires a <= b <= c <= |s|
    ensures s[..c] == s[..a] + s[a..b] + s[b..c]
  {
  }

  /** `lit` occurs in `s` at position `k`. */
  predicate OccursAt(s: string, lit: string, k: nat) {
    k + |lit| <= |s| && s[k..k + |lit|] == lit
  }

  /** The position of the first occurrence of `lit` in `s`: what a lazy
      stretch of any characters followed by `lit` settles on. */
  function Find(s: string, lit: string): (r: Option<nat>)
    ensures r.Some? ==> OccursAt(s, lit, r.value)
    ensures r.Some? ==> forall k: nat :: k < r.value ==> !OccursAt(s, lit, k)
    ensures r.None? ==> forall k: nat :: !OccursAt(s, lit, k)
  {
    if OccursAt(s, lit, 0) then Some(0)
    else if s == [] then None
    else
      var r := Find(s[1..], lit);
      assert forall k: nat :: 1 <= k ==> (OccursAt(s, lit, k) <==> OccursAt(s[1..], lit, k - 1)) by {
        forall k: nat | 1 <= k ensures OccursAt(s, lit, k) <==> OccursAt(s[1..], lit, k - 1) {
          OccursShift(s, lit, k);
        }
      }
      match r
      case Some(j) => Some(j + 1)
      case None => None
  }

  /** Occurrences after the first character are those of the rest. */
  lemma OccursShift(s: string, lit: string, k: nat)
    requires 1 <= k && s != []
    ensures OccursAt(s, lit, k) <==> OccursAt(s[1..], lit, k - 1)
  {
    if k + |lit| <= |s| {
      var x, y := s[k..k + |lit|], s[1..][k - 1..k - 1 + |lit|];
      forall i | 0 <= i < |lit|
        ensures x[i] == y[i]
      {
        assert x[i] == s[k + i] && y[i] == s[k + i];
      }
      assert x == y;
    }
  }

  /** A fenced block: three backticks, then everything up to and including
      the nearest later three backticks (line breaks included). */
  function FenceAt(s: string): (r: Option<nat>)
    ensures r.Some? ==> 6 <= r.value <= |s| && s[0] == '`'
  {
    if |s| >= 3 && s[..3] == "```" then
      match Find(s[3..], "```")
      case Some(j) => Some(3 + j + 3)
      case None => None
    else None
  }

  /** A fenced match ends at the first three backticks after the opening
      three. */
  lemma FenceAtShape(s: string)
    requires FenceAt(s).Some?
    ensures var n := FenceAt(s).value;
      s[..3] == "```" && s[n - 3..n] == "```"
      && forall k: nat :: 3 <= k < n - 3 ==> !OccursAt(s, "```", k)
  {
    var n := FenceAt(s).value;
    var j := Find(s[3..], "```").value;
    assert n == 6 + j;
    assert s[n - 3..n] == s[3..][j..j + 3];
    forall k: nat | 3 <= k < n - 3 ensures !OccursAt(s, "```", k) {
      assert !OccursAt(s[3..], "```", k - 3);
    }
  }

  /** `[` text `](` target `)` where the text, free of `]`, has at least
      `minText` characters (1 for a link, 0 for an image) and the target,
      free of `)`, at least one.  The capture is the text. */
  function BracketedAt(s: string, minText: nat): (r: Option<Hit>)
    ensures r.Some? ==> 4 + |r.value.group| < r.value.len <= |s| && s[0] == '['
  {
    if |s| >= 1 && s[0] == '[' then
      var m := RunWithout(s[1..], ']');
      if m >= minText && 2 + m < |s| && s[2 + m] == '(' then
        var n := RunWithout(s[3 + m..], ')');
        if n >= 1 && 3 + m + n < |s| then Some(Hit(4 + m + n, s[1..1 + m])) else None
      else None
    else None
  }

  /** A bracketed match is `[`, the capture (free of `]`), `](`, a
      target free of `)`, and `)`. */
  lemma BracketedAtShape(s: string, minText: nat)
    requires BracketedAt(s, minText).Some?
    ensures var h := BracketedAt(s, minText).value;
      |h.group| >= minText && ']' !in h.group
      && s[1..1 + |h.group|] == h.group && s[1 + |h.group|] == ']'
      && s[2 + |h.group|] == '(' && s[h.len - 1] == ')' && ')' !in s[3 + |h.group|..h.len - 1]
  {
  }

  /** One of the `markers` followed by white space, all of which the match
      takes. */
  function MarkerAt(s: string, markers: set<char>): (r: Option<nat>)
    ensures r.Some? ==> 2 <= r.value <= |s| && s[0] in markers
  {
    if |s| >= 2 && s[0] in markers && IsSpace(s[1]) then Some(1 + SpaceRun(s[1..]))
    else None
  }

  /** A marker match exists exactly when white space follows the marker,
      and takes all of that white space. */
  lemma MarkerAtShape(s: string, markers: set<char>)
    ensures MarkerAt(s, markers).Some? <==> (|s| >= 2 && s[0] in markers && IsSpace(s[1]))
    ensures MarkerAt(s, markers).Some? ==> var n := MarkerAt(s, markers).value;
      AllSpace(s[1..n]) && (n < |s| ==> !IsSpace(s[n]))
  {
    if MarkerAt(s, markers).Some? {
      var n := SpaceRun(s[1..]);
      assert s[1..1 + n] == s[1..][..n];
    }
  }

  /** Digits, a full stop, then white space, all of which the match takes.
      The greedy digit run ends at a non-digit, so the full stop must come
      right after the whole run. */
  function NumberedAt(s: string): (r: Option<nat>)
    ensures r.Some? ==> 3 <= r.value <= |s| && IsDigit(s[0])
  {
    var k := DigitRun(s);
    if 1 <= k && k + 1 < |s| && s[k] == '.' && IsSpace(s[k + 1]) then Some(k + 1 + SpaceRun(s[k + 1..]))
    else None
  }

  /** A numbered match exists exactly when the whole digit run is followed
      by a full stop and white space. */
  lemma NumberedAtShape(s: string)
    ensures NumberedAt(s).Some? <==> (1 <= DigitRun(s) && DigitRun(s) + 1 < |s| && s[DigitRun(s)] == '.' && IsSpace(s[DigitRun(s) + 1]))
  {
  }

  /** The characters a match of substitution `c` can begin with. */
  predicate IsLead(c: Cleanup, ch: char) {
    match c
    case Headers => ch == '#'
    case Bold => ch == '*'
    case Italic => ch == '*'
    case InlineCode => ch == '`'
    case CodeBlocks => ch == '`'
    case Links => ch == '['
    case Images => ch == '!'
    case Blockquotes => ch == '>'
    case ListMarkers => ch == '-' || ch == '*' || ch == '+'
    case NumberedMarkers => IsDigit(ch)
  }

  /** The match of substitution `c` at the start of `s`, with the capture
      group the replacement uses. */
  function MatchAt(c: Cleanup, s: string): (r: Option<Hit>)
    ensures r.Some? ==> 0 < r.value.len <= |s| && |Replacement(c, r.value.group)| < r.value.len
    ensures r.Some? ==> IsLead(c, s[0])
  {
    match c
    case Headers => (match HeaderAt(s) case Some(n) => Some(Hit(n, [])) case None => None)
    case Bold => DelimitedAt(s, '*', 2)
    case Italic => DelimitedAt(s, '*', 1)
    case InlineCode => DelimitedAt(s, '`', 1)
    case CodeBlocks => (match FenceAt(s) case Some(n) => Some(Hit(n, [])) case None => None)
    case Links => BracketedAt(s, 1)
    case Images =>
      if |s| >= 1 && s[0] == '!' then
        match BracketedAt(s[1..], 0) case Some(h) => Some(Hit(1 + h.len, [])) case None => None
      else None
    case Blockquotes => (match MarkerAt(s, {'>'}) case Some(n) => Some(Hit(n, [])) case None => None)
    case ListMarkers => (match MarkerAt(s, {'-', '*', '+'}) case Some(n) => Some(Hit(n, [])) case None => None)
    case NumberedMarkers => (match NumberedAt(s) case Some(n) => Some(Hit(n, [])) case None => None)
  }

  /** What a match is replaced by: the captured text for the substitutions
      written with `$1`, nothing for the others. */
  function Replacement(c: Cleanup, group: string): string {
    if c.Bold? || c.Italic? || c.InlineCode? || c.Links? then group else []
  }

  /** Substitution `c` matches the first `len` characters of `s`, capturing
      `group`. */
  predicate MatchIs(c: Cleanup, s: string, len: nat, group: string) {
    MatchAt(c, s).Some? && MatchAt(c, s).value.len == len && MatchAt(c, s).value.group == group
  }

  /** The global replace of substitution `c` over `s`.  Every match is
      replaced by something strictly shorter, so the text never grows. */
  function ReplaceAll(s: string, c: Cleanup): (r: string)
    ensures |r| <= |s|
    ensures MatchAt(c, s).Some? ==> |r| < |s|
    decreases |s|
  {
    if s == [] then []
    else match MatchAt(c, s)
      case Some(h) => Replacement(c, h.group) + ReplaceAll(s[h.len..], c)
      case None => [s[0]] + ReplaceAll(s[1..], c)
  }

  /** The substitutions in the order the source runs them
      (src/utils/wordCount.ts:6-15, src/utils/markdown.ts:93-102). */
  const Cascade: seq<Cleanup> :=
    [Headers, Bold, Italic, InlineCode, CodeBlocks, Links, Images, Blockquotes, ListMarkers, NumberedMarkers]

  /** Runs the substitutions `cs` one after the other. */
  function ReplaceEach(s: string, cs: seq<Cleanup>): (r: string)
    ensures |r| <= |s|
    decreases |cs|
  {
    if cs == [] then s else ReplaceEach(ReplaceAll(s, cs[0]), cs[1..])
  }

  /** The last substitution: every line feed becomes a space. */
  function NewlinesToSpaces(s: string): (r: string)
    ensures |r| == |s| && '\n' !in r
    ensures forall i :: 0 <= i < |s| && s[i] != '\n' ==> r[i] == s[i]
    ensures forall i :: 0 <= i < |s| && s[i] == '\n' ==> r[i] == ' '
  {
    if s == [] then [] else [if s[0] == '\n' then ' ' else s[0]] + NewlinesToSpaces(s[1..])
  }

  /** The whole cascade before the final `trim()`: it only deletes
      characters or turns line feeds into spaces, so it never lengthens the
      text, and it leaves no line feed. */
  function StripMarkers(s: string): (r: string)
    ensures |r| <= |s| && '\n' !in r
  {
    NewlinesToSpaces(ReplaceEach(s, Cascade))
  }

  /** Characters other than the line feed that no substitution of the
      cascade reacts to (see `PlainNoLead`). */
  predicate IsPlain(c: char) {
    c != '\n' && c != '#' && c != '*' && c != '`' && c != '[' && c != '!' && c != '>'
    && c != '-' && c != '+' && !IsDigit(c)
  }

  lemma PlainNoLead(c: char, rule: Cleanup)
    requires IsPlain(c)
    ensures !IsLead(rule, c)
  {
  }

  predicate Plain(s: string) {
    forall i :: 0 <= i < |s| ==> IsPlain(s[i])
  }

  /** No match of any substitution in `cs` can begin inside `s`. */
  predicate Inert(s: string, cs: seq<Cleanup>) {
    forall i, k :: 0 <= i < |s| && 0 <= k < |cs| ==> !IsLead(cs[k], s[i])
  }

  /** Where no match of `c` begins, the first character is kept. */
  lemma ReplaceAllKeepsHead(t: string, c: Cleanup)
    requires t != [] && !IsLead(c, t[0])
    ensures ReplaceAll(t, c) == [t[0]] + ReplaceAll(t[1..], c)
  {
  }

  /** A prefix no match of `c` can begin in passes through untouched. */
  lemma {:induction false} ReplaceAllPrefix(p: string, s: string, c: Cleanup)
    requires forall i :: 0 <= i < |p| ==> !IsLead(c, p[i])
    ensures ReplaceAll(p + s, c) == p + ReplaceAll(s, c)
  {
    if p == [] {
      assert p + s == s;
    } else {
      var t := p + s;
      assert t[0] == p[0] && t[1..] == p[1..] + s;
      ReplaceAllKeepsHead(t, c);
      ReplaceAllPrefix(p[1..], s, c);
      HeadTail(p, ReplaceAll(s, c));
    }
  }

  lemma HeadTail(p: string, r: string)
    requires p != []
    ensures [p[0]] + (p[1..] + r) == p + r
  {
  }

  /** A substitution that cannot begin a match anywhere in `s` leaves it
      as it is. */
  lemma NoLeadUnchanged(s: string, c: Cleanup)
    requires forall i :: 0 <= i < |s| ==> !IsLead(c, s[i])
    ensures ReplaceAll(s, c) == s
  {
    ReplaceAllPrefix(s, [], c);
    assert s + [] == s;
  }

  /** Substitutions that cannot begin a match anywhere in `s` leave it as
      it is. */
  lemma {:induction false} InertUnchanged(s: string, cs: seq<Cleanup>)
    requires Inert(s, cs)
    ensures ReplaceEach(s, cs) == s
    decreases |cs|
  {
    if cs != [] {
      ReplaceAllPrefix(s, [], cs[0]);
      assert s + [] == s;
      InertUnchanged(s, cs[1..]);
    }
  }

  lemma {:induction false} ReplaceEachAppend(s: string, cs1: seq<Cleanup>, cs2: seq<Cleanup>)
    ensures ReplaceEach(s, cs1 + cs2) == ReplaceEach(ReplaceEach(s, cs1), cs2)
    decreases |cs1|
  {
    if cs1 != [] {
      assert (cs1 + cs2)[1..] == cs1[1..] + cs2;
      ReplaceEachAppend(ReplaceAll(s, cs1[0]), cs1[1..], cs2);
    } else {
      assert cs1 + cs2 == cs2;
    }
  }

  lemma {:induction false} PlainNoNewlines(s: string)
    requires Plain(s)
    ensures NewlinesToSpaces(s) == s
  {
    if s != [] {
      PlainNoNewlines(s[1..]);
    }
  }

  /** The cascade leaves plain text as it is. */
  lemma PlainStripped(s: string)
    requires Plain(s)
    ensures StripMarkers(s) == s
  {
    assert ReplaceEach(s, Cascade) == s by {
      PlainInert(s, Cascade);
      InertUnchanged(s, Cascade);
    }
    PlainNoNewlines(s);
  }

  lemma PlainInert(s: string, cs: seq<Cleanup>)
    requires Plain(s)
    ensures Inert(s, cs)
  {
  }

  /** Splitting the list of substitutions at `k`. */
  lemma CascadeAt(s: string, k: nat)
    requires k < |Cascade|
    ensures ReplaceEach(s, Cascade)
         == ReplaceEach(ReplaceAll(ReplaceEach(s, Cascade[..k]), Cascade[k]), Cascade[k + 1..])
  {
    var before, after := Cascade[..k], Cascade[k + 1..];
    assert Cascade == before + ([Cascade[k]] + after);
    ReplaceEachAppend(s, before, [Cascade[k]] + after);
  }

  /** When the substitutions before the `k`-th leave `s` as it is, and what
      the `k`-th makes of it is plain, the cascade's result is that. */
  lemma OnlyOneApplies(s: string, k: nat, c: Cleanup, r: string)
    requires k < |Cascade| && Cascade[k] == c && ReplaceEach(s, Cascade[..k]) == s
    requires ReplaceAll(s, c) == r && Plain(r)
    ensures StripMarkers(s) == r
  {
    CascadeAt(s, k);
    PlainInert(r, Cascade[k + 1..]);
    InertUnchanged(r, Cascade[k + 1..]);
    PlainNoNewlines(r);
  }

  /** When the header and bold substitutions leave `s` as it is and the
      italic one leaves plain text, the cascade's result is that. */
  lemma ItalicOnlyApplies(s: string, r: string)
    requires ReplaceAll(s, Headers) == s && ReplaceAll(s, Bold) == s
    requires ReplaceAll(s, Italic) == r && Plain(r)
    ensures StripMarkers(s) == r
  {
    assert ReplaceEach(s, Cascade[..2]) == s by {
      assert Cascade[..2] == [Headers, Bold];
      PairFixed(s, Headers, Bold);
    }
    OnlyOneApplies(s, 2, Italic, r);
  }

  lemma PairFixed(s: string, a: Cleanup, b: Cleanup)
    requires ReplaceAll(s, a) == s && ReplaceAll(s, b) == s
    ensures ReplaceEach(s, [a, b]) == s
  {
    calc {
      ReplaceEach(s, [a, b]);
      ReplaceEach(ReplaceAll(s, a), [a, b][1..]);
      { assert [a, b][1..] == [b]; }
      ReplaceEach(s, [b]);
      ReplaceEach(ReplaceAll(s, b), [b][1..]);
      { assert [b][1..] == []; }
      s;
    }
  }

  /** One step of the global replace at a match. */
  lemma ReplaceAllAtHit(s: string, c: Cleanup, len: nat, group: string)
    requires s != [] && MatchIs(c, s, len, group)
    ensures len <= |s|
    ensures ReplaceAll(s, c) == Replacement(c, group) + ReplaceAll(s[len..], c)
  {
  }

  /** A match covering all of `s`. */
  lemma ReplaceAllWhole(s: string, c: Cleanup, group: string)
    requires s != [] && MatchIs(c, s, |s|, group)
    ensures ReplaceAll(s, c) == Replacement(c, group)
  {
    ReplaceAllAtHit(s, c, |s|, group);
    assert s[|s|..] == [];
    assert Replacement(c, group) + [] == Replacement(c, group);
  }

  /** A header marker of `n` '#' and one space in front of text that does
      not start with white space is matched whole. */
  lemma HeaderAtMarker(n: nat, t: string)
    requires 1 <= n <= 6 && (t == [] || !IsSpace(t[0]))
    ensures HeaderAt(Repeat('#', n) + " " + t).Some?
    ensures HeaderAt(Repeat('#', n) + " " + t).value == n + 1
  {
    HeaderRunOf(n, t);
    HeaderSpaceRun(n, t);
    HeaderAtRun(Repeat('#', n) + " " + t);
  }

  lemma HeaderRunOf(n: nat, t: string)
    ensures RunOf(Repeat('#', n) + " " + t, '#') == n
  {
    assert Repeat('#', n) + " " + t == Repeat('#', n) + (" " + t);
    RunOfRepeat('#', n, " " + t);
  }

  lemma HeaderSpaceRun(n: nat, t: string)
    requires t == [] || !IsSpace(t[0])
    ensures var s := Repeat('#', n) + " " + t; n < |s| && s[n] == ' ' && SpaceRun(s[n..]) == 1
  {
    var s := Repeat('#', n) + " " + t;
    assert s[n..] == " " + t;
    SpaceRunPrefix(" ", t);
  }

  /** The header match where the run of '#' is one to six long and white
      space follows it. */
  lemma HeaderAtRun(s: string)
    requires 1 <= RunOf(s, '#') <= 6 && RunOf(s, '#') < |s| && IsSpace(s[RunOf(s, '#')])
    ensures HeaderAt(s).Some? && HeaderAt(s).value == RunOf(s, '#') + SpaceRun(s[RunOf(s, '#')..])
  {
  }

  /** Such a marker in front of text free of '#' is removed, and nothing
      else is. */
  lemma HeaderMarkerRemoved(n: nat, t: string)
    requires 1 <= n <= 6 && (t == [] || !IsSpace(t[0]))
    requires forall i :: 0 <= i < |t| ==> t[i] != '#'
    ensures ReplaceAll(Repeat('#', n) + " " + t, Headers) == t
  {
    var s := Repeat('#', n) + " " + t;
    HeaderAtMarker(n, t);
    ReplaceAllAtHit(s, Headers, n + 1, []);
    assert s[n + 1..] == t;
    ReplaceAllPrefix(t, [], Headers);
    assert t + [] == t;
  }

  /** `RunOf` stops at the end of a run of `n` copies. */
  lemma {:induction false} RunOfRepeat(c: char, n: nat, rest: string)
    requires rest == [] || rest[0] != c
    ensures RunOf(Repeat(c, n) + rest, c) == n
  {
    if n > 0 {
      assert (Repeat(c, n) + rest)[1..] == Repeat(c, n - 1) + rest;
      RunOfRepeat(c, n - 1, rest);
    } else {
      assert Repeat(c, n) + rest == rest;
    }
  }

  /** Text between two delimiters of `width` copies of `d` is found whole. */
  lemma DelimitedWhole(d: char, width: nat, t: string)
    requires 1 <= width && t != [] && d !in t
    ensures var r := DelimitedAt(Repeat(d, width) + t + Repeat(d, width), d, width);
      r.Some? && r.value.len == width + |t| + width && r.value.group == t
  {
    var s := Repeat(d, width) + t + Repeat(d, width);
    DelimitedParts(d, width, t);
    DelimitedAtFound(s, d, width, |t|);
  }

  /** The delimited matcher succeeds once both delimiters are in place
      around a non-empty delimiter-free stretch. */
  lemma DelimitedAtFound(s: string, d: char, width: nat, m: nat)
    requires width <= |s| && s[..width] == Repeat(d, width)
    requires m == RunWithout(s[width..], d) && 1 <= m && width + m + width <= |s|
    requires s[width + m..width + m + width] == Repeat(d, width)
    ensures var r := DelimitedAt(s, d, width);
      r.Some? && r.value.len == width + m + width && r.value.group == s[width..width + m]
  {
  }

  lemma DelimitedParts(d: char, width: nat, t: string)
    requires 1 <= width && t != [] && d !in t
    ensures var s := Repeat(d, width) + t + Repeat(d, width);
      s[..width] == Repeat(d, width) && RunWithout(s[width..], d) == |t|
      && s[width + |t|..width + |t| + width] == Repeat(d, width) && s[width..width + |t|] == t
  {
    var s := Repeat(d, width) + t + Repeat(d, width);
    assert s[width..] == t + Repeat(d, width);
    RunWithoutPrefix(t, d, Repeat(d, width));
  }

  /** The delimited substitutions remove their delimiters around text
      free of the delimiter. */
  lemma DelimitedRemoved(c: Cleanup, d: char, width: nat, t: string)
    requires (c == Bold && d == '*' && width == 2) || (c == Italic && d == '*' && width == 1)
          || (c == InlineCode && d == '`' && width == 1)
    requires t != [] && d !in t
    ensures ReplaceAll(Repeat(d, width) + t + Repeat(d, width), c) == t
  {
    var s := Repeat(d, width) + t + Repeat(d, width);
    DelimitedWhole(d, width, t);
    assert MatchIs(c, s, |s|, t);
    ReplaceAllWhole(s, c, t);
  }

  /** A link `[t](url)` is found whole, its capture being `t`. */
  lemma LinkWhole(t: string, url: string)
    requires t != [] && ']' !in t && url != [] && ')' !in url
    ensures var r := BracketedAt("[" + t + "](" + url + ")", 1);
      r.Some? && r.value.len == 4 + |t| + |url| && r.value.group == t
  {
    var s := "[" + t + "](" + url + ")";
    assert s[1..] == t + ("](" + url + ")");
    RunWithoutPrefix(t, ']', "](" + url + ")");
    assert s[2 + |t|] == '(';
    assert s[3 + |t|..] == url + ")";
    RunWithoutPrefix(url, ')', ")");
    assert s[1..1 + |t|] == t;
  }

  /** A marker character and one space in front of text that does not start
      with white space is removed by the marker's substitution, provided
      the text holds no character the substitution reacts to. */
  lemma MarkerRemoved(c: Cleanup, m: char, t: string)
    requires (c == Blockquotes && m == '>') || (c == ListMarkers && m in "-*+")
    requires t == [] || !IsSpace(t[0])
    requires forall i :: 0 <= i < |t| ==> !IsLead(c, t[i])
    ensures ReplaceAll([m] + " " + t, c) == t
  {
    var s := [m] + " " + t;
    assert s[1..] == " " + t;
    SpaceRunPrefix(" ", t);
    assert MatchIs(c, s, 2, []);
    ReplaceAllAtHit(s, c, 2, []);
    assert s[2..] == t;
    NoLeadUnchanged(t, c);
  }

  lemma {:induction false} DigitRunPrefix(d: string, rest: string)
    requires forall i :: 0 <= i < |d| ==> IsDigit(d[i])
    requires rest == [] || !IsDigit(rest[0])
    ensures DigitRun(d + rest) == |d|
  {
    if d != [] {
      assert (d + rest)[1..] == d[1..] + rest;
      DigitRunPrefix(d[1..], rest);
    } else {
      assert d + rest == rest;
    }
  }

  lemma NumberedAtMarker(d: string, t: string)
    requires d != [] && forall i :: 0 <= i < |d| ==> IsDigit(d[i])
    requires t == [] || !IsSpace(t[0])
    ensures NumberedAt(d + ". " + t).Some? && NumberedAt(d + ". " + t).value == |d| + 2
  {
    var s := d + ". " + t;
    assert s == d + (". " + t);
    DigitRunPrefix(d, ". " + t);
    assert s[|d|] == '.' && IsSpace(s[|d| + 1]);
    assert s[|d| + 1..] == " " + t;
    SpaceRunPrefix(" ", t);
  }

  /** A list number, a full stop and one space in front of text free of
      digits that does not start with white space is removed. */
  lemma NumberRemoved(d: string, t: string)
    requires d != [] && forall i :: 0 <= i < |d| ==> IsDigit(d[i])
    requires t == [] || !IsSpace(t[0])
    requires forall i :: 0 <= i < |t| ==> !IsDigit(t[i])
    ensures ReplaceAll(d + ". " + t, NumberedMarkers) == t
  {
    var s := d + ". " + t;
    NumberedAtMarker(d, t);
    ReplaceAllAtHit(s, NumberedMarkers, |d| + 2, []);
    assert s[|d| + 2..] == t;
    NoLeadUnchanged(t, NumberedMarkers);
  }

  /** The position in the cascade of the first substitution that reacts to
      `ch`, or the cascade's length for a character none reacts to. */
  function FirstUse(ch: char): (k: nat)
    ensures k <= |Cascade|
  {
    if ch == '#' then 0
    else if ch == '*' then 1
    else if ch == '`' then 3
    else if ch == '[' then 5
    else if ch == '!' then 6
    else if ch == '>' then 7
    else if ch == '-' || ch == '+' then 8
    else if IsDigit(ch) then 9
    else 10
  }

  /** No character of `s` is used by a substitution before the `k`-th. */
  predicate UnusedBelow(s: string, k: nat) {
    forall i :: 0 <= i < |s| ==> k <= FirstUse(s[i])
  }

  lemma UnusedConcat(a: string, b: string, k: nat)
    requires UnusedBelow(a, k) && UnusedBelow(b, k)
    ensures UnusedBelow(a + b, k)
  {
    forall i | 0 <= i < |a + b| ensures k <= FirstUse((a + b)[i]) {
      if i >= |a| {
        assert (a + b)[i] == b[i - |a|];
      }
    }
  }

  lemma PlainUnused(s: string, k: nat)
    requires Plain(s) && k <= |Cascade|
    ensures UnusedBelow(s, k)
  {
  }

  /** Text whose every character is first used by the `k`-th substitution
      or later goes through the substitutions before it unchanged. */
  lemma UnusedBefore(s: string, k: nat)
    requires k <= |Cascade| && UnusedBelow(s, k)
    ensures ReplaceEach(s, Cascade[..k]) == s
  {
    UnusedInert(s, k);
    InertUnchanged(s, Cascade[..k]);
  }

  lemma UnusedInert(s: string, k: nat)
    requires k <= |Cascade| && UnusedBelow(s, k)
    ensures Inert(s, Cascade[..k])
  {
    var before := Cascade[..k];
    forall i, j | 0 <= i < |s| && 0 <= j < |before| ensures !IsLead(before[j], s[i]) {
      assert before[j] == Cascade[j];
      FirstUseFirst(s[i], j);
    }
  }

  /** The `j`-th substitution leaves text it does not use as it is. */
  lemma UnusedFixed(s: string, j: nat, c: Cleanup)
    requires j < |Cascade| && Cascade[j] == c && UnusedBelow(s, j + 1)
    ensures ReplaceAll(s, c) == s
  {
    forall i | 0 <= i < |s|
      ensures !IsLead(c, s[i])
    {
      FirstUseFirst(s[i], j);
    }
    NoLeadUnchanged(s, c);
  }

  /** No substitution before the first use of `ch` reacts to it. */
  lemma FirstUseFirst(ch: char, j: nat)
    requires j < FirstUse(ch)
    ensures !IsLead(Cascade[j], ch)
  {
  }

  /** A list number and its full stop and space are first used by the last
      substitution. */
  lemma NumberUnused(d: string)
    requires forall i :: 0 <= i < |d| ==> IsDigit(d[i])
    ensures UnusedBelow(d + ". ", 9)
  {
    assert UnusedBelow(d, 9);
    UnusedConcat(d, ". ", 9);
  }
}
