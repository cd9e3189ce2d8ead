/** The patterns of the HTML-to-markdown conversion of
    src/components/WysiwygEditor.tsx:5-45, each as its own matcher, the
    replacements and callbacks, and the global replace that runs one of
    them over a string.  Every pattern of the conversion begins with a
    literal '<', which is what most of the lemmas below turn on. */
module HtmlPatterns {
  import opened JsString

  /** A pattern of the conversion.
      `Element(name, inner, close)` is `<name[^>]*>`, then `<n[^>]*>` for
      each `n` of `inner`, then a lazy capture `(.*?)` and the closing text
      `close`, tag names ignoring ASCII case (`/gi`).
      `Void(name)` is `<name[^>]*>` (`/gi`).  `AnyTag` is `<[^>]+>` (`/g`). */
  datatype Pattern =
    | Element(name: string, inner: seq<string>, close: string)
    | Void(name: string)
    | AnyTag

  /** What a match becomes: the capture between two fixed texts (the
      replacement string `before$1after`), the ordered-list callback, or
      the blockquote callback. */
  datatype Action = Wrap(before: string, after: string) | Numbered | Quoted

  datatype Rule = Rule(pattern: Pattern, action: Action)

  /** `<name[^>]*>` at the start of `s`: the length of the opening tag.
      The attribute run cannot give back a character (none of them is a
      '>'), so it stops at the first '>', which must exist. */
  function OpenTagAt(s: string, name: string): (r: Option<nat>)
    ensures r.Some? ==> |name| + 2 <= r.value <= |s| && s[0] == '<' && s[r.value - 1] == '>'
  {
    if StartsWithCI(s, "<" + name) then
      var k := |name| + 1;
      var m := RunWithout(s[k..], '>');
      assert Lower(s[0]) == '<';
      if k + m < |s| then
        assert s[k + m] == s[k..][m];
        Some(k + m + 1)
      else None
    else None
  }

  /** The opening tags `names`, one after the other, at the start of `s`:
      their total length. */
  function OpenTagsAt(s: string, names: seq<string>): (r: Option<nat>)
    ensures r.Some? ==> r.value <= |s|
    decreases |names|
  {
    if names == [] then Some(0)
    else
      match OpenTagAt(s, names[0])
      case None => None
      case Some(k) =>
        match OpenTagsAt(s[k..], names[1..])
        case None => None
        case Some(j) => Some(k + j)
  }

  /** A lazy `(.*?)` followed by `close` (ignoring ASCII case): the length
      of the shortest capture after which `close` follows.  `.` does not
      match a line terminator, so the search gives up at the first one. */
  function LazyClose(s: string, close: string): (r: Option<nat>)
    ensures r.Some? ==> r.value + |close| <= |s| && NoLineTerminator(s[..r.value])
    decreases |s|
  {
    if StartsWithCI(s, close) then Some(0)
    else if s == [] || IsLineTerminator(s[0]) then None
    else
      match LazyClose(s[1..], close)
      case None => None
      case Some(j) =>
        assert s[..j + 1] == [s[0]] + s[1..][..j];
        Some(j + 1)
  }

  /** The lazy capture ends where `close` first follows on the same line:
      `close` begins there and at no earlier position, and when there is
      no capture, `close` begins at no position before the first line
      terminator. */
  lemma {:induction false} LazyCloseNearest(s: string, close: string)
    ensures var r := LazyClose(s, close);
      r.Some? ==>
        (StartsWithCI(s[r.value..], close) && forall j :: 0 <= j < r.value ==> !StartsWithCI(s[j..], close))
    ensures LazyClose(s, close).None? ==>
      forall j :: 0 <= j <= |s| && NoLineTerminator(s[..j]) ==> !StartsWithCI(s[j..], close)
    decreases |s|
  {
    if StartsWithCI(s, close) {
      assert s[0..] == s;
    } else if s == [] || IsLineTerminator(s[0]) {
      assert s[0..] == s;
      forall j | 0 < j <= |s| ensures !NoLineTerminator(s[..j]) {
        assert s[..j][0] == s[0];
      }
    } else {
      var t := s[1..];
      LazyCloseNearest(t, close);
      assert s[0..] == s;
      forall j | 0 < j <= |s| ensures s[j..] == t[j - 1..] && s[..j][1..] == t[..j - 1] {
      }
      match LazyClose(t, close)
      case Some(c) =>
        forall j | 0 <= j < c + 1 ensures !StartsWithCI(s[j..], close) {
          if j > 0 {
            assert s[j..] == t[j - 1..];
          }
        }
      case None =>
        forall j | 0 <= j <= |s| && NoLineTerminator(s[..j]) ensures !StartsWithCI(s[j..], close) {
          if j > 0 {
            assert s[j..] == t[j - 1..];
            assert NoLineTerminator(t[..j - 1]) by {
              forall i | 0 <= i < j - 1 ensures !IsLineTerminator(t[i]) {
                assert t[i] == s[..j][i + 1];
              }
            }
          }
        }
    }
  }

  /** `<name[^>]*>` matches exactly when `s` starts with `<name` (ignoring
      ASCII case) and a '>' follows; the tag then ends at the first such
      '>'. */
  lemma OpenTagFirst(s: string, name: string)
    ensures OpenTagAt(s, name).Some? <==> StartsWithCI(s, "<" + name) && '>' in s[|name| + 1..]
    ensures OpenTagAt(s, name).Some? ==> '>' !in s[|name| + 1..OpenTagAt(s, name).value - 1]
  {
    if StartsWithCI(s, "<" + name) {
      var k := |name| + 1;
      var m := RunWithout(s[k..], '>');
      assert s[k..][..m] == s[k..k + m];
      if k + m == |s| {
        assert s[k..] == s[k..][..m];
      } else {
        assert s[k + m] == s[k..][m];
      }
    }
  }

  /** The match of `p` at the start of `s`.  Every match begins with '<'
      and its capture holds no line terminator. */
  function PatternAt(p: Pattern, s: string): (r: Option<Hit>)
    ensures r.Some? ==> 1 <= r.value.len <= |s| && s[0] == '<'
    ensures r.Some? ==> NoLineTerminator(r.value.group)
  {
    match p
    case Element(name, inner, close) => ElementAt(s, name, inner, close)
    case Void(name) =>
      (match OpenTagAt(s, name)
       case None => None
       case Some(k) => Some(Hit(k, [])))
    case AnyTag =>
      if s != [] && s[0] == '<' then
        var m := RunWithout(s[1..], '>');
        if 1 <= m && 1 + m < |s| then Some(Hit(m + 2, [])) else None
      else None
  }

  /** The opening tag, the inner opening tags, then the capture. */
  function ElementAt(s: string, name: string, inner: seq<string>, close: string): (r: Option<Hit>)
    ensures r.Some? ==> 1 <= r.value.len <= |s| && s[0] == '<'
    ensures r.Some? ==> NoLineTerminator(r.value.group)
  {
    match OpenTagAt(s, name)
    case None => None
    case Some(k) =>
      match OpenTagsAt(s[k..], inner)
      case None => None
      case Some(j) => CaptureAt(s, k + j, close)
  }

  /** The lazy capture from position `start` of `s` and the closing text
      after it: the match ends after the closing text and captures what
      lies between. */
  function CaptureAt(s: string, start: nat, close: string): (r: Option<Hit>)
    requires start <= |s|
    ensures r.Some? ==> start <= r.value.len <= |s|
    ensures r.Some? ==> NoLineTerminator(r.value.group)
  {
    match LazyClose(s[start..], close)
    case None => None
    case Some(c) =>
      assert s[start..][..c] == s[start..start + c];
      Some(Hit(start + c + |close|, s[start..start + c]))
  }

  /** `<name[^>]*>(.*?)</name>`: an element with nothing required between
      its opening tag and the capture. */
  function Tag(name: string): Pattern {
    Element(name, [], "</" + name + ">")
  }

  /** The tag name a pattern opens with (none for `AnyTag`). */
  function TagName(p: Pattern): string {
    match p
    case Element(name, _, _) => name
    case Void(name) => name
    case AnyTag => []
  }

  /** The list item pattern the ordered-list callback runs again. */
  const ListItem: Pattern := Element("li", [], "</li>")

  /** One decimal digit. */
  function Digit(d: nat): (c: char)
    requires d < 10
    ensures IsDigit(c) && c as int - '0' as int == d
  {
    ('0' as int + d) as char
  }

  /** The decimal numeral of `n`, as a template literal writes it. */
  function NatToString(n: nat): (r: string)
    ensures r != [] && forall i :: 0 <= i < |r| ==> IsDigit(r[i])
    decreases n
  {
    if n < 10 then [Digit(n)] else NatToString(n / 10) + [Digit(n % 10)]
  }

  /** The value of a numeral. */
  function DecimalValue(s: string): nat
    requires forall i :: 0 <= i < |s| ==> IsDigit(s[i])
  {
    if s == [] then 0
    else
      assert IsDigit(s[|s| - 1]);
      DecimalValue(s[..|s| - 1]) * 10 + (s[|s| - 1] as int - '0' as int)
  }

  /** The numeral reads back as the number, and has no leading zero. */
  lemma {:induction false} NatToStringValue(n: nat)
    ensures DecimalValue(NatToString(n)) == n
    ensures n > 0 ==> NatToString(n)[0] != '0'
    decreases n
  {
    var r := NatToString(n);
    if n >= 10 {
      var q := NatToString(n / 10);
      NatToStringValue(n / 10);
      assert r[..|r| - 1] == q;
      assert r[0] == q[0];
    }
  }

  /** The ordered-list callback's inner replace: every list item becomes
      the running number, ". $1" and a line feed.  The callback returns a
      string, which is used as it is, so the `$1` stays literal and the
      item's text is dropped. */
  function NumberItems(s: string, n: nat): (r: string)
    decreases |s|
  {
    if s == [] then []
    else
      match PatternAt(ListItem, s)
      case Some(h) => NatToString(n) + ". $1\n" + NumberItems(s[h.len..], n + 1)
      case None => [s[0]] + NumberItems(s[1..], n)
  }

  /** `replace(/^/gm, '> ')`: "> " at the start and after every line
      terminator. */
  function PrefixLines(s: string): (r: string)
    ensures |r| >= 2 && r[..2] == "> "
  {
    "> " + AfterTerminators(s)
  }

  function AfterTerminators(s: string): (r: string)
    ensures |r| >= |s|
  {
    if s == [] then []
    else [s[0]] + (if IsLineTerminator(s[0]) then "> " else []) + AfterTerminators(s[1..])
  }

  /** Text of one line only gains the leading "> ". */
  lemma {:induction false} SingleLinePrefixed(s: string)
    requires NoLineTerminator(s)
    ensures PrefixLines(s) == "> " + s
  {
    AfterTerminatorsNone(s);
  }

  lemma {:induction false} AfterTerminatorsNone(s: string)
    requires NoLineTerminator(s)
    ensures AfterTerminators(s) == s
  {
    if s != [] {
      AfterTerminatorsNone(s[1..]);
    }
  }

  /** Text with a line feed gets "> " after it as well. */
  lemma TwoLinesPrefixed(a: string, b: string)
    requires NoLineTerminator(a) && NoLineTerminator(b)
    ensures PrefixLines(a + "\n" + b) == "> " + a + "\n> " + b
  {
    var nb := "\n" + b;
    assert a + "\n" + b == a + nb;
    AfterTerminatorsConcat(a, nb);
    assert nb[0] == '\n' && nb[1..] == b;
    AfterTerminatorsNone(b);
    assert AfterTerminators(nb) == "\n> " + b;
  }

  lemma {:induction false} AfterTerminatorsConcat(a: string, b: string)
    requires NoLineTerminator(a)
    ensures AfterTerminators(a + b) == a + AfterTerminators(b)
  {
    if a == [] {
      assert a + b == b;
    } else {
      assert (a + b)[1..] == a[1..] + b;
      AfterTerminatorsConcat(a[1..], b);
    }
  }

  /** The text a match is replaced with. */
  function Replacement(a: Action, group: string): string {
    match a
    case Wrap(before, after) => before + group + after
    case Numbered => NumberItems(group, 1) + "\n"
    case Quoted => PrefixLines(group) + "\n\n"
  }

  /** `String.prototype.replace` with a global pattern: at each position
      from the left, a match is replaced and the scan goes on after it;
      otherwise the character is kept.  This is the same scan as
      `MarkdownSyntax.ReplaceAll`, written over element patterns.  The two
      are kept apart because they rest on different facts: a markdown
      cleanup never lengthens the text and is begun only by its lead
      characters, while an element replacement may lengthen the text and
      every match here begins with '<'. */
  function ReplaceRule(s: string, rule: Rule): (r: string)
    decreases |s|
  {
    if s == [] then []
    else
      match PatternAt(rule.pattern, s)
      case Some(h) => Replacement(rule.action, h.group) + ReplaceRule(s[h.len..], rule)
      case None => [s[0]] + ReplaceRule(s[1..], rule)
  }

  /** A character that cannot begin a match passes through. */
  lemma ReplaceRuleKeepsHead(s: string, rule: Rule)
    requires s != [] && s[0] != '<'
    ensures ReplaceRule(s, rule) == [s[0]] + ReplaceRule(s[1..], rule)
  {
  }

  /** Text free of '<' passes through every rule: no pattern can begin in
      it. */
  lemma {:induction false} NoTagTextKept(s: string, rule: Rule)
    requires '<' !in s
    ensures ReplaceRule(s, rule) == s
  {
    if s != [] {
      NoTagTextKept(s[1..], rule);
    }
  }

  /** A prefix free of '<' passes through untouched. */
  lemma {:induction false} NoTagPrefixKept(p: string, s: string, rule: Rule)
    requires '<' !in p
    ensures ReplaceRule(p + s, rule) == p + ReplaceRule(s, rule)
  {
    if p == [] {
      assert p + s == s;
    } else {
      var rest := ReplaceRule(s, rule);
      NoTagPrefixKept(p[1..], s, rule);
      KeptHeadOfConcat(p, s, rule);
      ConsConcat(p, rest);
    }
  }

  lemma AppendAssoc(a: string, b: string, c: string)
    ensures a + (b + c) == (a + b) + c
  {
  }

  lemma ConsConcat(p: string, x: string)
    requires p != []
    ensures [p[0]] + (p[1..] + x) == p + x
  {
    assert p == [p[0]] + p[1..];
  }

  lemma KeptHeadOfConcat(p: string, s: string, rule: Rule)
    requires p != [] && p[0] != '<'
    ensures ReplaceRule(p + s, rule) == [p[0]] + ReplaceRule(p[1..] + s, rule)
  {
    var t := p + s;
    assert t[0] == p[0] && t[1..] == p[1..] + s;
    ReplaceRuleKeepsHead(t, rule);
  }

  /** The tag-stripping pass: `replace(/<[^>]+>/g, '')`. */
  const StripTags: Rule := Rule(AnyTag, Wrap([], []))

  /** No `<[^>]+>` begins `u`: it does not start with '<', or its '<' is
      directly followed by '>', or no '>' follows at all. */
  predicate NoTagAt(u: string) {
    u == [] || u[0] != '<' || (|u| > 1 && u[1] == '>') || '>' !in u[1..]
  }

  /** No `<[^>]+>` occurs anywhere in `s`. */
  predicate TagFree(s: string) {
    forall i :: 0 <= i < |s| ==> NoTagAt(s[i..])
  }

  /** `NoTagAt` says exactly that the tag pattern finds no match. */
  lemma NoTagAtMeansNoMatch(u: string)
    ensures NoTagAt(u) <==> PatternAt(AnyTag, u).None?
  {
    if u != [] && u[0] == '<' {
      var m := RunWithout(u[1..], '>');
      if m == |u| - 1 {
        assert u[1..][..m] == u[1..];
      }
    }
  }

  /** Stripping keeps only characters of its input. */
  lemma {:induction false} StrippedChars(s: string, c: char)
    requires c in ReplaceRule(s, StripTags)
    ensures c in s
    decreases |s|
  {
    if s != [] {
      match PatternAt(AnyTag, s)
      case Some(h) =>
        assert ReplaceRule(s, StripTags) == ReplaceRule(s[h.len..], StripTags);
        StrippedChars(s[h.len..], c);
        assert c in s[h.len..];
      case None =>
        if c != s[0] {
          StrippedChars(s[1..], c);
        }
    }
  }

  /** A string is tag-free when its head is and its tail is. */
  lemma TagFreeCons(c: char, t: string)
    requires NoTagAt([c] + t) && TagFree(t)
    ensures TagFree([c] + t)
  {
    var u := [c] + t;
    forall i | 1 <= i < |u| ensures NoTagAt(u[i..]) {
      assert u[i..] == t[i - 1..];
    }
  }

  lemma TagFreeSuffix(s: string, k: nat)
    requires TagFree(s) && k <= |s|
    ensures TagFree(s[k..])
  {
    forall i | 0 <= i < |s| - k ensures NoTagAt(s[k..][i..]) {
      assert s[k..][i..] == s[k + i..];
    }
  }

  /** After the stripping pass no `<[^>]+>` is left. */
  lemma {:induction false} StrippedTagFree(s: string)
    ensures TagFree(ReplaceRule(s, StripTags))
    decreases |s|
  {
    if s != [] {
      match PatternAt(AnyTag, s)
      case Some(h) =>
        assert ReplaceRule(s, StripTags) == ReplaceRule(s[h.len..], StripTags);
        StrippedTagFree(s[h.len..]);
      case None =>
        var rest := ReplaceRule(s[1..], StripTags);
        StrippedTagFree(s[1..]);
        NoTagAtMeansNoMatch(s);
        if s[0] == '<' && |s| > 1 && s[1] == '>' {
          ReplaceRuleKeepsHead(s[1..], StripTags);
        } else if s[0] == '<' && '>' !in s[1..] && '>' in rest {
          StrippedChars(s[1..], '>');
        }
        assert ([s[0]] + rest)[1..] == rest;
        TagFreeCons(s[0], rest);
    }
  }

  /** A tag-free string stays tag-free when cut at both ends. */
  lemma TagFreeSlice(s: string, a: nat, b: nat)
    requires TagFree(s) && a <= b <= |s|
    ensures TagFree(s[a..b])
  {
    var t := s[a..b];
    forall i | 0 <= i < |t| ensures NoTagAt(t[i..]) {
      var u := s[a + i..];
      assert NoTagAt(u);
      assert t[i..] == u[..b - a - i];
    }
  }

  lemma TrimmedTagFree(s: string)
    requires TagFree(s)
    ensures TagFree(Trim(s))
  {
    var n, r := SpaceRun(s), Trim(s);
    assert r == s[n..n + |r|];
    TagFreeSlice(s, n, n + |r|);
  }

  /** Number of line feeds in the white-space stretch that begins `s`. */
  function LFsAhead(s: string): nat {
    if s != [] && IsSpace(s[0]) then (if s[0] == '\n' then 1 else 0) + LFsAhead(s[1..]) else 0
  }

  /** Just past the last line feed of the white-space stretch that begins
      `s` (0 when the stretch holds none). */
  function BreakEnd(s: string): (n: nat)
    ensures n <= |s|
    ensures s != [] && s[0] == '\n' ==> n >= 1
  {
    if s != [] && IsSpace(s[0]) then
      var r := BreakEnd(s[1..]);
      if r > 0 then r + 1 else if s[0] == '\n' then 1 else 0
    else 0
  }

  /** The stretch after its last line feed holds no line feed. */
  lemma {:induction false} BreakEndRest(s: string)
    ensures BreakEnd(s) == 0 ==> LFsAhead(s) == 0
    ensures LFsAhead(s[BreakEnd(s)..]) == 0
  {
    if s != [] && IsSpace(s[0]) {
      BreakEndRest(s[1..]);
      var r := BreakEnd(s[1..]);
      if r > 0 {
        assert s[r + 1..] == s[1..][r..];
      }
    }
  }

  /** `\n\s*\n\s*\n` at the start of `s`.  Both `\s*` are greedy and only
      give back what the next `\n` needs, so a match exists when the
      white-space stretch from this line feed holds at least three line
      feeds, and it ends just past the stretch's last line feed. */
  function BreaksAt(s: string): (r: Option<nat>)
    ensures r.Some? ==> 1 <= r.value <= |s|
  {
    if s != [] && s[0] == '\n' && LFsAhead(s) >= 3 then Some(BreakEnd(s)) else None
  }

  /** `replace(/\n\s*\n\s*\n/g, '\n\n')`. */
  function CollapseBreaks(s: string): (r: string)
    decreases |s|
  {
    if s == [] then []
    else
      match BreaksAt(s)
      case Some(k) => "\n\n" + CollapseBreaks(s[k..])
      case None => [s[0]] + CollapseBreaks(s[1..])
  }

  /** No white-space stretch of `s` holds three line feeds. */
  predicate NoTripleBreak(s: string) {
    forall i :: 0 <= i <= |s| ==> LFsAhead(s[i..]) <= 2
  }

  lemma LFsAheadCons(c: char, t: string)
    ensures IsSpace(c) ==> LFsAhead([c] + t) == (if c == '\n' then 1 else 0) + LFsAhead(t)
    ensures !IsSpace(c) ==> LFsAhead([c] + t) == 0
  {
    assert ([c] + t)[1..] == t;
  }

  lemma TwoBreaksAhead(t: string)
    ensures LFsAhead("\n\n" + t) == 2 + LFsAhead(t)
  {
    LFsAheadCons('\n', t);
    assert "\n\n" + t == ['\n'] + (['\n'] + t);
    LFsAheadCons('\n', ['\n'] + t);
  }

  /** Collapsing never adds line feeds to the stretch that begins a
      string. */
  lemma {:induction false} CollapseAhead(t: string)
    ensures LFsAhead(CollapseBreaks(t)) <= LFsAhead(t)
    decreases |t|
  {
    if t != [] {
      match BreaksAt(t)
      case Some(k) =>
        CollapseAhead(t[k..]);
        BreakEndRest(t);
        TwoBreaksAhead(CollapseBreaks(t[k..]));
      case None =>
        CollapseAhead(t[1..]);
        LFsAheadCons(t[0], CollapseBreaks(t[1..]));
        LFsAheadCons(t[0], t[1..]);
        assert t == [t[0]] + t[1..];
    }
  }

  lemma NoTripleBreakCons(c: char, t: string)
    requires NoTripleBreak(t) && LFsAhead([c] + t) <= 2
    ensures NoTripleBreak([c] + t)
  {
    var u := [c] + t;
    forall i | 1 <= i <= |u| ensures LFsAhead(u[i..]) <= 2 {
      assert u[i..] == t[i - 1..];
    }
  }

  /** After collapsing, no white-space stretch holds three line feeds. */
  lemma {:induction false} CollapsedNoTriple(s: string)
    ensures NoTripleBreak(CollapseBreaks(s))
    decreases |s|
  {
    if s != [] {
      match BreaksAt(s)
      case Some(k) =>
        var rest := CollapseBreaks(s[k..]);
        CollapsedNoTriple(s[k..]);
        CollapseAhead(s[k..]);
        BreakEndRest(s);
        TwoBreaksAhead(rest);
        LFsAheadCons('\n', rest);
        assert "\n\n" + rest == ['\n'] + (['\n'] + rest);
        NoTripleBreakCons('\n', rest);
        NoTripleBreakCons('\n', ['\n'] + rest);
      case None =>
        var rest := CollapseBreaks(s[1..]);
        CollapsedNoTriple(s[1..]);
        CollapseAhead(s[1..]);
        LFsAheadCons(s[0], rest);
        LFsAheadCons(s[0], s[1..]);
        assert s == [s[0]] + s[1..];
        assert rest[0..] == rest;
        NoTripleBreakCons(s[0], rest);
    }
  }

  lemma {:induction false} LFsAheadPrefix(u: string, n: nat)
    requires n <= |u|
    ensures LFsAhead(u[..n]) <= LFsAhead(u)
  {
    if n > 0 && IsSpace(u[0]) {
      assert u[..n][1..] == u[1..][..n - 1];
      LFsAheadPrefix(u[1..], n - 1);
    }
  }

  /** Cutting a string at both ends cannot gather three line feeds into
      one stretch. */
  lemma NoTripleBreakAt(s: string, a: nat, t: string, i: nat)
    requires NoTripleBreak(s) && a + |t| <= |s| && t == s[a..a + |t|] && i <= |t|
    ensures LFsAhead(t[i..]) <= 2
  {
    var u := s[a + i..];
    assert LFsAhead(u) <= 2;
    assert t[i..] == u[..|t| - i];
    LFsAheadPrefix(u, |t| - i);
  }

  lemma TrimmedNoTriple(s: string)
    requires NoTripleBreak(s)
    ensures NoTripleBreak(Trim(s))
  {
    var n, r := SpaceRun(s), Trim(s);
    forall i | 0 <= i <= |r| ensures LFsAhead(r[i..]) <= 2 {
      NoTripleBreakAt(s, n, r, i);
    }
  }

  /** Collapsing keeps characters other than the line feed where they are
      relative to each other, and adds none. */
  lemma {:induction false} CollapsedChars(s: string, c: char)
    requires c in CollapseBreaks(s) && c != '\n'
    ensures c in s
    decreases |s|
  {
    if s != [] {
      match BreaksAt(s)
      case Some(k) =>
        assert c in CollapseBreaks(s[k..]);
        CollapsedChars(s[k..], c);
        assert c in s[k..];
      case None =>
        if c != s[0] {
          CollapsedChars(s[1..], c);
        }
    }
  }

  /** A character other than a line feed begins its own collapse. */
  lemma CollapseKeepsHead(s: string)
    requires s != [] && s[0] != '\n'
    ensures CollapseBreaks(s) == [s[0]] + CollapseBreaks(s[1..])
  {
  }

  /** Collapsing keeps a string tag-free. */
  lemma {:induction false} CollapsedTagFree(s: string)
    requires TagFree(s)
    ensures TagFree(CollapseBreaks(s))
    decreases |s|
  {
    if s != [] {
      match BreaksAt(s)
      case Some(k) =>
        var rest := CollapseBreaks(s[k..]);
        TagFreeSuffix(s, k);
        CollapsedTagFree(s[k..]);
        assert "\n\n" + rest == ['\n'] + (['\n'] + rest);
        TagFreeCons('\n', rest);
        TagFreeCons('\n', ['\n'] + rest);
      case None =>
        var rest := CollapseBreaks(s[1..]);
        TagFreeSuffix(s, 1);
        CollapsedTagFree(s[1..]);
        assert NoTagAt(s[0..]);
        assert s[0..] == s;
        if s[0] == '<' && |s| > 1 && s[1] == '>' {
          CollapseKeepsHead(s[1..]);
        } else if s[0] == '<' && '>' !in s[1..] && '>' in rest {
          CollapsedChars(s[1..], '>');
        }
        assert ([s[0]] + rest)[1..] == rest;
        TagFreeCons(s[0], rest);
    }
  }

  /** Text without line feeds is left as it is. */
  lemma {:induction false} NoBreakKept(s: string)
    requires '\n' !in s
    ensures CollapseBreaks(s) == s
  {
    if s != [] {
      NoBreakKept(s[1..]);
    }
  }

  /** A prefix without line feeds passes through untouched. */
  lemma {:induction false} NoBreakPrefixKept(p: string, s: string)
    requires '\n' !in p
    ensures CollapseBreaks(p + s) == p + CollapseBreaks(s)
  {
    if p == [] {
      assert p + s == s;
    } else {
      var t := p + s;
      assert t[0] == p[0] && t[1..] == p[1..] + s;
      CollapseKeepsHead(t);
      NoBreakPrefixKept(p[1..], s);
      ConsConcat(p, CollapseBreaks(s));
    }
  }

  /** Three line feeds in a row between two lines become two. */
  lemma TripleBreakCollapses(a: string, b: string)
    requires '\n' !in a && '\n' !in b && (b == [] || !IsSpace(b[0]))
    ensures CollapseBreaks(a + "\n\n\n" + b) == a + "\n\n" + b
  {
    var t := "\n\n\n" + b;
    assert a + "\n\n\n" + b == a + t;
    NoBreakPrefixKept(a, t);
    var t1, t2 := t[1..], t[2..];
    assert t1[1..] == t2 && t2[1..] == b;
    assert LFsAhead(b) == 0 && BreakEnd(b) == 0;
    assert LFsAhead(t2) == 1 && BreakEnd(t2) == 1;
    assert LFsAhead(t1) == 2 && BreakEnd(t1) == 2;
    assert LFsAhead(t) == 3 && BreakEnd(t) == 3;
    assert t[3..] == b;
    NoBreakKept(b);
  }

  /** A stretch without line feeds has none ahead. */
  lemma {:induction false} NoLFsAhead(s: string)
    requires '\n' !in s
    ensures LFsAhead(s) == 0
  {
    if s != [] && IsSpace(s[0]) {
      NoLFsAhead(s[1..]);
    }
  }

  /** One line feed between two lines stays. */
  lemma SingleBreakKept(a: string, b: string)
    requires '\n' !in a && '\n' !in b
    ensures CollapseBreaks(a + "\n" + b) == a + "\n" + b
  {
    var t := "\n" + b;
    assert a + "\n" + b == a + t;
    NoBreakPrefixKept(a, t);
    assert t[1..] == b;
    NoLFsAhead(b);
    NoBreakKept(b);
  }

  /** One or two line feeds at the end of a line stay. */
  lemma TailBreaksKept(x: string, n: nat)
    requires '\n' !in x && n <= 2
    ensures CollapseBreaks(x + Repeat('\n', n)) == x + Repeat('\n', n)
  {
    var t := Repeat('\n', n);
    NoBreakPrefixKept(x, t);
    if n == 1 {
      assert t == "\n" + [];
      OneBreakKept([]);
    } else if n == 2 {
      assert t == "\n\n" + [];
      TwoBreaksKept([]);
    }
  }

  /** One line feed before a line without any stays. */
  lemma OneBreakKept(b: string)
    requires '\n' !in b
    ensures CollapseBreaks("\n" + b) == "\n" + b
  {
    var t := "\n" + b;
    assert t[1..] == b;
    NoLFsAhead(b);
    NoBreakKept(b);
  }

  /** Two line feeds (a blank line) before a line without any stay. */
  lemma TwoBreaksKept(b: string)
    requires '\n' !in b
    ensures CollapseBreaks("\n\n" + b) == "\n\n" + b
  {
    var t := "\n\n" + b;
    assert t[1..] == "\n" + b;
    OneBreakKept(b);
    NoLFsAhead(b);
    assert LFsAhead(t[1..]) == 1;
  }

  /** `replace(/^\s+|\s+$/g, '')`: the first alternative removes the run of
      white space at the start; afterwards only the second can match, at
      a run of white space that reaches the end. */
  function EdgeSpace(s: string): (r: string) {
    TrailingPass(s[SpaceRun(s)..])
  }

  function TrailingPass(s: string): (r: string)
    decreases |s|
  {
    if s == [] || AllSpace(s) then [] else [s[0]] + TrailingPass(s[1..])
  }

  /** The trailing pass keeps the longest prefix that does not end in
      white space and is followed by white space only. */
  lemma {:induction false} TrailingPassShape(s: string)
    ensures var r := TrailingPass(s);
      |r| <= |s| && r == s[..|r|] && AllSpace(s[|r|..]) && (|r| == 0 || !IsSpace(s[|r| - 1]))
    decreases |s|
  {
    if s != [] && !AllSpace(s) {
      TrailingPassShape(s[1..]);
      var r' := TrailingPass(s[1..]);
      var r := TrailingPass(s);
      assert r == [s[0]] + r';
      assert s[|r|..] == s[1..][|r'|..];
      if |r'| == 0 {
        assert s[1..][0..] == s[1..];
        assert !IsSpace(s[0]);
      } else {
        assert s[|r| - 1] == s[1..][|r'| - 1];
      }
      assert s[..|r|] == [s[0]] + s[1..][..|r'|];
    }
  }

  /** The cut that leaves white space only after it and none just before
      it is the one `TrailingSpaceRun` finds. */
  lemma TrailingCut(s: string, n: nat)
    requires n <= |s| && AllSpace(s[n..]) && (n == 0 || !IsSpace(s[n - 1]))
    ensures n == |s| - TrailingSpaceRun(s)
  {
  }

  /** The edge pass is `String.prototype.trim`. */
  lemma EdgeSpaceIsTrim(s: string)
    ensures EdgeSpace(s) == Trim(s)
  {
    var t := s[SpaceRun(s)..];
    TrailingPassShape(t);
    TrailingCut(t, |TrailingPass(t)|);
  }

  /** A tag name as the conversion's patterns write it: lower-case ASCII
      letters and digits. */
  predicate LowerName(name: string) {
    name != [] && forall i :: 0 <= i < |name| ==> 'a' <= name[i] <= 'z' || IsDigit(name[i])
  }

  /** Text that `/i` matching reads as itself. */
  predicate Unfolded(s: string) {
    forall i :: 0 <= i < |s| ==> Lower(s[i]) == s[i]
  }

  /** The element `<name>t</name>`. */
  function Enclosed(name: string, t: string): string {
    "<" + name + ">" + t + ("</" + name + ">")
  }

  lemma LowerNameUnfolded(name: string)
    requires LowerName(name)
    ensures Unfolded("<" + name) && Unfolded("</" + name + ">")
    ensures '<' !in name && '>' !in name
  {
    var c := "</" + name + ">";
    forall i | 0 <= i < |c| ensures Lower(c[i]) == c[i] {
      if 2 <= i < |c| - 1 {
        assert c[i] == name[i - 2];
      }
    }
    var o := "<" + name;
    forall i | 0 <= i < |o| ensures Lower(o[i]) == o[i] {
      if 1 <= i {
        assert o[i] == name[i - 1];
      }
    }
  }

  /** A pattern that opens with a tag name finds no match where the text
      after '<' differs from that name at position `j`. */
  lemma NameMismatch(p: Pattern, s: string, j: nat)
    requires !p.AnyTag? && j < |TagName(p)| && j + 1 < |s| && Lower(s[j + 1]) != TagName(p)[j]
    ensures PatternAt(p, s).None?
  {
    assert ("<" + TagName(p))[j + 1] == TagName(p)[j];
  }

  /** The lazy capture reaches the first closing text after line-free text
      without '<'. */
  lemma {:induction false} LazyCloseFinds(x: string, close: string, rest: string)
    requires '<' !in x && NoLineTerminator(x)
    requires close != [] && close[0] == '<' && Unfolded(close)
    ensures LazyClose(x + close + rest, close).Some?
    ensures LazyClose(x + close + rest, close).value == |x|
  {
    var s := x + close + rest;
    if x == [] {
      assert s == close + rest;
      assert StartsWithCI(s, close);
    } else {
      assert s[0] == x[0] && Lower(s[0]) != close[0];
      assert !IsLineTerminator(s[0]);
      assert s[1..] == x[1..] + close + rest;
      LazyCloseFinds(x[1..], close, rest);
    }
  }

  /** The lazy capture fails on text without '<'. */
  lemma {:induction false} LazyCloseNone(x: string, close: string)
    requires '<' !in x && close != [] && close[0] == '<'
    ensures LazyClose(x, close).None?
  {
    if x != [] {
      assert Lower(x[0]) != close[0];
      LazyCloseNone(x[1..], close);
    }
  }

  /** The lazy capture fails at a line terminator reached before any '<'. */
  lemma {:induction false} LazyCloseStops(x: string, rest: string, close: string)
    requires '<' !in x && rest != [] && IsLineTerminator(rest[0]) && close != [] && close[0] == '<'
    ensures LazyClose(x + rest, close).None?
  {
    var s := x + rest;
    if x == [] {
      assert s == rest;
      assert Lower(s[0]) != close[0];
    } else {
      assert s[0] == x[0] && Lower(s[0]) != close[0];
      assert s[1..] == x[1..] + rest;
      LazyCloseStops(x[1..], rest, close);
    }
  }

  /** `<name[^>]*>` takes everything up to the first '>': the attribute
      run may hold anything else, the rest of a longer tag name included. */
  lemma OpenTagFound(name: string, extra: string, rest: string)
    requires LowerName(name) && '>' !in extra
    ensures OpenTagAt("<" + name + extra + ">" + rest, name).Some?
    ensures OpenTagAt("<" + name + extra + ">" + rest, name).value == |name| + |extra| + 2
  {
    var s := "<" + name + extra + ">" + rest;
    var k := |name| + 1;
    LowerNameUnfolded(name);
    assert s[..k] == "<" + name;
    assert StartsWithCI(s, "<" + name);
    assert s[k..] == extra + (">" + rest);
    RunWithoutPrefix(extra, '>', ">" + rest);
  }

  /** An element pattern with nothing required between its opening tag
      and the capture, in terms of its opening tag and lazy capture. */
  lemma ElementFound(name: string, close: string, s: string, k: nat, c: nat)
    requires OpenTagAt(s, name).Some? && OpenTagAt(s, name).value == k
    requires LazyClose(s[k..], close).Some? && LazyClose(s[k..], close).value == c
    ensures PatternAt(Element(name, [], close), s).Some?
    ensures PatternAt(Element(name, [], close), s).value.len == k + c + |close|
    ensures PatternAt(Element(name, [], close), s).value.group == s[k..k + c]
  {
    ElementOpens(s, name, close, k);
    CaptureLength(s, close, k);
    CaptureGroup(s, close, k);
  }

  lemma ElementOpens(s: string, name: string, close: string, k: nat)
    requires OpenTagAt(s, name).Some? && OpenTagAt(s, name).value == k
    ensures PatternAt(Element(name, [], close), s) == CaptureAt(s, k, close)
  {
    assert PatternAt(Element(name, [], close), s) == ElementAt(s, name, [], close);
  }

  lemma CaptureLength(s: string, close: string, k: nat)
    requires k <= |s| && LazyClose(s[k..], close).Some?
    ensures CaptureAt(s, k, close).Some?
    ensures CaptureAt(s, k, close).value.len == k + LazyClose(s[k..], close).value + |close|
  {
  }

  lemma CaptureGroup(s: string, close: string, k: nat)
    requires k <= |s| && LazyClose(s[k..], close).Some?
    ensures CaptureAt(s, k, close).Some?
    ensures CaptureAt(s, k, close).value.group == s[k..k + LazyClose(s[k..], close).value]
  {
  }

  /** `<name ...>t</name>` followed by anything matches `Tag(name)`, with
      `t` as its capture, when `t` holds no '<' and no line terminator. */
  lemma TagMatch(name: string, extra: string, t: string, rest: string)
    requires LowerName(name) && '>' !in extra && '<' !in t && NoLineTerminator(t)
    ensures var e := "<" + name + extra + ">" + t + ("</" + name + ">");
      var r := PatternAt(Tag(name), e + rest);
      r.Some? && r.value.len == |e| && r.value.group == t
  {
    var close := "</" + name + ">";
    var o := "<" + name + extra + ">";
    var x := t + close + rest;
    var s := o + t + close + rest;
    RegroupFour(o, t, close, rest);
    OpenTagFound(name, extra, x);
    LowerNameUnfolded(name);
    DropPrefix(o, x);
    LazyCloseFinds(t, close, rest);
    ElementFound(name, close, s, |o|, |t|);
    MiddleOfFour(o, t, close, rest);
  }

  lemma RegroupFour(a: string, b: string, c: string, d: string)
    ensures a + b + c + d == a + (b + c + d)
  {
  }

  lemma DropPrefix(a: string, b: string)
    ensures (a + b)[|a|..] == b
  {
  }

  lemma MiddleOfFour(a: string, b: string, c: string, d: string)
    ensures (a + b + c + d)[|a|..|a| + |b|] == b
  {
    assert (a + b + c + d)[|a|..|a| + |b|] == (a + b)[|a|..];
  }

  /** `<name>t</name>` is matched whole by `Tag(name)`, with `t` as its
      capture. */
  lemma EnclosedMatch(name: string, t: string)
    requires LowerName(name) && '<' !in t && NoLineTerminator(t)
    ensures PatternAt(Tag(name), Enclosed(name, t)).Some?
    ensures PatternAt(Tag(name), Enclosed(name, t)).value.len == |Enclosed(name, t)|
    ensures PatternAt(Tag(name), Enclosed(name, t)).value.group == t
  {
    TagMatch(name, [], t, []);
    assert "<" + name + [] == "<" + name;
    assert Enclosed(name, t) + [] == Enclosed(name, t);
  }

  /** A match that covers the whole string is replaced by its
      replacement alone. */
  lemma WholeMatch(s: string, rule: Rule)
    requires PatternAt(rule.pattern, s).Some? && PatternAt(rule.pattern, s).value.len == |s|
    ensures ReplaceRule(s, rule) == Replacement(rule.action, PatternAt(rule.pattern, s).value.group)
  {
    var r := Replacement(rule.action, PatternAt(rule.pattern, s).value.group);
    assert s[|s|..] == [];
    assert r + [] == r;
  }

  /** `<name[^>]*>` without a capture: the opening tag alone. */
  lemma VoidFound(name: string, extra: string, rest: string)
    requires LowerName(name) && '>' !in extra
    ensures PatternAt(Void(name), "<" + name + extra + ">" + rest).Some?
    ensures PatternAt(Void(name), "<" + name + extra + ">" + rest).value.len == |name| + |extra| + 2
    ensures PatternAt(Void(name), "<" + name + extra + ">" + rest).value.group == []
  {
    OpenTagFound(name, extra, rest);
  }

  /** An opening tag with no closing text after it on its line is no
      match. */
  lemma ElementUnclosed(name: string, close: string, s: string, k: nat)
    requires OpenTagAt(s, name).Some? && OpenTagAt(s, name).value == k
    requires LazyClose(s[k..], close).None?
    ensures PatternAt(Element(name, [], close), s).None?
  {
    ElementOpens(s, name, close, k);
  }

  /** `<name ...>` followed by text without '<' matches no element
      pattern that opens with `name`. */
  lemma OpenedUnclosed(name: string, extra: string, x: string, close: string)
    requires LowerName(name) && '>' !in extra && '<' !in x && close != [] && close[0] == '<'
    ensures PatternAt(Element(name, [], close), "<" + name + extra + ">" + x).None?
  {
    var o := "<" + name + extra + ">";
    OpenTagFound(name, extra, x);
    DropPrefix(o, x);
    LazyCloseNone(x, close);
    ElementUnclosed(name, close, o + x, |o|);
  }

  /** A string whose only '<' is its first character, where the pattern
      finds no match, passes through. */
  lemma HeadMissKept(u: string, v: string, rule: Rule)
    requires u != [] && '<' !in u[1..] && PatternAt(rule.pattern, u + v).None?
    ensures ReplaceRule(u + v, rule) == u + ReplaceRule(v, rule)
  {
    var t := u + v;
    assert t[1..] == u[1..] + v;
    NoTagPrefixKept(u[1..], v, rule);
    ConsConcat(u, ReplaceRule(v, rule));
  }

  /** A closing tag passes every pattern that opens with a tag name. */
  lemma ClosingKept(name: string, v: string, rule: Rule)
    requires LowerName(name) && !rule.pattern.AnyTag? && LowerName(TagName(rule.pattern))
    ensures ReplaceRule("</" + name + ">" + v, rule) == "</" + name + ">" + ReplaceRule(v, rule)
  {
    var c := "</" + name + ">";
    LowerNameUnfolded(name);
    assert (c + v)[1] == '/';
    NameMismatch(rule.pattern, c + v, 0);
    HeadMissKept(c, v, rule);
  }

  /** The element `<name>t</name>` passes a pattern whose tag name differs
      from `name` at position `j`. */
  lemma EnclosedKept(name: string, t: string, v: string, rule: Rule, j: nat)
    requires LowerName(name) && '<' !in t
    requires !rule.pattern.AnyTag? && LowerName(TagName(rule.pattern))
    requires j < |name| && j < |TagName(rule.pattern)| && name[j] != TagName(rule.pattern)[j]
    ensures ReplaceRule(Enclosed(name, t) + v, rule) == Enclosed(name, t) + ReplaceRule(v, rule)
  {
    var u := "<" + name + ">" + t;
    var c := "</" + name + ">";
    LowerNameUnfolded(name);
    AppendAssoc(u, c, v);
    assert (u + (c + v))[j + 1] == name[j];
    NameMismatch(rule.pattern, u + (c + v), j);
    HeadMissKept(u, c + v, rule);
    ClosingKept(name, v, rule);
    AppendAssoc(u, c, ReplaceRule(v, rule));
  }
}
