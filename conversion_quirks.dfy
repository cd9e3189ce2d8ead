/** Places where the order of the replacements of `htmlToMarkdown`
    (src/components/WysiwygEditor.tsx:5-45), or the reach of their
    patterns, gives a result the markup does not suggest: `<b[^>]*>` and
    `<p[^>]*>` open on longer tag names, list items are converted before
    the ordered list around them, and the ordered-list callback writes a
    literal `$1`. */
module ConversionQuirks {
  import opened JsString
  import opened HtmlPatterns
  import opened WysiwygEditor
  import opened ConversionFacts

  /** `<name extra>t</name>`: an element whose opening tag may carry more
      text after the name. */
  function Opened(name: string, extra: string, t: string): string {
    "<" + name + extra + ">" + t + ("</" + name + ">")
  }

  /** An element passes a replacement whose tag name starts with another
      letter. */
  lemma OpenedKept(j: nat, name: string, extra: string, t: string)
    requires j < |HtmlRules| && LowerName(name) && '<' !in extra && '<' !in t
    requires RuleNames[j] != [] && RuleNames[j][0] != name[0]
    ensures ReplaceRule(Opened(name, extra, t), HtmlRules[j]) == Opened(name, extra, t)
  {
    var u := "<" + name + extra + ">" + t;
    var c := "</" + name + ">";
    LowerNameUnfolded(name);
    assert u[1..] == name + extra + ">" + t;
    assert Lower(u[1]) == name[0];
    MismatchKept(u, c, j, 0);
    RuleNamesLower(j);
    RuleOpensWith(j);
    ClosingKept(name, [], HtmlRules[j]);
    assert c + [] == c;
  }

  /** The `i`-th replacement turns an element of its name, whatever
      follows the name in the opening tag, into the text between its two
      texts. */
  lemma OpenedReplaced(i: nat, name: string, extra: string, before: string, after: string, t: string)
    requires i < 14 && RuleNames[i] == name && HtmlRules[i].action == Wrap(before, after)
    requires '>' !in extra && '<' !in t && NoLineTerminator(t)
    ensures ReplaceRule(Opened(name, extra, t), HtmlRules[i]) == before + t + after
    ensures '<' !in before + t + after
  {
    var e := Opened(name, extra, t);
    RuleNamesLower(i);
    RuleIsTag(i);
    TagMatch(name, extra, t, []);
    assert e + [] == e;
    WholeMatch(e, HtmlRules[i]);
    RuleWraps(i);
  }

  /** `<b[^>]*>` opens on any tag whose name starts with `b`: such a tag,
      a line of text and `</b>` become bold text. */
  lemma BoldOpens(extra: string, t: string)
    requires '<' !in extra && '>' !in extra && InlineText(t)
    ensures HtmlToMarkdown(Opened("b", extra, t)) == "**" + t + "**"
  {
    var e := Opened("b", extra, t);
    var out := "**" + t + "**";
    BoldRule();
    DelimitedKept("**", t);
    OpenedKeptBelow(7, "b", extra, t);
    OpenedReplaced(7, "b", extra, "**", "**", t);
    OnlyRuleApplies(e, 7, out);
    PlainTidy(out);
  }

  /** A line break followed by a line of text and `</b>`: the bold
      replacement takes `<br>` for its opening tag. */
  lemma BreakOpensBold(t: string)
    requires InlineText(t)
    ensures HtmlToMarkdown("<br>" + t + "</b>") == "**" + t + "**"
  {
    BreakTagOpened(t);
    BoldOpens("r", t);
  }

  lemma BreakTagOpened(t: string)
    ensures Opened("b", "r", t) == "<br>" + t + "</b>"
  {
  }

  /** The bold replacement, and the names of those before it. */
  lemma BoldRule()
    ensures RuleNames[7] == "b" && HtmlRules[7].action == Wrap("**", "**")
    ensures forall j :: 0 <= j < 7 ==> RuleNames[j][0] != 'b'
  {
  }

  /** The paragraph replacement, and the names of those before it. */
  lemma ParagraphRule()
    ensures RuleNames[11] == "p" && HtmlRules[11].action == Wrap("", "\n\n")
    ensures forall j :: 0 <= j < 11 ==> RuleNames[j][0] != 'p'
  {
  }

  /** The replacements before the `i`-th pass over an element whose name
      starts with a letter none of their names starts with. */
  lemma OpenedKeptBelow(i: nat, name: string, extra: string, t: string)
    requires i <= |HtmlRules| && LowerName(name) && '<' !in extra && '<' !in t
    requires forall j :: 0 <= j < i ==> RuleNames[j][0] != name[0]
    ensures forall j :: 0 <= j < i ==>
      ReplaceRule(Opened(name, extra, t), HtmlRules[j]) == Opened(name, extra, t)
  {
    forall j | 0 <= j < i
      ensures ReplaceRule(Opened(name, extra, t), HtmlRules[j]) == Opened(name, extra, t)
    {
      OpenedKept(j, name, extra, t);
    }
  }

  /** A line of text followed by a blank line is collapsed and trimmed to
      the line. */
  lemma ParagraphTidy(t: string)
    requires InlineText(t)
    ensures Trim(CollapseBreaks("" + t + "\n\n")) == t
  {
    NoTerminatorNoBreak(t);
    TrimmedLine(t, 2);
    assert "" + t + "\n\n" == t + Repeat('\n', 2);
  }

  /** `<p[^>]*>` opens on any tag whose name starts with `p`: such a tag,
      a line of text and `</p>` become the text alone. */
  lemma ParagraphOpens(extra: string, t: string)
    requires '<' !in extra && '>' !in extra && InlineText(t)
    ensures HtmlToMarkdown(Opened("p", extra, t)) == t
  {
    var e := Opened("p", extra, t);
    var out := "" + t + "\n\n";
    ParagraphRule();
    ParagraphTidy(t);
    OpenedKeptBelow(11, "p", extra, t);
    OpenedReplaced(11, "p", extra, "", "\n\n", t);
    OnlyRuleApplies(e, 11, out);
    PlainTidy(out);
  }

  /** A preformatted block closed by `</p>` is taken for a paragraph. */
  lemma PreformattedAsParagraph(t: string)
    requires InlineText(t)
    ensures HtmlToMarkdown("<pre>" + t + "</p>") == t
  {
    assert Opened("p", "re", t) == "<pre>" + t + "</p>";
    ParagraphOpens("re", t);
  }

  /** When the replacements before the `i`-th leave `s` as it is, the
      `i`-th makes `out` of it and those after it leave `out` as it is,
      the replacements produce `out`. */
  lemma RuleAppliesAmid(s: string, i: nat, out: string)
    requires i < |HtmlRules|
    requires forall j :: 0 <= j < i ==> ReplaceRule(s, HtmlRules[j]) == s
    requires ReplaceRule(s, HtmlRules[i]) == out
    requires forall j :: i < j < |HtmlRules| ==> ReplaceRule(out, HtmlRules[j]) == out
    ensures ApplyFrom(s, 0) == out
  {
    SkipRules(s, 0, i);
    assert ApplyFrom(s, i) == ApplyFrom(out, i + 1);
    SkipRules(out, i + 1, |HtmlRules|);
  }

  /** A match at the start is replaced and the scan goes on after it. */
  lemma MatchReplaced(s: string, rule: Rule)
    requires PatternAt(rule.pattern, s).Some?
    ensures var h := PatternAt(rule.pattern, s).value;
      ReplaceRule(s, rule) == Replacement(rule.action, h.group) + ReplaceRule(s[h.len..], rule)
  {
  }

  /** The list-item and ordered-list replacements. */
  lemma ListRules()
    ensures RuleNames[12] == "li" && HtmlRules[12] == Rule(Tag("li"), Wrap("- ", "\n"))
    ensures HtmlRules[14].pattern == Tag("ol")
  {
  }

  /** No replacement before the list-item one has a name starting with
      `l`, and only the ordered-list one has a name starting with `o`. */
  lemma ListInitials()
    ensures forall j :: 0 <= j < 12 ==> RuleNames[j][0] != 'l'
    ensures forall j :: 0 <= j < |HtmlRules| && j != 14 ==> RuleNames[j][0] != 'o'
  {
  }

  /** An ordered list holding one item of one line. */
  function OrderedItem(t: string): string {
    "<ol>" + (Enclosed("li", t) + "</ol>")
  }

  /** The same list once its item has become a bullet line. */
  function OrderedBullet(t: string): string {
    "<ol>" + ("- " + t + "\n") + "</ol>"
  }

  /** `<li>` items are converted before `<ol>` is looked at, and the line
      feed after the bullet line then keeps `<ol[^>]*>(.*?)</ol>` from
      matching: an ordered list comes out as a bullet list. */
  lemma OrderedListBulleted(t: string)
    requires InlineText(t)
    ensures HtmlToMarkdown(OrderedItem(t)) == "- " + t
  {
    var s0 := OrderedItem(t);
    var s1 := OrderedBullet(t);
    ListRules();
    forall j | 0 <= j < 12
      ensures ReplaceRule(s0, HtmlRules[j]) == s0
    {
      OrderedKeptBefore(j, t);
    }
    ItemsConverted(t);
    forall j | 12 < j < |HtmlRules|
      ensures ReplaceRule(s1, HtmlRules[j]) == s1
    {
      BulletsKeptAfter(j, t);
    }
    RuleAppliesAmid(s0, 12, s1);
    BulletsTidied(t);
  }

  /** The `<ol>` tags, written out. */
  lemma OlTags()
    ensures "<" + "ol" + ">" == "<ol>"
    ensures "</" + "ol" + ">" == "</ol>" && "</ol>" + [] == "</ol>"
    ensures "<" + "/ol" + ">" + [] == "</ol>"
  {
  }

  /** The replacements before the list-item one pass over the list. */
  lemma OrderedKeptBefore(j: nat, t: string)
    requires j < 12 && '<' !in t
    ensures ReplaceRule(OrderedItem(t), HtmlRules[j]) == OrderedItem(t)
  {
    ListInitials();
    MismatchKept("<ol>", Enclosed("li", t) + "</ol>", j, 0);
    ItemKeptBefore(j, t);
  }

  lemma ItemKeptBefore(j: nat, t: string)
    requires j < 12 && '<' !in t
    ensures var v := Enclosed("li", t) + "</ol>";
      ReplaceRule(v, HtmlRules[j]) == v
  {
    var rule := HtmlRules[j];
    ListInitials();
    OlTags();
    RuleNamesLower(j);
    RuleOpensWith(j);
    EnclosedKept("li", t, "</ol>", rule, 0);
    ClosingKept("ol", [], rule);
  }

  /** The list-item replacement turns the item into a bullet line. */
  lemma ItemsConverted(t: string)
    requires '<' !in t && NoLineTerminator(t)
    ensures ReplaceRule(OrderedItem(t), HtmlRules[12]) == OrderedBullet(t)
  {
    ListInitials();
    MismatchKept("<ol>", Enclosed("li", t) + "</ol>", 12, 0);
    ListRules();
    ItemReplaced(t, HtmlRules[12]);
    AppendAssoc("<ol>", "- " + t + "\n", "</ol>");
  }

  lemma ItemReplaced(t: string, rule: Rule)
    requires '<' !in t && NoLineTerminator(t) && rule == Rule(Tag("li"), Wrap("- ", "\n"))
    ensures ReplaceRule(Enclosed("li", t) + "</ol>", rule) == "- " + t + "\n" + "</ol>"
  {
    var e := Enclosed("li", t);
    var v := e + "</ol>";
    assert LowerName("ol") && LowerName(TagName(rule.pattern));
    ClosingKept("ol", [], rule);
    OlTags();
    DropPrefix(e, "</ol>");
    EnclosedFirst("li", t, "</ol>");
    MatchReplaced(v, rule);
  }

  /** The replacements after the list-item one pass over the bullet line
      and its `<ol>` tags. */
  lemma BulletsKeptAfter(j: nat, t: string)
    requires 12 < j < |HtmlRules| && '<' !in t && NoLineTerminator(t)
    ensures ReplaceRule(OrderedBullet(t), HtmlRules[j]) == OrderedBullet(t)
  {
    var rule := HtmlRules[j];
    var u := "<ol>" + ("- " + t + "\n");
    ListRules();
    ListInitials();
    OlTags();
    assert '<' !in u[1..] by {
      assert u[1..] == "ol>" + ("- " + t + "\n");
    }
    if j == 14 {
      OrderedUnclosed(t);
      HeadMissKept(u, "</ol>", rule);
    } else {
      MismatchKept(u, "</ol>", j, 0);
    }
    RuleNamesLower(j);
    RuleOpensWith(j);
    ClosingKept("ol", [], rule);
  }

  /** `<ol[^>]*>(.*?)</ol>` stops at the line feed after the bullet line. */
  lemma OrderedUnclosed(t: string)
    requires '<' !in t && NoLineTerminator(t)
    ensures PatternAt(Tag("ol"), OrderedBullet(t)).None?
  {
    var s := OrderedBullet(t);
    var x := "- " + t;
    var rest := "\n" + "</ol>";
    OlTags();
    assert s == "<" + "ol" + [] + ">" + (x + rest);
    OpenTagFound("ol", [], x + rest);
    DropPrefix("<ol>", x + rest);
    LazyCloseStops(x, rest, "</" + "ol" + ">");
    ElementUnclosed("ol", "</" + "ol" + ">", s, 4);
  }

  /** The clean-up removes the `<ol>` tags and the final line feed. */
  lemma BulletsTidied(t: string)
    requires InlineText(t)
    ensures Tidy(OrderedBullet(t)) == "- " + t
  {
    var line := "- " + t + "\n";
    BulletsStripped(t);
    EdgeSpaceIsTrim(CollapseBreaks(line));
    BulletLineTidy(t);
  }

  /** Tag stripping leaves the bullet line. */
  lemma BulletsStripped(t: string)
    requires '<' !in t
    ensures ReplaceRule(OrderedBullet(t), StripTags) == "- " + t + "\n"
  {
    var line := "- " + t + "\n";
    OlTags();
    AppendAssoc("<ol>", line, "</ol>");
    TagRemoved("ol", line + "</ol>");
    NoTagPrefixKept(line, "</ol>", StripTags);
    TagRemoved("/ol", []);
    assert line + [] == line;
  }

  /** A bullet line followed by a line feed is collapsed and trimmed to
      the bullet line. */
  lemma BulletLineTidy(t: string)
    requires InlineText(t)
    ensures Trim(CollapseBreaks("- " + t + "\n")) == "- " + t
  {
    var x := "- " + t;
    NoTerminatorNoBreak(t);
    TrimmedLine(x, 1);
    assert x + Repeat('\n', 1) == "- " + t + "\n";
  }

  /** `<[^>]+>` removes a tag. */
  lemma TagRemoved(name: string, rest: string)
    requires name != [] && '>' !in name
    ensures ReplaceRule("<" + name + ">" + rest, StripTags) == ReplaceRule(rest, StripTags)
  {
    var s := "<" + name + ">" + rest;
    assert s[1..] == name + (">" + rest);
    RunWithoutPrefix(name, '>', ">" + rest);
    assert s[|name| + 2..] == rest;
  }

  /** The ordered-list callback numbers a list item and drops its text:
      the `$1` it writes is not a reference to the capture. */
  lemma ItemNumbered(t: string, rest: string, n: nat)
    requires '<' !in t && NoLineTerminator(t)
    ensures NumberItems(Enclosed("li", t) + rest, n) == NatToString(n) + ". $1\n" + NumberItems(rest, n + 1)
  {
    var e := Enclosed("li", t);
    EnclosedFirst("li", t, rest);
    assert Tag("li") == ListItem;
    assert (e + rest)[|e|..] == rest;
  }

  /** An element of one line at the start of a string is matched whole. */
  lemma EnclosedFirst(name: string, t: string, rest: string)
    requires LowerName(name) && '<' !in t && NoLineTerminator(t)
    ensures PatternAt(Tag(name), Enclosed(name, t) + rest).Some?
    ensures PatternAt(Tag(name), Enclosed(name, t) + rest).value.len == |Enclosed(name, t)|
    ensures PatternAt(Tag(name), Enclosed(name, t) + rest).value.group == t
  {
    TagMatch(name, [], t, rest);
    assert "<" + name + [] == "<" + name;
  }

  /** Two list items become "1. $1" and "2. $1", whatever their text. */
  lemma TwoItemsNumbered(a: string, b: string)
    requires '<' !in a && NoLineTerminator(a) && '<' !in b && NoLineTerminator(b)
    ensures Replacement(Numbered, Enclosed("li", a) + Enclosed("li", b)) == "1. $1\n2. $1\n\n"
  {
    ItemsNumbered(a, b);
    SmallNumerals();
    NumberedLines(NatToString(1), NatToString(2));
  }

  lemma ItemsNumbered(a: string, b: string)
    requires '<' !in a && NoLineTerminator(a) && '<' !in b && NoLineTerminator(b)
    ensures NumberItems(Enclosed("li", a) + Enclosed("li", b), 1)
         == NatToString(1) + ". $1\n" + (NatToString(2) + ". $1\n" + [])
  {
    var e2 := Enclosed("li", b);
    ItemNumbered(a, e2, 1);
    assert e2 + [] == e2;
    ItemNumbered(b, [], 2);
    assert NumberItems([], 3) == [];
  }

  lemma SmallNumerals()
    ensures NatToString(1) == "1" && NatToString(2) == "2"
  {
  }

  lemma NumberedLines(one: string, two: string)
    requires one == "1" && two == "2"
    ensures one + ". $1\n" + (two + ". $1\n" + []) + "\n" == "1. $1\n2. $1\n\n"
  {
  }

  /** The bold and blockquote replacements, and the initials of the
      others before the blockquote one. */
  lemma QuoteRules()
    ensures HtmlRules[7] == Rule(Tag("b"), Wrap("**", "**"))
    ensures HtmlRules[15] == Rule(Tag("blockquote"), Quoted)
    ensures forall j :: 0 <= j < 15 && j != 7 ==> RuleNames[j][0] != 'b'
  {
  }

  /** `<blockquote>t</blockquote>` becomes a quoted line: the bold
      replacement opens on `<blockquote>` but finds no `</b>`, and the
      blockquote callback puts "> " before the captured line. */
  lemma QuoteConverted(t: string)
    requires InlineText(t)
    ensures HtmlToMarkdown(Enclosed("blockquote", t)) == "> " + t
  {
    var e := Enclosed("blockquote", t);
    var out := "> " + t + "\n\n";
    QuoteTidy(t);
    QuoteRules();
    forall j | 0 <= j < 15
      ensures ReplaceRule(e, HtmlRules[j]) == e
    {
      QuoteKeptBefore(j, t);
    }
    QuoteReplaced(t, HtmlRules[15]);
    OnlyRuleApplies(e, 15, out);
    PlainTidy(out);
  }

  lemma QuoteKeptBefore(j: nat, t: string)
    requires j < 15 && '<' !in t && NoLineTerminator(t)
    ensures ReplaceRule(Enclosed("blockquote", t), HtmlRules[j]) == Enclosed("blockquote", t)
  {
    QuoteRules();
    if j == 7 {
      QuotePassesB(t, HtmlRules[7]);
    } else {
      assert "<" + "blockquote" + [] == "<" + "blockquote";
      OpenedKept(j, "blockquote", [], t);
    }
  }

  /** `<b[^>]*>` opens on `<blockquote>`, but the capture after it meets
      no `</b>` before the end. */
  lemma QuotePassesB(t: string, rule: Rule)
    requires '<' !in t && NoLineTerminator(t) && rule == Rule(Tag("b"), Wrap("**", "**"))
    ensures ReplaceRule(Enclosed("blockquote", t), rule) == Enclosed("blockquote", t)
  {
    var u := "<" + "blockquote" + ">" + t;
    var c := "</" + "blockquote" + ">";
    assert LowerName("blockquote") && LowerName(TagName(rule.pattern));
    ClosingKept("blockquote", [], rule);
    assert c + [] == c;
    assert '<' !in u[1..] by {
      assert u[1..] == "blockquote" + ">" + t;
    }
    QuoteOpensB(t);
    HeadMissKept(u, c, rule);
  }

  /** The bold pattern finds no match on a blockquote element. */
  lemma QuoteOpensB(t: string)
    requires '<' !in t && NoLineTerminator(t)
    ensures PatternAt(Tag("b"), Enclosed("blockquote", t)).None?
  {
    var c := "</" + "blockquote" + ">";
    var close := "</" + "b" + ">";
    var s := Enclosed("blockquote", t);
    assert s == "<" + "b" + "lockquote" + ">" + (t + c);
    OpenTagFound("b", "lockquote", t + c);
    DropPrefix("<" + "b" + "lockquote" + ">", t + c);
    ClosingQuoteNotBold();
    LazyCloseSkips(t, c, close);
    ElementUnclosed("b", close, s, 12);
  }

  /** `</blockquote>` does not begin with `</b>`, and holds no other '<'. */
  lemma ClosingQuoteNotBold()
    ensures LazyClose("</" + "blockquote" + ">", "</" + "b" + ">").None?
  {
    var c := "</" + "blockquote" + ">";
    var close := "</" + "b" + ">";
    assert c[3] == 'l' && close[3] == '>';
    assert !StartsWithCI(c, close);
    assert c[1..] == "/blockquote>";
    LazyCloseNone(c[1..], close);
  }

  /** The lazy capture passes over line-free text without '<'. */
  lemma {:induction false} LazyCloseSkips(x: string, rest: string, close: string)
    requires '<' !in x && NoLineTerminator(x) && close != [] && close[0] == '<'
    requires LazyClose(rest, close).None?
    ensures LazyClose(x + rest, close).None?
  {
    var s := x + rest;
    if x == [] {
      assert s == rest;
    } else {
      assert s[0] == x[0] && Lower(s[0]) != close[0];
      assert !IsLineTerminator(s[0]);
      assert s[1..] == x[1..] + rest;
      LazyCloseSkips(x[1..], rest, close);
    }
  }

  /** The blockquote callback puts "> " before the captured line and a
      blank line after it. */
  lemma QuoteReplaced(t: string, rule: Rule)
    requires '<' !in t && NoLineTerminator(t) && rule == Rule(Tag("blockquote"), Quoted)
    ensures ReplaceRule(Enclosed("blockquote", t), rule) == "> " + t + "\n\n"
    ensures '<' !in "> " + t + "\n\n"
  {
    SingleLinePrefixed(t);
    assert LowerName("blockquote");
    EnclosedMatch("blockquote", t);
    WholeMatch(Enclosed("blockquote", t), rule);
  }

  /** A quoted line followed by a blank line is collapsed and trimmed to
      the quoted line. */
  lemma QuoteTidy(t: string)
    requires InlineText(t)
    ensures Trim(CollapseBreaks("> " + t + "\n\n")) == "> " + t
  {
    var x := "> " + t;
    NoTerminatorNoBreak(t);
    TrimmedLine(x, 2);
    assert x + Repeat('\n', 2) == "> " + t + "\n\n";
  }

  /** `<pre><code>t</code></pre>`, grouped as the inner element between
      the block's tags. */
  function PreBlock(t: string): string {
    "<" + "pre" + ">" + (Enclosed("code", t) + ("</" + "pre" + ">"))
  }

  /** The fence around inline code. */
  function FencedCode(t: string): string {
    "```\n" + ("`" + t + "`") + "\n```"
  }

  /** The inline-code replacement runs before the one for a code block:
      `<pre><code>t</code></pre>` loses its inner element to inline code,
      and the block replacement written for it never matches; the plain
      `<pre>` replacement then fences the inline code. */
  lemma CodeShadowsPre(t: string)
    requires InlineText(t)
    ensures HtmlToMarkdown("<pre><code>" + t + "</code></pre>") == "```\n`" + t + "`\n```"
  {
    PreCodeShape(t);
    PreCodeConverted(t);
  }

  lemma PreCodeConverted(t: string)
    requires InlineText(t)
    ensures HtmlToMarkdown(PreBlock(t)) == FencedCode(t)
  {
    var x := FencedCode(t) + "\n\n";
    PreCodeApplied(t);
    FenceUntagged(t);
    PlainTidy(x);
    PreCodeTidy(t);
  }

  lemma FenceUntagged(t: string)
    requires '<' !in t
    ensures '<' !in FencedCode(t) + "\n\n"
  {
    var x := FencedCode(t) + "\n\n";
    assert x == "```\n`" + t + "`\n```\n\n";
    forall i | 0 <= i < |x| ensures x[i] != '<' {
      if 5 <= i < 5 + |t| {
        assert x[i] == t[i - 5];
      }
    }
  }

  /** The source text, grouped as the element inside the block. */
  lemma PreCodeShape(t: string)
    ensures "<pre><code>" + t + "</code></pre>" == PreBlock(t)
    ensures "```\n`" + t + "`\n```" == FencedCode(t)
  {
  }

  /** The fenced inline code, followed by a blank line, is collapsed and
      trimmed to the fence. */
  lemma PreCodeTidy(t: string)
    requires InlineText(t)
    ensures Trim(CollapseBreaks(FencedCode(t) + "\n\n")) == FencedCode(t)
  {
    var m := "`" + t + "`";
    var x := FencedCode(t);
    NoTerminatorNoBreak(t);
    assert '\n' !in m && m[0] == '`';
    FencedLineKept(m);
    assert x + "\n\n" == "```" + ("\n" + (m + "\n```\n\n"));
    NoBreakPrefixKept("```", "\n" + (m + "\n```\n\n"));
    FenceTrimmed(x);
  }

  /** A line of inline code between line feeds, then the closing fence and
      a blank line, is not collapsed. */
  lemma FencedLineKept(m: string)
    requires '\n' !in m && m != [] && m[0] == '`'
    ensures CollapseBreaks("\n" + (m + "\n```\n\n")) == "\n" + (m + "\n```\n\n")
  {
    FenceTail();
    NoBreakPrefixKept(m, "\n```\n\n");
    assert (m + "\n```\n\n")[0] == '`';
    LoneBreakKept(m + "\n```\n\n");
  }

  lemma FenceTail()
    ensures CollapseBreaks("\n```\n\n") == "\n```\n\n"
  {
    TailBreaksKept("```", 2);
    assert "```" + Repeat('\n', 2) == "```\n\n";
    LoneBreakKept("```\n\n");
    assert "\n" + "```\n\n" == "\n```\n\n";
  }

  /** Text that starts and ends with a backtick, then a blank line, trims
      to the text. */
  lemma FenceTrimmed(x: string)
    requires x != [] && x[0] == '`' && x[|x| - 1] == '`'
    ensures Trim(x + "\n\n") == x
  {
    assert AllSpace("\n\n");
    assert [] + x + "\n\n" == x + "\n\n";
    TrimAround([], x, "\n\n");
  }

  /** A line feed before a line that does not start with white space stays. */
  lemma LoneBreakKept(r: string)
    requires r != [] && !IsSpace(r[0]) && CollapseBreaks(r) == r
    ensures CollapseBreaks("\n" + r) == "\n" + r
  {
    var r0 := "\n" + r;
    assert LFsAhead(r) == 0;
    assert r0[1..] == r;
    assert BreaksAt(r0).None?;
  }

  /** The replacements turn the block into the fenced inline code, followed
      by a blank line. */
  lemma PreCodeApplied(t: string)
    requires InlineText(t)
    ensures ApplyFrom(PreBlock(t), 0) == FencedCode(t) + "\n\n"
  {
    var m := "`" + t + "`";
    CodeSpan(t);
    PreBeforeCode(t);
    CodeStep(t);
    PreBetween(m);
    FenceStep(m);
    FenceLines(t);
  }

  /** Inline code around one line of text without tags. */
  lemma CodeSpan(t: string)
    requires InlineText(t)
    ensures var m := "`" + t + "`";
      '<' !in m && NoLineTerminator(m) && m != [] && m[0] == '`'
  {
    NoTerminatorNoBreak(t);
  }

  lemma FenceLines(t: string)
    ensures FencedCode(t) + "\n\n" == "```\n" + ("`" + t + "`") + "\n```\n\n"
  {
  }

  lemma PreBeforeCode(t: string)
    requires '<' !in t
    ensures ApplyFrom(PreBlock(t), 0) == ApplyFrom(PreBlock(t), 10)
  {
    forall j | 0 <= j < 10
      ensures ReplaceRule(PreBlock(t), HtmlRules[j]) == PreBlock(t)
    {
      PreCodeKeptBefore(j, t);
    }
    SkipRules(PreBlock(t), 0, 10);
  }

  lemma CodeStep(t: string)
    requires '<' !in t && NoLineTerminator(t)
    ensures ApplyFrom(PreBlock(t), 10) == ApplyFrom(Enclosed("pre", "`" + t + "`"), 11)
  {
    CodeRule();
    CodeInPre(t, HtmlRules[10]);
  }

  lemma PreBetween(m: string)
    requires '<' !in m && NoLineTerminator(m) && m != [] && m[0] == '`'
    ensures ApplyFrom(Enclosed("pre", m), 11) == ApplyFrom(Enclosed("pre", m), 17)
  {
    forall j | 11 <= j < 17
      ensures ReplaceRule(Enclosed("pre", m), HtmlRules[j]) == Enclosed("pre", m)
    {
      PreKeptAfterCode(j, m);
    }
    SkipRules(Enclosed("pre", m), 11, 17);
  }

  lemma FenceStep(m: string)
    requires '<' !in m && NoLineTerminator(m)
    ensures ApplyFrom(Enclosed("pre", m), 17) == "```\n" + m + "\n```\n\n"
  {
    PreRule();
    PreFenced(m, HtmlRules[17]);
    PlainRules("```\n" + m + "\n```\n\n", 18);
  }

  lemma CodeRule()
    ensures HtmlRules[10] == Rule(Tag("code"), Wrap("`", "`"))
  {
  }

  lemma PreRule()
    ensures HtmlRules[17] == Rule(Tag("pre"), Wrap("```\n", "\n```\n\n"))
  {
  }

  lemma ParagraphRuleWhole()
    ensures HtmlRules[11] == Rule(Tag("p"), Wrap("", "\n\n"))
  {
  }

  lemma CodeBlockRule()
    ensures HtmlRules[16] == Rule(Element("pre", ["code"], "</code></pre>"), Wrap("```\n", "\n```\n\n"))
  {
  }

  /** No name between the paragraph and the block-of-code replacements
      starts with 'p'. */
  lemma InitialsAfterParagraph(j: nat)
    requires 12 <= j < 16
    ensures RuleNames[j][0] != 'p'
  {
  }

  /** The replacements before inline code pass over the block. */
  lemma PreCodeKeptBefore(j: nat, t: string)
    requires j < 10 && '<' !in t
    ensures ReplaceRule(PreBlock(t), HtmlRules[j]) == PreBlock(t)
  {
    var p := "<" + "pre" + ">";
    var q := "</" + "pre" + ">";
    var c := Enclosed("code", t);
    var rule := HtmlRules[j];
    InitialsBeforeCode(j);
    PreOpenTag();
    RuleNamesLower(j);
    RuleOpensWith(j);
    ClosingKept("pre", [], rule);
    assert q + [] == q;
    MismatchKept(p, c + q, j, 0);
    EnclosedKept("code", t, q, rule, 0);
  }

  lemma InitialsBeforeCode(j: nat)
    requires j < 10
    ensures RuleNames[j][0] != 'p' && RuleNames[j][0] != 'c'
  {
  }

  lemma PreOpenTag()
    ensures var p := "<" + "pre" + ">";
      p[1] == 'p' && Lower(p[1]) == 'p' && '<' !in p[1..]
    ensures LowerName("pre") && LowerName("code")
  {
  }

  /** Inline code turns the inner element into backtick-quoted text. */
  lemma CodeInPre(t: string, rule: Rule)
    requires '<' !in t && NoLineTerminator(t) && rule == Rule(Tag("code"), Wrap("`", "`"))
    ensures ReplaceRule(PreBlock(t), rule) == Enclosed("pre", "`" + t + "`")
  {
    var p := "<" + "pre" + ">";
    var q := "</" + "pre" + ">";
    var c := Enclosed("code", t);
    assert LowerName("pre") && LowerName("code") && LowerName(TagName(rule.pattern));
    ClosingKept("pre", [], rule);
    assert q + [] == q;
    assert '<' !in p[1..] && Lower(p[1]) != "code"[0];
    NameMismatch(rule.pattern, p + (c + q), 0);
    HeadMissKept(p, c + q, rule);
    DropPrefix(c, q);
    EnclosedFirst("code", t, q);
    AppendAssoc(p, "`" + t + "`", q);
  }

  /** The block of inline code passes the replacements after inline code
      and before the plain block one. */
  lemma PreKeptAfterCode(j: nat, m: string)
    requires 11 <= j < 17 && '<' !in m && NoLineTerminator(m) && m != [] && m[0] == '`'
    ensures ReplaceRule(Enclosed("pre", m), HtmlRules[j]) == Enclosed("pre", m)
  {
    if j == 11 {
      ParagraphRuleWhole();
      PrePassesP(m, HtmlRules[11]);
    } else if j == 16 {
      CodeBlockRule();
      PreCodeMissing(m, HtmlRules[16]);
    } else {
      InitialsAfterParagraph(j);
      assert "<" + "pre" + [] == "<" + "pre";
      OpenedKept(j, "pre", [], m);
    }
  }

  /** `<p[^>]*>` opens on `<pre>`, but no `</p>` follows on the line. */
  lemma PrePassesP(m: string, rule: Rule)
    requires '<' !in m && NoLineTerminator(m) && rule == Rule(Tag("p"), Wrap("", "\n\n"))
    ensures ReplaceRule(Enclosed("pre", m), rule) == Enclosed("pre", m)
  {
    var u := "<" + "pre" + ">" + m;
    var q := "</" + "pre" + ">";
    assert LowerName("pre") && LowerName(TagName(rule.pattern));
    ClosingKept("pre", [], rule);
    assert q + [] == q;
    assert '<' !in u[1..] by {
      assert u[1..] == "pre" + ">" + m;
    }
    PreOpensP(m);
    HeadMissKept(u, q, rule);
  }

  /** The paragraph pattern finds no match on a block element. */
  lemma PreOpensP(m: string)
    requires '<' !in m && NoLineTerminator(m)
    ensures PatternAt(Tag("p"), Enclosed("pre", m)).None?
  {
    var q := "</" + "pre" + ">";
    var close := "</" + "p" + ">";
    var s := Enclosed("pre", m);
    assert s == "<" + "p" + "re" + ">" + (m + q);
    OpenTagFound("p", "re", m + q);
    DropPrefix("<" + "p" + "re" + ">", m + q);
    ClosingPreNotP();
    LazyCloseSkips(m, q, close);
    ElementUnclosed("p", close, s, 5);
  }

  /** `</pre>` does not begin with `</p>`, and holds no other '<'. */
  lemma ClosingPreNotP()
    ensures LazyClose("</" + "pre" + ">", "</" + "p" + ">").None?
  {
    var c := "</" + "pre" + ">";
    var close := "</" + "p" + ">";
    assert c[3] == 'r' && close[3] == '>';
    assert !StartsWithCI(c, close);
    assert c[1..] == "/pre>";
    LazyCloseNone(c[1..], close);
  }

  /** The block-of-code pattern needs `<code` right after `<pre>`, and
      finds a backtick there. */
  lemma PreCodeMissing(m: string, rule: Rule)
    requires '<' !in m && m != [] && m[0] == '`'
    requires rule == Rule(Element("pre", ["code"], "</code></pre>"), Wrap("```\n", "\n```\n\n"))
    ensures ReplaceRule(Enclosed("pre", m), rule) == Enclosed("pre", m)
  {
    var u := "<" + "pre" + ">" + m;
    var q := "</" + "pre" + ">";
    assert LowerName("pre") && LowerName(TagName(rule.pattern));
    ClosingKept("pre", [], rule);
    assert q + [] == q;
    assert '<' !in u[1..] by {
      assert u[1..] == "pre" + ">" + m;
    }
    PreInnerMissing(m);
    HeadMissKept(u, q, rule);
  }

  lemma PreInnerMissing(m: string)
    requires '<' !in m && m != [] && m[0] == '`'
    ensures PatternAt(Element("pre", ["code"], "</code></pre>"), Enclosed("pre", m)).None?
  {
    var q := "</" + "pre" + ">";
    var s := Enclosed("pre", m);
    assert s == "<" + "pre" + [] + ">" + (m + q);
    assert LowerName("pre");
    OpenTagFound("pre", [], m + q);
    DropPrefix("<" + "pre" + [] + ">", m + q);
    assert (m + q)[0] == '`' && Lower('`') != '<';
    assert OpenTagAt(m + q, "code").None?;
  }

  /** The plain block replacement fences the line. */
  lemma PreFenced(m: string, rule: Rule)
    requires '<' !in m && NoLineTerminator(m) && rule == Rule(Tag("pre"), Wrap("```\n", "\n```\n\n"))
    ensures ReplaceRule(Enclosed("pre", m), rule) == "```\n" + m + "\n```\n\n"
    ensures '<' !in "```\n" + m + "\n```\n\n"
  {
    assert LowerName("pre");
    EnclosedMatch("pre", m);
    WholeMatch(Enclosed("pre", m), rule);
  }
}
