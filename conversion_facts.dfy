/** What `htmlToMarkdown` of src/components/WysiwygEditor.tsx:5-45 does
    to particular inputs: plain text, the elements its replacements name,
    line breaks and rules, and the places where the order of its
    replacements or the reach of its patterns gives a result the markup
    does not suggest. */
module ConversionFacts {
  import opened JsString
  import opened HtmlPatterns
  import opened WysiwygEditor

  /** The tag name each replacement opens with, in the order they run. */
  const RuleNames: seq<string> := [
    "h1", "h2", "h3", "h4", "h5", "h6", "strong", "b", "em", "i",
    "code", "p", "li", "ul", "ol", "blockquote", "pre", "pre", "br", "hr"]

  lemma RuleNamesLower(i: nat)
    requires i < |RuleNames|
    ensures LowerName(RuleNames[i])
  {
  }

  lemma RuleOpensWith(i: nat)
    requires i < |HtmlRules|
    ensures !HtmlRules[i].pattern.AnyTag? && TagName(HtmlRules[i].pattern) == RuleNames[i]
  {
  }

  lemma RuleIsTag(i: nat)
    requires i < 16
    ensures HtmlRules[i].pattern == Tag(RuleNames[i])
  {
  }

  lemma RuleWraps(i: nat)
    requires i < 14
    ensures HtmlRules[i].action.Wrap?
    ensures '<' !in HtmlRules[i].action.before && '<' !in HtmlRules[i].action.after
  {
  }

  /** Where two of the first fourteen tag names first differ: the digit
      of two headings, the first letter otherwise. */
  function DiffPos(j: nat, i: nat): nat {
    if i < 6 then 1 else 0
  }

  lemma NamesDiffer(j: nat, i: nat)
    requires j < i < 14
    ensures DiffPos(j, i) < |RuleNames[j]| && DiffPos(j, i) < |RuleNames[i]|
    ensures RuleNames[j][DiffPos(j, i)] != RuleNames[i][DiffPos(j, i)]
  {
  }

  /** Replacements that each leave `s` as it is can be passed over. */
  lemma {:induction false} SkipRules(s: string, k: nat, j: nat)
    requires k <= j <= |HtmlRules|
    requires forall i :: k <= i < j ==> ReplaceRule(s, HtmlRules[i]) == s
    ensures ApplyFrom(s, k) == ApplyFrom(s, j)
    decreases j - k
  {
    if k < j {
      SkipOne(s, k);
      SkipRules(s, k + 1, j);
    }
  }

  /** A replacement that leaves `s` as it is can be passed over. */
  lemma SkipOne(s: string, k: nat)
    requires k < |HtmlRules| && ReplaceRule(s, HtmlRules[k]) == s
    ensures ApplyFrom(s, k) == ApplyFrom(s, k + 1)
  {
  }

  /** Text without '<' passes every replacement from the `k`-th on. */
  lemma {:induction false} PlainRules(s: string, k: nat)
    requires '<' !in s && k <= |HtmlRules|
    ensures ApplyFrom(s, k) == s
    decreases |HtmlRules| - k
  {
    if k < |HtmlRules| {
      NoTagTextKept(s, HtmlRules[k]);
      PlainRules(s, k + 1);
    }
  }

  /** The clean-up of text without '<' is the collapse of its line feeds
      and the trim. */
  lemma PlainTidy(s: string)
    requires '<' !in s
    ensures Tidy(s) == Trim(CollapseBreaks(s))
  {
    NoTagTextKept(s, StripTags);
    EdgeSpaceIsTrim(CollapseBreaks(s));
  }

  /** Text without '<' is converted to itself, with stretches of three or
      more line feeds collapsed, and trimmed. */
  lemma PlainConverted(html: string)
    requires '<' !in html
    ensures HtmlToMarkdown(html) == Trim(CollapseBreaks(html))
  {
    PlainRules(html, 0);
    PlainTidy(html);
  }

  /** A replacement that runs before the `i`-th passes over the element
      the `i`-th is written for. */
  lemma EarlierKeeps(j: nat, i: nat, t: string)
    requires j < i < 14 && '<' !in t
    ensures ReplaceRule(Enclosed(RuleNames[i], t), HtmlRules[j]) == Enclosed(RuleNames[i], t)
  {
    var e := Enclosed(RuleNames[i], t);
    RuleNamesLower(i);
    RuleNamesLower(j);
    RuleOpensWith(j);
    NamesDiffer(j, i);
    EnclosedKept(RuleNames[i], t, [], HtmlRules[j], DiffPos(j, i));
    assert e + [] == e;
  }

  /** An element of one of the first fourteen names (headings, bold,
      italics, inline code, paragraph, list item, unordered list) around
      one line of text becomes that line between the replacement's two
      texts, collapsed and trimmed. */
  lemma WrapConverted(i: nat, name: string, before: string, after: string, t: string)
    requires i < 14 && RuleNames[i] == name && HtmlRules[i].action == Wrap(before, after)
    requires '<' !in t && NoLineTerminator(t)
    ensures HtmlToMarkdown(Enclosed(name, t)) == Trim(CollapseBreaks(before + t + after))
  {
    var e := Enclosed(name, t);
    forall j | 0 <= j < i
      ensures ReplaceRule(e, HtmlRules[j]) == e
    {
      EarlierKeeps(j, i, t);
    }
    WrapReplaced(i, name, before, after, t);
    OnlyRuleApplies(e, i, before + t + after);
    PlainTidy(before + t + after);
  }

  /** The `i`-th replacement turns its element into the text between its
      two texts. */
  lemma WrapReplaced(i: nat, name: string, before: string, after: string, t: string)
    requires i < 14 && RuleNames[i] == name && HtmlRules[i].action == Wrap(before, after)
    requires '<' !in t && NoLineTerminator(t)
    ensures ReplaceRule(Enclosed(name, t), HtmlRules[i]) == before + t + after
    ensures '<' !in before + t + after
  {
    RuleNamesLower(i);
    RuleIsTag(i);
    EnclosedMatch(name, t);
    WholeMatch(Enclosed(name, t), HtmlRules[i]);
    RuleWraps(i);
  }

  /** When the replacements before the `i`-th leave `s` as it is and the
      `i`-th leaves text without '<', that text is what the replacements
      produce. */
  lemma OnlyRuleApplies(s: string, i: nat, out: string)
    requires i < |HtmlRules|
    requires forall j :: 0 <= j < i ==> ReplaceRule(s, HtmlRules[j]) == s
    requires ReplaceRule(s, HtmlRules[i]) == out && '<' !in out
    ensures ApplyFrom(s, 0) == out
  {
    SkipRules(s, 0, i);
    assert ApplyFrom(s, i) == ApplyFrom(out, i + 1);
    PlainRules(out, i + 1);
  }

  /** The heading replacements, by level. */
  lemma HeadingRuleAt(n: nat)
    requires 1 <= n <= 6
    ensures RuleNames[n - 1] == "h" + [Digit(n)]
    ensures HtmlRules[n - 1].action == Wrap(Repeat('#', n) + " ", "\n\n")
  {
    assert HtmlRules[n - 1] == HeadingRule(n);
  }

  /** One line of text with no '<' that neither starts nor ends with
      white space. */
  predicate InlineText(t: string) {
    t != [] && '<' !in t && NoLineTerminator(t) && !IsSpace(t[0]) && !IsSpace(t[|t| - 1])
  }

  /** `<hN>t</hN>` becomes N '#', a space and the text. */
  lemma HeadingConverted(n: nat, t: string)
    requires 1 <= n <= 6 && InlineText(t)
    ensures HtmlToMarkdown(Enclosed("h" + [Digit(n)], t)) == Repeat('#', n) + " " + t
  {
    var x := Repeat('#', n) + " " + t;
    assert Repeat('\n', 2) == "\n\n";
    NoTerminatorNoBreak(t);
    TrimmedLine(x, 2);
    HeadingRuleAt(n);
    WrapConverted(n - 1, "h" + [Digit(n)], Repeat('#', n) + " ", "\n\n", t);
  }

  /** `<strong>t</strong>` becomes `**t**`. */
  lemma StrongConverted(t: string)
    requires '<' !in t && NoLineTerminator(t)
    ensures HtmlToMarkdown(Enclosed("strong", t)) == "**" + t + "**"
  {
    assert RuleNames[6] == "strong" && HtmlRules[6].action == Wrap("**", "**");
    DelimitedKept("**", t);
    WrapConverted(6, "strong", "**", "**", t);
  }

  /** `<b>t</b>` becomes `**t**`. */
  lemma BConverted(t: string)
    requires '<' !in t && NoLineTerminator(t)
    ensures HtmlToMarkdown(Enclosed("b", t)) == "**" + t + "**"
  {
    assert RuleNames[7] == "b" && HtmlRules[7].action == Wrap("**", "**");
    DelimitedKept("**", t);
    WrapConverted(7, "b", "**", "**", t);
  }

  /** `<em>t</em>` becomes `*t*`. */
  lemma EmConverted(t: string)
    requires '<' !in t && NoLineTerminator(t)
    ensures HtmlToMarkdown(Enclosed("em", t)) == "*" + t + "*"
  {
    assert RuleNames[8] == "em" && HtmlRules[8].action == Wrap("*", "*");
    DelimitedKept("*", t);
    WrapConverted(8, "em", "*", "*", t);
  }

  /** `<i>t</i>` becomes `*t*`. */
  lemma IConverted(t: string)
    requires '<' !in t && NoLineTerminator(t)
    ensures HtmlToMarkdown(Enclosed("i", t)) == "*" + t + "*"
  {
    assert RuleNames[9] == "i" && HtmlRules[9].action == Wrap("*", "*");
    DelimitedKept("*", t);
    WrapConverted(9, "i", "*", "*", t);
  }

  /** `<code>t</code>` becomes `` `t` ``. */
  lemma CodeConverted(t: string)
    requires '<' !in t && NoLineTerminator(t)
    ensures HtmlToMarkdown(Enclosed("code", t)) == "`" + t + "`"
  {
    assert RuleNames[10] == "code" && HtmlRules[10].action == Wrap("`", "`");
    DelimitedKept("`", t);
    WrapConverted(10, "code", "`", "`", t);
  }

  /** Text of one line between delimiters that are not white space is
      left as it is by the collapse and the trim. */
  lemma DelimitedKept(d: string, t: string)
    requires d != [] && !IsSpace(d[0]) && !IsSpace(d[|d| - 1]) && '\n' !in d && NoLineTerminator(t)
    ensures Trim(CollapseBreaks(d + t + d)) == d + t + d
  {
    var x := d + t + d;
    NoTerminatorNoBreak(t);
    assert '\n' !in d + t;
    NoBreakKept(x);
    assert x[0] == d[0] && x[|x| - 1] == d[|d| - 1];
    TrimTrimmed(x);
  }

  /** A line followed by one or two line feeds collapses to itself and
      trims to the line. */
  lemma TrimmedLine(x: string, n: nat)
    requires '\n' !in x && n <= 2 && x != [] && !IsSpace(x[0]) && !IsSpace(x[|x| - 1])
    ensures Trim(CollapseBreaks(x + Repeat('\n', n))) == x
  {
    var w := Repeat('\n', n);
    assert AllSpace(w) by {
      forall i | 0 <= i < |w| ensures IsSpace(w[i]) {
        assert w[i] == '\n';
      }
    }
    assert [] + x == x;
    TrimAround([], x, w);
    TailBreaksKept(x, n);
  }

  /** `<p>t</p>` becomes the text alone. */
  lemma ParagraphConverted(t: string)
    requires InlineText(t)
    ensures HtmlToMarkdown(Enclosed("p", t)) == t
  {
    assert RuleNames[11] == "p" && HtmlRules[11].action == Wrap("", "\n\n");
    NoTerminatorNoBreak(t);
    TrimmedLine(t, 2);
    assert "" + t + "\n\n" == t + Repeat('\n', 2);
    WrapConverted(11, "p", "", "\n\n", t);
  }

  /** `<li>t</li>` becomes a bullet line. */
  lemma ListItemConverted(t: string)
    requires InlineText(t)
    ensures HtmlToMarkdown(Enclosed("li", t)) == "- " + t
  {
    assert RuleNames[12] == "li" && HtmlRules[12].action == Wrap("- ", "\n");
    var x := "- " + t;
    NoTerminatorNoBreak(t);
    TrimmedLine(x, 1);
    assert x + Repeat('\n', 1) == "- " + t + "\n";
    WrapConverted(12, "li", "- ", "\n", t);
  }

  lemma NoTerminatorNoBreak(t: string)
    requires NoLineTerminator(t)
    ensures '\n' !in t
  {
    forall k | 0 <= k < |t|
      ensures t[k] != '\n'
    {
      assert !IsLineTerminator(t[k]);
    }
  }

  /** A string that opens with '<' and has no other, where the `j`-th
      replacement's tag name differs from what follows the '<' at
      position `pos`, passes that replacement. */
  lemma MismatchKept(u: string, v: string, j: nat, pos: nat)
    requires j < |HtmlRules| && u != [] && '<' !in u[1..]
    requires pos < |RuleNames[j]| && pos + 1 < |u| && Lower(u[pos + 1]) != RuleNames[j][pos]
    ensures ReplaceRule(u + v, HtmlRules[j]) == u + ReplaceRule(v, HtmlRules[j])
  {
    RuleOpensWith(j);
    assert (u + v)[pos + 1] == u[pos + 1];
    NameMismatch(HtmlRules[j].pattern, u + v, pos);
    HeadMissKept(u, v, HtmlRules[j]);
  }

  /** Where `br` parts from each tag name before it: at the second
      letter for `blockquote`, at the first for the others but `b`. */
  lemma BrNameDiffers(j: nat)
    requires j < 18 && j != 7
    ensures var pos := if j == 15 then 1 else 0;
      pos < |RuleNames[j]| && Lower("<br>"[pos + 1]) != RuleNames[j][pos]
  {
  }

  /** `<br>` before text without '<' passes the first eighteen
      replacements. */
  lemma BrKept(j: nat, b: string)
    requires j < 18 && '<' !in b
    ensures ReplaceRule("<br>" + b, HtmlRules[j]) == "<br>" + b
  {
    if j == 7 {
      BrPassesB(b);
    } else {
      BrNameDiffers(j);
      MismatchKept("<br>", b, j, if j == 15 then 1 else 0);
      NoTagTextKept(b, HtmlRules[j]);
    }
  }

  /** `<b[^>]*>` opens on `<br>` but finds no `</b>` to close. */
  lemma BrPassesB(b: string)
    requires '<' !in b
    ensures ReplaceRule("<br>" + b, HtmlRules[7]) == "<br>" + b
  {
    var rule := HtmlRules[7];
    assert rule.pattern == Element("b", [], "</" + "b" + ">");
    assert "<br>" + b == "<" + "b" + "r" + ">" + b;
    OpenedUnclosed("b", "r", b, "</" + "b" + ">");
    HeadMissKept("<br>", b, rule);
    NoTagTextKept(b, rule);
  }

  /** `a<br>b` becomes the two lines `a` and `b`. */
  lemma BreakConverted(a: string, b: string)
    requires InlineText(a) && InlineText(b)
    ensures HtmlToMarkdown(a + "<br>" + b) == a + "\n" + b
  {
    var out := a + "\n" + b;
    NoTerminatorNoBreak(a);
    NoTerminatorNoBreak(b);
    SingleBreakKept(a, b);
    assert out[0] == a[0] && out[|out| - 1] == b[|b| - 1];
    TrimTrimmed(out);
    BrApplied(a, b);
    PlainTidy(out);
  }

  /** The replacements turn `a<br>b` into `a`, a line feed and `b`. */
  lemma BrApplied(a: string, b: string)
    requires '<' !in a && '<' !in b
    ensures ApplyFrom(a + "<br>" + b, 0) == a + "\n" + b
  {
    var s := a + "<br>" + b;
    AppendAssoc(a, "<br>", b);
    forall j | 0 <= j < 18
      ensures ReplaceRule(s, HtmlRules[j]) == s
    {
      NoTagPrefixKept(a, "<br>" + b, HtmlRules[j]);
      BrKept(j, b);
    }
    BrReplaced(a, b);
    OnlyRuleApplies(s, 18, a + "\n" + b);
  }

  /** The `<br>` replacement turns `a<br>b` into `a`, a line feed and `b`. */
  lemma BrReplaced(a: string, b: string)
    requires '<' !in a && '<' !in b
    ensures ReplaceRule(a + "<br>" + b, HtmlRules[18]) == a + "\n" + b
  {
    var rule := HtmlRules[18];
    assert rule == Rule(Void("br"), Wrap("\n", ""));
    AppendAssoc(a, "<br>", b);
    AppendAssoc(a, "\n", b);
    NoTagPrefixKept(a, "<br>" + b, rule);
    assert "<br>" + b == "<" + "br" + [] + ">" + b;
    VoidFound("br", [], b);
    assert ("<br>" + b)[4..] == b;
    NoTagTextKept(b, rule);
    assert Replacement(rule.action, []) == "\n";
  }

  /** `<hr>` between two pieces of one line each becomes `---` on a line
      of its own, followed by a blank line. */
  lemma HrConverted(a: string, b: string)
    requires '<' !in a && NoLineTerminator(a) && '<' !in b && NoLineTerminator(b)
    ensures HtmlToMarkdown(a + "<hr>" + b) == Trim(a + "\n---\n\n" + b)
  {
    var out := a + "\n---\n\n" + b;
    NoTerminatorNoBreak(a);
    NoTerminatorNoBreak(b);
    HrCollapse(a, b);
    HrApplied(a, b);
    PlainTidy(out);
  }

  /** `<hr>` alone becomes a thematic break. */
  lemma RuleConverted(html: string)
    requires html == "<hr>"
    ensures HtmlToMarkdown(html) == "---"
  {
    BreakAlone();
    assert [] + "<hr>" + [] == html;
    HrConverted([], []);
  }

  lemma BreakAlone()
    ensures Trim([] + "\n---\n\n" + []) == "---"
  {
    assert [] + "\n---\n\n" + [] == "\n" + "---" + "\n\n";
    TrimAround("\n", "---", "\n\n");
  }

  lemma HrCollapse(a: string, b: string)
    requires '\n' !in a && '\n' !in b
    ensures CollapseBreaks(a + "\n---\n\n" + b) == a + "\n---\n\n" + b
  {
    var r2 := "\n\n" + b;
    TwoBreaksKept(b);
    NoBreakPrefixKept("---", r2);
    var r1 := "---" + r2;
    assert r1[0] == '-';
    assert LFsAhead(r1) == 0;
    var r0 := "\n" + r1;
    assert r0[1..] == r1;
    assert CollapseBreaks(r0) == r0;
    NoBreakPrefixKept(a, r0);
    assert a + "\n---\n\n" + b == a + r0;
  }

  /** The replacements turn `a<hr>b` into `a`, the thematic break and `b`. */
  lemma HrApplied(a: string, b: string)
    requires '<' !in a && '<' !in b
    ensures ApplyFrom(a + "<hr>" + b, 0) == a + "\n---\n\n" + b
  {
    var s := a + "<hr>" + b;
    AppendAssoc(a, "<hr>", b);
    forall j | 0 <= j < 19
      ensures ReplaceRule(s, HtmlRules[j]) == s
    {
      NoTagPrefixKept(a, "<hr>" + b, HtmlRules[j]);
      HrKept(j, b);
    }
    HrReplaced(a, b);
    OnlyRuleApplies(s, 19, a + "\n---\n\n" + b);
  }

  /** `<hr>` passes every replacement before its own. */
  lemma HrKept(j: nat, b: string)
    requires j < 19 && '<' !in b
    ensures ReplaceRule("<hr>" + b, HtmlRules[j]) == "<hr>" + b
  {
    var pos := if j < 6 then 1 else 0;
    assert pos < |RuleNames[j]| && Lower("<hr>"[pos + 1]) != RuleNames[j][pos];
    MismatchKept("<hr>", b, j, pos);
    NoTagTextKept(b, HtmlRules[j]);
  }

  /** The `<hr>` replacement. */
  lemma HrReplaced(a: string, b: string)
    requires '<' !in a && '<' !in b
    ensures ReplaceRule(a + "<hr>" + b, HtmlRules[19]) == a + "\n---\n\n" + b
  {
    var rule := HtmlRules[19];
    assert rule == Rule(Void("hr"), Wrap("\n---\n\n", ""));
    AppendAssoc(a, "<hr>", b);
    AppendAssoc(a, "\n---\n\n", b);
    NoTagPrefixKept(a, "<hr>" + b, rule);
    assert "<hr>" + b == "<" + "hr" + [] + ">" + b;
    VoidFound("hr", [], b);
    assert ("<hr>" + b)[4..] == b;
    NoTagTextKept(b, rule);
    assert Replacement(rule.action, []) == "\n---\n\n";
  }
}
