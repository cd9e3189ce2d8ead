/** The editor of src/components/WysiwygEditor.tsx: the HTML-to-markdown
    conversion it applies to its rendered content on blur and paste, the
    ordered-list callback of that conversion, the class of its container
    for each editing mode, and its source-mode Tab key. */
module WysiwygEditor {
  import opened JsString
  import opened HtmlPatterns
  import Editor

  /** `<hN[^>]*>(.*?)<\/hN>` becomes N '#', a space, the text and a blank
      line. */
  function HeadingRule(n: nat): Rule
    requires 1 <= n <= 6
  {
    Rule(Tag("h" + [Digit(n)]), Wrap(Repeat('#', n) + " ", "\n\n"))
  }

  /** The replacements of the conversion, in the order they run. */
  const HtmlRules: seq<Rule> := [
    HeadingRule(1), HeadingRule(2), HeadingRule(3),
    HeadingRule(4), HeadingRule(5), HeadingRule(6),
    Rule(Tag("strong"), Wrap("**", "**")),
    Rule(Tag("b"), Wrap("**", "**")),
    Rule(Tag("em"), Wrap("*", "*")),
    Rule(Tag("i"), Wrap("*", "*")),
    Rule(Tag("code"), Wrap("`", "`")),
    Rule(Tag("p"), Wrap("", "\n\n")),
    Rule(Tag("li"), Wrap("- ", "\n")),
    Rule(Tag("ul"), Wrap("", "\n")),
    Rule(Tag("ol"), Numbered),
    Rule(Tag("blockquote"), Quoted),
    Rule(Element("pre", ["code"], "</code></pre>"), Wrap("```\n", "\n```\n\n")),
    Rule(Tag("pre"), Wrap("```\n", "\n```\n\n")),
    Rule(Void("br"), Wrap("\n", "")),
    Rule(Void("hr"), Wrap("\n---\n\n", ""))
  ]

  /** The replacements from the `k`-th on. */
  function ApplyFrom(s: string, k: nat): string
    requires k <= |HtmlRules|
    decreases |HtmlRules| - k
  {
    if k == |HtmlRules| then s else ApplyFrom(ReplaceRule(s, HtmlRules[k]), k + 1)
  }

  /** The clean-up after the replacements: remaining tags are removed,
      stretches of white space holding three or more line feeds become a
      blank line, and the ends are trimmed. */
  function Tidy(s: string): (r: string)
    ensures r == [] || (!IsSpace(r[0]) && !IsSpace(r[|r| - 1]))
    ensures TagFree(r)
    ensures NoTripleBreak(r)
  {
    var collapsed := CollapseBreaks(ReplaceRule(s, StripTags));
    TidyFacts(s);
    EdgeSpaceIsTrim(collapsed);
    EdgeSpace(collapsed)
  }

  lemma TidyFacts(s: string)
    ensures var r := Trim(CollapseBreaks(ReplaceRule(s, StripTags)));
      TagFree(r) && NoTripleBreak(r)
  {
    var stripped := ReplaceRule(s, StripTags);
    StrippedTagFree(s);
    CollapsedTagFree(stripped);
    CollapsedNoTriple(stripped);
    TrimmedTagFree(CollapseBreaks(stripped));
    TrimmedNoTriple(CollapseBreaks(stripped));
  }

  /** `htmlToMarkdown`: no tag and no white space is left at either end,
      and no stretch of white space holds three line feeds. */
  function HtmlToMarkdown(html: string): (markdown: string)
    ensures markdown == [] || (!IsSpace(markdown[0]) && !IsSpace(markdown[|markdown| - 1]))
    ensures TagFree(markdown)
    ensures NoTripleBreak(markdown)
  {
    Tidy(ApplyFrom(html, 0))
  }

  /** The ordered-list callback as it is written: a counter that starts at
      1, the inner list-item replace whose callback returns the counter's
      value (then increments it) followed by ". $1" and a line feed, and a
      final line feed. */
  method NumberListItems(content: string) returns (r: string)
    ensures r == Replacement(Numbered, content)
  {
    var counter: nat := 1;
    var out := "";
    var rest := content;
    while rest != []
      invariant out + NumberItems(rest, counter) == NumberItems(content, 1)
      decreases |rest|
    {
      var m := PatternAt(ListItem, rest);
      if m.Some? {
        NumberItemsHit(rest, counter, out, NumberItems(content, 1));
        out := out + (NatToString(counter) + ". $1\n");
        counter := counter + 1;
        rest := rest[m.value.len..];
      } else {
        NumberItemsMiss(rest, counter, out, NumberItems(content, 1));
        out := out + [rest[0]];
        rest := rest[1..];
      }
    }
    assert out + [] == out;
    r := out + "\n";
  }

  lemma NumberItemsHit(s: string, n: nat, out: string, whole: string)
    requires s != [] && PatternAt(ListItem, s).Some?
    requires out + NumberItems(s, n) == whole
    ensures var h := PatternAt(ListItem, s).value;
      (out + (NatToString(n) + ". $1\n")) + NumberItems(s[h.len..], n + 1) == whole
  {
    var h := PatternAt(ListItem, s).value;
    AppendAssoc(out, NatToString(n) + ". $1\n", NumberItems(s[h.len..], n + 1));
  }

  lemma NumberItemsMiss(s: string, n: nat, out: string, whole: string)
    requires s != [] && PatternAt(ListItem, s).None?
    requires out + NumberItems(s, n) == whole
    ensures (out + [s[0]]) + NumberItems(s[1..], n) == whole
  {
    AppendAssoc(out, [s[0]], NumberItems(s[1..], n));
  }

  /** The editing modes. */
  datatype EditMode = Wysiwyg | Source | Typewriter | Focus

  /** The class of the editor's container in each mode. */
  function ContainerClass(mode: EditMode): (className: string)
    ensures |className| >= 16 && className[..16] == "editor-container"
    ensures mode == Wysiwyg <==> className == "editor-container"
  {
    match mode
    case Wysiwyg => "editor-container"
    case Source => "editor-container source"
    case Typewriter => "editor-container typewriter"
    case Focus => "editor-container focus"
  }

  /** `getContainerClass`, with its appends. */
  method GetContainerClass(mode: EditMode) returns (className: string)
    ensures className == ContainerClass(mode)
  {
    className := "editor-container";
    if mode == Source {
      className := className + " source";
    }
    if mode == Typewriter {
      className := className + " typewriter";
    }
    if mode == Focus {
      className := className + " focus";
    }
  }

  /** Each mode has its own container class. */
  lemma ContainerClassDistinct(m1: EditMode, m2: EditMode)
    ensures ContainerClass(m1) == ContainerClass(m2) <==> m1 == m2
  {
  }

  /** `handleKeyDown`: only in source mode, and there exactly the plain
      editor's Tab edit; in every other mode a key changes nothing and the
      default action is kept. */
  function HandleKeyDown(mode: EditMode, key: string, content: string, textarea: Option<Editor.Selection>): (o: Editor.KeyOutcome)
    ensures mode != Source ==> !o.preventDefault && o.edit.None?
    ensures mode == Source ==> o == Editor.HandleKeyDown(key, content, textarea)
    ensures o.edit.Some? ==>
      mode == Source && key == "Tab" && textarea.Some? && o.edit.value.caret == textarea.value.start + 2
  {
    if mode == Source then Editor.HandleKeyDown(key, content, textarea)
    else Editor.KeyOutcome(false, None)
  }

  /** `handleWysiwygInput`: on blur or paste the rendered HTML, when the
      element is mounted, is converted and handed to the parent; other
      events hand nothing. */
  function HandleWysiwygInput(eventType: string, innerHtml: Option<string>): (markdown: Option<string>)
    ensures markdown.Some? <==> innerHtml.Some? && (eventType == "blur" || eventType == "paste")
    ensures markdown.Some? ==> markdown.value == HtmlToMarkdown(innerHtml.value)
  {
    match innerHtml
    case None => None
    case Some(html) => if eventType == "blur" || eventType == "paste" then Some(HtmlToMarkdown(html)) else None
  }
}
