/** `markdownToPlainText` of src/utils/markdown.ts: the marker-stripping
    cascade followed by `trim()`.  The library wrappers of the same file
    (`configureMarked`, `parseMarkdown`) are not part of this model. */
module Markdown {
  import opened JsString
  import opened MarkdownSyntax

  /** The plain text of a markdown document: one line, trimmed, and never
      longer than the document. */
  function MarkdownToPlainText(markdown: string): (text: string)
    ensures '\n' !in text
    ensures text == [] || (!IsSpace(text[0]) && !IsSpace(text[|text| - 1]))
    ensures |text| <= |markdown|
  {
    Trim(StripMarkers(markdown))
  }

  /** Plain text with no white space at either end. */
  predicate PlainWords(t: string) {
    t != [] && Plain(t) && !IsSpace(t[0]) && !IsSpace(t[|t| - 1])
  }

  /** When the substitutions before the `k`-th cannot match anywhere in
      `s` and the `k`-th leaves plain words, those words are the plain
      text. */
  lemma OnlyStep(s: string, k: nat, c: Cleanup, t: string)
    requires k < |Cascade| && Cascade[k] == c && UnusedBelow(s, k)
    requires ReplaceAll(s, c) == t && PlainWords(t)
    ensures MarkdownToPlainText(s) == t
  {
    UnusedBefore(s, k);
    OnlyOneApplies(s, k, c, t);
    TrimTrimmed(t);
  }

  /** Plain text between markers that no substitution before the `k`-th
      uses. */
  lemma WrappedUnused(pre: string, t: string, post: string, k: nat)
    requires k <= |Cascade| && UnusedBelow(pre, k) && Plain(t) && UnusedBelow(post, k)
    ensures UnusedBelow(pre + t + post, k)
  {
    PlainUnused(t, k);
    UnusedConcat(pre, t, k);
    UnusedConcat(pre + t, post, k);
  }

  /** A header line of one to six '#' loses its marker. */
  lemma HeaderLine(n: nat, t: string)
    requires 1 <= n <= 6 && PlainWords(t)
    ensures MarkdownToPlainText(Repeat('#', n) + " " + t) == t
  {
    HeaderRemoved(n, t);
    OnlyStep(Repeat('#', n) + " " + t, 0, Headers, t);
  }

  lemma HeaderRemoved(n: nat, t: string)
    requires 1 <= n <= 6 && PlainWords(t)
    ensures ReplaceAll(Repeat('#', n) + " " + t, Headers) == t
  {
    HeaderMarkerRemoved(n, t);
  }

  /** `**t**` loses its asterisks. */
  lemma BoldText(t: string)
    requires PlainWords(t)
    ensures MarkdownToPlainText("**" + t + "**") == t
  {
    BoldRemoved(t);
    BoldUnused(t);
    OnlyStep("**" + t + "**", 1, Bold, t);
  }

  /** The bold substitution turns `**t**` into `t`. */
  lemma BoldRemoved(t: string)
    requires PlainWords(t)
    ensures ReplaceAll("**" + t + "**", Bold) == t
  {
    Delimiters(t, '*', 2);
    DelimitedRemoved(Bold, '*', 2, t);
  }

  lemma BoldUnused(t: string)
    requires PlainWords(t)
    ensures UnusedBelow("**" + t + "**", 1)
  {
    WrappedUnused("**", t, "**", 1);
  }

  /** `*t*` loses its asterisks.  The bold substitution, which runs first,
      finds nothing: the leading asterisk is not followed by a second. */
  lemma ItalicText(t: string)
    requires PlainWords(t)
    ensures MarkdownToPlainText("*" + t + "*") == t
  {
    ItalicStripped(t);
    TrimTrimmed(t);
  }

  lemma ItalicStripped(t: string)
    requires PlainWords(t)
    ensures StripMarkers("*" + t + "*") == t
  {
    ItalicBefore(t);
    ItalicRemoved(t);
    ItalicOnlyApplies("*" + t + "*", t);
  }

  /** The header and bold substitutions leave `*t*` alone. */
  lemma ItalicBefore(t: string)
    requires PlainWords(t)
    ensures ReplaceAll("*" + t + "*", Headers) == "*" + t + "*"
    ensures ReplaceAll("*" + t + "*", Bold) == "*" + t + "*"
  {
    var s := "*" + t + "*";
    assert ReplaceAll(s, Headers) == s by {
      WrappedUnused("*", t, "*", 1);
      UnusedFixed(s, 0, Headers);
    }
    BoldSkipsSingle(t);
  }

  /** The italic substitution turns `*t*` into `t`. */
  lemma ItalicRemoved(t: string)
    requires PlainWords(t)
    ensures ReplaceAll("*" + t + "*", Italic) == t
  {
    Delimiters(t, '*', 1);
    DelimitedRemoved(Italic, '*', 1, t);
  }

  /** Plain words between delimiters written out. */
  lemma Delimiters(t: string, d: char, width: nat)
    requires PlainWords(t) && (d == '*' || d == '`') && 1 <= width <= 2
    ensures t != [] && d !in t
    ensures Repeat(d, width) == if width == 1 then [d] else [d, d]
  {
  }

  /** The bold substitution leaves `*t*` alone. */
  lemma BoldSkipsSingle(t: string)
    requires PlainWords(t)
    ensures ReplaceAll("*" + t + "*", Bold) == "*" + t + "*"
  {
    var s := "*" + t + "*";
    assert s[..2] != Repeat('*', 2) by {
      assert s[1] == t[0];
    }
    assert MatchAt(Bold, s) == None;
    assert s[1..] == t + "*";
    ReplaceAllPrefix(t, "*", Bold);
    assert ReplaceAll("*", Bold) == "*";
  }

  /** `` `t` `` loses its backticks. */
  lemma CodeText(t: string)
    requires PlainWords(t)
    ensures MarkdownToPlainText("`" + t + "`") == t
  {
    CodeRemoved(t);
    CodeUnused(t);
    OnlyStep("`" + t + "`", 3, InlineCode, t);
  }

  /** The inline-code substitution turns `` `t` `` into `t`. */
  lemma CodeRemoved(t: string)
    requires PlainWords(t)
    ensures ReplaceAll("`" + t + "`", InlineCode) == t
  {
    Delimiters(t, '`', 1);
    DelimitedRemoved(InlineCode, '`', 1, t);
  }

  lemma CodeUnused(t: string)
    requires PlainWords(t)
    ensures UnusedBelow("`" + t + "`", 3)
  {
    WrappedUnused("`", t, "`", 3);
  }

  /** A link keeps its text and loses its target. */
  lemma LinkText(t: string, url: string)
    requires PlainWords(t) && ']' !in t
    requires Plain(url) && url != [] && ')' !in url
    ensures MarkdownToPlainText("[" + t + "](" + url + ")") == t
  {
    LinkUnused(t, url);
    LinkRemoved(t, url);
    OnlyStep("[" + t + "](" + url + ")", 5, Links, t);
  }

  lemma LinkUnused(t: string, url: string)
    requires Plain(t) && Plain(url)
    ensures UnusedBelow("[" + t + "](" + url + ")", 5)
  {
    WrappedUnused("[", t, "](", 5);
    WrappedUnused("[" + t + "](", url, ")", 5);
  }

  /** The link substitution turns `[t](url)` into `t`. */
  lemma LinkRemoved(t: string, url: string)
    requires t != [] && ']' !in t && url != [] && ')' !in url
    ensures ReplaceAll("[" + t + "](" + url + ")", Links) == t
  {
    var s := "[" + t + "](" + url + ")";
    LinkMatch(t, url);
    ReplaceAllWhole(s, Links, t);
  }

  lemma LinkMatch(t: string, url: string)
    requires t != [] && ']' !in t && url != [] && ')' !in url
    ensures MatchIs(Links, "[" + t + "](" + url + ")", |"[" + t + "](" + url + ")"|, t)
  {
    LinkWhole(t, url);
  }

  /** An image keeps its '!' and its alternative text: the link
      substitution runs before the image substitution and removes the
      bracketed part, so the image substitution no longer finds a match. */
  lemma ImageShadowed(t: string, url: string)
    requires PlainWords(t) && ']' !in t
    requires Plain(url) && url != [] && ')' !in url
    ensures MarkdownToPlainText("![" + t + "](" + url + ")") == "!" + t
  {
    var s := "![" + t + "](" + url + ")";
    var r := "!" + t;
    ImageUnused(t, url);
    UnusedBefore(s, 5);
    ImageLinkRemoved(t, url);
    CascadeAt(s, 5);
    BangKeptAfterLinks(t);
    BangLine(t);
  }

  lemma ImageUnused(t: string, url: string)
    requires Plain(t) && Plain(url)
    ensures UnusedBelow("![" + t + "](" + url + ")", 5)
  {
    WrappedUnused("![", t, "](", 5);
    WrappedUnused("![" + t + "](", url, ")", 5);
  }

  /** The link substitution removes the bracketed part after the '!'. */
  lemma ImageLinkRemoved(t: string, url: string)
    requires t != [] && ']' !in t && url != [] && ')' !in url
    ensures ReplaceAll("![" + t + "](" + url + ")", Links) == "!" + t
  {
    var link := "[" + t + "](" + url + ")";
    assert "![" + t + "](" + url + ")" == "!" + link;
    ReplaceAllPrefix("!", link, Links);
    LinkRemoved(t, url);
  }

  /** After the link substitution, '!' followed by plain words passes
      every remaining substitution. */
  lemma BangKeptAfterLinks(t: string)
    requires PlainWords(t)
    ensures ReplaceEach("!" + t, Cascade[6..]) == "!" + t
  {
    var r := "!" + t;
    var rest := Cascade[7..];
    assert Cascade[6..] == [Images] + rest;
    BangKeptByImages(t);
    forall i, k | 0 <= i < |r| && 0 <= k < |rest|
      ensures !IsLead(rest[k], r[i])
    {
      assert rest[k] == Cascade[7 + k];
      if i > 0 {
        PlainNoLead(t[i - 1], rest[k]);
      }
    }
    InertUnchanged(r, rest);
  }

  /** The image substitution finds no '[' after the '!'. */
  lemma BangKeptByImages(t: string)
    requires PlainWords(t)
    ensures ReplaceAll("!" + t, Images) == "!" + t
  {
    var r := "!" + t;
    assert r[1..] == t;
    assert MatchAt(Images, r) == None;
    forall i | 0 <= i < |t|
      ensures !IsLead(Images, t[i])
    {
      PlainNoLead(t[i], Images);
    }
    NoLeadUnchanged(t, Images);
  }

  /** '!' followed by plain words has no line feed and no white space at
      either end. */
  lemma BangLine(t: string)
    requires PlainWords(t)
    ensures NewlinesToSpaces("!" + t) == "!" + t
    ensures Trim("!" + t) == "!" + t
  {
    var r := "!" + t;
    assert '\n' !in r by {
      assert forall i :: 0 <= i < |t| ==> IsPlain(t[i]);
    }
    assert NewlinesToSpaces(r) == r;
    assert r[|r| - 1] == t[|t| - 1];
    TrimTrimmed(r);
  }

  /** A fenced block around one line of plain words is not removed: the
      inline-code substitution runs first and takes the third opening and
      the first closing backtick as the delimiters of a code span, so the
      fence substitution no longer finds three backticks in a row.  What
      is left is the words between two pairs of backticks. */
  lemma FenceShadowed(x: string)
    requires PlainWords(x)
    ensures MarkdownToPlainText("```\n" + x + "\n```") == "`` " + x + " ``"
  {
    var s := "```\n" + x + "\n```";
    FenceUnused(x);
    UnusedBefore(s, 3);
    FenceSpanRemoved(x);
    CascadeAt(s, 3);
    TicksKeptAfterCode(x);
    TicksLine(x);
  }

  lemma FenceUnused(x: string)
    requires Plain(x)
    ensures UnusedBelow("```\n" + x + "\n```", 3)
  {
    WrappedUnused("```\n", x, "\n```", 3);
  }

  /** The inline-code substitution removes the third and fourth backtick
      of the fence. */
  lemma FenceSpanRemoved(x: string)
    requires PlainWords(x)
    ensures ReplaceAll("```\n" + x + "\n```", InlineCode) == "``\n" + x + "\n``"
  {
    var m := "\n" + x + "\n";
    var span := "`" + m + "`" + "``";
    assert '`' !in m by {
      assert forall i :: 0 <= i < |x| ==> IsPlain(x[i]);
    }
    FenceParts(x);
    BacktickBeforeBacktick("`" + span);
    BacktickBeforeBacktick(span);
    CodeSpanAt(m, "``");
    TwoTicksKept();
  }

  /** The fence and what is left of it, cut where the substitution acts. */
  lemma FenceParts(x: string)
    ensures var m := "\n" + x + "\n";
      "```\n" + x + "\n```" == "`" + ("`" + ("`" + m + "`" + "``"))
      && "``\n" + x + "\n``" == "`" + ("`" + (m + "``"))
  {
  }

  /** Two backticks alone start no code span. */
  lemma TwoTicksKept()
    ensures ReplaceAll("``", InlineCode) == "``"
  {
    BacktickBeforeBacktick("`");
    assert ReplaceAll("`", InlineCode) == "`";
  }

  /** A backtick followed by another starts no code span. */
  lemma BacktickBeforeBacktick(u: string)
    requires u != [] && u[0] == '`'
    ensures ReplaceAll("`" + u, InlineCode) == "`" + ReplaceAll(u, InlineCode)
  {
    var v := "`" + u;
    assert v[1..] == u;
    assert RunWithout(v[1..], '`') == 0;
    assert MatchAt(InlineCode, v) == None;
  }

  /** A code span at the start is replaced by its text. */
  lemma CodeSpanAt(m: string, rest: string)
    requires m != [] && '`' !in m
    ensures ReplaceAll("`" + m + "`" + rest, InlineCode) == m + ReplaceAll(rest, InlineCode)
  {
    var v := "`" + m + "`" + rest;
    assert v[1..] == m + ("`" + rest);
    RunWithoutPrefix(m, '`', "`" + rest);
    assert v[1 + |m|..2 + |m|] == "`";
    assert v[1..1 + |m|] == m;
    DelimitedAtFound(v, '`', 1, |m|);
    ReplaceAllAtHit(v, InlineCode, |m| + 2, m);
    assert v[|m| + 2..] == rest;
  }

  /** The two pairs of backticks left by the inline-code substitution
      pass every later substitution. */
  lemma TicksKeptAfterCode(x: string)
    requires PlainWords(x)
    ensures ReplaceEach("``\n" + x + "\n``", Cascade[4..]) == "``\n" + x + "\n``"
  {
    var r := "``\n" + x + "\n``";
    assert Cascade[4..] == [CodeBlocks] + Cascade[5..];
    TicksKeptByFences(x);
    TicksInert(x);
    InertUnchanged(r, Cascade[5..]);
  }

  lemma TicksInert(x: string)
    requires PlainWords(x)
    ensures Inert("``\n" + x + "\n``", Cascade[5..])
  {
    var r := "``\n" + x + "\n``";
    var rest := Cascade[5..];
    TicksChars(x);
    forall i, k | 0 <= i < |r| && 0 <= k < |rest|
      ensures !IsLead(rest[k], r[i])
    {
      assert rest[k] == Cascade[5 + k];
      LateNoLead(r[i], 5 + k);
    }
  }

  lemma TicksChars(x: string)
    requires PlainWords(x)
    ensures var r := "``\n" + x + "\n``";
      forall i :: 0 <= i < |r| ==> r[i] == '`' || r[i] == '\n' || IsPlain(r[i])
  {
    var r := "``\n" + x + "\n``";
    forall i | 0 <= i < |r|
      ensures r[i] == '`' || r[i] == '\n' || IsPlain(r[i])
    {
      if 3 <= i < 3 + |x| {
        assert r[i] == x[i - 3];
      }
    }
  }

  /** Backticks, line feeds and plain characters start no match of the
      substitutions after the fence substitution. */
  lemma LateNoLead(c: char, k: nat)
    requires c == '`' || c == '\n' || IsPlain(c)
    requires 5 <= k < |Cascade|
    ensures !IsLead(Cascade[k], c)
  {
  }

  /** No three backticks in a row: the fence substitution finds nothing. */
  lemma TicksKeptByFences(x: string)
    requires PlainWords(x)
    ensures ReplaceAll("``\n" + x + "\n``", CodeBlocks) == "``\n" + x + "\n``"
  {
    var m := "\n" + x + "\n";
    var r := "``\n" + x + "\n``";
    assert r == "`" + ("`" + (m + "``"));
    assert r[..3] != "```" by {
      assert r[2] == '\n';
    }
    assert MatchAt(CodeBlocks, r) == None;
    var u := "`" + (m + "``");
    assert u[..3] != "```" by {
      assert u[1] == '\n';
    }
    assert MatchAt(CodeBlocks, u) == None;
    assert r[1..] == u && u[1..] == m + "``";
    forall i | 0 <= i < |m|
      ensures !IsLead(CodeBlocks, m[i])
    {
      if 1 <= i <= |x| {
        assert m[i] == x[i - 1];
        PlainNoLead(x[i - 1], CodeBlocks);
      }
    }
    ReplaceAllPrefix(m, "``", CodeBlocks);
    assert ReplaceAll("``", CodeBlocks) == "``" by {
      assert MatchAt(CodeBlocks, "``") == None;
      assert "``"[1..] == "`";
      assert MatchAt(CodeBlocks, "`") == None;
    }
  }

  /** The line feeds become spaces, and the backticks at either end stay. */
  lemma TicksLine(x: string)
    requires PlainWords(x)
    ensures NewlinesToSpaces("``\n" + x + "\n``") == "`` " + x + " ``"
    ensures Trim("`` " + x + " ``") == "`` " + x + " ``"
  {
    var r := "``\n" + x + "\n``";
    var q := "`` " + x + " ``";
    var n := NewlinesToSpaces(r);
    assert |n| == |q|;
    forall i | 0 <= i < |q|
      ensures n[i] == q[i]
    {
      if 3 <= i < 3 + |x| {
        assert r[i] == x[i - 3] && IsPlain(x[i - 3]);
      }
    }
    TrimTrimmed(q);
  }

  /** A quoted line loses its '>' marker. */
  lemma QuoteLine(t: string)
    requires PlainWords(t)
    ensures MarkdownToPlainText("> " + t) == t
  {
    QuoteRemoved(t);
    QuoteUnused(t);
    OnlyStep("> " + t, 7, Blockquotes, t);
  }

  lemma QuoteRemoved(t: string)
    requires PlainWords(t)
    ensures ReplaceAll("> " + t, Blockquotes) == t
  {
    MarkerRemoved(Blockquotes, '>', t);
    assert "> " + t == ['>'] + " " + t;
  }

  lemma QuoteUnused(t: string)
    requires PlainWords(t)
    ensures UnusedBelow("> " + t, 7)
  {
    WrappedUnused("> ", t, [], 7);
    assert "> " + t + [] == "> " + t;
  }

  /** A bullet line marked with '-' or '+' loses its marker.  (A '*' bullet
      meets the emphasis substitutions first.) */
  lemma BulletLine(m: char, t: string)
    requires (m == '-' || m == '+') && PlainWords(t)
    ensures MarkdownToPlainText([m] + " " + t) == t
  {
    BulletRemoved(m, t);
    BulletUnused(m, t);
    OnlyStep([m] + " " + t, 8, ListMarkers, t);
  }

  lemma BulletRemoved(m: char, t: string)
    requires (m == '-' || m == '+') && PlainWords(t)
    ensures ReplaceAll([m] + " " + t, ListMarkers) == t
  {
    MarkerRemoved(ListMarkers, m, t);
  }

  lemma BulletUnused(m: char, t: string)
    requires (m == '-' || m == '+') && PlainWords(t)
    ensures UnusedBelow([m] + " " + t, 8)
  {
    WrappedUnused([m] + " ", t, [], 8);
    assert [m] + " " + t + [] == [m] + " " + t;
  }

  /** A numbered line loses its number, full stop and space. */
  lemma NumberedLine(d: string, t: string)
    requires d != [] && (forall i :: 0 <= i < |d| ==> IsDigit(d[i])) && PlainWords(t)
    ensures MarkdownToPlainText(d + ". " + t) == t
  {
    NumberedRemoved(d, t);
    NumberedUnused(d, t);
    OnlyStep(d + ". " + t, 9, NumberedMarkers, t);
  }

  lemma NumberedRemoved(d: string, t: string)
    requires d != [] && (forall i :: 0 <= i < |d| ==> IsDigit(d[i])) && PlainWords(t)
    ensures ReplaceAll(d + ". " + t, NumberedMarkers) == t
  {
    NumberRemoved(d, t);
  }

  lemma NumberedUnused(d: string, t: string)
    requires (forall i :: 0 <= i < |d| ==> IsDigit(d[i])) && PlainWords(t)
    ensures UnusedBelow(d + ". " + t, 9)
  {
    NumberUnused(d);
    WrappedUnused(d + ". ", t, [], 9);
    assert d + ". " + t + [] == d + ". " + t;
  }
}
