# marktext-web text transforms in Dafny

This project models the text-processing core of the marktext-web browser markdown editor. It covers five pieces:

- **Word count** (`getWordCount`, `src/utils/wordCount.ts`). A cascade of ten global regular-expression replacements strips markdown markers. Line feeds become spaces, the result is trimmed, and the count is the number of non-empty pieces of `split(/\s+/)`. Blank text counts zero.
- **Plain text** (`markdownToPlainText`, `src/utils/markdown.ts`). The same cascade followed by `trim()`.
- **HTML to markdown** (`htmlToMarkdown`, `src/components/WysiwygEditor.tsx`). The WYSIWYG editor converts its rendered HTML back to markdown on blur and paste. There are twenty element replacements in a fixed order; `<ol>` and `<blockquote>` use callbacks. Then remaining tags are stripped, runs of blank lines are collapsed, and the result is trimmed.
- **The WYSIWYG editor's other handlers**: the container class of each editing mode, the source-mode Tab key, and the blur/paste handler.
- **The plain editor** (`src/components/Editor.tsx`): its change handler and its Tab key. Tab replaces the selection with two spaces and puts the caret after them.

Modules:

- `JsString`: JavaScript string operations.
  - the white-space and line-terminator classes of regular expressions;
  - ASCII case folding under `/i`;
  - `trim()`;
  - greedy runs.
- `MarkdownSyntax`: the cleanup cascade.
  - one matcher per pattern;
  - the global replace as a scan over suffixes;
  - facts about which characters can begin a match.
- `Markdown`: `markdownToPlainText` and what it does to single markdown lines.
- `WordCount`: the split, the filter, the count, and an independent count of word starts.
- `HtmlPatterns`: the element patterns `<name[^>]*>(.*?)</name>`, the void patterns `<name[^>]*>` and `<[^>]+>`.
  - the global replace;
  - the line-prefixing replace of the blockquote callback;
  - the inner list-item replace of the ordered-list callback;
  - the collapse of blank lines;
  - the final trim.
- `WysiwygEditor`: the rule list and `htmlToMarkdown`.
  - the ordered-list callback as a loop;
  - edit modes, `getContainerClass`, `handleKeyDown` and `handleWysiwygInput`.
- `ConversionFacts`: what the conversion does to one element.
- `ConversionQuirks`: the conversion's order- and prefix-dependent behaviour, as the code is written.
  - `<b[^>]*>` also opens on `<br>` and `<blockquote>`;
  - `<p[^>]*>` opens on `<pre>`;
  - `<code>` is rewritten before `<pre><code>` is seen;
  - list items are rewritten before `<ol>` is seen;
  - the ordered-list callback emits a literal `$1`.
- `Editor`: `substring` with its clamping, the Tab edit, and `handleChange`.

The order-dependent behaviour of the cleanup cascade is kept as written:

- inline code runs before fenced code, so a fence loses only one pair of backticks;
- links run before images, so an image keeps its `!`.

The lemmas `Markdown.FenceShadowed` and `Markdown.ImageShadowed` state these outcomes.

A component's output is returned as a value. This covers the call to `onChange`, the cancelled default action, and the caret position that `setTimeout` applies.

## Model

| member | source | states |
|---|---|---|
| WordCount.GetWordCount | src/utils/wordCount.ts:1-20 | blank text counts 0; otherwise the count is the number of word starts in the plain-text form of the text; the count never exceeds the text's length |
| WordCount.Split | src/utils/wordCount.ts:19 | splitting on white-space runs always yields at least one piece |
| WordCount.SplitPieces | src/utils/wordCount.ts:19 | no piece holds white space, and every piece but the first and last is non-empty |
| WordCount.NonEmpty | src/utils/wordCount.ts:19 | the filter keeps every non-empty piece and only those: the result has only non-empty pieces taken from the input, every non-empty piece of the input appears in it, and it is shorter than the input by exactly the number of empty pieces |
| WordCount.WordStarts | src/utils/wordCount.ts:19 | the independent count of words never exceeds the text's length |
| WordCount.SplitCount | src/utils/wordCount.ts:19 | the number of non-empty pieces of the split equals the number of word starts |
| WordCount.CountOne | src/utils/wordCount.ts:5-19 | a text that does not start with white space and whose plain-text form is one word counts 1 |
| WordCount.HeaderCountsOne | src/utils/wordCount.ts:6 | `# Hello` (one to six '#') counts 1: the header marker is not a word |
| WordCount.QuoteCountsOne | src/utils/wordCount.ts:13 | `> Hello` counts 1 |
| WordCount.BulletCountsOne | src/utils/wordCount.ts:14 | `- Hello` and `+ Hello` count 1 |
| WordCount.NumberedCountsOne | src/utils/wordCount.ts:15 | `1. Hello` (any digits) counts 1 |
| WordCount.TwoWords | src/utils/wordCount.ts:19 | two words with a space between have two word starts |
| WordCount.LinkCountsTwo | src/utils/wordCount.ts:11 | a link whose text is two words counts 2: only its text is counted |
| Markdown.MarkdownToPlainText | src/utils/markdown.ts:91-105 | the plain text holds no line feed, has no white space at either end and is never longer than the markdown |
| Markdown.OnlyStep | src/utils/markdown.ts:92-104 | when no earlier substitution can match and one substitution leaves plain words, those words are the plain text |
| Markdown.HeaderLine | src/utils/markdown.ts:93 | `## Title` (one to six '#') becomes `Title` |
| Markdown.BoldText | src/utils/markdown.ts:94 | `**t**` becomes `t` |
| Markdown.ItalicText | src/utils/markdown.ts:95 | `*t*` becomes `t`; the bold substitution before it finds nothing |
| Markdown.CodeText | src/utils/markdown.ts:96 | `` `t` `` becomes `t` |
| Markdown.FenceShadowed | src/utils/markdown.ts:96-97 | a fenced block (three backticks, a line feed, x, a line feed, three backticks) becomes two backticks, a space, x, a space and two backticks: inline code runs first and consumes the inner backticks, so the fence pattern never matches |
| Markdown.LinkText | src/utils/markdown.ts:98 | `[t](url)` becomes `t` |
| Markdown.ImageShadowed | src/utils/markdown.ts:98-99 | `![t](url)` becomes `!t`: the link substitution runs first and leaves the `!` for the image pattern to miss |
| Markdown.QuoteLine | src/utils/markdown.ts:100 | `> t` becomes `t` |
| Markdown.BulletLine | src/utils/markdown.ts:101 | `- t` and `+ t` become `t` |
| Markdown.NumberedLine | src/utils/markdown.ts:102 | `12. t` becomes `t` |
| MarkdownSyntax.StripMarkers | src/utils/markdown.ts:92-103 | the cascade with line feeds turned to spaces is never longer than its input and holds no line feed |
| MarkdownSyntax.ReplaceEach | src/utils/markdown.ts:92-102 | running substitutions one after another never lengthens the text |
| MarkdownSyntax.ReplaceAll | src/utils/markdown.ts:93-102 | a global replace never lengthens the text, and shortens it when a match begins it |
| MarkdownSyntax.Replacement | src/utils/markdown.ts:93-102 | a bold, italic, inline-code or link match becomes its capture; every other match becomes nothing; `MarkdownSyntax.MatchAt` states that the replacement is shorter than the match |
| MarkdownSyntax.MatchAt | src/utils/markdown.ts:93-102 | every match begins with a character the pattern can begin with, and its replacement is shorter than the match |
| MarkdownSyntax.HeaderAt | src/utils/markdown.ts:93 | a header match starts with '#', is at least two characters long and lies within the text |
| MarkdownSyntax.DelimitedAt | src/utils/markdown.ts:94-96 | a bold, italic or inline-code match is its capture plus the delimiters on both sides, and starts with the delimiter |
| MarkdownSyntax.FenceAt | src/utils/markdown.ts:97 | a fence match starts with a backtick, is at least six characters long and lies within the text |
| MarkdownSyntax.Find | src/utils/markdown.ts:97 | the lazy search for the closing fence finds the nearest occurrence, or reports that there is none |
| MarkdownSyntax.BracketedAt | src/utils/markdown.ts:98-99 | a link or image match starts with '[' and is longer than its text plus the brackets and parentheses |
| MarkdownSyntax.MarkerAt | src/utils/markdown.ts:100-101 | a quote or list-marker match starts with one of its markers, is at least two characters long and lies within the text |
| MarkdownSyntax.NumberedAt | src/utils/markdown.ts:102 | a numbered-marker match starts with a digit, is at least three characters long and lies within the text |
| MarkdownSyntax.NewlinesToSpaces | src/utils/markdown.ts:103 | each line feed becomes a space, every other character stays in place, and the length is kept |
| MarkdownSyntax.PlainStripped | src/utils/markdown.ts:92-103 | text without marker characters or line feeds passes through the cascade unchanged |
| MarkdownSyntax.InertUnchanged | src/utils/markdown.ts:92-102 | substitutions that cannot begin a match anywhere leave the text unchanged |
| MarkdownSyntax.CascadeAt | src/utils/markdown.ts:92-102 | the cascade is the substitutions before the k-th, then the k-th, then the rest, in that order |
| MarkdownSyntax.HeaderMarkerRemoved | src/utils/markdown.ts:93 | a marker of one to six '#' and a space in front of text free of '#' is removed, and nothing else is |
| MarkdownSyntax.DelimitedRemoved | src/utils/markdown.ts:94-96 | bold, italic and inline-code delimiters around text free of the delimiter are removed |
| MarkdownSyntax.LinkWhole | src/utils/markdown.ts:98 | `[t](url)` is matched whole, with `t` as its capture |
| MarkdownSyntax.MarkerRemoved | src/utils/markdown.ts:100-101 | a quote or list marker and a space are removed from text the substitution does not react to |
| MarkdownSyntax.NumberRemoved | src/utils/markdown.ts:102 | a list number, full stop and space are removed from text free of digits |
| JsString.Trim | src/utils/markdown.ts:104 | trim removes exactly the white space at both ends: the result is a slice of the input with no white space at either end, empty exactly when the input is blank |
| JsString.TrimIdempotent | src/utils/markdown.ts:104 | trimming twice is trimming once |
| JsString.TrimTrimmed | src/utils/markdown.ts:104 | text without white space at either end is unchanged by trim |
| JsString.TrimAround | src/utils/wordCount.ts:17 | white space around a trimmed piece is exactly what trim removes |
| JsString.SpaceRun | src/utils/markdown.ts:93 | the greedy white-space run is all white space and stops before a non-space |
| JsString.WordRun | src/utils/wordCount.ts:19 | the run up to the next white space holds no white space and stops at white space |
| JsString.DigitRun | src/utils/markdown.ts:102 | the greedy digit run is all digits and stops before a non-digit |
| JsString.Lower | src/components/WysiwygEditor.tsx:8 | case folding under `/i` maps each upper-case ASCII letter to its own lower-case letter (32 code points on) and leaves every other character alone |
| JsString.IsLineTerminator | src/components/WysiwygEditor.tsx:8-36 | the characters `.` refuses to match (line feed, carriage return, line and paragraph separators), each of which is also white space |
| JsString.IsSpace | src/utils/markdown.ts:93 | the characters of `\s` and `trim()`: ECMAScript's white space and line terminators; no contract of its own, `JsString.Trim` and `JsString.SpaceRun` state what is built on it |
| HtmlPatterns.OpenTagAt | src/components/WysiwygEditor.tsx:8-36 | an opening-tag match `<name[^>]*>` starts with '<', ends with '>' and is longer than the name |
| HtmlPatterns.LazyClose | src/components/WysiwygEditor.tsx:8-36 | the lazy capture `(.*?)` ends within the text, before the closing tag, and holds no line terminator |
| HtmlPatterns.LazyCloseNearest | src/components/WysiwygEditor.tsx:8-36 | when the lazy capture ends, the closing tag starts exactly there and at no earlier position; when there is none, no position reachable without crossing a line terminator starts the closing tag |
| HtmlPatterns.OpenTagFirst | src/components/WysiwygEditor.tsx:8-36 | `<name[^>]*>` matches exactly when the text starts with `<name` (any case) and a '>' follows, and the match ends at the first such '>' |
| HtmlPatterns.PatternAt | src/components/WysiwygEditor.tsx:8-41 | every element, void or tag match starts with '<', and its capture holds no line terminator |
| HtmlPatterns.EnclosedMatch | src/components/WysiwygEditor.tsx:8-36 | `<name>t</name>` is matched whole, with `t` captured |
| HtmlPatterns.ReplaceRule | src/components/WysiwygEditor.tsx:8-39 | the global replace of one rule: scanning from the left, each match is replaced and the scan resumes after it, other characters are kept; no contract of its own, `HtmlPatterns.NoTagTextKept`, `HtmlPatterns.ClosingKept` and `HtmlPatterns.EnclosedMatch` state its outcomes |
| HtmlPatterns.Replacement | src/components/WysiwygEditor.tsx:8-33 | the text a match becomes: the fixed text around the capture, the ordered-list callback's numbering plus a line feed, or the blockquote callback's prefixed lines plus a blank line; `ConversionQuirks.QuoteReplaced` and `ConversionQuirks.TwoItemsNumbered` state the callbacks' outcomes |
| HtmlPatterns.NoTagTextKept | src/components/WysiwygEditor.tsx:8-41 | text free of '<' passes every replacement unchanged |
| HtmlPatterns.ClosingKept | src/components/WysiwygEditor.tsx:8-36 | a closing tag passes every replacement that opens with a tag name |
| HtmlPatterns.NatToString | src/components/WysiwygEditor.tsx:28 | the counter's numeral is non-empty and made of digits |
| HtmlPatterns.NatToStringValue | src/components/WysiwygEditor.tsx:28 | the counter's numeral reads back as the counter's value and has no leading zero |
| HtmlPatterns.NumberItems | src/components/WysiwygEditor.tsx:28 | the inner list-item replace with the running counter; no contract of its own, `ConversionQuirks.ItemNumbered` states one step and `WysiwygEditor.NumberListItems` ties the counter loop to it |
| HtmlPatterns.AfterTerminators | src/components/WysiwygEditor.tsx:32 | inserting "> " after every line terminator never shortens the text; `HtmlPatterns.SingleLinePrefixed` and `HtmlPatterns.TwoLinesPrefixed` state where the prefixes land |
| HtmlPatterns.PrefixLines | src/components/WysiwygEditor.tsx:32 | the line-prefixing replace always begins with "> " |
| HtmlPatterns.SingleLinePrefixed | src/components/WysiwygEditor.tsx:32 | a single line only gains the leading "> " |
| HtmlPatterns.TwoLinesPrefixed | src/components/WysiwygEditor.tsx:32 | the line after a line feed gets "> " as well |
| HtmlPatterns.StrippedTagFree | src/components/WysiwygEditor.tsx:41 | after tag stripping no `<` + non-`>` characters + `>` remains |
| HtmlPatterns.NoTagAtMeansNoMatch | src/components/WysiwygEditor.tsx:41 | the tag-free predicate holds at a position exactly when `<[^>]+>` has no match there |
| HtmlPatterns.BreaksAt | src/components/WysiwygEditor.tsx:43 | a blank-line match lies within the text and is non-empty |
| HtmlPatterns.CollapseBreaks | src/components/WysiwygEditor.tsx:43 | the blank-line collapse as a global replace; no contract of its own, `HtmlPatterns.CollapsedNoTriple` and `HtmlPatterns.TripleBreakCollapses` state its outcome |
| HtmlPatterns.CollapsedNoTriple | src/components/WysiwygEditor.tsx:43 | after collapsing, no white-space stretch holds three line feeds |
| HtmlPatterns.TripleBreakCollapses | src/components/WysiwygEditor.tsx:43 | three line feeds between two lines collapse to exactly two |
| HtmlPatterns.EdgeSpace | src/components/WysiwygEditor.tsx:44 | the two-alternative global replace of white space at either end; no contract of its own, `HtmlPatterns.EdgeSpaceIsTrim` states that it is trim |
| HtmlPatterns.EdgeSpaceIsTrim | src/components/WysiwygEditor.tsx:44 | removing white space at the start and at the end with one global replace is the same as trim |
| HtmlPatterns.TrimmedTagFree | src/components/WysiwygEditor.tsx:44 | trimming keeps text tag-free |
| HtmlPatterns.TrimmedNoTriple | src/components/WysiwygEditor.tsx:44 | trimming cannot gather three line feeds into one stretch |
| WysiwygEditor.HeadingRule | src/components/WysiwygEditor.tsx:8-13 | the rule for `<hN>`, prefixing N '#' and a space and adding a blank line; no contract of its own, `ConversionFacts.HeadingConverted` states its outcome |
| WysiwygEditor.ApplyFrom | src/components/WysiwygEditor.tsx:6-39 | the replacements from the k-th on, in the code's order; no contract of its own, `ConversionFacts.SkipRules` states that replacements leaving the text unchanged can be passed over and `ConversionFacts.PlainRules` that text without '<' passes them all |
| WysiwygEditor.Tidy | src/components/WysiwygEditor.tsx:41-44 | the clean-up leaves no tag, no white space at either end and no stretch of three line feeds |
| WysiwygEditor.HtmlToMarkdown | src/components/WysiwygEditor.tsx:5-45 | the markdown has no white space at either end, holds no tag and no white-space stretch with three line feeds |
| WysiwygEditor.NumberListItems | src/components/WysiwygEditor.tsx:25-29 | the callback's counter loop returns the numbering the inner list-item replace produces, followed by a line feed |
| WysiwygEditor.ContainerClass | src/components/WysiwygEditor.tsx:172-178 | every class starts with "editor-container", and only the WYSIWYG mode's class is exactly that |
| WysiwygEditor.GetContainerClass | src/components/WysiwygEditor.tsx:172-178 | the appends give the class of the mode: " source", " typewriter" or " focus" added once, nothing for WYSIWYG |
| WysiwygEditor.ContainerClassDistinct | src/components/WysiwygEditor.tsx:172-178 | two modes have the same class exactly when they are the same mode |
| WysiwygEditor.HandleKeyDown | src/components/WysiwygEditor.tsx:137-155 | outside source mode a key changes nothing and keeps the default; in source mode it is the plain editor's Tab edit, with the caret two past the selection start |
| WysiwygEditor.HandleWysiwygInput | src/components/WysiwygEditor.tsx:102-114 | markdown is handed on exactly for blur and paste when the element is mounted, and it is the conversion of the element's HTML |
| ConversionFacts.SkipRules | src/components/WysiwygEditor.tsx:6-39 | a run of consecutive replacements that each leave the text unchanged can be passed over in the chain |
| ConversionFacts.PlainRules | src/components/WysiwygEditor.tsx:6-39 | text without '<' passes every replacement of the chain unchanged |
| ConversionFacts.PlainConverted | src/components/WysiwygEditor.tsx:41-44 | text with no '<' only has its blank lines collapsed and its ends trimmed |
| ConversionFacts.HeadingConverted | src/components/WysiwygEditor.tsx:8-13 | `<hN>t</hN>` becomes N '#', a space and t |
| ConversionFacts.StrongConverted | src/components/WysiwygEditor.tsx:15 | `<strong>t</strong>` becomes `**t**` |
| ConversionFacts.BConverted | src/components/WysiwygEditor.tsx:16 | `<b>t</b>` becomes `**t**` |
| ConversionFacts.EmConverted | src/components/WysiwygEditor.tsx:17 | `<em>t</em>` becomes `*t*` |
| ConversionFacts.IConverted | src/components/WysiwygEditor.tsx:18 | `<i>t</i>` becomes `*t*` |
| ConversionFacts.CodeConverted | src/components/WysiwygEditor.tsx:19 | `<code>t</code>` becomes `` `t` `` |
| ConversionFacts.ParagraphConverted | src/components/WysiwygEditor.tsx:21 | `<p>t</p>` becomes t |
| ConversionFacts.ListItemConverted | src/components/WysiwygEditor.tsx:23 | `<li>t</li>` becomes `- t` |
| ConversionFacts.BreakConverted | src/components/WysiwygEditor.tsx:38 | `a<br>b` becomes a, a line feed, b (the bold pattern opens on `<br>` but finds no `</b>`) |
| ConversionFacts.HrConverted | src/components/WysiwygEditor.tsx:39 | `a<hr>b` becomes a, a rule line `---` and b, trimmed |
| ConversionFacts.RuleConverted | src/components/WysiwygEditor.tsx:39 | `<hr>` alone becomes `---` |
| ConversionFacts.HrCollapse | src/components/WysiwygEditor.tsx:43 | the rule's line feeds are not enough for the blank-line collapse |
| ConversionQuirks.BoldOpens | src/components/WysiwygEditor.tsx:16 | any opening tag whose name starts with `b`, then a line of text and `</b>`, becomes bold text |
| ConversionQuirks.BreakOpensBold | src/components/WysiwygEditor.tsx:16 | `<br>t</b>` becomes `**t**`: the bold pattern takes `<br>` for its opening tag |
| ConversionQuirks.QuoteOpensB | src/components/WysiwygEditor.tsx:16 | the bold pattern opens on `<blockquote>` but finds no `</b>`, so it does not match |
| ConversionQuirks.QuoteConverted | src/components/WysiwygEditor.tsx:31-33 | `<blockquote>t</blockquote>` becomes `> t` |
| ConversionQuirks.QuoteReplaced | src/components/WysiwygEditor.tsx:31-33 | the blockquote callback puts "> " before the captured line and a blank line after it |
| ConversionQuirks.ParagraphOpens | src/components/WysiwygEditor.tsx:21 | any opening tag whose name starts with `p`, then a line of text and `</p>`, becomes that text |
| ConversionQuirks.PreformattedAsParagraph | src/components/WysiwygEditor.tsx:21 | `<pre>t</p>` becomes t: the paragraph pattern opens on `<pre>` |
| ConversionQuirks.CodeShadowsPre | src/components/WysiwygEditor.tsx:19-36 | `<pre><code>t</code></pre>` becomes the fence, a line feed, `` `t` ``, a line feed and the fence: inline code runs first, so the block-of-code replacement never matches and the plain `<pre>` replacement fences the inline code |
| ConversionQuirks.OrderedListBulleted | src/components/WysiwygEditor.tsx:23-29 | `<ol><li>t</li></ol>` becomes the bullet `- t`: list items are rewritten before the ordered-list callback sees them |
| ConversionQuirks.ItemNumbered | src/components/WysiwygEditor.tsx:28 | the inner replace turns a list item into the counter, ". $1" and a line feed, and goes on with the next number |
| ConversionQuirks.TwoItemsNumbered | src/components/WysiwygEditor.tsx:25-29 | the callback turns two list items into `1. $1` and `2. $1` lines: the item text is dropped for a literal `$1` |
| Editor.Substring | src/components/Editor.tsx:28 | within bounds, substring is the slice; it is never longer than the string |
| Editor.Clamp | src/components/Editor.tsx:28 | substring's clamping keeps an in-range index and never exceeds the length |
| Editor.InsertTab | src/components/Editor.tsx:26-33 | the selection is replaced by two spaces; the text before the start and after the end is kept; the length changes by 2 minus the selection's length; the caret lands at start + 2 |
| Editor.TabAtCaretUndone | src/components/Editor.tsx:28 | removing the two spaces typed at a caret gives the content back |
| Editor.TabTwice | src/components/Editor.tsx:20-36 | a second Tab at the new caret gives four spaces in place of the selection, with the caret at start + 4 |
| Editor.HandleKeyDown | src/components/Editor.tsx:20-36 | only Tab cancels the default action; an edit is handed on exactly for Tab with a mounted textarea, and it is the Tab edit |
| Editor.HandleChange | src/components/Editor.tsx:16-18 | the parent receives the textarea's value unchanged |

## Left out

- `parseMarkdown`, `configureMarked` and the default document (`src/utils/markdown.ts`) are left out. They call into the `marked` library, which is not part of this model.
- React state, effects and event-listener registration are left out. This includes `updateContent`, the focus-mode paragraph highlight `handleFocus`, and the `useEffect` wiring. It is DOM plumbing; the handlers' outcomes are returned as values instead.
- `handleSourceInput` (`src/components/WysiwygEditor.tsx:116-118`) is not modelled separately. It forwards the value exactly as `Editor.HandleChange` does.
- The `setTimeout` that moves the caret is modelled only by the caret position it sets.
- `src/App.tsx`, the toolbars, the preview, local storage, file import and export, and the clipboard are not part of this model. They are UI and I/O glue.
- Strings are sequences of Unicode scalar values, not UTF-16 code units. Lengths, selection offsets and `substring` indices differ from the browser's for characters outside the Basic Multilingual Plane.
- The regular expressions are modelled one pattern at a time, by matchers written for the patterns the code uses. There is no general regular-expression engine.
- Case folding under `/i` covers the ASCII letters only. This is exact for the ASCII tag names in these non-unicode patterns.
- Markdown.BulletLine: covers the `-` and `+` bullets only. A `*` bullet also meets the bold and italic substitutions first, and has no lemma of its own. `WordCount.BulletCountsOne` has the same limit.
- HtmlPatterns.TripleBreakCollapses: stated for exactly three line feeds between two lines. Longer stretches, and stretches mixed with other white space, are covered only by the general `HtmlPatterns.CollapsedNoTriple`.
- The conversion examples in `ConversionFacts` and `ConversionQuirks` are stated for one element holding one line of text without tags. Nested or multi-line elements are computed by `WysiwygEditor.HtmlToMarkdown` but have no lemma of their own.
