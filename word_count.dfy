/** `getWordCount` of src/utils/wordCount.ts: blank text counts zero;
    otherwise the markers are stripped (the same cascade as
    `markdownToPlainText`, which this model defines once), line feeds become
    spaces, the result is trimmed, split at runs of white space, and the
    non-empty pieces are counted. */
module WordCount {
  import opened JsString
  import opened MarkdownSyntax
  import opened Markdown

  /** `String.prototype.split(/\s+/)`: the pieces between maximal runs of
      white space.  A leading or trailing run yields an empty first or last
      piece, and the empty string splits into one empty piece. */
  function Split(s: string): (pieces: seq<string>)
    ensures |pieces| >= 1
    decreases |s|
  {
    var k := WordRun(s);
    if k == |s| then [s]
    else
      var m := SpaceRun(s[k..]);
      assert m >= 1;
      [s[..k]] + Split(s[k + m..])
  }

  /** No piece holds white space, and only the first and the last piece
      can be empty. */
  lemma {:induction false} SplitPieces(s: string)
    ensures forall i, j :: 0 <= i < |Split(s)| && 0 <= j < |Split(s)[i]| ==> !IsSpace(Split(s)[i][j])
    ensures forall i :: 0 < i < |Split(s)| - 1 ==> Split(s)[i] != []
    decreases |s|
  {
    var k := WordRun(s);
    if k < |s| {
      var rest := s[k + SpaceRun(s[k..])..];
      SplitPieces(rest);
      var p, q := Split(rest), Split(s);
      assert q[0] == s[..k];
      assert q[1..] == p;
      forall i | 0 < i < |q| - 1 ensures q[i] != [] {
        assert q[i] == p[i - 1];
      }
    }
  }

  /** `filter(word => word.length > 0)`: every non-empty piece is kept,
      and only the empty pieces are dropped. */
  function NonEmpty(pieces: seq<string>): (words: seq<string>)
    ensures |words| <= |pieces|
    ensures forall i :: 0 <= i < |words| ==> words[i] != [] && words[i] in pieces
    ensures forall p :: p in pieces && p != [] ==> p in words
    ensures |words| + multiset(pieces)[[]] == |pieces|
  {
    if pieces == [] then []
    else
      assert pieces == [pieces[0]] + pieces[1..];
      if pieces[0] == [] then NonEmpty(pieces[1..])
    else [pieces[0]] + NonEmpty(pieces[1..])
  }

  /** The independent count: the positions where a character other than
      white space follows white space or the start of the text
      (`afterSpace` says whether the position before `s` counts as such). */
  function WordStarts(s: string, afterSpace: bool): (n: nat)
    ensures n <= |s|
  {
    if s == [] then 0
    else (if afterSpace && !IsSpace(s[0]) then 1 else 0) + WordStarts(s[1..], IsSpace(s[0]))
  }

  /** The number of words in a markdown text.  Blank text (empty or white
      space only) counts zero; otherwise the count is the number of words of
      the text's plain-text form, and never more than the text's length. */
  function GetWordCount(text: string): (count: nat)
    ensures AllSpace(text) ==> count == 0
    ensures !AllSpace(text) ==> count == WordStarts(MarkdownToPlainText(text), true)
    ensures count <= |text|
  {
    if Trim(text) == [] then 0
    else
      var cleanText := MarkdownToPlainText(text);
      SplitCount(cleanText);
      |NonEmpty(Split(cleanText))|
  }

  /** Splitting at white-space runs and dropping the empty pieces leaves
      exactly one piece per word start. */
  lemma {:induction false} SplitCount(s: string)
    ensures |NonEmpty(Split(s))| == WordStarts(s, true)
    decreases |s|
  {
    var k := WordRun(s);
    if k == |s| {
      if s != [] {
        WordStartsWord(s, [], true);
        assert s + [] == s;
      }
    } else {
      var m := SpaceRun(s[k..]);
      SplitCountStep(s);
      StartsStep(s, k, m);
      SplitCount(s[k + m..]);
    }
  }

  /** Where `s` holds white space, its leading word (if any) is one
      non-empty piece and the rest come from what follows the first
      white-space run. */
  lemma SplitCountStep(s: string)
    requires WordRun(s) < |s|
    ensures |NonEmpty(Split(s))|
         == (if WordRun(s) > 0 then 1 else 0) + |NonEmpty(Split(s[WordRun(s) + SpaceRun(s[WordRun(s)..])..]))|
  {
    var k := WordRun(s);
    var q := Split(s);
    assert q[0] == s[..k];
    assert q[1..] == Split(s[k + SpaceRun(s[k..])..]);
  }

  /** The word starts of `s` are those of its leading word and those after
      its first white-space run. */
  lemma StartsStep(s: string, k: nat, m: nat)
    requires k == WordRun(s) < |s| && m == SpaceRun(s[k..])
    ensures k + m <= |s|
    ensures WordStarts(s, true) == (if k > 0 then 1 else 0) + WordStarts(s[k + m..], true)
  {
    SkipSpaceRun(s[k..], m, k == 0);
    assert s[k..][m..] == s[k + m..];
    if k > 0 {
      SkipWordRun(s, k);
    }
  }

  lemma SkipSpaceRun(x: string, m: nat, afterSpace: bool)
    requires 1 <= m <= |x| && AllSpace(x[..m])
    ensures WordStarts(x, afterSpace) == WordStarts(x[m..], true)
  {
    assert x == x[..m] + x[m..];
    WordStartsSpaces(x[..m], x[m..], afterSpace);
  }

  lemma SkipWordRun(s: string, k: nat)
    requires 1 <= k <= |s| && forall i :: 0 <= i < k ==> !IsSpace(s[i])
    ensures WordStarts(s, true) == 1 + WordStarts(s[k..], false)
  {
    assert s == s[..k] + s[k..];
    WordStartsWord(s[..k], s[k..], true);
  }

  /** A word contributes one start when it follows white space. */
  lemma {:induction false} WordStartsWord(w: string, x: string, afterSpace: bool)
    requires w != [] && forall i :: 0 <= i < |w| ==> !IsSpace(w[i])
    ensures WordStarts(w + x, afterSpace) == (if afterSpace then 1 else 0) + WordStarts(x, false)
  {
    assert (w + x)[1..] == w[1..] + x;
    if |w| > 1 {
      WordStartsWord(w[1..], x, false);
    } else {
      assert w[1..] + x == x;
    }
  }

  /** A run of white space contributes no start and makes the next
      character follow white space. */
  lemma {:induction false} WordStartsSpaces(sp: string, x: string, afterSpace: bool)
    requires sp != [] && AllSpace(sp)
    ensures WordStarts(sp + x, afterSpace) == WordStarts(x, true)
  {
    assert (sp + x)[1..] == sp[1..] + x;
    if |sp| > 1 {
      WordStartsSpaces(sp[1..], x, true);
    } else {
      assert sp[1..] + x == x;
    }
  }

  /** A single word: plain text with no white space at all. */
  predicate Word(w: string) {
    w != [] && Plain(w) && forall i :: 0 <= i < |w| ==> !IsSpace(w[i])
  }

  lemma OneWordStart(w: string)
    requires Word(w)
    ensures WordStarts(w, true) == 1
  {
    WordStartsWord(w, [], true);
    assert w + [] == w;
  }

  /** A text that does not start with white space and whose plain-text
      form is one word counts one. */
  lemma CountOne(text: string, w: string)
    requires text != [] && !IsSpace(text[0]) && MarkdownToPlainText(text) == w && Word(w)
    ensures GetWordCount(text) == 1
  {
    OneWordStart(w);
  }

  /** A header line of one to six '#' holding one word counts one. */
  lemma HeaderCountsOne(n: nat, w: string)
    requires 1 <= n <= 6 && Word(w)
    ensures GetWordCount(Repeat('#', n) + " " + w) == 1
  {
    var text := Repeat('#', n) + " " + w;
    assert text != [] && !IsSpace(text[0]) by {
      assert text[0] == '#';
    }
    HeaderLine(n, w);
    CountOne(text, w);
  }

  /** A quoted line holding one word counts one. */
  lemma QuoteCountsOne(w: string)
    requires Word(w)
    ensures GetWordCount("> " + w) == 1
  {
    var text := "> " + w;
    assert text != [] && !IsSpace(text[0]) by {
      assert text[0] == '>';
    }
    QuoteLine(w);
    CountOne(text, w);
  }

  /** A bullet line holding one word counts one. */
  lemma BulletCountsOne(m: char, w: string)
    requires (m == '-' || m == '+') && Word(w)
    ensures GetWordCount([m] + " " + w) == 1
  {
    var text := [m] + " " + w;
    assert text != [] && !IsSpace(text[0]) by {
      assert text[0] == m;
    }
    BulletLine(m, w);
    CountOne(text, w);
  }

  /** A numbered line holding one word counts one. */
  lemma NumberedCountsOne(d: string, w: string)
    requires d != [] && (forall i :: 0 <= i < |d| ==> IsDigit(d[i])) && Word(w)
    ensures GetWordCount(d + ". " + w) == 1
  {
    var text := d + ". " + w;
    assert text != [] && !IsSpace(text[0]) by {
      assert text[0] == d[0];
    }
    NumberedLine(d, w);
    CountOne(text, w);
  }

  /** Two words with a space between: plain words that start twice. */
  lemma TwoWords(a: string, b: string)
    requires Word(a) && Word(b)
    ensures PlainWords(a + " " + b) && WordStarts(a + " " + b, true) == 2
  {
    var t := a + " " + b;
    assert t[0] == a[0] && t[|t| - 1] == b[|b| - 1];
    forall i | 0 <= i < |t| ensures IsPlain(t[i]) {
      if i < |a| {
        assert t[i] == a[i];
      } else if i > |a| {
        assert t[i] == b[i - |a| - 1];
      }
    }
    assert t == a + (" " + b);
    WordStartsWord(a, " " + b, true);
    WordStartsSpaces(" ", b, false);
    OneWordStart(b);
  }

  /** A link whose text is two words counts two: its target is dropped. */
  lemma LinkCountsTwo(a: string, b: string, url: string)
    requires Word(a) && Word(b) && ']' !in a + " " + b
    requires Plain(url) && url != [] && ')' !in url
    ensures GetWordCount("[" + (a + " " + b) + "](" + url + ")") == 2
  {
    var text := "[" + (a + " " + b) + "](" + url + ")";
    assert text != [] && !IsSpace(text[0]) by {
      assert text[0] == '[';
    }
    TwoWords(a, b);
    LinkText(a + " " + b, url);
  }
}
