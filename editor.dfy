/** The plain markdown editor of src/components/Editor.tsx: a textarea whose
    changes are handed to the parent unchanged, and whose Tab key replaces
    the selection with two spaces.  The component's output (the call to
    `onChange`, the caret move scheduled with `setTimeout`, the default
    action it cancels) is returned as a value. */
module Editor {
  import opened JsString

  /** `String.prototype.substring(from, to)`: both bounds are clamped to
      the string, and swapped when the first exceeds the second. */
  function Substring(s: string, from: int, to: int): (r: string)
    ensures 0 <= from <= to <= |s| ==> r == s[from..to]
    ensures |r| <= |s|
  {
    var a := Clamp(from, |s|);
    var b := Clamp(to, |s|);
    if a <= b then s[a..b] else s[b..a]
  }

  function Clamp(i: int, len: nat): (r: nat)
    ensures r <= len
    ensures 0 <= i <= len ==> r == i
  {
    if i < 0 then 0 else if i > len then len else i
  }

  /** The selection of the textarea: `selectionStart` and `selectionEnd`. */
  datatype Selection = Selection(start: nat, end: nat)

  /** What a Tab edit produces: the content handed to `onChange`, and where
      the caret is put afterwards (`setSelectionRange(start + 2, start + 2)`). */
  datatype TabEdit = TabEdit(content: string, caret: nat)

  /** What a key press does: whether the browser's default action is
      cancelled, and the edit handed to the parent, if any. */
  datatype KeyOutcome = KeyOutcome(preventDefault: bool, edit: Option<TabEdit>)

  /** The text before the selection, two spaces, and the text after it;
      the caret lands just after the two spaces. */
  function InsertTab(content: string, sel: Selection): (r: TabEdit)
    ensures sel.start <= sel.end <= |content| ==>
      r.content == content[..sel.start] + "  " + content[sel.end..]
      && |r.content| == |content| - (sel.end - sel.start) + 2
    ensures r.caret == sel.start + 2
    ensures var k := Clamp(sel.start, |content|);
      k + 2 <= |r.content| && r.content[..k] == content[..k] && r.content[k..k + 2] == "  "
    ensures var k := Clamp(sel.end, |content|);
      |content| - k + 2 <= |r.content| && r.content[|r.content| - (|content| - k)..] == content[k..]
  {
    var before := Substring(content, 0, sel.start);
    var after := Substring(content, sel.end, |content|);
    var c := before + "  " + after;
    assert c[..|before|] == before;
    assert c[|before|..|before| + 2] == "  ";
    assert c[|c| - |after|..] == after;
    TabEdit(c, sel.start + 2)
  }

  /** The two spaces of a Tab typed at a caret (an empty selection) are
      the only change: removing them gives the content back. */
  lemma TabAtCaretUndone(content: string, k: nat)
    requires k <= |content|
    ensures var r := InsertTab(content, Selection(k, k));
      r.content[..k] + r.content[k + 2..] == content
  {
    var r := InsertTab(content, Selection(k, k));
    assert r.content[k + 2..] == content[k..];
  }

  /** Replacing a selection with a Tab and then a second Tab at the new
      caret gives four spaces in place of the selection. */
  lemma TabTwice(content: string, sel: Selection)
    requires sel.start <= sel.end <= |content|
    ensures var r := InsertTab(content, sel);
      var r2 := InsertTab(r.content, Selection(r.caret, r.caret));
      r2.content == content[..sel.start] + "    " + content[sel.end..] && r2.caret == sel.start + 4
  {
    var r := InsertTab(content, sel);
    var k := sel.start + 2;
    assert r.content[..k] == content[..sel.start] + "  ";
    assert r.content[k..] == content[sel.end..];
  }

  /** `handleKeyDown`: Tab cancels the default action and, when the
      textarea is mounted, hands the Tab edit to the parent; any other key
      does nothing. */
  function HandleKeyDown(key: string, content: string, textarea: Option<Selection>): (o: KeyOutcome)
    ensures o.preventDefault <==> key == "Tab"
    ensures o.edit.Some? <==> key == "Tab" && textarea.Some?
    ensures o.edit.Some? ==> o.edit.value == InsertTab(content, textarea.value)
  {
    if key == "Tab" then
      match textarea
      case None => KeyOutcome(true, None)
      case Some(sel) => KeyOutcome(true, Some(InsertTab(content, sel)))
    else KeyOutcome(false, None)
  }

  /** `handleChange`: the parent receives the textarea's value. */
  function HandleChange(value: string): (forwarded: string)
    ensures forwarded == value
  {
    value
  }
}
