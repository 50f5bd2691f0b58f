/**
 * The edits made by the buttons of the Markdown formatting bar shown above the
 * comment and post editors. Each button takes the current text field value
 * (its text and its selection) and produces a new value: either the selection
 * is surrounded by inline markers (bold, italic, strikethrough, link, code) or
 * the selection is replaced by a line prefix (quote, bulleted list, numbered
 * list). The Compose row and icons around these edits are not modelled.
 */
module TextFormatting {

  /** A selection in the text field, from `start` to `end`; a cursor when they coincide. */
  datatype TextRange = TextRange(start: int, end: int)

  /** The one-argument `TextRange(index)`: a collapsed selection, i.e. a cursor. */
  function Cursor(index: int): TextRange {
    TextRange(index, index)
  }

  /** The parts of Compose's `TextFieldValue` the buttons read and write. */
  datatype TextFieldValue = TextFieldValue(text: string, selection: TextRange)

  /**
   * A forward selection inside the text: what the `substring` calls of every
   * button need in order not to fail.
   */
  predicate ValidSelection(v: TextFieldValue) {
    0 <= v.selection.start <= v.selection.end <= |v.text|
  }

  /** Inserted between the markers when nothing is selected. */
  const PlaceholderText: string := "text here"

  /** The text a surrounding button puts between its two markers. */
  function Inner(v: TextFieldValue): string
    requires ValidSelection(v)
  {
    if v.selection.start == v.selection.end then PlaceholderText
    else v.text[v.selection.start..v.selection.end]
  }

  /**
   * What an inline-marker button promises, stated position by position on the
   * new text: the text before the selection is kept, then `open`, then the
   * selected text (or the placeholder), then `close`, then the text after the
   * selection. A non-empty selection is moved so that it covers exactly the
   * originally selected text; an empty one becomes a cursor right after the
   * placeholder, just before `close`.
   */
  ghost predicate Surrounds(v: TextFieldValue, r: TextFieldValue, open: string, close: string)
    requires ValidSelection(v)
  {
    var s, e, inner := v.selection.start, v.selection.end, Inner(v);
    && |r.text| == s + |open| + |inner| + |close| + (|v.text| - e)
    && r.text[..s] == v.text[..s]
    && r.text[s..s + |open|] == open
    && r.text[s + |open|..s + |open| + |inner|] == inner
    && r.text[s + |open| + |inner|..s + |open| + |inner| + |close|] == close
    && r.text[s + |open| + |inner| + |close|..] == v.text[e..]
    && ValidSelection(r)
    && (s == e ==> r.selection == Cursor(s + |open| + |PlaceholderText|))
    && (s < e ==> r.selection == TextRange(s + |open|, e + |open|)
                  && r.text[r.selection.start..r.selection.end] == v.text[s..e])
  }

  /**
   * What a line-prefix button promises: the selected text is replaced by
   * `prefix`, everything else is kept, and the cursor sits right after the prefix.
   */
  ghost predicate ReplacesWithPrefix(v: TextFieldValue, r: TextFieldValue, prefix: string)
    requires ValidSelection(v)
  {
    var s, e := v.selection.start, v.selection.end;
    && |r.text| == s + |prefix| + (|v.text| - e)
    && r.text[..s] == v.text[..s]
    && r.text[s..s + |prefix|] == prefix
    && r.text[s + |prefix|..] == v.text[e..]
    && r.selection == Cursor(s + |prefix|)
    && ValidSelection(r)
  }

  /**
   * The body shared by the five surrounding buttons. Each button passes its own
   * literals: the markers, the cursor offset used when nothing is selected and
   * the shift applied to a non-empty selection.
   */
  function Surround(v: TextFieldValue, open: string, close: string, emptyOffset: int, shift: int): TextFieldValue
    requires ValidSelection(v)
  {
    var s := v.selection;
    var newText := v.text[..s.start] + open + Inner(v) + close + v.text[s.end..];
    var newSelection :=
      if s.start == s.end then Cursor(s.start + emptyOffset)
      else TextRange(s.start + shift, s.end + shift);
    v.(text := newText, selection := newSelection)
  }

  /** The body shared by the three line-prefix buttons. */
  function InsertPrefix(v: TextFieldValue, prefix: string, cursorOffset: int): TextFieldValue
    requires ValidSelection(v)
  {
    var s := v.selection;
    v.(text := v.text[..s.start] + prefix + v.text[s.end..],
       selection := Cursor(s.start + cursorOffset))
  }

  /** Bold: `**selection**`; with no selection the cursor lands at start + 11. */
  function Bold(v: TextFieldValue): (r: TextFieldValue)
    requires ValidSelection(v)
    ensures Surrounds(v, r, "**", "**")
  {
    Surround(v, "**", "**", 11, 2)
  }

  /** Italic: `*selection*`; with no selection the cursor lands at start + 10. */
  function Italic(v: TextFieldValue): (r: TextFieldValue)
    requires ValidSelection(v)
    ensures Surrounds(v, r, "*", "*")
  {
    Surround(v, "*", "*", 10, 1)
  }

  /** Strikethrough: `~~selection~~`; with no selection the cursor lands at start + 11. */
  function Strikethrough(v: TextFieldValue): (r: TextFieldValue)
    requires ValidSelection(v)
    ensures Surrounds(v, r, "~~", "~~")
  {
    Surround(v, "~~", "~~", 11, 2)
  }

  /** Link: `[selection](URL here)`; with no selection the cursor lands at start + 10, before `]`. */
  function Link(v: TextFieldValue): (r: TextFieldValue)
    requires ValidSelection(v)
    ensures Surrounds(v, r, "[", "](URL here)")
  {
    Surround(v, "[", "](URL here)", 10, 1)
  }

  /** Inline code: `` `selection` ``; with no selection the cursor lands at start + 10. */
  function Code(v: TextFieldValue): (r: TextFieldValue)
    requires ValidSelection(v)
    ensures Surrounds(v, r, "`", "`")
  {
    Surround(v, "`", "`", 10, 1)
  }

  /** Quote: the selection becomes a new line starting with `> `. */
  function Quote(v: TextFieldValue): (r: TextFieldValue)
    requires ValidSelection(v)
    ensures ReplacesWithPrefix(v, r, "\n> ")
  {
    InsertPrefix(v, "\n> ", 3)
  }

  /** Bulleted list: the selection becomes a new line starting with `- `. */
  function BulletedList(v: TextFieldValue): (r: TextFieldValue)
    requires ValidSelection(v)
    ensures ReplacesWithPrefix(v, r, "\n- ")
  {
    InsertPrefix(v, "\n- ", 3)
  }

  /** Numbered list: the selection becomes a new line starting with `1. `. */
  function NumberedList(v: TextFieldValue): (r: TextFieldValue)
    requires ValidSelection(v)
    ensures ReplacesWithPrefix(v, r, "\n1. ")
  {
    InsertPrefix(v, "\n1. ", 4)
  }

  /**
   * Deleting the two markers around the new selection gives back the original
   * text, and the new selection still selects what was selected.
   */
  lemma SurroundUndo(v: TextFieldValue, r: TextFieldValue, open: string, close: string)
    requires ValidSelection(v) && v.selection.start < v.selection.end
    requires Surrounds(v, r, open, close)
    ensures r.selection.start >= |open| && r.selection.end + |close| <= |r.text|
    ensures r.text[..r.selection.start - |open|] + r.text[r.selection.start..r.selection.end]
            + r.text[r.selection.end + |close|..] == v.text
  {
    var s, e := v.selection.start, v.selection.end;
    assert r.selection.start - |open| == s;
    assert r.selection.end + |close| == s + |open| + (e - s) + |close|;
    calc {
      v.text;
      v.text[..s] + v.text[s..e] + v.text[e..];
      r.text[..s] + r.text[r.selection.start..r.selection.end] + r.text[r.selection.end + |close|..];
    }
  }

  /**
   * With nothing selected, deleting the inserted markers and placeholder
   * around the cursor gives back the original text.
   */
  lemma SurroundEmptyUndo(v: TextFieldValue, r: TextFieldValue, open: string, close: string)
    requires ValidSelection(v) && v.selection.start == v.selection.end
    requires Surrounds(v, r, open, close)
    ensures r.selection.start >= |open| + |PlaceholderText|
    ensures r.selection.end + |close| <= |r.text|
    ensures r.text[r.selection.start - |PlaceholderText|..r.selection.start] == PlaceholderText
    ensures r.text[..r.selection.start - |open| - |PlaceholderText|] + r.text[r.selection.end + |close|..] == v.text
  {
    var s := v.selection.start;
    calc {
      v.text;
      v.text[..s] + v.text[s..];
      r.text[..s] + r.text[r.selection.end + |close|..];
    }
  }

  /**
   * Deleting the prefix in front of the cursor gives the original text with
   * the selected part cut out.
   */
  lemma PrefixUndo(v: TextFieldValue, r: TextFieldValue, prefix: string)
    requires ValidSelection(v)
    requires ReplacesWithPrefix(v, r, prefix)
    ensures r.selection.start >= |prefix|
    ensures r.text[..r.selection.start - |prefix|] + r.text[r.selection.start..]
            == v.text[..v.selection.start] + v.text[v.selection.end..]
  {
  }

  /** Bold with no selection on an empty field gives `**text here**` with the cursor after `here`. */
  lemma BoldOnEmptyField()
    ensures Bold(TextFieldValue("", Cursor(0))) == TextFieldValue("**text here**", Cursor(11))
  {
  }
}
