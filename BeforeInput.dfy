/** `handleBeforeInput(chars, { getEditorState, setEditorState })`: the
    keystroke filter. Typing `[` inserts the pair `[]` and puts the caret
    between the brackets; any other input is judged by where the caret is
    relative to the formulas of the text and by the characters typed.
    `setEditorState` is modelled by returning the new text and selection. */
module BeforeInput {
  import opened MatchPositions
  import opened Editor

  /** The three values the handler returns, kept literal: the string
      `'handled'`, `true` and `false`. */
  datatype InputResult = Handled | ReturnsTrue | ReturnsFalse

  datatype BeforeInputOutcome = BeforeInputOutcome(text: string, selection: Selection, result: InputResult)

  /** The class `[-0-9 .%^&*()_+"'/]` of `operatorPattern`. */
  predicate IsOperatorChar(c: char) {
    || c == '-' || ('0' <= c <= '9') || c == ' ' || c == '.' || c == '%' || c == '^'
    || c == '&' || c == '*' || c == '(' || c == ')' || c == '_' || c == '+'
    || c == '"' || c == '\'' || c == '/'
  }

  /** `operatorPattern.test(chars)`: some typed character is in the class. */
  predicate HasOperatorChar(chars: string) {
    exists i :: 0 <= i < |chars| && IsOperatorChar(chars[i])
  }

  /** `matchingPositions.some(p => offset > p[0] && offset < p[1])`. */
  predicate StrictlyInsideSomeSpan(spans: seq<Span>, offset: int) {
    exists k :: 0 <= k < |spans| && spans[k].start < offset < spans[k].end
  }

  /** `Modifier.replaceText` over the rebuilt selection, then `forceSelection`.
      The rebuilt `SelectionState` is never backward, so the anchor is taken
      as the start of the replaced range and the focus as its end; the
      forced selection shifts both offsets by one. */
  function InsertBracketPair(text: string, sel: Selection): (out: BeforeInputOutcome)
    requires sel.Within(|text|)
    ensures |out.text| == sel.anchor + 2 + (|text| - sel.focus)
    ensures out.text[..sel.anchor] == text[..sel.anchor]
    ensures out.text[sel.anchor] == '[' && out.text[sel.anchor + 1] == ']'
    ensures out.text[sel.anchor + 2..] == text[sel.focus..]
    ensures out.selection.anchor == sel.anchor + 1 && out.selection.focus == sel.focus + 1
    ensures out.result == Handled
  {
    var t := text[..sel.anchor] + "[]" + text[sel.focus..];
    assert t[sel.anchor + 2..] == text[sel.focus..];
    BeforeInputOutcome(t, Selection(sel.anchor + 1, sel.focus + 1), Handled)
  }

  /** The handler as written, on a one-block document. */
  function HandleBeforeInput(chars: string, text: string, sel: Selection): (out: BeforeInputOutcome)
    requires sel.Within(|text|)
    ensures chars == "[" ==> out == InsertBracketPair(text, sel)
    ensures chars != "[" ==> out.text == text && out.selection == sel
    ensures chars != "[" ==> (out.result == ReturnsTrue <==> StrictlyInsideSomeSpan(Spans(text), sel.anchor))
    ensures chars != "[" ==>
      (out.result == ReturnsFalse <==> !StrictlyInsideSomeSpan(Spans(text), sel.anchor) && HasOperatorChar(chars))
  {
    if chars == "[" then
      InsertBracketPair(text, sel)
    else
      var matchingPositions := Spans(text);
      if StrictlyInsideSomeSpan(matchingPositions, sel.anchor) then
        BeforeInputOutcome(text, sel, ReturnsTrue)
      else
        BeforeInputOutcome(text, sel, if HasOperatorChar(chars) then ReturnsFalse else Handled)
  }

  /** Typing `[` at a collapsed caret `o`: `[]` appears at `o`, the text is
      otherwise unchanged, and the caret lands at `o + 1`. */
  lemma CollapsedBracketInsertion(text: string, o: nat)
    requires o <= |text|
    ensures var out := HandleBeforeInput("[", text, Selection(o, o));
      && out.result == Handled
      && |out.text| == |text| + 2
      && out.text[..o] == text[..o]
      && out.text[o] == '[' && out.text[o + 1] == ']'
      && out.text[o + 2..] == text[o..]
      && out.selection == Selection(o + 1, o + 1)
  {
    var out := HandleBeforeInput("[", text, Selection(o, o));
    assert out.text == text[..o] + "[]" + text[o..];
    assert out.text[o + 2..] == text[o..];
  }

  /** Wherever a `[]` pair sits in a text, the offset between its brackets
      is strictly inside one of the formulas the scanner reports. An earlier
      unclosed `[` may make that formula start before the pair, but never
      end after it. */
  lemma PairIsInsideFormula(text: string, o: nat)
    requires o + 1 < |text| && text[o] == '[' && text[o + 1] == ']'
    ensures StrictlyInsideSomeSpan(Spans(text), o + 1)
  {
    assert IsMatch(text, o, o + 2);
    MatchCovered(text, o, o + 2);
    var spans := Spans(text);
    var k :| 0 <= k < |spans| && spans[k].start <= o < spans[k].end;
    SpansWellFormed(text);
    assert spans[k].end - 1 != o;
    assert spans[k].start < o + 1 < spans[k].end;
  }

  /** After `[` is typed at a collapsed caret, the caret is inside a formula,
      so the next keystroke other than `[` gets `true`, whatever it is. */
  lemma BracketThenTypeInside(text: string, o: nat, next: string)
    requires o <= |text| && next != "["
    ensures var out := HandleBeforeInput("[", text, Selection(o, o));
      HandleBeforeInput(next, out.text, out.selection).result == ReturnsTrue
  {
    CollapsedBracketInsertion(text, o);
    var out := HandleBeforeInput("[", text, Selection(o, o));
    PairIsInsideFormula(out.text, o);
  }

  /** Outside every formula the answer depends on the characters alone:
      `false` for an operator character, `'handled'` otherwise; the final
      `return true` of the handler is never reached. */
  lemma OutsideFormulaByCharacterClass(chars: string, text: string, sel: Selection)
    requires sel.Within(|text|) && chars != "["
    requires !StrictlyInsideSomeSpan(Spans(text), sel.anchor)
    ensures HandleBeforeInput(chars, text, sel).result == (if HasOperatorChar(chars) then ReturnsFalse else Handled)
  {
  }

  /** Typing `[` over the whole of `abcd` leaves `[]` with the selection
      `(1, 5)`: the forced focus lies past the end of the new text. */
  lemma RangedBracketSelectionPastEnd()
    ensures var out := HandleBeforeInput("[", "abcd", Selection(0, 4));
      out.text == "[]" && out.selection == Selection(1, 5) && !out.selection.Within(|out.text|)
  {
    var out := HandleBeforeInput("[", "abcd", Selection(0, 4));
    assert "abcd"[..0] + "[]" + "abcd"[4..] == "[]";
  }

  /** Typing `[` over `bcd` in `abcde` selected backwards (anchor 4, focus 1)
      copies the selected text instead of replacing it. */
  lemma BackwardBracketDuplicatesText()
    ensures HandleBeforeInput("[", "abcde", Selection(4, 1)).text == "abcd[]bcde"
  {
    assert "abcde"[..4] + "[]" + "abcde"[1..] == "abcd[]bcde";
  }

  /** Replacing the selection, in either direction, by `[]` with the caret
      collapsed between the brackets. */
  function InsertBracketPairIntended(text: string, sel: Selection): (out: BeforeInputOutcome)
    requires sel.Within(|text|)
    ensures |out.text| == |text| - (sel.End() - sel.Start()) + 2
    ensures out.text[..sel.Start()] == text[..sel.Start()]
    ensures out.text[sel.Start()] == '[' && out.text[sel.Start() + 1] == ']'
    ensures out.text[sel.Start() + 2..] == text[sel.End()..]
    ensures out.selection == Selection(sel.Start() + 1, sel.Start() + 1)
    ensures out.selection.Within(|out.text|)
    ensures out.result == Handled
  {
    var t := text[..sel.Start()] + "[]" + text[sel.End()..];
    assert t[sel.Start() + 2..] == text[sel.End()..];
    BeforeInputOutcome(t, Selection(sel.Start() + 1, sel.Start() + 1), Handled)
  }

  /** With the intended insertion the caret always ends inside a formula. */
  lemma IntendedBracketCaretInFormula(text: string, sel: Selection)
    requires sel.Within(|text|)
    ensures var out := InsertBracketPairIntended(text, sel);
      StrictlyInsideSomeSpan(Spans(out.text), out.selection.anchor)
  {
    var out := InsertBracketPairIntended(text, sel);
    PairIsInsideFormula(out.text, sel.Start());
  }

  /** For a collapsed caret the handler as written already does this. */
  lemma CollapsedBracketAsIntended(text: string, o: nat)
    requires o <= |text|
    ensures HandleBeforeInput("[", text, Selection(o, o)) == InsertBracketPairIntended(text, Selection(o, o))
  {
  }
}
