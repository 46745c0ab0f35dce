/** `getSearchText(editorState, selection)`: the formula around the caret and
    the text between its brackets, which the suggestion list filters on. */
module SearchText {
  import opened Wrappers
  import opened MatchPositions

  datatype SearchText = SearchText(begin: nat, end: nat, searchValue: string)

  /** The test handed to `find`: `offset` lies in `[start, end]`, both ends included. */
  predicate Touches(s: Span, offset: int) {
    s.start <= offset <= s.end
  }

  /** The test an exclusive `end` calls for: `offset` lies in `[start, end)`. */
  predicate Covers(s: Span, offset: int) {
    s.start <= offset < s.end
  }

  /** `Array.prototype.find` from index `from`, reporting the index found. */
  function FindFirst(spans: seq<Span>, test: (Span, int) -> bool, offset: int, from: nat): (r: Option<nat>)
    requires from <= |spans|
    decreases |spans| - from
    ensures r.Some? ==> from <= r.value < |spans| && test(spans[r.value], offset)
    ensures r.Some? ==> forall j :: from <= j < r.value ==> !test(spans[j], offset)
    ensures r.None? ==> forall j :: from <= j < |spans| ==> !test(spans[j], offset)
  {
    if from == |spans| then None
    else if test(spans[from], offset) then Some(from)
    else FindFirst(spans, test, offset, from + 1)
  }

  /** The part shared by both lookups: the span `find` chose, and the text between its brackets. */
  function Extract(blockText: string, found: Option<nat>): (r: Result<SearchText>)
    requires found.Some? ==> found.value < |Spans(blockText)|
    ensures found.None? ==> r == Err(UndefinedRead)
    ensures found.Some? ==> (r.Ok? &&
                             r.value.begin == Spans(blockText)[found.value].start &&
                             r.value.end == Spans(blockText)[found.value].end)
    ensures r.Ok? ==> r.value.begin + 2 <= r.value.end <= |blockText|
    ensures r.Ok? ==> blockText[r.value.begin] == '[' && blockText[r.value.end - 1] == ']'
    ensures r.Ok? ==> r.value.searchValue == blockText[r.value.begin + 1 .. r.value.end - 1]
    ensures r.Ok? ==> |r.value.searchValue| == r.value.end - r.value.begin - 2
    ensures r.Ok? ==> forall c :: c in r.value.searchValue ==> c != ']' && !IsLineTerminator(c)
  {
    match found
    case None => Err(UndefinedRead)
    case Some(k) =>
      SpansWellFormed(blockText);
      var s := Spans(blockText)[k];
      var value := blockText[s.start + 1 .. s.end - 1];
      assert forall c :: c in value ==> c != ']' && !IsLineTerminator(c) by {
        forall c | c in value ensures c != ']' && !IsLineTerminator(c) {
          var m :| 0 <= m < |value| && value[m] == c;
          assert blockText[s.start + 1 + m] == c;
        }
      }
      Ok(SearchText(s.start, s.end, value))
  }

  /** `getSearchText` as written: the first span with
      `begin <= anchorOffset - 1 <= end`. When there is none, `searchPosition`
      is `undefined` and reading `searchPosition[0]` throws. */
  function GetSearchText(blockText: string, anchorOffset: nat): (r: Result<SearchText>)
    ensures r.Err? <==> forall k :: 0 <= k < |Spans(blockText)| ==> !Touches(Spans(blockText)[k], anchorOffset - 1)
    ensures r.Err? ==> r.error == UndefinedRead
    ensures r.Ok? ==> exists k :: (0 <= k < |Spans(blockText)| &&
                                   Spans(blockText)[k] == Span(r.value.begin, r.value.end) &&
                                   Touches(Spans(blockText)[k], anchorOffset - 1) &&
                                   forall j :: 0 <= j < k ==> !Touches(Spans(blockText)[j], anchorOffset - 1))
    ensures r.Ok? ==> r.value.begin + 2 <= r.value.end <= |blockText|
    ensures r.Ok? ==> r.value.searchValue == blockText[r.value.begin + 1 .. r.value.end - 1]
    ensures r.Ok? ==> |r.value.searchValue| == r.value.end - r.value.begin - 2
    ensures r.Ok? ==> forall c :: c in r.value.searchValue ==> c != ']' && !IsLineTerminator(c)
  {
    var spans := Spans(blockText);
    var found := FindFirst(spans, Touches, anchorOffset - 1, 0);
    var r := Extract(blockText, found);
    assert found.Some? ==> spans[found.value] == Span(r.value.begin, r.value.end);
    r
  }

  /** The inclusive end lets the caret one character past a `]` select that
      formula: in `[a][b]` with the caret after the second `[`, the lookup
      returns the first formula and its text `a`. */
  lemma AdjacentFormulaMisread()
    ensures GetSearchText("[a][b]", 4) == Ok(SearchText(0, 3, "a"))
  {
    var text := "[a][b]";
    assert MatchAt(text, 0) == Some(3);
    assert NextMatch(text, 0) == Some(Span(0, 3));
    assert MatchAt(text, 3) == Some(6);
    assert NextMatch(text, 3) == Some(Span(3, 6));
    assert NextMatch(text, 6) == None;
    assert Spans(text) == [Span(0, 3), Span(3, 6)];
    assert Touches(Span(0, 3), 3);
    assert FindFirst(Spans(text), Touches, 3, 0) == Some(0);
    assert text[1 .. 2] == "a";
  }

  /** The lookup with the exclusive end the scanner's pairs carry: the span
      with `begin <= anchorOffset - 1 < end`. */
  function GetSearchTextIntended(blockText: string, anchorOffset: nat): (r: Result<SearchText>)
    ensures r.Err? <==> forall k :: 0 <= k < |Spans(blockText)| ==> !Covers(Spans(blockText)[k], anchorOffset - 1)
    ensures r.Ok? ==> exists k :: (0 <= k < |Spans(blockText)| &&
                                   Spans(blockText)[k] == Span(r.value.begin, r.value.end) &&
                                   Covers(Spans(blockText)[k], anchorOffset - 1))
    ensures r.Ok? ==> r.value.begin + 2 <= r.value.end <= |blockText|
    ensures r.Ok? ==> r.value.searchValue == blockText[r.value.begin + 1 .. r.value.end - 1]
  {
    var spans := Spans(blockText);
    var found := FindFirst(spans, Covers, anchorOffset - 1, 0);
    var r := Extract(blockText, found);
    assert found.Some? ==> spans[found.value] == Span(r.value.begin, r.value.end);
    r
  }

  /** With the exclusive end, a caret anywhere after the `[` of a formula and
      up to just past its `]` finds exactly that formula. */
  lemma IntendedFindsFormulaAtCaret(blockText: string, anchorOffset: nat, k: nat)
    requires k < |Spans(blockText)|
    requires Spans(blockText)[k].start < anchorOffset <= Spans(blockText)[k].end
    ensures GetSearchTextIntended(blockText, anchorOffset).Ok?
    ensures GetSearchTextIntended(blockText, anchorOffset).value.begin == Spans(blockText)[k].start
    ensures GetSearchTextIntended(blockText, anchorOffset).value.end == Spans(blockText)[k].end
  {
    var spans := Spans(blockText);
    SpansOrdered(blockText);
    var r := GetSearchTextIntended(blockText, anchorOffset);
    assert Covers(spans[k], anchorOffset - 1);
    var j :| 0 <= j < |spans| && spans[j] == Span(r.value.begin, r.value.end) && Covers(spans[j], anchorOffset - 1);
    if j != k {
      assert false;
    }
  }
}
