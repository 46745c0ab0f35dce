/** The span scanner, `getAllMatchPositions`, specialised to the one pattern
    every caller passes: the global regular expression `/\[(.*?)\]/g`.

    An attempt at offset `i` succeeds when `text[i]` is `[`; the lazy `.*?`
    then stops at the first `]` after it, and fails if a line terminator
    (which `.` does not match) comes first. `exec` tries offsets from the
    regular expression's `lastIndex` upward, so the scanner reports, left to
    right, the leftmost match at or after the end of the previous one. */
module MatchPositions {
  import opened Wrappers

  /** The half-open offset range `[start, end)` of one match. */
  datatype Span = Span(start: nat, end: nat)

  /** The ECMAScript line terminators: the characters `.` refuses. */
  predicate IsLineTerminator(c: char) {
    c == '\n' || c == '\r' || c == '\U{2028}' || c == '\U{2029}'
  }

  /** `[i, e)` is the text `/\[(.*?)\]/` matches by an attempt started at `i`:
      a `[`, then no `]` and no line terminator, then the closing `]`. */
  ghost predicate IsMatch(text: string, i: nat, e: nat) {
    && i + 2 <= e <= |text|
    && text[i] == '['
    && text[e - 1] == ']'
    && forall k :: i < k < e - 1 ==> text[k] != ']' && !IsLineTerminator(text[k])
  }

  /** No attempt started at an offset in `[lo, hi)` succeeds. */
  ghost predicate NoMatchIn(text: string, lo: nat, hi: nat) {
    forall i, e :: lo <= i < hi ==> !IsMatch(text, i, e)
  }

  /** A successful attempt has only one possible end (the match is lazy). */
  lemma MatchEndUnique(text: string, i: nat, e1: nat, e2: nat)
    requires IsMatch(text, i, e1) && IsMatch(text, i, e2)
    ensures e1 == e2
  {
  }

  /** The lazy `.*?` followed by `\]`, tried from offset `k`: the offset of the
      first `]` at or after `k`, unless a line terminator comes first. */
  function CloseFrom(text: string, k: nat): (r: Option<nat>)
    decreases |text| - k
    ensures r.Some? ==> k <= r.value < |text| && text[r.value] == ']'
    ensures r.Some? ==> forall m :: k <= m < r.value ==> text[m] != ']' && !IsLineTerminator(text[m])
    ensures r.None? ==> forall j :: k <= j < |text| && text[j] == ']' ==>
                          exists m :: k <= m < j && IsLineTerminator(text[m])
  {
    if k >= |text| then None
    else if text[k] == ']' then Some(k)
    else if IsLineTerminator(text[k]) then None
    else CloseFrom(text, k + 1)
  }

  /** One attempt of the pattern at offset `i`: the end of the match, if any. */
  function MatchAt(text: string, i: nat): (r: Option<nat>)
    ensures r.Some? ==> IsMatch(text, i, r.value)
    ensures r.None? ==> forall e :: !IsMatch(text, i, e)
  {
    if i < |text| && text[i] == '[' then
      match CloseFrom(text, i + 1)
      case Some(j) => Some(j + 1)
      case None => None
    else None
  }

  /** `exec` from `lastIndex == from`: the leftmost match starting at or after `from`. */
  function NextMatch(text: string, from: nat): (r: Option<Span>)
    decreases |text| - from
    ensures r.Some? ==> from <= r.value.start && IsMatch(text, r.value.start, r.value.end)
    ensures r.Some? ==> NoMatchIn(text, from, r.value.start)
    ensures r.None? ==> NoMatchIn(text, from, |text|)
  {
    if from >= |text| then None
    else
      match MatchAt(text, from)
      case Some(e) => Some(Span(from, e))
      case None => NextMatch(text, from + 1)
  }

  /** The pairs the scanner collects when `lastIndex` starts at `from`. */
  function SpansFrom(text: string, from: nat): (spans: seq<Span>)
    decreases |text| - from
  {
    match NextMatch(text, from)
    case None => []
    case Some(s) => [s] + SpansFrom(text, s.end)
  }

  /** What `getAllMatchPositions(text, /\[(.*?)\]/g)` returns for a fresh pattern. */
  function Spans(text: string): seq<Span> {
    SpansFrom(text, 0)
  }

  /** Where the `k`-th stretch of text not covered by a span begins: `from`
      before the first span, the end of span `k - 1` after it. */
  function GapStart(from: nat, spans: seq<Span>, k: nat): nat
    requires k <= |spans|
  {
    if k == 0 then from else spans[k - 1].end
  }

  /** Where the `k`-th uncovered stretch ends: at span `k`, or at the end of the text. */
  function GapEnd(text: string, spans: seq<Span>, k: nat): nat
    requires k <= |spans|
  {
    if k == |spans| then |text| else spans[k].start
  }

  /** A reference definition of a left-to-right scan started at `from`,
      independent of how the scan is computed: every span is a match, each
      begins at or after the end of the one before, and no match begins in
      the text the spans leave uncovered. */
  ghost predicate IsScanFrom(text: string, from: nat, spans: seq<Span>) {
    && (forall k :: 0 <= k < |spans| ==> IsMatch(text, spans[k].start, spans[k].end))
    && (forall k :: 0 <= k < |spans| ==> GapStart(from, spans, k) <= spans[k].start)
    && (forall k :: 0 <= k <= |spans| ==> NoMatchIn(text, GapStart(from, spans, k), GapEnd(text, spans, k)))
  }

  lemma {:induction false} SpansFromIsScan(text: string, from: nat)
    ensures IsScanFrom(text, from, SpansFrom(text, from))
    decreases |text| - from
  {
    match NextMatch(text, from)
    case None =>
      assert SpansFrom(text, from) == [];
    case Some(s) =>
      var rest := SpansFrom(text, s.end);
      SpansFromIsScan(text, s.end);
      var spans := [s] + rest;
      assert SpansFrom(text, from) == spans;
      forall k | 0 < k <= |spans|
        ensures GapStart(from, spans, k) == GapStart(s.end, rest, k - 1)
        ensures GapEnd(text, spans, k) == GapEnd(text, rest, k - 1)
      {
      }
      forall k | 0 <= k < |spans|
        ensures IsMatch(text, spans[k].start, spans[k].end)
        ensures GapStart(from, spans, k) <= spans[k].start
      {
        if k > 0 {
          assert spans[k] == rest[k - 1];
        }
      }
      forall k | 0 <= k <= |spans|
        ensures NoMatchIn(text, GapStart(from, spans, k), GapEnd(text, spans, k))
      {
        if k > 0 {
          assert NoMatchIn(text, GapStart(s.end, rest, k - 1), GapEnd(text, rest, k - 1));
        }
      }
  }

  /** A scan's first span is the leftmost match; the rest is a scan from its end. */
  lemma ScanTail(text: string, from: nat, spans: seq<Span>)
    requires IsScanFrom(text, from, spans) && spans != []
    ensures NextMatch(text, from) == Some(spans[0])
    ensures IsScanFrom(text, spans[0].end, spans[1..])
  {
    var s0 := spans[0];
    assert IsMatch(text, s0.start, s0.end);
    assert NoMatchIn(text, GapStart(from, spans, 0), GapEnd(text, spans, 0));
    match NextMatch(text, from)
    case None =>
      assert false;
    case Some(s) =>
      if s.start < s0.start {
        assert false;
      } else if s0.start < s.start {
        assert false;
      } else {
        MatchEndUnique(text, s.start, s.end, s0.end);
      }
    var rest := spans[1..];
    forall k | 0 <= k <= |rest|
      ensures GapStart(s0.end, rest, k) == GapStart(from, spans, k + 1)
      ensures GapEnd(text, rest, k) == GapEnd(text, spans, k + 1)
    {
    }
    forall k | 0 <= k <= |rest|
      ensures NoMatchIn(text, GapStart(s0.end, rest, k), GapEnd(text, rest, k))
    {
      assert NoMatchIn(text, GapStart(from, spans, k + 1), GapEnd(text, spans, k + 1));
    }
    forall k | 0 <= k < |rest|
      ensures IsMatch(text, rest[k].start, rest[k].end)
      ensures GapStart(s0.end, rest, k) <= rest[k].start
    {
      assert rest[k] == spans[k + 1];
    }
  }

  /** Only one sequence of spans is a scan from `from`: the one the scanner computes. */
  lemma {:induction false} ScanIsUnique(text: string, from: nat, spans: seq<Span>)
    requires IsScanFrom(text, from, spans)
    ensures spans == SpansFrom(text, from)
    decreases |spans|
  {
    if spans == [] {
      assert NoMatchIn(text, GapStart(from, spans, 0), GapEnd(text, spans, 0));
      match NextMatch(text, from)
      case None =>
      case Some(s) =>
        assert false;
    } else {
      ScanTail(text, from, spans);
      ScanIsUnique(text, spans[0].end, spans[1..]);
      assert spans == [spans[0]] + spans[1..];
    }
  }

  /** The scanner's output is exactly the left-to-right scan of the text. */
  lemma ScanCharacterisation(text: string, spans: seq<Span>)
    ensures IsScanFrom(text, 0, spans) <==> spans == Spans(text)
  {
    SpansFromIsScan(text, 0);
    if IsScanFrom(text, 0, spans) {
      ScanIsUnique(text, 0, spans);
    }
  }

  /** Each reported pair lies within the text, is at least two characters
      long, opens with `[`, closes with `]`, and holds neither `]` nor a line
      terminator in between. */
  lemma SpansWellFormed(text: string)
    ensures forall k :: 0 <= k < |Spans(text)| ==>
      Spans(text)[k].start + 2 <= Spans(text)[k].end <= |text|
    ensures forall k :: 0 <= k < |Spans(text)| ==>
      text[Spans(text)[k].start] == '[' && text[Spans(text)[k].end - 1] == ']'
    ensures forall k, m :: 0 <= k < |Spans(text)| && Spans(text)[k].start < m < Spans(text)[k].end - 1 ==>
      text[m] != ']' && !IsLineTerminator(text[m])
  {
    SpansFromIsScan(text, 0);
    var spans := Spans(text);
    forall k | 0 <= k < |spans|
      ensures IsMatch(text, spans[k].start, spans[k].end)
    {
    }
  }

  lemma {:induction false} OrderedChain(spans: seq<Span>, j: nat, k: nat)
    requires forall i :: 0 <= i < |spans| ==> spans[i].start < spans[i].end
    requires forall i :: 0 < i < |spans| ==> spans[i - 1].end <= spans[i].start
    requires j < k < |spans|
    ensures spans[j].end <= spans[k].start
    decreases k - j
  {
    if j + 1 < k {
      OrderedChain(spans, j + 1, k);
    }
  }

  /** The pairs come in left-to-right order and never overlap. */
  lemma SpansOrdered(text: string)
    ensures forall j, k :: 0 <= j < k < |Spans(text)| ==> Spans(text)[j].end <= Spans(text)[k].start
  {
    SpansFromIsScan(text, 0);
    var spans := Spans(text);
    forall i | 0 <= i < |spans|
      ensures spans[i].start < spans[i].end
    {
      assert IsMatch(text, spans[i].start, spans[i].end);
    }
    forall i | 0 < i < |spans|
      ensures spans[i - 1].end <= spans[i].start
    {
      assert GapStart(0, spans, i) <= spans[i].start;
    }
    forall j, k | 0 <= j < k < |spans|
      ensures spans[j].end <= spans[k].start
    {
      OrderedChain(spans, j, k);
    }
  }

  /** Nothing is missed: every offset where an attempt of the pattern would
      succeed lies inside some reported span. */
  lemma {:induction false} MatchCoveredFrom(text: string, from: nat, i: nat, e: nat)
    requires from <= i && IsMatch(text, i, e)
    ensures exists k :: (0 <= k < |SpansFrom(text, from)| &&
                         SpansFrom(text, from)[k].start <= i < SpansFrom(text, from)[k].end)
    decreases |text| - from
  {
    match NextMatch(text, from)
    case None =>
      assert false;
    case Some(s) =>
      var spans := SpansFrom(text, from);
      assert spans == [s] + SpansFrom(text, s.end);
      if i < s.start {
        assert false;
      } else if i < s.end {
        assert spans[0].start <= i < spans[0].end;
      } else {
        MatchCoveredFrom(text, s.end, i, e);
        var k :| 0 <= k < |SpansFrom(text, s.end)| &&
          SpansFrom(text, s.end)[k].start <= i < SpansFrom(text, s.end)[k].end;
        assert spans[k + 1] == SpansFrom(text, s.end)[k];
      }
  }

  lemma MatchCovered(text: string, i: nat, e: nat)
    requires IsMatch(text, i, e)
    ensures exists k :: 0 <= k < |Spans(text)| && Spans(text)[k].start <= i < Spans(text)[k].end
  {
    MatchCoveredFrom(text, 0, i, e);
    assert Spans(text) == SpansFrom(text, 0);
  }

  /** Text without a `[` (the empty text included) yields no pairs. */
  lemma NoBracketNoSpans(text: string)
    requires forall k :: 0 <= k < |text| ==> text[k] != '['
    ensures Spans(text) == []
  {
    match NextMatch(text, 0)
    case None =>
    case Some(s) =>
      assert false;
  }

  /** The two well-formed pairs of `a [x] b [y] c`. */
  lemma TwoFormulaSpans()
    ensures Spans("a [x] b [y] c") == [Span(2, 5), Span(8, 11)]
  {
    var text := "a [x] b [y] c";
    assert MatchAt(text, 0) == None && MatchAt(text, 1) == None;
    assert MatchAt(text, 2) == Some(5);
    assert NextMatch(text, 0) == Some(Span(2, 5));
    assert MatchAt(text, 5) == None && MatchAt(text, 6) == None && MatchAt(text, 7) == None;
    assert MatchAt(text, 8) == Some(11);
    assert NextMatch(text, 5) == Some(Span(8, 11));
    assert MatchAt(text, 11) == None && MatchAt(text, 12) == None;
    assert NextMatch(text, 11) == None;
  }

  /** The regular expression object `/\[(.*?)\]/g`. Of its state only
      `lastIndex`, where the next `exec` starts, matters here. */
  class BracketRegExp {
    var lastIndex: nat

    constructor ()
      ensures lastIndex == 0
    {
      lastIndex := 0;
    }

    /** `RegExp.prototype.exec` in global mode: the leftmost match at or after
        `lastIndex`; `lastIndex` moves to the match's end, or back to 0 when
        there is none. */
    method Exec(text: string) returns (found: Option<Span>)
      modifies this
      ensures found == NextMatch(text, old(lastIndex))
      ensures lastIndex == if found.Some? then found.value.end else 0
    {
      found := NextMatch(text, lastIndex);
      lastIndex := if found.Some? then found.value.end else 0;
    }
  }

  /** `getAllMatchPositions`: call `exec` until it fails, collecting each
      match's `[index, index + length]`. The final failed `exec` puts
      `lastIndex` back to 0, so the same pattern object scans the next text
      from the start. */
  method GetAllMatchPositions(text: string, regex: BracketRegExp) returns (indexes: seq<Span>)
    modifies regex
    ensures indexes == SpansFrom(text, old(regex.lastIndex))
    ensures regex.lastIndex == 0
  {
    ghost var from := regex.lastIndex;
    ghost var cursor := regex.lastIndex;
    indexes := [];
    var found := regex.Exec(text);
    while found.Some?
      invariant found == NextMatch(text, cursor)
      invariant regex.lastIndex == if found.Some? then found.value.end else 0
      invariant SpansFrom(text, from) == indexes + SpansFrom(text, cursor)
      decreases |text| - cursor
    {
      indexes := indexes + [Span(found.value.start, found.value.end)];
      cursor := found.value.end;
      found := regex.Exec(text);
    }
  }

  /** A call site: `getAllMatchPositions(text, /\[(.*?)\]/g)`, the literal
      giving a fresh pattern object each time. */
  method ScanFormulaSpans(text: string) returns (indexes: seq<Span>)
    ensures indexes == Spans(text)
  {
    var regex := new BracketRegExp();
    indexes := GetAllMatchPositions(text, regex);
  }
}
