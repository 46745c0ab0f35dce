/** `mentionSuggestionsStrategy(trigger, regExp)`: the decorator strategy
    that reports each bracketed formula of a block to the host's callback.
    The callback is modelled by the sequence of argument pairs it receives. */
module SuggestionsStrategy {
  import opened MatchPositions

  /** The `(start, end)` arguments of the `callback` calls made for a block
      whose text is `blockText`, in call order. `trigger` and `regExp` are
      accepted and not consulted: the pattern is fixed. */
  function SuggestionCallbacks(trigger: string, regExp: string, blockText: string): (calls: seq<(nat, nat)>)
    ensures |calls| == |Spans(blockText)|
    ensures forall k :: 0 <= k < |calls| ==>
      calls[k].0 == Spans(blockText)[k].start && calls[k].1 == Spans(blockText)[k].end
    ensures forall k :: 0 <= k < |calls| ==>
      calls[k].0 + 2 <= calls[k].1 <= |blockText| &&
      blockText[calls[k].0] == '[' && blockText[calls[k].1 - 1] == ']'
    ensures forall k, m :: 0 <= k < |calls| && calls[k].0 < m < calls[k].1 - 1 ==>
      blockText[m] != ']' && !IsLineTerminator(blockText[m])
    ensures forall j, k :: 0 <= j < k < |calls| ==> calls[j].1 <= calls[k].0
  {
    var matches := Spans(blockText);
    SpansWellFormed(blockText);
    SpansOrdered(blockText);
    if |matches| > 0 then
      seq(|matches|, k requires 0 <= k < |matches| => (matches[k].start, matches[k].end))
    else
      []
  }

  /** Only the block text decides the calls. */
  lemma CallbacksIgnoreConfiguration(trigger1: string, regExp1: string, trigger2: string, regExp2: string, blockText: string)
    ensures SuggestionCallbacks(trigger1, regExp1, blockText) == SuggestionCallbacks(trigger2, regExp2, blockText)
  {
  }

  /** A block without `[` (an empty block included) gets no callback. */
  lemma NoFormulaNoCallbacks(trigger: string, regExp: string, blockText: string)
    requires forall k :: 0 <= k < |blockText| ==> blockText[k] != '['
    ensures SuggestionCallbacks(trigger, regExp, blockText) == []
  {
    NoBracketNoSpans(blockText);
  }

  /** The block `a [x] b [y] c` is reported as two calls, left to right. */
  lemma TwoFormulaCallbacks(trigger: string, regExp: string)
    ensures SuggestionCallbacks(trigger, regExp, "a [x] b [y] c") == [(2, 5), (8, 11)]
  {
    TwoFormulaSpans();
  }
}
