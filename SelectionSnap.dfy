/** The plugin's `onChange(editorState)`: it widens the selection to the
    edges of the entity runs it touches, so that a formula entity is
    selected (and deleted) as one piece. Only the start block is read; a
    block is its character list, each entry the entity key of one
    character or none. The optional `callbacks.onChange` hook is not part
    of this model (it is the identity when unset). */
module SelectionSnap {
  import opened Wrappers
  import opened Editor

  /** Entity keys are non-empty strings, so a present key is always truthy. */
  type EntityKey = k: string | k != "" witness "1"

  /** `block.getCharacterList()`, reduced to each character's entity. */
  type CharacterList = seq<Option<EntityKey>>

  /** Immutable `List.get(i)`: a negative index counts back from the end;
      anything out of range is `undefined`. */
  function ListGet(chars: CharacterList, i: int): Option<Option<EntityKey>> {
    if 0 <= i < |chars| then Some(chars[i])
    else if -|chars| <= i < 0 then Some(chars[|chars| + i])
    else None
  }

  /** The first index of the run of `e` that contains `i`. */
  function RunStart(chars: CharacterList, i: nat, e: EntityKey): (lo: nat)
    requires i < |chars| && chars[i] == Some(e)
    ensures lo <= i
    ensures forall k :: lo <= k <= i ==> chars[k] == Some(e)
    ensures lo == 0 || chars[lo - 1] != Some(e)
  {
    if i == 0 || chars[i - 1] != Some(e) then i else RunStart(chars, i - 1, e)
  }

  /** The first index past the run of `e` that contains `i`. */
  function RunEnd(chars: CharacterList, i: nat, e: EntityKey): (hi: nat)
    requires i < |chars| && chars[i] == Some(e)
    decreases |chars| - i
    ensures i < hi <= |chars|
    ensures forall k :: i <= k < hi ==> chars[k] == Some(e)
    ensures hi == |chars| || chars[hi] != Some(e)
  {
    if i + 1 == |chars| || chars[i + 1] != Some(e) then i + 1 else RunEnd(chars, i + 1, e)
  }

  /** Any index of a run has the same run bounds. */
  lemma {:induction false} RunBoundsShared(chars: CharacterList, i: nat, j: nat, e: EntityKey)
    requires i <= j < |chars|
    requires forall k :: i <= k <= j ==> chars[k] == Some(e)
    ensures RunStart(chars, i, e) == RunStart(chars, j, e)
    ensures RunEnd(chars, i, e) == RunEnd(chars, j, e)
    decreases j - i
  {
    if i < j {
      RunBoundsShared(chars, i + 1, j, e);
    }
  }

  /** The collapsed branch of `onChange`. */
  function CollapsedSpec(chars: CharacterList, o: nat): Result<Selection>
    requires o <= |chars|
  {
    var prev := ListGet(chars, o - 1);
    var next := ListGet(chars, o);
    if prev.None? || next.None? || prev.value.None? || prev.value != next.value then
      Ok(Selection(o, o))
    else
      var e := prev.value.value;
      var lo := if o - 1 >= 0 then RunStart(chars, o - 1, e) else o - 1;
      var hi := RunEnd(chars, o, e);
      if hi == |chars| then Err(UndefinedRead) else Ok(Selection(lo, hi))
  }

  /** The ranged branch of `onChange`, for the selection `[s, en)`. */
  function RangedSpec(chars: CharacterList, s: nat, en: nat): Result<Selection>
    requires s < en <= |chars|
  {
    var newStart := if 0 < s && chars[s].Some? then RunStart(chars, s, chars[s].value) else s;
    if en < |chars| && chars[en].Some? then
      var hi := RunEnd(chars, en, chars[en].value);
      if hi == |chars| then Err(UndefinedRead) else Ok(Selection(newStart, hi))
    else
      Ok(Selection(newStart, en))
  }

  /** `onChange` as written: the selection it forces, or the exception a
      walk raises when it reads the character at the block's length. */
  function OnChangeSpec(chars: CharacterList, sel: Selection): Result<Selection>
    requires sel.Within(|chars|)
  {
    if sel.IsCollapsed() then CollapsedSpec(chars, sel.anchor)
    else RangedSpec(chars, sel.Start(), sel.End())
  }

  /** The handler: one branch per kind of selection, each with a backward
      and a forward walk. */
  method OnChange(chars: CharacterList, sel: Selection) returns (r: Result<Selection>)
    requires sel.Within(|chars|)
    ensures r == OnChangeSpec(chars, sel)
  {
    if sel.IsCollapsed() {
      r := OnChangeCollapsed(chars, sel.Start());
    } else {
      r := OnChangeRanged(chars, sel.Start(), sel.End());
    }
  }

  method OnChangeCollapsed(chars: CharacterList, startOffset: nat) returns (r: Result<Selection>)
    requires startOffset <= |chars|
    ensures r == CollapsedSpec(chars, startOffset)
  {
    var prevOffset := startOffset - 1;
    var prevChar := ListGet(chars, prevOffset);
    var nextChar := ListGet(chars, startOffset);
    if prevChar.None? || nextChar.None? {
      return Ok(Selection(startOffset, startOffset));
    }
    if prevChar.value.None? || prevChar.value != nextChar.value {
      return Ok(Selection(startOffset, startOffset));
    }
    var entity := prevChar.value.value;
    var finalPrevOffset := prevOffset;
    var finalNextOffset := startOffset;
    while finalPrevOffset > 0
      invariant prevOffset < 0 ==> finalPrevOffset == prevOffset
      invariant prevOffset >= 0 ==> 0 <= finalPrevOffset <= prevOffset
      invariant prevOffset >= 0 ==> chars[finalPrevOffset] == Some(entity)
      invariant prevOffset >= 0 ==> RunStart(chars, finalPrevOffset, entity) == RunStart(chars, prevOffset, entity)
      decreases finalPrevOffset
    {
      finalPrevOffset := finalPrevOffset - 1;
      if chars[finalPrevOffset] != Some(entity) {
        finalPrevOffset := finalPrevOffset + 1;
        break;
      }
    }
    var blockLength := |chars|;
    while finalNextOffset < blockLength
      invariant startOffset <= finalNextOffset < blockLength
      invariant chars[finalNextOffset] == Some(entity)
      invariant RunEnd(chars, finalNextOffset, entity) == RunEnd(chars, startOffset, entity)
      decreases blockLength - finalNextOffset
    {
      finalNextOffset := finalNextOffset + 1;
      var c := ListGet(chars, finalNextOffset);
      if c.None? {
        return Err(UndefinedRead);
      }
      if c.value != Some(entity) {
        break;
      }
    }
    r := Ok(Selection(finalPrevOffset, finalNextOffset));
  }

  method OnChangeRanged(chars: CharacterList, startOffset: nat, endOffset: nat) returns (r: Result<Selection>)
    requires startOffset < endOffset <= |chars|
    ensures r == RangedSpec(chars, startOffset, endOffset)
  {
    var selectionStart := startOffset;
    var selectionEnd := endOffset;
    var startChar := if selectionStart != 0 then ListGet(chars, selectionStart) else None;
    if startChar.Some? && startChar.value.Some? {
      var startEntity := startChar.value.value;
      while selectionStart > 0
        invariant 0 <= selectionStart <= startOffset
        invariant chars[selectionStart] == Some(startEntity)
        invariant RunStart(chars, selectionStart, startEntity) == RunStart(chars, startOffset, startEntity)
        decreases selectionStart
      {
        selectionStart := selectionStart - 1;
        if chars[selectionStart] != Some(startEntity) {
          selectionStart := selectionStart + 1;
          break;
        }
      }
    }
    var endChar := ListGet(chars, selectionEnd);
    if endChar.Some? && endChar.value.Some? {
      var endEntity := endChar.value.value;
      while selectionEnd > 0
        invariant endOffset <= selectionEnd < |chars|
        invariant chars[selectionEnd] == Some(endEntity)
        invariant RunEnd(chars, selectionEnd, endEntity) == RunEnd(chars, endOffset, endEntity)
        decreases |chars| - selectionEnd
      {
        selectionEnd := selectionEnd + 1;
        var c := ListGet(chars, selectionEnd);
        if c.None? {
          return Err(UndefinedRead);
        }
        if c.value != Some(endEntity) {
          break;
        }
      }
    }
    r := Ok(Selection(selectionStart, selectionEnd));
  }

  /** A ranged selection as written throws exactly when the character at
      its end has an entity whose run goes on to the end of the block. */
  lemma RangedOnChangeErrIff(chars: CharacterList, sel: Selection)
    requires sel.Within(|chars|) && !sel.IsCollapsed()
    ensures OnChangeSpec(chars, sel).Err? <==>
      (sel.End() < |chars| && chars[sel.End()].Some? &&
       forall k :: sel.End() <= k < |chars| ==> chars[k] == chars[sel.End()])
  {
    var en := sel.End();
    if en < |chars| && chars[en].Some? {
      var hi := RunEnd(chars, en, chars[en].value);
      if hi < |chars| {
        assert chars[hi] != chars[en];
      }
    }
  }

  /** When the handler as written returns a selection and the caret was not
      at offset 0, the new selection is forward, inside the block, and
      contains the old one. */
  lemma OnChangeWidens(chars: CharacterList, sel: Selection)
    requires sel.Within(|chars|)
    requires !(sel.IsCollapsed() && sel.anchor == 0)
    requires OnChangeSpec(chars, sel).Ok?
    ensures var r := OnChangeSpec(chars, sel).value;
      && r.Within(|chars|) && r.anchor <= r.focus
      && r.Start() <= sel.Start() && sel.End() <= r.End()
  {
  }

  /** No entity run crosses the boundary at offset `x`. */
  predicate AtRunBoundary(chars: CharacterList, x: int) {
    x <= 0 || x >= |chars| || chars[x - 1].None? || chars[x - 1] != chars[x]
  }

  /** The snapping the handler is meant to do: a caret strictly inside an
      entity run selects the whole run; a range grows to the start of the
      run its first character belongs to and to the end of the run its last
      character belongs to. Nothing is read outside the block. */
  function SnapSelection(chars: CharacterList, sel: Selection): (r: Selection)
    requires sel.Within(|chars|)
    ensures r.Within(|chars|) && r.anchor <= r.focus
    ensures r.Start() <= sel.Start() && sel.End() <= r.End()
    ensures AtRunBoundary(chars, r.Start()) && AtRunBoundary(chars, r.End())
    ensures r.Start() < sel.Start() ==> sel.Start() < |chars|
    ensures forall k :: r.Start() <= k < sel.Start() ==> chars[k].Some? && chars[k] == chars[sel.Start()]
    ensures sel.End() < r.End() ==> 0 < sel.End()
    ensures forall k :: sel.End() <= k < r.End() ==> chars[k].Some? && chars[k] == chars[sel.End() - 1]
  {
    if sel.IsCollapsed() then
      var o := sel.anchor;
      if 0 < o < |chars| && chars[o - 1].Some? && chars[o - 1] == chars[o] then
        var e := chars[o].value;
        Selection(RunStart(chars, o - 1, e), RunEnd(chars, o, e))
      else
        sel
    else
      var s, en := sel.Start(), sel.End();
      var lo := if chars[s].Some? then RunStart(chars, s, chars[s].value) else s;
      var hi := if chars[en - 1].Some? then RunEnd(chars, en - 1, chars[en - 1].value) else en;
      Selection(lo, hi)
  }

  /** A selection whose two ends are run boundaries is only turned forward. */
  lemma SnapFixesBoundaries(chars: CharacterList, sel: Selection)
    requires sel.Within(|chars|)
    requires AtRunBoundary(chars, sel.Start()) && AtRunBoundary(chars, sel.End())
    ensures SnapSelection(chars, sel) == Selection(sel.Start(), sel.End())
  {
  }

  /** Snapping twice is snapping once. */
  lemma SnapIdempotent(chars: CharacterList, sel: Selection)
    requires sel.Within(|chars|)
    ensures SnapSelection(chars, SnapSelection(chars, sel)) == SnapSelection(chars, sel)
  {
    SnapFixesBoundaries(chars, SnapSelection(chars, sel));
  }

  /** The handler as written computes the intended selection whenever it
      returns one, unless the caret sits at offset 0 or a range ends right
      before a different entity run. */
  lemma SnapAgreesWithOnChange(chars: CharacterList, sel: Selection)
    requires sel.Within(|chars|)
    requires !(sel.IsCollapsed() && sel.anchor == 0)
    requires !sel.IsCollapsed() && sel.End() < |chars| && chars[sel.End()].Some? ==>
      chars[sel.End() - 1] == chars[sel.End()]
    requires OnChangeSpec(chars, sel).Ok?
    ensures OnChangeSpec(chars, sel).value == SnapSelection(chars, sel)
  {
    if !sel.IsCollapsed() {
      var en := sel.End();
      if en < |chars| && chars[en].Some? {
        RunBoundsShared(chars, en - 1, en, chars[en].value);
      }
    }
  }

  /** Finding: the forward walk of a caret inside a run that reaches the end
      of the block reads past it. */
  lemma CollapsedWalkReadsPastEnd()
    ensures OnChangeSpec([Some("1"), Some("1")], Selection(1, 1)) == Err(UndefinedRead)
    ensures SnapSelection([Some("1"), Some("1")], Selection(1, 1)) == Selection(0, 2)
  {
  }

  /** Finding: the forward walk of a range ending inside a run that reaches
      the end of the block reads past it. */
  lemma RangedWalkReadsPastEnd()
    ensures OnChangeSpec([Some("1"), Some("1")], Selection(0, 1)) == Err(UndefinedRead)
    ensures SnapSelection([Some("1"), Some("1")], Selection(0, 1)) == Selection(0, 2)
  {
  }

  /** Finding: a caret at offset 0 compares the last character with the
      first and forces the offset -1. */
  lemma CaretAtStartWrapsAround()
    ensures OnChangeSpec([Some("1"), None, Some("1")], Selection(0, 0)) == Ok(Selection(-1, 1))
    ensures !Selection(-1, 1).Within(3)
    ensures SnapSelection([Some("1"), None, Some("1")], Selection(0, 0)) == Selection(0, 0)
  {
  }

  /** Finding: a range ending where a different entity run begins is grown
      over that run, so a second change event grows the selection again. */
  lemma EndSnapGrowsOverNextRun()
    ensures OnChangeSpec([Some("1"), Some("1"), Some("2"), Some("2"), None], Selection(1, 1)) == Ok(Selection(0, 2))
    ensures OnChangeSpec([Some("1"), Some("1"), Some("2"), Some("2"), None], Selection(0, 2)) == Ok(Selection(0, 4))
    ensures SnapSelection([Some("1"), Some("1"), Some("2"), Some("2"), None], Selection(0, 2)) == Selection(0, 2)
  {
  }

  /** A caret with no entity on either side is left where it is. */
  lemma CaretOutsideEntitiesUnchanged(chars: CharacterList, o: nat)
    requires o <= |chars|
    requires 0 < o ==> chars[o - 1].None?
    requires o < |chars| ==> chars[o].None?
    ensures OnChangeSpec(chars, Selection(o, o)) == Ok(Selection(o, o))
    ensures SnapSelection(chars, Selection(o, o)) == Selection(o, o)
  {
  }

  /** Offsets 3 to 6 carry one entity and the caret is at 5: the whole run
      `[3, 7)` is selected. */
  lemma CaretSnapExample()
    ensures var chars: CharacterList := [None, None, None, Some("E"), Some("E"), Some("E"), Some("E"), None, None];
      OnChangeSpec(chars, Selection(5, 5)) == Ok(Selection(3, 7))
  {
    var chars: CharacterList := [None, None, None, Some("E"), Some("E"), Some("E"), Some("E"), None, None];
    assert RunStart(chars, 4, "E") == 3;
    assert RunEnd(chars, 5, "E") == 7;
  }
}
