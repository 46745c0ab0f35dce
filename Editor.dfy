/** The slice of the host editor's selection the plugin reads and forces:
    one block, so a selection is its anchor and focus offsets. Offsets are
    integers because the plugin can force a negative one. */
module Editor {

  datatype Selection = Selection(anchor: int, focus: int) {

    /** `isCollapsed()` within one block. */
    predicate IsCollapsed() {
      anchor == focus
    }

    /** `getStartOffset()`: the smaller of the two offsets. */
    function Start(): int {
      if anchor <= focus then anchor else focus
    }

    /** `getEndOffset()`: the larger of the two offsets. */
    function End(): int {
      if anchor <= focus then focus else anchor
    }

    /** Both offsets lie within a block of `length` characters. */
    predicate Within(length: nat) {
      0 <= anchor <= length && 0 <= focus <= length
    }
  }
}
