/** The guards that the abstract base class `LinearList` gives every list container. */
module LinearList {
  import opened Errors

  /** `check_index(index, end)`: an element position must be below `size`; with `end` set
      the append position `size` is accepted too. Anything else throws `out_of_range`. */
  function CheckIndex(index: nat, size: nat, end: bool): (r: Outcome)
    ensures r == Pass <==> index < size || (end && index == size)
    ensures r != Pass ==> r == Fail(OutOfRange("out of range"))
  {
    if (!end && index >= size) || (end && index > size) then Fail(OutOfRange("out of range"))
    else Pass
  }

  /** `check_empty()`: throws `runtime_error` exactly when the container is empty. */
  function CheckEmpty(size: nat): (r: Outcome)
    ensures r != Pass <==> size == 0
    ensures r != Pass ==> r.error.RuntimeError?
  {
    if size == 0 then Fail(RuntimeError("empty!")) else Pass
  }

  /** The append position is rejected for element access but accepted for insertion, and
      every position past it is rejected in both modes. */
  lemma CheckIndexModes(size: nat, index: nat)
    ensures CheckIndex(size, size, false).Fail?
    ensures CheckIndex(size, size, true) == Pass
    ensures index > size ==> CheckIndex(index, size, false).Fail? && CheckIndex(index, size, true).Fail?
  {
  }
}
