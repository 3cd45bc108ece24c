/**
 * The top-song lookup of src/app.py lines 60-61: the row whose stream count
 * is largest, skipping cells that hold no number.
 */
module Report {
  import opened Wrappers
  import opened Frames

  /**
   * The position of the first largest number among `values`; `None` when no
   * cell holds a number (where the script's lookup fails).
   */
  method TopRow(values: seq<Cell>) returns (top: Option<nat>)
    ensures top.None? <==> forall j :: 0 <= j < |values| ==> !values[j].Number?
    ensures top.Some? ==> top.value < |values| && values[top.value].Number?
    ensures top.Some? ==> forall j :: 0 <= j < |values| && values[j].Number? ==> values[j].x <= values[top.value].x
    ensures top.Some? ==> forall j :: 0 <= j < top.value && values[j].Number? ==> values[j].x < values[top.value].x
  {
    top := None;
    for i := 0 to |values|
      invariant top.None? <==> forall j :: 0 <= j < i ==> !values[j].Number?
      invariant top.Some? ==> top.value < i && values[top.value].Number?
      invariant top.Some? ==> forall j :: 0 <= j < i && values[j].Number? ==> values[j].x <= values[top.value].x
      invariant top.Some? ==> forall j :: 0 <= j < top.value && values[j].Number? ==> values[j].x < values[top.value].x
    {
      if values[i].Number? && (top.None? || values[i].x > values[top.value].x) {
        top := Some(i);
      }
    }
  }
}
