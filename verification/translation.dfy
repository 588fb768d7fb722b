/** Translation of the outcome and condition codes into labels
    (embargo22abehaviorinterface.py, lines 71-74). */
module Translation {
  import opened Results
  import opened Cells
  import opened Text
  import opened Tables
  import opened Lookups

  /** The entry holds a whole number that `labels` has a label for. */
  predicate Known(e: Entry, labels: map<int, string>) {
    CodeOf(e).Some? && CodeOf(e).value in labels
  }

  /** The labels of `col[i..]`, failing at the first row whose code has no
      label (a `KeyError`: a missing entry, text or an unlisted number). */
  function RelabelFrom(col: seq<Entry>, labels: map<int, string>, column: string, i: nat): (r: Result<seq<Entry>>)
    requires i <= |col|
    decreases |col| - i
    ensures r.Ok? <==> forall k :: i <= k < |col| ==> Known(col[k], labels)
    ensures r.Ok? ==> |r.value| == |col| - i
    ensures r.Ok? ==> forall k :: i <= k < |col| ==>
              Known(col[k], labels) && r.value[k - i] == Some(Text(labels[CodeOf(col[k]).value]))
    ensures r.Err? ==> r.error.UnknownCode? && r.error.column == column && i <= r.error.row < |col|
    ensures r.Err? ==> !Known(col[r.error.row], labels)
    ensures r.Err? ==> forall k :: i <= k < r.error.row ==> Known(col[k], labels)
  {
    if i == |col| then Ok([])
    else if !Known(col[i], labels) then Err(UnknownCode(column, i))
    else
      var rest :- RelabelFrom(col, labels, column, i + 1);
      Ok([Some(Text(labels[CodeOf(col[i]).value]))] + rest)
  }

  /** Every label lowercased, as `.lower()` is applied to each looked-up outcome. */
  function LowerLabels(labels: map<int, string>): (r: map<int, string>)
    ensures r.Keys == labels.Keys
    ensures forall c :: c in r ==> r[c] == Lower(labels[c])
  {
    map c | c in labels :: Lower(labels[c])
  }

  /** Lines 71-74: `Outcome` becomes the lowercased label of its number and a
      `condition type` column holds the description of each row's
      `CurrCond`; every other column is untouched. A missing column or an
      unlisted code fails, the `Outcome` column first. */
  function Translate(t: Table, lk: Lookups): (r: Result<Table>)
    requires Wf(t)
    ensures r.Ok? <==>
              && "Outcome" in t.cols && "CurrCond" in t.cols
              && (forall i :: 0 <= i < t.height ==> Known(t.cols["Outcome"][i], lk.outcomeOf))
              && (forall i :: 0 <= i < t.height ==> Known(t.cols["CurrCond"][i], lk.conditionOf))
    ensures "Outcome" !in t.cols ==> r == Err(MissingColumn("Outcome"))
    ensures r.Err? && "Outcome" in t.cols && r.error.UnknownCode? ==> r.error.column in {"Outcome", "CurrCond"}
    ensures r.Ok? ==> Wf(r.value) && r.value.height == t.height
    ensures r.Ok? ==> forall n :: n in r.value.cols <==> n in t.cols || n == "condition type"
    ensures r.Ok? ==> "Outcome" in r.value.cols && "condition type" in r.value.cols
    ensures r.Ok? ==> forall i :: 0 <= i < t.height ==>
              r.value.cols["Outcome"][i] == Some(Text(Lower(lk.outcomeOf[CodeOf(t.cols["Outcome"][i]).value])))
    ensures r.Ok? ==> forall i :: 0 <= i < t.height ==>
              r.value.cols["condition type"][i] == Some(Text(lk.conditionOf[CodeOf(t.cols["CurrCond"][i]).value]))
    ensures r.Ok? ==> forall n :: n in t.cols && n != "Outcome" && n != "condition type" ==> r.value.cols[n] == t.cols[n]
  {
    if "Outcome" !in t.cols then Err(MissingColumn("Outcome"))
    else
      var outcomes :- RelabelFrom(t.cols["Outcome"], LowerLabels(lk.outcomeOf), "Outcome", 0);
      var t1 := SetColumn(t, "Outcome", outcomes);
      if "CurrCond" !in t1.cols then Err(MissingColumn("CurrCond"))
      else
        var conditions :- RelabelFrom(t1.cols["CurrCond"], lk.conditionOf, "CurrCond", 0);
        Ok(SetColumn(t1, "condition type", conditions))
  }
}
