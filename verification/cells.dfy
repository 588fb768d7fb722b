/** The scalar values of a trial record. */
module Cells {
  import opened Results

  /** One scalar of the trial record. Python treats `3 == 3.0` as true, both
      in `unique()` and in dictionary lookups, so a single numeric case over
      exact reals stands for MATLAB's integers and doubles alike. */
  datatype Cell = Num(v: real) | Text(s: string)

  /** A table entry: `None` is a missing value. */
  type Entry = Option<Cell>

  /** The value the trial record uses for "not recorded". */
  const Sentinel: Cell := Num(-1.0)

  predicate IsInteger(v: real) {
    v.Floor as real == v
  }

  /** The integer dictionary key an entry selects. Python finds the key `k`
      for the value `k` or `k.0`, and nothing for NaN, a fraction or text. */
  function CodeOf(e: Entry): (r: Option<int>)
    ensures r.Some? <==> e.Some? && e.value.Num? && IsInteger(e.value.v)
    ensures r.Some? ==> e == Some(Num(r.value as real))
  {
    if e.Some? && e.value.Num? && IsInteger(e.value.v) then Some(e.value.v.Floor) else None
  }

  /** The number an entry holds, as comparisons and means see it; missing
      and text entries give `None`. */
  function NumKey(e: Entry): Option<real> {
    if e.Some? && e.value.Num? then Some(e.value.v) else None
  }

  /** No entry of the column is text. */
  predicate NoText(col: seq<Entry>) {
    forall i :: 0 <= i < |col| ==> !(col[i].Some? && col[i].value.Text?)
  }
}
