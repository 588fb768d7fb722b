/** Optional values and failure-carrying results for the trial-table conversion.

    The conversion is fail-fast: a missing column, a code with no dictionary
    entry or arithmetic on text aborts the whole run. The model returns the
    first such failure as an `Err` instead of raising it. */
module Results {

  /** An optional value; as a table entry, `None` is pandas' NaN ("missing"). */
  datatype Option<+T> = None | Some(value: T)

  /** The failures the conversion can raise. */
  datatype Error =
    /** A column label that is not in the table (pandas `KeyError`, or the
        `AttributeError` of the attribute access `df.TimeTrialStart`). */
    | MissingColumn(name: string)
    /** A code in `column` at `row` with no entry in its lookup dictionary. */
    | UnknownCode(column: string, row: nat)
    /** `TypeCond[index]` is not one of the three known condition types. */
    | UnknownConditionType(index: nat)
    /** Text where arithmetic or an ordering needs a number (`TypeError`). */
    | NotNumeric(column: string, row: nat)

  datatype Result<+T> = Ok(value: T) | Err(error: Error) {

    predicate IsFailure() {
      Err?
    }

    function PropagateFailure<U>(): Result<U>
      requires Err?
    {
      Err(error)
    }

    function Extract(): T
      requires Ok?
    {
      value
    }
  }
}
