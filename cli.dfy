/** The checks `parse_args` makes after parsing: the day range, then the choice of time filter
    from `--before` and `--after`. */
module Cli {
  import opened Wrappers
  import opened Trips

  /** Why the command line is refused (argparse's `parser.error`). */
  datatype ArgError = DaysOutOfRange(days: int) | BothTimeFilters

  /** A flag counts as given when it is present and non-empty (Python truthiness). */
  predicate Given(flag: Option<string>)
  {
    flag.Some? && flag.value != ""
  }

  /** The time filter for the two flags: an error when both are given, otherwise a `before`
      or an `after` filter carrying the flag's text, or none. */
  function TimeFilterChoice(before: Option<string>, after: Option<string>): (r: Result<Option<TimeFilter>, ArgError>)
    ensures r.Failure? <==> Given(before) && Given(after)
    ensures r.Failure? ==> r.error == BothTimeFilters
    ensures r == Success(None) <==> !Given(before) && !Given(after)
    ensures r.Success? && r.value.Some? ==>
      || (Given(before) && r.value.value == TimeFilter("before", before.value))
      || (Given(after) && r.value.value == TimeFilter("after", after.value))
  {
    if Given(before) && Given(after) then Failure(BothTimeFilters)
    else if Given(before) then Success(Some(TimeFilter("before", before.value)))
    else if Given(after) then Success(Some(TimeFilter("after", after.value)))
    else Success(None)
  }

  /** The checks of `parse_args` in their order: the command line is refused exactly when the
      day is out of range or both flags are given, and an out-of-range day is the error reported
      even when both flags are given too. A filter that is chosen is a `before` or an `after`
      filter carrying the text of the one flag given; no filter is chosen when neither is. */
  function ParseArgs(days: int, before: Option<string>, after: Option<string>): (r: Result<Option<TimeFilter>, ArgError>)
    ensures r.Failure? <==> !(0 <= days <= 15) || (Given(before) && Given(after))
    ensures !(0 <= days <= 15) ==> r.Failure? && r.error == DaysOutOfRange(days)
    ensures 0 <= days <= 15 && r.Failure? ==> r.error == BothTimeFilters
    ensures r == Success(None) <==> 0 <= days <= 15 && !Given(before) && !Given(after)
    ensures r.Success? && r.value.Some? ==>
      var f := r.value.value;
      && (f.kind == "before" || f.kind == "after")
      && (f.kind == "before" ==> Given(before) && !Given(after) && f.value == before.value)
      && (f.kind == "after" ==> Given(after) && !Given(before) && f.value == after.value)
  {
    if !(0 <= days <= 15) then Failure(DaysOutOfRange(days))
    else TimeFilterChoice(before, after)
  }
}
