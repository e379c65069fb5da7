/** The field checks shared by the two Pydantic model files
    (Models/simple_models.py and Models/artifact_models.py): the `page_range`
    validator, which both files define identically, and the bounds on a
    match score.

    Constructing a Pydantic model checks every field and reports every
    failing one, in declaration order; `Result` carries either the built
    record or that list of field errors. */
module Validation {
  import opened Domain

  datatype MatchStatus = Pending | Merged | Rejected

  /** A calendar date, already parsed. */
  datatype Date = Date(year: int, month: int, day: int)

  /** What went wrong with one field. */
  datatype ErrorKind =
    | ValueError(message: string)            // raised by a field validator
    | Missing                                // a required field was not given
    | GreaterThanEqual(lowerBound: real)     // `Field(ge=...)` failed
    | LessThanEqual(upperBound: real)        // `Field(le=...)` failed

  datatype FieldError = FieldError(field: string, kind: ErrorKind)

  datatype Result<T> = Ok(value: T) | Err(errors: seq<FieldError>)

  /** A plain function that returns its argument or raises `ValueError`. */
  datatype Checked<T> = Returned(value: T) | Raised(message: string)

  const PageRangeMessage := "page_range must be [start, end] with start <= end"

  /** An absent span, or a start page no later than the end page. */
  predicate WellFormedPageRange(p: seq<int>)
  {
    p == [] || (|p| == 2 && p[0] <= p[1])
  }

  /** `_ensure_page_range` (simple_models.py:36-41, artifact_models.py:19-24). */
  function EnsurePageRange(value: seq<int>): (r: Checked<seq<int>>)
    ensures r.Returned? <==> WellFormedPageRange(value)
    ensures r.Returned? ==> r.value == value
    ensures r.Raised? ==> r.message == PageRangeMessage
  {
    if |value| == 0 then Returned(value)
    else if |value| != 2 || value[0] > value[1] then Raised(PageRangeMessage)
    else Returned(value)
  }

  /** A value the validator accepted is accepted again, unchanged. */
  lemma EnsurePageRangeIdempotent(value: seq<int>)
    requires EnsurePageRange(value).Returned?
    ensures EnsurePageRange(EnsurePageRange(value).value) == EnsurePageRange(value)
  {
  }

  /** The boundary cases: the empty list and a one-page span are accepted;
      any other length, or an inverted pair, raises. */
  lemma EnsurePageRangeCases(n: int, m: int, p: seq<int>)
    ensures EnsurePageRange([]) == Returned([])
    ensures EnsurePageRange([n, n]) == Returned([n, n])
    ensures n > m ==> EnsurePageRange([n, m]) == Raised(PageRangeMessage)
    ensures |p| != 0 && |p| != 2 ==> EnsurePageRange(p) == Raised(PageRangeMessage)
  {
  }

  /** The validator attached to a `page_range` field, as a field error. A
      field left at its default (the empty list) is not validated; it is
      well formed anyway. */
  function PageRangeErrors(pageRange: Option<seq<int>>): (errs: seq<FieldError>)
    ensures errs == [] <==> pageRange.None? || WellFormedPageRange(pageRange.value)
    ensures errs != [] ==> errs == [FieldError("page_range", ValueError(PageRangeMessage))]
  {
    if pageRange.None? then []
    else
      match EnsurePageRange(pageRange.value)
      case Returned(_) => []
      case Raised(msg) => [FieldError("page_range", ValueError(msg))]
  }

  /** The value a `page_range` field ends up holding. */
  function PageRangeValue(pageRange: Option<seq<int>>): seq<int>
  {
    if pageRange.None? then [] else pageRange.value
  }

  /** `similarity_score: Decimal = Field(ge=0, le=1)`. */
  function ScoreErrors(score: real): (errs: seq<FieldError>)
    ensures errs == [] <==> 0.0 <= score <= 1.0
    ensures |errs| <= 1
  {
    if score < 0.0 then [FieldError("similarity_score", GreaterThanEqual(0.0))]
    else if score > 1.0 then [FieldError("similarity_score", LessThanEqual(1.0))]
    else []
  }

  /** `status: MatchStatus = MatchStatus.PENDING`. */
  function StatusOrDefault(status: Option<MatchStatus>): MatchStatus
  {
    if status.None? then Pending else status.value
  }
}
