/** The outcome of one validation run. */
module Report {

  /** `ValidationReport`: `errorsCount` and `ok` are derived from `errors`. */
  datatype ValidationReport<E> = ValidationReport(
    filesScanned: nat,
    errorsCount: nat,
    ok: bool,
    errors: seq<E>)

  /** The derived fields agree with the error list. */
  predicate Consistent<E>(r: ValidationReport<E>) {
    && r.errorsCount == |r.errors|
    && (r.ok <==> |r.errors| == 0)
  }

  /** Builds a report the way the end of `validate_fs` does, deriving count and verdict. */
  function BuildReport<E>(filesScanned: nat, errors: seq<E>): (r: ValidationReport<E>)
    ensures Consistent(r)
    ensures r.filesScanned == filesScanned && r.errors == errors
  {
    ValidationReport(filesScanned, |errors|, |errors| == 0, errors)
  }

  /** In a consistent report the verdict and the count say the same thing. */
  lemma {:induction false} OkIffNoErrorsCounted<E>(r: ValidationReport<E>)
    requires Consistent(r)
    ensures r.ok <==> r.errorsCount == 0
  {
  }
}
