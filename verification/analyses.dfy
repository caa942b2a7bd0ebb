/** One clause analysis as the analysis service returns it and as the
    redline engine consumes it (the engine calls it a "change"). Only the
    fields the modelled logic reads are kept. */
module Analyses {
  import opened Results

  datatype Analysis = Analysis(
    id: string,                  // may be empty until ids are defaulted
    clause: string,
    severity: string,            // "RED", "YELLOW" or "GREEN" when well-formed
    searchText: Option<string>,  // `location?.searchText`; None when absent
    delete: string,              // `redline.delete`; "" when absent or empty
    insert: string               // `redline.insert`; "" when absent or empty
  )

  /** JavaScript truthiness of a string field. */
  predicate Truthy(s: string)
  {
    |s| > 0
  }

  /** Neither side of the redline carries text: the engine skips it. */
  predicate IsNoop(a: Analysis)
  {
    !Truthy(a.delete) && !Truthy(a.insert)
  }

  /** The analysis offers a deletion, so the review screen shows its
      accept/reject buttons. */
  predicate HasDeletion(a: Analysis)
  {
    Truthy(a.delete)
  }

  /** Number of analyses whose severity is exactly `sev`. */
  function CountSeverity(list: seq<Analysis>, sev: string): (n: nat)
    ensures n <= |list|
  {
    if |list| == 0 then 0
    else CountSeverity(list[..|list| - 1], sev) + (if list[|list| - 1].severity == sev then 1 else 0)
  }
}
