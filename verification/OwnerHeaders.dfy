/** The header catalogues of the formatter's owners (src/sql_text.rs). */
module OwnerHeaders {
  datatype OwnerKind =
    | AnalyticOver
    | WithinGroup
    | Keep
    | ModelSubclause
    | Window
    | MatchRecognize
    | Pivot
    | Unpivot
    | StructuredColumns
    | PropertyGraphTables

  type Catalogue = seq<seq<string>>

  predicate IsCapitals(word: string) {
    word != "" && forall i :: 0 <= i < |word| ==> 'A' <= word[i] <= 'Z'
  }

  type UpperWord = word: string | IsCapitals(word) witness "A"

  type UpperHeader = header: seq<UpperWord> | header != [] witness ["A"]

  // Long catalogues are cut into parts, in the order of the source.

  function WindowHeaders(): seq<UpperHeader> {
    [["PARTITION", "BY"], ["ORDER", "BY"], ["ROWS"], ["RANGE"], ["GROUPS"], ["EXCLUDE"]]
  }

  function ModelClauses(): seq<UpperHeader> {
    [["PARTITION", "BY"], ["DIMENSION", "BY"], ["MEASURES"], ["REFERENCE"], ["RULES"], ["UPDATE"], ["UPSERT"], ["UPSERT", "ALL"]]
  }

  function ModelOptions(): seq<UpperHeader> {
    [["AUTOMATIC", "ORDER"], ["SEQUENTIAL", "ORDER"], ["ITERATE"], ["UNTIL"], ["IGNORE", "NAV"], ["KEEP", "NAV"]]
  }

  function ModelReturns(): seq<UpperHeader> {
    [["UNIQUE", "DIMENSION"], ["UNIQUE", "SINGLE", "REFERENCE"], ["RETURN", "ALL", "ROWS"], ["RETURN", "UPDATED", "ROWS"]]
  }

  function MatchClauses(): seq<UpperHeader> {
    [["PARTITION", "BY"], ["ORDER", "BY"], ["MEASURES"], ["ONE", "ROW", "PER", "MATCH"], ["ALL", "ROWS", "PER", "MATCH"]]
  }

  function MatchOptions(): seq<UpperHeader> {
    [["WITH", "UNMATCHED", "ROWS"], ["WITHOUT", "UNMATCHED", "ROWS"], ["SHOW", "EMPTY", "MATCHES"], ["OMIT", "EMPTY", "MATCHES"]]
  }

  function MatchEnding(): seq<UpperHeader> {
    [["AFTER", "MATCH", "SKIP"], ["SUBSET"], ["PATTERN"], ["DEFINE"]]
  }

  function PropertyGraphHeaders(): seq<UpperHeader> {
    [["KEY"], ["SOURCE", "KEY"], ["DESTINATION", "KEY"], ["LABEL"], ["PROPERTIES"]]
  }

  /** Every catalogue but that of `Keep` is made of upper-case words only. */
  function UpperHeaders(kind: OwnerKind): seq<UpperHeader>
    requires kind != Keep
  {
    match kind
    case AnalyticOver | Window => WindowHeaders()
    case WithinGroup => [["ORDER", "BY"]]
    case ModelSubclause => ModelClauses() + ModelOptions() + ModelReturns()
    case MatchRecognize => MatchClauses() + MatchOptions() + MatchEnding()
    case Pivot | Unpivot => [["FOR", "IN"]]
    case StructuredColumns => [["NESTED", "PATH", "COLUMNS"], ["NESTED", "COLUMNS"]]
    case PropertyGraphTables => PropertyGraphHeaders()
  }

  function SplitBodyHeaderSequences(kind: OwnerKind): Catalogue {
    if kind == Keep then [["DENSE_RANK", "FIRST", "ORDER", "BY"], ["DENSE_RANK", "LAST", "ORDER", "BY"]]
    else UpperHeaders(kind)
  }

  function FreeformIndices(kind: OwnerKind): set<nat> {
    match kind
    case AnalyticOver | Window => {2, 3, 4, 5}
    case MatchRecognize => {9}
    case _ => {}
  }
}
