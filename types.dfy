/** The shared records of the application (types.ts). */
module Types {
  import opened Wrappers

  /** One input row: the two names to compare. */
  datatype RowData = RowData(original: string, duplicates: string)

  /** The three-valued verdict. */
  datatype AnalysisStatus = Same | Different | Error

  /** A row extended with the classifier's verdict; `correctName` is optional
      in the record type, although the driver always fills it in. */
  datatype AnalysisResult = AnalysisResult(
    original: string,
    duplicates: string,
    status: AnalysisStatus,
    correctName: Option<string>)

  /** The `uri`/`title` pair of a grounding citation. */
  datatype SourceRef = SourceRef(uri: string, title: string)

  /** A citation returned with a classification: either part may be absent. */
  datatype GroundingChunk = GroundingChunk(web: Option<SourceRef>, maps: Option<SourceRef>)

  /** The string value of each enum member. */
  function StatusText(s: AnalysisStatus): string {
    match s
    case Same => "SAME"
    case Different => "DIFFERENT"
    case Error => "ERROR"
  }
}
