/** Editor-protocol value types shared by every file handler: positions,
    ranges, severities and diagnostics, plus the Option wrapper that stands
    for the source's `undefined`/`null` results. */
module Protocol {

  datatype Option<T> = None | Some(value: T)

  /** A cursor position: zero-based line and character. */
  datatype Position = Position(line: int, character: int)

  /** A character range (startLine, startChar, endLine, endChar). */
  datatype Range = Range(start: Position, end: Position)

  function MkRange(sl: int, sc: int, el: int, ec: int): Range
  {
    Range(Position(sl, sc), Position(el, ec))
  }

  /** Diagnostic severities with the protocol's numeric codes. */
  datatype Severity = Error | Warning | Information | Hint

  function SeverityCode(s: Severity): (code: int)
    ensures 1 <= code <= 4
  {
    match s
    case Error => 1
    case Warning => 2
    case Information => 3
    case Hint => 4
  }

  /** The `data` slot of a diagnostic: absent, a string (quick-fix text) or anything else. */
  datatype DiagData = NoData | StringData(text: string) | OtherData

  datatype Diagnostic = Diagnostic(severity: Severity, range: Range, message: string, data: DiagData)

  /** A place in a file: the path of the file and a range in it. */
  datatype Location = Location(path: string, range: Range)

  /** A folding range from `startLine` to `endLine` inclusive. */
  datatype FoldingRange = FoldingRange(startLine: int, endLine: int)

  /** The kinds of completion item the server offers. */
  datatype CompletionItemKind = FunctionItem

  /** A completion offer: the text offered (the protocol's `label`) and its kind. */
  datatype CompletionItem = CompletionItem(text: string, kind: CompletionItemKind)
}
