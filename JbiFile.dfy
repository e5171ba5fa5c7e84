/** The JBI job-file handler: a job has `//<name>` section headers (`//NAME`,
    `//POS`, `//INST`, ...) and its instructions under `//INST`. The handler
    answers go-to-definition for job names, labels, C-variables, I/O signals
    and variables; hovers on INST lines; and diagnostics for unknown
    commands and out-of-range timer tags. */
module JbiFiles {

  import opened Protocol
  import opened Util
  import opened OrderedMaps
  import opened SectionedDocuments
  import opened Sectioner
  import opened RobotControllerFiles
  import opened Translations
  import opened JbiPatterns

  // ---------------------------------------------------------------------
  // Sections

  /** What every recorded section looks like: its header line starts with
      `//` but not `///` and names the section; no line of its contents
      starts with `//`. */
  ghost predicate JobSection(lines: seq<string>, name: string, s: Section)
  {
    var h := s.header.start;
    && 0 <= h < s.contents.start < s.contents.end <= |lines|
    && StartsWith(lines[h], "//") && !StartsWith(lines[h], "///")
    && ExtractSectionName(lines[h]) == name && name != ""
    && forall k :: s.contents.start <= k < s.contents.end ==> !StartsWith(lines[k], "//")
  }

  lemma SectionsOfJob(lines: seq<string>, name: string)
    requires name in Sections(Jbi, lines).entries
    ensures JobSection(lines, name, Sections(Jbi, lines).entries[name])
  {
    var m := Sections(Jbi, lines);
    var cls := Classes(Jbi, lines);
    var s := m.entries[name];
    SectionsWellFormed(Jbi, lines);
    assert GoodSection(Jbi, cls, name, s, |lines|);
    ClassAt(Jbi, lines, s.header.start);
    forall k | s.contents.start <= k < s.contents.end
      ensures !StartsWith(lines[k], "//")
    {
      assert !Breaks(cls[k]);
      ClassAt(Jbi, lines, k);
    }
  }

  // ---------------------------------------------------------------------
  // searchText, searchLabelRange and searchCvariable

  /** A line pattern as its first match in a line: (index, end). */
  type LineSearch = string -> Option<(nat, nat)>

  /** `workspace.searchText` over lines [i, end): the first line the pattern
      matches, as the range of that match. */
  function SearchText(lines: seq<string>, find: LineSearch, i: nat, end: int): (r: Option<Range>)
    ensures r.Some? ==> var l := r.value.start.line;
      && i <= l < end && l < |lines| && find(lines[l]).Some?
      && r.value == MkRange(l, find(lines[l]).value.0, l, find(lines[l]).value.1)
      && forall k :: i <= k < l ==> find(lines[k]).None?
    ensures r.None? ==> forall k :: i <= k < end && k < |lines| ==> find(lines[k]).None?
    decreases end - i
  {
    if i >= end || i >= |lines| then None
    else match find(lines[i])
      case Some((p, e)) => Some(MkRange(i, p, i, e))
      case None => SearchText(lines, find, i + 1, end)
  }

  /** The label at p, then a word boundary. */
  predicate LabelFits(text: string, p: nat, labelText: string)
  {
    Prefixed(text, p, labelText) && Boundary(text, p + |labelText|)
  }

  /** Leftmost p in [i, w] where the label fits. */
  function LabelFrom(text: string, labelText: string, i: nat, w: nat): (r: Option<nat>)
    ensures r.Some? ==> i <= r.value <= w && LabelFits(text, r.value, labelText)
    ensures r.Some? ==> forall p :: i <= p < r.value ==> !LabelFits(text, p, labelText)
    ensures r.None? ==> forall p :: i <= p <= w ==> !LabelFits(text, p, labelText)
    decreases w - i
  {
    if i > w then None
    else if LabelFits(text, i, labelText) then Some(i)
    else LabelFrom(text, labelText, i + 1, w)
  }

  /** `(?<=^\s*)<label>\b`: the label after nothing but blanks, then a word
      boundary. */
  function LabelLineMatch(text: string, labelText: string): (r: Option<(nat, nat)>)
    ensures r.Some? ==> var (p, e) := r.value;
      && e == p + |labelText| <= |text| && Blanks(text, 0, p) && LabelFits(text, p, labelText)
      && forall q :: 0 <= q < p ==> !LabelFits(text, q, labelText)
    ensures r.None? ==> forall q :: 0 <= q <= BlankRun(text, 0) ==> !LabelFits(text, q, labelText)
  {
    BlankRunSpec(text, 0);
    match LabelFrom(text, labelText, 0, BlankRun(text, 0))
    case Some(p) => Some((p, p + |labelText|))
    case None => None
  }

  function LabelLine(labelText: string): LineSearch
  {
    (text: string) => LabelLineMatch(text, labelText)
  }

  /** Number of characters before the next line terminator (what `.*` takes). */
  function LineRun(s: string, i: nat): (k: nat)
    requires i <= |s|
    ensures i + k <= |s|
    ensures forall j :: i <= j < i + k ==> !IsLineTerminator(s[j])
    ensures i + k == |s| || IsLineTerminator(s[i + k])
    decreases |s| - i
  {
    if i == |s| || IsLineTerminator(s[i]) then 0 else 1 + LineRun(s, i + 1)
  }

  /** `^C0*<n>\b.*`: `C` at the start, digits worth n (any leading zeros)
      that end on a word boundary, and the rest of the line. */
  function CvarLineMatch(text: string, n: nat): (r: Option<(nat, nat)>)
    ensures r.Some? ==> r.value.0 == 0 && r.value.1 <= |text|
  {
    if |text| == 0 || text[0] != 'C' then None
    else
      var d := DigitsAt(text, 1);
      if d > 0 && DigitsValue(text[1..1 + d]) == n && !WordAt(text, 1 + d)
      then Some((0, 1 + d + LineRun(text, 1 + d)))
      else None
  }

  function CvarLine(n: nat): LineSearch
  {
    (text: string) => CvarLineMatch(text, n)
  }

  /** `n` zeros. */
  function Zeros(n: nat): (r: string)
    ensures |r| == n && AllDigits(r)
  {
    if n == 0 then "" else Zeros(n - 1) + "0"
  }

  lemma {:induction false} ZerosValue(z: nat)
    ensures DigitsValue(Zeros(z)) == 0
  {
    if z > 0 {
      assert Zeros(z)[..z - 1] == Zeros(z - 1);
      ZerosValue(z - 1);
    }
  }

  lemma {:induction false} PaddedValue(z: nat, digits: string)
    requires AllDigits(digits)
    ensures AllDigits(Zeros(z) + digits) && DigitsValue(Zeros(z) + digits) == DigitsValue(digits)
    decreases |digits|
  {
    var s := Zeros(z) + digits;
    if digits == [] {
      assert s == Zeros(z);
      ZerosValue(z);
    } else {
      assert s[..|s| - 1] == Zeros(z) + digits[..|digits| - 1];
      PaddedValue(z, digits[..|digits| - 1]);
    }
  }

  /** The C-variable line pattern finds `C`, the number with any count of
      leading zeros, and whatever follows a non-word character. */
  lemma CvarLineFindsPadded(n: nat, z: nat, rest: string)
    requires rest == [] || !IsWordChar(rest[0])
    requires forall j :: 0 <= j < |rest| ==> !IsLineTerminator(rest[j])
    ensures var text := "C" + (Zeros(z) + NatToString(n)) + rest;
      CvarLineMatch(text, n) == Some((0 as nat, |text| as nat))
  {
    var digits := Zeros(z) + NatToString(n);
    PaddedValue(z, NatToString(n));
    var text := "C" + digits + rest;
    CvarTextShape(digits, rest);
    CvarDigits(text, 1 + |digits|, n);
  }

  lemma CvarTextShape(digits: string, rest: string)
    requires |digits| > 0 && AllDigits(digits)
    requires rest == [] || !IsWordChar(rest[0])
    requires forall j :: 0 <= j < |rest| ==> !IsLineTerminator(rest[j])
    ensures var text := "C" + digits + rest; var e := 1 + |digits|;
      && text[0] == 'C' && text[1..e] == digits
      && (forall j :: 1 <= j < e ==> IsDigit(text[j]))
      && (e == |text| || !IsWordChar(text[e]))
      && (forall j :: e <= j < |text| ==> !IsLineTerminator(text[j]))
  {
    var text := "C" + digits + rest;
    var e := 1 + |digits|;
    assert text[1..e] == digits;
    forall j | 1 <= j < e ensures IsDigit(text[j]) {
      assert text[j] == digits[j - 1];
    }
    forall j | e <= j < |text| ensures !IsLineTerminator(text[j]) {
      assert text[j] == rest[j - e];
    }
    assert e < |text| ==> text[e] == rest[0];
  }

  /** `C`, a digit run worth n up to e, then a non-word character and the
      rest of the line: the C-variable pattern takes the whole line. */
  lemma CvarDigits(text: string, e: nat, n: nat)
    requires 1 < e <= |text| && text[0] == 'C'
    requires forall j :: 1 <= j < e ==> IsDigit(text[j])
    requires AllDigits(text[1..e]) && DigitsValue(text[1..e]) == n
    requires e == |text| || !IsWordChar(text[e])
    requires forall j :: e <= j < |text| ==> !IsLineTerminator(text[j])
    ensures CvarLineMatch(text, n) == Some((0 as nat, |text| as nat))
  {
    DigitsAtRun(text, 1, e - 1);
    LineRunToEnd(text, e);
  }

  lemma {:induction false} LineRunToEnd(s: string, i: nat)
    requires i <= |s|
    requires forall j :: i <= j < |s| ==> !IsLineTerminator(s[j])
    ensures LineRun(s, i) == |s| - i
    decreases |s| - i
  {
    if i < |s| {
      LineRunToEnd(s, i + 1);
    }
  }

  /** The first line of a section's contents the pattern matches. */
  function SearchSection(lines: Option<seq<string>>, name: string, find: LineSearch): (r: Option<Range>)
    ensures r.Some? ==> var l := r.value.start.line;
      && lines.Some? && name in Sections(Jbi, lines.value).entries
      && InContents(Sections(Jbi, lines.value).entries[name], l)
      && 0 <= l < |lines.value| && find(lines.value[l]).Some?
      && r.value == MkRange(l, find(lines.value[l]).value.0, l, find(lines.value[l]).value.1)
  {
    match DocumentSections(Jbi, lines)
    case None => None
    case Some(m) =>
      if name !in m.entries then None
      else
        var s := m.entries[name];
        if s.contents.start < 0 then None
        else SearchText(lines.value, find, s.contents.start, s.contents.end)
  }

  /** `searchLabelRange`: the first INST line that starts, after blanks, with
      the label; the range covers the label. */
  function LabelRange(lines: Option<seq<string>>, labelText: string): (r: Option<Range>)
    ensures r.Some? ==> var l := r.value.start.line;
      && lines.Some? && "INST" in Sections(Jbi, lines.value).entries
      && InContents(Sections(Jbi, lines.value).entries["INST"], l)
      && 0 <= l < |lines.value| && LabelLineMatch(lines.value[l], labelText).Some?
      && r.value == MkRange(l, LabelLineMatch(lines.value[l], labelText).value.0, l, LabelLineMatch(lines.value[l], labelText).value.1)
  {
    SearchSection(lines, "INST", LabelLine(labelText))
  }

  /** `searchCvariable`: the whole first POS line that defines C-variable n. */
  function CvarRange(lines: Option<seq<string>>, n: nat): (r: Option<Range>)
    ensures r.Some? ==> var l := r.value.start.line;
      && lines.Some? && "POS" in Sections(Jbi, lines.value).entries
      && InContents(Sections(Jbi, lines.value).entries["POS"], l)
      && 0 <= l < |lines.value| && CvarLineMatch(lines.value[l], n).Some?
      && r.value == MkRange(l, 0, l, CvarLineMatch(lines.value[l], n).value.1)
  {
    SearchSection(lines, "POS", CvarLine(n))
  }

  // ---------------------------------------------------------------------
  // What the handler asks of the rest of the controller

  /** The controller's answers for other files, the INFORM command table and
      `isPositionInMatch`, which the handler calls but which is not part of
      this model. */
  datatype Controller = Controller(
    jbiFileExists: string -> bool,
    jbiFilePath: string -> string,
    ioNameLocation: int -> Option<Location>,
    varNameLocation: (string, nat) -> Option<Location>,
    ioName: int -> Option<string>,
    varName: (string, nat) -> Option<string>,
    isCommand: string -> bool,
    commandDetail: string -> string,
    positionInMatch: (nat, nat, Position) -> bool)

  /** The type and number of a variable match at p. */
  function VarOf(s: string, p: nat): Option<(string, nat)>
  {
    match VarTypeFrom(s, p, 0)
    case Some(t) => Some((t, DigitsValue(s[p + |t|..p + |t| + DigitsAt(s, p + |t|)])))
    case None => None
  }

  /** The logical number of an I/O match when it is truthy (not 0). */
  function IoOf(s: string, p: nat, e: nat): Option<int>
  {
    if p <= e <= |s| then
      match IoNumberToLogical(s[p..e])
      case Some(n) => if n != 0 then Some(n) else None
      case None => None
    else None
  }

  /** A non-empty (truthy) string. */
  function Truthy(s: Option<string>): Option<string>
  {
    if s.Some? && s.value != "" then s else None
  }

  /** The cursor column lies in the match, both ends included. */
  function Covers(col: int): (nat, nat) -> bool
  {
    (p: nat, e: nat) => p <= col <= e
  }

  /** A job name under the cursor whose job file exists. */
  function JobAccepts(c: Controller, s: string, col: int): (nat, nat) -> bool
  {
    (p: nat, e: nat) => p <= col <= e && e <= |s| && c.jbiFileExists(s[p..e])
  }

  /** An I/O signal under the cursor whose name has a location. */
  function IoAccepts(c: Controller, s: string, pos: Position): (nat, nat) -> bool
  {
    (p: nat, e: nat) => c.positionInMatch(p, e, pos) && IoOf(s, p, e).Some? && c.ioNameLocation(IoOf(s, p, e).value).Some?
  }

  /** A variable under the cursor whose name has a location. */
  function VarAccepts(c: Controller, s: string, pos: Position): (nat, nat) -> bool
  {
    (p: nat, e: nat) => c.positionInMatch(p, e, pos) && VarOf(s, p).Some?
      && c.varNameLocation(VarOf(s, p).value.0, VarOf(s, p).value.1).Some?
  }

  /** An I/O signal under the cursor with a non-empty name. */
  function IoNamed(c: Controller, s: string, pos: Position): (nat, nat) -> bool
  {
    (p: nat, e: nat) => c.positionInMatch(p, e, pos) && IoOf(s, p, e).Some? && Truthy(c.ioName(IoOf(s, p, e).value)).Some?
  }

  /** A variable under the cursor with a non-empty name. */
  function VarNamed(c: Controller, s: string, pos: Position): (nat, nat) -> bool
  {
    (p: nat, e: nat) => c.positionInMatch(p, e, pos) && VarOf(s, p).Some?
      && Truthy(c.varName(VarOf(s, p).value.0, VarOf(s, p).value.1)).Some?
  }

  function InFile(filePath: string, r: Option<Range>): Option<Location>
  {
    match r
    case Some(range) => Some(Location(filePath, range))
    case None => None
  }

  // ---------------------------------------------------------------------
  // onDefinition

  /** `onDefinition`: on a non-empty line, in this order, the first job
      name under the cursor whose file exists (the top of that job file);
      else the first label under the cursor, which ends the search with its
      line in INST or nothing; else the first C-variable likewise with its
      line in POS; else the first I/O signal, then the first variable,
      under the cursor whose name has a location. */
  function Definition(lines: Option<seq<string>>, filePath: string, c: Controller, pos: Position): (r: Option<Location>)
  {
    match NonEmptyLine(lines, pos.line)
    case None => None
    case Some(text) =>
      var col := pos.character;
      match FirstAccepted(JobNameAt, text, 0, JobAccepts(c, text, col))
      case Some((p, e)) => Some(Location(c.jbiFilePath(text[p..e]), MkRange(0, 0, 0, 0)))
      case None =>
      match FirstAccepted(LabelAt, text, 0, Covers(col))
      case Some((p, e)) => InFile(filePath, LabelRange(lines, text[p..e]))
      case None =>
      match FirstAccepted(CvarAt, text, 0, Covers(col))
      case Some((p, _)) => InFile(filePath, CvarRange(lines, CvarNumber(text, p)))
      case None =>
      match FirstAccepted(IoValueAt, text, 0, IoAccepts(c, text, pos))
      case Some((p, e)) => c.ioNameLocation(IoOf(text, p, e).value)
      case None =>
      match FirstAccepted(VariableAt, text, 0, VarAccepts(c, text, pos))
      case Some((p, _)) => c.varNameLocation(VarOf(text, p).value.0, VarOf(text, p).value.1)
      case None => None
  }

  /** The k-th visited match is the first one accepted. */
  predicate FirstAcceptedAt(at: Scanner, s: string, accept: (nat, nat) -> bool, k: nat)
  {
    var ms := Matches(at, s, 0);
    k < |ms| && Accepted(accept, ms[k]) && forall j :: 0 <= j < k ==> !Accepted(accept, ms[j])
  }

  /** No visited match is accepted. */
  predicate NoneAccepted(at: Scanner, s: string, accept: (nat, nat) -> bool)
  {
    var ms := Matches(at, s, 0);
    forall j :: 0 <= j < |ms| ==> !Accepted(accept, ms[j])
  }

  /** The loop's result is determined by the visited matches: the first
      accepted one, or none. */
  lemma FirstAcceptedOf(at: Scanner, s: string, accept: (nat, nat) -> bool, k: nat)
    requires FirstAcceptedAt(at, s, accept, k)
    ensures FirstAccepted(at, s, 0, accept) == Some(Matches(at, s, 0)[k])
  {
    var ms := Matches(at, s, 0);
    assert Accepted(accept, ms[k]);
    FirstAcceptedSpec(at, s, 0, accept);
    if FirstAccepted(at, s, 0, accept).Some? {
      var k' :| 0 <= k' < |ms| && ms[k'] == FirstAccepted(at, s, 0, accept).value
        && forall j :: 0 <= j < k' ==> !Accepted(accept, ms[j]);
      assert Accepted(accept, ms[k']);
    }
  }

  lemma NoneAcceptedOf(at: Scanner, s: string, accept: (nat, nat) -> bool)
    requires NoneAccepted(at, s, accept)
    ensures FirstAccepted(at, s, 0, accept).None?
  {
    FirstAcceptedSpec(at, s, 0, accept);
  }

  /** A label under the cursor ends the search: when no existing job name
      is under the cursor and the k-th label match is the first under it,
      the answer is that label's line in this file or nothing, never an
      I/O or variable location. */
  lemma LabelEndsDefinition(lines: Option<seq<string>>, filePath: string, c: Controller, pos: Position, k: nat)
    requires NonEmptyLine(lines, pos.line).Some?
    requires var text := NonEmptyLine(lines, pos.line).value;
      && NoneAccepted(JobNameAt, text, JobAccepts(c, text, pos.character))
      && FirstAcceptedAt(LabelAt, text, Covers(pos.character), k)
    ensures var text := NonEmptyLine(lines, pos.line).value;
      var (p, e) := Matches(LabelAt, text, 0)[k];
      && p <= pos.character <= e
      && Definition(lines, filePath, c, pos) == InFile(filePath, LabelRange(lines, text[p..e]))
  {
    var text := NonEmptyLine(lines, pos.line).value;
    NoneAcceptedOf(JobNameAt, text, JobAccepts(c, text, pos.character));
    FirstAcceptedOf(LabelAt, text, Covers(pos.character), k);
  }

  /** A C variable under the cursor ends the search as well: with no
      existing job name and no label under the cursor, when the k-th C
      variable match is the first under it, the answer is that variable's
      POS line in this file or nothing, never an I/O or variable location. */
  lemma CvarEndsDefinition(lines: Option<seq<string>>, filePath: string, c: Controller, pos: Position, k: nat)
    requires NonEmptyLine(lines, pos.line).Some?
    requires var text := NonEmptyLine(lines, pos.line).value;
      && NoneAccepted(JobNameAt, text, JobAccepts(c, text, pos.character))
      && NoneAccepted(LabelAt, text, Covers(pos.character))
      && FirstAcceptedAt(CvarAt, text, Covers(pos.character), k)
    ensures var text := NonEmptyLine(lines, pos.line).value;
      var (p, e) := Matches(CvarAt, text, 0)[k];
      && p <= pos.character <= e
      && Definition(lines, filePath, c, pos) == InFile(filePath, CvarRange(lines, CvarNumber(text, p)))
  {
    var text := NonEmptyLine(lines, pos.line).value;
    NoneAcceptedOf(JobNameAt, text, JobAccepts(c, text, pos.character));
    NoneAcceptedOf(LabelAt, text, Covers(pos.character));
    FirstAcceptedOf(CvarAt, text, Covers(pos.character), k);
  }

  /** A job name under the cursor whose file does not exist falls through:
      with no existing job name under the cursor, the answer is the one the
      later patterns give. */
  lemma MissingJobFallsThrough(lines: Option<seq<string>>, filePath: string, c: Controller, c': Controller, pos: Position)
    requires NonEmptyLine(lines, pos.line).Some?
    requires var text := NonEmptyLine(lines, pos.line).value;
      && NoneAccepted(JobNameAt, text, JobAccepts(c, text, pos.character))
    requires c' == c.(jbiFileExists := (name: string) => false)
    ensures Definition(lines, filePath, c, pos) == Definition(lines, filePath, c', pos)
  {
    var text := NonEmptyLine(lines, pos.line).value;
    NoneAcceptedOf(JobNameAt, text, JobAccepts(c, text, pos.character));
    var ms := Matches(JobNameAt, text, 0);
    assert NoneAccepted(JobNameAt, text, JobAccepts(c', text, pos.character)) by {
      forall j | 0 <= j < |ms| ensures !Accepted(JobAccepts(c', text, pos.character), ms[j]) {
      }
    }
    NoneAcceptedOf(JobNameAt, text, JobAccepts(c', text, pos.character));
  }

  // ---------------------------------------------------------------------
  // onHover

  /** The hover of the command token: the line number within INST and, for
      a known command, its detail and its translated description. */
  function CommandHover(c: Controller, tables: Tables, locale: string, offset: int, command: string): string
  {
    var str := Translate(tables, locale, "jbifile.hover.lineNo", [IntToString(offset)]);
    if c.isCommand(command) then
      str + " " + c.commandDetail(command) + "\n\n" + Translate(tables, locale, "inform.description." + command, [])
    else str
  }

  /** The text of the line under the cursor and its offset from the first
      line of the INST contents, when that line is a non-empty INST line. */
  function InstLine(lines: Option<seq<string>>, pos: Position): (r: Option<(string, int)>)
    ensures r.Some? ==> lines.Some? && NameAtLine(Sections(Jbi, lines.value), pos.line) == Some("INST")
    ensures r.Some? ==> NonEmptyLine(lines, pos.line) == Some(r.value.0)
  {
    match DocumentSections(Jbi, lines)
    case None => None
    case Some(m) =>
      if NameAtLine(m, pos.line) != Some("INST") || NonEmptyLine(lines, pos.line).None? then None
      else Some((lines.value[pos.line], pos.line - m.entries["INST"].contents.start))
  }

  /** `onHover`: only on a non-empty INST line, where `LineHover` answers. */
  function Hover(lines: Option<seq<string>>, tables: Tables, locale: string, c: Controller, pos: Position): (r: Option<string>)
    ensures r.Some? ==> lines.Some? && NameAtLine(Sections(Jbi, lines.value), pos.line) == Some("INST")
    ensures r.Some? ==> NonEmptyLine(lines, pos.line).Some?
  {
    match InstLine(lines, pos)
    case None => None
    case Some((text, offset)) => LineHover(text, offset, tables, locale, c, pos)
  }

  /** The hover of an INST line, offset lines into the contents: the command
      when the cursor is on its token, else the first variable, then the
      first I/O signal, under the cursor that has a non-empty name. */
  function LineHover(text: string, offset: int, tables: Tables, locale: string, c: Controller, pos: Position): Option<string>
  {
    var command := CommandMatch(text);
    if command.Some? && IsPositionInRange(MkRange(pos.line, command.value.0, pos.line, command.value.1), pos) then
      Some(CommandHover(c, tables, locale, offset, text[command.value.0..command.value.1]))
    else
      match FirstAccepted(VariableAt, text, 0, VarNamed(c, text, pos))
      case Some((p, _)) => c.varName(VarOf(text, p).value.0, VarOf(text, p).value.1)
      case None =>
        match FirstAccepted(IoValueAt, text, 0, IoNamed(c, text, pos))
        case Some((p, e)) => c.ioName(IoOf(text, p, e).value)
        case None => None
  }

  /** Every non-empty INST line is found, with its offset counted from the
      first line of the INST contents. */
  lemma InstLineOnInst(lines: seq<string>, pos: Position)
    requires NameAtLine(Sections(Jbi, lines), pos.line) == Some("INST")
    requires NonEmptyLine(Some(lines), pos.line).Some?
    ensures var s := Sections(Jbi, lines).entries["INST"];
      && s.contents.start <= pos.line < s.contents.end
      && InstLine(Some(lines), pos) == Some((lines[pos.line], pos.line - s.contents.start))
  {
    assert DocumentSections(Jbi, Some(lines)) == Some(Sections(Jbi, lines));
  }

  /** With the cursor on the command token, the line's hover is the
      command's, whatever variables or signals the line holds. */
  lemma CommandHoverOnToken(text: string, offset: int, tables: Tables, locale: string, c: Controller, pos: Position)
    requires CommandMatch(text).Some?
    requires var (p, e) := CommandMatch(text).value; p <= pos.character < e
    ensures var (p, e) := CommandMatch(text).value;
      LineHover(text, offset, tables, locale, c, pos) == Some(CommandHover(c, tables, locale, offset, text[p..e]))
  {
    var m := CommandMatch(text).value;
    assert IsPositionInRange(MkRange(pos.line, m.0, pos.line, m.1), pos);
  }

  /** Off the command token, variables come before I/O signals: when the
      k-th variable match is the first under the cursor with a non-empty
      name, the hover is that name, whatever signals the line holds. */
  lemma VariableHoverFirst(text: string, offset: int, tables: Tables, locale: string, c: Controller, pos: Position, k: nat)
    requires CommandMatch(text).None? || !(CommandMatch(text).value.0 <= pos.character < CommandMatch(text).value.1)
    requires FirstAcceptedAt(VariableAt, text, VarNamed(c, text, pos), k)
    ensures var p := Matches(VariableAt, text, 0)[k].0;
      && VarOf(text, p).Some?
      && LineHover(text, offset, tables, locale, c, pos) == c.varName(VarOf(text, p).value.0, VarOf(text, p).value.1)
  {
    FirstAcceptedOf(VariableAt, text, VarNamed(c, text, pos), k);
    if CommandMatch(text).Some? {
      var m := CommandMatch(text).value;
      assert !IsPositionInRange(MkRange(pos.line, m.0, pos.line, m.1), pos);
    }
  }

  /** On the command token of an INST line the hover is the command's, with
      the line counted from the first line of the INST contents (which
      `InstLineOnInst` gives for every non-empty INST line). */
  lemma CommandHoverFirst(lines: Option<seq<string>>, tables: Tables, locale: string, c: Controller, pos: Position)
    requires InstLine(lines, pos).Some?
    requires CommandMatch(InstLine(lines, pos).value.0).Some?
    requires var (p, e) := CommandMatch(InstLine(lines, pos).value.0).value; p <= pos.character < e
    ensures var (text, offset) := InstLine(lines, pos).value;
      var (p, e) := CommandMatch(text).value;
      Hover(lines, tables, locale, c, pos) == Some(CommandHover(c, tables, locale, offset, text[p..e]))
  {
    var (text, offset) := InstLine(lines, pos).value;
    CommandHoverOnToken(text, offset, tables, locale, c, pos);
  }

  // ---------------------------------------------------------------------
  // validateInstCommands, validateInstTimer and validate

  const UnknownCommandKey := "jbifile.diagnostic.command.unknown"
  const TimerRangeKey := "jbifile.diagnostic.tag.T=.invalidValueRange"
  const TimerWarningKey := "jbifile.diagnostic.tag.T=.warningValueRange"
  const TimerDecimalKey := "jbifile.diagnostic.tag.T=.warningDecimalRange"

  /** d lies within line l. */
  predicate OnLine(d: Diagnostic, l: int)
  {
    d.range.start.line == l && d.range.end.line == l
  }

  /** `validateInstCommands`: with a severity set, one diagnostic on the
      command token when the command table does not know it. */
  function CommandDiagnostics(level: Option<Severity>, c: Controller, lineNo: int, text: string,
                              tables: Tables, locale: string): (r: seq<Diagnostic>)
    ensures |r| <= 1
    ensures forall d :: d in r ==> OnLine(d, lineNo)
  {
    if level.None? then []
    else match CommandMatch(text)
      case None => []
      case Some((p, e)) =>
        if c.isCommand(text[p..e]) then []
        else [Diagnostic(level.value, MkRange(lineNo, p, lineNo, e), Translate(tables, locale, UnknownCommandKey, []), NoData)]
  }

  /** With a severity set, an unknown command token gets exactly one
      diagnostic, of that severity, on the token; a known one or a line
      without a token gets none. */
  lemma CommandDiagnosticsSpec(level: Option<Severity>, c: Controller, lineNo: int, text: string,
                               tables: Tables, locale: string)
    ensures var r := CommandDiagnostics(level, c, lineNo, text, tables, locale);
      && (|r| == 1 <==> (level.Some? && CommandMatch(text).Some?
            && !c.isCommand(text[CommandMatch(text).value.0..CommandMatch(text).value.1])))
      && (|r| == 1 ==> var (p, e) := CommandMatch(text).value;
            r[0] == Diagnostic(level.value, MkRange(lineNo, p, lineNo, e), Translate(tables, locale, UnknownCommandKey, []), NoData))
  {
  }

  /** Below 0 or above 655.35 seconds (NaN compares false). */
  predicate TimerOutOfRange(v: TimerValue)
  {
    v.Exact? && (v.v < 0.0 || v.v > 655.35)
  }

  /** Above 65.535 seconds but within range. */
  predicate TimerAboveWarning(v: TimerValue)
  {
    v.Exact? && 65.535 < v.v <= 655.35
  }

  /** Three or more decimals. */
  predicate TimerFineDecimals(t: TimerTag)
  {
    t.decimals.Some? && |t.decimals.value| >= 3
  }

  /** What `validateInstTimer` reports for a tag, as (severity, message
      key) in push order: an error when the value is out of range, or else
      a notice above 65.535; then a notice for three or more decimals. */
  function TimerFindings(t: TimerTag): (r: seq<(Severity, string)>)
    ensures |r| == (if TimerOutOfRange(t.value) || TimerAboveWarning(t.value) then 1 else 0)
                 + (if TimerFineDecimals(t) then 1 else 0)
    ensures TimerOutOfRange(t.value) ==> r[0] == (Error, TimerRangeKey)
    ensures TimerAboveWarning(t.value) ==> r[0] == (Information, TimerWarningKey)
    ensures TimerFineDecimals(t) ==> r[|r| - 1] == (Information, TimerDecimalKey)
    ensures forall k :: 0 <= k < |r| && r[k].0 == Error ==> k == 0 && TimerOutOfRange(t.value)
  {
    var first :=
      if TimerOutOfRange(t.value) then [(Error, TimerRangeKey)]
      else if t.value.Exact? && t.value.v > 65.535 then [(Information, TimerWarningKey)]
      else [];
    var second := if TimerFineDecimals(t) then [(Information, TimerDecimalKey)] else [];
    first + second
  }

  /** A hexadecimal tag is range-checked: ` T=0x1000` is 4096 seconds,
      an error, and its four digits after the `x` draw the decimals notice. */
  lemma HexTimerFindings()
    ensures TimerFrom(" T=0x1000", 0) == Some(TimerTag(1, 9, Exact(4096.0), Some("1000")))
    ensures TimerFindings(TimerFrom(" T=0x1000", 0).value) == [(Error, TimerRangeKey), (Information, TimerDecimalKey)]
  {
    HexTimerExample();
    assert TimerAt(" T=0x1000", 0).None?;
    assert FirstHit(TimerAt, " T=0x1000", 1) == Some(1);
  }

  /** The findings as diagnostics on one range, in order. */
  function Reported(findings: seq<(Severity, string)>, range: Range, tables: Tables, locale: string): (r: seq<Diagnostic>)
    ensures |r| == |findings|
    ensures forall k :: 0 <= k < |r| ==>
      r[k] == Diagnostic(findings[k].0, range, Translate(tables, locale, findings[k].1, []), NoData)
  {
    seq(|findings|, k requires 0 <= k < |findings| =>
      Diagnostic(findings[k].0, range, Translate(tables, locale, findings[k].1, []), NoData))
  }

  /** `validateInstTimer`: the findings of the line's first `T=` tag, on
      the span of that tag; nothing on a line without one. */
  function TimerDiagnostics(lineNo: int, text: string, tables: Tables, locale: string): (r: seq<Diagnostic>)
    ensures forall d :: d in r ==> OnLine(d, lineNo)
  {
    match TimerFrom(text, 0)
    case None => []
    case Some(t) => Reported(TimerFindings(t), MkRange(lineNo, t.start, lineNo, t.end), tables, locale)
  }

  /** The timer findings of the line's first `T=` tag, each on the span of
      that tag; none on a line without one. */
  lemma TimerDiagnosticsSpec(lineNo: int, text: string, tables: Tables, locale: string)
    ensures var r := TimerDiagnostics(lineNo, text, tables, locale);
      && (TimerFrom(text, 0).None? ==> r == [])
      && (TimerFrom(text, 0).Some? ==> var t := TimerFrom(text, 0).value;
            r == Reported(TimerFindings(t), MkRange(lineNo, t.start, lineNo, t.end), tables, locale))
  {
  }

  /** What `validate` pushes for an INST line: the command's diagnostics,
      then the timer's. */
  function InstChecks(level: Option<Severity>, c: Controller, tables: Tables, locale: string): (nat, string) -> seq<Diagnostic>
  {
    (i: nat, text: string) => CommandDiagnostics(level, c, i, text, tables, locale) + TimerDiagnostics(i, text, tables, locale)
  }

  /** The diagnostics of the first n lines, in line order: the checks of
      every line the section map places in INST. */
  function LinesDiagnostics(m: SectionMap, checks: (nat, string) -> seq<Diagnostic>, lines: seq<string>, n: nat): seq<Diagnostic>
    requires Wf(m) && n <= |lines|
  {
    if n == 0 then []
    else
      var prior := LinesDiagnostics(m, checks, lines, n - 1);
      if NameAtLine(m, n - 1) == Some("INST") then prior + checks(n - 1, lines[n - 1]) else prior
  }

  /** `validate`: None without text; otherwise the diagnostics of every line. */
  function Validation(lines: Option<seq<string>>, level: Option<Severity>, c: Controller,
                      tables: Tables, locale: string): Option<seq<Diagnostic>>
  {
    match DocumentSections(Jbi, lines)
    case None => None
    case Some(m) => Some(LinesDiagnostics(m, InstChecks(level, c, tables, locale), lines.value, |lines.value|))
  }

  /** Checks that report only on the line they are given. */
  ghost predicate StaysOnLine(checks: (nat, string) -> seq<Diagnostic>)
  {
    forall i: nat, text: string, d :: d in checks(i, text) ==> OnLine(d, i)
  }

  /** With checks that stay on their line, every diagnostic of the first n
      lines lies within one of them, inside the INST contents. */
  lemma {:induction false} ChecksOnInstLines(m: SectionMap, checks: (nat, string) -> seq<Diagnostic>,
                                             lines: seq<string>, n: nat)
    requires Wf(m) && n <= |lines| && StaysOnLine(checks)
    ensures forall d :: d in LinesDiagnostics(m, checks, lines, n) ==>
      0 <= d.range.start.line < n && OnLine(d, d.range.start.line) && NameAtLine(m, d.range.start.line) == Some("INST")
  {
    if n > 0 {
      ChecksOnInstLines(m, checks, lines, n - 1);
    }
  }

  /** The command and timer checks stay on their line. */
  lemma InstChecksStayOnLine(level: Option<Severity>, c: Controller, tables: Tables, locale: string)
    ensures StaysOnLine(InstChecks(level, c, tables, locale))
  {
    forall i: nat, text: string, d | d in InstChecks(level, c, tables, locale)(i, text)
      ensures OnLine(d, i)
    {
      assert d in CommandDiagnostics(level, c, i, text, tables, locale) || d in TimerDiagnostics(i, text, tables, locale);
    }
  }

  /** Every diagnostic `validate` reports lies within one line of the INST
      contents. */
  lemma DiagnosticsOnInstLines(lines: seq<string>, level: Option<Severity>, c: Controller, tables: Tables, locale: string)
    ensures var m := Sections(Jbi, lines);
      Validation(Some(lines), level, c, tables, locale).Some? &&
      forall d :: d in Validation(Some(lines), level, c, tables, locale).value ==>
        0 <= d.range.start.line < |lines| && OnLine(d, d.range.start.line) && NameAtLine(m, d.range.start.line) == Some("INST")
  {
    InstChecksStayOnLine(level, c, tables, locale);
    ChecksOnInstLines(Sections(Jbi, lines), InstChecks(level, c, tables, locale), lines, |lines|);
  }

  // ---------------------------------------------------------------------
  // onCompletion

  /** The job names offered as completion items, in the controller's order. */
  function JobItems(jobNames: seq<string>): (items: seq<CompletionItem>)
    ensures |items| == |jobNames|
    ensures forall k :: 0 <= k < |items| ==> items[k] == CompletionItem(jobNames[k], FunctionItem)
  {
    seq(|jobNames|, k requires 0 <= k < |jobNames| => CompletionItem(jobNames[k], FunctionItem))
  }

  /** `onCompletion`: the job names when the cursor touches a `JOB:` tag of a
      non-empty line, and nothing otherwise. */
  function Completion(lines: Option<seq<string>>, jobNames: seq<string>, pos: Position): (r: Option<seq<CompletionItem>>)
    ensures r.Some? ==> NonEmptyLine(lines, pos.line).Some? && r.value == JobItems(jobNames)
  {
    match NonEmptyLine(lines, pos.line)
    case None => None
    case Some(text) =>
      if FirstAccepted(JobTagAt, text, 0, Covers(pos.character)).Some? then Some(JobItems(jobNames)) else None
  }

  /** Completion answers exactly when a tag the loop visits holds the cursor,
      both ends included. */
  lemma CompletionSpec(lines: Option<seq<string>>, jobNames: seq<string>, pos: Position)
    ensures Completion(lines, jobNames, pos).Some? <==>
      && NonEmptyLine(lines, pos.line).Some?
      && var ms := Matches(JobTagAt, NonEmptyLine(lines, pos.line).value, 0);
         exists j :: 0 <= j < |ms| && ms[j].0 <= pos.character <= ms[j].1
  {
    if NonEmptyLine(lines, pos.line).Some? {
      var text := NonEmptyLine(lines, pos.line).value;
      var ms := Matches(JobTagAt, text, 0);
      FirstAcceptedSpec(JobTagAt, text, 0, Covers(pos.character));
      forall j | 0 <= j < |ms|
        ensures Accepted(Covers(pos.character), ms[j]) <==> ms[j].0 <= pos.character <= ms[j].1
      {
      }
    }
  }

  /** Any `JOB:` tag of a line is visited by the loop, so a cursor from its
      colon to its end gets the job names. */
  lemma CompletionOnTag(lines: seq<string>, jobNames: seq<string>, pos: Position, p: nat)
    requires NonEmptyLine(Some(lines), pos.line).Some?
    requires Hit(JobTagAt, lines[pos.line], p) && p <= pos.character <= JobTagAt(lines[pos.line], p).value
    ensures Completion(Some(lines), jobNames, pos) == Some(JobItems(jobNames))
  {
    var text := lines[pos.line];
    TagsApart(text, p);
    MatchesVisit(JobTagAt, text, 0, p);
    CompletionSpec(Some(lines), jobNames, pos);
  }

  // ---------------------------------------------------------------------
  // The handler

  class JbiFile {
    /** The text and the memoised sections of the job file. */
    const file: RobotControllerFile
    /** The severity of unknown commands; None until the settings arrive,
        and when they select none. */
    var unknownCommandErrorLevel: Option<Severity>

    ghost predicate Valid()
      reads this, file, file.sectionedDocument
    {
      file.Valid() && file.kind == Jbi
    }

    constructor(lines: Option<seq<string>>)
      ensures Valid() && fresh(file)
      ensures file.lines == lines && unknownCommandErrorLevel == None
    {
      file := new RobotControllerFile(Jbi, lines);
      unknownCommandErrorLevel := None;
    }

    /** The settings callback of the constructor: a `diagnosisLevel` that
        arrives selects the severity. */
    method ApplySettings(diagnosisLevel: Option<string>)
      modifies this
      ensures diagnosisLevel.Some? ==> unknownCommandErrorLevel == StringToSeverity(diagnosisLevel.value)
      ensures diagnosisLevel.None? ==> unknownCommandErrorLevel == old(unknownCommandErrorLevel)
    {
      if diagnosisLevel.Some? {
        unknownCommandErrorLevel := StringToSeverity(diagnosisLevel.value);
      }
    }

    /** `searchLabelRange`. */
    method SearchLabelRange(labelText: string) returns (r: Option<Range>)
      requires Valid()
      modifies file
      ensures Valid()
      ensures r == LabelRange(file.lines, labelText)
    {
      r := SearchIn("INST", LabelLine(labelText));
    }

    /** `searchCvariable`. */
    method SearchCvariable(n: nat) returns (r: Option<Range>)
      requires Valid()
      modifies file
      ensures Valid()
      ensures r == CvarRange(file.lines, n)
    {
      r := SearchIn("POS", CvarLine(n));
    }

    /** The section lookup shared by both searches, then `searchText`. */
    method SearchIn(name: string, find: LineSearch) returns (r: Option<Range>)
      requires Valid()
      modifies file
      ensures Valid()
      ensures r == SearchSection(file.lines, name, find)
    {
      var doc := file.UpdateSection();
      if doc == null {
        return None;
      }
      var section := doc.GetSection(name);
      if section.None? || section.value.contents.start < 0 {
        return None;
      }
      r := SearchLines(file.lines.value, find, section.value.contents.start, section.value.contents.end);
    }

    /** `onDefinition`: the pattern loops in turn, each returning at the
        first match it accepts. */
    method OnDefinition(filePath: string, c: Controller, pos: Position) returns (r: Option<Location>)
      requires Valid()
      modifies file
      ensures Valid()
      ensures r == Definition(file.lines, filePath, c, pos)
    {
      var lineText := NonEmptyLine(file.lines, pos.line);
      if lineText.None? {
        return None;
      }
      var text := lineText.value;
      var col := pos.character;
      var m := ScanMatches(JobNameAt, text, JobAccepts(c, text, col));
      if m.Some? {
        return Some(Location(c.jbiFilePath(text[m.value.0..m.value.1]), MkRange(0, 0, 0, 0)));
      }
      m := ScanMatches(LabelAt, text, Covers(col));
      if m.Some? {
        var range := SearchLabelRange(text[m.value.0..m.value.1]);
        return InFile(filePath, range);
      }
      m := ScanMatches(CvarAt, text, Covers(col));
      if m.Some? {
        var range := SearchCvariable(CvarNumber(text, m.value.0));
        return InFile(filePath, range);
      }
      m := ScanMatches(IoValueAt, text, IoAccepts(c, text, pos));
      if m.Some? {
        return c.ioNameLocation(IoOf(text, m.value.0, m.value.1).value);
      }
      m := ScanMatches(VariableAt, text, VarAccepts(c, text, pos));
      if m.Some? {
        var v := VarOf(text, m.value.0).value;
        return c.varNameLocation(v.0, v.1);
      }
      return None;
    }

    /** `onHover`: the section lookups, then on an INST line the command
        test and the variable and I/O loops. */
    method OnHover(tables: Tables, locale: string, c: Controller, pos: Position) returns (r: Option<string>)
      requires Valid()
      modifies file
      ensures Valid()
      ensures r == Hover(file.lines, tables, locale, c, pos)
    {
      var doc := file.UpdateSection();
      if doc == null {
        return None;
      }
      var sectionName := doc.GetSectionNameFromLine(pos.line);
      if sectionName.None? {
        return None;
      }
      var section := doc.GetSection(sectionName.value);
      if section.None? {
        return None;
      }
      var lineText := NonEmptyLine(file.lines, pos.line);
      if lineText.None? {
        return None;
      }
      var text := lineText.value;
      var offset := pos.line - section.value.contents.start;
      if sectionName.value != "INST" {
        return None;
      }
      assert InstLine(file.lines, pos) == Some((text, offset));
      r := InstLineHover(text, offset, tables, locale, c, pos);
    }

    /** `validate`: walks every line, collecting the command and timer
        diagnostics of the INST lines. */
    method Validate(c: Controller, tables: Tables, locale: string) returns (r: Option<seq<Diagnostic>>)
      requires Valid()
      modifies file
      ensures Valid()
      ensures r == Validation(file.lines, unknownCommandErrorLevel, c, tables, locale)
    {
      var doc := file.UpdateSection();
      if doc == null {
        return None;
      }
      var diagnostics := CollectDiagnostics(doc, file.lines.value, InstChecks(unknownCommandErrorLevel, c, tables, locale));
      return Some(diagnostics);
    }

    /** `onCompletion`: the line read, then the `exec` loop over the tags. */
    method OnCompletion(jobNames: seq<string>, pos: Position) returns (r: Option<seq<CompletionItem>>)
      requires Valid()
      ensures r == Completion(file.lines, jobNames, pos)
    {
      var lineText := NonEmptyLine(file.lines, pos.line);
      if lineText.None? {
        return None;
      }
      var m := ScanMatches(JobTagAt, lineText.value, Covers(pos.character));
      if m.Some? {
        return Some(JobItems(jobNames));
      }
      return None;
    }
  }

  /** The INST branch of `onHover`: the command test, then the variable
      loop, then the I/O loop. */
  method InstLineHover(text: string, offset: int, tables: Tables, locale: string, c: Controller, pos: Position)
    returns (r: Option<string>)
    ensures r == LineHover(text, offset, tables, locale, c, pos)
  {
    var command := CommandMatch(text);
    if command.Some? && IsPositionInRange(MkRange(pos.line, command.value.0, pos.line, command.value.1), pos) {
      return Some(CommandHover(c, tables, locale, offset, text[command.value.0..command.value.1]));
    }
    var m := ScanMatches(VariableAt, text, VarNamed(c, text, pos));
    if m.Some? {
      var v := VarOf(text, m.value.0).value;
      return c.varName(v.0, v.1);
    }
    m := ScanMatches(IoValueAt, text, IoNamed(c, text, pos));
    if m.Some? {
      return c.ioName(IoOf(text, m.value.0, m.value.1).value);
    }
    return None;
  }

  /** The `forEach` of `validate` over the lines of a sectioned document. */
  method CollectDiagnostics(doc: SectionedDocument, textLines: seq<string>, checks: (nat, string) -> seq<Diagnostic>)
    returns (diagnostics: seq<Diagnostic>)
    requires doc.Valid()
    ensures diagnostics == LinesDiagnostics(doc.sectionMap, checks, textLines, |textLines|)
  {
    diagnostics := [];
    var i := 0;
    while i < |textLines|
      invariant 0 <= i <= |textLines|
      invariant diagnostics == LinesDiagnostics(doc.sectionMap, checks, textLines, i)
    {
      var sectionName := doc.GetSectionNameFromLine(i);
      if sectionName == Some("INST") {
        diagnostics := diagnostics + checks(i, textLines[i]);
      }
      i := i + 1;
    }
  }

  /** The loop of `searchText`. */
  method SearchLines(lines: seq<string>, find: LineSearch, start: nat, end: int) returns (r: Option<Range>)
    ensures r == SearchText(lines, find, start, end)
  {
    var i := start;
    while i < end && i < |lines|
      invariant start <= i
      invariant SearchText(lines, find, i, end) == SearchText(lines, find, start, end)
      decreases end - i
    {
      var m := find(lines[i]);
      if m.Some? {
        return Some(MkRange(i, m.value.0, i, m.value.1));
      }
      i := i + 1;
    }
    return None;
  }

  /** A global pattern's `exec` loop: each search starts at the end of the
      previous match, and the loop returns at the first match it accepts. */
  method ScanMatches(at: Scanner, s: string, accept: (nat, nat) -> bool) returns (r: Option<(nat, nat)>)
    ensures r == FirstAccepted(at, s, 0, accept)
  {
    var lastIndex := 0;
    while true
      invariant lastIndex <= |s|
      invariant FirstAccepted(at, s, lastIndex, accept) == FirstAccepted(at, s, 0, accept)
      decreases |s| - lastIndex
    {
      var m := NextMatch(at, s, lastIndex);
      if m.None? {
        return None;
      }
      if accept(m.value.0, m.value.1) {
        return m;
      }
      lastIndex := m.value.1;
    }
  }
}
