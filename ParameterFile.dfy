/** ALL.PRM parameter files: sections of comma-separated values, ten values
    per line, addressed as `<section name><number>`. */
module ParameterFiles {

  import opened Protocol
  import opened OrderedMaps
  import opened Util
  import opened SectionedDocuments
  import opened Sectioner
  import opened RobotControllerFiles

  // ---------------------------------------------------------------------
  // Field values

  /** What `+str` gives for a field: an integer or NaN. */
  datatype Num = Finite(value: int) | NaN

  function TrimStart(s: string): (t: string)
    ensures |t| <= |s| && t == s[|s| - |t|..]
    ensures t == [] || !IsWhitespace(t[0])
  {
    if s == [] || !IsWhitespace(s[0]) then s else TrimStart(s[1..])
  }

  function TrimEnd(s: string): (t: string)
    ensures |t| <= |s| && t == s[..|t|]
    ensures t == [] || !IsWhitespace(t[|t| - 1])
  {
    if s == [] || !IsWhitespace(s[|s| - 1]) then s else TrimEnd(s[..|s| - 1])
  }

  /** `+str` on a field: surrounding whitespace is ignored, an empty field is
      0, an optionally signed run of decimal digits is its value, and any
      other text is NaN. */
  function ToNumber(s: string): (r: Num)
  {
    Numeral(TrimEnd(TrimStart(s)))
  }

  /** The value of trimmed field text. */
  function Numeral(t: string): Num
  {
    if t == [] then Finite(0)
    else if t[0] == '-' && |t| > 1 && AllDigits(t[1..]) then Finite(-(DigitsValue(t[1..]) as int))
    else if t[0] == '+' && |t| > 1 && AllDigits(t[1..]) then Finite(DigitsValue(t[1..]))
    else if AllDigits(t) then Finite(DigitsValue(t))
    else NaN
  }

  lemma NumeralOfDecimal(n: int)
    ensures Numeral(IntToString(n)) == Finite(n)
  {
    var d := IntToString(n);
    if n < 0 {
      assert d[1..] == NatToString(-n);
    }
  }

  /** Reading a field back: the decimal text of any integer, even with blanks
      around it, reads as that integer. */
  lemma ToNumberOfDecimal(n: int, pre: string, post: string)
    requires forall i :: 0 <= i < |pre| ==> IsWhitespace(pre[i])
    requires forall i :: 0 <= i < |post| ==> IsWhitespace(post[i])
    ensures ToNumber(pre + IntToString(n) + post) == Finite(n)
  {
    var d := IntToString(n);
    DecimalNotBlank(n);
    TrimAround(pre, d, post);
    assert TrimEnd(TrimStart(pre + d + post)) == d;
    NumeralOfDecimal(n);
  }

  /** An empty or blank field reads as 0. */
  lemma ToNumberOfBlank(s: string)
    requires forall i :: 0 <= i < |s| ==> IsWhitespace(s[i])
    ensures ToNumber(s) == Finite(0)
  {
    TrimAround(s, [], []);
    assert s + [] + [] == s;
  }

  lemma DecimalNotBlank(n: int)
    ensures var d := IntToString(n); !IsWhitespace(d[0]) && !IsWhitespace(d[|d| - 1])
  {
    var d := IntToString(n);
    assert IsDigit(d[|d| - 1]);
    assert d[0] == '-' || IsDigit(d[0]);
  }

  lemma TrimAround(pre: string, d: string, post: string)
    requires forall i :: 0 <= i < |pre| ==> IsWhitespace(pre[i])
    requires forall i :: 0 <= i < |post| ==> IsWhitespace(post[i])
    requires d == [] || (!IsWhitespace(d[0]) && !IsWhitespace(d[|d| - 1]))
    ensures TrimEnd(TrimStart(pre + d + post)) == d
  {
    TrimStartBlankPrefix(pre, d, post);
    TrimStartBlank(d, post);
    if d == [] {
      assert TrimStart(d + post) == [];
    } else {
      TrimEndBlank(d, post);
    }
  }

  /** Leading blanks are dropped. */
  lemma {:induction false} TrimStartBlankPrefix(pre: string, d: string, post: string)
    requires forall i :: 0 <= i < |pre| ==> IsWhitespace(pre[i])
    ensures TrimStart(pre + d + post) == TrimStart(d + post)
    decreases |pre|
  {
    if pre != [] {
      assert IsWhitespace((pre + d + post)[0]);
      assert (pre + d + post)[1..] == pre[1..] + d + post;
      TrimStartBlankPrefix(pre[1..], d, post);
    } else {
      assert pre + d + post == d + post;
    }
  }

  lemma {:induction false} TrimStartBlank(d: string, post: string)
    requires forall i :: 0 <= i < |post| ==> IsWhitespace(post[i])
    requires d == [] || (!IsWhitespace(d[0]) && !IsWhitespace(d[|d| - 1]))
    ensures TrimStart(d + post) == (if d == [] then [] else d + post)
    decreases |post|
  {
    if d == [] && post != [] {
      assert (d + post)[1..] == post[1..];
      TrimStartBlank(d, post[1..]);
    }
  }

  lemma {:induction false} TrimEndBlank(d: string, post: string)
    requires forall i :: 0 <= i < |post| ==> IsWhitespace(post[i])
    requires d == [] || (!IsWhitespace(d[0]) && !IsWhitespace(d[|d| - 1]))
    ensures TrimEnd(d + post) == d
    decreases |post|
  {
    if post != [] {
      assert (d + post)[..|d + post| - 1] == d + post[..|post| - 1];
      TrimEndBlank(d, post[..|post| - 1]);
    } else {
      assert d + post == d;
    }
  }

  // ---------------------------------------------------------------------
  // The value table of updateParameterValue

  /** The key of a value: the section name followed by the decimal number. */
  function Key(name: string, n: nat): string
  {
    name + NatToString(n)
  }

  /** Writes the values of one line in order, value j under number base + j. */
  function WriteFields<V>(table: map<string, V>, name: string, base: nat, values: seq<V>): map<string, V>
    decreases |values|
  {
    if values == [] then table
    else WriteFields(table, name, base, values[..|values| - 1])[Key(name, base + |values| - 1) := values[|values| - 1]]
  }

  lemma WriteFieldsSnoc<V>(table: map<string, V>, name: string, base: nat, values: seq<V>, v: V)
    ensures WriteFields(table, name, base, values + [v])
      == WriteFields(table, name, base, values)[Key(name, base + |values|) := v]
  {
    assert (values + [v])[..|values|] == values;
  }

  /** The numbers of a line's fields, each field read by `toNumber`. The
      scan below takes the reading as a parameter; the handler passes
      `ToNumber`. */
  function Numbers(fields: seq<string>, toNumber: string -> Num): (r: seq<Num>)
    ensures |r| == |fields|
    decreases |fields|
  {
    if fields == [] then [] else Numbers(fields[..|fields| - 1], toNumber) + [toNumber(fields[|fields| - 1])]
  }

  lemma {:induction false} NumbersAt(fields: seq<string>, toNumber: string -> Num, j: nat)
    requires j < |fields|
    ensures Numbers(fields, toNumber)[j] == toNumber(fields[j])
    decreases |fields|
  {
    if j < |fields| - 1 {
      NumbersAt(fields[..|fields| - 1], toNumber, j);
    }
  }

  /** The loop variables: the section being read, the line after the latest
      `/` line, and the table so far. */
  datatype ValueScan = ValueScan(sectionName: string, startLine: nat, table: map<string, Num>)

  /** One line of the scan, read as `c` by the parameter header grammar:
      every `/` line moves the start line past it, and only a named header
      other than CRC changes the section name. */
  function ValueStep(sc: ValueScan, i: nat, c: LineClass, line: string, toNumber: string -> Num): (r: ValueScan)
    requires sc.startLine <= i
    ensures r.startLine <= i + 1
  {
    match c
    case Open(name) => ValueScan(name, i + 1, sc.table)
    case Restart => sc.(startLine := i + 1)
    case Data => sc.(table := WriteFields(sc.table, sc.sectionName, (i - sc.startLine) * 10, Numbers(Split(line), toNumber)))
    case _ => sc
  }

  /** The scan after the first n lines, `cls` being how each line reads. */
  function ValuesRun(cls: seq<LineClass>, lines: seq<string>, n: nat, toNumber: string -> Num): (r: ValueScan)
    requires n <= |lines| == |cls|
    ensures r.startLine <= n
  {
    if n == 0 then ValueScan("", 0, map[])
    else ValueStep(ValuesRun(cls, lines, n - 1, toNumber), n - 1, cls[n - 1], lines[n - 1], toNumber)
  }

  /** What updateParameterValue returns: None for a missing or empty text. */
  function ValueTable(lines: Option<seq<string>>): (r: Option<map<string, Num>>)
    ensures r.None? <==> lines.None? || |lines.value| == 0
  {
    if lines.None? || |lines.value| == 0 then None
    else
      var ls := lines.value;
      Some(ValuesRun(Classes(Parameter, ls), ls, |ls|, ToNumber).table)
  }

  /** Writing a line's values stores value j under number base + j. */
  lemma {:induction false} WriteFieldsAt<V>(table: map<string, V>, name: string, base: nat, values: seq<V>, j: nat)
    requires j < |values|
    ensures Key(name, base + j) in WriteFields(table, name, base, values)
    ensures WriteFields(table, name, base, values)[Key(name, base + j)] == values[j]
    decreases |values|
  {
    var last := |values| - 1;
    if j < last {
      var init := values[..last];
      WriteFieldsAt(table, name, base, init, j);
      KeyInjective(name, base + j, base + last);
    }
  }

  /** Different numbers give different keys within one section. */
  lemma KeyInjective(name: string, a: nat, b: nat)
    requires a != b
    ensures Key(name, a) != Key(name, b)
  {
    assert NatToString(a) == Key(name, a)[|name|..];
    assert NatToString(b) == Key(name, b)[|name|..];
  }

  /** The scan follows the parameter sectioner line for line: its start line
      is the start of the open contents range and its section name is the
      name of the open section. */
  lemma {:induction false} ValuesTrackSections(cls: seq<LineClass>, lines: seq<string>, n: nat, toNumber: string -> Num)
    requires n <= |lines| == |cls|
    ensures var st := Run(Parameter, cls, n);
      && ValuesRun(cls, lines, n, toNumber).startLine == st.contents.start
      && ValuesRun(cls, lines, n, toNumber).sectionName == st.current
  {
    if n > 0 {
      ValuesTrackSections(cls, lines, n - 1, toNumber);
    }
  }

  /** A data line stores its field j under the scan's section name and the
      number (i - start line) * 10 + j. */
  lemma DataLineWrites(sc: ValueScan, i: nat, line: string, j: nat, toNumber: string -> Num)
    requires sc.startLine <= i && j < |Split(line)|
    ensures var key := Key(sc.sectionName, (i - sc.startLine) * 10 + j);
      key in ValueStep(sc, i, Data, line, toNumber).table
      && ValueStep(sc, i, Data, line, toNumber).table[key] == toNumber(Split(line)[j])
  {
    var base := (i - sc.startLine) * 10;
    var fields := Split(line);
    DataStep(sc, i, line, base, toNumber);
    WriteFieldsAt(sc.table, sc.sectionName, base, Numbers(fields, toNumber), j);
    NumbersAt(fields, toNumber, j);
  }

  /** Every field j of a data line i is stored under the open section's name
      and the number (i - contents start) * 10 + j, where the section and its
      contents start are those of the sectioned document at that line. */
  lemma ValuesOfLine(lines: seq<string>, i: nat, j: nat, toNumber: string -> Num)
    requires i < |lines| && !StartsWith(lines[i], "/") && j < |Split(lines[i])|
    ensures var cls := Classes(Parameter, lines);
      var st := Run(Parameter, cls, i);
      && st.contents.start <= i
      && var key := Key(st.current, (i - st.contents.start) * 10 + j);
         var table := ValuesRun(cls, lines, i + 1, toNumber).table;
         key in table && table[key] == toNumber(Split(lines[i])[j])
  {
    var cls := Classes(Parameter, lines);
    DataClass(lines, i);
    ValuesTrackSections(cls, lines, i, toNumber);
    DataLineValues(cls, lines, i, j, toNumber);
  }

  /** A line that does not start with `/` is a data line. */
  lemma DataClass(lines: seq<string>, i: nat)
    requires i < |lines| && !StartsWith(lines[i], "/")
    ensures |Classes(Parameter, lines)| == |lines| && Classes(Parameter, lines)[i] == Data
  {
    ClassAt(Parameter, lines, i);
  }

  /** The scan's step over a data line i stores its field j. */
  lemma DataLineValues(cls: seq<LineClass>, lines: seq<string>, i: nat, j: nat, toNumber: string -> Num)
    requires i < |lines| == |cls| && cls[i] == Data && j < |Split(lines[i])|
    ensures var sc := ValuesRun(cls, lines, i, toNumber);
      var key := Key(sc.sectionName, (i - sc.startLine) * 10 + j);
      var table := ValuesRun(cls, lines, i + 1, toNumber).table;
      key in table && table[key] == toNumber(Split(lines[i])[j])
  {
    RunStep(cls, lines, i, toNumber);
    DataLineWrites(ValuesRun(cls, lines, i, toNumber), i, lines[i], j, toNumber);
  }

  /** One more line is one more step of the scan. */
  lemma RunStep(cls: seq<LineClass>, lines: seq<string>, i: nat, toNumber: string -> Num)
    requires i < |lines| == |cls|
    ensures ValuesRun(cls, lines, i + 1, toNumber) == ValueStep(ValuesRun(cls, lines, i, toNumber), i, cls[i], lines[i], toNumber)
  {
  }

  // ---------------------------------------------------------------------
  // Lookups over the sections

  /** `isParameterExist`: the section exists and the number is below ten
      times its contents line count. */
  function IsParameterExist(lines: Option<seq<string>>, parameterType: string, parameterNumber: int): (r: bool)
    ensures r ==> lines.Some? && parameterType in Sections(Parameter, lines.value).entries
  {
    match DocumentSections(Parameter, lines)
    case None => false
    case Some(m) =>
      parameterType in m.entries &&
      var c := m.entries[parameterType].contents;
      0 <= parameterNumber < (c.end - c.start) * 10
  }

  /** `getParameterRange`: field `n % 10` of line `contents.start + n / 10`,
      with no check against the end of the section. */
  function GetParameterRange(lines: Option<seq<string>>, parameterType: string, parameterNumber: nat): (r: Option<Range>)
  {
    match DocumentSections(Parameter, lines)
    case None => None
    case Some(m) =>
      if parameterType !in m.entries then None
      else
        var lineNo := m.entries[parameterType].contents.start + parameterNumber / 10;
        match NonEmptyLine(lines, lineNo)
        case None => None
        case Some(lineText) =>
          match RangeAtIndex(lineText, parameterNumber % 10)
          case None => None
          case Some(rg) => Some(MkRange(lineNo, rg.start.character, lineNo, rg.end.character))
  }

  /** The range of a parameter is the `n % 10`-th comma-separated piece of
      line `contents.start + n / 10`: it exists exactly when the section, a
      non-empty such line and that piece exist. */
  lemma GetParameterRangeSpec(lines: Option<seq<string>>, parameterType: string, parameterNumber: nat)
    ensures var r := GetParameterRange(lines, parameterType, parameterNumber);
      r.Some? <==>
        && lines.Some?
        && parameterType in Sections(Parameter, lines.value).entries
        && var lineNo := Sections(Parameter, lines.value).entries[parameterType].contents.start + parameterNumber / 10;
           && NonEmptyLine(lines, lineNo).Some?
           && parameterNumber % 10 < |Split(lines.value[lineNo])|
    ensures var r := GetParameterRange(lines, parameterType, parameterNumber);
      r.Some? ==>
        var lineNo := Sections(Parameter, lines.value).entries[parameterType].contents.start + parameterNumber / 10;
        && r.value.start.line == lineNo && r.value.end.line == lineNo
        && 0 <= r.value.start.character <= r.value.end.character <= |lines.value[lineNo]|
        && lines.value[lineNo][r.value.start.character..r.value.end.character] == Split(lines.value[lineNo])[parameterNumber % 10]
  {
    if lines.Some? && parameterType in Sections(Parameter, lines.value).entries {
      var lineNo := Sections(Parameter, lines.value).entries[parameterType].contents.start + parameterNumber / 10;
      if NonEmptyLine(lines, lineNo).Some? {
        RangeIsSplitPiece(lines.value[lineNo], parameterNumber % 10);
      }
    }
  }

  /** `RobotController.getParameterLocation`: the range getParameterRange
      finds in ALL.PRM, as a location in that file. `lines` is None when
      the file is missing or unreadable; either way there is no range. */
  function ParameterLocation(path: string, lines: Option<seq<string>>, parameterType: string, parameterNumber: nat)
    : (r: Option<Location>)
    ensures r.Some? <==>
      && lines.Some?
      && parameterType in Sections(Parameter, lines.value).entries
      && NonEmptyLine(lines, Sections(Parameter, lines.value).entries[parameterType].contents.start + parameterNumber / 10).Some?
      && parameterNumber % 10 < |Split(lines.value[Sections(Parameter, lines.value).entries[parameterType].contents.start + parameterNumber / 10])|
    ensures r.Some? ==>
      && r.value.path == path
      && r.value.range.start.line == r.value.range.end.line
         == Sections(Parameter, lines.value).entries[parameterType].contents.start + parameterNumber / 10
      && 0 <= r.value.range.start.character <= r.value.range.end.character <= |lines.value[r.value.range.start.line]|
      && lines.value[r.value.range.start.line][r.value.range.start.character..r.value.range.end.character]
         == Split(lines.value[r.value.range.start.line])[parameterNumber % 10]
  {
    GetParameterRangeSpec(lines, parameterType, parameterNumber);
    match GetParameterRange(lines, parameterType, parameterNumber)
    case None => None
    case Some(range) => Some(Location(path, range))
  }

  /** A parameter that exists lies on a data line of its own section. */
  lemma ExistingParameterInSection(lines: Option<seq<string>>, parameterType: string, parameterNumber: nat)
    requires IsParameterExist(lines, parameterType, parameterNumber)
    ensures var s := Sections(Parameter, lines.value).entries[parameterType];
      var lineNo := s.contents.start + parameterNumber / 10;
      && 0 <= s.contents.start <= lineNo < s.contents.end <= |lines.value|
      && !StartsWith(lines.value[lineNo], "/")
  {
    var ls := lines.value;
    SectionsWellFormed(Parameter, ls);
    var s := Sections(Parameter, ls).entries[parameterType];
    var lineNo := s.contents.start + parameterNumber / 10;
    assert !Breaks(Classes(Parameter, ls)[lineNo]);
    ClassAt(Parameter, ls, lineNo);
  }

  /** A parameter exists exactly when its number is non-negative and the line
      it addresses, `contents.start + n / 10`, lies inside its section. */
  lemma ParameterExistIsLineInSection(lines: Option<seq<string>>, parameterType: string, parameterNumber: int)
    ensures IsParameterExist(lines, parameterType, parameterNumber) <==>
      && parameterNumber >= 0 && lines.Some?
      && parameterType in Sections(Parameter, lines.value).entries
      && var c := Sections(Parameter, lines.value).entries[parameterType].contents;
         c.start + parameterNumber / 10 < c.end
  {
    if parameterNumber >= 0 && lines.Some? && parameterType in Sections(Parameter, lines.value).entries {
      var c := Sections(Parameter, lines.value).entries[parameterType].contents;
      var q, r := parameterNumber / 10, parameterNumber % 10;
      assert parameterNumber == q * 10 + r && 0 <= r < 10;
      if q < c.end - c.start {
        assert q * 10 + r < (q + 1) * 10 <= (c.end - c.start) * 10;
      } else {
        assert (c.end - c.start) * 10 <= q * 10 <= parameterNumber;
      }
    }
  }

  /** `getParameterValue`'s three outcomes. */
  datatype ParameterValue = FileUnavailable | OutOfRange | Value(value: int)

  /** `getParameterValue`: no table gives FileUnavailable, a number outside
      the section gives OutOfRange, and otherwise the stored value, where a
      missing, zero or NaN value reads as 0. */
  function GetParameterValue(lines: Option<seq<string>>, parameterType: string, parameterNumber: int): (r: ParameterValue)
    ensures r.FileUnavailable? <==> lines.None? || |lines.value| == 0
    ensures r.OutOfRange? <==> ValueTable(lines).Some? && !IsParameterExist(lines, parameterType, parameterNumber)
    ensures r.Value? && r.value != 0 ==>
      parameterNumber >= 0
      && Key(parameterType, parameterNumber) in ValueTable(lines).value
      && ValueTable(lines).value[Key(parameterType, parameterNumber)] == Finite(r.value)
    ensures ValueTable(lines).Some? && IsParameterExist(lines, parameterType, parameterNumber) ==> r.Value?
    ensures (&& r.Value? && Key(parameterType, parameterNumber) in ValueTable(lines).value
             && ValueTable(lines).value[Key(parameterType, parameterNumber)].Finite?) ==>
      r.value == ValueTable(lines).value[Key(parameterType, parameterNumber)].value
    ensures (&& r.Value?
             && !(&& Key(parameterType, parameterNumber) in ValueTable(lines).value
                  && ValueTable(lines).value[Key(parameterType, parameterNumber)].Finite?)) ==>
      r.value == 0
  {
    match ValueTable(lines)
    case None => FileUnavailable
    case Some(table) =>
      if !IsParameterExist(lines, parameterType, parameterNumber) then OutOfRange
      else
        var key := Key(parameterType, parameterNumber);
        if key in table && table[key].Finite? then Value(table[key].value) else Value(0)
  }

  /** `onHover`: `<section> <offset * 10 + field index>` for a line inside a
      section; None outside every section or on a missing or empty line. */
  function Hover(lines: Option<seq<string>>, pos: Position): (r: Option<string>)
    ensures r.Some? <==>
      lines.Some? && NameAtLine(Sections(Parameter, lines.value), pos.line).Some?
      && NonEmptyLine(lines, pos.line).Some?
  {
    match DocumentSections(Parameter, lines)
    case None => None
    case Some(m) =>
      match NameAtLine(m, pos.line)
      case None => None
      case Some(name) =>
        var offset := pos.line - m.entries[name].contents.start;
        match NonEmptyLine(lines, pos.line)
        case None => None
        case Some(lineText) =>
          Some(name + " " + NatToString(offset * 10 + IndexAtPosition(lineText, pos.character)))
  }

  /** The number a hover shows, when it is below ten fields into the line,
      addresses the very field under the cursor: getParameterRange of that
      number covers the cursor. */
  lemma HoverThenRange(lines: Option<seq<string>>, pos: Position)
    requires Hover(lines, pos).Some?
    requires 0 <= pos.character <= |lines.value[pos.line]|
    ensures var m := Sections(Parameter, lines.value);
      var name := NameAtLine(m, pos.line).value;
      var n := (pos.line - m.entries[name].contents.start) * 10 + IndexAtPosition(lines.value[pos.line], pos.character);
      && Hover(lines, pos) == Some(name + " " + NatToString(n))
      && (IndexAtPosition(lines.value[pos.line], pos.character) < 10 ==>
            && GetParameterRange(lines, name, n).Some?
            && var rg := GetParameterRange(lines, name, n).value;
               rg.start.line == pos.line
               && rg.start.character <= pos.character <= rg.end.character)
  {
    var m := Sections(Parameter, lines.value);
    var name := NameAtLine(m, pos.line).value;
    var lineText := lines.value[pos.line];
    var idx := IndexAtPosition(lineText, pos.character);
    var n := (pos.line - m.entries[name].contents.start) * 10 + idx;
    if idx < 10 {
      assert n / 10 == pos.line - m.entries[name].contents.start && n % 10 == idx;
      IndexThenRange(lineText, pos.character);
    }
  }

  // ---------------------------------------------------------------------
  // The handler

  /** The `forEach` over one line's fields: each value string's number is
      set under the section name and base + its index. */
  method SetValues(table: map<string, Num>, sectionName: string, base: nat, valueStrings: seq<string>, toNumber: string -> Num)
    returns (r: map<string, Num>)
    ensures r == WriteFields(table, sectionName, base, Numbers(valueStrings, toNumber))
  {
    r := table;
    var index := 0;
    while index < |valueStrings|
      invariant 0 <= index <= |valueStrings|
      invariant r == WriteFields(table, sectionName, base, Numbers(valueStrings[..index], toNumber))
    {
      var value := toNumber(valueStrings[index]);
      WriteNextField(table, sectionName, base, valueStrings, index, toNumber);
      r := r[Key(sectionName, base + index) := value];
      index := index + 1;
    }
    assert valueStrings[..index] == valueStrings;
  }

  /** Writing the first k + 1 fields is writing the first k and then field k
      under number base + k. */
  lemma WriteNextField(table: map<string, Num>, name: string, base: nat, fields: seq<string>, k: nat, toNumber: string -> Num)
    requires k < |fields|
    ensures WriteFields(table, name, base, Numbers(fields[..k + 1], toNumber))
      == WriteFields(table, name, base, Numbers(fields[..k], toNumber))[Key(name, base + k) := toNumber(fields[k])]
  {
    var done := Numbers(fields[..k], toNumber);
    assert fields[..k + 1][..k] == fields[..k];
    assert Numbers(fields[..k + 1], toNumber) == done + [toNumber(fields[k])];
    WriteFieldsSnoc(table, name, base, done, toNumber(fields[k]));
  }

  /** One more line of the value scan. */
  lemma RunExtends(cls: seq<LineClass>, lines: seq<string>, i: nat, sc: ValueScan, sc': ValueScan, toNumber: string -> Num)
    requires i < |lines| == |cls|
    requires sc == ValuesRun(cls, lines, i, toNumber) && sc' == ValueStep(sc, i, cls[i], lines[i], toNumber)
    ensures sc' == ValuesRun(cls, lines, i + 1, toNumber)
  {
  }

  /** ValueStep on a data line, stated over any scan state, with the
      line's first number given as `base`. */
  lemma DataStep(sc: ValueScan, i: nat, line: string, base: nat, toNumber: string -> Num)
    requires sc.startLine <= i && base == (i - sc.startLine) * 10
    ensures ValueStep(sc, i, Data, line, toNumber).table == WriteFields(sc.table, sc.sectionName, base, Numbers(Split(line), toNumber))
  {
  }

  /** The body of updateParameterValue's loop for line i: a `/` line moves
      the start line and may open a section; any other line stores its
      fields. */
  method ScanLine(sectionName: string, startLine: nat, table: map<string, Num>, i: nat, lineText: string, toNumber: string -> Num)
    returns (sectionName': string, startLine': nat, table': map<string, Num>)
    requires startLine <= i
    ensures ValueScan(sectionName', startLine', table')
      == ValueStep(ValueScan(sectionName, startLine, table), i, Classify(Parameter, lineText), lineText, toNumber)
  {
    sectionName', startLine', table' := sectionName, startLine, table;
    var newSectionName := ExtractSectionName(lineText);
    if StartsWith(lineText, "/") {
      startLine' := i + 1;
      if newSectionName == "" || newSectionName == "CRC" {
        return;
      }
      sectionName' := newSectionName;
    } else {
      var base := (i - startLine) * 10;
      DataStep(ValueScan(sectionName, startLine, table), i, lineText, base, toNumber);
      table' := SetValues(table, sectionName, base, Split(lineText), toNumber);
    }
  }

  class ParameterFile {
    /** The text and the memoised sections of the ALL.PRM file. */
    const file: RobotControllerFile
    /** The memoised result of updateParameterValue. */
    var parameterValueMap: Option<map<string, Num>>

    ghost predicate Valid()
      reads this, file, file.sectionedDocument
    {
      && file.Valid() && file.kind == Parameter
      && (parameterValueMap.Some? ==> parameterValueMap == ValueTable(file.lines))
    }

    constructor(lines: Option<seq<string>>)
      ensures Valid() && fresh(file)
      ensures file.lines == lines && parameterValueMap == None
    {
      file := new RobotControllerFile(Parameter, lines);
      parameterValueMap := None;
    }

    /** `updateParameterValue`: built once from the text, cached, then
        returned as is; None, and nothing cached, for a missing or empty
        text. */
    method UpdateParameterValue() returns (r: Option<map<string, Num>>)
      requires Valid()
      modifies this
      ensures Valid()
      ensures r == ValueTable(file.lines)
      ensures parameterValueMap == r
      ensures old(parameterValueMap).Some? ==> parameterValueMap == old(parameterValueMap)
    {
      if parameterValueMap.Some? {
        return parameterValueMap;
      }
      if file.lines.None? || |file.lines.value| == 0 {
        return None;
      }
      var textLines := file.lines.value;
      ghost var cls := Classes(Parameter, textLines);
      var table: map<string, Num> := map[];
      var sectionName := "";
      var startLine: nat := 0;
      var i := 0;
      while i < |textLines|
        invariant 0 <= i <= |textLines|
        invariant ValueScan(sectionName, startLine, table) == ValuesRun(cls, textLines, i, ToNumber)
      {
        ClassAt(Parameter, textLines, i);
        ghost var before := ValueScan(sectionName, startLine, table);
        sectionName, startLine, table := ScanLine(sectionName, startLine, table, i, textLines[i], ToNumber);
        RunExtends(cls, textLines, i, before, ValueScan(sectionName, startLine, table), ToNumber);
        i := i + 1;
      }
      parameterValueMap := Some(table);
      return parameterValueMap;
    }
  }
}
