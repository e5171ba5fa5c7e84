/** The VAR.DAT handler: the file lists the values of the robot's variables,
    one `/<type>` line opening each variable type and then one line per
    variable (ten per line for the byte, integer, double and real types).
    Its sections come from the VarDat sectioner, whose header range is the
    contents range itself; the handler itself only answers hovers. */
module VarDatFiles {

  import opened Protocol
  import opened Util
  import opened SectionedDocuments
  import opened Sectioner
  import opened RobotControllerFiles

  /** The types whose lines hold ten comma-separated values each. */
  predicate TenPerLine(name: string)
  {
    name == "B" || name == "I" || name == "D" || name == "R"
  }

  /** `onHover`: `<type> <offset * 10 + field index>` on a B, I, D or R line,
      `<type> <offset>` in every other section, where offset counts the
      lines from the start of the section's contents; None outside every
      section or on a missing or empty line. */
  function Hover(lines: Option<seq<string>>, pos: Position): (r: Option<string>)
    ensures r.Some? <==>
      && lines.Some? && NameAtLine(Sections(VarDat, lines.value), pos.line).Some?
      && NonEmptyLine(lines, pos.line).Some?
  {
    match DocumentSections(VarDat, lines)
    case None => None
    case Some(m) =>
      match NameAtLine(m, pos.line)
      case None => None
      case Some(name) =>
        var offset := pos.line - m.entries[name].contents.start;
        match NonEmptyLine(lines, pos.line)
        case None => None
        case Some(lineText) =>
          if TenPerLine(name) then
            Some(name + " " + NatToString(offset * 10 + IndexAtPosition(lineText, pos.character)))
          else
            Some(name + " " + NatToString(offset))
  }

  /** A `/` line that opens a VAR.DAT section named `name`. */
  predicate OpensSection(line: string, name: string)
  {
    StartsWith(line, "/") && ExtractSectionName(line) == name && name != ""
  }

  /** The hover names the type of the nearest `/<type>` line above the cursor
      (no other section opens in between) and numbers the cursor's line from
      the line right after it: counted in lines for most types, and ten per
      line plus the field index for B, I, D and R. */
  lemma HoverCountsFromHeader(lines: seq<string>, pos: Position)
    requires Hover(Some(lines), pos).Some?
    ensures var m := Sections(VarDat, lines);
      var name := NameAtLine(m, pos.line).value;
      var h := m.entries[name].contents.start - 1;
      && 0 <= h < pos.line < |lines|
      && OpensSection(lines[h], name)
      && (forall k :: h < k <= pos.line ==> !OpensSection(lines[k], ExtractSectionName(lines[k])))
      && var offset := pos.line - h - 1;
         Hover(Some(lines), pos) == Some(name + " " + NatToString(
           if TenPerLine(name) then offset * 10 + IndexAtPosition(lines[pos.line], pos.character) else offset))
  {
    var m := Sections(VarDat, lines);
    HeaderAbove(lines, NameAtLine(m, pos.line).value, pos.line);
  }

  /** A line inside the contents of a VAR.DAT section lies below the line that
      opened it, with no section opening in between. */
  lemma HeaderAbove(lines: seq<string>, name: string, line: int)
    requires var m := Sections(VarDat, lines);
      name in m.entries && InContents(m.entries[name], line)
    ensures var h := Sections(VarDat, lines).entries[name].contents.start - 1;
      && 0 <= h < line < |lines|
      && OpensSection(lines[h], name)
      && (forall k :: h < k <= line ==> !OpensSection(lines[k], ExtractSectionName(lines[k])))
  {
    var m := Sections(VarDat, lines);
    var cls := Classes(VarDat, lines);
    var s := m.entries[name];
    SectionsWellFormed(VarDat, lines);
    assert GoodSection(VarDat, cls, name, s, |lines|);
    var h := s.contents.start - 1;
    ClassAt(VarDat, lines, h);
    forall k | h < k <= line
      ensures !OpensSection(lines[k], ExtractSectionName(lines[k]))
    {
      assert !Breaks(cls[k]);
      ClassAt(VarDat, lines, k);
    }
  }
}
