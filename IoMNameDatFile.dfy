/** The IOMNAME.DAT handler: the file names the robot's M registers, one
    line per register below a `/<name>` header; a `/NAME` line inside the
    header block only restarts the contents after it. Its sections come
    from the IoMName sectioner and its folding ranges from the shared
    `RobotControllerFile`; the handler itself answers hovers. */
module IoMNameDatFiles {

  import opened Protocol
  import opened Util
  import opened SectionedDocuments
  import opened Sectioner
  import opened RobotControllerFiles

  /** `onHover`: `M <offset>`, offset counting the lines from the start of
      the section's contents; None outside every section or on a missing or
      empty line. */
  function Hover(lines: Option<seq<string>>, pos: Position): (r: Option<string>)
    ensures r.Some? <==>
      && lines.Some? && NameAtLine(Sections(IoMName, lines.value), pos.line).Some?
      && NonEmptyLine(lines, pos.line).Some?
  {
    match DocumentSections(IoMName, lines)
    case None => None
    case Some(m) =>
      match NameAtLine(m, pos.line)
      case None => None
      case Some(name) =>
        var offset := pos.line - m.entries[name].contents.start;
        match NonEmptyLine(lines, pos.line)
        case None => None
        case Some(_) => Some("M " + NatToString(offset))
  }

  /** A `/` line whose extracted name is empty: ignored by the sectioner. */
  predicate BlankHeader(line: string)
  {
    StartsWith(line, "/") && ExtractSectionName(line) == ""
  }

  /** What every recorded section looks like: its header line is `/<name>`
      with a non-empty name other than NAME; its contents start below the
      header, are non-empty, lie within the file, and hold only data lines
      and ignored blank headers (neither a new section nor a `/NAME` line). */
  ghost predicate ShapedSection(lines: seq<string>, name: string, s: Section)
  {
    var h := s.header.start;
    && 0 <= h < s.contents.start < s.contents.end <= |lines|
    && StartsWith(lines[h], "/") && ExtractSectionName(lines[h]) == name
    && name != "" && name != "NAME"
    && forall k :: s.contents.start <= k < s.contents.end ==>
         !StartsWith(lines[k], "/") || BlankHeader(lines[k])
  }

  lemma SectionsShaped(lines: seq<string>, name: string)
    requires name in Sections(IoMName, lines).entries
    ensures ShapedSection(lines, name, Sections(IoMName, lines).entries[name])
  {
    var m := Sections(IoMName, lines);
    var cls := Classes(IoMName, lines);
    var s := m.entries[name];
    SectionsWellFormed(IoMName, lines);
    assert GoodSection(IoMName, cls, name, s, |lines|);
    ClassAt(IoMName, lines, s.header.start);
    forall k | s.contents.start <= k < s.contents.end
      ensures !StartsWith(lines[k], "/") || BlankHeader(lines[k])
    {
      assert !Breaks(cls[k]);
      ClassAt(IoMName, lines, k);
    }
  }

  /** The hover's number is the cursor line's distance from the first
      contents line of a well-shaped section holding it. */
  lemma HoverCountsFromContents(lines: seq<string>, pos: Position)
    requires Hover(Some(lines), pos).Some?
    ensures var m := Sections(IoMName, lines);
      var name := NameAtLine(m, pos.line).value;
      var s := m.entries[name];
      && ShapedSection(lines, name, s)
      && s.contents.start <= pos.line < s.contents.end
      && Hover(Some(lines), pos) == Some("M " + NatToString(pos.line - s.contents.start))
  {
    SectionsShaped(lines, NameAtLine(Sections(IoMName, lines), pos.line).value);
  }
}
