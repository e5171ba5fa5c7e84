/** The part every file handler shares: the text of its file, the memoised
    sectioned document, and folding ranges over the sections. ParameterFile,
    VarDatFile and IoMNameDatFile repeat this cache field by field instead of
    inheriting it; here each handler holds one `RobotControllerFile` of its
    own kind. */
module RobotControllerFiles {

  import opened Protocol
  import opened OrderedMaps
  import opened Util
  import opened SectionedDocuments
  import opened Sectioner

  /** `workspace.getTextLine`: the line's text, or None when the file cannot
      be read or the line does not exist. */
  function TextLine(lines: Option<seq<string>>, n: int): (r: Option<string>)
    ensures r.Some? <==> lines.Some? && 0 <= n < |lines.value|
    ensures r.Some? ==> r.value == lines.value[n]
  {
    if lines.Some? && 0 <= n < |lines.value| then Some(lines.value[n]) else None
  }

  /** The line's text when it is truthy: the handlers stop at a missing or
      empty line alike. */
  function NonEmptyLine(lines: Option<seq<string>>, n: int): (r: Option<string>)
    ensures r.Some? <==> TextLine(lines, n).Some? && TextLine(lines, n).value != ""
    ensures r.Some? ==> r.value == lines.value[n]
  {
    match TextLine(lines, n)
    case Some(t) => if t == "" then None else Some(t)
    case None => None
  }

  /** The sectioned document the handler sees, or None when its text is
      unavailable. */
  function DocumentSections(kind: FileKind, lines: Option<seq<string>>): (r: Option<SectionMap>)
    ensures r.Some? <==> lines.Some?
    ensures r.Some? ==> r.value == Sections(kind, lines.value) && Wf(r.value)
  {
    match lines
    case Some(ls) => Some(Sections(kind, ls))
    case None => None
  }

  /** One folding range per section, in map order: from the header line to the
      last contents line. */
  function Folds(m: SectionMap): (r: seq<FoldingRange>)
    requires Wf(m)
    ensures |r| == |m.keys|
  {
    seq(|m.keys|, j requires 0 <= j < |m.keys| =>
      FoldingRange(m.entries[m.keys[j]].header.start, m.entries[m.keys[j]].contents.end - 1))
  }

  class RobotControllerFile {
    /** Which header grammar the handler uses. */
    const kind: FileKind
    /** `workspace.getTextLines(filePath)`: None when the file cannot be read. */
    const lines: Option<seq<string>>
    /** The memoised result of `updateSection`. */
    var sectionedDocument: SectionedDocument?

    ghost predicate Valid()
      reads this, sectionedDocument
    {
      sectionedDocument != null ==>
        && lines.Some?
        && sectionedDocument.Valid()
        && sectionedDocument.sectionMap == Sections(kind, lines.value)
    }

    constructor(kind: FileKind, lines: Option<seq<string>>)
      ensures Valid()
      ensures this.kind == kind && this.lines == lines && sectionedDocument == null
    {
      this.kind := kind;
      this.lines := lines;
      sectionedDocument := null;
    }

    /** `updateSection`: built once and then returned as is; with no text it
        returns null and caches nothing. */
    method UpdateSection() returns (doc: SectionedDocument?)
      requires Valid()
      modifies this
      ensures Valid()
      ensures old(sectionedDocument) != null ==> doc == old(sectionedDocument)
      ensures lines.None? ==> doc == null
      ensures lines.Some? ==> doc != null && doc.sectionMap == Sections(kind, lines.value)
      ensures sectionedDocument == doc
      ensures old(sectionedDocument) == null && doc != null ==> fresh(doc)
    {
      if sectionedDocument != null {
        return sectionedDocument;
      }
      if lines.None? {
        return null;
      }
      doc := BuildSections(kind, lines.value);
      sectionedDocument := doc;
    }

    /** `onFoldingRanges`: pushes one range per section while walking the map. */
    method OnFoldingRanges() returns (r: Option<seq<FoldingRange>>)
      requires Valid()
      modifies this
      ensures Valid()
      ensures r.None? <==> lines.None?
      ensures r.Some? ==> r.value == Folds(Sections(kind, lines.value))
    {
      var doc := UpdateSection();
      if doc == null {
        return None;
      }
      var m := doc.sectionMap;
      var foldingRanges: seq<FoldingRange> := [];
      var j := 0;
      while j < |m.keys|
        invariant 0 <= j <= |m.keys|
        invariant foldingRanges == Folds(m)[..j]
      {
        var value := m.entries[m.keys[j]];
        foldingRanges := foldingRanges + [FoldingRange(value.header.start, value.contents.end - 1)];
        j := j + 1;
      }
      return Some(foldingRanges);
    }
  }

  // ---------------------------------------------------------------------
  // Properties

  /** Folding ranges of any handler: one per recorded section in map order;
      each starts on the line that opened the section (the first contents
      line in VAR.DAT, where header and contents coincide), ends on the last
      contents line, and lies within the file. */
  lemma FoldsWithinFile(kind: FileKind, lines: seq<string>)
    ensures var m := Sections(kind, lines);
      && |Folds(m)| == |m.keys|
      && forall j :: 0 <= j < |m.keys| ==> FoldFits(kind, lines, m, j)
  {
    SectionsWellFormed(kind, lines);
    var m := Sections(kind, lines);
    forall j | 0 <= j < |m.keys|
      ensures FoldFits(kind, lines, m, j)
    {
      FoldAt(kind, lines, m, j);
    }
  }

  /** Every contents range of the map lies within a file of n lines. */
  ghost predicate Within(m: SectionMap, n: int)
  {
    forall name :: name in m.entries ==>
      0 <= m.entries[name].contents.start <= m.entries[name].contents.end <= n
  }

  /** Any sectioner's contents ranges lie within the file. */
  lemma SectionsWithin(kind: FileKind, lines: seq<string>)
    ensures Within(Sections(kind, lines), |lines|)
  {
    SectionsWellFormed(kind, lines);
    var m := Sections(kind, lines);
    forall name | name in m.entries
      ensures 0 <= m.entries[name].contents.start <= m.entries[name].contents.end <= |lines|
    {
      assert GoodSection(kind, Classes(kind, lines), name, m.entries[name], |lines|);
    }
  }

  /** What FoldsWithinFile states of the j-th folding range. */
  ghost predicate FoldFits(kind: FileKind, lines: seq<string>, m: SectionMap, j: int)
    requires Wf(m) && 0 <= j < |m.keys|
  {
    var f := Folds(m)[j];
    var s := m.entries[m.keys[j]];
    && 0 <= f.startLine <= f.endLine < |lines|
    && f.endLine == s.contents.end - 1
    && (kind != VarDat ==> f.startLine < s.contents.start
                           && Classify(kind, lines[f.startLine]) == Open(m.keys[j]))
    && (kind == VarDat ==> f.startLine == s.contents.start && 0 < f.startLine
                           && Classify(kind, lines[f.startLine - 1]) == Open(m.keys[j]))
  }

  lemma FoldAt(kind: FileKind, lines: seq<string>, m: SectionMap, j: int)
    requires m == Sections(kind, lines) && 0 <= j < |m.keys|
    requires AllGood(kind, Classes(kind, lines), m, |lines|)
    ensures FoldFits(kind, lines, m, j)
  {
    var name := m.keys[j];
    assert name in m.entries;
    var s := m.entries[name];
    assert GoodSection(kind, Classes(kind, lines), name, s, |lines|);
    ClassAt(kind, lines, HeaderLine(kind, s.header, s.contents));
  }

  /** The generic sectioner: every recorded name is a whole `/` line; its
      contents start right after that line, are non-empty, hold no `/` line,
      and end at the next `/` line or at end of file; and contents of
      different names never overlap. */
  lemma GenericSections(lines: seq<string>)
    ensures var m := Sections(Generic, lines);
      forall name :: name in m.entries ==>
        var s := m.entries[name];
        && 0 <= s.header.start && s.contents.start == s.header.start + 1
        && s.contents.start < s.contents.end <= |lines|
        && lines[s.header.start] == name && StartsWith(name, "/")
        && (forall k :: s.contents.start <= k < s.contents.end ==> !StartsWith(lines[k], "/"))
        && (s.contents.end == |lines| || StartsWith(lines[s.contents.end], "/"))
    ensures Disjoint(Sections(Generic, lines))
  {
    SectionsWellFormed(Generic, lines);
    ClassesAt(Generic, lines);
    var m := Sections(Generic, lines);
    var cls := Classes(Generic, lines);
    forall name | name in m.entries
      ensures var s := m.entries[name];
        && (forall k :: s.contents.start <= k < s.contents.end ==> !StartsWith(lines[k], "/"))
        && (s.contents.end == |lines| || StartsWith(lines[s.contents.end], "/"))
    {
      var s := m.entries[name];
      forall k | s.contents.start <= k < s.contents.end
        ensures !StartsWith(lines[k], "/")
      {
        assert !Breaks(cls[k]);
      }
      if s.contents.end < |lines| {
        assert cls[s.contents.end].Open?;
      }
    }
  }

  /** Keys are never removed: every name recorded after n lines is still
      recorded at the end. */
  lemma {:induction false} KeysKept(kind: FileKind, cls: seq<LineClass>, n: nat, name: string)
    requires n <= |cls| && name in Run(kind, cls, n).doc.entries
    ensures name in Commit(Run(kind, cls, |cls|)).entries
    decreases |cls| - n
  {
    if n < |cls| {
      assert name in Run(kind, cls, n + 1).doc.entries;
      KeysKept(kind, cls, n + 1, name);
    }
  }

  /** While only data lines follow header line h, the generic sectioner's
      open section is that header with contents [h+1, n). */
  lemma {:induction false} GenericOpenSection(cls: seq<LineClass>, h: nat, n: nat)
    requires h < n <= |cls| && cls[h].Open?
    requires forall k :: h < k < n ==> cls[k].Data?
    ensures Run(Generic, cls, n).current == cls[h].name
    ensures Run(Generic, cls, n).header == LineRange(h, h)
    ensures Run(Generic, cls, n).contents == LineRange(h + 1, n)
  {
    if n > h + 1 {
      GenericOpenSection(cls, h, n - 1);
    }
  }

  /** Conversely, every `/` line followed by a data line gets a section
      under its own name (possibly a later section of the same name). */
  lemma GenericHeaderRecorded(lines: seq<string>, h: nat)
    requires h + 1 < |lines| && StartsWith(lines[h], "/") && !StartsWith(lines[h + 1], "/")
    ensures lines[h] in Sections(Generic, lines).entries
  {
    var cls := Classes(Generic, lines);
    ClassesAt(Generic, lines);
    // the first header line after h, or the end of the file
    var n := h + 2;
    while n < |lines| && !StartsWith(lines[n], "/")
      invariant h + 2 <= n <= |lines|
      invariant forall k :: h < k < n ==> cls[k].Data?
    {
      n := n + 1;
    }
    GenericOpenSection(cls, h, n);
    if n < |lines| {
      assert lines[h] in Run(Generic, cls, n + 1).doc.entries;
      KeysKept(Generic, cls, n + 1, lines[h]);
    }
  }
}
