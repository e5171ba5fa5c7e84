/** The line-prefix sectioners of all file kinds. Each kind's `updateSection`
    is one top-to-bottom loop that keeps the name of the open section, its
    header range and its contents range, and commits the open section to the
    sectioned document when a new header arrives and at end of file. The
    kinds differ only in how a line is read, which `Classify` captures. */
module Sectioner {

  import opened Protocol
  import opened OrderedMaps
  import opened Util
  import opened SectionedDocuments

  /** The header grammars: the generic handler, ALL.PRM parameter files,
      IONAME.DAT, VAR.DAT, IOMNAME.DAT and JBI job files. */
  datatype FileKind = Generic | Parameter | IoName | VarDat | IoMName | Jbi

  /** What one line does to the sectioner state. */
  datatype LineClass =
    | Data                // extends the open contents range to this line
    | Open(name: string)  // commits the open section and opens `name`
    | Restart             // moves the header end here; contents restart after it
    | ExtendHeader        // moves the header end here only
    | Skip                // changes nothing

  /** How each kind reads a line. */
  function Classify(kind: FileKind, line: string): LineClass
  {
    match kind
    case Generic =>
      // the whole header line is the name; it is never empty
      if !StartsWith(line, "/") then Data
      else if |line| == 0 then ExtendHeader
      else Open(line)
    case Parameter =>
      if !StartsWith(line, "/") then Data
      else
        var name := ExtractSectionName(line);
        if name == "" || name == "CRC" then Restart else Open(name)
    case IoName =>
      if !StartsWith(line, "/") then Data
      else
        var name := ExtractSectionName(line);
        if name == "" then ExtendHeader else Open(name)
    case VarDat =>
      if !StartsWith(line, "/") then Data
      else
        var name := ExtractSectionName(line);
        if name == "" then Skip else Open(name)
    case IoMName =>
      if !StartsWith(line, "/") then Data
      else
        var name := ExtractSectionName(line);
        if name == "" then Skip
        else if name == "NAME" then Restart
        else Open(name)
    case Jbi =>
      if !StartsWith(line, "//") then Data
      else
        var name := ExtractSectionName(line);
        if name == "" || StartsWith(line, "///") then Restart else Open(name)
  }

  /** The loop variables of updateSection. In VAR.DAT the header and the
      contents are one shared range object, so there `header == contents`. */
  datatype State = State(current: string, header: LineRange, contents: LineRange, doc: SectionMap)

  function Init(): State
  {
    State("", LineRange(0, 0), LineRange(0, 0), Empty())
  }

  /** Commit of the open section: only with a non-empty name and a
      non-empty contents range. */
  function Commit(st: State): (m: SectionMap)
    requires Wf(st.doc)
    ensures Wf(m)
  {
    if |st.current| > 0 && st.contents.start != st.contents.end
    then Put(st.doc, st.current, Section(st.header, st.contents))
    else st.doc
  }

  /** One iteration of the loop, for line number `i` read as `c`. */
  function Step(kind: FileKind, st: State, i: int, c: LineClass): (r: State)
    requires Wf(st.doc)
    ensures Wf(r.doc)
  {
    match c
    case Data =>
      var cs := LineRange(st.contents.start, i + 1);
      st.(contents := cs, header := if kind == VarDat then cs else st.header)
    case Open(name) =>
      State(name, if kind == VarDat then LineRange(i + 1, i + 1) else LineRange(i, i),
            LineRange(i + 1, i + 1), Commit(st))
    case Restart =>
      st.(header := LineRange(st.header.start, i), contents := LineRange(i + 1, i + 1))
    case ExtendHeader =>
      st.(header := LineRange(st.header.start, i))
    case Skip =>
      st
  }

  /** How each line of the file reads. */
  function Classes(kind: FileKind, lines: seq<string>): (cls: seq<LineClass>)
    ensures |cls| == |lines|
  {
    if lines == [] then [] else Classes(kind, lines[..|lines| - 1]) + [Classify(kind, lines[|lines| - 1])]
  }

  lemma {:induction false} ClassesAt(kind: FileKind, lines: seq<string>)
    ensures forall k :: 0 <= k < |lines| ==> Classes(kind, lines)[k] == Classify(kind, lines[k])
    decreases |lines|
  {
    if lines != [] {
      var init := lines[..|lines| - 1];
      ClassesAt(kind, init);
      assert forall k :: 0 <= k < |init| ==> lines[k] == init[k];
    }
  }

  /** The state after the first n lines. */
  function Run(kind: FileKind, cls: seq<LineClass>, n: nat): (r: State)
    requires n <= |cls|
    ensures Wf(r.doc)
  {
    if n == 0 then Init() else Step(kind, Run(kind, cls, n - 1), n - 1, cls[n - 1])
  }

  /** The sectioned document updateSection builds from the lines. */
  function Sections(kind: FileKind, lines: seq<string>): (m: SectionMap)
    ensures Wf(m)
  {
    var cls := Classes(kind, lines);
    Commit(Run(kind, cls, |cls|))
  }

  /** `updateSection` (the loop, without the cache): proved to build exactly
      `Sections(kind, lines)`. */
  method BuildSections(kind: FileKind, lines: seq<string>) returns (doc: SectionedDocument)
    ensures fresh(doc) && doc.Valid()
    ensures doc.sectionMap == Sections(kind, lines)
  {
    var currentSection := "";
    var headerRange := LineRange(0, 0);
    var contentsRange := LineRange(0, 0);
    doc := new SectionedDocument();
    var i := 0;
    while i < |lines|
      invariant 0 <= i <= |lines|
      invariant doc.Valid()
      invariant State(currentSection, headerRange, contentsRange, doc.sectionMap) == Run(kind, Classes(kind, lines), i)
    {
      ClassAt(kind, lines, i);
      currentSection, headerRange, contentsRange :=
        ReadLine(doc, kind, i, Classify(kind, lines[i]), currentSection, headerRange, contentsRange);
      i := i + 1;
    }
    if |currentSection| > 0 && contentsRange.start != contentsRange.end {
      doc.SetSectionRange(currentSection, Section(headerRange, contentsRange));
    }
  }

  /** The body of the loop of `updateSection` for line i, read as c: the
      loop variables and the document move as `Step` says. */
  method ReadLine(doc: SectionedDocument, kind: FileKind, i: int, c: LineClass,
                  current: string, header: LineRange, contents: LineRange)
    returns (currentSection: string, headerRange: LineRange, contentsRange: LineRange)
    requires doc.Valid()
    modifies doc
    ensures doc.Valid()
    ensures State(currentSection, headerRange, contentsRange, doc.sectionMap)
         == Step(kind, State(current, header, contents, old(doc.sectionMap)), i, c)
  {
    currentSection, headerRange, contentsRange := current, header, contents;
    match c {
      case Data =>
        contentsRange := contentsRange.(end := i + 1);
        if kind == VarDat {
          headerRange := contentsRange;
        }
      case Open(name) =>
        if |currentSection| > 0 && contentsRange.start != contentsRange.end {
          doc.SetSectionRange(currentSection, Section(headerRange, contentsRange));
        }
        headerRange := if kind == VarDat then LineRange(i + 1, i + 1) else LineRange(i, i);
        contentsRange := LineRange(i + 1, i + 1);
        currentSection := name;
      case Restart =>
        headerRange := headerRange.(end := i);
        contentsRange := LineRange(i + 1, i + 1);
      case ExtendHeader =>
        headerRange := headerRange.(end := i);
      case Skip =>
    }
  }

  // ---------------------------------------------------------------------
  // What the sectioners guarantee

  /** A line that ends the open contents range. */
  predicate Breaks(c: LineClass)
  {
    c.Open? || c.Restart?
  }

  ghost predicate NoBreakIn(cls: seq<LineClass>, lo: int, hi: int)
  {
    forall k :: lo <= k < hi && 0 <= k < |cls| ==> !Breaks(cls[k])
  }

  /** The line that opened a section: its header line, except in VAR.DAT,
      where the stored header is the contents range itself. */
  function HeaderLine(kind: FileKind, header: LineRange, contents: LineRange): int
  {
    if kind == VarDat then contents.start - 1 else header.start
  }

  /** Which classes a kind can produce. */
  ghost predicate KindShape(kind: FileKind, cls: seq<LineClass>)
  {
    forall k :: 0 <= k < |cls| ==>
      && (kind == VarDat ==> !cls[k].Restart? && !cls[k].ExtendHeader?)
      && (kind == Generic ==> cls[k].Data? || cls[k].Open?)
  }

  /** What holds of every committed section, with `bound` an upper bound
      of its contents end. */
  ghost predicate GoodSection(kind: FileKind, cls: seq<LineClass>, name: string, s: Section, bound: int)
  {
    var h := HeaderLine(kind, s.header, s.contents);
    && 0 <= h < s.contents.start < s.contents.end <= bound
    && s.contents.end <= |cls|
    && cls[h] == Open(name)
    && NoBreakIn(cls, s.contents.start, s.contents.end)
    && (kind == VarDat ==> s.header == s.contents)
    && (kind == Generic ==> s.contents.start == s.header.start + 1
                            && (s.contents.end == |cls| || cls[s.contents.end].Open?))
  }

  /** Contents ranges of different names do not overlap. */
  ghost predicate Disjoint(m: SectionMap)
  {
    forall a, b :: a in m.entries && b in m.entries && a != b ==>
      m.entries[a].contents.end <= m.entries[b].contents.start ||
      m.entries[b].contents.end <= m.entries[a].contents.start
  }

  ghost predicate AllGood(kind: FileKind, cls: seq<LineClass>, m: SectionMap, bound: int)
  {
    forall name :: name in m.entries ==> GoodSection(kind, cls, name, m.entries[name], bound)
  }

  /** The loop invariant of updateSection after n lines. */
  ghost predicate Inv(kind: FileKind, cls: seq<LineClass>, n: int, st: State)
  {
    && 0 <= n <= |cls|
    && 0 <= st.contents.start <= st.contents.end <= n
    && NoBreakIn(cls, st.contents.start, n)
    && AllGood(kind, cls, st.doc, st.contents.start)
    && Disjoint(st.doc)
    && (kind == VarDat ==> st.header == st.contents)
    && (st.current != "" ==>
          var h := HeaderLine(kind, st.header, st.contents);
          0 <= h < st.contents.start && cls[h] == Open(st.current))
    && (kind == Generic ==> st.contents.end == n
                            && (st.current != "" ==> st.contents.start == st.header.start + 1))
  }

  lemma AllGoodWeaken(kind: FileKind, cls: seq<LineClass>, m: SectionMap, b: int, b': int)
    requires AllGood(kind, cls, m, b) && b <= b'
    ensures AllGood(kind, cls, m, b')
  {
  }

  /** Committing the open section keeps every committed section good, now
      bounded by the current line, and keeps them disjoint. */
  lemma CommitKeepsInv(kind: FileKind, cls: seq<LineClass>, i: int, st: State)
    requires Wf(st.doc) && Inv(kind, cls, i, st) && i < |cls|
    requires kind == Generic ==> cls[i].Open?
    ensures Disjoint(Commit(st))
    ensures AllGood(kind, cls, Commit(st), i)
  {
    AllGoodWeaken(kind, cls, st.doc, st.contents.start, i);
    if |st.current| > 0 && st.contents.start != st.contents.end {
      var m := Commit(st);
      var s := Section(st.header, st.contents);
      assert GoodSection(kind, cls, st.current, s, i);
      forall a, b | a in m.entries && b in m.entries && a != b
        ensures m.entries[a].contents.end <= m.entries[b].contents.start ||
                m.entries[b].contents.end <= m.entries[a].contents.start
      {
        if a != st.current && b != st.current {
          assert m.entries[a] == st.doc.entries[a] && m.entries[b] == st.doc.entries[b];
        }
      }
    }
  }

  lemma StepOpenKeepsInv(kind: FileKind, cls: seq<LineClass>, i: int, st: State)
    requires Wf(st.doc) && Inv(kind, cls, i, st) && KindShape(kind, cls)
    requires i < |cls| && cls[i].Open?
    ensures Inv(kind, cls, i + 1, Step(kind, st, i, cls[i]))
  {
    CommitKeepsInv(kind, cls, i, st);
  }

  lemma StepDataKeepsInv(kind: FileKind, cls: seq<LineClass>, i: int, st: State)
    requires Wf(st.doc) && Inv(kind, cls, i, st) && KindShape(kind, cls)
    requires i < |cls| && cls[i].Data?
    ensures Inv(kind, cls, i + 1, Step(kind, st, i, cls[i]))
  {
  }

  lemma StepRestartKeepsInv(kind: FileKind, cls: seq<LineClass>, i: int, st: State)
    requires Wf(st.doc) && Inv(kind, cls, i, st) && KindShape(kind, cls)
    requires i < |cls| && cls[i].Restart?
    ensures Inv(kind, cls, i + 1, Step(kind, st, i, cls[i]))
  {
    AllGoodWeaken(kind, cls, st.doc, st.contents.start, i + 1);
  }

  lemma StepQuietKeepsInv(kind: FileKind, cls: seq<LineClass>, i: int, st: State)
    requires Wf(st.doc) && Inv(kind, cls, i, st) && KindShape(kind, cls)
    requires i < |cls| && (cls[i].ExtendHeader? || cls[i].Skip?)
    ensures Inv(kind, cls, i + 1, Step(kind, st, i, cls[i]))
  {
  }

  lemma {:induction false} RunKeepsInv(kind: FileKind, cls: seq<LineClass>, n: nat)
    requires n <= |cls| && KindShape(kind, cls)
    ensures Inv(kind, cls, n, Run(kind, cls, n))
  {
    if n > 0 {
      RunKeepsInv(kind, cls, n - 1);
      StepKeepsInv(kind, cls, n - 1, Run(kind, cls, n - 1));
    }
  }

  /** Every kind of line keeps the invariant. */
  lemma StepKeepsInv(kind: FileKind, cls: seq<LineClass>, i: int, st: State)
    requires Wf(st.doc) && Inv(kind, cls, i, st) && KindShape(kind, cls) && i < |cls|
    ensures Inv(kind, cls, i + 1, Step(kind, st, i, cls[i]))
  {
    match cls[i]
    case Open(_) => StepOpenKeepsInv(kind, cls, i, st);
    case Data => StepDataKeepsInv(kind, cls, i, st);
    case Restart => StepRestartKeepsInv(kind, cls, i, st);
    case ExtendHeader => StepQuietKeepsInv(kind, cls, i, st);
    case Skip => StepQuietKeepsInv(kind, cls, i, st);
  }

  lemma ClassAt(kind: FileKind, lines: seq<string>, k: nat)
    requires k < |lines|
    ensures Classes(kind, lines)[k] == Classify(kind, lines[k])
  {
    ClassesAt(kind, lines);
  }

  lemma ClassesShape(kind: FileKind, lines: seq<string>)
    ensures KindShape(kind, Classes(kind, lines))
  {
    ClassesAt(kind, lines);
  }

  /** The final flush keeps the committed sections good and disjoint. */
  lemma FlushKeepsInv(kind: FileKind, cls: seq<LineClass>, st: State)
    requires Wf(st.doc) && Inv(kind, cls, |cls|, st)
    ensures Disjoint(Commit(st))
    ensures AllGood(kind, cls, Commit(st), |cls|)
  {
    AllGoodWeaken(kind, cls, st.doc, st.contents.start, |cls|);
    var m := Commit(st);
    if |st.current| > 0 && st.contents.start != st.contents.end {
      var s := Section(st.header, st.contents);
      assert GoodSection(kind, cls, st.current, s, |cls|);
      forall a, b | a in m.entries && b in m.entries && a != b
        ensures m.entries[a].contents.end <= m.entries[b].contents.start ||
                m.entries[b].contents.end <= m.entries[a].contents.start
      {
        if a != st.current && b != st.current {
          assert m.entries[a] == st.doc.entries[a] && m.entries[b] == st.doc.entries[b];
        }
      }
    }
  }

  /** Every sectioner's output: recorded contents ranges are non-empty, lie
      within the file, never hold a line that opens or restarts a section,
      do not overlap one another, and follow a header line that opens that
      very name (in VAR.DAT the header range is the contents range). */
  lemma SectionsWellFormed(kind: FileKind, lines: seq<string>)
    ensures Disjoint(Sections(kind, lines))
    ensures AllGood(kind, Classes(kind, lines), Sections(kind, lines), |lines|)
  {
    var cls := Classes(kind, lines);
    ClassesShape(kind, lines);
    RunKeepsInv(kind, cls, |cls|);
    FlushKeepsInv(kind, cls, Run(kind, cls, |cls|));
  }
}
