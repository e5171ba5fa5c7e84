/** The result of sectioning one file: named sections, each with a header
    line range and a half-open contents line range, kept in insertion order. */
module SectionedDocuments {

  import opened Protocol
  import opened OrderedMaps

  /** Half-open range of lines [start, end). The source keeps these as
      protocol ranges whose characters are always 0, so only lines are kept. */
  datatype LineRange = LineRange(start: int, end: int)

  datatype Section = Section(header: LineRange, contents: LineRange)

  type SectionMap = OMap<string, Section>

  predicate InContents(s: Section, line: int)
  {
    s.contents.start <= line < s.contents.end
  }

  /** The lookup of getSectionNameFromLine, from key position `j` on: the
      first section in insertion order whose contents hold the line. */
  function NameAtLineFrom(m: SectionMap, line: int, j: nat): (r: Option<string>)
    ensures r.Some? ==> r.value in m.entries && InContents(m.entries[r.value], line)
    ensures r.Some? ==>
      exists idx ::
        && j <= idx < |m.keys| && m.keys[idx] == r.value
        && (forall q :: j <= q < idx && m.keys[q] in m.entries ==> !InContents(m.entries[m.keys[q]], line))
    ensures r.None? ==> forall q :: j <= q < |m.keys| && m.keys[q] in m.entries ==> !InContents(m.entries[m.keys[q]], line)
    decreases |m.keys| - j
  {
    if j >= |m.keys| then None
    else if m.keys[j] in m.entries && InContents(m.entries[m.keys[j]], line) then Some(m.keys[j])
    else NameAtLineFrom(m, line, j + 1)
  }

  /** getSectionNameFromLine as a function of the map: only a name whose
      contents hold the line (NameAtLineSpec states the rest). */
  function NameAtLine(m: SectionMap, line: int): (r: Option<string>)
    requires Wf(m)
    ensures r.Some? ==> r.value in m.entries && InContents(m.entries[r.value], line)
  {
    NameAtLineFrom(m, line, 0)
  }

  /** None exactly when no stored contents range holds the line, and the
      earliest-inserted name when several do. */
  lemma NameAtLineSpec(m: SectionMap, line: int)
    requires Wf(m)
    ensures var r := NameAtLine(m, line);
      && (r.None? <==> forall n :: n in m.entries ==> !InContents(m.entries[n], line))
      && (r.Some? ==>
            exists idx ::
              && 0 <= idx < |m.keys| && m.keys[idx] == r.value
              && (forall q :: 0 <= q < idx ==> !InContents(m.entries[m.keys[q]], line)))
  {
    var r := NameAtLineFrom(m, line, 0);
    if r.None? {
      forall n | n in m.entries ensures !InContents(m.entries[n], line) {
        var q :| 0 <= q < |m.keys| && m.keys[q] == n;
      }
    }
  }

  class SectionedDocument {
    /** Section name to section, in insertion order. */
    var sectionMap: SectionMap

    ghost predicate Valid()
      reads this
    {
      Wf(sectionMap)
    }

    constructor()
      ensures Valid() && sectionMap == Empty()
    {
      sectionMap := Empty();
    }

    /** `getSection`: the stored section, or None. */
    function GetSection(name: string): (r: Option<Section>)
      reads this
      ensures r.Some? <==> name in sectionMap.entries
      ensures r.Some? ==> r.value == sectionMap.entries[name]
    {
      Get(sectionMap, name)
    }

    /** `setSectionRange`: stores the section under the name; only that entry
        changes, and a name already present keeps its position. */
    method SetSectionRange(name: string, section: Section)
      requires Valid()
      modifies this
      ensures Valid()
      ensures sectionMap == Put(old(sectionMap), name, section)
    {
      sectionMap := Put(sectionMap, name, section);
    }

    /** `getSectionNameFromLine`: a search loop over the map in insertion
        order with an early return. */
    method GetSectionNameFromLine(line: int) returns (r: Option<string>)
      requires Valid()
      ensures r == NameAtLine(sectionMap, line)
    {
      var j := 0;
      while j < |sectionMap.keys|
        invariant 0 <= j <= |sectionMap.keys|
        invariant NameAtLine(sectionMap, line) == NameAtLineFrom(sectionMap, line, j)
      {
        var name := sectionMap.keys[j];
        var section := sectionMap.entries[name];
        if section.contents.start <= line < section.contents.end {
          return Some(name);
        }
        j := j + 1;
      }
      return None;
    }
  }
}
