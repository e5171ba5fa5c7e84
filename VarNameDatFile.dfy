/** VARNAME.DAT: per variable type (`///B` … `///EX` sections) the rows
    `<number> <n>,<flags>,<name>`, read until the first line that is not a
    row; name lookups, the row range of a number, name counts across the
    types, the duplicate-name check with its quick-fix text, and the
    quick-fix code actions. */
module VarNameDatFiles {

  import opened Protocol
  import opened OrderedMaps
  import opened Util
  import opened SectionedDocuments
  import opened Sectioner
  import opened RobotControllerFiles
  import opened Translations
  import opened IoNameDatFiles

  // ---------------------------------------------------------------------
  // The row pattern ^([0-9]+)\s+[0-9]+,[0-9+]+,(.*)

  /** The character classes the row pattern repeats. */
  datatype CharClass = Digits | Spaces | DigitsOrPlus | NonTerminators

  predicate InClass(c: char, k: CharClass)
  {
    match k
    case Digits => IsDigit(c)
    case Spaces => IsWhitespace(c)
    case DigitsOrPlus => IsDigit(c) || c == '+'
    case NonTerminators => !IsLineTerminator(c)
  }

  /** End of the longest run of class k starting at i. */
  function RunEnd(s: string, i: nat, k: CharClass): (e: nat)
    requires i <= |s|
    ensures i <= e <= |s|
    ensures e < |s| ==> !InClass(s[e], k)
    decreases |s| - i
  {
    if i == |s| || !InClass(s[i], k) then i else RunEnd(s, i + 1, k)
  }

  /** Every character of the run is in the class. */
  lemma {:induction false} RunEndInClass(s: string, i: nat, k: CharClass, j: nat)
    requires i <= |s| && i <= j < RunEnd(s, i, k)
    ensures InClass(s[j], k)
    decreases |s| - i
  {
    if i < j {
      RunEndInClass(s, i + 1, k, j);
    }
  }

  /** Where the parts of a row end: the leading number, the prefix up to
      the second comma (group 1 of the quick-fix pattern), the name. */
  datatype RowMatch = RowMatch(numberEnd: nat, prefixEnd: nat, nameEnd: nat)

  /** The match of the row pattern at the start of the line. The classes
      next to each other are disjoint (digits, then white space, then
      digits and a comma, then digits or `+` and a comma), so each `+`
      takes its longest run and the match is the only one; `(.*)` runs to
      the first line terminator. */
  function MatchRow(text: string): (r: Option<RowMatch>)
    ensures r.Some? ==>
      && 0 < r.value.numberEnd < r.value.prefixEnd <= r.value.nameEnd <= |text|
      && AllDigits(text[..r.value.numberEnd])
      && text[r.value.prefixEnd - 1] == ','
      && (r.value.nameEnd == |text| || IsLineTerminator(text[r.value.nameEnd]))
  {
    var a := RunEnd(text, 0, Digits);
    if a == 0 then None
    else
      var b := RunEnd(text, a, Spaces);
      if b == a then None
      else
        var c := RunEnd(text, b, Digits);
        if c == b || c == |text| || text[c] != ',' then None
        else
          var d := RunEnd(text, c + 1, DigitsOrPlus);
          if d == c + 1 || d == |text| || text[d] != ',' then None
          else
            assert AllDigits(text[..a]) by {
              forall j | 0 <= j < a ensures IsDigit(text[..a][j]) {
                RunEndInClass(text, 0, Digits, j);
              }
            }
            Some(RowMatch(a, d + 1, RunEnd(text, d + 1, NonTerminators)))
  }

  /** A row's variable number (`+m[1]`) and name (`m[2]`). */
  datatype Row = Row(number: nat, name: string)

  function ParseRow(text: string): (r: Option<Row>)
    ensures r.Some? <==> MatchRow(text).Some?
  {
    match MatchRow(text)
    case None => None
    case Some(m) => Some(Row(DigitsValue(text[..m.numberEnd]), text[m.prefixEnd..m.nameEnd]))
  }

  /** The quick-fix text: `replace(pattern, "$1'" + name)` keeps the
      numeric prefix and puts the quoted name in place of the old one; a
      line that is not a row comes back unchanged. */
  function QuickFixText(text: string, varName: string): (r: string)
  {
    match MatchRow(text)
    case None => text
    case Some(m) => text[..m.prefixEnd] + "'" + varName + text[m.nameEnd..]
  }

  /** The runs of a text that agrees with another on a prefix agree as long
      as they stay inside it. */
  lemma {:induction false} RunEndPrefix(s: string, t: string, i: nat, n: nat, k: CharClass)
    requires i <= n <= |s| && n <= |t| && s[..n] == t[..n]
    requires RunEnd(s, i, k) < n
    ensures RunEnd(t, i, k) == RunEnd(s, i, k)
    decreases n - i
  {
    assert s[i] == s[..n][i] && t[i] == t[..n][i];
    if InClass(s[i], k) {
      RunEndPrefix(s, t, i + 1, n, k);
    }
  }

  /** A line that agrees with a row up to the row's second comma is a row
      with the same number and prefix. */
  lemma MatchRowPrefix(s: string, t: string)
    requires MatchRow(s).Some?
    requires var p := MatchRow(s).value.prefixEnd; p <= |t| && s[..p] == t[..p]
    ensures var m := MatchRow(s).value;
      MatchRow(t) == Some(RowMatch(m.numberEnd, m.prefixEnd, RunEnd(t, m.prefixEnd, NonTerminators)))
  {
    var p := MatchRow(s).value.prefixEnd;
    var a := RunEnd(s, 0, Digits);
    var b := RunEnd(s, a, Spaces);
    var c := RunEnd(s, b, Digits);
    var d := RunEnd(s, c + 1, DigitsOrPlus);
    assert d + 1 == p;
    RunEndPrefix(s, t, 0, p, Digits);
    RunEndPrefix(s, t, a, p, Spaces);
    RunEndPrefix(s, t, b, p, Digits);
    RunEndPrefix(s, t, c + 1, p, DigitsOrPlus);
    assert t[c] == s[..p][c] && t[d] == s[..p][d];
    assert RunEnd(t, 0, Digits) == a && RunEnd(t, a, Spaces) == b;
    assert RunEnd(t, b, Digits) == c && RunEnd(t, c + 1, DigitsOrPlus) == d;
    assert a != 0 && b != a && c != b && c < |t| && t[c] == ',';
    assert d != c + 1 && d < |t| && t[d] == ',';
  }

  /** The quick fix comments the name out: the fixed line is still a row
      with the same number, and its name is the old name behind a quote. */
  lemma QuickFixComments(text: string, varName: string)
    requires ParseRow(text).Some?
    requires forall j :: 0 <= j < |varName| ==> !IsLineTerminator(varName[j])
    ensures ParseRow(QuickFixText(text, varName))
         == Some(Row(ParseRow(text).value.number, "'" + varName))
  {
    var name := "'" + varName;
    assert forall j :: 0 <= j < |name| ==> !IsLineTerminator(name[j]) by {
      forall j | 0 <= j < |name| ensures !IsLineTerminator(name[j]) {
        if j > 0 { assert name[j] == varName[j - 1]; }
      }
    }
    var m := MatchRow(text).value;
    var fixed := text[..m.prefixEnd] + name + text[m.nameEnd..];
    assert QuickFixText(text, varName) == fixed;
    NamedRow(text, fixed, name);
  }

  /** Putting a name without line terminators in place of a row's name
      gives a row with the same number and that name. */
  lemma NamedRow(text: string, fixed: string, name: string)
    requires MatchRow(text).Some?
    requires var m := MatchRow(text).value;
      fixed == text[..m.prefixEnd] + name + text[m.nameEnd..]
    requires forall j :: 0 <= j < |name| ==> !IsLineTerminator(name[j])
    ensures var m := MatchRow(text).value;
      && MatchRow(fixed) == Some(RowMatch(m.numberEnd, m.prefixEnd, m.prefixEnd + |name|))
      && fixed[..m.numberEnd] == text[..m.numberEnd]
      && fixed[m.prefixEnd..m.prefixEnd + |name|] == name
  {
    var m := MatchRow(text).value;
    var p := m.prefixEnd;
    var tail := text[m.nameEnd..];
    assert fixed[..p] == text[..p];
    MatchRowPrefix(text, fixed);
    assert fixed[..m.numberEnd] == fixed[..p][..m.numberEnd];
    assert fixed[p..] == name + tail;
    NameRun(fixed, p, name, tail);
  }

  lemma NameRun(s: string, p: nat, name: string, tail: string)
    requires p + |name| + |tail| == |s| && s[p..] == name + tail
    requires forall j :: 0 <= j < |name| ==> !IsLineTerminator(name[j])
    requires tail == [] || IsLineTerminator(tail[0])
    ensures RunEnd(s, p, NonTerminators) == p + |name|
  {
    NameRunFrom(s, p, p, name, tail);
  }

  lemma {:induction false} NameRunFrom(s: string, p: nat, i: nat, name: string, tail: string)
    requires p <= i <= p + |name| && p + |name| + |tail| == |s| && s[p..] == name + tail
    requires forall j :: 0 <= j < |name| ==> !IsLineTerminator(name[j])
    requires tail == [] || IsLineTerminator(tail[0])
    ensures RunEnd(s, i, NonTerminators) == p + |name|
    decreases p + |name| - i
  {
    if i < p + |name| {
      assert s[i] == s[p..][i - p] == name[i - p];
      NameRunFrom(s, p, i + 1, name, tail);
    } else if tail != [] {
      assert s[i] == s[p..][|name|] == tail[0];
    }
  }

  // ---------------------------------------------------------------------
  // The type tables of updateVarName

  /** A type's table: variable number to name, in insertion order. */
  type NumberTable = OMap<int, string>

  /** The variable types, in the order updateVarName reads them. */
  const VarTypes: seq<string> := ["B", "I", "D", "R", "S", "P", "BP", "EX"]

  /** Each line read as a row, or None for a line that is not one. */
  function Rows(lines: seq<string>): (rows: seq<Option<Row>>)
    ensures |rows| == |lines|
  {
    seq(|lines|, i requires 0 <= i < |lines| => ParseRow(lines[i]))
  }

  /** Line L is a row carrying number x. */
  predicate RowNumbered(rows: seq<Option<Row>>, L: int, x: int)
  {
    0 <= L < |rows| && rows[L].Some? && rows[L].value.number == x
  }

  /** The first line at or after lo that is not a row (where the reading
      loops break), or `end`. */
  function RowsEnd(rows: seq<Option<Row>>, lo: nat, end: nat): (stop: nat)
    requires lo <= end <= |rows|
    ensures lo <= stop <= end
    ensures forall L :: lo <= L < stop ==> rows[L].Some?
    ensures stop < end ==> rows[stop].None?
    decreases end - lo
  {
    if lo == end || rows[lo].None? then lo else RowsEnd(rows, lo + 1, end)
  }

  /** The last line in [lo, hi) that is a row numbered x. */
  function LastRow(rows: seq<Option<Row>>, lo: nat, hi: nat, x: int): (r: Option<nat>)
    requires lo <= hi <= |rows|
    ensures r.Some? ==> lo <= r.value < hi && RowNumbered(rows, r.value, x)
    ensures r.Some? ==> forall L :: r.value < L < hi ==> !RowNumbered(rows, L, x)
    ensures r.None? ==> forall L :: lo <= L < hi ==> !RowNumbered(rows, L, x)
    decreases hi - lo
  {
    if hi == lo then None
    else if RowNumbered(rows, hi - 1, x) then Some(hi - 1)
    else LastRow(rows, lo, hi - 1, x)
  }

  /** The rows from line lo on set into the table in order, up to `end` or
      the first line that is not a row. */
  function RowsFrom(rows: seq<Option<Row>>, lo: nat, end: nat, t: NumberTable): (r: NumberTable)
    requires lo <= end <= |rows|
    ensures Wf(t) ==> Wf(r)
    decreases end - lo
  {
    if lo == end then t
    else
      match rows[lo]
      case None => t
      case Some(row) => RowsFrom(rows, lo + 1, end, Put(t, row.number, row.name))
  }

  /** The last row in [lo, hi) is the last one in [lo + 1, hi), else lo
      itself when it carries the number. */
  lemma LastRowFrom(rows: seq<Option<Row>>, lo: nat, hi: nat, x: int)
    requires lo < hi <= |rows|
    ensures LastRow(rows, lo, hi, x)
         == if LastRow(rows, lo + 1, hi, x).Some? then LastRow(rows, lo + 1, hi, x)
            else if RowNumbered(rows, lo, x) then Some(lo) else None
  {
    var last := LastRow(rows, lo, hi, x);
    var later := LastRow(rows, lo + 1, hi, x);
    if later.Some? {
      assert last.Some? && !(last.value < later.value);
    } else if last.Some? {
      assert last.value == lo;
    }
  }

  /** A number read from the rows holds the name of its last row (later
      duplicates overwrite); a number with no row keeps what it had. */
  lemma {:induction false} RowsFromSpec(rows: seq<Option<Row>>, lo: nat, end: nat, t: NumberTable, x: int)
    requires lo <= end <= |rows|
    ensures var last := LastRow(rows, lo, RowsEnd(rows, lo, end), x);
      Get(RowsFrom(rows, lo, end, t), x) == if last.Some? then Some(rows[last.value].value.name) else Get(t, x)
    decreases end - lo
  {
    if lo < end && rows[lo].Some? {
      var row := rows[lo].value;
      var t' := Put(t, row.number, row.name);
      var stop := RowsEnd(rows, lo, end);
      assert stop == RowsEnd(rows, lo + 1, end);
      assert RowsFrom(rows, lo, end, t) == RowsFrom(rows, lo + 1, end, t');
      RowsFromSpec(rows, lo + 1, end, t', x);
      LastRowFrom(rows, lo, stop, x);
      assert Get(t', x) == if row.number == x then Some(row.name) else Get(t, x);
    } else {
      assert RowsEnd(rows, lo, end) == lo;
    }
  }

  /** The table of one type: the rows of its `///<type>` section, or none
      when the section is missing. */
  function TypeTable(lines: seq<string>, m: SectionMap, varType: string): (r: Option<NumberTable>)
    requires Within(m, |lines|)
    ensures r.Some? ==> Wf(r.value)
  {
    match Get(m, "///" + varType)
    case None => None
    case Some(section) => Some(RowsFrom(Rows(lines), section.contents.start, section.contents.end, Empty()))
  }

  /** Every type table is well formed. */
  ghost predicate InnerWf(tables: OMap<string, NumberTable>)
  {
    Wf(tables) && forall v :: v in tables.entries ==> Wf(tables.entries[v])
  }

  /** The tables of the given types, set in order. */
  function PutTypes(lines: seq<string>, m: SectionMap, types: seq<string>): (r: OMap<string, NumberTable>)
    requires Within(m, |lines|)
    decreases |types|
  {
    if types == [] then Empty()
    else
      var varType := types[|types| - 1];
      var r := PutTypes(lines, m, types[..|types| - 1]);
      match TypeTable(lines, m, varType)
      case None => r
      case Some(t) => Put(r, varType, t)
  }

  lemma {:induction false} PutTypesWf(lines: seq<string>, m: SectionMap, types: seq<string>)
    requires Within(m, |lines|)
    ensures InnerWf(PutTypes(lines, m, types))
    decreases |types|
  {
    if types != [] {
      PutTypesWf(lines, m, types[..|types| - 1]);
    }
  }

  /** The tables updateVarName builds: none when the file cannot be read. */
  function VarNames(lines: Option<seq<string>>): (r: OMap<string, NumberTable>)
    ensures InnerWf(r)
  {
    match lines
    case None => Empty()
    case Some(ls) =>
      SectionsWithin(Generic, ls);
      PutTypesWf(ls, Sections(Generic, ls), VarTypes);
      PutTypes(ls, Sections(Generic, ls), VarTypes)
  }

  /** A type has a table exactly when it is one of the types read and its
      section exists. */
  lemma {:induction false} PutTypesLookup(lines: seq<string>, m: SectionMap, types: seq<string>, varType: string)
    requires Within(m, |lines|)
    ensures Get(PutTypes(lines, m, types), varType)
         == if varType in types then TypeTable(lines, m, varType) else None
    decreases |types|
  {
    if types != [] {
      var prefix := types[..|types| - 1];
      PutTypesLookup(lines, m, prefix, varType);
      assert types == prefix + [types[|types| - 1]];
    }
  }

  /** The lookup of `getVarName`: the type's table entry for the number. */
  function VarNameOf(lines: Option<seq<string>>, varType: string, varNumber: int): (r: Option<string>)
  {
    match Get(VarNames(lines), varType)
    case None => None
    case Some(t) => Get(t, varNumber)
  }

  /** The lines holding the rows of the type's section: from its first
      line up to the first line that is not a row. */
  function RowSpan(lines: seq<string>, varType: string): (r: Option<(nat, nat)>)
    ensures r.Some? ==> r.value.0 <= r.value.1 <= |lines|
  {
    SectionsWithin(Generic, lines);
    match Get(Sections(Generic, lines), "///" + varType)
    case None => None
    case Some(section) =>
      var c := section.contents;
      Some((c.start as nat, RowsEnd(Rows(lines), c.start, c.end)))
  }

  /** getVarName finds a name exactly for the listed types whose section
      holds a row with the number before the first line that is not a row,
      and the name is that of the last such row. */
  lemma VarNameOfSpec(lines: seq<string>, varType: string, varNumber: int)
    ensures var r := VarNameOf(Some(lines), varType, varNumber);
      var span := RowSpan(lines, varType);
      var rows := Rows(lines);
      && (r.Some? <==> varType in VarTypes && span.Some?
                       && LastRow(rows, span.value.0, span.value.1, varNumber).Some?)
      && (r.Some? ==>
            r.value == rows[LastRow(rows, span.value.0, span.value.1, varNumber).value].value.name)
  {
    SectionsWithin(Generic, lines);
    var m := Sections(Generic, lines);
    PutTypesLookup(lines, m, VarTypes, varType);
    if varType in VarTypes && "///" + varType in m.entries {
      var c := m.entries["///" + varType].contents;
      RowsFromSpec(Rows(lines), c.start, c.end, Empty(), varNumber);
    }
  }

  // ---------------------------------------------------------------------
  // getVarNameRange

  /** The scan of getVarNameRange: the first row numbered x, stopping at
      the first line that is not a row. */
  function FindRow(rows: seq<Option<Row>>, lo: nat, end: nat, x: int): (r: Option<nat>)
    requires lo <= end <= |rows|
    ensures r.Some? ==> lo <= r.value < RowsEnd(rows, lo, end) && RowNumbered(rows, r.value, x)
    ensures r.Some? ==> forall L :: lo <= L < r.value ==> !RowNumbered(rows, L, x)
    ensures r.None? ==> forall L :: lo <= L < RowsEnd(rows, lo, end) ==> !RowNumbered(rows, L, x)
    decreases end - lo
  {
    if lo == end then None
    else
      match rows[lo]
      case None => None
      case Some(row) => if row.number == x then Some(lo) else FindRow(rows, lo + 1, end, x)
  }

  /** `getVarNameRange`: the whole line of the first row with the number
      in the type's section. */
  function VarNameRange(lines: Option<seq<string>>, varType: string, varNumber: int): (r: Option<Range>)
  {
    match DocumentSections(Generic, lines)
    case None => None
    case Some(m) =>
      match Get(m, "///" + varType)
      case None => None
      case Some(section) =>
        SectionsWithin(Generic, lines.value);
        match FindRow(Rows(lines.value), section.contents.start, section.contents.end, varNumber)
        case None => None
        case Some(lineNo) => Some(MkRange(lineNo, 0, lineNo, |lines.value[lineNo]|))
  }

  /** For the listed types a number has a name exactly when it has a range;
      the range covers a whole row carrying the number, inside the type's
      section. */
  lemma NameHasRange(lines: seq<string>, varType: string, varNumber: int)
    requires varType in VarTypes
    ensures VarNameOf(Some(lines), varType, varNumber).Some? <==> VarNameRange(Some(lines), varType, varNumber).Some?
    ensures VarNameRange(Some(lines), varType, varNumber).Some? ==>
      var rg := VarNameRange(Some(lines), varType, varNumber).value;
      var span := RowSpan(lines, varType);
      && rg.start.line == rg.end.line
      && span.Some? && span.value.0 <= rg.start.line < span.value.1
      && rg.start.character == 0 && rg.end.character == |lines[rg.start.line]|
      && RowNumbered(Rows(lines), rg.start.line, varNumber)
  {
    VarNameOfSpec(lines, varType, varNumber);
    SectionsWithin(Generic, lines);
    var m := Sections(Generic, lines);
    var rows := Rows(lines);
    if "///" + varType in m.entries {
      var c := m.entries["///" + varType].contents;
      var stop := RowsEnd(rows, c.start, c.end);
      var first := FindRow(rows, c.start, c.end, varNumber);
      var last := LastRow(rows, c.start, stop, varNumber);
      if first.Some? {
        assert last.Some?;
      }
      if last.Some? {
        assert first.Some?;
      }
    }
  }

  /** A row's name holds no line terminator. */
  lemma RowNameClean(text: string)
    requires ParseRow(text).Some?
    ensures var name := ParseRow(text).value.name;
      forall j :: 0 <= j < |name| ==> !IsLineTerminator(name[j])
  {
    var m := MatchRow(text).value;
    forall j | 0 <= j < m.nameEnd - m.prefixEnd
      ensures !IsLineTerminator(text[m.prefixEnd..m.nameEnd][j])
    {
      RunEndInClass(text, m.prefixEnd, NonTerminators, m.prefixEnd + j);
    }
  }

  // ---------------------------------------------------------------------
  // getVarNameCnt

  /** The type tables, type name to table, in type order. */
  type VarTable = OMap<string, NumberTable>

  /** The entry x of type v's table holds the name. */
  ghost predicate HoldsAt(T: VarTable, v: string, x: int, name: string)
  {
    v in T.entries && x in T.entries[v].entries && T.entries[v].entries[x] == name
  }

  /** The count table after walking the first k type tables. */
  function AllCounts(T: VarTable, k: nat): (r: map<string, nat>)
    requires InnerWf(T) && k <= |T.keys|
  {
    if k == 0 then map[]
    else
      var t := T.entries[T.keys[k - 1]];
      Counts(AllCounts(T, k - 1), t, |t.keys|)
  }

  /** How many entries of the first k type tables hold the name. */
  function TotalOf(T: VarTable, name: string, k: nat): nat
    requires InnerWf(T) && k <= |T.keys|
  {
    if k == 0 then 0 else TotalOf(T, name, k - 1) + NameCount(T.entries[T.keys[k - 1]], name)
  }

  /** How many (type, number) entries hold the name. */
  function VarNameCount(T: VarTable, name: string): nat
    requires InnerWf(T)
  {
    TotalOf(T, name, |T.keys|)
  }

  /** The walk counts each name once per entry holding it, over all the
      type tables, and lists exactly the names that occur. */
  lemma {:induction false} AllCountsSpec(T: VarTable, k: nat, name: string)
    requires InnerWf(T) && k <= |T.keys|
    ensures CountIn(AllCounts(T, k), name) == TotalOf(T, name, k)
    ensures name in AllCounts(T, k) <==> TotalOf(T, name, k) > 0
  {
    if k > 0 {
      AllCountsSpec(T, k - 1, name);
      var t := T.entries[T.keys[k - 1]];
      CountsSpec(AllCounts(T, k - 1), t, |t.keys|, name);
    }
  }

  /** A name is counted exactly when some entry of the first k type tables
      holds it. */
  lemma {:induction false} TotalPositive(T: VarTable, name: string, k: nat)
    requires InnerWf(T) && k <= |T.keys|
    ensures TotalOf(T, name, k) > 0 <==> exists q, x :: 0 <= q < k && HoldsAt(T, T.keys[q], x, name)
  {
    if k > 0 {
      TotalPositive(T, name, k - 1);
      var v := T.keys[k - 1];
      var t := T.entries[v];
      CountsSpec(map[], t, |t.keys|, name);
      if NameCount(t, name) > 0 {
        var p :| 0 <= p < |t.keys| && t.entries[t.keys[p]] == name;
        assert HoldsAt(T, T.keys[k - 1], t.keys[p], name);
      }
      if exists q, x :: 0 <= q < k && HoldsAt(T, T.keys[q], x, name) {
        var q, x :| 0 <= q < k && HoldsAt(T, T.keys[q], x, name);
        if q == k - 1 {
          var p :| 0 <= p < |t.keys| && t.keys[p] == x;
          assert t.entries[t.keys[p]] == name;
        } else {
          assert 0 <= q < k - 1 && HoldsAt(T, T.keys[q], x, name);
        }
      }
    }
  }

  /** An entry's own name is always counted. */
  lemma EntryCounted(T: VarTable, v: string, x: int)
    requires InnerWf(T) && v in T.entries && x in T.entries[v].entries
    ensures VarNameCount(T, T.entries[v].entries[x]) > 0
  {
    var q :| 0 <= q < |T.keys| && T.keys[q] == v;
    TotalPositive(T, T.entries[v].entries[x], |T.keys|);
    assert HoldsAt(T, T.keys[q], x, T.entries[v].entries[x]);
  }

  // ---------------------------------------------------------------------
  // validate

  /** The `data` of a diagnostic: the quick-fix text of the line, absent
      when the line cannot be read. */
  function QuickFixData(lines: Option<seq<string>>, line: int, varName: string): (r: DiagData)
    ensures r.StringData? <==> TextLine(lines, line).Some?
  {
    match TextLine(lines, line)
    case None => NoData
    case Some(text) => StringData(QuickFixText(text, varName))
  }

  /** The diagnostic validate pushes for number x of type v holding
      varName, if any. */
  function VarEntryDiagnostic(lines: Option<seq<string>>, counts: map<string, nat>, ioCounts: map<string, nat>,
                              varType: string, varNumber: int, varName: string,
                              tables: Tables, locale: string): Option<Diagnostic>
  {
    var varNameCnt := CountIn(counts, varName);
    var ioNameCnt := CountIn(ioCounts, varName);
    if varNameCnt == 0 || varNameCnt + ioNameCnt < 2 || StartsWith(varName, "'") then None
    else
      match VarNameRange(lines, varType, varNumber)
      case None => None
      case Some(range) =>
        var key := if varNameCnt >= 2 then VarDuplicated else IoDuplicated;
        Some(Diagnostic(Information, range, Translate(tables, locale, key, [varName]),
                        QuickFixData(lines, range.start.line, varName)))
  }

  /** The check of one entry (type, number, name) with the counts and the
      message tables of this validate. */
  type VarEntryCheck = (string, int, string) -> Option<Diagnostic>

  function VarCheckOf(lines: Option<seq<string>>, counts: map<string, nat>, ioCounts: map<string, nat>,
                   tables: Tables, locale: string): (check: VarEntryCheck)
    ensures forall v, x, name :: check(v, x, name) == VarEntryDiagnostic(lines, counts, ioCounts, v, x, name, tables, locale)
  {
    (v, x, name) => VarEntryDiagnostic(lines, counts, ioCounts, v, x, name, tables, locale)
  }

  /** The diagnostics of the first j entries of type v's table, in order. */
  function TableDiagnostics(check: VarEntryCheck, varType: string, t: NumberTable, j: nat): seq<Diagnostic>
    requires Wf(t) && j <= |t.keys|
  {
    if j == 0 then []
    else
      var ds := TableDiagnostics(check, varType, t, j - 1);
      var x := t.keys[j - 1];
      match check(varType, x, t.entries[x])
      case None => ds
      case Some(d) => ds + [d]
  }

  /** The diagnostics of the first k type tables, in order. */
  function AllDiagnostics(check: VarEntryCheck, T: VarTable, k: nat): seq<Diagnostic>
    requires InnerWf(T) && k <= |T.keys|
  {
    if k == 0 then []
    else
      var v := T.keys[k - 1];
      var t := T.entries[v];
      AllDiagnostics(check, T, k - 1) + TableDiagnostics(check, v, t, |t.keys|)
  }

  /** `validate`: null when the variable-name alias option is explicitly
      off; otherwise one diagnostic per duplicated variable name entry. */
  function ValidateVarNames(lines: Option<seq<string>>, varAlias: Option<bool>, ioAlias: Option<bool>,
                          ioCounts: Option<map<string, nat>>, tables: Tables, locale: string): (r: Option<seq<Diagnostic>>)
    ensures r.None? <==> varAlias == Some(false)
  {
    if varAlias == Some(false) then None
    else
      var T := VarNames(lines);
      var check := VarCheckOf(lines, AllCounts(T, |T.keys|), AliasCounts(ioAlias, ioCounts), tables, locale);
      Some(AllDiagnostics(check, T, |T.keys|))
  }

  /** The entry is reported: its name is not commented out by a leading
      quote and occurs at least twice among the variable names and the
      counted I/O names together. */
  ghost predicate VarNameDuplicated(T: VarTable, ioCounts: map<string, nat>, v: string, x: int)
    requires InnerWf(T) && v in T.entries && x in T.entries[v].entries
  {
    var varName := T.entries[v].entries[x];
    VarNameCount(T, varName) + CountIn(ioCounts, varName) >= 2 && !StartsWith(varName, "'")
  }

  /** The message of a reported entry: the variable-name message when the
      name is duplicated among the variable names, the I/O-name one
      otherwise. */
  function VarMessage(T: VarTable, v: string, x: int, tables: Tables, locale: string): string
    requires InnerWf(T) && v in T.entries && x in T.entries[v].entries
  {
    var varName := T.entries[v].entries[x];
    Translate(tables, locale, if VarNameCount(T, varName) >= 2 then VarDuplicated else IoDuplicated, [varName])
  }

  /** The diagnostic reports number x of type v: a duplicated entry, at
      the range getVarNameRange finds for it, as an Information with its
      message and the quick-fix text of that line. */
  ghost predicate ReportedAs(lines: Option<seq<string>>, T: VarTable, ioCounts: map<string, nat>, v: string, x: int,
                             d: Diagnostic, tables: Tables, locale: string)
    requires InnerWf(T)
  {
    && v in T.entries && x in T.entries[v].entries && VarNameDuplicated(T, ioCounts, v, x)
    && VarNameRange(lines, v, x) == Some(d.range)
    && d == Diagnostic(Information, d.range, VarMessage(T, v, x, tables, locale),
                       QuickFixData(lines, d.range.start.line, T.entries[v].entries[x]))
  }

  lemma VarEntryDiagnosticIs(lines: Option<seq<string>>, T: VarTable, ioCounts: map<string, nat>, v: string, x: int,
                             tables: Tables, locale: string)
    requires InnerWf(T) && v in T.entries && x in T.entries[v].entries
    ensures var d := VarEntryDiagnostic(lines, AllCounts(T, |T.keys|), ioCounts, v, x, T.entries[v].entries[x], tables, locale);
      && (d.Some? <==> VarNameDuplicated(T, ioCounts, v, x) && VarNameRange(lines, v, x).Some?)
      && (d.Some? ==> ReportedAs(lines, T, ioCounts, v, x, d.value, tables, locale))
  {
    AllCountsSpec(T, |T.keys|, T.entries[v].entries[x]);
    EntryCounted(T, v, x);
  }

  /** The entry x of table t gives diagnostic d. */
  ghost predicate EntryGives(check: VarEntryCheck, v: string, t: NumberTable, x: int, d: Diagnostic)
  {
    x in t.entries && check(v, x, t.entries[x]) == Some(d)
  }

  lemma {:induction false} TableDiagnosticsSpec(check: VarEntryCheck, v: string, t: NumberTable, j: nat)
    requires Wf(t) && j <= |t.keys|
    ensures forall d :: d in TableDiagnostics(check, v, t, j) ==>
      exists q :: 0 <= q < j && check(v, t.keys[q], t.entries[t.keys[q]]) == Some(d)
    ensures forall q :: 0 <= q < j && check(v, t.keys[q], t.entries[t.keys[q]]).Some? ==>
      check(v, t.keys[q], t.entries[t.keys[q]]).value in TableDiagnostics(check, v, t, j)
    decreases j
  {
    if j > 0 {
      TableDiagnosticsSpec(check, v, t, j - 1);
    }
  }

  /** One more entry of the walk over table t. */
  lemma TableDiagnosticsStep(check: VarEntryCheck, v: string, t: NumberTable, j: nat)
    requires Wf(t) && j < |t.keys|
    ensures var e := check(v, t.keys[j], t.entries[t.keys[j]]);
      TableDiagnostics(check, v, t, j + 1) == TableDiagnostics(check, v, t, j) + (if e.Some? then [e.value] else [])
  {
  }

  /** The walk over table t reports the diagnostics of its entries and
      nothing else. */
  lemma TableDiagnosticsEntries(check: VarEntryCheck, v: string, t: NumberTable)
    requires Wf(t)
    ensures forall d :: d in TableDiagnostics(check, v, t, |t.keys|) ==> exists x :: EntryGives(check, v, t, x, d)
    ensures forall x, d :: EntryGives(check, v, t, x, d) ==> d in TableDiagnostics(check, v, t, |t.keys|)
  {
    TableDiagnosticsSpec(check, v, t, |t.keys|);
    forall d | d in TableDiagnostics(check, v, t, |t.keys|)
      ensures exists x :: EntryGives(check, v, t, x, d)
    {
      var p :| 0 <= p < |t.keys| && check(v, t.keys[p], t.entries[t.keys[p]]) == Some(d);
      assert EntryGives(check, v, t, t.keys[p], d);
    }
    forall x, d | EntryGives(check, v, t, x, d)
      ensures d in TableDiagnostics(check, v, t, |t.keys|)
    {
      var q :| 0 <= q < |t.keys| && t.keys[q] == x;
    }
  }

  /** Every diagnostic of the walk over the first k type tables comes from
      an entry of one of them. */
  lemma {:induction false} AllDiagnosticsSound(check: VarEntryCheck, T: VarTable, k: nat)
    requires InnerWf(T) && k <= |T.keys|
    ensures forall d :: d in AllDiagnostics(check, T, k) ==>
      exists q, x :: 0 <= q < k && EntryGives(check, T.keys[q], T.entries[T.keys[q]], x, d)
    decreases k
  {
    if k > 0 {
      AllDiagnosticsSound(check, T, k - 1);
      var v := T.keys[k - 1];
      var t := T.entries[v];
      var earlier := AllDiagnostics(check, T, k - 1);
      TableDiagnosticsEntries(check, v, t);
      forall d | d in AllDiagnostics(check, T, k)
        ensures exists q, x :: 0 <= q < k && EntryGives(check, T.keys[q], T.entries[T.keys[q]], x, d)
      {
        if d !in earlier {
          var x :| EntryGives(check, v, t, x, d);
          assert EntryGives(check, T.keys[k - 1], T.entries[T.keys[k - 1]], x, d);
        }
      }
    }
  }

  /** An entry of the first k type tables that gives a diagnostic has it
      in the walk. */
  lemma {:induction false} AllDiagnosticsComplete(check: VarEntryCheck, T: VarTable, k: nat, q: nat, x: int, d: Diagnostic)
    requires InnerWf(T) && q < k <= |T.keys|
    requires EntryGives(check, T.keys[q], T.entries[T.keys[q]], x, d)
    ensures d in AllDiagnostics(check, T, k)
    decreases k
  {
    if q == k - 1 {
      TableDiagnosticsEntries(check, T.keys[q], T.entries[T.keys[q]]);
    } else {
      AllDiagnosticsComplete(check, T, k - 1, q, x, d);
    }
  }

  /** What validate reports, when it reports: every diagnostic reports a
      duplicated entry at its range with its message and quick fix, and
      every duplicated entry whose range is found gets one. */
  lemma ValidateSpec(lines: Option<seq<string>>, varAlias: Option<bool>, ioAlias: Option<bool>,
                     ioCounts: Option<map<string, nat>>, tables: Tables, locale: string)
    requires varAlias != Some(false)
    ensures var T := VarNames(lines);
      var ic := AliasCounts(ioAlias, ioCounts);
      var r := ValidateVarNames(lines, varAlias, ioAlias, ioCounts, tables, locale).value;
      && (forall d :: d in r ==> exists v, x :: ReportedAs(lines, T, ic, v, x, d, tables, locale))
      && (forall v, x :: (v in T.entries && x in T.entries[v].entries
            && VarNameDuplicated(T, ic, v, x) && VarNameRange(lines, v, x).Some?) ==>
            exists d :: d in r && ReportedAs(lines, T, ic, v, x, d, tables, locale))
  {
    var T := VarNames(lines);
    var ic := AliasCounts(ioAlias, ioCounts);
    var check := VarCheckOf(lines, AllCounts(T, |T.keys|), ic, tables, locale);
    var r := ValidateVarNames(lines, varAlias, ioAlias, ioCounts, tables, locale).value;
    assert r == AllDiagnostics(check, T, |T.keys|);
    VarEntriesSound(lines, T, ic, tables, locale);
    VarEntriesComplete(lines, T, ic, tables, locale);
  }

  /** Every diagnostic of the walk over a table reports one of its entries. */
  lemma VarEntriesSound(lines: Option<seq<string>>, T: VarTable, ic: map<string, nat>, tables: Tables, locale: string)
    requires InnerWf(T)
    ensures forall d :: d in AllDiagnostics(VarCheckOf(lines, AllCounts(T, |T.keys|), ic, tables, locale), T, |T.keys|) ==>
      exists v, x :: ReportedAs(lines, T, ic, v, x, d, tables, locale)
  {
    var check := VarCheckOf(lines, AllCounts(T, |T.keys|), ic, tables, locale);
    AllDiagnosticsSound(check, T, |T.keys|);
    forall d | d in AllDiagnostics(check, T, |T.keys|)
      ensures exists v, x :: ReportedAs(lines, T, ic, v, x, d, tables, locale)
    {
      var q, x :| 0 <= q < |T.keys| && EntryGives(check, T.keys[q], T.entries[T.keys[q]], x, d);
      VarEntryDiagnosticIs(lines, T, ic, T.keys[q], x, tables, locale);
      assert ReportedAs(lines, T, ic, T.keys[q], x, d, tables, locale);
    }
  }

  /** Every duplicated entry of a table whose range is found is reported. */
  lemma VarEntriesComplete(lines: Option<seq<string>>, T: VarTable, ic: map<string, nat>, tables: Tables, locale: string)
    requires InnerWf(T)
    ensures forall v, x :: (v in T.entries && x in T.entries[v].entries
        && VarNameDuplicated(T, ic, v, x) && VarNameRange(lines, v, x).Some?) ==>
      exists d :: d in AllDiagnostics(VarCheckOf(lines, AllCounts(T, |T.keys|), ic, tables, locale), T, |T.keys|)
        && ReportedAs(lines, T, ic, v, x, d, tables, locale)
  {
    var check := VarCheckOf(lines, AllCounts(T, |T.keys|), ic, tables, locale);
    forall v, x | v in T.entries && x in T.entries[v].entries
        && VarNameDuplicated(T, ic, v, x) && VarNameRange(lines, v, x).Some?
      ensures exists d :: d in AllDiagnostics(check, T, |T.keys|) && ReportedAs(lines, T, ic, v, x, d, tables, locale)
    {
      var q :| 0 <= q < |T.keys| && T.keys[q] == v;
      VarEntryDiagnosticIs(lines, T, ic, v, x, tables, locale);
      var d := check(v, x, T.entries[v].entries[x]).value;
      assert EntryGives(check, T.keys[q], T.entries[T.keys[q]], x, d);
      AllDiagnosticsComplete(check, T, |T.keys|, q, x, d);
    }
  }

  /** The types that have a table are listed types. */
  lemma TypeListed(lines: Option<seq<string>>, v: string)
    requires v in VarNames(lines).entries
    ensures v in VarTypes
  {
    if lines.Some? {
      SectionsWithin(Generic, lines.value);
      PutTypesLookup(lines.value, Sections(Generic, lines.value), VarTypes, v);
    }
  }

  /** The quick fix of a reported entry rewrites the row getVarNameRange
      found into a row with the same number whose name is the entry's name
      behind a quote, so the next validate skips it. */
  lemma ReportedQuickFix(lines: seq<string>, ioCounts: map<string, nat>, v: string, x: int,
                         d: Diagnostic, tables: Tables, locale: string)
    requires ReportedAs(Some(lines), VarNames(Some(lines)), ioCounts, v, x, d, tables, locale)
    ensures var name := VarNames(Some(lines)).entries[v].entries[x];
      && d.data.StringData? && RowNumbered(Rows(lines), d.range.start.line, x)
      && ParseRow(d.data.text) == Some(Row(ParseRow(lines[d.range.start.line]).value.number, "'" + name))
      && StartsWith(ParseRow(d.data.text).value.name, "'")
  {
    var T := VarNames(Some(lines));
    var name := T.entries[v].entries[x];
    TypeListed(Some(lines), v);
    NameHasRange(lines, v, x);
    VarNameOfSpec(lines, v, x);
    var span := RowSpan(lines, v).value;
    var last := LastRow(Rows(lines), span.0, span.1, x).value;
    RowNameClean(lines[last]);
    QuickFixComments(lines[d.range.start.line], name);
  }

  /** Every diagnostic validate reports carries a quick fix that comments
      its name out while keeping the row's number. */
  lemma ValidateQuickFixes(lines: seq<string>, varAlias: Option<bool>, ioAlias: Option<bool>,
                           ioCounts: Option<map<string, nat>>, tables: Tables, locale: string)
    requires varAlias != Some(false)
    ensures forall d :: d in ValidateVarNames(Some(lines), varAlias, ioAlias, ioCounts, tables, locale).value ==>
      && d.data.StringData? && 0 <= d.range.start.line < |lines| && ParseRow(lines[d.range.start.line]).Some?
      && ParseRow(d.data.text).Some?
      && ParseRow(d.data.text).value.number == ParseRow(lines[d.range.start.line]).value.number
      && StartsWith(ParseRow(d.data.text).value.name, "'")
  {
    ValidateSpec(Some(lines), varAlias, ioAlias, ioCounts, tables, locale);
    var T := VarNames(Some(lines));
    var ic := AliasCounts(ioAlias, ioCounts);
    forall d | d in ValidateVarNames(Some(lines), varAlias, ioAlias, ioCounts, tables, locale).value
      ensures && d.data.StringData? && 0 <= d.range.start.line < |lines| && ParseRow(lines[d.range.start.line]).Some?
        && ParseRow(d.data.text).Some?
        && ParseRow(d.data.text).value.number == ParseRow(lines[d.range.start.line]).value.number
        && StartsWith(ParseRow(d.data.text).value.name, "'")
    {
      var v, x :| ReportedAs(Some(lines), T, ic, v, x, d, tables, locale);
      ReportedQuickFix(lines, ic, v, x, d, tables, locale);
    }
  }

  // ---------------------------------------------------------------------
  // onCodeAction

  const QuickFixKind := "quickfix"
  const ToComment := "varnamedatfile.quickfix.name.toComment"

  /** A code action whose edit replaces a range of this file by new text. */
  datatype CodeAction = CodeAction(title: string, kind: string, range: Range, newText: string, diagnostics: seq<Diagnostic>)

  /** The diagnostic carries a non-empty quick-fix string. */
  predicate HasQuickFix(d: Diagnostic)
  {
    d.data.StringData? && d.data.text != ""
  }

  /** The quick fix of a diagnostic: replace its range by its text. */
  function ActionFor(title: string, d: Diagnostic): CodeAction
    requires HasQuickFix(d)
  {
    CodeAction(title, QuickFixKind, d.range, d.data.text, [d])
  }

  /** One action per diagnostic with a quick fix, in order. */
  function QuickFixes(title: string, diags: seq<Diagnostic>): (r: seq<CodeAction>)
    decreases |diags|
  {
    if diags == [] then []
    else
      var d := diags[|diags| - 1];
      QuickFixes(title, diags[..|diags| - 1]) + (if HasQuickFix(d) then [ActionFor(title, d)] else [])
  }

  /** `onCodeAction`: null unless the requested kinds start with quick fix;
      otherwise the quick fixes of the diagnostics. */
  function CodeActions(only: Option<seq<string>>, diags: seq<Diagnostic>, tables: Tables, locale: string): (r: Option<seq<CodeAction>>)
    ensures r.Some? <==> only.Some? && |only.value| > 0 && only.value[0] == QuickFixKind
  {
    if only.None? || |only.value| == 0 || only.value[0] != QuickFixKind then None
    else Some(QuickFixes(Translate(tables, locale, ToComment, []), diags))
  }

  /** The actions are exactly the quick fixes of the diagnostics that carry
      one, each under the title and attached to its diagnostic. */
  lemma {:induction false} QuickFixesSpec(title: string, diags: seq<Diagnostic>)
    ensures forall a :: a in QuickFixes(title, diags) ==>
      exists d :: d in diags && HasQuickFix(d) && a == ActionFor(title, d)
    ensures forall d :: d in diags && HasQuickFix(d) ==> ActionFor(title, d) in QuickFixes(title, diags)
    decreases |diags|
  {
    if diags != [] {
      var front := diags[..|diags| - 1];
      QuickFixesSpec(title, front);
      assert diags == front + [diags[|diags| - 1]];
    }
  }

  /** Applied to what validate reports, the quick-fix request gives one
      action per diagnostic, each replacing the diagnostic's row by the
      commented-out row. */
  lemma ValidateThenCodeActions(lines: seq<string>, varAlias: Option<bool>, ioAlias: Option<bool>,
                                ioCounts: Option<map<string, nat>>, tables: Tables, locale: string)
    requires varAlias != Some(false)
    ensures var diags := ValidateVarNames(Some(lines), varAlias, ioAlias, ioCounts, tables, locale).value;
      var title := Translate(tables, locale, ToComment, []);
      var actions := CodeActions(Some([QuickFixKind]), diags, tables, locale).value;
      && (forall d :: d in diags ==> HasQuickFix(d) && ActionFor(title, d) in actions)
      && (forall a :: a in actions ==> exists d :: d in diags && a == ActionFor(title, d))
  {
    var diags := ValidateVarNames(Some(lines), varAlias, ioAlias, ioCounts, tables, locale).value;
    ValidateQuickFixes(lines, varAlias, ioAlias, ioCounts, tables, locale);
    QuickFixesSpec(Translate(tables, locale, ToComment, []), diags);
  }

  // ---------------------------------------------------------------------
  // The handler

  class VarNameDatFile {
    /** The text and the memoised sections of the VARNAME.DAT file. */
    const file: RobotControllerFile
    /** The memoised result of updateVarName. */
    var varNameTable: Option<VarTable>

    ghost predicate Valid()
      reads this, file, file.sectionedDocument
    {
      && file.Valid() && file.kind == Generic
      && (varNameTable.Some? ==> varNameTable.value == VarNames(file.lines))
    }

    constructor(lines: Option<seq<string>>)
      ensures Valid() && fresh(file)
      ensures file.lines == lines && varNameTable == None
    {
      file := new RobotControllerFile(Generic, lines);
      varNameTable := None;
    }

    /** `updateVarName`: built once; each listed type with a section gets
        the table of its rows. */
    method UpdateVarName()
      requires Valid()
      modifies this, file
      ensures Valid()
      ensures varNameTable == Some(VarNames(file.lines))
    {
      if varNameTable.Some? {
        return;
      }
      varNameTable := Some(Empty());
      var doc := file.UpdateSection();
      if doc == null {
        return;
      }
      var textLines := file.lines.value;
      SectionsWithin(Generic, textLines);
      var types := SetTypes(doc.sectionMap, textLines);
      varNameTable := Some(types);
    }

    /** `getVarName`: the name of the number in the type's table. */
    method GetVarName(varType: string, varNumber: int) returns (r: Option<string>)
      requires Valid()
      modifies this, file
      ensures Valid()
      ensures r == VarNameOf(file.lines, varType, varNumber)
      ensures varNameTable == Some(VarNames(file.lines))
    {
      UpdateVarName();
      var table := Get(varNameTable.value, varType);
      if table.None? {
        return None;
      }
      r := Get(table.value, varNumber);
    }

    /** `getVarNameRange`: the whole line of the first row with the number
        in the type's section. */
    method GetVarNameRange(varType: string, varNumber: int) returns (r: Option<Range>)
      requires Valid()
      modifies file
      ensures Valid()
      ensures r == VarNameRange(file.lines, varType, varNumber)
    {
      var doc := file.UpdateSection();
      if doc == null {
        return None;
      }
      var section := Get(doc.sectionMap, "///" + varType);
      if section.None? {
        return None;
      }
      var textLines := file.lines.value;
      SectionsWithin(Generic, textLines);
      var lineNo := ScanRows(textLines, section.value.contents.start, section.value.contents.end, varNumber);
      if lineNo.None? {
        return None;
      }
      return Some(MkRange(lineNo.value, 0, lineNo.value, |textLines[lineNo.value]|));
    }

    /** `getVarNameCnt`: how many entries carry each name, over all the
        type tables. */
    method GetVarNameCnt() returns (r: map<string, nat>)
      requires Valid()
      modifies this, file
      ensures Valid()
      ensures varNameTable == Some(VarNames(file.lines))
      ensures r == AllCounts(varNameTable.value, |varNameTable.value.keys|)
    {
      UpdateVarName();
      r := CountAll(varNameTable.value);
    }

    /** `validate`: checks the alias option, counts the names and walks the
        type tables pushing a diagnostic for each duplicated name. */
    method Validate(varAlias: Option<bool>, ioAlias: Option<bool>, ioCounts: Option<map<string, nat>>,
                    tables: Tables, locale: string) returns (r: Option<seq<Diagnostic>>)
      requires Valid()
      modifies this, file
      ensures Valid()
      ensures r == ValidateVarNames(file.lines, varAlias, ioAlias, ioCounts, tables, locale)
      ensures varAlias != Some(false) ==> varNameTable == Some(VarNames(file.lines))
      ensures varAlias == Some(false) ==> varNameTable == old(varNameTable)
    {
      if varAlias == Some(false) {
        return None;
      }
      UpdateVarName();
      var counts := GetVarNameCnt();
      var ioNameCntTable: Option<map<string, nat>> := None;
      if ioAlias == Some(true) {
        ioNameCntTable := ioCounts;
      }
      var ic := if ioNameCntTable.Some? then ioNameCntTable.value else map[];
      var diagnostics := PushTypeDiagnostics(file.lines, varNameTable.value, counts, ic, tables, locale);
      return Some(diagnostics);
    }

    /** `onCodeAction`: for a quick-fix request, one action per diagnostic
        carrying a quick-fix string. */
    method OnCodeAction(only: Option<seq<string>>, diags: seq<Diagnostic>, tables: Tables, locale: string)
      returns (r: Option<seq<CodeAction>>)
      ensures r == CodeActions(only, diags, tables, locale)
    {
      if only.None? || |only.value| == 0 || only.value[0] != QuickFixKind {
        return None;
      }
      var codeActions: seq<CodeAction> := [];
      ghost var title := Translate(tables, locale, ToComment, []);
      var j := 0;
      while j < |diags|
        invariant 0 <= j <= |diags|
        invariant codeActions == QuickFixes(title, diags[..j])
      {
        var diag := diags[j];
        assert diags[..j + 1][..j] == diags[..j];
        if diag.data.StringData? && diag.data.text != "" {
          var fixTitle := Translate(tables, locale, ToComment, []);
          codeActions := codeActions + [CodeAction(fixTitle, QuickFixKind, diag.range, diag.data.text, [diag])];
        }
        j := j + 1;
      }
      assert diags[..j] == diags;
      return Some(codeActions);
    }
  }

  /** The loop over the variable types of updateVarName. */
  method SetTypes(m: SectionMap, textLines: seq<string>) returns (types: VarTable)
    requires Within(m, |textLines|)
    ensures types == PutTypes(textLines, m, VarTypes)
  {
    types := Empty();
    var k := 0;
    while k < |VarTypes|
      invariant 0 <= k <= |VarTypes|
      invariant types == PutTypes(textLines, m, VarTypes[..k])
    {
      var varType := VarTypes[k];
      assert VarTypes[..k + 1][..k] == VarTypes[..k];
      var section := Get(m, "///" + varType);
      if section.Some? {
        var table := ParseRows(textLines, section.value.contents.start, section.value.contents.end);
        types := Put(types, varType, table);
      }
      k := k + 1;
    }
    assert VarTypes[..k] == VarTypes;
  }

  /** The rows of one section set in order, up to the first line that is
      not a row. */
  method ParseRows(textLines: seq<string>, start: int, end: int) returns (table: NumberTable)
    requires 0 <= start <= end <= |textLines|
    ensures table == RowsFrom(Rows(textLines), start, end, Empty())
  {
    table := Empty();
    var lineNo := start;
    while lineNo < end
      invariant start <= lineNo <= end && Wf(table)
      invariant RowsFrom(Rows(textLines), lineNo, end, table) == RowsFrom(Rows(textLines), start, end, Empty())
    {
      var m := ParseRow(textLines[lineNo]);
      assert Rows(textLines)[lineNo] == m;
      if m.None? {
        break;
      }
      table := Put(table, m.value.number, m.value.name);
      lineNo := lineNo + 1;
    }
  }

  /** The scan of getVarNameRange, returning at the first row with the
      number and stopping at the first line that is not a row. */
  method ScanRows(textLines: seq<string>, start: int, end: int, varNumber: int) returns (r: Option<nat>)
    requires 0 <= start <= end <= |textLines|
    ensures r == FindRow(Rows(textLines), start, end, varNumber)
  {
    var lineNo := start;
    while lineNo < end
      invariant start <= lineNo <= end
      invariant FindRow(Rows(textLines), lineNo, end, varNumber) == FindRow(Rows(textLines), start, end, varNumber)
    {
      var m := ParseRow(textLines[lineNo]);
      assert Rows(textLines)[lineNo] == m;
      if m.None? {
        break;
      }
      if m.value.number == varNumber {
        return Some(lineNo);
      }
      lineNo := lineNo + 1;
    }
    return None;
  }

  /** The counting walk of getVarNameCnt over every type table. */
  method CountAll(types: VarTable) returns (r: map<string, nat>)
    requires InnerWf(types)
    ensures r == AllCounts(types, |types.keys|)
  {
    r := map[];
    var k := 0;
    while k < |types.keys|
      invariant 0 <= k <= |types.keys|
      invariant r == AllCounts(types, k)
    {
      r := CountNames(r, types.entries[types.keys[k]]);
      k := k + 1;
    }
  }

  /** The body of validate's walk for one entry: the duplicate test, the
      range lookup, the choice of message and the quick-fix text. */
  method CheckVarEntry(lines: Option<seq<string>>, varNameCntTable: map<string, nat>, ioNameCntTable: map<string, nat>,
                       varType: string, varNumber: int, varName: string, tables: Tables, locale: string)
    returns (d: Option<Diagnostic>)
    ensures d == VarEntryDiagnostic(lines, varNameCntTable, ioNameCntTable, varType, varNumber, varName, tables, locale)
  {
    var varNameCnt := CountIn(varNameCntTable, varName);
    var ioNameCnt := CountIn(ioNameCntTable, varName);
    if varNameCnt == 0 || varNameCnt + ioNameCnt < 2 || StartsWith(varName, "'") {
      return None;
    }
    var range := VarNameRange(lines, varType, varNumber);
    if range.None? {
      return None;
    }
    var errorMessage: string;
    if varNameCnt >= 2 {
      errorMessage := Translate(tables, locale, VarDuplicated, [varName]);
    } else {
      errorMessage := Translate(tables, locale, IoDuplicated, [varName]);
    }
    var replaceText := QuickFixData(lines, range.value.start.line, varName);
    return Some(Diagnostic(Information, range.value, errorMessage, replaceText));
  }

  /** validate's walk over the type tables in order. */
  method PushTypeDiagnostics(lines: Option<seq<string>>, types: VarTable, counts: map<string, nat>, ic: map<string, nat>,
                             tables: Tables, locale: string) returns (diagnostics: seq<Diagnostic>)
    requires InnerWf(types)
    ensures diagnostics == AllDiagnostics(VarCheckOf(lines, counts, ic, tables, locale), types, |types.keys|)
  {
    diagnostics := [];
    var k := 0;
    while k < |types.keys|
      invariant 0 <= k <= |types.keys|
      invariant diagnostics == AllDiagnostics(VarCheckOf(lines, counts, ic, tables, locale), types, k)
    {
      var varType := types.keys[k];
      var pushed := PushEntryDiagnostics(lines, varType, types.entries[varType], counts, ic, tables, locale);
      diagnostics := diagnostics + pushed;
      k := k + 1;
    }
  }

  /** The inner walk of validate over one type table's entries in order. */
  method PushEntryDiagnostics(lines: Option<seq<string>>, varType: string, table: NumberTable,
                              counts: map<string, nat>, ic: map<string, nat>, tables: Tables, locale: string)
    returns (diagnostics: seq<Diagnostic>)
    requires Wf(table)
    ensures diagnostics == TableDiagnostics(VarCheckOf(lines, counts, ic, tables, locale), varType, table, |table.keys|)
  {
    ghost var check := VarCheckOf(lines, counts, ic, tables, locale);
    diagnostics := [];
    var j := 0;
    while j < |table.keys|
      invariant 0 <= j <= |table.keys|
      invariant diagnostics == TableDiagnostics(check, varType, table, j)
    {
      var varNumber := table.keys[j];
      var d := CheckVarEntry(lines, counts, ic, varType, varNumber, table.entries[varNumber], tables, locale);
      assert d == check(varType, varNumber, table.entries[varNumber]);
      TableDiagnosticsStep(check, varType, table, j);
      if d.Some? {
        diagnostics := diagnostics + [d.value];
      }
      j := j + 1;
    }
  }
}
