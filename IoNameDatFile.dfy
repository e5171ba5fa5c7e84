/** IONAME.DAT: four I/O names per line in the IN, OUT, EXIN and EXOUT
    sections, numbered in 8-bit groups within banks 0, 10000, 20000 and
    30000; the forward table from logical number to name, the reverse
    lookup of a number's field, name counts and the duplicate-name check. */
module IoNameDatFiles {

  import opened Protocol
  import opened OrderedMaps
  import opened Util
  import opened SectionedDocuments
  import opened Sectioner
  import opened RobotControllerFiles
  import opened Translations

  // ---------------------------------------------------------------------
  // Banks and logical numbers

  /** `typeNumberTable`: the bank offset of each bank section name. */
  const Banks: map<string, nat> := map["IN" := 0, "OUT" := 10000, "EXIN" := 20000, "EXOUT" := 30000]

  /** The bank offset of a section name, None for a section that is not a bank. */
  function BankOf(sectionName: string): (r: Option<nat>)
  {
    if sectionName in Banks then Some(Banks[sectionName]) else None
  }

  /** `sectionNameTable`: the section name of a bank offset. */
  function BankName(typeNumber: int): (r: Option<string>)
  {
    match typeNumber
    case 0 => Some("IN")
    case 10000 => Some("OUT")
    case 20000 => Some("EXIN")
    case 30000 => Some("EXOUT")
    case _ => None
  }

  /** The two tables are inverse to each other, and every bank offset is a
      multiple of 10000 below 40000. */
  lemma BankTables(sectionName: string, typeNumber: int)
    ensures BankOf(sectionName).Some? ==>
      && BankName(BankOf(sectionName).value) == Some(sectionName)
      && BankOf(sectionName).value % 10000 == 0 && BankOf(sectionName).value < 40000
    ensures BankName(typeNumber).Some? ==> BankOf(BankName(typeNumber).value) == Some(typeNumber)
  {
  }

  /** The logical number of name i on contents line `offset` of a bank:
      names are numbered 4 per line, 8 per group, groups from 1. */
  function LogicalNumber(bank: nat, offset: nat, i: nat): nat
  {
    var index := offset * 4 + i;
    bank + (index / 8 + 1) * 10 + index % 8
  }

  // ---------------------------------------------------------------------
  // The forward table of updateIoName

  type IoTable = OMap<int, string>

  /** The names of one line set in order; empty names are skipped. */
  function PutNames(t: IoTable, bank: nat, offset: nat, names: seq<string>): (r: IoTable)
    decreases |names|
  {
    if names == [] then t
    else
      var i := |names| - 1;
      var r := PutNames(t, bank, offset, names[..i]);
      if |names[i]| > 0 then Put(r, LogicalNumber(bank, offset, i), names[i]) else r
  }

  /** The first `count` contents lines from line `start` set in order. */
  function PutLines(t: IoTable, bank: nat, lines: seq<string>, start: nat, count: nat): (r: IoTable)
    requires start + count <= |lines|
  {
    if count == 0 then t
    else PutNames(PutLines(t, bank, lines, start, count - 1), bank, count - 1, Split(lines[start + count - 1]))
  }

  /** The first j sections in map order set in order; sections that are
      not a bank are skipped. */
  function PutSections(t: IoTable, m: SectionMap, lines: seq<string>, j: nat): (r: IoTable)
    requires Wf(m) && Within(m, |lines|) && j <= |m.keys|
  {
    if j == 0 then t
    else
      var name := m.keys[j - 1];
      PutSection(PutSections(t, m, lines, j - 1), name, m.entries[name].contents, lines)
  }

  /** One section set into the table: its contents lines when it is a bank,
      nothing otherwise. */
  function PutSection(t: IoTable, name: string, c: LineRange, lines: seq<string>): (r: IoTable)
    requires 0 <= c.start <= c.end <= |lines|
  {
    match BankOf(name)
    case None => t
    case Some(bank) => PutLines(t, bank, lines, c.start, c.end - c.start)
  }

  /** The table updateIoName builds: empty when the file cannot be read. */
  function IoNames(lines: Option<seq<string>>): (r: IoTable)
    ensures Wf(r)
  {
    match lines
    case None => Empty()
    case Some(ls) =>
      SectionsWithin(IoName, ls);
      var m := Sections(IoName, ls);
      PutSectionsWf(Empty(), m, ls, |m.keys|);
      PutSections(Empty(), m, ls, |m.keys|)
  }

  /** Setting names keeps the table well formed: each key is listed once. */
  lemma {:induction false} PutNamesWf(t: IoTable, bank: nat, offset: nat, names: seq<string>)
    requires Wf(t)
    ensures Wf(PutNames(t, bank, offset, names))
    decreases |names|
  {
    if names != [] {
      PutNamesWf(t, bank, offset, names[..|names| - 1]);
    }
  }

  lemma {:induction false} PutLinesWf(t: IoTable, bank: nat, lines: seq<string>, start: nat, count: nat)
    requires start + count <= |lines| && Wf(t)
    ensures Wf(PutLines(t, bank, lines, start, count))
  {
    if count > 0 {
      PutLinesWf(t, bank, lines, start, count - 1);
      PutNamesWf(PutLines(t, bank, lines, start, count - 1), bank, count - 1, Split(lines[start + count - 1]));
    }
  }

  lemma {:induction false} PutSectionsWf(t: IoTable, m: SectionMap, lines: seq<string>, j: nat)
    requires Wf(m) && Within(m, |lines|) && j <= |m.keys| && Wf(t)
    ensures Wf(PutSections(t, m, lines, j))
  {
    if j > 0 {
      PutSectionsWf(t, m, lines, j - 1);
      var name := m.keys[j - 1];
      var c := m.entries[name].contents;
      if BankOf(name).Some? {
        PutLinesWf(PutSections(t, m, lines, j - 1), BankOf(name).value, lines, c.start, c.end - c.start);
      }
    }
  }

  /** Field i of the line is a non-empty name stored under number x:
      NameAt for one line's names, LineNameAt for the lines of a section,
      FieldOf for the bank sections of a file. */
  ghost predicate NameAt(bank: nat, offset: nat, names: seq<string>, x: int, ioName: string)
  {
    exists i :: 0 <= i < |names| && x == LogicalNumber(bank, offset, i) && |names[i]| > 0 && ioName == names[i]
  }

  ghost predicate LineNameAt(bank: nat, lines: seq<string>, start: nat, count: nat, x: int, ioName: string)
  {
    exists L: nat :: L < count && OnLine(bank, lines, start, L, x, ioName)
  }

  ghost predicate OnLine(bank: nat, lines: seq<string>, start: nat, L: nat, x: int, ioName: string)
  {
    start + L < |lines| && NameAt(bank, L, Split(lines[start + L]), x, ioName)
  }

  ghost predicate FieldOf(lines: seq<string>, m: SectionMap, x: int, ioName: string)
  {
    exists name :: name in m.entries && BankOf(name).Some?
      && var c := m.entries[name].contents;
         0 <= c.start <= c.end <= |lines|
         && LineNameAt(BankOf(name).value, lines, c.start, c.end - c.start, x, ioName)
  }

  /** A name field of the line exists, is non-empty, and so gets a number. */
  ghost predicate HasName(lines: seq<string>, line: int, i: nat)
  {
    0 <= line < |lines| && i < |Split(lines[line])| && |Split(lines[line])[i]| > 0
  }

  lemma {:induction false} PutNamesSound(t: IoTable, bank: nat, offset: nat, names: seq<string>, x: int)
    requires x in PutNames(t, bank, offset, names).entries
    ensures || (x in t.entries && PutNames(t, bank, offset, names).entries[x] == t.entries[x])
            || NameAt(bank, offset, names, x, PutNames(t, bank, offset, names).entries[x])
    decreases |names|
  {
    if names != [] {
      var i := |names| - 1;
      var r := PutNames(t, bank, offset, names[..i]);
      if |names[i]| > 0 && x == LogicalNumber(bank, offset, i) {
      } else {
        PutNamesSound(t, bank, offset, names[..i], x);
        if !(x in t.entries && r.entries[x] == t.entries[x]) {
          var k :| 0 <= k < |names[..i]| && x == LogicalNumber(bank, offset, k)
                   && |names[..i][k]| > 0 && r.entries[x] == names[..i][k];
          assert names[..i][k] == names[k];
        }
      }
    }
  }

  lemma {:induction false} PutLinesSound(t: IoTable, bank: nat, lines: seq<string>, start: nat, count: nat, x: int)
    requires start + count <= |lines| && x in PutLines(t, bank, lines, start, count).entries
    ensures || (x in t.entries && PutLines(t, bank, lines, start, count).entries[x] == t.entries[x])
            || LineNameAt(bank, lines, start, count, x, PutLines(t, bank, lines, start, count).entries[x])
    decreases count
  {
    if count > 0 {
      var r := PutLines(t, bank, lines, start, count - 1);
      var names := Split(lines[start + count - 1]);
      var out := PutNames(r, bank, count - 1, names);
      assert out == PutLines(t, bank, lines, start, count);
      PutNamesSound(r, bank, count - 1, names, x);
      if x in r.entries && out.entries[x] == r.entries[x] {
        PutLinesSound(t, bank, lines, start, count - 1, x);
        if !(x in t.entries && r.entries[x] == t.entries[x]) {
          var L: nat :| L < count - 1 && OnLine(bank, lines, start, L, x, r.entries[x]);
          assert L < count;
        }
      } else {
        assert OnLine(bank, lines, start, count - 1, x, out.entries[x]);
      }
    }
  }

  lemma {:induction false} PutSectionsSound(m: SectionMap, lines: seq<string>, j: nat, x: int)
    requires Wf(m) && Within(m, |lines|) && j <= |m.keys|
    requires x in PutSections(Empty(), m, lines, j).entries
    ensures FieldOf(lines, m, x, PutSections(Empty(), m, lines, j).entries[x])
    decreases j
  {
    assert j > 0;
    var r := PutSections(Empty(), m, lines, j - 1);
    var name := m.keys[j - 1];
    var c := m.entries[name].contents;
    PutBankSound(r, name, c, lines, x);
    if x in r.entries && PutSection(r, name, c, lines).entries[x] == r.entries[x] {
      PutSectionsSound(m, lines, j - 1, x);
    } else {
      assert name in m.entries;
    }
  }

  /** An entry after one section was there before or is a name field of
      that section, which is then a bank. */
  lemma PutBankSound(t: IoTable, name: string, c: LineRange, lines: seq<string>, x: int)
    requires 0 <= c.start <= c.end <= |lines| && x in PutSection(t, name, c, lines).entries
    ensures var out := PutSection(t, name, c, lines);
      || (x in t.entries && out.entries[x] == t.entries[x])
      || (BankOf(name).Some? && LineNameAt(BankOf(name).value, lines, c.start, c.end - c.start, x, out.entries[x]))
  {
    if BankOf(name).Some? {
      PutLinesSound(t, BankOf(name).value, lines, c.start, c.end - c.start, x);
    }
  }

  /** Every entry of the table is a non-empty name field of a bank section,
      stored under that field's logical number. */
  lemma IoNamesSound(lines: seq<string>, x: int)
    requires x in IoNames(Some(lines)).entries
    ensures FieldOf(lines, Sections(IoName, lines), x, IoNames(Some(lines)).entries[x])
  {
    SectionsWithin(IoName, lines);
    var m := Sections(IoName, lines);
    PutSectionsSound(m, lines, |m.keys|, x);
  }

  lemma {:induction false} PutNamesGrows(t: IoTable, bank: nat, offset: nat, names: seq<string>)
    ensures forall x :: x in t.entries ==> x in PutNames(t, bank, offset, names).entries
    ensures forall i :: 0 <= i < |names| && |names[i]| > 0 ==>
      LogicalNumber(bank, offset, i) in PutNames(t, bank, offset, names).entries
    decreases |names|
  {
    if names != [] {
      var i := |names| - 1;
      PutNamesGrows(t, bank, offset, names[..i]);
      forall k | 0 <= k < i ensures names[..i][k] == names[k] { }
    }
  }

  lemma {:induction false} PutLinesKeeps(t: IoTable, bank: nat, lines: seq<string>, start: nat, count: nat, x: int)
    requires start + count <= |lines| && x in t.entries
    ensures x in PutLines(t, bank, lines, start, count).entries
    decreases count
  {
    if count > 0 {
      var r := PutLines(t, bank, lines, start, count - 1);
      PutLinesKeeps(t, bank, lines, start, count - 1, x);
      PutNamesGrows(r, bank, count - 1, Split(lines[start + count - 1]));
    }
  }

  lemma {:induction false} PutLinesAdds(t: IoTable, bank: nat, lines: seq<string>, start: nat, count: nat, L: nat, i: nat)
    requires start + count <= |lines| && L < count && HasName(lines, start + L, i)
    ensures LogicalNumber(bank, L, i) in PutLines(t, bank, lines, start, count).entries
    decreases count
  {
    var r := PutLines(t, bank, lines, start, count - 1);
    if L < count - 1 {
      PutLinesAdds(t, bank, lines, start, count - 1, L, i);
    }
    PutNamesGrows(r, bank, count - 1, Split(lines[start + count - 1]));
  }

  lemma {:induction false} PutSectionsKeeps(m: SectionMap, lines: seq<string>, j: nat, j': nat, x: int)
    requires Wf(m) && Within(m, |lines|) && j <= j' <= |m.keys|
    requires x in PutSections(Empty(), m, lines, j).entries
    ensures x in PutSections(Empty(), m, lines, j').entries
    decreases j' - j
  {
    if j < j' {
      PutSectionKeeps(m, lines, j, x);
      PutSectionsKeeps(m, lines, j + 1, j', x);
    }
  }

  lemma PutSectionKeeps(m: SectionMap, lines: seq<string>, j: nat, x: int)
    requires Wf(m) && Within(m, |lines|) && j < |m.keys|
    requires x in PutSections(Empty(), m, lines, j).entries
    ensures x in PutSections(Empty(), m, lines, j + 1).entries
  {
    var name := m.keys[j];
    var c := m.entries[name].contents;
    PutBankKeeps(PutSections(Empty(), m, lines, j), name, c, lines, x);
  }

  lemma PutBankKeeps(t: IoTable, name: string, c: LineRange, lines: seq<string>, x: int)
    requires 0 <= c.start <= c.end <= |lines| && x in t.entries
    ensures x in PutSection(t, name, c, lines).entries
  {
    if BankOf(name).Some? {
      PutLinesKeeps(t, BankOf(name).value, lines, c.start, c.end - c.start, x);
    }
  }

  lemma PutSectionsAdds(m: SectionMap, lines: seq<string>, k: nat, L: nat, i: nat)
    requires Wf(m) && Within(m, |lines|) && k < |m.keys|
    requires BankOf(m.keys[k]).Some?
    requires L < m.entries[m.keys[k]].contents.end - m.entries[m.keys[k]].contents.start
    requires HasName(lines, m.entries[m.keys[k]].contents.start + L, i)
    ensures LogicalNumber(BankOf(m.keys[k]).value, L, i) in PutSections(Empty(), m, lines, k + 1).entries
  {
    var r := PutSections(Empty(), m, lines, k);
    var name := m.keys[k];
    var c := m.entries[name].contents;
    assert PutSections(Empty(), m, lines, k + 1) == PutSection(r, name, c, lines);
    PutLinesAdds(r, BankOf(name).value, lines, c.start, c.end - c.start, L, i);
  }

  /** Conversely every non-empty name field of a bank section has an entry
      under its logical number (holding that name, or a later field's name
      when two fields share a number). */
  lemma IoNamesComplete(lines: seq<string>, name: string, L: nat, i: nat)
    requires var m := Sections(IoName, lines);
      && name in m.entries && BankOf(name).Some?
      && L < m.entries[name].contents.end - m.entries[name].contents.start
      && HasName(lines, m.entries[name].contents.start + L, i)
    ensures LogicalNumber(BankOf(name).value, L, i) in IoNames(Some(lines)).entries
  {
    SectionsWithin(IoName, lines);
    var m := Sections(IoName, lines);
    var k :| 0 <= k < |m.keys| && m.keys[k] == name;
    PutSectionsAdds(m, lines, k, L, i);
    PutSectionsKeeps(m, lines, k + 1, |m.keys|, LogicalNumber(BankOf(name).value, L, i));
  }
  // ---------------------------------------------------------------------
  // The reverse lookup of getIoNameRange

  /** `getIoNameRange`: the bank from the number's ten-thousands, the group
      and bit from the rest; the line is two per group plus one for bits 4
      to 7, the field is the bit modulo 4. */
  function GetIoNameRange(lines: Option<seq<string>>, logicalIoNumber: int): (r: Option<Range>)
  {
    match DocumentSections(IoName, lines)
    case None => None
    case Some(m) =>
      var typeNumber := (logicalIoNumber / 10000) * 10000;
      match BankName(typeNumber)
      case None => None
      case Some(sectionName) =>
        match Get(m, sectionName)
        case None => None
        case Some(section) =>
          var groupNumber := (logicalIoNumber - typeNumber) / 10;
          var bitNumber := logicalIoNumber % 10;
          var lineNo := section.contents.start + (groupNumber - 1) * 2 + bitNumber / 4;
          match NonEmptyLine(lines, lineNo)
          case None => None
          case Some(lineText) =>
            match RangeAtIndex(lineText, bitNumber % 4)
            case None => None
            case Some(rg) => Some(MkRange(lineNo, rg.start.character, lineNo, rg.end.character))
  }

  lemma {:induction false} MulAtLeast(d: int, a: int)
    requires d > 0 && a >= 1
    ensures d * a >= d
    decreases a
  {
    if a > 1 {
      MulAtLeast(d, a - 1);
      assert d * a == d * (a - 1) + d;
    }
  }

  /** Euclidean division is determined by quotient and remainder. */
  lemma DivMod(x: int, d: int, k: int, r: int)
    requires d > 0 && x == d * k + r && 0 <= r < d
    ensures x / d == k && x % d == r
  {
    var q := x / d;
    var s := x % d;
    assert x == d * q + s && 0 <= s < d;
    if k > q {
      assert d * k - d * q == d * (k - q);
      MulAtLeast(d, k - q);
    } else if k < q {
      assert d * q - d * k == d * (q - k);
      MulAtLeast(d, q - k);
    }
  }

  /** The decoding arithmetic undoes LogicalNumber for the first four names
      of a line, as long as the number stays inside its bank. */
  lemma DecodeLogical(bank: nat, L: nat, i: nat)
    requires bank % 10000 == 0 && i < 4 && LogicalNumber(0, L, i) < 10000
    ensures var x := LogicalNumber(bank, L, i);
      var typeNumber := (x / 10000) * 10000;
      && typeNumber == bank
      && (x - typeNumber) / 10 == (L * 4 + i) / 8 + 1
      && x % 10 == (L * 4 + i) % 8
      && ((x - typeNumber) / 10 - 1) * 2 + (x % 10) / 4 == L
      && (x % 10) % 4 == i
  {
    var index := L * 4 + i;
    var q := index / 8;
    var r := index % 8;
    var b := bank / 10000;
    assert bank == 10000 * b;
    var y := 10 * (q + 1) + r;
    assert y < 10000;
    var x := LogicalNumber(bank, L, i);
    assert x == 10000 * b + y;
    DivMod(x, 10000, b, y);
    DivMod(y, 10, q + 1, r);
    DivMod(x, 10, 1000 * b + q + 1, r);
    DivMod(index, 8, q, r);
    DivMod(r, 4, r / 4, r % 4);
    assert 4 * L + i == 4 * (2 * q + r / 4) + r % 4;
    DivMod(4 * L + i, 4, L, i);
    DivMod(4 * L + i, 4, 2 * q + r / 4, r % 4);
  }

  /** The range getIoNameRange gives the number of field i (i < 4) of a
      non-empty contents line L of a bank section is that field's range,
      moved to the line. */
  lemma RangeOfNumber(lines: seq<string>, name: string, L: nat, i: nat)
    requires var m := Sections(IoName, lines);
      && name in m.entries && BankOf(name).Some?
      && L < m.entries[name].contents.end - m.entries[name].contents.start
      && NonEmptyLine(Some(lines), m.entries[name].contents.start + L).Some?
      && i < 4 && LogicalNumber(0, L, i) < 10000
    ensures var lineNo := Sections(IoName, lines).entries[name].contents.start + L;
      var rg := RangeAtIndex(lines[lineNo], i);
      GetIoNameRange(Some(lines), LogicalNumber(BankOf(name).value, L, i))
        == if rg.None? then None
           else Some(MkRange(lineNo, rg.value.start.character, lineNo, rg.value.end.character))
  {
    var bank := BankOf(name).value;
    BankTables(name, bank);
    DecodeLogical(bank, L, i);
  }

  /** Round trip: the number the forward table gives name i (i < 4) of
      contents line L of a bank section leads getIoNameRange back to
      exactly that field of that line. */
  lemma IoNameRoundTrip(lines: seq<string>, name: string, L: nat, i: nat)
    requires var m := Sections(IoName, lines);
      && name in m.entries && BankOf(name).Some?
      && L < m.entries[name].contents.end - m.entries[name].contents.start
      && HasName(lines, m.entries[name].contents.start + L, i)
      && i < 4 && LogicalNumber(0, L, i) < 10000
    ensures var c := Sections(IoName, lines).entries[name].contents;
      var lineNo := c.start + L;
      var r := GetIoNameRange(Some(lines), LogicalNumber(BankOf(name).value, L, i));
      && r.Some?
      && r.value.start.line == lineNo && r.value.end.line == lineNo
      && 0 <= r.value.start.character <= r.value.end.character <= |lines[lineNo]|
      && lines[lineNo][r.value.start.character..r.value.end.character] == Split(lines[lineNo])[i]
  {
    var c := Sections(IoName, lines).entries[name].contents;
    var line := lines[c.start + L];
    assert Split("") == [""];
    assert line != "";
    RangeOfNumber(lines, name, L, i);
    RangeIsSplitPiece(line, i);
  }

  /** Whatever getIoNameRange finds lies on one line of the file, and the
      text under it is one comma-separated field of that line. */
  lemma GetIoNameRangeSpec(lines: Option<seq<string>>, logicalIoNumber: int)
    requires GetIoNameRange(lines, logicalIoNumber).Some?
    ensures var r := GetIoNameRange(lines, logicalIoNumber).value;
      var lineNo := r.start.line;
      && lines.Some? && 0 <= lineNo < |lines.value| && r.end.line == lineNo
      && logicalIoNumber >= 0
      && BankName((logicalIoNumber / 10000) * 10000).Some?
      && 0 <= r.start.character <= r.end.character <= |lines.value[lineNo]|
      && (logicalIoNumber % 10) % 4 < |Split(lines.value[lineNo])|
      && lines.value[lineNo][r.start.character..r.end.character]
           == Split(lines.value[lineNo])[(logicalIoNumber % 10) % 4]
  {
    var m := Sections(IoName, lines.value);
    var x := logicalIoNumber;
    var typeNumber := (x / 10000) * 10000;
    var section := m.entries[BankName(typeNumber).value];
    var lineNo := section.contents.start + ((x - typeNumber) / 10 - 1) * 2 + (x % 10) / 4;
    RangeIsSplitPiece(lines.value[lineNo], (x % 10) % 4);
  }

  // ---------------------------------------------------------------------
  // Counting and hover

  /** How many of the first j entries hold the name. */
  function CountOf(t: IoTable, name: string, j: nat): nat
    requires Wf(t) && j <= |t.keys|
  {
    if j == 0 then 0
    else CountOf(t, name, j - 1) + (if t.entries[t.keys[j - 1]] == name then 1 else 0)
  }

  /** A count table's entry for the name, 0 when absent. */
  function CountIn(counts: map<string, nat>, name: string): nat
  {
    if name in counts then counts[name] else 0
  }

  /** The count table after the first j entries of a counting walk that
      started from `base`, adding one to an entry's name each time. */
  function Counts(base: map<string, nat>, t: IoTable, j: nat): (r: map<string, nat>)
    requires Wf(t) && j <= |t.keys|
  {
    if j == 0 then base
    else
      var c := Counts(base, t, j - 1);
      var name := t.entries[t.keys[j - 1]];
      c[name := (if name in c then c[name] else 0) + 1]
  }

  /** The walk adds to each name the number of entries holding it, and
      touches no other name. */
  lemma {:induction false} CountsSpec(base: map<string, nat>, t: IoTable, j: nat, name: string)
    requires Wf(t) && j <= |t.keys|
    ensures name in Counts(base, t, j) <==> name in base || CountOf(t, name, j) > 0
    ensures CountIn(Counts(base, t, j), name) == CountIn(base, name) + CountOf(t, name, j)
    ensures CountOf(t, name, j) > 0 <==> exists q :: 0 <= q < j && t.entries[t.keys[q]] == name
  {
    if j > 0 {
      CountsSpec(base, t, j - 1, name);
    }
  }

  /** `onHover`: `<section> <4 * offset + field index + 1>`, the one-based
      number of the name under the cursor within its bank. */
  function Hover(lines: Option<seq<string>>, pos: Position): (r: Option<string>)
    ensures r.Some? <==>
      && lines.Some? && NameAtLine(Sections(IoName, lines.value), pos.line).Some?
      && NonEmptyLine(lines, pos.line).Some?
  {
    match DocumentSections(IoName, lines)
    case None => None
    case Some(m) =>
      match NameAtLine(m, pos.line)
      case None => None
      case Some(name) =>
        var offset := pos.line - m.entries[name].contents.start;
        match NonEmptyLine(lines, pos.line)
        case None => None
        case Some(lineText) =>
          Some(name + " " + NatToString(offset * 4 + IndexAtPosition(lineText, pos.character) + 1))
  }

  /** The name a hover shows inside a bank section, when the cursor is on
      one of the line's first four fields, is the one-based bit of the
      logical number that getIoNameRange takes back to the very field under
      the cursor. */
  lemma HoverThenRange(lines: seq<string>, pos: Position)
    requires Hover(Some(lines), pos).Some?
    requires 0 <= pos.character <= |lines[pos.line]|
    ensures var m := Sections(IoName, lines);
      var name := NameAtLine(m, pos.line).value;
      var offset := pos.line - m.entries[name].contents.start;
      var idx := IndexAtPosition(lines[pos.line], pos.character);
      && Hover(Some(lines), pos) == Some(name + " " + NatToString(offset * 4 + idx + 1))
      && (BankOf(name).Some? && idx < 4 && LogicalNumber(0, offset, idx) < 10000 ==>
            CursorInRange(lines, pos, GetIoNameRange(Some(lines), LogicalNumber(BankOf(name).value, offset, idx))))
  {
    var m := Sections(IoName, lines);
    var name := NameAtLine(m, pos.line).value;
    var offset := pos.line - m.entries[name].contents.start;
    var idx := IndexAtPosition(lines[pos.line], pos.character);
    if BankOf(name).Some? && idx < 4 && LogicalNumber(0, offset, idx) < 10000 {
      FieldUnderCursor(lines, name, offset, pos);
    }
  }

  /** The range is found and holds the cursor. */
  predicate CursorInRange(lines: seq<string>, pos: Position, r: Option<Range>)
  {
    r.Some? && r.value.start.line == pos.line && r.value.end.line == pos.line
    && r.value.start.character <= pos.character <= r.value.end.character
  }

  lemma FieldUnderCursor(lines: seq<string>, name: string, offset: nat, pos: Position)
    requires var m := Sections(IoName, lines);
      && name in m.entries && BankOf(name).Some?
      && offset < m.entries[name].contents.end - m.entries[name].contents.start
      && pos.line == m.entries[name].contents.start + offset
      && NonEmptyLine(Some(lines), pos.line).Some?
      && 0 <= pos.character <= |lines[pos.line]|
      && var idx := IndexAtPosition(lines[pos.line], pos.character);
         idx < 4 && LogicalNumber(0, offset, idx) < 10000
    ensures CursorInRange(lines, pos,
      GetIoNameRange(Some(lines), LogicalNumber(BankOf(name).value, offset, IndexAtPosition(lines[pos.line], pos.character))))
  {
    var idx := IndexAtPosition(lines[pos.line], pos.character);
    RangeOfNumber(lines, name, offset, idx);
    IndexThenRange(lines[pos.line], pos.character);
  }

  // ---------------------------------------------------------------------
  // Duplicate names

  /** Two of the first j entries hold the name. */
  lemma {:induction false} CountTwo(t: IoTable, name: string, j: nat)
    requires Wf(t) && j <= |t.keys|
    ensures CountOf(t, name, j) >= 2 <==>
      exists p, q :: 0 <= p < q < j && t.entries[t.keys[p]] == name && t.entries[t.keys[q]] == name
    decreases j
  {
    if j > 0 {
      CountTwo(t, name, j - 1);
      CountsSpec(map[], t, j - 1, name);
      if CountOf(t, name, j) >= 2 && CountOf(t, name, j - 1) < 2 {
        var p :| 0 <= p < j - 1 && t.entries[t.keys[p]] == name;
        assert t.entries[t.keys[j - 1]] == name;
      }
      if exists p, q :: 0 <= p < q < j && t.entries[t.keys[p]] == name && t.entries[t.keys[q]] == name {
        var p, q :| 0 <= p < q < j && t.entries[t.keys[p]] == name && t.entries[t.keys[q]] == name;
        if q < j - 1 {
        } else {
          assert CountOf(t, name, j - 1) > 0;
        }
      }
    }
  }

  /** The number of I/O names in the table equal to the name. */
  function NameCount(t: IoTable, name: string): nat
    requires Wf(t)
  {
    CountOf(t, name, |t.keys|)
  }

  /** A name counts twice exactly when two different logical numbers
      carry it. */
  lemma NameCountTwo(t: IoTable, name: string)
    requires Wf(t)
    ensures NameCount(t, name) >= 2 <==>
      exists x, y :: x in t.entries && y in t.entries && x != y && t.entries[x] == name && t.entries[y] == name
  {
    CountTwo(t, name, |t.keys|);
    if exists x, y :: x in t.entries && y in t.entries && x != y && t.entries[x] == name && t.entries[y] == name {
      var x, y :| x in t.entries && y in t.entries && x != y && t.entries[x] == name && t.entries[y] == name;
      var p :| 0 <= p < |t.keys| && t.keys[p] == x;
      var q :| 0 <= q < |t.keys| && t.keys[q] == y;
      if p < q {
        assert 0 <= p < q < |t.keys| && t.entries[t.keys[p]] == name && t.entries[t.keys[q]] == name;
      } else {
        assert 0 <= q < p < |t.keys| && t.entries[t.keys[q]] == name && t.entries[t.keys[p]] == name;
      }
    }
    if NameCount(t, name) >= 2 {
      var p, q :| 0 <= p < q < |t.keys| && t.entries[t.keys[p]] == name && t.entries[t.keys[q]] == name;
      assert t.keys[p] in t.entries && t.keys[q] in t.entries && t.keys[p] != t.keys[q];
    }
  }

  // ---------------------------------------------------------------------
  // validate

  const IoDuplicated := "ionamedatfile.diagnostic.name.duplicated"
  const VarDuplicated := "varnamedatfile.diagnostic.name.duplicated"

  /** The other file's name counts a validate uses: those the other file
      gave when its alias option is on, else none. */
  function AliasCounts(alias: Option<bool>, counts: Option<map<string, nat>>): (r: map<string, nat>)
    ensures alias != Some(true) ==> r == map[]
  {
    if alias == Some(true) && counts.Some? then counts.value else map[]
  }

  /** The diagnostic validate pushes for entry x holding ioName, if any. */
  function EntryDiagnostic(lines: Option<seq<string>>, counts: map<string, nat>, varCounts: map<string, nat>,
                           x: int, ioName: string, tables: Tables, locale: string): Option<Diagnostic>
  {
    var ioNameCnt := CountIn(counts, ioName);
    var varNameCnt := CountIn(varCounts, ioName);
    if ioNameCnt == 0 || ioNameCnt + varNameCnt < 2 || StartsWith(ioName, "'") then None
    else
      match GetIoNameRange(lines, x)
      case None => None
      case Some(range) =>
        var key := if ioNameCnt >= 2 then IoDuplicated else VarDuplicated;
        Some(Diagnostic(Information, range, Translate(tables, locale, key, [ioName]), NoData))
  }

  /** The check of one entry (logical number, name) with the counts and
      the message tables of this validate. */
  type EntryCheck = (int, string) -> Option<Diagnostic>

  function CheckOf(lines: Option<seq<string>>, counts: map<string, nat>, varCounts: map<string, nat>,
                   tables: Tables, locale: string): (check: EntryCheck)
    ensures forall x, ioName :: check(x, ioName) == EntryDiagnostic(lines, counts, varCounts, x, ioName, tables, locale)
  {
    (x, ioName) => EntryDiagnostic(lines, counts, varCounts, x, ioName, tables, locale)
  }

  /** The diagnostics of the first j entries, in table order. */
  function EntryDiagnostics(check: EntryCheck, t: IoTable, j: nat): seq<Diagnostic>
    requires Wf(t) && j <= |t.keys|
  {
    if j == 0 then []
    else
      var ds := EntryDiagnostics(check, t, j - 1);
      var x := t.keys[j - 1];
      match check(x, t.entries[x])
      case None => ds
      case Some(d) => ds + [d]
  }

  /** `validate`: null when the I/O-name alias option is explicitly off;
      otherwise one diagnostic per duplicated name entry. */
  function ValidateResult(lines: Option<seq<string>>, ioAlias: Option<bool>, varAlias: Option<bool>,
                          varCounts: Option<map<string, nat>>, tables: Tables, locale: string): (r: Option<seq<Diagnostic>>)
    ensures r.None? <==> ioAlias == Some(false)
  {
    if ioAlias == Some(false) then None
    else
      var t := IoNames(lines);
      var check := CheckOf(lines, Counts(map[], t, |t.keys|), AliasCounts(varAlias, varCounts), tables, locale);
      Some(EntryDiagnostics(check, t, |t.keys|))
  }

  /** The entry is reported: its name is not commented out by a leading
      quote and occurs at least twice among the I/O names and the counted
      variable names together. */
  ghost predicate Duplicated(t: IoTable, varCounts: map<string, nat>, x: int)
    requires Wf(t) && x in t.entries
  {
    var ioName := t.entries[x];
    NameCount(t, ioName) + CountIn(varCounts, ioName) >= 2 && !StartsWith(ioName, "'")
  }

  /** The message for a reported entry: the I/O-name message when the name
      is duplicated among the I/O names, the variable-name one otherwise. */
  function Message(t: IoTable, x: int, tables: Tables, locale: string): string
    requires Wf(t) && x in t.entries
  {
    var ioName := t.entries[x];
    Translate(tables, locale, if NameCount(t, ioName) >= 2 then IoDuplicated else VarDuplicated, [ioName])
  }

  /** The diagnostic reports entry x: a duplicated entry, at the range
      getIoNameRange finds for it, as an Information with its message. */
  ghost predicate ReportedAs(lines: Option<seq<string>>, t: IoTable, varCounts: map<string, nat>, x: int,
                             d: Diagnostic, tables: Tables, locale: string)
    requires Wf(t)
  {
    && x in t.entries && Duplicated(t, varCounts, x)
    && GetIoNameRange(lines, x) == Some(d.range)
    && d == Diagnostic(Information, d.range, Message(t, x, tables, locale), NoData)
  }

  lemma EntryDiagnosticIs(lines: Option<seq<string>>, t: IoTable, varCounts: map<string, nat>, x: int, tables: Tables, locale: string)
    requires Wf(t) && x in t.entries
    ensures var d := EntryDiagnostic(lines, Counts(map[], t, |t.keys|), varCounts, x, t.entries[x], tables, locale);
      && (d.Some? <==> Duplicated(t, varCounts, x) && GetIoNameRange(lines, x).Some?)
      && (d.Some? ==> d.value == Diagnostic(Information, GetIoNameRange(lines, x).value, Message(t, x, tables, locale), NoData))
  {
    var ioName := t.entries[x];
    CountsSpec(map[], t, |t.keys|, ioName);
    var q :| 0 <= q < |t.keys| && t.keys[q] == x;
    assert t.entries[t.keys[q]] == ioName;
  }

  lemma {:induction false} EntryDiagnosticsSpec(check: EntryCheck, t: IoTable, j: nat)
    requires Wf(t) && j <= |t.keys|
    ensures forall d :: d in EntryDiagnostics(check, t, j) ==>
      exists q :: 0 <= q < j && check(t.keys[q], t.entries[t.keys[q]]) == Some(d)
    ensures forall q :: 0 <= q < j && check(t.keys[q], t.entries[t.keys[q]]).Some? ==>
      check(t.keys[q], t.entries[t.keys[q]]).value in EntryDiagnostics(check, t, j)
    decreases j
  {
    if j > 0 {
      EntryDiagnosticsSpec(check, t, j - 1);
    }
  }

  /** One more entry of validate's walk. */
  lemma EntryDiagnosticsStep(check: EntryCheck, t: IoTable, j: nat)
    requires Wf(t) && j < |t.keys|
    ensures var e := check(t.keys[j], t.entries[t.keys[j]]);
      EntryDiagnostics(check, t, j + 1) == EntryDiagnostics(check, t, j) + (if e.Some? then [e.value] else [])
  {
  }

  /** What validate reports, when it reports: every diagnostic is an
      Information at the range of a duplicated entry with that entry's
      message, and every duplicated entry whose range is found gets one. */
  lemma ValidateSpec(lines: Option<seq<string>>, ioAlias: Option<bool>, varAlias: Option<bool>,
                     varCounts: Option<map<string, nat>>, tables: Tables, locale: string)
    requires ioAlias != Some(false)
    ensures var t := IoNames(lines);
      var vc := AliasCounts(varAlias, varCounts);
      var r := ValidateResult(lines, ioAlias, varAlias, varCounts, tables, locale).value;
      && (forall d :: d in r ==>
            exists x :: ReportedAs(lines, t, vc, x, d, tables, locale))
      && (forall x :: x in t.entries && Duplicated(t, vc, x) && GetIoNameRange(lines, x).Some? ==>
            Diagnostic(Information, GetIoNameRange(lines, x).value, Message(t, x, tables, locale), NoData) in r)
  {
    var t := IoNames(lines);
    var vc := AliasCounts(varAlias, varCounts);
    var check := CheckOf(lines, Counts(map[], t, |t.keys|), vc, tables, locale);
    var r := ValidateResult(lines, ioAlias, varAlias, varCounts, tables, locale).value;
    assert r == EntryDiagnostics(check, t, |t.keys|);
    EntriesSound(lines, t, vc, tables, locale);
    EntriesComplete(lines, t, vc, tables, locale);
  }

  /** Every diagnostic of the walk over a table reports one of its entries. */
  lemma EntriesSound(lines: Option<seq<string>>, t: IoTable, vc: map<string, nat>, tables: Tables, locale: string)
    requires Wf(t)
    ensures forall d :: d in EntryDiagnostics(CheckOf(lines, Counts(map[], t, |t.keys|), vc, tables, locale), t, |t.keys|) ==>
      exists x :: ReportedAs(lines, t, vc, x, d, tables, locale)
  {
    var check := CheckOf(lines, Counts(map[], t, |t.keys|), vc, tables, locale);
    EntryDiagnosticsSpec(check, t, |t.keys|);
    forall d | d in EntryDiagnostics(check, t, |t.keys|)
      ensures exists x :: ReportedAs(lines, t, vc, x, d, tables, locale)
    {
      var q :| 0 <= q < |t.keys| && check(t.keys[q], t.entries[t.keys[q]]) == Some(d);
      EntryDiagnosticIs(lines, t, vc, t.keys[q], tables, locale);
      assert ReportedAs(lines, t, vc, t.keys[q], d, tables, locale);
    }
  }

  /** Every duplicated entry of a table whose range is found is reported. */
  lemma EntriesComplete(lines: Option<seq<string>>, t: IoTable, vc: map<string, nat>, tables: Tables, locale: string)
    requires Wf(t)
    ensures forall x :: x in t.entries && Duplicated(t, vc, x) && GetIoNameRange(lines, x).Some? ==>
      Diagnostic(Information, GetIoNameRange(lines, x).value, Message(t, x, tables, locale), NoData)
        in EntryDiagnostics(CheckOf(lines, Counts(map[], t, |t.keys|), vc, tables, locale), t, |t.keys|)
  {
    var check := CheckOf(lines, Counts(map[], t, |t.keys|), vc, tables, locale);
    EntryDiagnosticsSpec(check, t, |t.keys|);
    forall x | x in t.entries && Duplicated(t, vc, x) && GetIoNameRange(lines, x).Some?
      ensures Diagnostic(Information, GetIoNameRange(lines, x).value, Message(t, x, tables, locale), NoData)
        in EntryDiagnostics(check, t, |t.keys|)
    {
      var q :| 0 <= q < |t.keys| && t.keys[q] == x;
      EntryDiagnosticIs(lines, t, vc, x, tables, locale);
      assert check(t.keys[q], t.entries[t.keys[q]]).Some?;
    }
  }

  /** With the variable-name alias option not on, only duplicates among
      the I/O names themselves are reported. */
  lemma ValidateIgnoresVarNames(lines: Option<seq<string>>, ioAlias: Option<bool>, varAlias: Option<bool>,
                                varCounts: Option<map<string, nat>>, tables: Tables, locale: string)
    requires varAlias != Some(true)
    ensures ValidateResult(lines, ioAlias, varAlias, varCounts, tables, locale)
         == ValidateResult(lines, ioAlias, None, None, tables, locale)
  {
  }

  // ---------------------------------------------------------------------
  // The handler

  class IoNameDatFile {
    /** The text and the memoised sections of the IONAME.DAT file. */
    const file: RobotControllerFile
    /** The memoised result of updateIoName. */
    var ioNameTable: Option<IoTable>

    ghost predicate Valid()
      reads this, file, file.sectionedDocument
    {
      && file.Valid() && file.kind == IoName
      && (ioNameTable.Some? ==> ioNameTable.value == IoNames(file.lines))
    }

    constructor(lines: Option<seq<string>>)
      ensures Valid() && fresh(file)
      ensures file.lines == lines && ioNameTable == None
    {
      file := new RobotControllerFile(IoName, lines);
      ioNameTable := None;
    }

    /** `updateIoName`: built once; the names of each bank section are set
        line by line, field by field. */
    method UpdateIoName()
      requires Valid()
      modifies this, file
      ensures Valid()
      ensures ioNameTable == Some(IoNames(file.lines))
    {
      if ioNameTable.Some? {
        return;
      }
      ioNameTable := Some(Empty());
      var doc := file.UpdateSection();
      if doc == null {
        return;
      }
      SectionsWithin(IoName, file.lines.value);
      var table := SetSections(doc.sectionMap, file.lines.value);
      ioNameTable := Some(table);
    }

    /** `getIoName`: the name stored under the logical number. */
    method GetIoName(logicalNumber: int) returns (r: Option<string>)
      requires Valid()
      modifies this, file
      ensures Valid()
      ensures r == Get(IoNames(file.lines), logicalNumber)
      ensures ioNameTable == Some(IoNames(file.lines))
    {
      UpdateIoName();
      r := Get(ioNameTable.value, logicalNumber);
    }

    /** `getIoNameCnt`: how many logical numbers carry each name. */
    method GetIoNameCnt() returns (r: map<string, nat>)
      requires Valid()
      modifies this, file
      ensures Valid()
      ensures ioNameTable == Some(IoNames(file.lines))
      ensures r == Counts(map[], ioNameTable.value, |ioNameTable.value.keys|)
    {
      UpdateIoName();
      r := CountNames(map[], ioNameTable.value);
    }

    /** `validate`: checks the alias option, counts the names and walks the
        table pushing a diagnostic for each duplicated name. */
    method Validate(ioAlias: Option<bool>, varAlias: Option<bool>, varCounts: Option<map<string, nat>>,
                    tables: Tables, locale: string) returns (r: Option<seq<Diagnostic>>)
      requires Valid()
      modifies this, file
      ensures Valid()
      ensures r == ValidateResult(file.lines, ioAlias, varAlias, varCounts, tables, locale)
      ensures ioAlias != Some(false) ==> ioNameTable == Some(IoNames(file.lines))
      ensures ioAlias == Some(false) ==> ioNameTable == old(ioNameTable)
    {
      if ioAlias == Some(false) {
        return None;
      }
      UpdateIoName();
      var counts := GetIoNameCnt();
      var t := ioNameTable.value;
      var varNameCntTable: Option<map<string, nat>> := None;
      if varAlias == Some(true) {
        varNameCntTable := varCounts;
      }
      var vc := if varNameCntTable.Some? then varNameCntTable.value else map[];
      var diagnostics := PushDiagnostics(file.lines, t, counts, vc, tables, locale);
      return Some(diagnostics);
    }
  }

  lemma CountsExtend(base: map<string, nat>, t: IoTable, j: nat, r: map<string, nat>)
    requires Wf(t) && j < |t.keys| && r == Counts(base, t, j)
    ensures var name := t.entries[t.keys[j]];
      r[name := (if name in r then r[name] else 0) + 1] == Counts(base, t, j + 1)
  {
  }

  /** The body of validate's walk for one entry: the duplicate test, the
      range lookup and the choice of message. */
  method CheckEntry(lines: Option<seq<string>>, ioNameCntTable: map<string, nat>, varNameCntTable: map<string, nat>,
                    logicalIoNumber: int, ioName: string, tables: Tables, locale: string) returns (d: Option<Diagnostic>)
    ensures d == EntryDiagnostic(lines, ioNameCntTable, varNameCntTable, logicalIoNumber, ioName, tables, locale)
  {
    var ioNameCnt := CountIn(ioNameCntTable, ioName);
    var varNameCnt := CountIn(varNameCntTable, ioName);
    if ioNameCnt == 0 || ioNameCnt + varNameCnt < 2 || StartsWith(ioName, "'") {
      return None;
    }
    var range := GetIoNameRange(lines, logicalIoNumber);
    if range.None? {
      return None;
    }
    var errorMessage: string;
    if ioNameCnt >= 2 {
      errorMessage := Translate(tables, locale, IoDuplicated, [ioName]);
    } else {
      errorMessage := Translate(tables, locale, VarDuplicated, [ioName]);
    }
    return Some(Diagnostic(Information, range.value, errorMessage, NoData));
  }

  /** The counting walk of getIoNameCnt (and of getVarNameCnt per type
      table): one more for the name of each entry, in table order. */
  method CountNames(base: map<string, nat>, t: IoTable) returns (r: map<string, nat>)
    requires Wf(t)
    ensures r == Counts(base, t, |t.keys|)
  {
    r := base;
    var j := 0;
    while j < |t.keys|
      invariant 0 <= j <= |t.keys|
      invariant r == Counts(base, t, j)
    {
      var name := t.entries[t.keys[j]];
      var cnt := if name in r then r[name] else 0;
      CountsExtend(base, t, j, r);
      r := r[name := cnt + 1];
      j := j + 1;
    }
  }

  /** validate's walk over the table in order, pushing each entry's
      diagnostic. */
  method PushDiagnostics(lines: Option<seq<string>>, t: IoTable, counts: map<string, nat>, vc: map<string, nat>,
                         tables: Tables, locale: string) returns (diagnostics: seq<Diagnostic>)
    requires Wf(t)
    ensures diagnostics == EntryDiagnostics(CheckOf(lines, counts, vc, tables, locale), t, |t.keys|)
  {
    ghost var check := CheckOf(lines, counts, vc, tables, locale);
    diagnostics := [];
    var j := 0;
    while j < |t.keys|
      invariant 0 <= j <= |t.keys|
      invariant diagnostics == EntryDiagnostics(check, t, j)
    {
      var logicalIoNumber := t.keys[j];
      var d := CheckEntry(lines, counts, vc, logicalIoNumber, t.entries[logicalIoNumber], tables, locale);
      assert d == check(logicalIoNumber, t.entries[logicalIoNumber]);
      EntryDiagnosticsStep(check, t, j);
      if d.Some? {
        diagnostics := diagnostics + [d.value];
      }
      j := j + 1;
    }
  }

  /** The walk over the sections of updateIoName, in map order; sections
      that are not a bank are skipped. */
  method SetSections(m: SectionMap, textLines: seq<string>) returns (table: IoTable)
    requires Wf(m) && Within(m, |textLines|)
    ensures table == PutSections(Empty(), m, textLines, |m.keys|)
  {
    table := Empty();
    var j := 0;
    while j < |m.keys|
      invariant 0 <= j <= |m.keys|
      invariant table == PutSections(Empty(), m, textLines, j)
    {
      var sectionName := m.keys[j];
      var section := m.entries[sectionName];
      match BankOf(sectionName) {
        case None =>
        case Some(typeNumber) =>
          table := SetSection(table, typeNumber, textLines, section.contents.start, section.contents.end);
      }
      j := j + 1;
    }
  }

  /** The names of one line set field by field (the inner `forEach`). */
  method SetNames(table: IoTable, typeNumber: nat, offset: nat, names: seq<string>) returns (r: IoTable)
    ensures r == PutNames(table, typeNumber, offset, names)
  {
    r := table;
    var i := 0;
    while i < |names|
      invariant 0 <= i <= |names|
      invariant r == PutNames(table, typeNumber, offset, names[..i])
    {
      assert names[..i + 1][..i] == names[..i];
      if |names[i]| > 0 {
        var index := offset * 4 + i;
        var groupNumber := index / 8 + 1;
        var bitNumber := index % 8;
        r := Put(r, typeNumber + groupNumber * 10 + bitNumber, names[i]);
      }
      i := i + 1;
    }
    assert names[..i] == names;
  }

  /** The contents lines of one bank section set in order. */
  method SetSection(table: IoTable, typeNumber: nat, textLines: seq<string>, start: int, end: int) returns (r: IoTable)
    requires 0 <= start <= end <= |textLines|
    ensures r == PutLines(table, typeNumber, textLines, start, end - start)
  {
    r := table;
    var lineNo := start;
    while lineNo < end
      invariant start <= lineNo <= end
      invariant r == PutLines(table, typeNumber, textLines, start, lineNo - start)
    {
      var names := Split(textLines[lineNo]);
      var offset := lineNo - start;
      assert PutLines(table, typeNumber, textLines, start, offset + 1)
          == PutNames(PutLines(table, typeNumber, textLines, start, offset), typeNumber, offset, names);
      r := SetNames(r, typeNumber, offset, names);
      lineNo := lineNo + 1;
    }
  }
}
