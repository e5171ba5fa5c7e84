/** String helpers shared by every file handler: section-name extraction,
    the span of the k-th comma-separated field, the comma count before a
    column, the severity names of the settings, and range containment. */
module Util {

  import opened Protocol

  // ---------------------------------------------------------------------
  // Character classes

  /** JavaScript's `\s`: the ASCII blanks plus the Unicode space separators,
      line and paragraph separators and the byte-order mark. */
  predicate IsWhitespace(c: char)
  {
    var n := c as int;
    || (9 <= n <= 13) || n == 32 || n == 0xA0 || n == 0x1680
    || (0x2000 <= n <= 0x200A) || n == 0x2028 || n == 0x2029
    || n == 0x202F || n == 0x205F || n == 0x3000 || n == 0xFEFF
  }

  predicate IsDigit(c: char)
  {
    '0' <= c <= '9'
  }

  /** JavaScript's `\w`: the characters `\b` looks at. */
  predicate IsWordChar(c: char)
  {
    ('a' <= c <= 'z') || ('A' <= c <= 'Z') || IsDigit(c) || c == '_'
  }

  /** The characters `.` does not match. */
  predicate IsLineTerminator(c: char)
  {
    c == '\n' || c == '\r' || c as int == 0x2028 || c as int == 0x2029
  }

  predicate StartsWith(s: string, prefix: string)
  {
    |prefix| <= |s| && s[..|prefix|] == prefix
  }

  predicate AllDigits(s: string)
  {
    forall i :: 0 <= i < |s| ==> IsDigit(s[i])
  }

  /** Value of a decimal digit string (`+str` on `[0-9]+`). */
  function DigitsValue(s: string): (n: nat)
    requires AllDigits(s)
    decreases |s|
  {
    if s == [] then 0 else 10 * DigitsValue(s[..|s| - 1]) + (s[|s| - 1] as int - '0' as int)
  }

  /** Decimal rendering of a natural number (`String(n)`). */
  function NatToString(n: nat): (s: string)
    ensures |s| > 0 && AllDigits(s)
    ensures DigitsValue(s) == n
    decreases n
  {
    var d := [(('0' as int) + n % 10) as char];
    if n < 10 then d
    else
      var s := NatToString(n / 10) + d;
      assert s[..|s| - 1] == NatToString(n / 10);
      s
  }

  /** Decimal rendering of an integer, with a leading `-` when negative. */
  function IntToString(n: int): (s: string)
    ensures n >= 0 ==> s == NatToString(n)
    ensures n < 0 ==> s == "-" + NatToString(-n)
  {
    if n >= 0 then NatToString(n) else "-" + NatToString(-n)
  }

  // ---------------------------------------------------------------------
  // extractSectionNameFromText

  /** Number of leading `/` characters. */
  function SlashRun(s: string): (k: nat)
    ensures k <= |s|
    ensures forall i :: 0 <= i < k ==> s[i] == '/'
    ensures k < |s| ==> s[k] != '/'
  {
    if s == [] || s[0] != '/' then 0 else 1 + SlashRun(s[1..])
  }

  /** Length of the leading run of non-whitespace characters. */
  function NonSpaceRun(s: string): (k: nat)
    ensures k <= |s|
    ensures forall i :: 0 <= i < k ==> !IsWhitespace(s[i])
    ensures k < |s| ==> IsWhitespace(s[k])
  {
    if s == [] || IsWhitespace(s[0]) then 0 else 1 + NonSpaceRun(s[1..])
  }

  /** `/^[/]*(\S*)/`: strip every leading `/` and return the maximal run of
      non-whitespace characters that follows. The pattern always matches, so
      the source's fallback to "" is never taken. */
  function ExtractSectionName(line: string): (name: string)
    ensures forall i :: 0 <= i < |name| ==> !IsWhitespace(name[i])
    ensures |name| > 0 ==> name[0] != '/'
    ensures var k := SlashRun(line);
      && k + |name| <= |line|
      && line[k..k + |name|] == name
      && (k + |name| == |line| || IsWhitespace(line[k + |name|]))
    ensures name == "" <==> (SlashRun(line) == |line| || IsWhitespace(line[SlashRun(line)]))
  {
    var k := SlashRun(line);
    var rest := line[k..];
    rest[..NonSpaceRun(rest)]
  }

  // ---------------------------------------------------------------------
  // Comma fields: getRangeAtIndex, getIndexAtPosition and String.split(",")

  /** Index of the first comma at or after `from`, or the length when there
      is none. */
  function NextComma(s: string, from: nat): (c: nat)
    requires from <= |s|
    ensures from <= c <= |s|
    ensures forall i :: from <= i < c ==> s[i] != ','
    ensures c < |s| ==> s[c] == ','
    decreases |s| - from
  {
    if from == |s| || s[from] == ',' then from else NextComma(s, from + 1)
  }

  /** Number of commas in `s[..n]`. */
  function CommasBefore(s: string, n: nat): nat
    requires n <= |s|
  {
    if n == 0 then 0 else CommasBefore(s, n - 1) + (if s[n - 1] == ',' then 1 else 0)
  }

  /** `lineText.split(",")`, reading from column `from` on. */
  function SplitFrom(s: string, from: nat): (fields: seq<string>)
    requires from <= |s|
    ensures |fields| > 0
    decreases |s| - from
  {
    var c := NextComma(s, from);
    if c == |s| then [s[from..]] else [s[from..c]] + SplitFrom(s, c + 1)
  }

  /** `lineText.split(",")`. */
  function Split(s: string): (fields: seq<string>)
    ensures |fields| > 0
  {
    SplitFrom(s, 0)
  }

  /** Start and end column of the k-th comma-separated field counted from
      column `from`, or None when fewer than k commas follow. */
  function FieldSpanFrom(s: string, from: nat, k: nat): (r: Option<(nat, nat)>)
    requires from <= |s|
    ensures r.Some? ==>
      && from <= r.value.0 <= r.value.1 <= |s|
      && (k == 0 ==> r.value.0 == from)
      && (k > 0 ==> from < r.value.0 && s[r.value.0 - 1] == ',')
      && (forall i :: r.value.0 <= i < r.value.1 ==> s[i] != ',')
      && (r.value.1 == |s| || s[r.value.1] == ',')
    decreases k
  {
    var c := NextComma(s, from);
    if k == 0 then Some((from, c))
    else if c == |s| then None
    else FieldSpanFrom(s, c + 1, k - 1)
  }

  /** `getRangeAtIndex`: the pattern `^(([^,]*,){k})([^,]*)` as a line-0 range
      from the end of the k-th comma to the next comma or end of text. */
  function RangeAtIndex(text: string, k: nat): (r: Option<Range>)
    ensures r.Some? <==> FieldSpanFrom(text, 0, k).Some?
    ensures r.Some? ==>
      && r.value.start.line == 0 && r.value.end.line == 0
      && 0 <= r.value.start.character <= r.value.end.character <= |text|
      && (forall i :: r.value.start.character <= i < r.value.end.character ==> text[i] != ',')
      && (r.value.end.character == |text| || text[r.value.end.character] == ',')
  {
    match FieldSpanFrom(text, 0, k)
    case None => None
    case Some((a, b)) => Some(MkRange(0, a, 0, b))
  }

  /** `getIndexAtPosition`: number of commas in `substring(0, position)`,
      which clamps the column to the text. */
  function IndexAtPosition(text: string, position: int): (index: nat)
  {
    CommasBefore(text, if position < 0 then 0 else if position < |text| then position else |text|)
  }

  lemma {:induction false} CommasBeforeNoComma(s: string, lo: nat, hi: nat)
    requires lo <= hi <= |s|
    requires forall i :: lo <= i < hi ==> s[i] != ','
    ensures CommasBefore(s, hi) == CommasBefore(s, lo)
    decreases hi - lo
  {
    if lo < hi { CommasBeforeNoComma(s, lo, hi - 1); }
  }

  lemma {:induction false} CommasBeforeMono(s: string, lo: nat, hi: nat)
    requires lo <= hi <= |s|
    ensures CommasBefore(s, lo) <= CommasBefore(s, hi)
    decreases hi - lo
  {
    if lo < hi { CommasBeforeMono(s, lo, hi - 1); }
  }

  /** Counting from column `from`: the k-th field exists exactly when at
      least k commas follow, and it starts right after the k-th of them. */
  lemma {:induction false} FieldSpanFromSpec(s: string, from: nat, k: nat)
    requires from <= |s|
    ensures FieldSpanFrom(s, from, k).Some? <==> CommasBefore(s, |s|) - CommasBefore(s, from) >= k
    ensures FieldSpanFrom(s, from, k).Some? ==>
      CommasBefore(s, FieldSpanFrom(s, from, k).value.0) == CommasBefore(s, from) + k
    decreases k
  {
    var c := NextComma(s, from);
    CommasBeforeNoComma(s, from, c);
    CommasBeforeMono(s, from, |s|);
    if k > 0 && c < |s| {
      assert CommasBefore(s, c + 1) == CommasBefore(s, c) + 1;
      FieldSpanFromSpec(s, c + 1, k - 1);
    }
  }

  /** What getRangeAtIndex promises: the range exists exactly when the text
      has at least k commas, and it starts right after the k-th comma (at 0
      for k = 0), so its start is the total length of the first k
      comma-terminated fields. */
  lemma RangeAtIndexSpec(text: string, k: nat)
    ensures RangeAtIndex(text, k).Some? <==> CommasBefore(text, |text|) >= k
    ensures RangeAtIndex(text, k).Some? ==>
      var a := RangeAtIndex(text, k).value.start.character;
      && 0 <= a <= |text|
      && CommasBefore(text, a) == k
      && (k == 0 ==> a == 0)
      && (k > 0 ==> text[a - 1] == ',')
  {
    FieldSpanFromSpec(text, 0, k);
  }

  /** The field spans of getRangeAtIndex are exactly the pieces of
      `split(",")`: field k exists iff k < number of pieces, and the text
      under the span is that piece. */
  lemma {:induction false} FieldSpanIsSplitPiece(s: string, from: nat, k: nat)
    requires from <= |s|
    ensures FieldSpanFrom(s, from, k).Some? <==> k < |SplitFrom(s, from)|
    ensures FieldSpanFrom(s, from, k).Some? ==>
      s[FieldSpanFrom(s, from, k).value.0..FieldSpanFrom(s, from, k).value.1] == SplitFrom(s, from)[k]
    decreases k
  {
    var c := NextComma(s, from);
    if k == 0 {
      assert FieldSpanFrom(s, from, 0) == Some((from, c));
      assert SplitFrom(s, from)[0] == s[from..c];
    } else if c == |s| {
      assert FieldSpanFrom(s, from, k) == None;
      assert SplitFrom(s, from) == [s[from..]];
    } else {
      FieldSpanIsSplitPiece(s, c + 1, k - 1);
      PieceAfterComma(s, from, c, k);
    }
  }

  /** Past a comma at c, field k from `from` is field k - 1 from c + 1, in
      the spans and in the pieces alike. */
  lemma PieceAfterComma(s: string, from: nat, c: nat, k: nat)
    requires from <= |s| && 0 < k && c == NextComma(s, from) && c < |s|
    ensures FieldSpanFrom(s, from, k) == FieldSpanFrom(s, c + 1, k - 1)
    ensures |SplitFrom(s, from)| == 1 + |SplitFrom(s, c + 1)|
    ensures k - 1 < |SplitFrom(s, c + 1)| ==> SplitFrom(s, from)[k] == SplitFrom(s, c + 1)[k - 1]
  {
    var rest := SplitFrom(s, c + 1);
    assert SplitFrom(s, from) == [s[from..c]] + rest;
  }

  /** The range of field k exists exactly when `split(",")` has a piece k,
      and the text under it is that piece. */
  lemma RangeIsSplitPiece(text: string, k: nat)
    ensures RangeAtIndex(text, k).Some? <==> k < |Split(text)|
    ensures RangeAtIndex(text, k).Some? ==>
      text[RangeAtIndex(text, k).value.start.character..RangeAtIndex(text, k).value.end.character] == Split(text)[k]
  {
    FieldSpanIsSplitPiece(text, 0, k);
  }

  /** Round trip: every column from the start to the end (inclusive) of the
      range of field k reports comma index k. */
  lemma RangeThenIndex(text: string, k: nat, col: nat)
    requires RangeAtIndex(text, k).Some?
    requires RangeAtIndex(text, k).value.start.character <= col <= RangeAtIndex(text, k).value.end.character
    ensures IndexAtPosition(text, col) == k
  {
    RangeAtIndexSpec(text, k);
    var r := RangeAtIndex(text, k).value;
    CommasBeforeNoComma(text, r.start.character, col);
  }

  /** The other round trip: the field whose index a column reports exists,
      and its range contains that column. */
  lemma IndexThenRange(text: string, col: nat)
    requires col <= |text|
    ensures RangeAtIndex(text, IndexAtPosition(text, col)).Some?
    ensures var r := RangeAtIndex(text, IndexAtPosition(text, col)).value;
      r.start.character <= col <= r.end.character
  {
    var k := IndexAtPosition(text, col);
    CommasBeforeMono(text, col, |text|);
    FieldSpanFromSpec(text, 0, k);
    var (a, b) := FieldSpanFrom(text, 0, k).value;
    if col < a {
      CommasBeforeMono(text, col, a - 1);
    }
    if col > b {
      CommasBeforeNoComma(text, a, b);
      CommasBeforeMono(text, b + 1, col);
    }
  }

  // ---------------------------------------------------------------------
  // stringToDiagnosticSeverity and isPositionInRange

  /** The `diagnosisLevel` setting: four names select a severity, "none" and
      every other string select no diagnostic at all. */
  function StringToSeverity(level: string): (r: Option<Severity>)
    ensures r == Some(Hint) <==> level == "hint"
    ensures r == Some(Information) <==> level == "information"
    ensures r == Some(Warning) <==> level == "warning"
    ensures r == Some(Error) <==> level == "error"
  {
    match level
    case "none" => None
    case "hint" => Some(Hint)
    case "information" => Some(Information)
    case "warning" => Some(Warning)
    case "error" => Some(Error)
    case _ => None
  }

  /** Lexicographic order on (line, character). */
  predicate PosLe(p: Position, q: Position)
  {
    p.line < q.line || (p.line == q.line && p.character <= q.character)
  }

  /** `isPositionInRange`: inclusive at the start, exclusive at the end, in
      (line, character) order. */
  function IsPositionInRange(range: Range, pos: Position): (r: bool)
    ensures r <==> PosLe(range.start, pos) && !PosLe(range.end, pos)
  {
    if pos.line < range.start.line then false
    else if pos.line > range.end.line then false
    else if pos.line == range.start.line && pos.character < range.start.character then false
    else if pos.line == range.end.line && pos.character >= range.end.character then false
    else true
  }
}
