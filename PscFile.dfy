/** The PSC handler: a parameter-setting file lists one parameter per line
    as `<type>,<number>,<value>`. Hovers show the value the controller's
    ALL.PRM holds for the parameter under the cursor, definitions jump to
    it, and validation compares every line's value with it. The controller's
    three parameter answers are inputs of the model (`ParameterLookups`). */
module PscFiles {

  import opened Protocol
  import opened Util
  import opened Translations
  import opened RobotControllerFiles
  import opened JbiPatterns
  import ParameterFiles

  /** What the robot controller answers about ALL.PRM: whether the file is
      there, a parameter's value (FileUnavailable for null, OutOfRange for
      undefined) and where a parameter is written. */
  datatype ParameterLookups = ParameterLookups(
    fileExists: bool,
    valueOf: (string, nat) -> ParameterFiles.ParameterValue,
    locationOf: (string, nat) -> Option<Location>)

  const NotFoundKey := "pscfile.diagnostic.paramNotFound"
  const UnmatchKey := "pscfile.diagnostic.paramUnmatch"
  const MatchKey := "pscfile.diagnostic.paramMatch"

  // ---------------------------------------------------------------------
  // Fields shared by both patterns

  /** `\s*,\s*` at p: where the blanks after the comma end. A shorter blank
      run would leave a blank where the comma or the next field must be, so
      the greedy runs are the only candidates. */
  function CommaAt(s: string, p: nat): (r: Option<nat>)
    requires p <= |s|
    ensures r.Some? ==> p < r.value <= |s|
  {
    var c := p + BlankRun(s, p);
    if c == |s| || s[c] != ',' then None else Some(c + 1 + BlankRun(s, c + 1))
  }

  /** `[0-9]+` at p: where the digits end. */
  function NumberEnd(s: string, p: nat): (r: Option<nat>)
    requires p <= |s|
    ensures r.Some? ==> p < r.value <= |s| && AllDigits(s[p..r.value])
  {
    var k := DigitsAt(s, p);
    if k == 0 then None else Some(p + k)
  }

  /** The digit run from i ends at i + k when the k characters from i are
      digits and the next is not. */
  lemma {:induction false} DigitRunFrom(s: string, i: nat, k: nat)
    requires i + k <= |s| && (i + k == |s| || !IsDigit(s[i + k]))
    requires forall j :: i <= j < i + k ==> IsDigit(s[j])
    ensures DigitsAt(s, i) == k
    decreases k
  {
    if k > 0 {
      DigitRunFrom(s, i + 1, k - 1);
    }
  }

  /** A comma at p: the match goes on after the blanks that follow it, at
      once when a non-blank (or the end) follows. */
  lemma CommaHere(s: string, p: nat)
    requires p < |s| && s[p] == ','
    ensures CommaAt(s, p) == Some(p + 1 + BlankRun(s, p + 1))
    ensures p + 1 == |s| || !IsWhitespace(s[p + 1]) ==> CommaAt(s, p) == Some(p + 1)
  {
  }

  /** At a position holding neither a blank nor a comma the comma is missing. */
  lemma NoCommaHere(s: string, p: nat)
    requires p <= |s|
    requires p == |s| || (!IsWhitespace(s[p]) && s[p] != ',')
    ensures CommaAt(s, p).None?
  {
  }

  /** The digits of `NatToString(n)` written from p on, up to a non-digit or
      the end, are read back as n. */
  lemma NumberHere(s: string, p: nat, n: nat)
    requires p + |NatToString(n)| <= |s| && s[p..p + |NatToString(n)|] == NatToString(n)
    requires p + |NatToString(n)| == |s| || !IsDigit(s[p + |NatToString(n)|])
    ensures NumberEnd(s, p) == Some(p + |NatToString(n)|)
    ensures DigitsValue(s[p..p + |NatToString(n)|]) == n
  {
    var digits := NatToString(n);
    forall j | p <= j < p + |digits| ensures IsDigit(s[j]) {
      assert s[j] == digits[j - p];
    }
    DigitRunFrom(s, p, |digits|);
  }

  // ---------------------------------------------------------------------
  // `^\s*([^,\s]+)\s*,\s*([0-9]+)\s*,` (hover and definition)

  /** A character of the parameter type in the hover pattern: `[^,\s]`. */
  predicate IsTypeChar(c: char)
  {
    c != ',' && !IsWhitespace(c)
  }

  /** Number of `[^,\s]` characters from i on. */
  function TypeCharRun(s: string, i: nat): (k: nat)
    requires i <= |s|
    ensures i + k <= |s|
    decreases |s| - i
  {
    if i == |s| || !IsTypeChar(s[i]) then 0 else 1 + TypeCharRun(s, i + 1)
  }

  /** The run holds only type characters and stops at the end or at a
      comma or blank. */
  lemma {:induction false} TypeCharRunSpec(s: string, i: nat)
    requires i <= |s|
    ensures forall j :: i <= j < i + TypeCharRun(s, i) ==> IsTypeChar(s[j])
    ensures i + TypeCharRun(s, i) == |s| || !IsTypeChar(s[i + TypeCharRun(s, i)])
    decreases |s| - i
  {
    if i < |s| && IsTypeChar(s[i]) {
      TypeCharRunSpec(s, i + 1);
    }
  }

  /** The parameter type and number the hover pattern reads from a line.
      Every quantifier of the pattern is followed by something it cannot
      match, so the greedy runs are the only candidates. */
  function TypeAndNumber(s: string): (r: Option<(string, nat)>)
    ensures r.Some? ==> |r.value.0| > 0 && forall c :: c in r.value.0 ==> IsTypeChar(c)
  {
    var a := BlankRun(s, 0);
    var t := TypeCharRun(s, a);
    TypeCharRunSpec(s, a);
    if t == 0 then None
    else
      match CommaAt(s, a + t)
      case None => None
      case Some(d) =>
        match NumberEnd(s, d)
        case None => None
        case Some(e) =>
          if CommaAt(s, e).None? then None
          else Some((s[a..a + t], DigitsValue(s[d..e])))
  }

  /** A line written `<type>,<number>,<rest>` is read as that type and
      number, whatever follows the second comma. */
  lemma TypeAndNumberReadsFields(paramType: string, n: nat, rest: string)
    requires |paramType| > 0 && forall c :: c in paramType ==> IsTypeChar(c)
    ensures TypeAndNumber(paramType + "," + NatToString(n) + "," + rest) == Some((paramType, n))
  {
    var digits := NatToString(n);
    var s := paramType + "," + digits + "," + rest;
    var p := |paramType|;
    var q := p + 1 + |digits|;
    assert s[..p] == paramType;
    assert s[p + 1..q] == digits;
    forall j | 0 <= j < p ensures IsTypeChar(s[j]) {
      assert s[j] == paramType[j] && paramType[j] in paramType;
    }
    TypeAndNumberAt(s, p, q, n);
  }

  /** The hover pattern on a line with a type in front of a comma at p and
      the digits of n between that comma and another at q. */
  lemma TypeAndNumberAt(s: string, p: nat, q: nat, n: nat)
    requires 0 < p < q < |s| && s[p] == ',' && s[q] == ','
    requires forall j :: 0 <= j < p ==> IsTypeChar(s[j])
    requires s[p + 1..q] == NatToString(n)
    ensures TypeAndNumber(s) == Some((s[..p], n))
  {
    assert s[0..p] == s[..p];
    assert BlankRun(s, 0) == 0;
    TypeRunOf(s, 0, p);
    assert !IsWhitespace(s[p + 1]) by {
      assert s[p + 1] == NatToString(n)[0];
    }
    CommaHere(s, p);
    NumberHere(s, p + 1, n);
    assert DigitsValue(s[p + 1..q]) == n;
    CommaHere(s, q);
    TypeAndNumberStages(s, 0, p, p + 1, q, n);
  }

  /** The hover pattern's reading, stage by stage. */
  lemma TypeAndNumberStages(s: string, a: nat, t: nat, d: nat, e: nat, n: nat)
    requires a + t <= |s| && d <= e <= |s|
    requires BlankRun(s, 0) == a && TypeCharRun(s, a) == t > 0
    requires CommaAt(s, a + t) == Some(d) && NumberEnd(s, d) == Some(e) && CommaAt(s, e).Some?
    requires DigitsValue(s[d..e]) == n
    ensures TypeAndNumber(s) == Some((s[a..a + t], n))
  {
  }

  /** The `[^,\s]` run from i ends at i + k when the k characters from i are
      type characters and the next is not. */
  lemma {:induction false} TypeRunOf(s: string, i: nat, k: nat)
    requires i + k < |s| && !IsTypeChar(s[i + k])
    requires forall j :: i <= j < i + k ==> IsTypeChar(s[j])
    ensures TypeCharRun(s, i) == k
    decreases k
  {
    if k > 0 {
      TypeRunOf(s, i + 1, k - 1);
    }
  }

  /** `onHover`: `<type><number>: <value>` for the parameter the line names,
      when the controller knows its value; None on a missing or empty line,
      a line the pattern does not match, or an unknown parameter. */
  function Hover(lines: Option<seq<string>>, lookups: ParameterLookups, pos: Position): (r: Option<string>)
    ensures r.Some? ==> NonEmptyLine(lines, pos.line).Some? && TypeAndNumber(lines.value[pos.line]).Some?
  {
    match NonEmptyLine(lines, pos.line)
    case None => None
    case Some(text) =>
      match TypeAndNumber(text)
      case None => None
      case Some(tn) =>
        match lookups.valueOf(tn.0, tn.1)
        case Value(v) => Some(tn.0 + NatToString(tn.1) + ": " + IntToString(v))
        case _ => None
  }

  /** On a line `<type>,<number>,<rest>` the hover shows exactly the value
      the controller holds for that parameter, and nothing when it holds
      none. */
  lemma HoverShowsControllerValue(lines: seq<string>, lookups: ParameterLookups, pos: Position,
                                  paramType: string, n: nat, rest: string)
    requires 0 <= pos.line < |lines|
    requires |paramType| > 0 && forall c :: c in paramType ==> IsTypeChar(c)
    requires lines[pos.line] == paramType + "," + NatToString(n) + "," + rest
    ensures lookups.valueOf(paramType, n).Value? ==>
      Hover(Some(lines), lookups, pos) ==
        Some(paramType + NatToString(n) + ": " + IntToString(lookups.valueOf(paramType, n).value))
    ensures !lookups.valueOf(paramType, n).Value? ==> Hover(Some(lines), lookups, pos).None?
  {
    TypeAndNumberReadsFields(paramType, n, rest);
    assert NonEmptyLine(Some(lines), pos.line) == Some(lines[pos.line]);
  }

  /** `onDefinition`: where the controller says the parameter the line names
      is written; None on a missing or empty line or one the pattern does
      not match. */
  function Definition(lines: Option<seq<string>>, lookups: ParameterLookups, pos: Position): (r: Option<Location>)
    ensures r.Some? ==> NonEmptyLine(lines, pos.line).Some? && TypeAndNumber(lines.value[pos.line]).Some?
  {
    match NonEmptyLine(lines, pos.line)
    case None => None
    case Some(text) =>
      match TypeAndNumber(text)
      case None => None
      case Some(tn) => lookups.locationOf(tn.0, tn.1)
  }

  /** On a line `<type>,<number>,<rest>` the definition is the controller's
      location of that parameter. */
  lemma DefinitionIsControllerLocation(lines: seq<string>, lookups: ParameterLookups, pos: Position,
                                       paramType: string, n: nat, rest: string)
    requires 0 <= pos.line < |lines|
    requires |paramType| > 0 && forall c :: c in paramType ==> IsTypeChar(c)
    requires lines[pos.line] == paramType + "," + NatToString(n) + "," + rest
    ensures Definition(Some(lines), lookups, pos) == lookups.locationOf(paramType, n)
  {
    TypeAndNumberReadsFields(paramType, n, rest);
    assert NonEmptyLine(Some(lines), pos.line) == Some(lines[pos.line]);
  }

  /** With the controller answering from ALL.PRM, the definition of a line
      `<type>,<number>,<rest>` is the number's field in the type's section of
      ALL.PRM: field `number % 10` of line `contents.start + number / 10`. */
  lemma DefinitionInParameterFile(lines: seq<string>, lookups: ParameterLookups, pos: Position,
                                  paramType: string, n: nat, rest: string,
                                  path: string, allPrm: Option<seq<string>>)
    requires 0 <= pos.line < |lines|
    requires |paramType| > 0 && forall c :: c in paramType ==> IsTypeChar(c)
    requires lines[pos.line] == paramType + "," + NatToString(n) + "," + rest
    requires forall t, k :: lookups.locationOf(t, k) == ParameterFiles.ParameterLocation(path, allPrm, t, k)
    ensures Definition(Some(lines), lookups, pos) == ParameterFiles.ParameterLocation(path, allPrm, paramType, n)
  {
    DefinitionIsControllerLocation(lines, lookups, pos, paramType, n, rest);
  }

  // ---------------------------------------------------------------------
  // `^(\S+)\s*,\s*([0-9]+)\s*,\s*([-]?[0-9]+)` (validation)

  /** What the validation pattern reads from a line: the type, the number,
      the signed value, and the length of the whole match. */
  datatype LineMatch = LineMatch(paramType: string, number: nat, value: int, length: nat)

  /** The part of the validation pattern after the type, tried at p: the
      number, the value and the end of the match. A `-` with no digit after
      it cannot start the value either way, so `[-]?` has one candidate. */
  function TailAt(s: string, p: nat): (r: Option<(nat, int, nat)>)
    requires p <= |s|
    ensures r.Some? ==> p < r.value.2 <= |s|
  {
    match CommaAt(s, p)
    case None => None
    case Some(d) =>
      match NumberEnd(s, d)
      case None => None
      case Some(e) =>
        match CommaAt(s, e)
        case None => None
        case Some(g) =>
          var negative := g < |s| && s[g] == '-';
          var h := if negative then g + 1 else g;
          match NumberEnd(s, h)
          case None => None
          case Some(end) =>
            var magnitude: int := DigitsValue(s[h..end]);
            var value: int := if negative then -magnitude else magnitude;
            Some((DigitsValue(s[d..e]), value, end))
  }

  /** The largest q from 1 to p that `accepts` takes: where a greedy run of
      at most p characters stops once the backtracking engine has given back
      as much as the rest of the pattern needs. */
  function Longest(accepts: nat -> bool, p: nat): (r: Option<nat>)
    ensures r.Some? ==> 0 < r.value <= p && accepts(r.value)
    decreases p
  {
    if p == 0 then None
    else if accepts(p) then Some(p)
    else Longest(accepts, p - 1)
  }

  /** Nothing above the answer (up to p) is accepted, and None means nothing
      from 1 to p is. */
  lemma {:induction false} LongestSpec(accepts: nat -> bool, p: nat)
    ensures Longest(accepts, p).Some? ==> forall q :: Longest(accepts, p).value < q <= p ==> !accepts(q)
    ensures Longest(accepts, p).None? <==> forall q :: 0 < q <= p ==> !accepts(q)
    decreases p
  {
    if p > 0 && !accepts(p) {
      LongestSpec(accepts, p - 1);
    }
  }

  /** The type lengths after which the rest of the validation pattern matches. */
  function TailAccepts(s: string): nat -> bool
  {
    (q: nat) => q <= |s| && TailAt(s, q).Some?
  }

  /** `pattern.exec(lineText)` on a validation line: `(\S+)` starts at the
      line's first character and is the longest non-blank prefix after
      which the rest matches. */
  function MatchLine(s: string): (r: Option<LineMatch>)
    ensures r.Some? ==> 0 < |r.value.paramType| < r.value.length <= |s|
  {
    match Longest(TailAccepts(s), NonBlankRun(s, 0))
    case None => None
    case Some(p) =>
      var tail := TailAt(s, p).value;
      Some(LineMatch(s[..p], tail.0, tail.1, tail.2))
  }

  /** The match's type is a prefix of the line's leading non-blank run (so it
      may swallow commas) and the longest one after which the rest of the
      pattern matches; its number, value and length are what the rest reads
      there. The line matches exactly when some such prefix exists. */
  lemma MatchLineSpec(s: string)
    ensures MatchLine(s).Some? ==>
      var m := MatchLine(s).value;
      var p := |m.paramType|;
      && p <= NonBlankRun(s, 0) && m.paramType == s[..p]
      && TailAt(s, p) == Some((m.number, m.value, m.length))
      && forall q :: p < q <= NonBlankRun(s, 0) ==> TailAt(s, q).None?
    ensures MatchLine(s).None? <==> forall q :: 0 < q <= NonBlankRun(s, 0) ==> TailAt(s, q).None?
  {
    var run := NonBlankRun(s, 0);
    LongestSpec(TailAccepts(s), run);
    if MatchLine(s).Some? {
      var p := Longest(TailAccepts(s), run).value;
      forall q | p < q <= run ensures TailAt(s, q).None? {
        assert !TailAccepts(s)(q);
      }
    } else {
      forall q | 0 < q <= run ensures TailAt(s, q).None? {
        assert !TailAccepts(s)(q);
      }
    }
  }

  /** No comma where the tail starts: the tail does not match. */
  lemma TailNeedsComma(s: string, r: nat)
    requires r <= |s| && CommaAt(s, r).None?
    ensures TailAt(s, r).None?
  {
  }

  /** The tail's reading, stage by stage: d, e and g where the number starts
      and ends and the value field starts, h after an optional minus sign,
      and end where the value's digits end; n and v are the number and the
      value those digits spell. */
  lemma TailStages(s: string, p: nat, d: nat, e: nat, g: nat, h: nat, end: nat, n: nat, v: int)
    requires p <= |s|
    requires CommaAt(s, p) == Some(d) && NumberEnd(s, d) == Some(e) && CommaAt(s, e) == Some(g)
    requires h == (if g < |s| && s[g] == '-' then g + 1 else g) && NumberEnd(s, h) == Some(end)
    requires DigitsValue(s[d..e]) == n
    requires v == if h == g then DigitsValue(s[h..end]) as int else -(DigitsValue(s[h..end]) as int)
    ensures TailAt(s, p) == Some((n, v, end))
  {
  }

  /** After the last comma of a line whose remaining characters are neither
      blanks nor commas, the pattern's second comma is missing. */
  lemma TailAfterLastComma(s: string, q: nat)
    requires q < |s| && s[q] == ','
    requires forall j :: q < j < |s| ==> !IsWhitespace(s[j]) && s[j] != ','
    ensures TailAt(s, q).None?
  {
    if q + 1 < |s| {
      CommaHere(s, q);
      var e := NumberEnd(s, q + 1);
      if e.Some? {
        NoCommaHere(s, e.value);
      }
    } else {
      CommaHere(s, q);
      assert NumberEnd(s, q + 1).None?;
    }
  }

  /** The largest accepted position, given that it is accepted and nothing
      above it up to p is. */
  lemma LongestIs(accepts: nat -> bool, p: nat, t: nat)
    requires 0 < t <= p && accepts(t)
    requires forall r :: t < r <= p ==> !accepts(r)
    ensures Longest(accepts, p) == Some(t)
  {
    LongestSpec(accepts, p);
  }

  /** The match, given where the type ends: the tail matches there and at no
      longer non-blank prefix. */
  lemma MatchLineAt(s: string, p: nat)
    requires 0 < p <= NonBlankRun(s, 0) && TailAt(s, p).Some?
    requires forall r :: p < r <= NonBlankRun(s, 0) ==> TailAt(s, r).None?
    ensures MatchLine(s) == Some(LineMatch(s[..p], TailAt(s, p).value.0, TailAt(s, p).value.1, TailAt(s, p).value.2))
  {
    var run := NonBlankRun(s, 0);
    forall r | p < r <= run ensures !TailAccepts(s)(r) {
    }
    LongestIs(TailAccepts(s), run, p);
  }

  /** A line written `<type>,<number>,<value>` with a type free of blanks
      and commas is read as exactly those three fields, the match covering
      the whole line. */
  lemma MatchLineReadsFields(paramType: string, n: nat, v: int)
    requires |paramType| > 0 && forall c :: c in paramType ==> IsTypeChar(c)
    ensures var s := paramType + "," + NatToString(n) + "," + IntToString(v);
      MatchLine(s) == Some(LineMatch(paramType, n, v, |s|))
  {
    var digits := NatToString(n);
    var value := IntToString(v);
    var s := paramType + "," + digits + "," + value;
    var p := |paramType|;
    var q := p + 1 + |digits|;
    ValueChars(v);
    FieldsShape(paramType, digits, value);
    TailOfFields(s, p, q, n, v);
    MatchAtFirstComma(s, p, q);
    assert s[..p] == paramType;
  }

  /** A line without blanks whose only commas are at p and q, where the
      tail matches at p, is matched with the type ending at p. */
  lemma MatchAtFirstComma(s: string, p: nat, q: nat)
    requires 0 < p < q < |s|
    requires forall j :: 0 <= j < |s| ==> !IsWhitespace(s[j]) && (s[j] == ',' <==> j == p || j == q)
    requires TailAt(s, p).Some?
    ensures MatchLine(s) == Some(LineMatch(s[..p], TailAt(s, p).value.0, TailAt(s, p).value.1, TailAt(s, p).value.2))
  {
    NonBlankToEnd(s, 0);
    NoLongerTail(s, p, q);
    MatchLineAt(s, p);
  }

  /** Where the blanks and commas are in `<type>,<digits>,<value>`. */
  lemma FieldsShape(paramType: string, digits: string, value: string)
    requires forall c :: c in paramType ==> IsTypeChar(c)
    requires AllDigits(digits) && |digits| > 0
    requires forall j :: 0 <= j < |value| ==> value[j] == '-' || IsDigit(value[j])
    ensures var s := paramType + "," + digits + "," + value;
      var p := |paramType|;
      var q := p + 1 + |digits|;
      && s[p] == ',' && s[q] == ','
      && s[p + 1..q] == digits && s[q + 1..] == value
      && forall j :: 0 <= j < |s| ==> !IsWhitespace(s[j]) && (s[j] == ',' <==> j == p || j == q)
  {
    var s := paramType + "," + digits + "," + value;
    var p := |paramType|;
    var q := p + 1 + |digits|;
    forall j | 0 <= j < |s|
      ensures !IsWhitespace(s[j]) && (s[j] == ',' <==> j == p || j == q)
    {
      if j < p {
        assert s[j] == paramType[j] && paramType[j] in paramType;
      } else if p < j < q {
        assert s[j] == digits[j - p - 1];
      } else if j > q {
        assert s[j] == value[j - q - 1];
      }
    }
  }

  /** `IntToString` writes only digits and a minus sign. */
  lemma ValueChars(v: int)
    ensures forall j :: 0 <= j < |IntToString(v)| ==> IntToString(v)[j] == '-' || IsDigit(IntToString(v)[j])
  {
    if v < 0 {
      var m := NatToString(-v);
      forall j | 0 < j < |IntToString(v)| ensures IsDigit(IntToString(v)[j]) {
        assert IntToString(v)[j] == m[j - 1];
      }
    }
  }

  /** A line with no blanks from i on has its non-blank run end at the
      line's end. */
  lemma {:induction false} NonBlankToEnd(s: string, i: nat)
    requires i <= |s|
    requires forall j :: i <= j < |s| ==> !IsWhitespace(s[j])
    ensures NonBlankRun(s, i) == |s| - i
    decreases |s| - i
  {
    if i < |s| {
      NonBlankToEnd(s, i + 1);
    }
  }

  /** The tail of `<type>,<digits>,<value>`, read after the type. */
  lemma TailOfFields(s: string, p: nat, q: nat, n: nat, v: int)
    requires 0 < p < q < |s| - 1
    requires s[p] == ',' && s[q] == ',' && !IsWhitespace(s[p + 1]) && !IsWhitespace(s[q + 1])
    requires s[p + 1..q] == NatToString(n) && s[q + 1..] == IntToString(v)
    ensures TailAt(s, p) == Some((n, v, |s|))
  {
    CommaHere(s, p);
    NumberHere(s, p + 1, n);
    assert DigitsValue(s[p + 1..q]) == n;
    CommaHere(s, q);
    if v >= 0 {
      ValueOfNonNegative(s, q, v);
      TailStages(s, p, p + 1, q, q + 1, q + 1, |s|, n, v);
    } else {
      ValueOfNegative(s, q, v);
      TailStages(s, p, p + 1, q, q + 1, q + 2, |s|, n, v);
    }
  }

  /** A non-negative value written after the comma at q to the line's end. */
  lemma ValueOfNonNegative(s: string, q: nat, v: int)
    requires q < |s| && v >= 0 && s[q + 1..] == IntToString(v)
    ensures q + 1 < |s| && s[q + 1] != '-'
    ensures NumberEnd(s, q + 1) == Some(|s|) && DigitsValue(s[q + 1..|s|]) == v
  {
    var m := NatToString(v);
    assert |s| == q + 1 + |m| && s[q + 1..q + 1 + |m|] == m;
    assert s[q + 1] == m[0];
    NumberHere(s, q + 1, v);
  }

  /** A negative value written after the comma at q to the line's end. */
  lemma ValueOfNegative(s: string, q: nat, v: int)
    requires q < |s| && v < 0 && s[q + 1..] == IntToString(v)
    ensures q + 1 < |s| && s[q + 1] == '-'
    ensures NumberEnd(s, q + 2) == Some(|s|) && DigitsValue(s[q + 2..|s|]) == -v
  {
    var m := NatToString(-v);
    assert IntToString(v) == "-" + m;
    assert |s| == q + 2 + |m| && s[q + 1] == '-' && s[q + 2..q + 2 + |m|] == m;
    NumberHere(s, q + 2, -v);
  }

  /** When the line after p holds no blank and one comma, at q, the tail
      matches after no prefix longer than p. */
  lemma NoLongerTail(s: string, p: nat, q: nat)
    requires p < q < |s|
    requires forall j :: p < j < |s| ==> !IsWhitespace(s[j]) && (s[j] == ',' <==> j == q)
    ensures forall r :: p < r <= |s| ==> TailAt(s, r).None?
  {
    forall r | p < r <= |s| ensures TailAt(s, r).None?
    {
      if r == q {
        TailAfterLastComma(s, q);
      } else {
        NoCommaHere(s, r);
        TailNeedsComma(s, r);
      }
    }
  }

  /** The greedy type gives back only as far as it must: in `A,1,2,3,4` it
      swallows `A,1,2`, and the number and value read are 3 and 4. */
  lemma TypeSwallowsCommas()
    ensures MatchLine("A,1,2,3,4") == Some(LineMatch("A,1,2", 3, 4, 9))
  {
    var s := "A,1,2,3,4";
    assert s[..5] == "A,1,2";
    NonBlankToEnd(s, 0);
    TailOfExample();
    NoTailAboveExample();
    MatchLineAt(s, 5);
  }

  /** The tail of `A,1,2,3,4` after its third character reads 3 and 4. */
  lemma TailOfExample()
    ensures TailAt("A,1,2,3,4", 5) == Some((3, 4, 9))
  {
    var s := "A,1,2,3,4";
    CommaHere(s, 5);
    NumberHere(s, 6, 3);
    CommaHere(s, 7);
    NumberHere(s, 8, 4);
    TailStages(s, 5, 6, 7, 8, 8, 9, 3, 4);
  }

  /** Above the third character of `A,1,2,3,4` the tail does not match. */
  lemma NoTailAboveExample()
    ensures forall r :: 5 < r <= 9 ==> TailAt("A,1,2,3,4", r).None?
  {
    var s := "A,1,2,3,4";
    assert forall j :: 5 < j < |s| ==> !IsWhitespace(s[j]) && (s[j] == ',' <==> j == 7);
    NoLongerTail(s, 5, 7);
  }

  // ---------------------------------------------------------------------
  // Messages

  /** The messages as written: `tr` is the plain `translate(locale, key,
      ...values)`, so the message key lands in the locale slot and the first
      value in the key slot; with no value the key is undefined and so is
      the message (None). */
  function MessageAsWritten(tables: Tables, messageKey: string, args: seq<string>): (r: Option<string>)
    ensures args == [] ==> r.None?
    ensures (&& args != []
             && !(messageKey in tables && args[0] in tables[messageKey])
             && !("en" in tables && args[0] in tables["en"])) ==> r == Some(args[0])
  {
    if args == [] then None else Some(Translate(tables, messageKey, args[0], args[1..]))
  }

  /** A text without `{` holds no placeholder. */
  lemma NoBraceNoPlaceholder(s: string)
    requires '{' !in s
    ensures NoPlaceholder(s)
  {
    forall i | 0 <= i < |s| ensures PlaceholderLen(s[i..]) == 0 {
      assert s[i..][0] == s[i];
    }
  }

  /** With the English table holding the message, the written code reports
      a missing parameter as its bare name, where translating with the
      handler's locale gives the English text. */
  lemma NameInKeySlot()
    ensures var tables := map["en" := map[NotFoundKey := "not found"]];
      && MessageAsWritten(tables, NotFoundKey, ["RS1"]) == Some("RS1")
      && Translate(tables, "ja", NotFoundKey, ["RS1"]) == "not found"
  {
    var tables := map["en" := map[NotFoundKey := "not found"]];
    NoBraceNoPlaceholder("not found");
    FormatWithoutPlaceholder("not found", ["RS1"]);
    TranslateFallback(tables, "ja", NotFoundKey, ["RS1"]);
  }

  /** The written code leaves a matching parameter's message undefined,
      where translating with the handler's locale gives the English text. */
  lemma MatchMessageUndefined()
    ensures var tables := map["en" := map[MatchKey := "matched"]];
      && MessageAsWritten(tables, MatchKey, []) == None
      && Translate(tables, "ja", MatchKey, []) == "matched"
  {
    var tables := map["en" := map[MatchKey := "matched"]];
    FormatWithoutValues("matched");
    TranslateFallback(tables, "ja", MatchKey, []);
  }

  // ---------------------------------------------------------------------
  // validate

  /** The diagnostic of line i: None when the validation pattern does not
      match it; otherwise, over the whole match, a warning when the
      controller has no value for the parameter, a warning when the line's
      value differs from it, and an information when they agree. Messages
      are translated with the handler's locale. */
  function LineCheck(i: nat, text: string, lookups: ParameterLookups, tables: Tables, locale: string): (r: Option<Diagnostic>)
    ensures r.Some? <==> MatchLine(text).Some?
  {
    match MatchLine(text)
    case None => None
    case Some(m) =>
      var name := m.paramType + NatToString(m.number);
      var range := MkRange(i, 0, i, m.length);
      match lookups.valueOf(m.paramType, m.number)
      case Value(expected) =>
        if m.value != expected then
          Some(Diagnostic(Warning, range,
            Translate(tables, locale, UnmatchKey, [name, IntToString(m.value), IntToString(expected)]), NoData))
        else
          Some(Diagnostic(Information, range, Translate(tables, locale, MatchKey, []), NoData))
      case _ =>
        Some(Diagnostic(Warning, range, Translate(tables, locale, NotFoundKey, [name]), NoData))
  }

  /** The three outcomes of a matching line, each exactly when its condition
      holds, all spanning the match on line i. */
  lemma LineCheckOutcomes(i: nat, text: string, lookups: ParameterLookups, tables: Tables, locale: string)
    requires MatchLine(text).Some?
    ensures var m := MatchLine(text).value;
      var d := LineCheck(i, text, lookups, tables, locale).value;
      var name := m.paramType + NatToString(m.number);
      var expected := lookups.valueOf(m.paramType, m.number);
      && d.range == MkRange(i, 0, i, m.length)
      && (d.severity == Information <==> expected == ParameterFiles.Value(m.value))
      && (!expected.Value? ==> d.message == Translate(tables, locale, NotFoundKey, [name]))
      && (expected.Value? && expected.value != m.value ==>
            d.message == Translate(tables, locale, UnmatchKey, [name, IntToString(m.value), IntToString(expected.value)]))
      && (expected == ParameterFiles.Value(m.value) ==> d.message == Translate(tables, locale, MatchKey, []))
  {
  }

  /** The handler's check of one line. */
  function PscCheck(lookups: ParameterLookups, tables: Tables, locale: string): (nat, string) -> Option<Diagnostic>
  {
    (i: nat, text: string) => LineCheck(i, text, lookups, tables, locale)
  }

  /** The diagnostics `check` gives the first n lines, in line order. */
  function LinesDiagnostics(check: (nat, string) -> Option<Diagnostic>, lines: seq<string>, n: nat): (r: seq<Diagnostic>)
    requires n <= |lines|
    ensures |r| <= n
  {
    if n == 0 then []
    else
      var prior := LinesDiagnostics(check, lines, n - 1);
      match check(n - 1, lines[n - 1])
      case None => prior
      case Some(d) => prior + [d]
  }

  /** The indices below n of the lines `check` reports on, in increasing
      order. */
  function CheckedLines(check: (nat, string) -> Option<Diagnostic>, lines: seq<string>, n: nat): (r: seq<nat>)
    requires n <= |lines|
    ensures forall i: nat :: i in r <==> i < n && check(i, lines[i]).Some?
    ensures forall k :: 0 <= k < |r| ==> r[k] < n
    ensures forall j, k :: 0 <= j < k < |r| ==> r[j] < r[k]
  {
    if n == 0 then []
    else if check(n - 1, lines[n - 1]).Some? then CheckedLines(check, lines, n - 1) + [n - 1]
    else CheckedLines(check, lines, n - 1)
  }

  /** One diagnostic per reported line and none for any other: the k-th
      diagnostic is the report on the k-th such line. */
  lemma {:induction false} OnePerCheckedLine(check: (nat, string) -> Option<Diagnostic>, lines: seq<string>, n: nat)
    requires n <= |lines|
    ensures var r := LinesDiagnostics(check, lines, n);
      var idx := CheckedLines(check, lines, n);
      && |r| == |idx|
      && forall k :: 0 <= k < |r| ==> idx[k] < n && check(idx[k], lines[idx[k]]) == Some(r[k])
    decreases n
  {
    if n > 0 {
      OnePerCheckedLine(check, lines, n - 1);
      var d := check(n - 1, lines[n - 1]);
      if d.Some? {
        assert LinesDiagnostics(check, lines, n) == LinesDiagnostics(check, lines, n - 1) + [d.value];
        assert CheckedLines(check, lines, n) == CheckedLines(check, lines, n - 1) + [n - 1];
      }
    }
  }

  /** `validate`: None when ALL.PRM is missing; otherwise the diagnostics of
      every line, none when the document has no lines. */
  function Validation(lines: Option<seq<string>>, lookups: ParameterLookups, tables: Tables, locale: string): (r: Option<seq<Diagnostic>>)
    ensures r.None? <==> !lookups.fileExists
    ensures r.Some? && lines.None? ==> r.value == []
  {
    if !lookups.fileExists then None
    else if lines.None? then Some([])
    else Some(LinesDiagnostics(PscCheck(lookups, tables, locale), lines.value, |lines.value|))
  }

  /** With ALL.PRM present, validation reports once on every line the
      validation pattern matches, in line order, and on no other line. */
  lemma OnePerMatchingLine(lines: seq<string>, lookups: ParameterLookups, tables: Tables, locale: string)
    requires lookups.fileExists
    ensures var r := Validation(Some(lines), lookups, tables, locale).value;
      var idx := CheckedLines(PscCheck(lookups, tables, locale), lines, |lines|);
      && (forall i: nat :: i in idx <==> i < |lines| && MatchLine(lines[i]).Some?)
      && |r| == |idx|
      && forall k :: 0 <= k < |r| ==>
           idx[k] < |lines| && LineCheck(idx[k], lines[idx[k]], lookups, tables, locale) == Some(r[k])
  {
    OnePerCheckedLine(PscCheck(lookups, tables, locale), lines, |lines|);
  }

  /** The `forEach` over the document's lines. */
  method Validate(lines: Option<seq<string>>, lookups: ParameterLookups, tables: Tables, locale: string)
    returns (r: Option<seq<Diagnostic>>)
    ensures r == Validation(lines, lookups, tables, locale)
  {
    if !lookups.fileExists {
      return None;
    }
    var diagnostics: seq<Diagnostic> := [];
    if lines.Some? {
      var textLines := lines.value;
      var i := 0;
      while i < |textLines|
        invariant i <= |textLines|
        invariant diagnostics == LinesDiagnostics(PscCheck(lookups, tables, locale), textLines, i)
      {
        var d := LineCheck(i, textLines[i], lookups, tables, locale);
        if d.Some? {
          diagnostics := diagnostics + [d.value];
        }
        i := i + 1;
      }
    }
    return Some(diagnostics);
  }
}
