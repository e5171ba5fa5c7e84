/** The regular expressions of the JBI job-file handler, each written out as
    a scanner. `...At(s, p)` says whether the pattern matches at position p
    of s and where that match ends, with the result the JavaScript engine's
    leftmost-first backtracking picks; `NextMatch` is `exec` from a last
    index, and `Matches` the successive matches a global pattern's `exec`
    loop visits. */
module JbiPatterns {

  import opened Protocol
  import opened Util
  import IoNameDatFiles

  // ---------------------------------------------------------------------
  // Runs and boundaries

  /** Number of `\s` characters from i on. */
  function BlankRun(s: string, i: nat): (k: nat)
    requires i <= |s|
    ensures i + k <= |s|
    decreases |s| - i
  {
    if i == |s| || !IsWhitespace(s[i]) then 0 else 1 + BlankRun(s, i + 1)
  }

  /** The blank run holds only `\s` characters and stops at the end or at
      a non-blank. */
  lemma {:induction false} BlankRunSpec(s: string, i: nat)
    requires i <= |s|
    ensures forall j :: i <= j < i + BlankRun(s, i) ==> IsWhitespace(s[j])
    ensures i + BlankRun(s, i) == |s| || !IsWhitespace(s[i + BlankRun(s, i)])
    decreases |s| - i
  {
    if i < |s| && IsWhitespace(s[i]) {
      BlankRunSpec(s, i + 1);
    }
  }

  /** Number of `\S` characters from i on. */
  function NonBlankRun(s: string, i: nat): (k: nat)
    requires i <= |s|
    ensures i + k <= |s|
    decreases |s| - i
  {
    if i == |s| || IsWhitespace(s[i]) then 0 else 1 + NonBlankRun(s, i + 1)
  }

  /** The non-blank run holds only `\S` characters and stops at the end or
      at a blank. */
  lemma {:induction false} NonBlankRunSpec(s: string, i: nat)
    requires i <= |s|
    ensures forall j :: i <= j < i + NonBlankRun(s, i) ==> !IsWhitespace(s[j])
    ensures i + NonBlankRun(s, i) == |s| || IsWhitespace(s[i + NonBlankRun(s, i)])
    decreases |s| - i
  {
    if i < |s| && !IsWhitespace(s[i]) {
      NonBlankRunSpec(s, i + 1);
    }
  }

  /** Number of tab characters from i on. */
  function TabRun(s: string, i: nat): (k: nat)
    requires i <= |s|
    ensures i + k <= |s|
    decreases |s| - i
  {
    if i == |s| || s[i] != '\t' then 0 else 1 + TabRun(s, i + 1)
  }

  /** The tab run holds only tabs and stops at the end or at another
      character. */
  lemma {:induction false} TabRunSpec(s: string, i: nat)
    requires i <= |s|
    ensures forall j :: i <= j < i + TabRun(s, i) ==> s[j] == '\t'
    ensures i + TabRun(s, i) == |s| || s[i + TabRun(s, i)] != '\t'
    decreases |s| - i
  {
    if i < |s| && s[i] == '\t' {
      TabRunSpec(s, i + 1);
    }
  }

  /** Number of decimal digits from i on. */
  function DigitsAt(s: string, i: nat): (k: nat)
    requires i <= |s|
    ensures i + k <= |s|
    ensures forall j :: i <= j < i + k ==> IsDigit(s[j])
    ensures AllDigits(s[i..i + k])
    ensures i + k == |s| || !IsDigit(s[i + k])
    decreases |s| - i
  {
    if i == |s| || !IsDigit(s[i]) then 0 else 1 + DigitsAt(s, i + 1)
  }

  predicate IsCommandChar(c: char)
  {
    ('A' <= c <= 'Z') || IsDigit(c)
  }

  /** Number of `[A-Z0-9]` characters from i on. */
  function CommandCharRun(s: string, i: nat): (k: nat)
    requires i <= |s|
    ensures i + k <= |s|
    decreases |s| - i
  {
    if i == |s| || !IsCommandChar(s[i]) then 0 else 1 + CommandCharRun(s, i + 1)
  }

  /** The run holds only command characters and stops at the end or at
      another character. */
  lemma {:induction false} CommandCharRunSpec(s: string, i: nat)
    requires i <= |s|
    ensures forall j :: i <= j < i + CommandCharRun(s, i) ==> IsCommandChar(s[j])
    ensures i + CommandCharRun(s, i) == |s| || !IsCommandChar(s[i + CommandCharRun(s, i)])
    decreases |s| - i
  {
    if i < |s| && IsCommandChar(s[i]) {
      CommandCharRunSpec(s, i + 1);
    }
  }

  /** A word character at i (outside the string there is none). */
  predicate WordAt(s: string, i: int)
  {
    0 <= i < |s| && IsWordChar(s[i])
  }

  /** `\b` at position i: a word character on exactly one side. */
  predicate Boundary(s: string, i: int)
  {
    WordAt(s, i - 1) != WordAt(s, i)
  }

  /** The text w starts at position i. */
  predicate Prefixed(s: string, i: nat, w: string)
  {
    i + |w| <= |s| && s[i..i + |w|] == w
  }

  // ---------------------------------------------------------------------
  // The global patterns of onDefinition and onHover

  /** A pattern as its scanner: where a match starting at position p ends,
      None when it does not match there. */
  type Scanner = (string, nat) -> Option<nat>

  /** `(?<=\s+JOB:)(\S+)`: a non-blank run right after `JOB:` that follows a blank. */
  function JobNameAt(s: string, p: nat): (r: Option<nat>)
    ensures r.Some? ==> p < r.value <= |s|
  {
    if 5 <= p <= |s| && s[p - 4..p] == "JOB:" && IsWhitespace(s[p - 5]) && NonBlankRun(s, p) > 0
    then Some(p + NonBlankRun(s, p))
    else None
  }

  /** `(?<=\sJOB):\S*`: a colon right after a blank and `JOB`, with the
      non-blank run behind it. */
  function JobTagAt(s: string, p: nat): (r: Option<nat>)
    ensures r.Some? ==> p < r.value <= |s| && s[p] == ':'
  {
    if 4 <= p < |s| && s[p - 3..p] == "JOB" && IsWhitespace(s[p - 4]) && s[p] == ':'
    then Some(p + 1 + NonBlankRun(s, p + 1))
    else None
  }

  /** A tag starts after a blank, and a tag's run holds no blank, so no earlier
      tag runs into it. */
  lemma TagsApart(s: string, p: nat)
    requires Hit(JobTagAt, s, p)
    ensures forall q :: 0 <= q < p && Hit(JobTagAt, s, q) ==> JobTagAt(s, q).value <= p
  {
    assert s[p - 3..p] == "JOB";
    forall k | p - 4 <= k < p
      ensures s[k] != ':'
    {
      if k > p - 4 {
        assert s[k] == s[p - 3..p][k - (p - 3)];
      }
    }
    forall q | 0 <= q < p && Hit(JobTagAt, s, q)
      ensures JobTagAt(s, q).value <= p
    {
      NonBlankRunSpec(s, q + 1);
      assert q + 1 <= p - 4 && IsWhitespace(s[p - 4]);
    }
  }

  /** The longest n' <= n with a word boundary after start + n'. */
  function BoundaryWithin(s: string, start: nat, n: nat): (r: Option<nat>)
    ensures r.Some? ==> 0 < r.value <= n && Boundary(s, start + r.value)
    ensures r.Some? ==> forall j :: start + r.value < j <= start + n ==> !Boundary(s, j)
    ensures r.None? ==> forall j :: start < j <= start + n ==> !Boundary(s, j)
  {
    if n == 0 then None
    else if Boundary(s, start + n) then Some(n)
    else BoundaryWithin(s, start, n - 1)
  }

  /** `(?<=\s)(\*\S{1,8})\b`: after a blank, `*` and the longest run of one
      to eight non-blanks that ends on a word boundary. */
  function LabelAt(s: string, p: nat): (r: Option<nat>)
    ensures r.Some? ==> p + 1 < r.value <= |s| && r.value <= p + 9
  {
    if 1 <= p < |s| && IsWhitespace(s[p - 1]) && s[p] == '*' then
      var n := NonBlankRun(s, p + 1);
      var n := if n < 8 then n else 8;
      match BoundaryWithin(s, p + 1, n)
      case Some(k) => Some(p + 1 + k)
      case None => None
    else None
  }

  /** `(?<=\s)C([0-9]+)\s`: after a blank, `C`, digits and one blank. */
  function CvarAt(s: string, p: nat): (r: Option<nat>)
    ensures r.Some? ==> p + 2 < r.value <= |s|
  {
    if 1 <= p < |s| && IsWhitespace(s[p - 1]) && s[p] == 'C' then
      var d := DigitsAt(s, p + 1);
      if d > 0 && p + 1 + d < |s| && IsWhitespace(s[p + 1 + d]) then Some(p + 2 + d) else None
    else None
  }

  /** The number of a C-variable match at p. */
  function CvarNumber(s: string, p: nat): nat
    requires p < |s|
  {
    DigitsValue(s[p + 1..p + 1 + DigitsAt(s, p + 1)])
  }

  /** `(IN|OT)#\(([0-9]+)\)` at p, with no boundary test. */
  function IoCoreAt(s: string, p: nat): (r: Option<nat>)
    ensures r.Some? ==> p + 5 < r.value <= |s|
  {
    if Prefixed(s, p, "IN#(") || Prefixed(s, p, "OT#(") then
      var d := DigitsAt(s, p + 4);
      if d > 0 && p + 4 + d < |s| && s[p + 4 + d] == ')' then Some(p + 5 + d) else None
    else None
  }

  /** `\b(IN|OT)#\(([0-9]+)\)`. */
  function IoValueAt(s: string, p: nat): (r: Option<nat>)
    ensures r.Some? ==> p + 5 < r.value <= |s|
  {
    if Boundary(s, p) then IoCoreAt(s, p) else None
  }

  /** The variable types of `(B|I|D|R|S|P|BP|EX)`, in the order they are tried. */
  const VarAlternatives: seq<string> := ["B", "I", "D", "R", "S", "P", "BP", "EX"]

  /** The type t at p, then digits, then a word boundary. */
  predicate VarTypeFits(s: string, p: nat, t: string)
  {
    Prefixed(s, p, t) && DigitsAt(s, p + |t|) > 0 && Boundary(s, p + |t| + DigitsAt(s, p + |t|))
  }

  /** The first alternative from index a on that fits at p. */
  function VarTypeFrom(s: string, p: nat, a: nat): (r: Option<string>)
    requires a <= |VarAlternatives|
    ensures r.Some? ==> VarTypeFits(s, p, r.value)
    ensures r.Some? ==> exists b :: a <= b < |VarAlternatives| && VarAlternatives[b] == r.value
    ensures r.None? ==> forall b :: a <= b < |VarAlternatives| ==> !VarTypeFits(s, p, VarAlternatives[b])
    decreases |VarAlternatives| - a
  {
    if a == |VarAlternatives| then None
    else if VarTypeFits(s, p, VarAlternatives[a]) then Some(VarAlternatives[a])
    else VarTypeFrom(s, p, a + 1)
  }

  /** `(?<=ARGF|\b)(B|I|D|R|S|P|BP|EX)([0-9]+)\b`. */
  function VariableAt(s: string, p: nat): (r: Option<nat>)
    ensures r.Some? ==> p + 1 < r.value <= |s|
  {
    if (4 <= p <= |s| && s[p - 4..p] == "ARGF") || Boundary(s, p) then
      match VarTypeFrom(s, p, 0)
      case Some(t) => Some(p + |t| + DigitsAt(s, p + |t|))
      case None => None
    else None
  }

  /** The scanner reports a non-empty match at p inside the text. */
  predicate Hit(at: Scanner, s: string, p: nat)
  {
    at(s, p).Some? && p < at(s, p).value <= |s|
  }

  /** `exec` with the last index at `from`: the leftmost match at or after it,
      as (index, end). */
  function NextMatch(at: Scanner, s: string, from: nat): (r: Option<(nat, nat)>)
    requires from <= |s|
    ensures r.Some? ==> from <= r.value.0 < r.value.1 <= |s| && Hit(at, s, r.value.0) && at(s, r.value.0) == Some(r.value.1)
    ensures r.Some? ==> forall p :: from <= p < r.value.0 ==> !Hit(at, s, p)
    ensures r.None? ==> forall p :: from <= p <= |s| ==> !Hit(at, s, p)
    decreases |s| - from
  {
    if Hit(at, s, from) then Some((from, at(s, from).value))
    else if from == |s| then None
    else NextMatch(at, s, from + 1)
  }

  /** The matches an `exec` loop over a global pattern visits from `from` on:
      each search starts where the previous match ended. */
  function Matches(at: Scanner, s: string, from: nat): (ms: seq<(nat, nat)>)
    requires from <= |s|
    ensures forall k :: 0 <= k < |ms| ==> from <= ms[k].0 < ms[k].1 <= |s|
    decreases |s| - from
  {
    match NextMatch(at, s, from)
    case None => []
    case Some(m) => [m] + Matches(at, s, m.1)
  }

  /** The first match of the loop that `accept` takes, as the loop that
      returns at that match finds it. */
  function FirstAccepted(at: Scanner, s: string, from: nat, accept: (nat, nat) -> bool): (r: Option<(nat, nat)>)
    requires from <= |s|
    ensures r.Some? ==> from <= r.value.0 < r.value.1 <= |s| && accept(r.value.0, r.value.1)
    ensures r.Some? ==> Hit(at, s, r.value.0) && at(s, r.value.0) == Some(r.value.1)
    decreases |s| - from
  {
    match NextMatch(at, s, from)
    case None => None
    case Some(m) => if accept(m.0, m.1) then Some(m) else FirstAccepted(at, s, m.1, accept)
  }

  predicate Accepted(accept: (nat, nat) -> bool, m: (nat, nat))
  {
    accept(m.0, m.1)
  }

  /** FirstAccepted is the first accepted element of the visited matches,
      and None exactly when the loop accepts none of them. */
  lemma {:induction false} FirstAcceptedSpec(at: Scanner, s: string, from: nat, accept: (nat, nat) -> bool)
    requires from <= |s|
    ensures FirstAccepted(at, s, from, accept).None? ==>
      forall j :: 0 <= j < |Matches(at, s, from)| ==> !Accepted(accept, Matches(at, s, from)[j])
    ensures FirstAccepted(at, s, from, accept).Some? ==>
      exists k :: 0 <= k < |Matches(at, s, from)| && Matches(at, s, from)[k] == FirstAccepted(at, s, from, accept).value
        && forall j :: 0 <= j < k ==> !Accepted(accept, Matches(at, s, from)[j])
    decreases |s| - from
  {
    var ms := Matches(at, s, from);
    var r := FirstAccepted(at, s, from, accept);
    match NextMatch(at, s, from)
    case None =>
    case Some(m) =>
      var rest := Matches(at, s, m.1);
      assert ms == [m] + rest;
      if accept(m.0, m.1) {
        assert ms[0] == m;
      } else {
        assert r == FirstAccepted(at, s, m.1, accept);
        FirstAcceptedSpec(at, s, m.1, accept);
        if r.Some? {
          var k :| 0 <= k < |rest| && rest[k] == r.value && forall j :: 0 <= j < k ==> !Accepted(accept, rest[j]);
          assert ms[k + 1] == r.value;
          forall j | 0 <= j < k + 1 ensures !Accepted(accept, ms[j]) {
            if j > 0 { assert ms[j] == rest[j - 1]; } else { assert ms[0] == m; }
          }
        } else {
          forall j | 0 <= j < |ms| ensures !Accepted(accept, ms[j]) {
            if j > 0 {
              assert ms[j] == rest[j - 1];
            } else { assert ms[0] == m; }
          }
        }
      }
  }

  /** The loop visits a match at q when no match it could visit before q runs
      past q. */
  lemma {:induction false} MatchesVisit(at: Scanner, s: string, from: nat, q: nat)
    requires from <= q && Hit(at, s, q)
    requires forall p :: from <= p < q && Hit(at, s, p) ==> at(s, p).value <= q
    ensures exists j :: 0 <= j < |Matches(at, s, from)| && Matches(at, s, from)[j] == (q, at(s, q).value)
    decreases |s| - from
  {
    var m := NextMatch(at, s, from).value;
    var ms := Matches(at, s, from);
    assert ms == [m] + Matches(at, s, m.1);
    if m.0 == q {
      assert ms[0] == (q, at(s, q).value);
    } else {
      MatchesVisit(at, s, m.1, q);
      var j :| 0 <= j < |Matches(at, s, m.1)| && Matches(at, s, m.1)[j] == (q, at(s, q).value);
      assert ms[j + 1] == (q, at(s, q).value);
    }
  }

  // ---------------------------------------------------------------------
  // ioNumberStringToLogicalIoNumber

  /** JavaScript's `%`: the remainder takes the sign of the dividend. */
  function JsRem(a: int, b: int): int
    requires b > 0
  {
    if a >= 0 then a % b else -((-a) % b)
  }

  /** The logical number of `IN#(n)` or `OT#(n)` with the n-th signal counted
      from 1: bank 0 or 10000, then group (n-1) div 8 + 1 in the tens and
      bit (n-1) mod 8 in the units. */
  function IoLogical(bank: int, n: nat): int
  {
    var ioNumber := n - 1;
    bank + ((ioNumber / 8) + 1) * 10 + JsRem(ioNumber, 8)
  }

  /** The logical number a match at q reads: its bank letter and its digits. */
  function IoLogicalAt(s: string, q: nat): int
    requires q + 4 <= |s|
  {
    IoLogical(if s[q] == 'I' then 0 else 10000, DigitsValue(s[q + 4..q + 4 + DigitsAt(s, q + 4)]))
  }

  /** `ioNumberStringToLogicalIoNumber`: the logical number of the leftmost
      `IN#(n)` or `OT#(n)` in the text, None when there is none. */
  function IoNumberToLogical(s: string): (r: Option<int>)
    ensures r.None? <==> forall q :: 0 <= q <= |s| ==> !Hit(IoCoreAt, s, q)
    ensures r.Some? ==> var q := NextMatch(IoCoreAt, s, 0).value.0;
      && (forall q' :: 0 <= q' < q ==> !Hit(IoCoreAt, s, q'))
      && q + 4 <= |s| && r.value == IoLogicalAt(s, q)
  {
    match NextMatch(IoCoreAt, s, 0)
    case None => None
    case Some((q, _)) => Some(IoLogicalAt(s, q))
  }

  /** A digit run of length k from i, ended by a non-digit or the end. */
  lemma {:induction false} DigitsAtRun(s: string, i: nat, k: nat)
    requires i + k <= |s|
    requires forall j :: i <= j < i + k ==> IsDigit(s[j])
    requires i + k == |s| || !IsDigit(s[i + k])
    ensures DigitsAt(s, i) == k
    decreases k
  {
    if k > 0 {
      DigitsAtRun(s, i + 1, k - 1);
    }
  }

  /** `IN#(n)` and `OT#(n)` address the names IONAME.DAT numbers: signal
      4 * offset + i + 1 of the input or output bank is name i on contents
      line `offset` of the IN or OUT section. */
  lemma IoNumberAddressesIoName(output: bool, offset: nat, i: nat)
    requires i < 4
    ensures var text := (if output then "OT#(" else "IN#(") + NatToString(offset * 4 + i + 1) + ")";
      IoNumberToLogical(text)
        == Some(IoNameDatFiles.LogicalNumber(IoNameDatFiles.BankOf(if output then "OUT" else "IN").value, offset, i) as int)
  {
    if output {
      assert IoNameDatFiles.BankOf("OUT") == Some(10000);
      IoNumberOfSignal("OT#(", 10000, offset, i);
    } else {
      assert IoNameDatFiles.BankOf("IN") == Some(0);
      IoNumberOfSignal("IN#(", 0, offset, i);
    }
  }

  /** IoNumberAddressesIoName for one bank, given by its prefix. */
  lemma IoNumberOfSignal(prefix: string, bank: nat, offset: nat, i: nat)
    requires (prefix == "IN#(" && bank == 0) || (prefix == "OT#(" && bank == 10000)
    ensures IoNumberToLogical(prefix + NatToString(offset * 4 + i + 1) + ")")
         == Some(IoNameDatFiles.LogicalNumber(bank, offset, i) as int)
  {
    IoNumberOfText(prefix, NatToString(offset * 4 + i + 1));
    IoLogicalOfSignal(bank, offset, i);
  }

  /** Signal 4 * offset + i + 1 and name i of line `offset` share a number. */
  lemma IoLogicalOfSignal(bank: nat, offset: nat, i: nat)
    ensures IoLogical(bank, offset * 4 + i + 1) == IoNameDatFiles.LogicalNumber(bank, offset, i) as int
  {
    var index := offset * 4 + i;
    assert JsRem(index, 8) == index % 8;
  }

  /** `IN#(digits)` and `OT#(digits)` alone read as their bank and number. */
  lemma IoNumberOfText(prefix: string, digits: string)
    requires prefix == "IN#(" || prefix == "OT#("
    requires |digits| > 0 && AllDigits(digits)
    ensures IoNumberToLogical(prefix + digits + ")")
         == Some(IoLogical(if prefix == "IN#(" then 0 else 10000, DigitsValue(digits)))
  {
    var text := prefix + digits + ")";
    IoCoreOfNumber(prefix, digits);
    assert NextMatch(IoCoreAt, text, 0) == Some((0 as nat, |text| as nat));
    assert text[0] == prefix[0];
    assert text[4..4 + |digits|] == digits;
  }

  /** The scanner reads back `IN#(`, `OT#(` and a digit string. */
  lemma IoCoreOfNumber(prefix: string, digits: string)
    requires prefix == "IN#(" || prefix == "OT#("
    requires |digits| > 0 && AllDigits(digits)
    ensures var text := prefix + digits + ")";
      IoCoreAt(text, 0) == Some(|text|) && DigitsAt(text, 4) == |digits|
  {
    var text := prefix + digits + ")";
    assert text[..4] == prefix;
    assert forall j :: 4 <= j < 4 + |digits| ==> text[j] == digits[j - 4];
    DigitsAtRun(text, 4, |digits|);
  }

  // ---------------------------------------------------------------------
  // The timer tag of validateInstTimer

  /** `+str` on the tag value: an exact number, or NaN. */
  datatype TimerValue = Exact(v: real) | NotANumber

  /** What `(?<=\s)T=([-]?[0-9]+(.([0-9]+))?)\b` captured: the span of the
      whole match, the value of group 1 and the digits of group 3. */
  datatype TimerTag = TimerTag(start: nat, end: nat, value: TimerValue, decimals: Option<string>)

  function Pow10(n: nat): (r: nat)
    ensures r >= 1
  {
    if n == 0 then 1 else 10 * Pow10(n - 1)
  }

  function Signed(negative: bool, v: real): real
  {
    if negative then -v else v
  }

  /** The radix of a `0x`, `0o` or `0b` literal, by its letter. */
  function RadixOf(c: char): (r: Option<nat>)
    ensures r.Some? ==> r.value in {2, 8, 16}
  {
    if c == 'x' || c == 'X' then Some(16)
    else if c == 'o' || c == 'O' then Some(8)
    else if c == 'b' || c == 'B' then Some(2)
    else None
  }

  /** A decimal-digit string read in the given radix; none when one of its
      digits is not a digit of that radix. */
  function RadixValue(radix: nat, tail: string): (r: Option<nat>)
    requires 2 <= radix && AllDigits(tail)
    ensures r.Some? <==> forall j :: 0 <= j < |tail| ==> tail[j] as int - '0' as int < radix
    decreases |tail|
  {
    if tail == [] then Some(0)
    else
      var d := tail[|tail| - 1] as int - '0' as int;
      match RadixValue(radix, tail[..|tail| - 1])
      case None => None
      case Some(v) => if d < radix then Some(radix * v + d) else None
  }

  /** In radix ten the reading is the decimal value. */
  lemma {:induction false} RadixTenIsDecimal(tail: string)
    requires AllDigits(tail)
    ensures RadixValue(10, tail) == Some(DigitsValue(tail))
    decreases |tail|
  {
    if tail != [] {
      RadixTenIsDecimal(tail[..|tail| - 1]);
    }
  }

  /** The number text `digits c tail`: a decimal point gives a fraction, an
      `e` or `E` an exponent, an unsigned `0x`, `0o` or `0b` prefix a
      hexadecimal, octal or binary integer (NaN if a digit is out of its
      radix), and any other character NaN. */
  function JoinedValue(negative: bool, digits: string, c: char, tail: string): (r: TimerValue)
    requires AllDigits(digits) && AllDigits(tail)
    ensures c != '.' && c != 'e' && c != 'E' && RadixOf(c).None? ==> r == NotANumber
    ensures RadixOf(c).Some? && (negative || digits != "0") ==> r == NotANumber
    ensures RadixOf(c).Some? && !negative && digits == "0" ==>
      (r.Exact? <==> RadixValue(RadixOf(c).value, tail).Some?)
  {
    var whole := DigitsValue(digits) as real;
    if c == '.' then Exact(Signed(negative, whole + (DigitsValue(tail) as real) / (Pow10(|tail|) as real)))
    else if c == 'e' || c == 'E' then Exact(Signed(negative, whole * (Pow10(DigitsValue(tail)) as real)))
    else if RadixOf(c).Some? && !negative && digits == "0" then RadixNumber(RadixOf(c).value, tail)
    else NotANumber
  }

  /** The number a radix literal's digits stand for, or NaN. */
  function RadixNumber(radix: nat, tail: string): (r: TimerValue)
    requires 2 <= radix && AllDigits(tail)
    ensures r.Exact? <==> RadixValue(radix, tail).Some?
  {
    match RadixValue(radix, tail)
    case Some(v) => Exact(v as real)
    case None => NotANumber
  }

  /** The tag at p: `T=` after whitespace, then an optional minus and the
      number read by TimerNumber. */
  function TimerAt(s: string, p: nat): (r: Option<TimerTag>)
    ensures r.Some? ==> r.value.start == p && p + 2 < r.value.end <= |s| && s[p..p + 2] == "T="
    ensures r.Some? ==> p >= 1 && IsWhitespace(s[p - 1]) && Boundary(s, r.value.end)
    ensures r.Some? && r.value.decimals.Some? ==> |r.value.decimals.value| > 0
  {
    if 1 <= p <= |s| && IsWhitespace(s[p - 1]) && Prefixed(s, p, "T=") then
      var negative := p + 2 < |s| && s[p + 2] == '-';
      TimerNumber(s, p, if negative then p + 3 else p + 2, negative)
    else None
  }

  /** The number of a tag starting at p, its digits from r on. After the
      digit run the engine first tries `.` and a second digit run up to a
      word boundary; failing that, it needs a word boundary right after the
      first run. Shorter first runs never succeed, since a boundary cannot
      fall between two digits. */
  function TimerNumber(s: string, p: nat, r: nat, negative: bool): (t: Option<TimerTag>)
    requires r <= |s|
    ensures t.Some? ==> t.value.start == p && r < t.value.end <= |s| && Boundary(s, t.value.end)
    ensures t.Some? && t.value.decimals.Some? ==> |t.value.decimals.value| > 0
  {
    var d := DigitsAt(s, r);
    var e := r + d;
    if d == 0 then None
    else
      var f := if e < |s| && !IsLineTerminator(s[e]) then DigitsAt(s, e + 1) else 0;
      if f > 0 && Boundary(s, e + 1 + f) then
        var tail := s[e + 1..e + 1 + f];
        Some(TimerTag(p, e + 1 + f, JoinedValue(negative, s[r..e], s[e], tail), Some(tail)))
      else if Boundary(s, e) then
        Some(TimerTag(p, e, Exact(Signed(negative, DigitsValue(s[r..e]) as real)), None))
      else None
  }

  /** `1000` in radix sixteen. */
  lemma HexReading()
    ensures RadixValue(16, "1000") == Some(4096)
  {
    assert "1"[..0] == ""; assert RadixValue(16, "1") == Some(1);
    assert "10"[..1] == "1"; assert RadixValue(16, "10") == Some(16);
    assert "100"[..2] == "10"; assert RadixValue(16, "100") == Some(256);
    assert "1000"[..3] == "100";
  }

  /** An unsigned tag is read by TimerNumber from just after `T=`. */
  lemma UnsignedTimer(s: string, p: nat)
    requires 1 <= p && p + 2 < |s| && IsWhitespace(s[p - 1]) && Prefixed(s, p, "T=") && s[p + 2] != '-'
    ensures TimerAt(s, p) == TimerNumber(s, p, p + 2, false)
  {
  }

  /** A number `<digits><c><tail>` from r, its letter at e, ending at a
      word boundary at n. */
  lemma NumberWithTail(s: string, p: nat, r: nat, e: nat, n: nat, digits: string, c: char, tail: string)
    requires AllDigits(digits) && AllDigits(tail) && r < e && e + 1 < n <= |s|
    requires DigitsAt(s, r) == e - r && s[r..e] == digits
    requires s[e] == c && !IsLineTerminator(c)
    requires DigitsAt(s, e + 1) == n - (e + 1) && s[e + 1..n] == tail
    requires Boundary(s, n)
    ensures TimerNumber(s, p, r, false) == Some(TimerTag(p, n, JoinedValue(false, digits, c, tail), Some(tail)))
  {
    var f := n - (e + 1);
    assert (if e < |s| && !IsLineTerminator(s[e]) then DigitsAt(s, e + 1) else 0) == f;
    assert f > 0 && Boundary(s, e + 1 + f);
  }

  /** A tag `T=0<c><digits>` closing the line, c one of `x`, `o`, `b` in
      either case: the unescaped `.` lets it match, and `+m[1]` reads the
      digits in that radix, or gives NaN when one is not a digit of it. */
  lemma RadixTimer(s: string, p: nat, c: char, tail: string)
    requires 1 <= p <= |s| && IsWhitespace(s[p - 1])
    requires RadixOf(c).Some? && |tail| > 0 && AllDigits(tail)
    requires s[p..] == "T=0" + [c] + tail
    ensures TimerAt(s, p) == Some(TimerTag(p, |s|, RadixNumber(RadixOf(c).value, tail), Some(tail)))
  {
    RadixTagShape(s, p, c, tail);
    TimerOfShape(s, p, c, tail);
  }

  /** RadixTimer from the positions RadixTagShape gives. */
  lemma TimerOfShape(s: string, p: nat, c: char, tail: string)
    requires RadixOf(c).Some? && |tail| > 0 && AllDigits(tail)
    requires 1 <= p && |s| == p + 4 + |tail| && IsWhitespace(s[p - 1])
    requires Prefixed(s, p, "T=") && s[p + 2] == '0' && s[p + 3] == c
    requires !IsLineTerminator(c) && Boundary(s, |s|)
    requires DigitsAt(s, p + 2) == 1 && DigitsAt(s, p + 4) == |tail|
    requires s[p + 2..p + 3] == "0" && s[p + 4..|s|] == tail
    ensures TimerAt(s, p) == Some(TimerTag(p, |s|, RadixNumber(RadixOf(c).value, tail), Some(tail)))
  {
    UnsignedTimer(s, p);
    RadixNumberOfShape(s, p, c, tail);
    JoinedRadix(c, tail);
  }

  /** The number part of TimerOfShape. */
  lemma RadixNumberOfShape(s: string, p: nat, c: char, tail: string)
    requires RadixOf(c).Some? && |tail| > 0 && AllDigits(tail)
    requires |s| == p + 4 + |tail| && s[p + 3] == c && !IsLineTerminator(c) && Boundary(s, |s|)
    requires DigitsAt(s, p + 2) == 1 && DigitsAt(s, p + 4) == |tail|
    requires s[p + 2..p + 3] == "0" && s[p + 4..|s|] == tail
    ensures TimerNumber(s, p, p + 2, false) == Some(TimerTag(p, |s|, JoinedValue(false, "0", c, tail), Some(tail)))
  {
    var e := p + 3;
    assert e + 1 == p + 4;
    NumberWithTail(s, p, p + 2, e, |s|, "0", c, tail);
  }

  /** An unsigned `0` before a radix letter reads the tail in that radix. */
  lemma JoinedRadix(c: char, tail: string)
    requires RadixOf(c).Some? && AllDigits(tail)
    ensures JoinedValue(false, "0", c, tail) == RadixNumber(RadixOf(c).value, tail)
  {
  }

  /** The positions RadixTimer reads: the `0`, the letter, the digits to
      the end of the line, and the boundary there. */
  lemma RadixTagShape(s: string, p: nat, c: char, tail: string)
    requires 1 <= p <= |s|
    requires RadixOf(c).Some? && |tail| > 0 && AllDigits(tail)
    requires s[p..] == "T=0" + [c] + tail
    ensures |s| == p + 4 + |tail| && Prefixed(s, p, "T=") && s[p + 2] == '0' && s[p + 3] == c
    ensures !IsLineTerminator(c) && Boundary(s, |s|)
    ensures DigitsAt(s, p + 2) == 1 && DigitsAt(s, p + 4) == |tail|
    ensures s[p + 2..p + 3] == "0" && s[p + 4..|s|] == tail
  {
    var t := s[p..];
    assert s[p..p + 2] == t[..2] == "T=";
    assert s[p + 2] == t[2] && s[p + 3] == t[3];
    DigitsAtRun(s, p + 2, 1);
    forall j | p + 4 <= j < |s| ensures IsDigit(s[j]) {
      assert s[j] == t[j - p] == tail[j - p - 4];
    }
    DigitsAtRun(s, p + 4, |tail|);
    assert s[p + 4..|s|] == t[4..];
  }

  /** ` T=0x1000` is read as the hexadecimal 4096. */
  lemma HexTimerExample()
    ensures TimerAt(" T=0x1000", 1) == Some(TimerTag(1, 9, Exact(4096.0), Some("1000")))
  {
    var s := " T=0x1000";
    assert s[1..] == "T=0" + ['x'] + "1000";
    RadixTimer(s, 1, 'x', "1000");
    HexReading();
  }

  /** ` T=0o778` is NaN, since 8 is not an octal digit. */
  lemma OctalTimerExample()
    ensures TimerAt(" T=0o778", 1) == Some(TimerTag(1, 8, NotANumber, Some("778")))
  {
    var s := " T=0o778";
    assert s[1..] == "T=0" + ['o'] + "778";
    RadixTimer(s, 1, 'o', "778");
    assert RadixValue(8, "778").None? by { assert "778"[2] == '8'; }
  }

  /** The first position from p on where `at` finds something. */
  function FirstHit<T>(at: (string, nat) -> Option<T>, s: string, p: nat): (r: Option<nat>)
    requires p <= |s|
    ensures r.Some? ==> p <= r.value <= |s| && at(s, r.value).Some?
    ensures r.Some? ==> forall q :: p <= q < r.value ==> at(s, q).None?
    ensures r.None? ==> forall q :: p <= q <= |s| ==> at(s, q).None?
    decreases |s| - p
  {
    if at(s, p).Some? then Some(p)
    else if p == |s| then None
    else FirstHit(at, s, p + 1)
  }

  /** `exec` of the timer pattern from p on: the leftmost tag, and none only
      when no tag starts at p or later. */
  function TimerFrom(s: string, p: nat): (r: Option<TimerTag>)
    requires p <= |s|
    ensures r.Some? ==> p <= r.value.start <= |s| && TimerAt(s, r.value.start) == r
    ensures r.Some? ==> forall q :: p <= q < r.value.start ==> TimerAt(s, q).None?
    ensures r.None? ==> forall q :: p <= q <= |s| ==> TimerAt(s, q).None?
  {
    match FirstHit(TimerAt, s, p)
    case None => None
    case Some(q) => TimerAt(s, q)
  }

  // ---------------------------------------------------------------------
  // The command of an INST line

  /** Every character in [i, j) is a blank. */
  predicate Blanks(s: string, i: nat, j: nat)
    requires j <= |s|
  {
    forall k :: i <= k < j ==> IsWhitespace(s[k])
  }

  /** `w\s+` at i: the position after the blanks. */
  function KeywordEnd(s: string, i: nat, w: string): (r: Option<nat>)
    requires i <= |s|
    ensures r.Some? ==> i + |w| < r.value <= |s|
  {
    if Prefixed(s, i, w) && BlankRun(s, i + |w|) > 0 then Some(i + |w| + BlankRun(s, i + |w|)) else None
  }

  lemma KeywordEndSpec(s: string, i: nat, w: string)
    requires i <= |s|
    ensures var r := KeywordEnd(s, i, w);
      r.Some? ==> Prefixed(s, i, w) && Blanks(s, i + |w|, r.value)
  {
    if Prefixed(s, i, w) {
      BlankRunSpec(s, i + |w|);
    }
  }

  /** `[A-Z0-9]+\$?(\s|$)` at p: the end of the command token, which keeps
      a trailing `$` only when a blank or the end follows it. */
  function CommandTail(s: string, p: nat): (r: Option<nat>)
    requires p <= |s|
    ensures r.Some? ==> p < r.value <= |s|
  {
    var e := p + CommandCharRun(s, p);
    if e == p then None
    else if e == |s| || IsWhitespace(s[e]) then Some(e)
    else if s[e] == '$' && (e + 1 == |s| || IsWhitespace(s[e + 1])) then Some(e + 1)
    else None
  }

  /** The token is command characters with an optional final `$`, and a
      blank or the end of the line follows it. */
  lemma CommandTailSpec(s: string, p: nat)
    requires p <= |s|
    ensures var r := CommandTail(s, p);
      && (r.Some? ==> r.value == |s| || IsWhitespace(s[r.value]))
      && (r.Some? ==> forall j :: p <= j < r.value - 1 ==> IsCommandChar(s[j]))
      && (r.Some? ==> IsCommandChar(s[r.value - 1]) || s[r.value - 1] == '$')
  {
    CommandCharRunSpec(s, p);
  }

  /** Group 4, `\t*|\t\s*`, spans exactly [b, p). */
  predicate TabGroup(s: string, b: nat, p: nat)
    requires b <= p <= |s|
  {
    (forall k :: b <= k < p ==> s[k] == '\t') || (b < p && s[b] == '\t' && Blanks(s, b + 1, p))
  }

  /** Group 4 and then the token, tried at x: the tabs first, then a tab and
      every blank after it. The positions in between are blanks, where no
      token starts. */
  function TabsThenToken(s: string, x: nat): (r: Option<(nat, nat)>)
    requires x <= |s|
    ensures r.Some? ==> x <= r.value.0 < r.value.1 <= |s|
  {
    var t := x + TabRun(s, x);
    if CommandTail(s, t).Some? then Some((t, CommandTail(s, t).value))
    else if x < |s| && s[x] == '\t' && CommandTail(s, x + BlankRun(s, x)).Some? then
      Some((x + BlankRun(s, x), CommandTail(s, x + BlankRun(s, x)).value))
    else None
  }

  lemma TabsThenTokenSpec(s: string, x: nat)
    requires x <= |s|
    ensures var r := TabsThenToken(s, x);
      r.Some? ==> CommandTail(s, r.value.0) == Some(r.value.1) && TabGroup(s, x, r.value.0)
  {
    BlankRunSpec(s, x);
    TabRunSpec(s, x);
  }

  /** [0, p) split at a (end of the optional `EDTLCK\s+`) and b (end of the
      optional `COMM\s+`), with group 4 after b. */
  predicate PrefixSplit(s: string, a: nat, b: nat, p: nat)
    requires p <= |s|
  {
    && a <= b <= p
    && (a == 0 || (Prefixed(s, 0, "EDTLCK") && 6 < a && Blanks(s, 6, a)))
    && (b == a || (Prefixed(s, a, "COMM") && a + 4 < b && Blanks(s, a + 4, b)))
    && TabGroup(s, b, p)
  }

  /** [0, p) is in the language of group 1, `(EDTLCK\s+)?(COMM\s+)?(\t*|\t\s*)`. */
  ghost predicate CommandPrefix(s: string, p: nat)
    requires p <= |s|
  {
    exists a: nat, b: nat :: PrefixSplit(s, a, b, p)
  }

  /** With EDTLCK and its blanks: COMM and its blanks, then without COMM. */
  function LockedToken(s: string): (r: Option<(nat, nat)>)
    ensures r.Some? ==> r.value.0 < r.value.1 <= |s|
  {
    match KeywordEnd(s, 0, "EDTLCK")
    case None => None
    case Some(a) =>
      match KeywordEnd(s, a, "COMM")
      case Some(b) =>
        (match TabsThenToken(s, b)
         case Some(m) => Some(m)
         case None => TabsThenToken(s, a))
      case None => TabsThenToken(s, a)
  }

  /** With COMM and its blanks, without EDTLCK. */
  function CommentedToken(s: string): (r: Option<(nat, nat)>)
    ensures r.Some? ==> r.value.0 < r.value.1 <= |s|
  {
    match KeywordEnd(s, 0, "COMM")
    case None => None
    case Some(b) => TabsThenToken(s, b)
  }

  /** With neither keyword. */
  function PlainToken(s: string): (r: Option<(nat, nat)>)
    ensures r.Some? ==> r.value.0 < r.value.1 <= |s|
  {
    TabsThenToken(s, 0)
  }

  /** Each way of reading the prefix gives a match of group 1 and a token. */
  lemma LockedTokenSpec(s: string)
    ensures var r := LockedToken(s);
      r.Some? ==> CommandTail(s, r.value.0) == Some(r.value.1) && CommandPrefix(s, r.value.0)
  {
    var r := LockedToken(s);
    if r.Some? {
      var a := KeywordEnd(s, 0, "EDTLCK").value;
      KeywordEndSpec(s, 0, "EDTLCK");
      var k := KeywordEnd(s, a, "COMM");
      KeywordEndSpec(s, a, "COMM");
      if k.Some? && TabsThenToken(s, k.value).Some? {
        TabsThenTokenSpec(s, k.value);
        assert PrefixSplit(s, a, k.value, r.value.0);
      } else {
        TabsThenTokenSpec(s, a);
        assert PrefixSplit(s, a, a, r.value.0);
      }
    }
  }

  lemma CommentedTokenSpec(s: string)
    ensures var r := CommentedToken(s);
      r.Some? ==> CommandTail(s, r.value.0) == Some(r.value.1) && CommandPrefix(s, r.value.0)
  {
    var r := CommentedToken(s);
    if r.Some? {
      var b := KeywordEnd(s, 0, "COMM").value;
      KeywordEndSpec(s, 0, "COMM");
      TabsThenTokenSpec(s, b);
      assert PrefixSplit(s, 0, b, r.value.0);
    }
  }

  lemma PlainTokenSpec(s: string)
    ensures var r := PlainToken(s);
      r.Some? ==> CommandTail(s, r.value.0) == Some(r.value.1) && CommandPrefix(s, r.value.0)
  {
    var r := PlainToken(s);
    if r.Some? {
      TabsThenTokenSpec(s, 0);
      assert PrefixSplit(s, 0, 0, r.value.0);
    }
  }

  /** `^((EDTLCK\s+)?(COMM\s+)?(\t*|\t\s*))([A-Z0-9]+\$?)(\s|$)`: the span
      (end of group 1, end of group 5) of the command token. The engine
      tries EDTLCK with all its blanks, then COMM alone, then neither;
      giving back blanks only reaches positions where a blank stands, and
      no token starts there. */
  function CommandMatch(s: string): (r: Option<(nat, nat)>)
    ensures r.Some? ==> r.value.0 < r.value.1 <= |s|
  {
    if LockedToken(s).Some? then LockedToken(s)
    else if CommentedToken(s).Some? then CommentedToken(s)
    else PlainToken(s)
  }

  /** The result is a match of the whole pattern: the text before the token
      is in the language of group 1, and the token is upper-case letters and
      digits with an optional final `$`, followed by a blank or the end of
      the line. */
  lemma CommandMatchSpec(s: string)
    ensures CommandMatch(s).Some? ==> CommandPrefix(s, CommandMatch(s).value.0)
    ensures CommandMatch(s).Some? ==>
      forall j :: CommandMatch(s).value.0 <= j < CommandMatch(s).value.1 - 1 ==> IsCommandChar(s[j])
    ensures CommandMatch(s).Some? ==>
      IsCommandChar(s[CommandMatch(s).value.1 - 1]) || s[CommandMatch(s).value.1 - 1] == '$'
    ensures CommandMatch(s).Some? ==>
      CommandMatch(s).value.1 == |s| || IsWhitespace(s[CommandMatch(s).value.1])
  {
    CommandMatchTail(s);
    if CommandMatch(s).Some? {
      TokenFacts(s, CommandMatch(s).value.0, CommandMatch(s).value.1);
    }
  }

  /** CommandTailSpec for a token known to span [p, e). */
  lemma TokenFacts(s: string, p: nat, e: nat)
    requires p <= |s| && CommandTail(s, p) == Some(e)
    ensures e == |s| || IsWhitespace(s[e])
    ensures forall j :: p <= j < e - 1 ==> IsCommandChar(s[j])
    ensures IsCommandChar(s[e - 1]) || s[e - 1] == '$'
  {
    CommandTailSpec(s, p);
  }

  /** Whichever reading CommandMatch takes, its token ends where
      CommandTail says, after a prefix in group 1's language. */
  lemma CommandMatchTail(s: string)
    ensures CommandMatch(s).Some? ==> CommandTail(s, CommandMatch(s).value.0) == Some(CommandMatch(s).value.1)
    ensures CommandMatch(s).Some? ==> CommandPrefix(s, CommandMatch(s).value.0)
  {
    LockedTokenSpec(s);
    CommentedTokenSpec(s);
    PlainTokenSpec(s);
  }
}
