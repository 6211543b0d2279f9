/**
 * The conformance-test runner: the `; OUTPUT(N)` annotation scanner, the
 * four-way outcome classifier and the fail-fast suite driver.
 *
 * Running the interpreter under the memory checker is not modelled: its
 * observable result (exit code, stdout, stderr) is a parameter `run` that maps
 * a script path to an `Actual` record.
 */
module TestRunner {

  /** Exit code the memory checker is told to use when it detects a fault. */
  const ErrorExitCode: int := 211

  datatype Option<T> = None | Some(value: T)

  datatype Expectation = Expectation(code: nat, stdout: string)
  datatype Actual = Actual(code: int, stdout: string, stderr: string)
  datatype Script = Script(path: string, text: string)

  datatype Outcome =
    | MemError
    | WrongCode(returned: int, expected: nat)
    | WrongOutput
    | Pass

  /** Python exceptions that escape a test case. */
  datatype Fault =
    | NoMarker          // `code` is read before it was ever assigned
    | NoDelimiter       // `line.index('; ')` raises ValueError
    | SentinelExpected  // `assert exp_code != ERROR_EXITCODE` fails

  datatype Result<T> = Ok(value: T) | Raised(fault: Fault)

  /*
   * Lines, as Python's file iteration yields them. A file opened in text
   * mode reads with universal newlines: "\r\n" and a lone '\r' both arrive
   * as '\n'. The translated text is then cut after each '\n', so every line
   * ends with its '\n' except possibly the last one.
   */

  /** Universal-newline translation of the raw file text. */
  function Universal(text: string): (u: string)
    ensures '\r' !in u
    ensures |u| <= |text|
    decreases |text|
  {
    if text == [] then []
    else if text[0] == '\r' then
      "\n" + Universal(if |text| > 1 && text[1] == '\n' then text[2..] else text[1..])
    else [text[0]] + Universal(text[1..])
  }

  /** The translation changes a text exactly when it holds a carriage return. */
  lemma {:induction false} UniversalKeeps(text: string)
    ensures Universal(text) == text <==> '\r' !in text
    decreases |text|
  {
    if text != [] && text[0] != '\r' {
      UniversalKeeps(text[1..]);
      assert text == [text[0]] + text[1..];
    }
  }

  /** Translating twice is translating once. */
  lemma UniversalIdempotent(text: string)
    ensures Universal(Universal(text)) == Universal(text)
  {
    UniversalKeeps(Universal(text));
  }

  /** A carriage return, with or without the newline after it, becomes one newline. */
  lemma UniversalReturn(b: string)
    requires b == [] || b[0] != '\n'
    ensures Universal("\r\n" + b) == "\n" + Universal(b)
    ensures Universal("\r" + b) == "\n" + Universal(b)
  {
    assert ("\r\n" + b)[2..] == b;
    assert ("\r" + b)[1..] == b;
  }

  /** A prefix without carriage returns is copied unchanged. */
  lemma {:induction false} UniversalAfter(a: string, b: string)
    requires '\r' !in a
    ensures Universal(a + b) == a + Universal(b)
    decreases |a|
  {
    if a != [] {
      var ab := a + b;
      assert ab[0] == a[0] && a[0] != '\r';
      assert ab[1..] == a[1..] + b;
      assert '\r' !in a[1..];
      UniversalAfter(a[1..], b);
      assert Universal(ab) == [a[0]] + Universal(a[1..] + b);
      assert a == [a[0]] + a[1..];
    } else {
      assert a + b == b;
    }
  }

  /** Each of "\r\n", "\r" and "\n" ends exactly one line. */
  lemma UniversalEndings(a: string, e: string, b: string)
    requires '\r' !in a && '\r' !in b && (b == [] || b[0] != '\n')
    requires e == "\r\n" || e == "\r" || e == "\n"
    ensures Universal(a + e + b) == a + "\n" + b
  {
    assert a + e + b == a + (e + b);
    UniversalAfter(a, e + b);
    UniversalKeeps(b);
    if e == "\n" {
      UniversalKeeps(e + b);
    } else {
      UniversalReturn(b);
    }
  }

  /** One past the first newline at or after `i`, or the end of the text. */
  function LineEnd(text: string, i: nat): (k: nat)
    requires i < |text|
    ensures i < k <= |text|
    ensures forall j :: i <= j < k - 1 ==> text[j] != '\n'
    ensures k < |text| ==> text[k - 1] == '\n'
    decreases |text| - i
  {
    if text[i] == '\n' || i + 1 == |text| then i + 1 else LineEnd(text, i + 1)
  }

  function SplitLines(text: string): (lines: seq<string>)
    decreases |text|
  {
    if text == [] then []
    else
      var k := LineEnd(text, 0);
      [text[..k]] + SplitLines(text[k..])
  }

  function Concat(parts: seq<string>): string
  {
    if parts == [] then "" else parts[0] + Concat(parts[1..])
  }

  /** `for line in f` on a file opened with `open(script, 'r')`. */
  function ReadLines(text: string): seq<string>
  {
    SplitLines(Universal(text))
  }

  /** A character the text lacks is in none of its lines. */
  lemma {:induction false} SplitLinesLack(text: string, c: char)
    requires c !in text
    ensures forall j :: 0 <= j < |SplitLines(text)| ==> c !in SplitLines(text)[j]
    decreases |text|
  {
    if text != [] {
      var k := LineEnd(text, 0);
      SplitLinesLack(text[k..], c);
      var all := SplitLines(text);
      assert all == [text[..k]] + SplitLines(text[k..]);
      forall j | 0 <= j < |all| ensures c !in all[j] {
        if j > 0 {
          assert all[j] == SplitLines(text[k..])[j - 1];
        }
      }
    }
  }

  /** No line read from a file holds a carriage return, whatever line endings the file uses. */
  lemma ReadLinesNoReturn(text: string)
    ensures forall j :: 0 <= j < |ReadLines(text)| ==> '\r' !in ReadLines(text)[j]
  {
    SplitLinesLack(Universal(text), '\r');
  }

  /** Splitting loses nothing: the lines joined again are the text. */
  lemma {:induction false} SplitLinesJoin(text: string)
    ensures Concat(SplitLines(text)) == text
    decreases |text|
  {
    if text != [] {
      var k := LineEnd(text, 0);
      var head, tail := text[..k], text[k..];
      SplitLinesJoin(tail);
      var all := SplitLines(text);
      assert all[0] == head && all[1..] == SplitLines(tail);
      assert head + tail == text;
    }
  }

  /** No line is empty, and every line but the last ends with its newline. */
  lemma {:induction false} SplitLinesShape(text: string)
    ensures forall j :: 0 <= j < |SplitLines(text)| ==> SplitLines(text)[j] != []
    ensures forall j :: 0 <= j < |SplitLines(text)| - 1 ==>
              SplitLines(text)[j][|SplitLines(text)[j]| - 1] == '\n'
    decreases |text|
  {
    if text != [] {
      var k := LineEnd(text, 0);
      var tail := text[k..];
      SplitLinesShape(tail);
      var ls := SplitLines(tail);
      var all := SplitLines(text);
      assert all == [text[..k]] + ls;
      forall j | 0 <= j < |all|
        ensures all[j] != [] && (j < |all| - 1 ==> all[j][|all[j]| - 1] == '\n')
      {
        if j > 0 {
          assert all[j] == ls[j - 1];
        } else if j < |all| - 1 {
          assert tail != [];
        }
      }
    }
  }

  /*
   * The marker `; OUTPUT(<digits>)`, matched at the start of the line.
   */

  const MarkerPrefix: string := "; OUTPUT("

  predicate IsDigit(c: char) { '0' <= c <= '9' }

  predicate AllDigits(d: string) { forall j :: 0 <= j < |d| ==> IsDigit(d[j]) }

  /** Length of the run of digits starting at `i`. */
  function DigitRun(s: string, i: nat): (n: nat)
    requires i <= |s|
    ensures i + n <= |s|
    ensures AllDigits(s[i..i + n])
    ensures i + n < |s| ==> !IsDigit(s[i + n])
    decreases |s| - i
  {
    if i < |s| && IsDigit(s[i]) then
      var m := DigitRun(s, i + 1);
      DigitsCons(s, i, m);
      1 + m
    else 0
  }

  lemma DigitsCons(s: string, i: nat, m: nat)
    requires i + 1 + m <= |s| && IsDigit(s[i]) && AllDigits(s[i + 1..i + 1 + m])
    ensures AllDigits(s[i..i + 1 + m])
  {
    var t, u := s[i..i + 1 + m], s[i + 1..i + 1 + m];
    forall j | 0 <= j < |t|
      ensures IsDigit(t[j])
    {
      if j > 0 {
        assert t[j] == u[j - 1];
      }
    }
  }

  /** Python's `int()` of a string of decimal digits. */
  function DigitsValue(d: string): nat
    requires AllDigits(d)
  {
    if d == [] then 0
    else 10 * DigitsValue(d[..|d| - 1]) + ((d[|d| - 1] as int) - ('0' as int))
  }

  /** `output_re.match(line)`: the exit code the marker declares, if any. */
  function MatchMarker(line: string): Option<nat>
  {
    if |line| >= |MarkerPrefix| && line[..|MarkerPrefix|] == MarkerPrefix then
      var rest := line[|MarkerPrefix|..];
      var n := DigitRun(rest, 0);
      if 0 < n < |rest| && rest[n] == ')' then Some(DigitsValue(rest[..n])) else None
    else None
  }

  /**
   * A line matches exactly when it is the prefix, a non-empty run of digits,
   * a closing parenthesis and anything at all, and the code is the digits'
   * value.
   */
  lemma MatchMarkerShape(d: string, tail: string)
    requires d != [] && AllDigits(d)
    ensures MatchMarker(MarkerPrefix + d + ")" + tail) == Some(DigitsValue(d))
  {
    var line := MarkerPrefix + d + ")" + tail;
    assert line[..|MarkerPrefix|] == MarkerPrefix;
    var rest := line[|MarkerPrefix|..];
    assert rest == d + ")" + tail;
    DigitRunOfDigits(rest, d);
    assert rest[..|d|] == d;
  }

  lemma DigitRunOfDigits(rest: string, d: string)
    requires AllDigits(d) && |d| < |rest| && rest[..|d|] == d && !IsDigit(rest[|d|])
    ensures DigitRun(rest, 0) == |d|
  {
    assert forall j :: 0 <= j < |d| ==> rest[j] == d[j];
  }

  lemma MatchMarkerSound(line: string)
    requires MatchMarker(line).Some?
    ensures exists d: string, tail: string ::
              d != [] && AllDigits(d) && line == MarkerPrefix + d + ")" + tail &&
              MatchMarker(line).value == DigitsValue(d)
  {
    var rest := line[|MarkerPrefix|..];
    var n := DigitRun(rest, 0);
    var d, tail := rest[..n], rest[n + 1..];
    assert line == line[..|MarkerPrefix|] + rest;
    assert rest == d + ")" + tail;
    assert line == MarkerPrefix + d + ")" + tail;
  }

  /*
   * Output lines: the text after the first `; `.
   */

  /** Index of the first occurrence of `; ` at or after `i`. */
  function FindDelim(line: string, i: nat): (r: Option<nat>)
    requires i <= |line|
    ensures r.Some? ==> i <= r.value && r.value + 2 <= |line| &&
                        line[r.value] == ';' && line[r.value + 1] == ' '
    ensures r.Some? ==> forall j :: i <= j < r.value ==> !(line[j] == ';' && line[j + 1] == ' ')
    ensures r.None? ==> forall j :: i <= j < |line| - 1 ==> !(line[j] == ';' && line[j + 1] == ' ')
    decreases |line| - i
  {
    if i + 1 >= |line| then None
    else if line[i] == ';' && line[i + 1] == ' ' then Some(i)
    else FindDelim(line, i + 1)
  }

  /** `line[line.index('; ') + 2:]`, or the ValueError it raises. */
  function Payload(line: string): Result<string>
  {
    match FindDelim(line, 0)
    case None => Raised(NoDelimiter)
    case Some(k) => Ok(line[k + 2..])
  }

  /*
   * The two-state scanner of `get_expected_code_and_output`.
   */

  datatype ScanState = Seeking | Reading(code: nat, out: string)

  function ScanStep(st: ScanState, line: string): Result<ScanState>
  {
    match st
    case Reading(c, out) =>
      (match Payload(line)
       case Ok(p) => Ok(Reading(c, out + p))
       case Raised(f) => Raised(f))
    case Seeking =>
      (match MatchMarker(line)
       case Some(c) => Ok(Reading(c, ""))
       case None => Ok(Seeking))
  }

  function ScanFrom(lines: seq<string>, i: nat, st: ScanState): Result<ScanState>
    requires i <= |lines|
    decreases |lines| - i
  {
    if i == |lines| then Ok(st)
    else
      match ScanStep(st, lines[i])
      case Ok(st') => ScanFrom(lines, i + 1, st')
      case Raised(f) => Raised(f)
  }

  /** `get_expected_code_and_output` over the lines of a script. */
  function GetExpected(lines: seq<string>): Result<Expectation>
  {
    match ScanFrom(lines, 0, Seeking)
    case Raised(f) => Raised(f)
    case Ok(Seeking) => Raised(NoMarker)
    case Ok(Reading(c, out)) => Ok(Expectation(c, out))
  }

  /*
   * Reference definition of the expectation, stated without the state machine.
   */

  /** Index of the first marker line at or after `i`. */
  function FirstMarker(lines: seq<string>, i: nat): (r: Option<nat>)
    requires i <= |lines|
    ensures r.Some? ==> i <= r.value < |lines| && MatchMarker(lines[r.value]).Some?
    ensures r.Some? ==> forall j :: i <= j < r.value ==> MatchMarker(lines[j]).None?
    ensures r.None? ==> forall j :: i <= j < |lines| ==> MatchMarker(lines[j]).None?
    decreases |lines| - i
  {
    if i == |lines| then None
    else if MatchMarker(lines[i]).Some? then Some(i)
    else FirstMarker(lines, i + 1)
  }

  /** The payloads of `lines[i..]` joined in order, or the first ValueError. */
  function Payloads(lines: seq<string>, i: nat): Result<string>
    requires i <= |lines|
    decreases |lines| - i
  {
    if i == |lines| then Ok("")
    else
      match (Payload(lines[i]), Payloads(lines, i + 1))
      case (Ok(p), Ok(rest)) => Ok(p + rest)
      case (Raised(f), _) => Raised(f)
      case (_, Raised(f)) => Raised(f)
  }

  function ExpectedRef(lines: seq<string>): Result<Expectation>
  {
    match FirstMarker(lines, 0)
    case None => Raised(NoMarker)
    case Some(m) =>
      match Payloads(lines, m + 1)
      case Ok(out) => Ok(Expectation(MatchMarker(lines[m]).value, out))
      case Raised(f) => Raised(f)
  }

  lemma {:induction false} ReadingCollects(lines: seq<string>, i: nat, c: nat, out: string)
    requires i <= |lines|
    ensures ScanFrom(lines, i, Reading(c, out)) ==
            (match Payloads(lines, i)
             case Ok(rest) => Ok(Reading(c, out + rest))
             case Raised(f) => Raised(f))
    decreases |lines| - i
  {
    if i < |lines| {
      match Payload(lines[i])
      case Raised(f) =>
      case Ok(p) =>
        ReadingCollects(lines, i + 1, c, out + p);
        match Payloads(lines, i + 1)
        case Raised(f) =>
        case Ok(rest) =>
          assert out + p + rest == out + (p + rest);
    } else {
      assert out + "" == out;
    }
  }

  lemma {:induction false} SeekingSkips(lines: seq<string>, i: nat)
    requires i <= |lines|
    ensures ScanFrom(lines, i, Seeking) ==
            (match FirstMarker(lines, i)
             case None => Ok(Seeking)
             case Some(m) => ScanFrom(lines, m + 1, Reading(MatchMarker(lines[m]).value, "")))
    decreases |lines| - i
  {
    if i < |lines| && MatchMarker(lines[i]).None? {
      SeekingSkips(lines, i + 1);
    }
  }

  /** The scanner computes the reference expectation, on every script. */
  lemma ScannerMatchesReference(lines: seq<string>)
    ensures GetExpected(lines) == ExpectedRef(lines)
  {
    SeekingSkips(lines, 0);
    match FirstMarker(lines, 0)
    case None =>
    case Some(m) =>
      ReadingCollects(lines, m + 1, MatchMarker(lines[m]).value, "");
      match Payloads(lines, m + 1)
      case Raised(f) =>
      case Ok(out) =>
        assert "" + out == out;
  }

  /** Lines before the first marker contribute nothing. */
  lemma {:induction false} PrefixIgnored(pre: seq<string>, rest: seq<string>)
    requires forall j :: 0 <= j < |pre| ==> MatchMarker(pre[j]).None?
    ensures GetExpected(pre + rest) == GetExpected(rest)
  {
    ScannerMatchesReference(pre + rest);
    ScannerMatchesReference(rest);
    FirstMarkerShift(pre, rest, 0);
    match FirstMarker(rest, 0)
    case None =>
    case Some(m) =>
      PayloadsShift(pre, rest, m + 1);
      assert (pre + rest)[|pre| + m] == rest[m];
  }

  lemma {:induction false} FirstMarkerShift(pre: seq<string>, rest: seq<string>, i: nat)
    requires i <= |rest|
    requires forall j :: 0 <= j < |pre| ==> MatchMarker(pre[j]).None?
    ensures FirstMarker(pre + rest, |pre| + i) ==
            (match FirstMarker(rest, i) case None => None case Some(m) => Some(|pre| + m))
    ensures FirstMarker(pre + rest, 0) == FirstMarker(pre + rest, |pre|)
    decreases |rest| - i
  {
    if i < |rest| {
      assert (pre + rest)[|pre| + i] == rest[i];
      FirstMarkerShift(pre, rest, i + 1);
    }
    FirstMarkerSkip(pre + rest, 0, |pre|);
  }

  lemma {:induction false} FirstMarkerSkip(lines: seq<string>, i: nat, k: nat)
    requires i <= k <= |lines|
    requires forall j :: i <= j < k ==> MatchMarker(lines[j]).None?
    ensures FirstMarker(lines, i) == FirstMarker(lines, k)
    decreases k - i
  {
    if i < k {
      FirstMarkerSkip(lines, i + 1, k);
    }
  }

  lemma {:induction false} PayloadsShift(pre: seq<string>, rest: seq<string>, i: nat)
    requires i <= |rest|
    ensures Payloads(pre + rest, |pre| + i) == Payloads(rest, i)
    decreases |rest| - i
  {
    if i < |rest| {
      assert (pre + rest)[|pre| + i] == rest[i];
      PayloadsShift(pre, rest, i + 1);
    }
  }

  /** The worked example: a setup comment, a marker and two output lines. */
  lemma ScenarioA()
    ensures GetExpected(["; setup comment\n", "; OUTPUT(0)\n", "; hello\n", "; world\n"])
            == Ok(Expectation(0, "hello\nworld\n"))
  {
    var lines := ["; setup comment\n", "; OUTPUT(0)\n", "; hello\n", "; world\n"];
    ScannerMatchesReference(lines);
    ScenarioMarker(lines);
    ScenarioPayloads(lines);
    assert ExpectedRef(lines) == Ok(Expectation(0, "hello\nworld\n"));
  }

  /** The worked example's marker is its second line and declares exit code 0. */
  lemma ScenarioMarker(lines: seq<string>)
    requires lines == ["; setup comment\n", "; OUTPUT(0)\n", "; hello\n", "; world\n"]
    ensures FirstMarker(lines, 0) == Some(1) && MatchMarker(lines[1]) == Some(0)
  {
    assert MatchMarker(lines[0]).None? by {
      assert lines[0][..|MarkerPrefix|] != MarkerPrefix by {
        assert lines[0][2] != MarkerPrefix[2];
      }
    }
    MatchMarkerShape("0", "\n");
    assert lines[1] == MarkerPrefix + "0" + ")" + "\n";
    assert DigitsValue("0") == 0 by { assert "0"[..0] == ""; }
  }

  /** A line that starts with `; ` carries everything after it. */
  lemma PayloadAfterDelim(line: string, t: string)
    requires line == "; " + t
    ensures Payload(line) == Ok(t)
  {
    assert FindDelim(line, 0) == Some(0);
  }

  /** The worked example's two output lines. */
  lemma ScenarioPayloads(lines: seq<string>)
    requires lines == ["; setup comment\n", "; OUTPUT(0)\n", "; hello\n", "; world\n"]
    ensures Payloads(lines, 2) == Ok("hello\nworld\n")
  {
    PayloadAfterDelim(lines[2], "hello\n");
    PayloadAfterDelim(lines[3], "world\n");
    assert Payloads(lines, 4) == Ok("");
    assert "world\n" + "" == "world\n";
    assert Payloads(lines, 3) == Ok("world\n");
    assert "hello\n" + "world\n" == "hello\nworld\n";
  }

  /*
   * Outcome classification, with Python's `str.strip()` on the whole text.
   */

  /** The characters Python's `str.isspace()` accepts. */
  predicate IsPyWhitespace(c: char)
  {
    c == ' ' || ('\t' <= c <= '\r') || ('\U{1C}' <= c <= '\U{1F}')
    || c == '\U{85}' || c == '\U{A0}' || c == '\U{1680}'
    || ('\U{2000}' <= c <= '\U{200A}') || c == '\U{2028}' || c == '\U{2029}'
    || c == '\U{202F}' || c == '\U{205F}' || c == '\U{3000}'
  }

  predicate AllWhitespace(s: string) { forall j :: 0 <= j < |s| ==> IsPyWhitespace(s[j]) }

  function LStrip(s: string): string
  {
    if s != [] && IsPyWhitespace(s[0]) then LStrip(s[1..]) else s
  }

  function RStrip(s: string): string
  {
    if s != [] && IsPyWhitespace(s[|s| - 1]) then RStrip(s[..|s| - 1]) else s
  }

  function Strip(s: string): (r: string)
  {
    RStrip(LStrip(s))
  }

  lemma {:induction false} LStripShape(s: string)
    ensures exists k :: 0 <= k <= |s| && LStrip(s) == s[k..] && AllWhitespace(s[..k])
    ensures LStrip(s) == [] || !IsPyWhitespace(LStrip(s)[0])
  {
    if s != [] && IsPyWhitespace(s[0]) {
      LStripShape(s[1..]);
      var k :| 0 <= k <= |s[1..]| && LStrip(s[1..]) == s[1..][k..] && AllWhitespace(s[1..][..k]);
      assert s[1..][k..] == s[k + 1..];
      WhitespaceCons(s, k);
      assert LStrip(s) == s[k + 1..] && AllWhitespace(s[..k + 1]);
    } else {
      assert s[0..] == s;
    }
  }

  lemma WhitespaceCons(s: string, k: nat)
    requires k < |s| && IsPyWhitespace(s[0]) && AllWhitespace(s[1..][..k])
    ensures AllWhitespace(s[..k + 1])
  {
    var t, u := s[..k + 1], s[1..][..k];
    forall j | 0 <= j < |t|
      ensures IsPyWhitespace(t[j])
    {
      if j > 0 {
        assert t[j] == u[j - 1];
      }
    }
  }

  /** Strip leaves neither leading nor trailing whitespace. */
  lemma {:induction false} StripClean(s: string)
    ensures Strip(s) == [] || (!IsPyWhitespace(Strip(s)[0]) && !IsPyWhitespace(Strip(s)[|Strip(s)| - 1]))
  {
    LStripShape(s);
    RStripKeepsHead(LStrip(s));
  }

  lemma {:induction false} RStripKeepsHead(s: string)
    requires s == [] || !IsPyWhitespace(s[0])
    ensures RStrip(s) == [] || (!IsPyWhitespace(RStrip(s)[0]) && !IsPyWhitespace(RStrip(s)[|RStrip(s)| - 1]))
    ensures RStrip(s) == [] ==> s == []
    ensures RStrip(s) != [] ==> RStrip(s)[0] == s[0]
    decreases |s|
  {
    if s != [] && IsPyWhitespace(s[|s| - 1]) {
      RStripKeepsHead(s[..|s| - 1]);
    }
  }

  lemma {:induction false} LStripWhitespacePrefix(ws: string, s: string)
    requires AllWhitespace(ws)
    ensures LStrip(ws + s) == LStrip(s)
    decreases |ws|
  {
    if ws != [] {
      assert (ws + s)[1..] == ws[1..] + s;
      LStripWhitespacePrefix(ws[1..], s);
    } else {
      assert ws + s == s;
    }
  }

  lemma {:induction false} RStripWhitespaceSuffix(s: string, ws: string)
    requires AllWhitespace(ws)
    ensures RStrip(s + ws) == RStrip(s)
    decreases |ws|
  {
    if ws != [] {
      assert (s + ws)[..|s + ws| - 1] == s + ws[..|ws| - 1];
      RStripWhitespaceSuffix(s, ws[..|ws| - 1]);
    } else {
      assert s + ws == s;
    }
  }

  lemma {:induction false} LStripAppend(s: string, ws: string)
    requires AllWhitespace(ws)
    ensures LStrip(s + ws) == LStrip(s) + ws || (LStrip(s) == [] && LStrip(s + ws) == [])
    decreases |s|
  {
    if s == [] {
      assert s + ws == ws;
      LStripWhitespacePrefix(ws, "");
      assert ws + "" == ws;
    } else if IsPyWhitespace(s[0]) {
      assert (s + ws)[1..] == s[1..] + ws;
      LStripAppend(s[1..], ws);
    }
  }

  /** Whitespace around the text never changes what Strip returns. */
  lemma StripIgnoresPadding(pre: string, s: string, post: string)
    requires AllWhitespace(pre) && AllWhitespace(post)
    ensures Strip(pre + s + post) == Strip(s)
  {
    assert pre + s + post == pre + (s + post);
    LStripWhitespacePrefix(pre, s + post);
    LStripAppend(s, post);
    if LStrip(s + post) == LStrip(s) + post {
      RStripWhitespaceSuffix(LStrip(s), post);
    }
  }

  /** The decision chain of `test_case`, first match wins. */
  function Classify(exp: Expectation, act: Actual): Outcome
  {
    if act.code == ErrorExitCode then MemError
    else if act.code != exp.code then WrongCode(act.code, exp.code)
    else if Strip(act.stdout) != Strip(exp.stdout) then WrongOutput
    else Pass
  }

  /** A checker-reported fault wins over every expectation. */
  lemma ClassifyMemError(exp: Expectation, act: Actual)
    ensures Classify(exp, act) == MemError <==> act.code == ErrorExitCode
  {}

  /** A case passes exactly when the codes agree and the stripped outputs agree. */
  lemma ClassifyPass(exp: Expectation, act: Actual)
    requires exp.code != ErrorExitCode
    ensures Classify(exp, act) == Pass <==>
            act.code == exp.code && Strip(act.stdout) == Strip(exp.stdout)
  {}

  /** Leading and trailing whitespace in the captured output never changes the outcome. */
  lemma ClassifyIgnoresPadding(exp: Expectation, act: Actual, pre: string, post: string)
    requires AllWhitespace(pre) && AllWhitespace(post)
    ensures Classify(exp, act.(stdout := pre + act.stdout + post)) == Classify(exp, act)
  {
    StripIgnoresPadding(pre, act.stdout, post);
  }

  /**
   * Trimming is applied to the whole text only: a space before an inner
   * newline is still a difference.
   */
  lemma InnerSpaceStillDiffers()
    ensures Classify(Expectation(0, "hello\nworld"), Actual(0, "hello \nworld\n", ""))
            == WrongOutput
  {
    var a := "hello \nworld\n";
    var e := "hello\nworld";
    assert LStrip(a) == a;
    assert LStrip(e) == e;
    assert a[..|a| - 1] == "hello \nworld";
    assert RStrip(a) == RStrip("hello \nworld");
    assert Strip(a) == "hello \nworld";
    assert Strip(e) == e;
    assert Strip(a)[5] != Strip(e)[5];
  }

  /*
   * One case and the suite.
   */

  /** `test_case`: the outcome of one script, or the exception it raises. */
  function TestCase(s: Script, run: string -> Actual): Result<Outcome>
  {
    match GetExpected(ReadLines(s.text))
    case Raised(f) => Raised(f)
    case Ok(exp) =>
      if exp.code == ErrorExitCode then Raised(SentinelExpected)
      else Ok(Classify(exp, run(s.path)))
  }

  /** A declared expectation equal to the sentinel is refused before anything runs. */
  lemma TestCaseRefusesSentinel(s: Script, run: string -> Actual)
    requires GetExpected(ReadLines(s.text)).Ok?
    ensures TestCase(s, run).Raised? <==> GetExpected(ReadLines(s.text)).value.code == ErrorExitCode
  {}

  datatype Status = Completed | Exited(code: int) | Aborted(fault: Fault)

  /** `run_tests`: stop at the first case that does not pass. */
  function RunTests(scripts: seq<Script>, run: string -> Actual): Status
  {
    if scripts == [] then Completed
    else
      match TestCase(scripts[0], run)
      case Raised(f) => Aborted(f)
      case Ok(Pass) => RunTests(scripts[1..], run)
      case Ok(_) => Exited(1)
  }

  predicate Passes(s: Script, run: string -> Actual) { TestCase(s, run) == Ok(Pass) }

  /** The suite completes exactly when every case passes; the empty suite completes. */
  lemma {:induction false} RunTestsCompleted(scripts: seq<Script>, run: string -> Actual)
    ensures RunTests(scripts, run) == Completed <==>
            forall j :: 0 <= j < |scripts| ==> Passes(scripts[j], run)
  {
    if scripts != [] {
      RunTestsCompleted(scripts[1..], run);
      assert forall j :: 1 <= j < |scripts| ==> scripts[j] == scripts[1..][j - 1];
    }
  }

  /**
   * When case `k` is the first one that does not pass, the suite's status is
   * decided by that case alone and the cases after it are never looked at.
   */
  lemma {:induction false} RunTestsFailFast(scripts: seq<Script>, run: string -> Actual, k: nat)
    requires k < |scripts|
    requires forall j :: 0 <= j < k ==> Passes(scripts[j], run)
    requires !Passes(scripts[k], run)
    ensures RunTests(scripts, run) ==
            (match TestCase(scripts[k], run)
             case Raised(f) => Aborted(f)
             case Ok(_) => Exited(1))
    ensures RunTests(scripts, run) == RunTests(scripts[..k + 1], run)
  {
    var pre := scripts[..k + 1];
    assert pre[0] == scripts[0];
    if k > 0 {
      var rest := scripts[1..];
      forall j | 0 <= j < k - 1
        ensures Passes(rest[j], run)
      {
        assert rest[j] == scripts[j + 1];
      }
      assert rest[k - 1] == scripts[k];
      RunTestsFailFast(rest, run, k - 1);
      assert Passes(scripts[0], run);
      assert pre[1..] == rest[..k];
    }
  }
}
