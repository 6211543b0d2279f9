/**
 * The recursive-descent reader of parse.c.
 *
 * The C reader walks a NUL-terminated buffer with an integer index. Here the
 * buffer is a `string` and `At(s, i)` reads it, giving NUL at and past its
 * end, exactly where the C terminator sits. Every parser returns either the
 * value read (absent at end of input) with the index just past it, or an
 * error code with the index where the error was found.
 */
module Reader {
  import opened Values

  function At(s: string, i: nat): char
  {
    if i < |s| then s[i] else '\0'
  }

  /** `isspace` in the C locale. */
  predicate IsSpace(c: char)
  {
    c == ' ' || '\t' <= c <= '\r'
  }

  predicate IsDigit(c: char)
  {
    '0' <= c <= '9'
  }

  /*
   * Blanks: `skip_space_and_comments`.
   */

  function SkipSpaces(s: string, i: nat): (j: nat)
    requires i <= |s|
    ensures i <= j <= |s| && !IsSpace(At(s, j))
    decreases |s| - i
  {
    if IsSpace(At(s, i)) then SkipSpaces(s, i + 1) else i
  }

  lemma {:induction false} SkipSpacesPasses(s: string, i: nat, k: nat)
    requires i <= |s| && i <= k < SkipSpaces(s, i)
    ensures IsSpace(s[k])
    decreases |s| - i
  {
    if k > i {
      SkipSpacesPasses(s, i + 1, k);
    }
  }

  /** A comment runs up to, and not past, the next newline or the end of input. */
  function SkipComment(s: string, i: nat): (j: nat)
    requires i <= |s|
    ensures i <= j <= |s| && (At(s, j) == '\n' || At(s, j) == '\0')
    decreases |s| - i
  {
    if At(s, i) != '\0' && At(s, i) != '\n' then SkipComment(s, i + 1) else i
  }

  lemma {:induction false} SkipCommentPasses(s: string, i: nat, k: nat)
    requires i <= |s| && i <= k < SkipComment(s, i)
    ensures s[k] != '\n' && s[k] != '\0'
    decreases |s| - i
  {
    if k > i {
      SkipCommentPasses(s, i + 1, k);
    }
  }

  /** The first index at or after `i` that is neither whitespace nor inside a comment. */
  function Skip(s: string, i: nat): (j: nat)
    requires i <= |s|
    ensures i <= j <= |s|
    ensures !IsSpace(At(s, j)) && At(s, j) != ';'
    ensures !IsSpace(At(s, i)) && At(s, i) != ';' ==> j == i
    decreases |s| - i
  {
    var k := SkipSpaces(s, i);
    if At(s, k) == ';' then Skip(s, SkipComment(s, k)) else k
  }

  /** Skipping only passes whitespace and the text of comments, each of which starts at a ';'. */
  lemma {:induction false} SkipPassesBlanks(s: string, i: nat, k: nat)
    requires i <= |s| && i <= k < Skip(s, i)
    ensures IsSpace(s[k]) ||
            exists m :: i <= m <= k && s[m] == ';' && forall p :: m <= p <= k ==> s[p] != '\n'
    decreases |s| - i
  {
    var m := SkipSpaces(s, i);
    if k >= m {
      var c := SkipComment(s, m);
      if k < c {
        forall p | m <= p <= k ensures s[p] != '\n' {
          SkipCommentPasses(s, m, p);
        }
      } else {
        SkipPassesBlanks(s, c, k);
      }
    } else {
      SkipSpacesPasses(s, i, k);
    }
  }

  /*
   * String literals: `lisp_escape` and `lisp_parse_string`.
   */

  function Escape(c: char): char
  {
    match c
    case 'a' => '\U{7}'
    case 'b' => '\U{8}'
    case 'f' => '\U{C}'
    case 'n' => '\n'
    case 'r' => '\U{8}'
    case 't' => '\t'
    case 'v' => '\U{B}'
    case _ => c
  }

  datatype StrScan = StrOk(text: string, next: nat) | StrFail(at: nat)

  /**
   * The characters of a string literal from `j` (just inside the opening
   * quote) to the closing quote. A backslash takes the following character
   * through `Escape`; a backslash that is the last character of the input
   * is reported as an unterminated string (see `StringLoopAsWritten`).
   */
  function StringBody(s: string, j: nat): (r: StrScan)
    requires j <= |s|
    ensures r.StrOk? ==> j < r.next <= |s| && s[r.next - 1] == '"'
    ensures r.StrFail? ==> j <= r.at <= |s| && At(s, r.at) == '\0'
    decreases |s| - j
  {
    var c := At(s, j);
    if c == '\0' then StrFail(j)
    else if c == '"' then StrOk("", j + 1)
    else if c == '\\' then
      if At(s, j + 1) == '\0' then StrFail(j + 1)
      else match StringBody(s, j + 2)
        case StrOk(t, n) => StrOk([Escape(s[j + 1])] + t, n)
        case StrFail(a) => StrFail(a)
    else match StringBody(s, j + 1)
      case StrOk(t, n) => StrOk([c] + t, n)
      case StrFail(a) => StrFail(a)
  }

  /**
   * The index at which the C loop of `lisp_parse_string` stops, following
   * its reads exactly: after a backslash it always steps two characters.
   * `None` means the loop went on reading beyond the NUL terminator.
   */
  function StringLoopAsWritten(s: string, j: nat): (r: Option<nat>)
    requires j <= |s| + 1
    ensures r.Some? ==> j <= r.value <= |s|
    decreases |s| + 2 - j
  {
    if j > |s| then None
    else if At(s, j) == '\0' || At(s, j) == '"' then Some(j)
    else if At(s, j) == '\\' then StringLoopAsWritten(s, j + 2)
    else StringLoopAsWritten(s, j + 1)
  }

  /** The input `"\` (a quote, then a backslash) makes the C loop read past the terminator. */
  lemma BackslashAtEndOverruns()
    ensures StringLoopAsWritten("\"\\", 1) == None
  {
  }

  /** Where the C loop stays inside the buffer, `StringBody` stops where it does. */
  lemma {:induction false} StringBodyAgrees(s: string, j: nat)
    requires j <= |s| && StringLoopAsWritten(s, j).Some?
    requires '\0' !in s
    ensures StringBody(s, j).StrOk? ==> StringBody(s, j).next == StringLoopAsWritten(s, j).value + 1
    ensures StringBody(s, j).StrFail? ==> StringBody(s, j).at == StringLoopAsWritten(s, j).value
    decreases |s| - j
  {
    var c := At(s, j);
    if c == '\\' {
      if At(s, j + 1) == '\0' {
        assert false;
      } else {
        StringBodyAgrees(s, j + 2);
      }
    } else if c != '\0' && c != '"' {
      StringBodyAgrees(s, j + 1);
    }
  }

  datatype Parsed = Parsed(value: Option<Value>, next: nat) | Failed(errno: Errno, at: nat)

  /** `lisp_parse_string`, called at the opening quote. */
  function ParseString(s: string, i: nat): (r: Parsed)
    requires i < |s|
    ensures r.Parsed? ==> r.value.Some? && r.value.value.Str? && i < r.next <= |s|
    ensures r.Failed? ==> r.errno == LeSyntax && r.at <= |s|
  {
    match StringBody(s, i + 1)
    case StrOk(t, n) => Parsed(Some(Str(t)), n)
    case StrFail(a) => Failed(LeSyntax, a)
  }

  /**
   * A backslash and one character read as one character: the escape letters
   * `a b f n r t v` become the control characters with codes 7, 8, 12, 10,
   * 8, 9 and 11, anything else stands for itself. As written, `\r` reads as
   * the backspace (8) that `\b` gives, not as a carriage return (13).
   */
  lemma EscapedChar(c: char)
    requires c != '\0'
    ensures var r := ParseString(['"', '\\', c, '"'], 0);
      r.Parsed? && r.next == 4 && r.value.Some? && r.value.value.Str? && |r.value.value.text| == 1
      && (c !in "abfnrtv" ==> r.value.value.text[0] == c)
      && (c == 'a' ==> r.value.value.text[0] as int == 7)
      && (c == 'b' ==> r.value.value.text[0] as int == 8)
      && (c == 'f' ==> r.value.value.text[0] as int == 12)
      && (c == 'n' ==> r.value.value.text[0] as int == 10)
      && (c == 'r' ==> r.value.value.text[0] as int == 8)
      && (c == 't' ==> r.value.value.text[0] as int == 9)
      && (c == 'v' ==> r.value.value.text[0] as int == 11)
    ensures ParseString(['"', '\\', 'r', '"'], 0) == ParseString(['"', '\\', 'b', '"'], 0)
  {
    var s := ['"', '\\', c, '"'];
    assert StringBody(s, 3) == StrOk("", 4);
    assert StringBody(s, 1) == StrOk([Escape(c)], 4);
  }

  /*
   * Symbols and integers: `lisp_parse_symbol` and `lisp_parse_integer`.
   */

  predicate StopsSymbol(c: char)
  {
    c == '\0' || IsSpace(c) || c == ')' || c == '.' || c == '\'' || c == ';'
  }

  /** The length of the maximal run of symbol characters at `i`. */
  function SymbolRun(s: string, i: nat): (n: nat)
    requires i <= |s|
    ensures i + n <= |s| && StopsSymbol(At(s, i + n))
    ensures forall k :: i <= k < i + n ==> !StopsSymbol(s[k])
    decreases |s| - i
  {
    if StopsSymbol(At(s, i)) then 0 else 1 + SymbolRun(s, i + 1)
  }

  function ParseSymbol(s: string, i: nat): (r: Parsed)
    requires i <= |s|
    ensures r.Parsed? ==> r.value.Some? && r.value.value.Sym? && i <= r.next <= |s|
    ensures r.Parsed? ==> r.value.value.name == s[i..r.next]
    ensures r.Parsed? ==> StopsSymbol(At(s, r.next)) && forall k :: i <= k < r.next ==> !StopsSymbol(s[k])
    ensures r.Failed? <==> At(s, i) == '\0'
    ensures r.Failed? ==> r.errno == LeEof && r.at == i
  {
    var n := SymbolRun(s, i);
    if At(s, i) == '\0' then Failed(LeEof, i)
    else Parsed(Some(Sym(s[i..i + n])), i + n)
  }

  function DigitRun(s: string, i: nat): (n: nat)
    requires i <= |s|
    ensures i + n <= |s| && !IsDigit(At(s, i + n))
    decreases |s| - i
  {
    if IsDigit(At(s, i)) then 1 + DigitRun(s, i + 1) else 0
  }

  /** A digit run holds only digits. */
  lemma {:induction false} DigitRunDigits(s: string, i: nat)
    requires i <= |s|
    ensures forall k :: i <= k < i + DigitRun(s, i) ==> IsDigit(s[k])
    decreases |s| - i
  {
    if IsDigit(At(s, i)) {
      DigitRunDigits(s, i + 1);
    }
  }

  /** The number a string of decimal digits denotes, most significant first. */
  function DigitsValue(d: string): nat
    requires forall k :: 0 <= k < |d| ==> IsDigit(d[k])
  {
    if d == [] then 0 else 10 * DigitsValue(d[..|d| - 1]) + DigitOf(d[|d| - 1])
  }

  function DigitOf(c: char): (n: nat)
    requires IsDigit(c)
    ensures n < 10
  {
    c as int - '0' as int
  }

  /** `LONG_MAX` of a 64-bit C library. */
  const LongMax: int := 0x7FFF_FFFF_FFFF_FFFF

  /**
   * `sscanf("%d")` on a digit run: the glibc conversion saturates at
   * `LONG_MAX` and then stores the low 32 bits.
   */
  function ScanInt(d: string): (x: int)
    requires forall k :: 0 <= k < |d| ==> IsDigit(d[k])
    ensures IsInt32(x)
    ensures DigitsValue(d) <= IntMax ==> x == DigitsValue(d)
  {
    var v := DigitsValue(d);
    Wrap32(if v > LongMax then LongMax else v)
  }

  function ParseInteger(s: string, i: nat): (r: Parsed)
    requires i < |s| && IsDigit(s[i])
    ensures r.Parsed? && r.value.Some? && r.value.value.Int? && i < r.next <= |s|
    ensures IsInt32(r.value.value.x) && !IsDigit(At(s, r.next))
  {
    var n := DigitRun(s, i);
    DigitRunDigits(s, i);
    Parsed(Some(Int(ScanInt(s[i..i + n]))), i + n)
  }

  /*
   * Values, lists and quotes: `lisp_parse_value_internal`,
   * `lisp_parse_list_or_sexp` and `lisp_parse_quote`.
   */

  /**
   * What follows a dotted tail `. v`: the C reader returns right after `v`
   * and leaves the closing parenthesis unread (`LeaveParen`); `ConsumeParen`
   * is the corrected reading, which demands and consumes it.
   */
  datatype DotClose = LeaveParen | ConsumeParen

  predicate IsQuoteChar(c: char)
  {
    c == '\'' || c == '`' || c == ','
  }

  function QuoteName(c: char): string
    requires IsQuoteChar(c)
  {
    if c == '\'' then "quote" else if c == '`' then "quasiquote" else "unquote"
  }

  /**
   * One value after any blanks. No value at all (`None`) is returned only at
   * the end of input, and a value is read from at least one character unless
   * the blanks end at a '.', where an empty symbol is read from nothing.
   */
  function ParseValue(s: string, i: nat, dc: DotClose): (r: Parsed)
    requires i <= |s|
    ensures r.Parsed? ==> Skip(s, i) <= r.next <= |s|
    ensures r.Failed? ==> r.at <= |s|
    ensures r.Parsed? && r.value.None? <==> At(s, Skip(s, i)) == '\0'
    ensures r.Parsed? && r.value.None? ==> r.next == Skip(s, i)
    ensures r.Parsed? && At(s, Skip(s, i)) != '.' && At(s, Skip(s, i)) != '\0' ==> r.next > Skip(s, i)
    decreases |s| - i, 2
  {
    ParseAt(s, Skip(s, i), dc)
  }

  /** The value that starts at `j`, chosen by its first character. */
  function ParseAt(s: string, j: nat, dc: DotClose): (r: Parsed)
    requires j <= |s| && !IsSpace(At(s, j)) && At(s, j) != ';'
    ensures r.Parsed? ==> j <= r.next <= |s|
    ensures r.Failed? ==> r.at <= |s|
    ensures r.Parsed? && r.value.None? <==> At(s, j) == '\0'
    ensures r.Parsed? && r.value.None? ==> r.next == j
    ensures r.Parsed? && At(s, j) != '.' && At(s, j) != '\0' ==> r.next > j
    decreases |s| - j, 1
  {
    var c := At(s, j);
    if c == '"' then ParseString(s, j)
    else if c == '\0' then Parsed(None, j)
    else if c == ')' then Parsed(Some(Nil), j + 1)
    else if c == '(' then ParseList(s, j + 1, dc)
    else if IsQuoteChar(c) then ParseQuote(s, j, dc)
    else if IsDigit(c) then ParseInteger(s, j)
    else ParseSymbol(s, j)
  }

  /** A list after its opening parenthesis. */
  function ParseList(s: string, i: nat, dc: DotClose): (r: Parsed)
    requires i <= |s|
    ensures r.Parsed? ==> r.value.Some? && IsListValue(r.value.value) && i < r.next <= |s|
    ensures r.Failed? ==> r.at <= |s|
    decreases |s| - i, 4
  {
    var j := Skip(s, i);
    if At(s, j) == '\0' then Failed(LeEof, j)
    else if At(s, j) == ')' then Parsed(Some(Nil), j + 1)
    else
      match ParseValue(s, j, dc)
      case Failed(e, a) => Failed(e, a)
      case Parsed(None, k) => Failed(LeError, k)
      case Parsed(Some(v), k) =>
        match ListRest(s, k, dc)
        case Failed(e, a) => Failed(e, a)
        case Parsed(t, n) => Parsed(Some(Cons(v, t.value)), n)
  }

  predicate IsListValue(v: Value)
  {
    v.Nil? || v.Cons?
  }

  /** The rest of a list after an item: more items, `)`, or a dotted tail. */
  function ListRest(s: string, k: nat, dc: DotClose): (r: Parsed)
    requires k <= |s|
    ensures r.Parsed? ==> r.value.Some? && k < r.next <= |s|
    ensures r.Failed? ==> r.at <= |s|
    decreases |s| - k, 3
  {
    var j := Skip(s, k);
    if At(s, j) == '\0' then Failed(LeEof, j)
    else if At(s, j) == '.' then
      match ParseValue(s, j + 1, dc)
      case Failed(e, a) => Failed(e, a)
      case Parsed(None, n) => Failed(LeError, n)
      case Parsed(Some(t), n) =>
        if dc == LeaveParen then Parsed(Some(t), n)
        else
          var m := Skip(s, n);
          if At(s, m) == ')' then Parsed(Some(t), m + 1)
          else if At(s, m) == '\0' then Failed(LeEof, m)
          else Failed(LeSyntax, m)
    else if At(s, j) == ')' then Parsed(Some(Nil), j + 1)
    else
      match ParseValue(s, j, dc)
      case Failed(e, a) => Failed(e, a)
      case Parsed(None, n) => Failed(LeError, n)
      case Parsed(Some(v), n) =>
        match ListRest(s, n, dc)
        case Failed(e, a) => Failed(e, a)
        case Parsed(t, n2) => Parsed(Some(Cons(v, t.value)), n2)
  }

  /** A quote prefix at `i` and the value it applies to. */
  function ParseQuote(s: string, i: nat, dc: DotClose): (r: Parsed)
    requires i < |s| && IsQuoteChar(s[i])
    ensures r.Parsed? ==> r.value.Some? && i < r.next <= |s|
    ensures r.Parsed? ==> |Elements(r.value.value)| == 2 && Elements(r.value.value)[0] == Sym(QuoteName(s[i]))
    ensures r.Failed? ==> r.at <= |s|
    decreases |s| - i, 0
  {
    match ParseValue(s, i + 1, dc)
    case Failed(e, a) => Failed(e, a)
    case Parsed(None, n) => Failed(LeError, n)
    case Parsed(Some(v), n) => Parsed(Some(QuoteWith(v, QuoteName(s[i]))), n)
  }

  /*
   * The public entry points: `lisp_parse_value` and `lisp_parse_progn`.
   */

  /** `error_line` after a failure at `index`: one more than the newlines before it. */
  function ErrorLine(s: string, index: nat): (line: nat)
    requires index <= |s|
  {
    1 + multiset(s[..index])['\n']
  }

  /** `set_error_lineno`, the counting loop. */
  method SetErrorLine(s: string, index: nat) returns (line: nat)
    requires index <= |s|
    ensures line == ErrorLine(s, index)
    ensures line >= 1
  {
    line := 1;
    var i := 0;
    while i < index
      invariant i <= index
      invariant line == 1 + multiset(s[..i])['\n']
    {
      assert s[..i + 1] == s[..i] + [s[i]];
      if s[i] == '\n' {
        line := line + 1;
      }
      i := i + 1;
    }
  }

  datatype TopParse = TopOk(expr: Option<Value>, bytes: nat) | TopErr(errno: Errno, line: nat)

  /** `lisp_parse_value`: bytes consumed, or the error with its line number. */
  function ParseValueTop(s: string, index: nat, dc: DotClose): (r: TopParse)
    requires index <= |s|
    ensures r.TopOk? ==> index + r.bytes <= |s|
    ensures r.TopOk? && r.expr.None? <==> At(s, Skip(s, index)) == '\0'
    ensures r.TopErr? ==> r.line >= 1
  {
    match ParseValue(s, index, dc)
    case Parsed(v, n) => TopOk(v, n - index)
    case Failed(e, a) => TopErr(e, ErrorLine(s, a))
  }

  /**
   * At a '.' outside any list, one step of the C `lisp_parse_progn` loop
   * reads an empty symbol and advances the index by nothing, so the loop
   * repeats the same step for ever.
   */
  lemma StrayDotStalls()
    ensures ParseValueTop(".", 0, LeaveParen) == TopOk(Some(Sym("")), 0)
  {
    StrayDotReadsNothing(LeaveParen);
  }

  /** Whatever a dotted tail does with its `)`, a top-level `.` reads as an empty symbol from no input. */
  lemma StrayDotReadsNothing(dc: DotClose)
    ensures ParseValueTop(".", 0, dc) == TopOk(Some(Sym("")), 0)
  {
    assert Skip(".", 0) == 0;
    assert SymbolRun(".", 0) == 0;
  }

  /**
   * A dotted tail inside a list leaves its `)` unread in the C reader, so
   * that parenthesis closes the enclosing list too early.
   */
  lemma NestedDotMisread()
    ensures ParseValue("((a . b) c)", 0, LeaveParen)
            == Parsed(Some(Cons(Cons(Sym("a"), Sym("b")), Nil)), 8)
  {
    var s := "((a . b) c)";
    assert Skip(s, 0) == 0;
    assert ParseValue(s, 0, LeaveParen) == ParseList(s, 1, LeaveParen);
    OuterLeave();
  }

  lemma OuterLeave()
    ensures ParseList("((a . b) c)", 1, LeaveParen)
            == Parsed(Some(Cons(Cons(Sym("a"), Sym("b")), Nil)), 8)
  {
    var s := "((a . b) c)";
    InnerDotted(LeaveParen);
    assert Skip(s, 1) == 1;
    assert Skip(s, 7) == 7;
    assert ListRest(s, 7, LeaveParen) == Parsed(Some(Nil), 8);
  }

  /** The corrected reader reads the same text as the two-item list `((a . b) c)`. */
  lemma NestedDotRead()
    ensures ParseValue("((a . b) c)", 0, ConsumeParen)
            == Parsed(Some(Cons(Cons(Sym("a"), Sym("b")), Cons(Sym("c"), Nil))), 11)
  {
    var s := "((a . b) c)";
    assert Skip(s, 0) == 0;
    assert ParseValue(s, 0, ConsumeParen) == ParseList(s, 1, ConsumeParen);
    OuterConsume();
  }

  lemma OuterConsume()
    ensures ParseList("((a . b) c)", 1, ConsumeParen)
            == Parsed(Some(Cons(Cons(Sym("a"), Sym("b")), Cons(Sym("c"), Nil))), 11)
  {
    var s := "((a . b) c)";
    InnerDotted(ConsumeParen);
    TailC();
    assert Skip(s, 1) == 1;
  }

  lemma TailC()
    ensures ListRest("((a . b) c)", 8, ConsumeParen) == Parsed(Some(Cons(Sym("c"), Nil)), 11)
  {
    var s := "((a . b) c)";
    SymbolAt(s, 9, "c", ConsumeParen);
    assert SkipSpaces(s, 8) == 9 && Skip(s, 8) == 9;
    assert Skip(s, 10) == 10;
    assert ListRest(s, 10, ConsumeParen) == Parsed(Some(Nil), 11);
  }

  /** The inner `(a . b)`, which ends before or after its `)` by the reading. */
  lemma InnerDotted(dc: DotClose)
    ensures ParseValue("((a . b) c)", 1, dc)
            == Parsed(Some(Cons(Sym("a"), Sym("b"))), if dc == LeaveParen then 7 else 8)
  {
    var s := "((a . b) c)";
    assert Skip(s, 1) == 1;
    assert ParseValue(s, 1, dc) == ParseList(s, 2, dc);
    ListAB(dc);
  }

  lemma ListAB(dc: DotClose)
    ensures ParseList("((a . b) c)", 2, dc)
            == Parsed(Some(Cons(Sym("a"), Sym("b"))), if dc == LeaveParen then 7 else 8)
  {
    var s := "((a . b) c)";
    SymbolAt(s, 2, "a", dc);
    DottedTailB(dc);
    assert Skip(s, 2) == 2;
  }

  lemma DottedTailB(dc: DotClose)
    ensures ListRest("((a . b) c)", 3, dc) == Parsed(Some(Sym("b")), if dc == LeaveParen then 7 else 8)
  {
    var s := "((a . b) c)";
    SymbolAt(s, 6, "b", dc);
    assert SkipSpaces(s, 3) == 4 && Skip(s, 3) == 4;
    assert SkipSpaces(s, 5) == 6 && Skip(s, 5) == 6;
    assert ParseValue(s, 5, dc) == Parsed(Some(Sym("b")), 7);
    assert Skip(s, 7) == 7;
  }

  /** A one-character symbol `name` at `i`, followed by a character that ends it. */
  lemma SymbolAt(s: string, i: nat, name: string, dc: DotClose)
    requires i + 1 < |s| && s[i..i + 1] == name && StopsSymbol(s[i + 1]) && !StopsSymbol(s[i])
    requires !IsDigit(s[i]) && !IsQuoteChar(s[i]) && s[i] !in "\"()"
    ensures ParseValue(s, i, dc) == Parsed(Some(Sym(name)), i + 1)
  {
    assert Skip(s, i) == i;
    assert SymbolRun(s, i + 1) == 0;
  }

  datatype Program = Program(progn: Value) | ProgramError(errno: Errno, line: nat)

  /**
   * The expressions read one after another from `index` to the end of input,
   * in the corrected reader: a dotted tail consumes its `)`, and a step that
   * reads an expression from no input is a syntax error instead of a loop.
   */
  function ExpressionsFrom(s: string, index: nat): (r: Program)
    requires index <= |s|
    ensures r.Program? ==> IsProper(r.progn)
    decreases |s| - index
  {
    match ParseValueTop(s, index, ConsumeParen)
    case TopErr(e, line) => ProgramError(e, line)
    case TopOk(None, _) => Program(Nil)
    case TopOk(Some(v), b) =>
      if b == 0 then ProgramError(LeSyntax, ErrorLine(s, Skip(s, index)))
      else
        match ExpressionsFrom(s, index + b)
        case ProgramError(e, line) => ProgramError(e, line)
        case Program(rest) => Program(Cons(v, rest))
  }

  /** `lisp_parse_progn`: `(progn e1 ... en)` over every expression of the input. */
  function ParseProgn(s: string): (r: Program)
    ensures r.Program? ==> IsProper(r.progn) && r.progn.Cons? && r.progn.left == Sym("progn")
  {
    match ExpressionsFrom(s, 0)
    case ProgramError(e, line) => ProgramError(e, line)
    case Program(es) => Program(Cons(Sym("progn"), es))
  }

  /**
   * The program loop of `lisp_parse_progn` as written: a dotted tail leaves
   * its `)` unread, and a step that reads an expression from no input is
   * repeated for ever, which is `None`.
   */
  function ExpressionsAsWritten(s: string, index: nat): (r: Option<Program>)
    requires index <= |s|
    ensures r.Some? && r.value.Program? ==> IsProper(r.value.progn)
    decreases |s| - index
  {
    match ParseValueTop(s, index, LeaveParen)
    case TopErr(e, line) => Some(ProgramError(e, line))
    case TopOk(None, _) => Some(Program(Nil))
    case TopOk(Some(v), b) =>
      if b == 0 then None
      else
        match ExpressionsAsWritten(s, index + b)
        case None => None
        case Some(ProgramError(e, line)) => Some(ProgramError(e, line))
        case Some(Program(rest)) => Some(Program(Cons(v, rest)))
  }

  /** `lisp_parse_progn` as written; `None` when it never returns. */
  function ParsePrognAsWritten(s: string): (r: Option<Program>)
    ensures r.Some? && r.value.Program? ==>
      IsProper(r.value.progn) && r.value.progn.Cons? && r.value.progn.left == Sym("progn")
  {
    match ExpressionsAsWritten(s, 0)
    case None => None
    case Some(ProgramError(e, line)) => Some(ProgramError(e, line))
    case Some(Program(es)) => Some(Program(Cons(Sym("progn"), es)))
  }

  /*
   * The two readings differ only at a '.': on a text without one, every
   * value reads the same either way, and the program loop never stalls.
   */

  lemma {:induction false} ValueDotFree(s: string, i: nat)
    requires i <= |s| && '.' !in s
    ensures ParseValue(s, i, LeaveParen) == ParseValue(s, i, ConsumeParen)
    decreases |s| - i, 2
  {
    AtDotFree(s, Skip(s, i));
  }

  lemma {:induction false} AtDotFree(s: string, j: nat)
    requires j <= |s| && !IsSpace(At(s, j)) && At(s, j) != ';' && '.' !in s
    ensures ParseAt(s, j, LeaveParen) == ParseAt(s, j, ConsumeParen)
    decreases |s| - j, 1
  {
    var c := At(s, j);
    if c == '(' {
      ListDotFree(s, j + 1);
    } else if c != '"' && IsQuoteChar(c) {
      QuoteDotFree(s, j);
    }
  }

  lemma {:induction false} ListDotFree(s: string, i: nat)
    requires i <= |s| && '.' !in s
    ensures ParseList(s, i, LeaveParen) == ParseList(s, i, ConsumeParen)
    decreases |s| - i, 4
  {
    var j := Skip(s, i);
    if At(s, j) != '\0' && At(s, j) != ')' {
      ValueDotFree(s, j);
      if At(s, j) != '.' {
        match ParseValue(s, j, ConsumeParen)
        case Parsed(Some(_), k) => ListRestDotFree(s, k);
        case _ =>
      }
    }
  }

  lemma {:induction false} ListRestDotFree(s: string, k: nat)
    requires k <= |s| && '.' !in s
    ensures ListRest(s, k, LeaveParen) == ListRest(s, k, ConsumeParen)
    decreases |s| - k, 3
  {
    var j := Skip(s, k);
    if j < |s| {
      assert s[j] in s;
    }
    if At(s, j) != '\0' && At(s, j) != ')' {
      ValueDotFree(s, j);
      match ParseValue(s, j, ConsumeParen)
      case Parsed(Some(_), n) => ListRestDotFree(s, n);
      case _ =>
    }
  }

  lemma {:induction false} QuoteDotFree(s: string, i: nat)
    requires i < |s| && IsQuoteChar(s[i]) && '.' !in s
    ensures ParseQuote(s, i, LeaveParen) == ParseQuote(s, i, ConsumeParen)
    decreases |s| - i, 0
  {
    ValueDotFree(s, i + 1);
  }

  /** On a text without a '.', the program loop as written ends and reads what the corrected one reads. */
  lemma {:induction false} ExpressionsDotFree(s: string, index: nat)
    requires index <= |s| && '.' !in s
    ensures ExpressionsAsWritten(s, index) == Some(ExpressionsFrom(s, index))
    decreases |s| - index
  {
    ValueDotFree(s, index);
    var j := Skip(s, index);
    if j < |s| {
      assert s[j] in s;
    }
    var top := ParseValueTop(s, index, ConsumeParen);
    assert ParseValueTop(s, index, LeaveParen) == top;
    match top
    case TopErr(e, line) =>
      assert ExpressionsFrom(s, index) == ProgramError(e, line);
      assert ExpressionsAsWritten(s, index) == Some(ProgramError(e, line));
    case TopOk(None, _) =>
      assert ExpressionsFrom(s, index) == Program(Nil);
      assert ExpressionsAsWritten(s, index) == Some(Program(Nil));
    case TopOk(Some(v), b) =>
      assert b > 0;
      ExpressionsDotFree(s, index + b);
      ExpressionsAgreeStep(s, index, v, b);
  }

  /** A step that reads the same value either way keeps the two program loops in agreement. */
  lemma ExpressionsAgreeStep(s: string, index: nat, v: Value, b: nat)
    requires 0 < b && index + b <= |s|
    requires ParseValueTop(s, index, ConsumeParen) == TopOk(Some(v), b)
    requires ParseValueTop(s, index, LeaveParen) == TopOk(Some(v), b)
    requires ExpressionsAsWritten(s, index + b) == Some(ExpressionsFrom(s, index + b))
    ensures ExpressionsAsWritten(s, index) == Some(ExpressionsFrom(s, index))
  {
  }

  /** `lisp_parse_progn` as written agrees with the corrected reader on every text without a '.'. */
  lemma ParsePrognDotFree(s: string)
    requires '.' !in s
    ensures ParsePrognAsWritten(s) == Some(ParseProgn(s))
  {
    ExpressionsDotFree(s, 0);
  }

  /** As written, a program that is a stray `.` never finishes reading. */
  lemma StrayDotLoops()
    ensures ParsePrognAsWritten(".") == None
  {
    StrayDotReadsNothing(LeaveParen);
  }

  /** The corrected reader rejects a stray `.` on line 1 instead of looping. */
  lemma StrayDotRejected()
    ensures ParseProgn(".") == ProgramError(LeSyntax, 1)
  {
    StrayDotReadsNothing(ConsumeParen);
    assert "."[..0] == [];
  }
}
