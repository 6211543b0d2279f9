/**
 * A printer for the values the reader can produce, and the proof that the
 * reader reads each printed value back: integers in decimal, symbols as
 * their text, strings quoted with `"` and `\` escaped, and lists in
 * parentheses with a ` . ` before a non-list tail.
 *
 * The round trip is the reader's specification: it holds for the corrected
 * reading of dotted tails, and for the C reading only when no dotted tail
 * occurs (see `Reader.NestedDotMisread` for what goes wrong otherwise).
 */
module Unparse {
  import opened Values
  import opened Reader

  /** A symbol whose printed text the reader takes back as that symbol. */
  predicate PrintableSymbol(name: string)
  {
    && |name| > 0
    && (forall k :: 0 <= k < |name| ==> !StopsSymbol(name[k]))
    && name[0] != '"' && name[0] != '(' && !IsQuoteChar(name[0]) && !IsDigit(name[0])
  }

  predicate Printable(v: Value)
  {
    match v
    case Nil => true
    case Cons(l, r) => Printable(l) && Printable(r)
    case Int(x) => 0 <= x <= IntMax
    case Sym(name) => PrintableSymbol(name)
    case Str(t) => '\0' !in t
    case _ => false
  }

  /** No list in `v` ends in a dotted tail. */
  predicate DotFree(v: Value)
  {
    match v
    case Cons(l, r) => DotFree(l) && (r.Nil? || r.Cons?) && DotFree(r)
    case _ => true
  }

  function DigitChar(d: nat): (c: char)
    requires d < 10
    ensures IsDigit(c) && DigitOf(c) == d
  {
    ('0' as int + d) as char
  }

  function Decimal(x: nat): (d: string)
    ensures |d| > 0 && forall k :: 0 <= k < |d| ==> IsDigit(d[k])
  {
    if x < 10 then [DigitChar(x)] else Decimal(x / 10) + [DigitChar(x % 10)]
  }

  lemma {:induction false} DecimalValue(x: nat)
    ensures DigitsValue(Decimal(x)) == x
  {
    if x >= 10 {
      DecimalValue(x / 10);
      var d := Decimal(x);
      assert d[..|d| - 1] == Decimal(x / 10);
    }
  }

  /** A string's text with `"` and `\` preceded by a backslash. */
  function EscapeText(t: string): string
  {
    if t == [] then ""
    else if t[0] == '"' || t[0] == '\\' then ['\\', t[0]] + EscapeText(t[1..])
    else [t[0]] + EscapeText(t[1..])
  }

  function Print(v: Value): (u: string)
    requires Printable(v)
    ensures |u| > 0
    decreases v, 0
  {
    match v
    case Nil => "()"
    case Cons(l, r) => "(" + Print(l) + PrintTail(r)
    case Int(x) => Decimal(x)
    case Sym(name) => name
    case Str(t) => "\"" + EscapeText(t) + "\""
  }

  /** What follows a list item: more items, the closing `)`, or ` . tail)`. */
  function PrintTail(r: Value): (u: string)
    requires Printable(r)
    ensures |u| > 0
    decreases r, 1
  {
    match r
    case Nil => ")"
    case Cons(l, r2) => " " + Print(l) + PrintTail(r2)
    case _ => " . " + Print(r) + ")"
  }

  /** The text `u` sits in `s` from index `i`. */
  predicate Occurs(s: string, i: nat, u: string)
  {
    i + |u| <= |s| && forall k :: 0 <= k < |u| ==> s[i + k] == u[k]
  }

  lemma OccursSplit(s: string, i: nat, a: string, b: string)
    requires Occurs(s, i, a + b)
    ensures Occurs(s, i, a) && Occurs(s, i + |a|, b)
  {
    assert forall k :: 0 <= k < |a| ==> (a + b)[k] == a[k];
    assert forall k :: 0 <= k < |b| ==> (a + b)[|a| + k] == b[k];
  }

  /** The characters that may follow a printed value. */
  predicate Delimiter(c: char)
  {
    c == '\0' || c == ' ' || c == ')'
  }

  lemma {:induction false} SymbolRunExact(s: string, i: nat, n: nat)
    requires i + n <= |s| && StopsSymbol(At(s, i + n))
    requires forall k :: i <= k < i + n ==> !StopsSymbol(s[k])
    ensures SymbolRun(s, i) == n
    decreases n
  {
    if n > 0 {
      SymbolRunExact(s, i + 1, n - 1);
    }
  }

  lemma {:induction false} DigitRunExact(s: string, i: nat, n: nat)
    requires i + n <= |s| && !IsDigit(At(s, i + n))
    requires forall k :: i <= k < i + n ==> IsDigit(s[k])
    ensures DigitRun(s, i) == n
    decreases n
  {
    if n > 0 {
      DigitRunExact(s, i + 1, n - 1);
    }
  }

  lemma OccursAt(s: string, i: nat, u: string, m: nat)
    requires Occurs(s, i, u) && m < |u|
    ensures s[i + m] == u[m]
  {
  }

  /** The body of a string literal reads back the text it escapes. */
  lemma {:induction false} StringBodyEscaped(s: string, j: nat, t: string)
    requires '\0' !in t && Occurs(s, j, EscapeText(t) + "\"")
    ensures StringBody(s, j) == StrOk(t, j + |EscapeText(t)| + 1)
    decreases |t|
  {
    var e := EscapeText(t);
    if t == [] {
      OccursAt(s, j, e + "\"", 0);
    } else {
      var rest := EscapeText(t[1..]) + "\"";
      var a := if t[0] == '"' || t[0] == '\\' then ['\\', t[0]] else [t[0]];
      assert e + "\"" == a + rest;
      OccursSplit(s, j, a, rest);
      StringBodyEscaped(s, j + |a|, t[1..]);
      OccursAt(s, j, a, 0);
      if |a| == 2 {
        OccursAt(s, j, a, 1);
        EscapedStep(s, j, t[0]);
      } else {
        PlainStep(s, j);
      }
      assert [t[0]] + t[1..] == t;
    }
  }

  lemma PlainStep(s: string, j: nat)
    requires j < |s| && s[j] != '\0' && s[j] != '"' && s[j] != '\\'
    ensures StringBody(s, j + 1).StrOk? ==>
            StringBody(s, j) == StrOk([s[j]] + StringBody(s, j + 1).text, StringBody(s, j + 1).next)
  {
  }

  lemma EscapedStep(s: string, j: nat, c: char)
    requires j + 1 < |s| && s[j] == '\\' && s[j + 1] == c && (c == '"' || c == '\\')
    ensures StringBody(s, j + 2).StrOk? ==>
            StringBody(s, j) == StrOk([c] + StringBody(s, j + 2).text, StringBody(s, j + 2).next)
  {
  }

  /** The first character of printed text never begins a blank or a comment. */
  lemma PrintStart(v: Value)
    requires Printable(v)
    ensures var c := Print(v)[0];
      !IsSpace(c) && c != ';' && c != '\0' && c != '.' && c != ')'
  {
  }

  lemma PrintTailStart(r: Value)
    requires Printable(r)
    ensures PrintTail(r)[0] == ' ' || PrintTail(r)[0] == ')'
  {
  }

  lemma OccursSlice(s: string, i: nat, u: string)
    requires Occurs(s, i, u)
    ensures s[i..i + |u|] == u
  {
  }

  lemma AtDigit(s: string, i: nat, dc: DotClose)
    requires i < |s| && IsDigit(s[i])
    ensures ParseAt(s, i, dc) == ParseInteger(s, i)
  {
  }

  lemma AtSymbol(s: string, i: nat, dc: DotClose)
    requires i < |s| && !StopsSymbol(s[i])
    requires s[i] != '"' && s[i] != '(' && !IsQuoteChar(s[i]) && !IsDigit(s[i])
    ensures ParseAt(s, i, dc) == ParseSymbol(s, i)
  {
  }

  lemma AtQuote(s: string, i: nat, dc: DotClose)
    requires i < |s| && s[i] == '"'
    ensures ParseAt(s, i, dc) == ParseString(s, i)
  {
  }

  lemma AtOpen(s: string, i: nat, dc: DotClose)
    requires i < |s| && s[i] == '('
    ensures ParseAt(s, i, dc) == ParseList(s, i + 1, dc)
  {
  }

  lemma ReadInteger(s: string, i: nat, d: string, dc: DotClose)
    requires |d| > 0 && (forall k :: 0 <= k < |d| ==> IsDigit(d[k])) && DigitsValue(d) <= IntMax
    requires Occurs(s, i, d) && Delimiter(At(s, i + |d|))
    ensures !IsSpace(At(s, i)) && At(s, i) != ';'
    ensures ParseAt(s, i, dc) == Parsed(Some(Int(DigitsValue(d))), i + |d|)
  {
    forall k | i <= k < i + |d| ensures IsDigit(s[k]) {
      OccursAt(s, i, d, k - i);
    }
    AtDigit(s, i, dc);
    DigitRunExact(s, i, |d|);
    OccursSlice(s, i, d);
  }

  lemma ReadSymbol(s: string, i: nat, name: string, dc: DotClose)
    requires PrintableSymbol(name) && Occurs(s, i, name) && Delimiter(At(s, i + |name|))
    ensures !IsSpace(At(s, i)) && At(s, i) != ';'
    ensures ParseAt(s, i, dc) == Parsed(Some(Sym(name)), i + |name|)
  {
    forall k | i <= k < i + |name| ensures !StopsSymbol(s[k]) {
      OccursAt(s, i, name, k - i);
    }
    OccursAt(s, i, name, 0);
    AtSymbol(s, i, dc);
    SymbolRunExact(s, i, |name|);
    OccursSlice(s, i, name);
  }

  lemma ReadString(s: string, i: nat, t: string, dc: DotClose)
    requires '\0' !in t && Occurs(s, i, "\"" + EscapeText(t) + "\"")
    ensures !IsSpace(At(s, i)) && At(s, i) != ';'
    ensures ParseAt(s, i, dc) == Parsed(Some(Str(t)), i + |EscapeText(t)| + 2)
  {
    assert "\"" + EscapeText(t) + "\"" == "\"" + (EscapeText(t) + "\"");
    OccursSplit(s, i, "\"", EscapeText(t) + "\"");
    OccursAt(s, i, "\"", 0);
    AtQuote(s, i, dc);
    StringBodyEscaped(s, i + 1, t);
  }

  /**
   * The reader reads a printed value back from wherever it sits, provided
   * a delimiter follows it.
   */
  lemma {:induction false} ReadPrinted(s: string, i: nat, v: Value, dc: DotClose)
    requires Printable(v) && (dc == ConsumeParen || DotFree(v))
    requires Occurs(s, i, Print(v)) && Delimiter(At(s, i + |Print(v)|))
    ensures ParseValue(s, i, dc) == Parsed(Some(v), i + |Print(v)|)
    decreases v, 3
  {
    PrintStart(v);
    OccursAt(s, i, Print(v), 0);
    assert Skip(s, i) == i;
    ReadPrintedAt(s, i, v, dc);
  }

  lemma {:induction false} ReadPrintedAt(s: string, i: nat, v: Value, dc: DotClose)
    requires Printable(v) && (dc == ConsumeParen || DotFree(v))
    requires Occurs(s, i, Print(v)) && Delimiter(At(s, i + |Print(v)|))
    requires !IsSpace(At(s, i)) && At(s, i) != ';'
    ensures ParseAt(s, i, dc) == Parsed(Some(v), i + |Print(v)|)
    decreases v, 2
  {
    if v.Cons? {
      ReadCons(s, i, v.left, v.right, dc);
    } else if v.Nil? {
      ReadNil(s, i, dc);
    } else {
      ReadAtom(s, i, v, dc);
    }
  }

  lemma ReadNil(s: string, i: nat, dc: DotClose)
    requires Occurs(s, i, Print(Nil))
    ensures !IsSpace(At(s, i)) && At(s, i) != ';'
    ensures ParseAt(s, i, dc) == Parsed(Some(Nil), i + |Print(Nil)|)
  {
    assert Print(Nil) == "()";
    OccursAt(s, i, "()", 0);
    OccursAt(s, i, "()", 1);
    AtOpen(s, i, dc);
    assert Skip(s, i + 1) == i + 1;
  }

  lemma ReadAtom(s: string, i: nat, v: Value, dc: DotClose)
    requires Printable(v) && !v.Nil? && !v.Cons?
    requires Occurs(s, i, Print(v)) && Delimiter(At(s, i + |Print(v)|))
    ensures !IsSpace(At(s, i)) && At(s, i) != ';'
    ensures ParseAt(s, i, dc) == Parsed(Some(v), i + |Print(v)|)
  {
    match v
    case Int(x) =>
      assert Print(v) == Decimal(x);
      DecimalValue(x);
      ReadInteger(s, i, Decimal(x), dc);
    case Sym(name) =>
      assert Print(v) == name;
      ReadSymbol(s, i, name, dc);
    case Str(t) =>
      assert Print(v) == "\"" + EscapeText(t) + "\"";
      ReadString(s, i, t, dc);
  }

  lemma {:induction false} ReadCons(s: string, i: nat, l: Value, r: Value, dc: DotClose)
    requires Printable(Cons(l, r)) && (dc == ConsumeParen || DotFree(Cons(l, r)))
    requires Occurs(s, i, Print(Cons(l, r)))
    requires !IsSpace(At(s, i)) && At(s, i) != ';'
    ensures ParseAt(s, i, dc) == Parsed(Some(Cons(l, r)), i + |Print(Cons(l, r))|)
    decreases Cons(l, r), 1
  {
    ConsLayout(s, i, l, r);
    var n := i + 1 + |Print(l)|;
    var m := n + |PrintTail(r)|;
    assert m == i + |Print(Cons(l, r))|;
    ReadPrinted(s, i + 1, l, dc);
    ReadPrintedTail(s, n, r, dc);
    ListOfItemAndRest(s, i, l, r, n, m, dc);
  }

  lemma ConsLayout(s: string, i: nat, l: Value, r: Value)
    requires Printable(Cons(l, r)) && Occurs(s, i, Print(Cons(l, r)))
    ensures Occurs(s, i + 1, Print(l)) && Occurs(s, i + 1 + |Print(l)|, PrintTail(r))
    ensures Delimiter(At(s, i + 1 + |Print(l)|))
    ensures |Print(Cons(l, r))| == 1 + |Print(l)| + |PrintTail(r)|
    ensures s[i] == '(' && !IsSpace(s[i + 1]) && s[i + 1] != ';' && s[i + 1] != ')' && s[i + 1] != '\0'
  {
    var pl := Print(l);
    var pt := PrintTail(r);
    assert Print(Cons(l, r)) == "(" + pl + pt;
    Layout(s, i, "(", pl, pt);
    PrintStart(l);
    PrintTailStart(r);
  }

  /** Where the three parts of `a + b + c` sit, and their first characters. */
  lemma Layout(s: string, i: nat, a: string, b: string, c: string)
    requires Occurs(s, i, a + b + c) && |a| > 0 && |b| > 0 && |c| > 0
    ensures Occurs(s, i, a) && Occurs(s, i + |a|, b) && Occurs(s, i + |a| + |b|, c)
    ensures s[i] == a[0] && s[i + |a|] == b[0] && s[i + |a| + |b|] == c[0]
  {
    assert a + b + c == a + (b + c);
    OccursSplit(s, i, a, b + c);
    OccursSplit(s, i + |a|, b, c);
    OccursAt(s, i, a, 0);
    OccursAt(s, i + |a|, b, 0);
    OccursAt(s, i + |a| + |b|, c, 0);
  }

  /** A list whose first item is read from `i + 1` up to `n` and whose rest is read from `n` up to `m`. */
  lemma ListOfItemAndRest(s: string, i: nat, l: Value, r: Value, n: nat, m: nat, dc: DotClose)
    requires i + 1 < |s| && n <= |s| && s[i] == '('
    requires !IsSpace(s[i + 1]) && s[i + 1] != ';' && s[i + 1] != ')' && s[i + 1] != '\0'
    requires ParseValue(s, i + 1, dc) == Parsed(Some(l), n)
    requires ListRest(s, n, dc) == Parsed(Some(r), m)
    ensures ParseAt(s, i, dc) == Parsed(Some(Cons(l, r)), m)
  {
    AtOpen(s, i, dc);
    assert Skip(s, i + 1) == i + 1;
  }

  /** The reader reads a printed list tail back, up to and including its `)`. */
  lemma {:induction false} ReadPrintedTail(s: string, k: nat, r: Value, dc: DotClose)
    requires Printable(r) && (dc == ConsumeParen || (DotFree(r) && (r.Nil? || r.Cons?)))
    requires Occurs(s, k, PrintTail(r))
    ensures ListRest(s, k, dc) == Parsed(Some(r), k + |PrintTail(r)|)
    decreases r, 5
  {
    if r.Cons? {
      ReadTailItem(s, k, r.left, r.right, dc);
    } else if r.Nil? {
      assert PrintTail(r) == ")";
      OccursAt(s, k, ")", 0);
      assert Skip(s, k) == k;
    } else {
      ReadTailDotted(s, k, r, dc);
    }
  }

  lemma {:induction false} ReadTailItem(s: string, k: nat, l: Value, r2: Value, dc: DotClose)
    requires Printable(Cons(l, r2)) && (dc == ConsumeParen || DotFree(Cons(l, r2)))
    requires Occurs(s, k, PrintTail(Cons(l, r2)))
    ensures ListRest(s, k, dc) == Parsed(Some(Cons(l, r2)), k + |PrintTail(Cons(l, r2))|)
    decreases Cons(l, r2), 4
  {
    ItemLayout(s, k, l, r2);
    var n := k + 1 + |Print(l)|;
    var m := n + |PrintTail(r2)|;
    ReadPrinted(s, k + 1, l, dc);
    ReadPrintedTail(s, n, r2, dc);
    ItemThenRest(s, k, l, r2, n, m, dc);
  }

  lemma ItemLayout(s: string, k: nat, l: Value, r2: Value)
    requires Printable(Cons(l, r2)) && Occurs(s, k, PrintTail(Cons(l, r2)))
    ensures Occurs(s, k + 1, Print(l)) && Occurs(s, k + 1 + |Print(l)|, PrintTail(r2))
    ensures Delimiter(At(s, k + 1 + |Print(l)|))
    ensures |PrintTail(Cons(l, r2))| == 1 + |Print(l)| + |PrintTail(r2)|
    ensures k + 1 < |s| && s[k] == ' '
    ensures !IsSpace(s[k + 1]) && s[k + 1] != ';' && s[k + 1] != '.' && s[k + 1] != ')' && s[k + 1] != '\0'
  {
    var pl := Print(l);
    var pt := PrintTail(r2);
    assert PrintTail(Cons(l, r2)) == " " + pl + pt;
    Layout(s, k, " ", pl, pt);
    PrintStart(l);
    PrintTailStart(r2);
  }

  lemma {:induction false} ReadTailDotted(s: string, k: nat, r: Value, dc: DotClose)
    requires Printable(r) && !r.Nil? && !r.Cons? && dc == ConsumeParen
    requires Occurs(s, k, PrintTail(r))
    ensures ListRest(s, k, dc) == Parsed(Some(r), k + |PrintTail(r)|)
    decreases r, 4
  {
    DottedLayout(s, k, r);
    var n := k + 3 + |Print(r)|;
    ReadPrinted(s, k + 3, r, dc);
    DottedThenClose(s, k, r, n, dc);
  }

  lemma DottedLayout(s: string, k: nat, r: Value)
    requires Printable(r) && !r.Nil? && !r.Cons?
    requires Occurs(s, k, PrintTail(r))
    ensures Occurs(s, k + 3, Print(r)) && |PrintTail(r)| == |Print(r)| + 4
    ensures k + 3 + |Print(r)| < |s| && s[k + 3 + |Print(r)|] == ')'
    ensures Delimiter(At(s, k + 3 + |Print(r)|))
    ensures s[k] == ' ' && s[k + 1] == '.' && s[k + 2] == ' '
  {
    var pr := Print(r);
    assert PrintTail(r) == " . " + pr + ")";
    Layout(s, k, " . ", pr, ")");
    OccursAt(s, k, " . ", 1);
    OccursAt(s, k, " . ", 2);
  }

  /** A list tail that is one item read from `k + 1` followed by the rest of the list. */
  lemma ItemThenRest(s: string, k: nat, l: Value, r2: Value, n: nat, m: nat, dc: DotClose)
    requires k + 1 < |s| && n <= |s| && s[k] == ' '
    requires !IsSpace(s[k + 1]) && s[k + 1] != ';' && s[k + 1] != '.' && s[k + 1] != ')' && s[k + 1] != '\0'
    requires ParseValue(s, k + 1, dc) == Parsed(Some(l), n)
    requires ListRest(s, n, dc) == Parsed(Some(r2), m)
    ensures ListRest(s, k, dc) == Parsed(Some(Cons(l, r2)), m)
  {
    assert SkipSpaces(s, k) == k + 1;
    assert Skip(s, k) == k + 1;
  }

  /** A dotted tail ` . v)` whose value `v` is read from `k + 2` up to `n`, where the `)` sits. */
  lemma DottedThenClose(s: string, k: nat, r: Value, n: nat, dc: DotClose)
    requires k + 2 <= n < |s| && s[k] == ' ' && s[k + 1] == '.' && s[k + 2] == ' ' && s[n] == ')'
    requires ParseValue(s, k + 3, dc) == Parsed(Some(r), n)
    requires dc == ConsumeParen
    ensures ListRest(s, k, dc) == Parsed(Some(r), n + 1)
  {
    assert SkipSpaces(s, k) == k + 1;
    assert Skip(s, k) == k + 1;
    assert SkipSpaces(s, k + 2) == SkipSpaces(s, k + 3);
    assert Skip(s, k + 2) == Skip(s, k + 3);
    assert ParseValue(s, k + 2, dc) == ParseValue(s, k + 3, dc);
    assert Skip(s, n) == n;
  }

  /**
   * `lisp_parse_value` reads the printout of any printable value back as
   * that value, consuming all of it; the C reading of dotted tails does so
   * for values without one.
   */
  lemma ReadBack(v: Value, dc: DotClose)
    requires Printable(v) && (dc == ConsumeParen || DotFree(v))
    ensures ParseValueTop(Print(v), 0, dc) == TopOk(Some(v), |Print(v)|)
  {
    var s := Print(v);
    assert Occurs(s, 0, s);
    ReadPrinted(s, 0, v, dc);
  }

  /** Expressions printed one after another, each after a space. */
  function Joined(es: seq<Value>): (u: string)
    requires forall k :: 0 <= k < |es| ==> Printable(es[k])
  {
    if es == [] then "" else " " + Print(es[0]) + Joined(es[1..])
  }

  /**
   * A program text made of printed expressions is read as exactly those
   * expressions, in order.
   */
  lemma {:induction false} ExpressionsOfJoined(s: string, i: nat, es: seq<Value>)
    requires forall k :: 0 <= k < |es| ==> Printable(es[k])
    requires Occurs(s, i, Joined(es)) && i + |Joined(es)| == |s|
    ensures ExpressionsFrom(s, i) == Program(FromSeq(es))
    decreases |es|
  {
    if es == [] {
      assert i == |s|;
      assert Skip(s, i) == i;
    } else {
      var e, rest := es[0], es[1..];
      var n := i + 1 + |Print(e)|;
      JoinedLayout(s, i, es);
      ReadPrinted(s, i + 1, e, ConsumeParen);
      SkipOneSpace(s, i, ConsumeParen);
      assert ParseValueTop(s, i, ConsumeParen) == TopOk(Some(e), n - i);
      forall k | 0 <= k < |rest|
        ensures Printable(rest[k])
      {
        assert rest[k] == es[k + 1];
      }
      ExpressionsOfJoined(s, n, rest);
      ExpressionsStep(s, i, e, n);
      assert FromSeq(es) == Cons(e, FromSeq(rest));
    }
  }

  /** One step of `ExpressionsFrom`: a value read from some input, then the rest. */
  lemma ExpressionsStep(s: string, i: nat, e: Value, j: nat)
    requires i < j <= |s| && ParseValueTop(s, i, ConsumeParen) == TopOk(Some(e), j - i)
    requires ExpressionsFrom(s, j).Program?
    ensures ExpressionsFrom(s, i) == Program(Cons(e, ExpressionsFrom(s, j).progn))
  {
  }

  lemma JoinedLayout(s: string, i: nat, es: seq<Value>)
    requires forall k :: 0 <= k < |es| ==> Printable(es[k])
    requires es != [] && Occurs(s, i, Joined(es)) && i + |Joined(es)| == |s|
    ensures Occurs(s, i + 1, Print(es[0])) && s[i] == ' '
    ensures Occurs(s, i + 1 + |Print(es[0])|, Joined(es[1..]))
    ensures i + 1 + |Print(es[0])| + |Joined(es[1..])| == |s|
    ensures Delimiter(At(s, i + 1 + |Print(es[0])|))
  {
    var p := Print(es[0]);
    var rest := Joined(es[1..]);
    assert Joined(es) == " " + p + rest;
    OccursSplit(s, i, " " + p, rest);
    OccursSplit(s, i, " ", p);
    OccursAt(s, i, " ", 0);
    if rest != [] {
      OccursAt(s, i + 1 + |p|, rest, 0);
    }
  }

  /** A single space before a value is skipped. */
  lemma SkipOneSpace(s: string, i: nat, dc: DotClose)
    requires i + 1 < |s| && s[i] == ' '
    ensures ParseValue(s, i, dc) == ParseValue(s, i + 1, dc)
  {
    assert SkipSpaces(s, i) == SkipSpaces(s, i + 1);
    assert Skip(s, i) == Skip(s, i + 1);
  }

  /** `lisp_parse_progn` over printed expressions wraps exactly those expressions. */
  lemma ParseProgramBack(es: seq<Value>)
    requires forall k :: 0 <= k < |es| ==> Printable(es[k])
    ensures ParseProgn(Joined(es)) == Program(Cons(Sym("progn"), FromSeq(es)))
  {
    var s := Joined(es);
    assert Occurs(s, 0, s);
    ExpressionsOfJoined(s, 0, es);
  }
}
