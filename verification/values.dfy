/**
 * The interpreter's values and the list helpers every other component uses
 * (util.c): list length and properness, the argument-format validator, the
 * error-name table, truthiness and quoting.
 *
 * A C `lisp_list` cell whose `left` and `right` are both NULL is the empty
 * list; here it is the constructor `Nil`, and every other list cell is a
 * `Cons`. Scopes live in an environment (see module Scopes) and values refer
 * to them by id.
 */
module Values {

  datatype Option<T> = None | Some(value: T)

  /** `enum lisp_errno`, in the order of the `lisp_error_name` table. */
  datatype Errno =
    | LeNone | LeError | LeEof | LeSyntax | LeFError | Le2Many | Le2Few
    | LeType | LeNoCall | LeNoEval | LeNotFound | LeExit | LeAssert | LeValue

  /** The type objects `type_type`, `type_scope`, ... a value can point to. */
  datatype Tag = TType | TScope | TList | TSymbol | TInteger | TString | TBuiltin | TLambda

  datatype LambdaKind = TpLambda | TpMacro

  datatype Value =
    | Nil
    | Cons(left: Value, right: Value)
    | Int(x: int)
    | Sym(name: string)
    | Str(text: string)
    | Builtin(bname: string, evald: bool)
    | Lambda(kind: LambdaKind, args: Value, code: Value, closure: nat, firstBinding: Option<string>)
    | ScopeRef(id: nat)
    | TypeObj(tag: Tag)

  function TypeOf(v: Value): Tag
  {
    match v
    case Nil => TList
    case Cons(_, _) => TList
    case Int(_) => TInteger
    case Sym(_) => TSymbol
    case Str(_) => TString
    case Builtin(_, _) => TBuiltin
    case Lambda(_, _, _, _, _) => TLambda
    case ScopeRef(_) => TScope
    case TypeObj(_) => TType
  }

  /*
   * C `int` arithmetic, with the two's-complement wrap-around of the machine.
   */

  const IntMin: int := -0x8000_0000
  const IntMax: int := 0x7FFF_FFFF

  predicate IsInt32(x: int) { IntMin <= x <= IntMax }

  /** Reduce a mathematical integer to the 32-bit `int` with the same low bits. */
  function Wrap32(x: int): (r: int)
    ensures IsInt32(r)
    ensures (r - x) % 0x1_0000_0000 == 0
    ensures IsInt32(x) ==> r == x
  {
    var m := x % 0x1_0000_0000;
    if m > IntMax then m - 0x1_0000_0000 else m
  }

  /*
   * Remainders (`%` is Euclidean: never negative for a positive divisor).
   */

  /** Reducing the left operand first does not change the remainder of a sum. */
  lemma ModAddLeft(a: int, b: int, n: int)
    requires n > 0
    ensures (a % n + b) % n == (a + b) % n
  {
    var q := a / n;
    assert a + b == (a % n + b) + q * n;
    ModShift(a % n + b, q, n);
  }

  /** Adding a multiple of `n` does not change the remainder. */
  lemma ModShift(x: int, q: int, n: int)
    requires n > 0
    ensures (x + q * n) % n == x % n
  {
    var a := x / n;
    assert x == a * n + x % n;
    assert x + q * n == (a + q) * n + x % n;
    ModUnique(x + q * n, a + q, x % n, n);
  }

  /** The remainder is the only `r` in `[0, n)` with `y == a * n + r`. */
  lemma ModUnique(y: int, a: int, r: int, n: int)
    requires n > 0 && 0 <= r < n && y == a * n + r
    ensures y % n == r
  {
    var q := y / n;
    assert y == q * n + y % n;
    var d := a - q;
    assert d * n == a * n - q * n;
    assert d * n == y % n - r;
    if d >= 1 {
      MulAtLeast(d, n);
    } else if d <= -1 {
      MulAtLeast(-d, n);
    }
  }

  lemma MulAtLeast(d: int, n: int)
    requires d >= 1 && n > 0
    ensures d * n >= n
  {
  }

  /*
   * Lists. `lisp_for_each` walks `right` while the value is a non-nil list.
   */

  /** The items on the spine of a list (nothing for a non-list). */
  function Elements(v: Value): seq<Value>
  {
    if v.Cons? then [v.left] + Elements(v.right) else []
  }

  /** What the spine ends in: `Nil` for a proper list. */
  function SpineEnd(v: Value): (e: Value)
    ensures !e.Cons?
  {
    if v.Cons? then SpineEnd(v.right) else v
  }

  predicate IsProper(v: Value)
  {
    v.Nil? || (v.Cons? && IsProper(v.right))
  }

  /** The list holding `xs` in order. */
  function FromSeq(xs: seq<Value>): (v: Value)
    ensures IsProper(v)
  {
    if xs == [] then Nil else Cons(xs[0], FromSeq(xs[1..]))
  }

  /** `FromSeq` and `Elements` are inverse on proper lists. */
  lemma {:induction false} FromSeqElements(xs: seq<Value>)
    ensures Elements(FromSeq(xs)) == xs
    ensures IsProper(FromSeq(xs))
  {
    if xs != [] {
      FromSeqElements(xs[1..]);
    }
  }

  lemma {:induction false} ElementsFromSeq(v: Value)
    requires IsProper(v)
    ensures FromSeq(Elements(v)) == v
  {
    if v.Cons? {
      ElementsFromSeq(v.right);
      assert Elements(v)[1..] == Elements(v.right);
    }
  }

  /** `lisp_list_length`: the number of cells on the spine. */
  method ListLength(list: Value) returns (n: nat)
    ensures n == |Elements(list)|
  {
    n := 0;
    var l := list;
    while l.Cons?
      invariant n + |Elements(l)| == |Elements(list)|
      decreases l
    {
      n := n + 1;
      l := l.right;
    }
  }

  /** `lisp_is_bad_list`: not a list, or a spine that ends in something other than nil. */
  predicate IsBadList(v: Value)
  {
    TypeOf(v) != TList || TypeOf(SpineEnd(v)) != TList
  }

  /** A value is a bad list exactly when it is not a proper list. */
  lemma {:induction false} IsBadListIffImproper(v: Value)
    ensures IsBadList(v) <==> !IsProper(v)
  {
    if v.Cons? {
      IsBadListIffImproper(v.right);
      assert SpineEnd(v) == SpineEnd(v.right);
    }
  }

  /** The suffix of a list after its first `k` cells. */
  function Drop(v: Value, k: nat): Value
  {
    if k == 0 || !v.Cons? then v else Drop(v.right, k - 1)
  }

  /*
   * `lisp_get_args`: match a list against a format string.
   */

  /** `lisp_get_type`: the type a format character demands, if any. */
  function FormatType(c: char): Option<Tag>
  {
    match c
    case 'd' => Some(TInteger)
    case 'l' => Some(TList)
    case 's' => Some(TSymbol)
    case 'S' => Some(TString)
    case 'o' => Some(TScope)
    case 'b' => Some(TBuiltin)
    case 't' => Some(TType)
    case _ => None
  }

  predicate Accepts(c: char, v: Value)
  {
    FormatType(c).None? || FormatType(c).value == TypeOf(v)
  }

  datatype Args = Bound(values: seq<Value>) | ArgsError(errno: Errno)

  /**
   * The values bound to the format's characters, in order; an `R` binds the
   * rest of the list (which is never empty there) and ends the match.
   */
  function GetArgs(list: Value, format: string): (r: Args)
    requires IsProper(list)
    ensures r.Bound? && 'R' !in format ==> r.values == Elements(list)
    ensures r.Bound? ==> |r.values| <= |format|
    ensures r.ArgsError? ==> r.errno in {LeType, Le2Few, Le2Many}
    decreases format
  {
    if list.Nil? || format == [] then
      if format != [] then ArgsError(Le2Few)
      else if !list.Nil? then ArgsError(Le2Many)
      else Bound([])
    else if format[0] == 'R' then Bound([list])
    else if !Accepts(format[0], list.left) then ArgsError(LeType)
    else
      match GetArgs(list.right, format[1..])
      case Bound(vs) => Bound([list.left] + vs)
      case ArgsError(e) => ArgsError(e)
  }

  predicate NoRest(format: string) { 'R' !in format }

  predicate AllAccepted(format: string, xs: seq<Value>)
    requires |format| <= |xs|
  {
    forall i :: 0 <= i < |format| ==> Accepts(format[i], xs[i])
  }

  /**
   * Without `R`, a list is accepted exactly when it has one item per format
   * character and every item has the demanded type.
   */
  lemma {:induction false} GetArgsExact(list: Value, format: string)
    requires IsProper(list) && NoRest(format)
    ensures GetArgs(list, format).Bound? <==>
            |format| == |Elements(list)| && AllAccepted(format, Elements(list))
    decreases format
  {
    if !list.Nil? && format != [] {
      GetArgsExact(list.right, format[1..]);
      var e := Elements(list);
      assert e[1..] == Elements(list.right);
      if |format| == |e| && AllAccepted(format, e) {
        assert Accepts(format[0], e[0]);
        assert AllAccepted(format[1..], e[1..]) by {
          forall i | 0 <= i < |format[1..]| ensures Accepts(format[1..][i], e[1..][i]) {
            assert format[1..][i] == format[i + 1];
          }
        }
      }
      if GetArgs(list, format).Bound? {
        assert AllAccepted(format, e) by {
          forall i | 0 <= i < |format| ensures Accepts(format[i], e[i]) {
            if i > 0 { assert format[i] == format[1..][i - 1]; }
          }
        }
      }
    }
  }

  /** A format of `*` characters only binds a list of as many items, unchanged. */
  lemma GetArgsAny(xs: seq<Value>, format: string)
    requires |format| == |xs| && forall i :: 0 <= i < |format| ==> format[i] == '*'
    ensures GetArgs(FromSeq(xs), format) == Bound(xs)
  {
    FromSeqElements(xs);
    assert NoRest(format) by {
      assert forall i :: 0 <= i < |format| ==> format[i] != 'R';
    }
    GetArgsExact(FromSeq(xs), format);
    assert AllAccepted(format, xs) by {
      forall i | 0 <= i < |format| ensures Accepts(format[i], xs[i]) {
        assert format[i] == '*';
      }
    }
  }

  /**
   * Without `R`, and with every item the format covers of the right type:
   * leftover format characters give `LE_2FEW`, leftover items `LE_2MANY`.
   */
  lemma {:induction false} GetArgsCount(list: Value, format: string)
    requires IsProper(list) && NoRest(format)
    requires |format| <= |Elements(list)| ==> AllAccepted(format, Elements(list))
    requires |format| > |Elements(list)| ==>
             AllAccepted(format[..|Elements(list)|], Elements(list))
    ensures |format| > |Elements(list)| ==> GetArgs(list, format) == ArgsError(Le2Few)
    ensures |format| < |Elements(list)| ==> GetArgs(list, format) == ArgsError(Le2Many)
    decreases format
  {
    var e := Elements(list);
    if !list.Nil? && format != [] {
      assert e[1..] == Elements(list.right);
      assert Accepts(format[0], e[0]) by {
        if |format| > |e| { assert format[..|e|][0] == format[0]; }
      }
      if |format| > |e| {
        assert format[1..][..|e| - 1] == format[..|e|][1..];
        assert AllAccepted(format[1..][..|e| - 1], e[1..]) by {
          forall i | 0 <= i < |e| - 1 ensures Accepts(format[1..][..|e| - 1][i], e[1..][i]) {
            assert format[..|e|][1..][i] == format[..|e|][i + 1];
          }
        }
      } else {
        assert AllAccepted(format[1..], e[1..]) by {
          forall i | 0 <= i < |format| - 1 ensures Accepts(format[1..][i], e[1..][i]) {
            assert format[1..][i] == format[i + 1];
          }
        }
      }
      GetArgsCount(list.right, format[1..]);
    }
  }

  /** The first item whose type the format rejects gives `LE_TYPE`. */
  lemma {:induction false} GetArgsTypeError(list: Value, format: string, k: nat)
    requires IsProper(list)
    requires k < |format| && k < |Elements(list)|
    requires NoRest(format[..k + 1])
    requires forall i :: 0 <= i < k ==> Accepts(format[i], Elements(list)[i])
    requires !Accepts(format[k], Elements(list)[k])
    ensures GetArgs(list, format) == ArgsError(LeType)
    decreases k
  {
    var e := Elements(list);
    assert format[0] == format[..k + 1][0];
    if k > 0 {
      assert e[1..] == Elements(list.right);
      assert format[1..][..k] == format[..k + 1][1..];
      forall i | 0 <= i < k - 1 ensures Accepts(format[1..][i], Elements(list.right)[i]) {
        assert format[1..][i] == format[i + 1];
      }
      GetArgsTypeError(list.right, format[1..], k - 1);
    }
  }

  /**
   * `R` after `k` accepted items binds those items and then the rest of the
   * list, which must be non-empty; later format characters are never looked at.
   */
  lemma {:induction false} GetArgsRest(list: Value, format: string, k: nat)
    requires IsProper(list)
    requires k < |format| && format[k] == 'R' && NoRest(format[..k])
    requires k < |Elements(list)|
    requires forall i :: 0 <= i < k ==> Accepts(format[i], Elements(list)[i])
    ensures GetArgs(list, format) == Bound(Elements(list)[..k] + [Drop(list, k)])
    ensures Drop(list, k).Cons?
    decreases k
  {
    var e := Elements(list);
    if k > 0 {
      assert format[0] == format[..k][0];
      assert e[1..] == Elements(list.right);
      assert format[1..][..k - 1] == format[..k][1..];
      forall i | 0 <= i < k - 1 ensures Accepts(format[1..][i], Elements(list.right)[i]) {
        assert format[1..][i] == format[i + 1];
      }
      GetArgsRest(list.right, format[1..], k - 1);
      assert e[..k] == [list.left] + Elements(list.right)[..k - 1];
    }
  }

  /*
   * Small helpers of util.c.
   */

  /** `lisp_truthy`: only a non-zero integer is true. */
  predicate Truthy(v: Value)
  {
    v.Int? && v.x != 0
  }

  /** `lisp_quote_with`: the two-item list `(sym value)`. */
  function QuoteWith(value: Value, sym: string): (r: Value)
    ensures Elements(r) == [Sym(sym), value] && IsProper(r)
  {
    var r := Cons(Sym(sym), Cons(value, Nil));
    assert Elements(r.right) == [value];
    r
  }

  /** The `lisp_error_name` table. */
  const ErrorNames: seq<string> := [
    "LE_NONE", "LE_ERROR", "LE_EOF", "LE_SYNTAX", "LE_FERROR", "LE_2MANY", "LE_2FEW",
    "LE_TYPE", "LE_NOCALL", "LE_NOEVAL", "LE_NOTFOUND", "LE_EXIT", "LE_ASSERT", "LE_VALUE"
  ]

  /** `LE_MAX_ERR`, the number of error codes. */
  const MaxErr: nat := 14

  function ErrnoIndex(e: Errno): (i: nat)
    ensures i < MaxErr
  {
    match e
    case LeNone => 0 case LeError => 1 case LeEof => 2 case LeSyntax => 3
    case LeFError => 4 case Le2Many => 5 case Le2Few => 6 case LeType => 7
    case LeNoCall => 8 case LeNoEval => 9 case LeNotFound => 10 case LeExit => 11
    case LeAssert => 12 case LeValue => 13
  }

  /** `lisp_sym_to_errno`: the first table index holding the name, else `LE_MAX_ERR`. */
  method SymToErrno(name: string) returns (i: nat)
    ensures i <= MaxErr
    ensures i < MaxErr ==> ErrorNames[i] == name
    ensures forall j :: 0 <= j < i && j < MaxErr ==> ErrorNames[j] != name
  {
    i := 0;
    while i < MaxErr
      invariant i <= MaxErr
      invariant forall j :: 0 <= j < i ==> ErrorNames[j] != name
    {
      if ErrorNames[i] == name {
        return;
      }
      i := i + 1;
    }
  }

  /** Every errno's name maps back to that errno. */
  method ErrnoNameRoundTrip(e: Errno) returns (i: nat)
    ensures i == ErrnoIndex(e)
  {
    var k := ErrnoIndex(e);
    i := SymToErrno(ErrorNames[k]);
  }
}
