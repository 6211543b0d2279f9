/**
 * The builtins of builtins.c that compute a value from their arguments
 * without evaluating anything further. The evaluator (module Eval) hands
 * each one its argument list, already evaluated where the builtin
 * evaluates it, and always a proper list.
 *
 * C `int` arithmetic wraps around in 32 bits here (`Wrap32`), which is what
 * the machine does for the signed overflow the C standard leaves undefined;
 * the one overflow that traps, `INT_MIN / -1`, is `Undefined`.
 */
module Builtins {
  import opened Values

  /**
   * What a builtin returns:
   *   - `Ok(v)`: the value `v`;
   *   - `Err(e)`: NULL after `lisp_error`, which also records the call stack;
   *   - `ArgErr(e)`: NULL after `lisp_get_args` failed, which records only the errno;
   *   - `Undefined`: the C code reads a field of an object of the wrong type,
   *     or traps;
   *   - `Silent`: NULL with no error recorded at all.
   */
  datatype Answer = Ok(v: Value) | Err(errno: Errno) | ArgErr(argErrno: Errno) | Undefined | Silent

  /*
   * 32-bit arithmetic.
   */

  const Modulus: int := 0x1_0000_0000

  /** `Wrap32` gives the one 32-bit value congruent to its argument. */
  lemma WrapUnique(x: int, r: int)
    requires IsInt32(r) && (r - x) % Modulus == 0
    ensures r == Wrap32(x)
  {
    var w := Wrap32(x);
    var d := r - w;
    assert (r - x) == ((r - x) / Modulus) * Modulus;
    assert (w - x) == ((w - x) / Modulus) * Modulus;
    assert d == ((r - x) / Modulus - (w - x) / Modulus) * Modulus;
    assert -Modulus < d < Modulus;
  }

  /** Wrapping after every addition is wrapping once at the end. */
  lemma WrapAdd(a: int, b: int)
    ensures Wrap32(Wrap32(a) + b) == Wrap32(a + b)
  {
    var w := Wrap32(a);
    var r := Wrap32(a + b);
    assert (w - a) == ((w - a) / Modulus) * Modulus;
    assert (r - (a + b)) == ((r - (a + b)) / Modulus) * Modulus;
    assert r - (w + b) == ((r - (a + b)) / Modulus - (w - a) / Modulus) * Modulus;
    WrapUnique(w + b, r);
  }

  /** Wrapping after every multiplication is wrapping once at the end. */
  lemma WrapMul(a: int, b: int)
    ensures Wrap32(Wrap32(a) * b) == Wrap32(a * b)
  {
    var w := Wrap32(a);
    var r := Wrap32(a * b);
    var wb, ab := w * b, a * b;
    var k := (w - a) / Modulus;
    MultipleOf(w - a);
    ScaleMultiple(w - a, k, b);
    MulSub(w, a, b);
    var j := (r - ab) / Modulus;
    MultipleOf(r - ab);
    DiffMultiple(r - ab, j, wb - ab, k * b);
    IsMultiple(r - wb, j - k * b);
    WrapUnique(wb, r);
  }

  lemma MultipleOf(d: int)
    requires d % Modulus == 0
    ensures d == (d / Modulus) * Modulus
  {
  }

  lemma IsMultiple(d: int, q: int)
    requires d == q * Modulus
    ensures d % Modulus == 0
  {
    ModUnique(d, q, 0, Modulus);
  }

  lemma DiffMultiple(x: int, p: int, y: int, q: int)
    requires x == p * Modulus && y == q * Modulus
    ensures x - y == (p - q) * Modulus
  {
  }

  lemma ScaleMultiple(d: int, k: int, b: int)
    requires d == k * Modulus
    ensures d * b == (k * b) * Modulus
  {
    MulAssoc(k, Modulus, b);
    MulAssoc(k, b, Modulus);
  }

  lemma MulSub(x: int, y: int, z: int)
    ensures (x - y) * z == x * z - y * z
  {
  }

  lemma MulAssoc(x: int, y: int, z: int)
    ensures (x * y) * z == x * (y * z) && y * z == z * y
  {
  }

  lemma MulNeg(x: int, y: int)
    ensures (-x) * y == -(x * y) && x * (-y) == -(x * y)
  {
  }

  function Abs(x: int): nat { if x < 0 then -x else x }

  /** C division, which truncates toward zero (Dafny's `/` rounds toward minus infinity for a positive divisor). */
  function CDiv(a: int, b: int): (q: int)
    requires b != 0
  {
    var q0 := Abs(a) / Abs(b);
    if (a < 0) == (b < 0) then q0 else -q0
  }

  /**
   * The quotient leaves a remainder smaller than the divisor with the sign
   * of the dividend, and never exceeds the dividend in size.
   */
  lemma CDivTruncates(a: int, b: int)
    requires b != 0
    ensures var q := CDiv(a, b); var rem := a - q * b;
      Abs(rem) < Abs(b) && (rem == 0 || (rem < 0 <==> a < 0)) && Abs(q) * Abs(b) <= Abs(a)
  {
    var A: int := Abs(a);
    var B: int := Abs(b);
    DivMod(A, B);
    var q0: int := A / B;
    var r0: int := A % B;
    var P: int := q0 * B;
    var q := CDiv(a, b);
    assert q == if (a < 0) == (b < 0) then q0 else -q0;
    assert b == if b < 0 then -B else B;
    SignedProduct(q0, B, a < 0, b < 0);
    assert q * b == (if a < 0 then -P else P);
    assert Abs(q) * Abs(b) == P;
  }

  lemma DivMod(A: int, B: int)
    requires A >= 0 && B > 0
    ensures A == (A / B) * B + A % B && 0 <= A % B < B && A / B >= 0
  {
  }

  /** The product of a quotient and a divisor with the given signs. */
  lemma SignedProduct(q0: int, B: int, negA: bool, negB: bool)
    ensures var q := if negA == negB then q0 else -q0;
      q * (if negB then -B else B) == (if negA then -(q0 * B) else q0 * B)
  {
    MulNeg(q0, B);
    MulNeg(-q0, B);
  }

  /*
   * `+`, `*`, `-`, `/` over the evaluated arguments.
   */

  predicate AllInts(xs: seq<Value>)
  {
    forall k :: 0 <= k < |xs| ==> xs[k].Int?
  }

  /** The mathematical sum of integer arguments. */
  function IntSum(xs: seq<Value>): int
    requires AllInts(xs)
  {
    if xs == [] then 0 else xs[0].x + IntSum(xs[1..])
  }

  function IntProduct(xs: seq<Value>): int
    requires AllInts(xs)
  {
    if xs == [] then 1 else xs[0].x * IntProduct(xs[1..])
  }

  /** The first argument, left to right, that is not an integer. */
  predicate FirstNonInt(xs: seq<Value>, k: nat)
  {
    k < |xs| && !xs[k].Int? && forall j :: 0 <= j < k ==> xs[j].Int?
  }

  /** An integer list is an integer head on an integer tail. */
  lemma AllIntsSplit(xs: seq<Value>)
    requires xs != []
    ensures AllInts(xs) <==> xs[0].Int? && AllInts(xs[1..])
  {
    if xs[0].Int? && AllInts(xs[1..]) {
      forall k | 0 <= k < |xs| ensures xs[k].Int? {
        if k > 0 { assert xs[k] == xs[1..][k - 1]; }
      }
    }
  }

  /**
   * The loop of `lisp_builtin_plus`, from the running sum `acc`: the 32-bit
   * sum of `acc` and every argument, or `LE_TYPE` at the first non-integer.
   */
  function AddFrom(acc: int, xs: seq<Value>): (r: Answer)
    ensures AllInts(xs) && IsInt32(acc) ==> r == Ok(Int(Wrap32(acc + IntSum(xs))))
    ensures !AllInts(xs) ==> r == Err(LeType)
    decreases |xs|
  {
    if xs == [] then Ok(Int(acc))
    else if !xs[0].Int? then Err(LeType)
    else
      AllIntsSplit(xs);
      WrapAdd(acc + xs[0].x, if AllInts(xs) then IntSum(xs[1..]) else 0);
      AddFrom(Wrap32(acc + xs[0].x), xs[1..])
  }

  /** `+`: the sum, starting from 0. */
  function Plus(xs: seq<Value>): Answer
  {
    AddFrom(0, xs)
  }

  /** `+` is the 32-bit sum of its arguments (0 for none), or `LE_TYPE` if any is not an integer. */
  lemma PlusIsSum(xs: seq<Value>)
    ensures AllInts(xs) ==> Plus(xs) == Ok(Int(Wrap32(IntSum(xs))))
    ensures !AllInts(xs) ==> Plus(xs) == Err(LeType)
  {
  }

  /**
   * The loop of `lisp_builtin_multiply`, from the running product `acc`: the
   * 32-bit product of `acc` and every argument, or `LE_TYPE` at the first
   * non-integer.
   */
  function MultiplyFrom(acc: int, xs: seq<Value>): (r: Answer)
    ensures AllInts(xs) && IsInt32(acc) ==> r == Ok(Int(Wrap32(acc * IntProduct(xs))))
    ensures !AllInts(xs) ==> r == Err(LeType)
    decreases |xs|
  {
    if xs == [] then Ok(Int(acc))
    else if !xs[0].Int? then Err(LeType)
    else
      AllIntsSplit(xs);
      var p := if AllInts(xs) then IntProduct(xs[1..]) else 1;
      WrapMul(acc * xs[0].x, p);
      MulAssoc(acc, xs[0].x, p);
      MultiplyFrom(Wrap32(acc * xs[0].x), xs[1..])
  }

  /** `*`: the product, starting from 1. */
  function Multiply(xs: seq<Value>): Answer
  {
    MultiplyFrom(1, xs)
  }

  /** `*` is the 32-bit product of its arguments (1 for none), or `LE_TYPE` if any is not an integer. */
  lemma MultiplyIsProduct(xs: seq<Value>)
    ensures AllInts(xs) ==> Multiply(xs) == Ok(Int(Wrap32(IntProduct(xs))))
    ensures !AllInts(xs) ==> Multiply(xs) == Err(LeType)
  {
  }

  /**
   * The loop of `lisp_builtin_minus`, from the running difference `acc`:
   * `acc` less the 32-bit sum of the arguments, or `LE_TYPE` at the first
   * non-integer.
   */
  function SubtractFrom(acc: int, xs: seq<Value>): (r: Answer)
    ensures AllInts(xs) && IsInt32(acc) ==> r == Ok(Int(Wrap32(acc - IntSum(xs))))
    ensures !AllInts(xs) ==> r == Err(LeType)
    decreases |xs|
  {
    if xs == [] then Ok(Int(acc))
    else if !xs[0].Int? then Err(LeType)
    else
      AllIntsSplit(xs);
      WrapAdd(acc - xs[0].x, if AllInts(xs) then -IntSum(xs[1..]) else 0);
      SubtractFrom(Wrap32(acc - xs[0].x), xs[1..])
  }

  /**
   * `-` as written: the first argument is read as an integer without a type
   * check, so a non-integer there gives an unspecified number.
   */
  function MinusAsWritten(xs: seq<Value>): Answer
  {
    if |xs| < 1 then Err(Le2Few)
    else if !xs[0].Int? then Undefined
    else if |xs| == 1 then Ok(Int(Wrap32(-xs[0].x)))
    else SubtractFrom(xs[0].x, xs[1..])
  }

  /** `-` with the first argument type-checked like the others. */
  function Minus(xs: seq<Value>): Answer
  {
    if |xs| < 1 then Err(Le2Few)
    else if !xs[0].Int? then Err(LeType)
    else if |xs| == 1 then Ok(Int(Wrap32(-xs[0].x)))
    else SubtractFrom(xs[0].x, xs[1..])
  }

  /**
   * `-` needs an argument; one argument is negated, several are subtracted
   * from the first left to right; a non-integer gives `LE_TYPE`.
   */
  lemma MinusIsDifference(xs: seq<Value>)
    requires forall k :: 0 <= k < |xs| && xs[k].Int? ==> IsInt32(xs[k].x)
    ensures |xs| == 0 ==> Minus(xs) == Err(Le2Few)
    ensures |xs| == 1 && xs[0].Int? ==> Minus(xs) == Ok(Int(Wrap32(-xs[0].x)))
    ensures |xs| >= 2 && AllInts(xs) ==> Minus(xs) == Ok(Int(Wrap32(xs[0].x - IntSum(xs[1..]))))
    ensures |xs| >= 1 && !AllInts(xs) ==> Minus(xs) == Err(LeType)
  {
    if |xs| >= 1 && xs[0].Int? {
      AllIntsSplit(xs);
    }
  }

  /** As written, `-` of a string is no error but an unspecified number; the type-checked `-` rejects it. */
  lemma MinusOfStringUndefined()
    ensures MinusAsWritten([Str("a")]) == Undefined
    ensures Minus([Str("a")]) == Err(LeType)
  {
  }

  /** The two agree whenever the first argument is an integer. */
  lemma MinusAgrees(xs: seq<Value>)
    requires |xs| == 0 || xs[0].Int?
    ensures MinusAsWritten(xs) == Minus(xs)
  {
  }

  /** The loop of `lisp_builtin_divide`: type check, zero check, then divide. */
  function DivideFrom(acc: int, xs: seq<Value>): (r: Answer)
    ensures r.Ok? || r == Err(LeType) || r == Err(LeError) || r == Undefined
    decreases |xs|
  {
    if xs == [] then Ok(Int(acc))
    else if !xs[0].Int? then Err(LeType)
    else if xs[0].x == 0 then Err(LeError)
    else if acc == IntMin && xs[0].x == -1 then Undefined
    else DivideFrom(CDiv(acc, xs[0].x), xs[1..])
  }

  /** `/` as written: like `-`, the first argument is not type-checked. */
  function DivideAsWritten(xs: seq<Value>): Answer
  {
    if |xs| < 1 then Err(Le2Few)
    else if !xs[0].Int? then Undefined
    else DivideFrom(xs[0].x, xs[1..])
  }

  /** `/` with the first argument type-checked like the others. */
  function Divide(xs: seq<Value>): Answer
  {
    if |xs| < 1 then Err(Le2Few)
    else if !xs[0].Int? then Err(LeType)
    else DivideFrom(xs[0].x, xs[1..])
  }

  /** The first divisor, left to right, that is zero or not an integer. */
  predicate FirstBadDivisor(xs: seq<Value>, k: nat)
  {
    k < |xs| && (!xs[k].Int? || xs[k].x == 0)
    && forall j :: 0 <= j < k ==> xs[j].Int? && xs[j].x != 0
  }

  /** Once the divisions before it go through, the first bad divisor decides the error. */
  lemma {:induction false} DivideFromBadDivisor(acc: int, xs: seq<Value>, k: nat)
    requires FirstBadDivisor(xs, k)
    requires DivideFrom(acc, xs[..k]).Ok?
    ensures DivideFrom(acc, xs) == if xs[k].Int? then Err(LeError) else Err(LeType)
    decreases k
  {
    if k > 0 {
      assert xs[..k][0] == xs[0] && xs[..k][1..] == xs[1..][..k - 1];
      DivideFromBadDivisor(CDiv(acc, xs[0].x), xs[1..], k - 1);
    }
  }

  /** `/` needs an argument, and returns a single integer argument as it is. */
  lemma DivideOne(xs: seq<Value>)
    ensures |xs| == 0 ==> Divide(xs) == Err(Le2Few)
    ensures |xs| == 1 && xs[0].Int? ==> Divide(xs) == Ok(xs[0])
  {
  }

  /** Two integers divide with truncation toward zero. */
  lemma DivideTwo(a: int, b: int)
    requires b != 0 && !(a == IntMin && b == -1)
    ensures Divide([Int(a), Int(b)]) == Ok(Int(CDiv(a, b)))
  {
    assert [Int(a), Int(b)][1..] == [Int(b)];
    assert [Int(b)][1..] == [];
    assert DivideFrom(CDiv(a, b), []) == Ok(Int(CDiv(a, b)));
    assert DivideFrom(a, [Int(b)]) == Ok(Int(CDiv(a, b)));
  }

  /**
   * The first divisor that is zero gives `LE_ERROR`, or `LE_TYPE` if it is
   * not an integer, unless a division before it overflowed (`INT_MIN / -1`).
   */
  lemma DivideBadDivisor(xs: seq<Value>, k: nat)
    requires |xs| >= 1 && xs[0].Int? && FirstBadDivisor(xs[1..], k)
    requires Divide(xs[..k + 1]).Ok?
    ensures Divide(xs) == if xs[1..][k].Int? then Err(LeError) else Err(LeType)
  {
    assert xs[..k + 1][0] == xs[0] && xs[..k + 1][1..] == xs[1..][..k];
    DivideFromBadDivisor(xs[0].x, xs[1..], k);
  }

  /** A division by -1 that does not overflow lets a later zero divisor give `LE_ERROR`. */
  lemma DivideByMinusOneThenZero()
    ensures Divide([Int(6), Int(-1), Int(0)]) == Err(LeError)
  {
    var xs := [Int(6), Int(-1), Int(0)];
    assert xs[..2] == [Int(6), Int(-1)];
    DivideTwo(6, -1);
    DivideBadDivisor(xs, 1);
  }

  /** The checked `/` rejects a non-integer first argument, and otherwise agrees with the code as written. */
  lemma DivideAgrees(xs: seq<Value>)
    ensures |xs| >= 1 && !xs[0].Int? ==> Divide(xs) == Err(LeType) && DivideAsWritten(xs) == Undefined
    ensures |xs| == 0 || xs[0].Int? ==> Divide(xs) == DivideAsWritten(xs)
  {
  }

  /** As written, `/` of a string is an unspecified number instead of `LE_TYPE`. */
  lemma DivideOfStringUndefined()
    ensures DivideAsWritten([Str("a"), Int(1)]) == Undefined
    ensures Divide([Str("a"), Int(1)]) == Err(LeType)
  {
  }

  /*
   * Comparisons `= == > >= < <=` (`lisp_builtin_cmp_util` and its callers).
   */

  datatype Relation = Equal | Greater | GreaterEq | Less | LessEq

  /** The test each comparison applies to the sign of `first - second`. */
  predicate SignTest(rel: Relation, d: int)
  {
    match rel
    case Equal => d == 0
    case Greater => d > 0
    case GreaterEq => d >= 0
    case Less => d < 0
    case LessEq => d <= 0
  }

  /** What each comparison is meant to decide. */
  predicate Holds(rel: Relation, a: int, b: int)
  {
    match rel
    case Equal => a == b
    case Greater => a > b
    case GreaterEq => a >= b
    case Less => a < b
    case LessEq => a <= b
  }

  function Flag(b: bool): Value
  {
    Int(if b then 1 else 0)
  }

  /** `lisp_get_args` with "dd" binds two integers. */
  lemma TwoInts(args: Value)
    requires IsProper(args) && GetArgs(args, "dd").Bound?
    ensures var vs := GetArgs(args, "dd").values; |vs| == 2 && vs[0].Int? && vs[1].Int?
  {
    GetArgsExact(args, "dd");
    assert Accepts("dd"[0], Elements(args)[0]) && Accepts("dd"[1], Elements(args)[1]);
  }

  /** As written: the sign of the 32-bit difference decides. */
  function CompareAsWritten(rel: Relation, args: Value): (r: Answer)
    requires IsProper(args)
    ensures r.Ok? || r.ArgErr?
  {
    match GetArgs(args, "dd")
    case ArgsError(e) => ArgErr(e)
    case Bound(vs) =>
      TwoInts(args);
      Ok(Flag(SignTest(rel, Wrap32(vs[0].x - vs[1].x))))
  }

  /** The comparison the builtins are meant to make. */
  function Compare(rel: Relation, args: Value): (r: Answer)
    requires IsProper(args)
    ensures r.Ok? || r.ArgErr?
  {
    match GetArgs(args, "dd")
    case ArgsError(e) => ArgErr(e)
    case Bound(vs) =>
      TwoInts(args);
      Ok(Flag(Holds(rel, vs[0].x, vs[1].x)))
  }

  /** A comparison of two integers is 1 exactly when the relation holds, and 0 otherwise. */
  lemma CompareDecides(rel: Relation, a: int, b: int)
    ensures var r := Compare(rel, FromSeq([Int(a), Int(b)])); r == Ok(Int(0)) || r == Ok(Int(1))
    ensures rel == Equal ==> (Compare(rel, FromSeq([Int(a), Int(b)])) == Ok(Int(1)) <==> a == b)
    ensures rel == Greater ==> (Compare(rel, FromSeq([Int(a), Int(b)])) == Ok(Int(1)) <==> a > b)
    ensures rel == GreaterEq ==> (Compare(rel, FromSeq([Int(a), Int(b)])) == Ok(Int(1)) <==> a >= b)
    ensures rel == Less ==> (Compare(rel, FromSeq([Int(a), Int(b)])) == Ok(Int(1)) <==> a < b)
    ensures rel == LessEq ==> (Compare(rel, FromSeq([Int(a), Int(b)])) == Ok(Int(1)) <==> a <= b)
  {
    var args := FromSeq([Int(a), Int(b)]);
    FromSeqElements([Int(a), Int(b)]);
    GetArgsExact(args, "dd");
    assert AllAccepted("dd", Elements(args));
  }

  /** As written, two integers compare by the sign of their 32-bit difference. */
  lemma CompareAsWrittenOfTwo(rel: Relation, a: int, b: int)
    ensures CompareAsWritten(rel, FromSeq([Int(a), Int(b)])) == Ok(Flag(SignTest(rel, Wrap32(a - b))))
  {
    var args := FromSeq([Int(a), Int(b)]);
    FromSeqElements([Int(a), Int(b)]);
    GetArgsExact(args, "dd");
    assert AllAccepted("dd", Elements(args));
  }

  /** While the difference fits in 32 bits, the code as written decides the same. */
  lemma CompareAgrees(rel: Relation, args: Value)
    requires IsProper(args)
    requires GetArgs(args, "dd").Bound? ==>
             var vs := GetArgs(args, "dd").values; |vs| == 2 && vs[0].Int? && vs[1].Int? && IsInt32(vs[0].x - vs[1].x)
    ensures CompareAsWritten(rel, args) == Compare(rel, args)
  {
  }

  /** The 32-bit difference of -2147483647 and 2 wraps to a positive number, so `<` answers 0. */
  lemma LessOverflows()
    ensures CompareAsWritten(Less, FromSeq([Int(-2147483647), Int(2)])) == Ok(Int(0))
    ensures Compare(Less, FromSeq([Int(-2147483647), Int(2)])) == Ok(Int(1))
  {
    var args := FromSeq([Int(-2147483647), Int(2)]);
    FromSeqElements([Int(-2147483647), Int(2)]);
    GetArgsExact(args, "dd");
    assert AllAccepted("dd", Elements(args));
    assert Wrap32(-2147483647 - 2) == 2147483647;
  }

  /** Argument counts and types are checked before anything is compared. */
  lemma CompareArgErrors(rel: Relation, args: Value)
    requires IsProper(args)
    ensures |Elements(args)| < 2 && AllInts(Elements(args)) ==> Compare(rel, args) == ArgErr(Le2Few)
    ensures |Elements(args)| > 2 && AllInts(Elements(args)[..2]) ==> Compare(rel, args) == ArgErr(Le2Many)
  {
    var e := Elements(args);
    if |e| < 2 && AllInts(e) {
      assert AllAccepted("dd"[..|e|], e) by {
        forall i | 0 <= i < |e| ensures Accepts("dd"[..|e|][i], e[i]) {
          assert "dd"[..|e|][i] == 'd';
        }
      }
      GetArgsCount(args, "dd");
    } else if |e| > 2 && AllInts(e[..2]) {
      assert e[..2][0] == e[0] && e[..2][1] == e[1];
      assert AllAccepted("dd", e);
      GetArgsCount(args, "dd");
    }
  }

  /*
   * List builtins.
   */

  /** `car`: the first item of a non-empty list. */
  function Car(args: Value): (r: Answer)
    requires IsProper(args)
    ensures r.Ok? <==> |Elements(args)| == 1 && Elements(args)[0].Cons?
    ensures r.Ok? ==> r.v == Elements(args)[0].left
    ensures |Elements(args)| == 1 && Elements(args)[0].Nil? ==> r == Err(LeError)
  {
    GetArgsExact(args, "l");
    match GetArgs(args, "l")
    case ArgsError(e) => ArgErr(e)
    case Bound(vs) =>
      assert Accepts("l"[0], vs[0]);
      if vs[0].Nil? then Err(LeError) else Ok(vs[0].left)
  }

  /** `cdr` as written: the `right` of the list, which for nil is NULL with no error recorded. */
  function CdrAsWritten(args: Value): (r: Answer)
    requires IsProper(args)
    ensures r.Ok? <==> |Elements(args)| == 1 && Elements(args)[0].Cons?
    ensures r.Ok? ==> r.v == Elements(args)[0].right
    ensures r.Silent? <==> |Elements(args)| == 1 && Elements(args)[0].Nil?
    ensures r.Ok? || r.ArgErr? || r.Silent?
  {
    GetArgsExact(args, "l");
    match GetArgs(args, "l")
    case ArgsError(e) => ArgErr(e)
    case Bound(vs) =>
      assert Accepts("l"[0], vs[0]);
      if vs[0].Nil? then Silent else Ok(vs[0].right)
  }

  /** `cdr` rejecting nil the way `car` does. */
  function Cdr(args: Value): (r: Answer)
    requires IsProper(args)
    ensures r.Ok? <==> |Elements(args)| == 1 && Elements(args)[0].Cons?
    ensures r.Ok? ==> r.v == Elements(args)[0].right
    ensures |Elements(args)| == 1 && Elements(args)[0].Nil? ==> r == Err(LeError)
  {
    GetArgsExact(args, "l");
    match GetArgs(args, "l")
    case ArgsError(e) => ArgErr(e)
    case Bound(vs) =>
      assert Accepts("l"[0], vs[0]);
      if vs[0].Nil? then Err(LeError) else Ok(vs[0].right)
  }

  /** `(cdr '())` returns NULL as written, without an error to report. */
  lemma CdrOfNilSilent()
    ensures CdrAsWritten(FromSeq([Nil])) == Silent
    ensures Cdr(FromSeq([Nil])) == Err(LeError)
  {
    FromSeqElements([Nil]);
  }

  /** `cons`: a cell with the two arguments as its halves. */
  function ConsOf(args: Value): (r: Answer)
    requires IsProper(args)
    ensures r.Ok? <==> |Elements(args)| == 2
    ensures r.Ok? ==> r.v == Cons(Elements(args)[0], Elements(args)[1])
  {
    GetArgsExact(args, "**");
    match GetArgs(args, "**")
    case ArgsError(e) => ArgErr(e)
    case Bound(vs) => Ok(Cons(vs[0], vs[1]))
  }

  /** `car` and `cdr` take apart what `cons` builds. */
  lemma CarCdrOfCons(a: Value, b: Value)
    ensures ConsOf(FromSeq([a, b])) == Ok(Cons(a, b))
    ensures Car(FromSeq([Cons(a, b)])) == Ok(a)
    ensures Cdr(FromSeq([Cons(a, b)])) == Ok(b)
    ensures CdrAsWritten(FromSeq([Cons(a, b)])) == Ok(b)
  {
    FromSeqElements([a, b]);
    FromSeqElements([Cons(a, b)]);
  }

  /** `quote`: its one argument, unevaluated. */
  function Quote(args: Value): (r: Answer)
    requires IsProper(args)
    ensures r.Ok? <==> |Elements(args)| == 1
    ensures r.Ok? ==> r.v == Elements(args)[0]
  {
    GetArgsExact(args, "*");
    match GetArgs(args, "*")
    case ArgsError(e) => ArgErr(e)
    case Bound(vs) => Ok(vs[0])
  }

  /** `null?`: 1 for nil, 0 for anything else. */
  function NullP(args: Value): (r: Answer)
    requires IsProper(args)
    ensures r.Ok? <==> |Elements(args)| == 1
    ensures r.Ok? ==> r.v == Flag(Elements(args)[0].Nil?)
  {
    GetArgsExact(args, "*");
    match GetArgs(args, "*")
    case ArgsError(e) => ArgErr(e)
    case Bound(vs) => Ok(Flag(vs[0].Nil?))
  }

  /**
   * `lambda` and `macro`: a parameter list and a non-empty body; every
   * parameter on the list's spine must be a symbol. The closure is the
   * scope the form is evaluated in.
   */
  function MakeLambda(args: Value, kind: LambdaKind, scope: nat): (r: Answer)
    requires IsProper(args)
    ensures r.Ok? ==> r.v.Lambda? && r.v.kind == kind && r.v.closure == scope && r.v.firstBinding.None?
    ensures r.Ok? ==> forall k :: 0 <= k < |Elements(r.v.args)| ==> Elements(r.v.args)[k].Sym?
    ensures r.Ok? ==> r.v.code.Cons? && IsProper(r.v.code)
  {
    match GetArgs(args, "lR")
    case ArgsError(e) => ArgErr(e)
    case Bound(vs) =>
      GetArgsRestTwo(args);
      if exists k :: 0 <= k < |Elements(vs[0])| && !Elements(vs[0])[k].Sym? then Err(LeType)
      else Ok(Lambda(kind, vs[0], vs[1], scope, None))
  }

  lemma GetArgsRestTwo(args: Value)
    requires IsProper(args) && GetArgs(args, "lR").Bound?
    ensures var vs := GetArgs(args, "lR").values;
      |vs| == 2 && vs[1] == Drop(args, 1) && vs[1].Cons? && IsProper(vs[1]) && vs[0] == Elements(args)[0]
  {
    var f := "lR";
    assert f[0] == 'l' && f[1..] == "R";
    assert args.Cons? && Accepts('l', args.left);
    assert args.right.Cons?;
    assert GetArgs(args.right, "R") == Bound([args.right]);
    assert GetArgs(args, f) == Bound([args.left, args.right]);
    assert Drop(args, 1) == args.right;
  }

  /** A lambda is made exactly when the parameters are a list of symbols and a body follows. */
  lemma MakeLambdaAccepts(params: Value, body: Value, kind: LambdaKind, scope: nat)
    requires (params.Nil? || params.Cons?) && body.Cons? && IsProper(body)
    ensures var r := MakeLambda(Cons(params, body), kind, scope);
      r.Ok? <==> forall k :: 0 <= k < |Elements(params)| ==> Elements(params)[k].Sym?
    ensures var r := MakeLambda(Cons(params, body), kind, scope);
      r.Ok? ==> r.v == Lambda(kind, params, body, scope, None)
  {
    var args := Cons(params, body);
    assert GetArgs(body, "R") == Bound([body]);
    assert GetArgs(args, "lR") == Bound([params, body]);
    var bad := exists k :: 0 <= k < |Elements(params)| && !Elements(params)[k].Sym?;
    assert MakeLambda(args, kind, scope) == if bad then Err(LeType) else Ok(Lambda(kind, params, body, scope, None));
  }

  /** What `reduce` folds: the function, the first accumulator and the items. */
  datatype Setup = Fold(f: Value, init: Value, items: seq<Value>) | SetupErr(answer: Answer)

  /**
   * The argument checks of `lisp_builtin_reduce`: with two arguments the
   * list's head is the first accumulator and needs a second item; with three
   * the second argument is, and the list needs an item; any other count is
   * `LE_2MANY`.
   */
  function ReduceSetup(args: Value): (r: Setup)
    requires IsProper(args)
    ensures r.Fold? ==> |r.items| >= 1
    ensures |Elements(args)| !in {2, 3} ==> r == SetupErr(Err(Le2Many))
  {
    var n := |Elements(args)|;
    if n == 2 then
      match GetArgs(args, "*l")
      case ArgsError(e) => SetupErr(ArgErr(e))
      case Bound(vs) =>
        var list := vs[1];
        if |Elements(list)| < 2 then SetupErr(Err(Le2Few))
        else Fold(vs[0], list.left, Elements(list.right))
    else if n == 3 then
      match GetArgs(args, "**l")
      case ArgsError(e) => SetupErr(ArgErr(e))
      case Bound(vs) =>
        var list := vs[2];
        if |Elements(list)| < 1 then SetupErr(Err(Le2Few))
        else Fold(vs[0], vs[1], Elements(list))
    else SetupErr(Err(Le2Many))
  }

  /** With a seed, `reduce` folds the whole list from the seed, which needs an item. */
  lemma ReduceSeeded(args: Value)
    requires IsProper(args) && |Elements(args)| == 3 && IsProper(Elements(args)[2])
    ensures var e := Elements(args);
      ReduceSetup(args) == if |Elements(e[2])| >= 1 then Fold(e[0], e[1], Elements(e[2])) else SetupErr(Err(Le2Few))
  {
    var e := Elements(args);
    assert "**l"[2] == 'l' && TypeOf(e[2]) == TList;
    assert AllAccepted("**l", e);
    GetArgsExact(args, "**l");
    assert GetArgs(args, "**l") == Bound(e);
  }

  /** Without a seed, `reduce` folds the list's tail from its head, and needs two items. */
  lemma ReduceUnseeded(args: Value)
    requires IsProper(args) && |Elements(args)| == 2 && IsProper(Elements(args)[1])
    ensures var e := Elements(args); var l := e[1];
      ReduceSetup(args) == if |Elements(l)| >= 2 then Fold(e[0], l.left, Elements(l.right)) else SetupErr(Err(Le2Few))
  {
    var e := Elements(args);
    assert "*l"[1] == 'l' && TypeOf(e[1]) == TList;
    assert AllAccepted("*l", e);
    GetArgsExact(args, "*l");
    assert GetArgs(args, "*l") == Bound(e);
  }

  /** A non-list where the list belongs is `LE_TYPE`. */
  lemma ReduceNotList(args: Value)
    requires IsProper(args) && 2 <= |Elements(args)| <= 3 && TypeOf(Elements(args)[|Elements(args)| - 1]) != TList
    ensures ReduceSetup(args) == SetupErr(ArgErr(LeType))
  {
    var e := Elements(args);
    var fmt := if |e| == 2 then "*l" else "**l";
    assert fmt[|e| - 1] == 'l';
    assert !AllAccepted(fmt, e);
    GetArgsExact(args, fmt);
    assert GetArgs(args, fmt).ArgsError?;
  }
}
