/**
 * The evaluator: `lisp_eval` on each type (types.c), `lisp_call` with its
 * stack frame, `builtin_call` and `lambda_call`, `lisp_map` used as
 * `lisp_eval_list` and `lisp_progn` (util.c), and the builtins of
 * builtins.c that evaluate code themselves (`eval`, `define`, `if`,
 * `progn`, `unquote`, `reduce`, `print`).
 *
 * The C functions recurse without a bound; here each of them spends one
 * unit of `fuel`, and running out is reported as `Stuck(OutOfFuel)`.
 * A builtin is identified by its name, so the table the runtime starts
 * with (`lisp_scope_populate_builtins`) is the dispatch table.
 */
module Eval {
  import opened Values
  import opened Scopes
  import opened Builtins

  /**
   * The part of `lisp_runtime` the evaluator touches: the scopes, the id the
   * next scope gets, the call stack (a list with the innermost callable
   * first) and its depth, the error state, and what `print` has written.
   */
  datatype Runtime = Runtime(
    env: Env,
    nextScope: nat,
    stack: Value,
    depth: int,
    failed: bool,
    errno: Errno,
    errorStack: Option<Value>,
    printed: seq<Value>)

  /** Why an evaluation has no C counterpart to compare with. */
  datatype Stop =
    | OutOfFuel    // the C recursion would go on
    | Trap         // the C code reads a field of the wrong kind of object, or does what C leaves undefined
    | Dangling     // a lambda closes over a scope that does not exist
    | Unmodelled   // `map`, `quasiquote` or a builtin a host program added

  /** What an evaluation returns: a value, or NULL, with the runtime after it. */
  datatype Outcome = Ret(v: Value, rt: Runtime) | Null(rt: Runtime) | Stuck(why: Stop)

  /** Every scope's parent exists and is older, and every scope id is below the next one. */
  predicate Good(rt: Runtime)
  {
    WellFormed(rt.env) && forall id :: id in rt.env ==> id < rt.nextScope
  }

  /**
   * `lisp_error`: record the errno and the stack at the time of the error.
   */
  function Raise(rt: Runtime, e: Errno): (r: Runtime)
    ensures r.failed && r.errno == e && r.errorStack == Some(rt.stack)
    ensures r.env == rt.env && r.nextScope == rt.nextScope && r.stack == rt.stack
            && r.depth == rt.depth && r.printed == rt.printed
  {
    rt.(failed := true, errno := e, errorStack := Some(rt.stack))
  }

  /** A failed `lisp_get_args`: the errno is recorded, the error stack is not. */
  function ArgFail(rt: Runtime, e: Errno): (r: Runtime)
    ensures r.failed && r.errno == e && r.errorStack == rt.errorStack
    ensures r.env == rt.env && r.nextScope == rt.nextScope && r.stack == rt.stack
            && r.depth == rt.depth && r.printed == rt.printed
  {
    rt.(failed := true, errno := e)
  }

  /** `lisp_clear_error`. */
  function ClearError(rt: Runtime): (r: Runtime)
    ensures !r.failed && r.errno == LeNone && r.errorStack == None
    ensures r.env == rt.env && r.stack == rt.stack && r.depth == rt.depth
  {
    rt.(failed := false, errno := LeNone, errorStack := None)
  }

  /** Clearing the error forgets every error raised before it. */
  lemma ClearForgets(rt: Runtime, e: Errno, e2: Errno)
    ensures ClearError(Raise(rt, e)) == ClearError(rt)
    ensures ClearError(ArgFail(rt, e2)) == ClearError(rt)
  {
  }

  /**
   * What every evaluation step promises its caller unless it is stuck:
   * the runtime stays good, no scope disappears, output is only ever
   * added to, and the call stack and its depth are as they were. NULL
   * usually comes with an error recorded, but not always: `(cdr '())`
   * returns NULL with none.
   */
  predicate Settles(rt: Runtime, o: Outcome)
  {
    o.Stuck? ||
    (Good(o.rt) && rt.env.Keys <= o.rt.env.Keys && rt.printed <= o.rt.printed
     && o.rt.stack == rt.stack && o.rt.depth == rt.depth)
  }

  /** A builtin's answer as the evaluator's outcome; a silent NULL leaves the runtime as it was. */
  function FromAnswer(rt: Runtime, a: Answer): (o: Outcome)
    ensures Good(rt) ==> Settles(rt, o)
    ensures a.Ok? <==> o.Ret?
    ensures a.Ok? ==> o == Ret(a.v, rt)
    ensures a.Err? ==> o == Null(Raise(rt, a.errno))
    ensures a.ArgErr? ==> o == Null(ArgFail(rt, a.argErrno))
    ensures a.Silent? ==> o == Null(rt)
    ensures a.Undefined? <==> o == Stuck(Trap)
  {
    match a
    case Ok(v) => Ret(v, rt)
    case Err(e) => Null(Raise(rt, e))
    case ArgErr(e) => Null(ArgFail(rt, e))
    case Silent => Null(rt)
    case Undefined => Stuck(Trap)
  }

  /** `lisp_call`'s frame removal: the stack loses its head and the depth drops. */
  function Pop(o: Outcome): (r: Outcome)
    requires o.Stuck? || o.rt.stack.Cons?
    ensures r.Stuck? <==> o.Stuck?
    ensures r.Ret? <==> o.Ret?
    ensures !r.Stuck? ==> r.rt.stack == o.rt.stack.right && r.rt.depth == o.rt.depth - 1
    ensures !r.Stuck? ==> r.rt.env == o.rt.env && r.rt.nextScope == o.rt.nextScope
                          && r.rt.failed == o.rt.failed && r.rt.printed == o.rt.printed
    ensures r.Ret? ==> r.v == o.v
  {
    match o
    case Ret(v, rt) => Ret(v, rt.(stack := rt.stack.right, depth := rt.depth - 1))
    case Null(rt) => Null(rt.(stack := rt.stack.right, depth := rt.depth - 1))
    case Stuck(why) => o
  }

  /**
   * `lisp_eval`: integers and strings evaluate to themselves, a symbol to
   * its binding, a non-empty list whose tail is a list to a call of its
   * evaluated head; everything else is an error.
   */
  function Eval(rt: Runtime, scope: nat, v: Value, fuel: nat): (o: Outcome)
    requires Good(rt) && scope in rt.env
    ensures Settles(rt, o)
    ensures (v.Int? || v.Str?) && fuel > 0 ==> o == Ret(v, rt)
    ensures v.Sym? && fuel > 0 ==>
      o == match Lookup(rt.env, scope, v.name)
           case Some(x) => Ret(x, rt)
           case None => Null(Raise(rt, LeNotFound))
    ensures v.Nil? && fuel > 0 ==> o == Null(Raise(rt, LeNoCall))
    ensures v.Cons? && !(v.right.Nil? || v.right.Cons?) && fuel > 0 ==> o == Null(Raise(rt, LeSyntax))
    ensures (v.Builtin? || v.Lambda? || v.ScopeRef? || v.TypeObj?) && fuel > 0 ==> o == Null(Raise(rt, LeNoEval))
    decreases fuel, 0
  {
    if fuel == 0 then Stuck(OutOfFuel)
    else match v
      case Int(_) => Ret(v, rt)
      case Str(_) => Ret(v, rt)
      case Sym(n) =>
        (match Lookup(rt.env, scope, n)
         case Some(x) => Ret(x, rt)
         case None => Null(Raise(rt, LeNotFound)))
      case Nil => Null(Raise(rt, LeNoCall))
      case Cons(head, rest) =>
        if !(rest.Nil? || rest.Cons?) then Null(Raise(rt, LeSyntax))
        else
          (match Eval(rt, scope, head, fuel - 1)
           case Ret(c, rt1) => Call(rt1, scope, c, rest, fuel - 1)
           case Null(rt1) => Null(rt1)
           case Stuck(why) => Stuck(why))
      case _ => Null(Raise(rt, LeNoEval))
  }

  /**
   * `lisp_call`: push a frame naming the callable, run the callable's call
   * method, pop the frame.
   */
  function Call(rt: Runtime, scope: nat, callable: Value, args: Value, fuel: nat): (o: Outcome)
    requires Good(rt) && scope in rt.env
    ensures Settles(rt, o)
    decreases fuel, 0
  {
    if fuel == 0 then Stuck(OutOfFuel)
    else
      var pushed := rt.(stack := Cons(callable, rt.stack), depth := rt.depth + 1);
      Pop(Apply(pushed, scope, callable, args, fuel - 1))
  }

  /** The call method of the callable's type. */
  function Apply(rt: Runtime, scope: nat, callable: Value, args: Value, fuel: nat): (o: Outcome)
    requires Good(rt) && scope in rt.env
    ensures Settles(rt, o)
    ensures !callable.Builtin? && !callable.Lambda? && fuel > 0 ==> o == Null(Raise(rt, LeNoCall))
    decreases fuel, 0
  {
    if fuel == 0 then Stuck(OutOfFuel)
    else match callable
      case Builtin(name, evald) => BuiltinCall(rt, scope, name, evald, args, fuel - 1)
      case Lambda(_, _, _, _, _) => LambdaCall(rt, scope, callable, args, fuel - 1)
      case _ => Null(Raise(rt, LeNoCall))
  }

  /**
   * `builtin_call`: a builtin flagged `evald` gets its arguments
   * evaluated; any other gets them as written, which must be a proper list.
   */
  function BuiltinCall(rt: Runtime, scope: nat, name: string, evald: bool, args: Value, fuel: nat): (o: Outcome)
    requires Good(rt) && scope in rt.env
    ensures Settles(rt, o)
    ensures !evald && fuel > 0 && !IsProper(args) ==> o == Null(Raise(rt, LeSyntax))
    decreases fuel, 0
  {
    if fuel == 0 then Stuck(OutOfFuel)
    else if evald then
      match EvalList(rt, scope, args, fuel - 1)
      case Ret(vals, rt1) => RunBuiltin(rt1, scope, name, vals, fuel - 1)
      case Null(rt1) => Null(rt1)
      case Stuck(why) => Stuck(why)
    else
      IsBadListIffImproper(args);
      if IsBadList(args) then Null(Raise(rt, LeSyntax))
      else RunBuiltin(rt, scope, name, args, fuel - 1)
  }

  /** The builtins that evaluate their argument list first and then only compute. */
  predicate Evaluating(name: string)
  {
    name in {"cdr", "cons", "+", "-", "*", "/", "==", "=", ">", ">=", "<", "<=", "null?"}
  }

  /** The comparison a comparison builtin's name stands for. */
  function RelationOf(name: string): Relation
  {
    match name
    case ">" => Greater
    case ">=" => GreaterEq
    case "<" => Less
    case "<=" => LessEq
    case _ => Equal
  }

  /**
   * What an evaluating builtin computes from its evaluated arguments, as
   * builtins.c computes it: `cdr` of nil is a silent NULL, `-` and `/`
   * read their first argument as an integer unchecked, and the comparisons
   * test the sign of the 32-bit difference.
   */
  function Compute(name: string, vals: Value): (a: Answer)
    requires Evaluating(name) && IsProper(vals)
    ensures a.Silent? ==> name == "cdr" && Elements(vals) == [Nil]
    ensures a.Undefined? ==> name == "-" || name == "/"
  {
    match name
    case "cdr" => CdrAsWritten(vals)
    case "cons" => ConsOf(vals)
    case "+" => Plus(Elements(vals))
    case "-" => MinusAsWritten(Elements(vals))
    case "*" => Multiply(Elements(vals))
    case "/" => DivideAsWritten(Elements(vals))
    case "null?" => NullP(vals)
    case _ => CompareAsWritten(RelationOf(name), vals)
  }

  /**
   * The body of the builtin called `name`, given its argument list (as
   * `builtin_call` passes it on, so always a proper list).
   */
  function RunBuiltin(rt: Runtime, scope: nat, name: string, args: Value, fuel: nat): (o: Outcome)
    requires Good(rt) && scope in rt.env && IsProper(args)
    ensures Settles(rt, o)
    decreases fuel, 0
  {
    if fuel == 0 then Stuck(OutOfFuel)
    else if Evaluating(name) then
      match EvalList(rt, scope, args, fuel - 1)
      case Ret(vals, rt1) => FromAnswer(rt1, Compute(name, vals))
      case Null(rt1) => Null(rt1)
      case Stuck(why) => Stuck(why)
    else match name
      case "car" => FromAnswer(rt, Car(args))
      case "quote" => FromAnswer(rt, Quote(args))
      case "lambda" => FromAnswer(rt, MakeLambda(args, TpLambda, scope))
      case "macro" => FromAnswer(rt, MakeLambda(args, TpMacro, scope))
      case "dump-stack" => Ret(Nil, rt)
      case "progn" => Progn(rt, scope, args, fuel - 1)
      case "eval" =>
        if args.Nil? then Stuck(Trap) else Eval(rt, scope, args.left, fuel - 1)
      case "unquote" =>
        (match GetArgs(args, "*")
         case ArgsError(e) => Null(ArgFail(rt, e))
         case Bound(vs) => Eval(rt, scope, vs[0], fuel - 1))
      case "define" => Define(rt, scope, args, fuel - 1)
      case "if" => If(rt, scope, args, fuel - 1)
      case "print" => Print(rt, scope, args, fuel - 1)
      case "reduce" => Reduce(rt, scope, args, fuel - 1)
      case _ => Stuck(Unmodelled)
  }

  /** `define`: evaluate the expression and bind the symbol to it in the current scope. */
  function Define(rt: Runtime, scope: nat, args: Value, fuel: nat): (o: Outcome)
    requires Good(rt) && scope in rt.env && IsProper(args)
    ensures Settles(rt, o)
    ensures o.Ret? ==>
      (|Elements(args)| == 2 && Elements(args)[0].Sym? && scope in o.rt.env
       && Lookup(o.rt.env, scope, Elements(args)[0].name) == Some(o.v))
    decreases fuel, 0
  {
    if fuel == 0 then Stuck(OutOfFuel)
    else match GetArgs(args, "s*")
      case ArgsError(e) => Null(ArgFail(rt, e))
      case Bound(vs) =>
        GetArgsExact(args, "s*");
        assert Accepts("s*"[0], vs[0]);
        match Eval(rt, scope, vs[1], fuel - 1)
        case Ret(v, rt1) => BindDefined(rt1, scope, vs[0].name, v)
        case Null(rt1) => Null(rt1)
        case Stuck(why) => Stuck(why)
  }

  /** The end of `define`: the binding is made and the bound value returned. */
  function BindDefined(rt: Runtime, scope: nat, name: string, v: Value): (o: Outcome)
    requires Good(rt) && scope in rt.env
    ensures Settles(rt, o) && o.Ret?
    ensures o.rt.env == Bind(rt.env, scope, name, v) && o.v == Recorded(v, name)
    ensures scope in o.rt.env && Lookup(o.rt.env, scope, name) == Some(o.v)
  {
    var rt1 := rt.(env := Bind(rt.env, scope, name, v));
    assert Good(rt1);
    Ret(Recorded(v, name), rt1)
  }

  /** `if`: exactly three arguments; the second is evaluated when the first evaluates to a non-zero integer. */
  function If(rt: Runtime, scope: nat, args: Value, fuel: nat): (o: Outcome)
    requires Good(rt) && scope in rt.env && IsProper(args)
    ensures Settles(rt, o)
    ensures |Elements(args)| != 3 && fuel > 0 ==> o.Null? && o.rt == ArgFail(rt, o.rt.errno)
    decreases fuel, 0
  {
    if fuel == 0 then Stuck(OutOfFuel)
    else match GetArgs(args, "***")
      case ArgsError(e) => Null(ArgFail(rt, e))
      case Bound(vs) =>
        GetArgsExact(args, "***");
        match Eval(rt, scope, vs[0], fuel - 1)
        case Ret(c, rt1) => Eval(rt1, scope, if Truthy(c) then vs[1] else vs[2], fuel - 1)
        case Null(rt1) => Null(rt1)
        case Stuck(why) => Stuck(why)
  }

  /** `print`: evaluate the one argument and write it out; the result is nil. */
  function Print(rt: Runtime, scope: nat, args: Value, fuel: nat): (o: Outcome)
    requires Good(rt) && scope in rt.env && IsProper(args)
    ensures Settles(rt, o)
    ensures o.Ret? ==> o.v == Nil && |o.rt.printed| > |rt.printed|
    decreases fuel, 0
  {
    if fuel == 0 then Stuck(OutOfFuel)
    else match EvalList(rt, scope, args, fuel - 1)
      case Ret(vals, rt1) =>
        (match GetArgs(vals, "*")
         case ArgsError(e) => Null(ArgFail(rt1, e))
         case Bound(vs) => Printed(rt1, vs[0]))
      case Null(rt1) => Null(rt1)
      case Stuck(why) => Stuck(why)
  }

  /** The end of `print`: the value is written out and nil returned. */
  function Printed(rt: Runtime, v: Value): (o: Outcome)
    requires Good(rt)
    ensures Settles(rt, o) && o.Ret? && o.v == Nil
    ensures o.rt.printed == rt.printed + [v] && o.rt.env == rt.env
  {
    var rt1 := rt.(printed := rt.printed + [v]);
    assert Good(rt1);
    Ret(Nil, rt1)
  }

  /** `reduce`: evaluate the arguments, check them, then fold the list by calls. */
  function Reduce(rt: Runtime, scope: nat, args: Value, fuel: nat): (o: Outcome)
    requires Good(rt) && scope in rt.env && IsProper(args)
    ensures Settles(rt, o)
    decreases fuel, 0
  {
    if fuel == 0 then Stuck(OutOfFuel)
    else match EvalList(rt, scope, args, fuel - 1)
      case Ret(vals, rt1) =>
        (match ReduceSetup(vals)
         case SetupErr(a) => FromAnswer(rt1, a)
         case Fold(f, init, items) => FoldCalls(rt1, scope, f, init, items, fuel - 1))
      case Null(rt1) => Null(rt1)
      case Stuck(why) => Stuck(why)
  }

  /**
   * The loop of `lisp_builtin_reduce`: call the function on the list
   * `(accumulator item)` for each item in turn. The pair is passed as an
   * argument list, so a lambda evaluates both again.
   */
  function FoldCalls(rt: Runtime, scope: nat, f: Value, acc: Value, items: seq<Value>, fuel: nat): (o: Outcome)
    requires Good(rt) && scope in rt.env
    ensures Settles(rt, o)
    ensures items == [] && fuel > 0 ==> o == Ret(acc, rt)
    decreases fuel, 0
  {
    if fuel == 0 then Stuck(OutOfFuel)
    else if items == [] then Ret(acc, rt)
    else match Call(rt, scope, f, FromSeq([acc, items[0]]), fuel - 1)
      case Ret(acc2, rt1) => FoldCalls(rt1, scope, f, acc2, items[1..], fuel - 1)
      case Null(rt1) => Null(rt1)
      case Stuck(why) => Stuck(why)
  }

  /**
   * `lisp_eval_list` (`lisp_map` with `lisp_eval`): nil is returned as it
   * is; otherwise each item is evaluated in order, stopping at the first
   * error, into a new proper list of the same length. A list whose spine
   * ends in something other than nil is a syntax error once every item on
   * it has been evaluated.
   */
  function EvalList(rt: Runtime, scope: nat, l: Value, fuel: nat): (o: Outcome)
    requires Good(rt) && scope in rt.env
    ensures Settles(rt, o)
    ensures l.Nil? && fuel > 0 ==> o == Ret(Nil, rt)
    ensures o.Ret? ==> IsProper(l) && IsProper(o.v) && |Elements(o.v)| == |Elements(l)|
    ensures !(l.Nil? || l.Cons?) && fuel > 0 ==> o == Null(Raise(rt, LeSyntax))
    decreases fuel, 0
  {
    if fuel == 0 then Stuck(OutOfFuel)
    else if l.Nil? then Ret(l, rt)
    else if !l.Cons? then Null(Raise(rt, LeSyntax))
    else match Eval(rt, scope, l.left, fuel - 1)
      case Ret(v, rt1) =>
        (match EvalList(rt1, scope, l.right, fuel - 1)
         case Ret(vs, rt2) => Ret(Cons(v, vs), rt2)
         case Null(rt2) => Null(rt2)
         case Stuck(why) => Stuck(why))
      case Null(rt1) => Null(rt1)
      case Stuck(why) => Stuck(why)
  }

  /**
   * `lisp_progn`: evaluate each expression in order and return the last
   * value, or nil for no expressions; the first error stops it.
   */
  function Progn(rt: Runtime, scope: nat, l: Value, fuel: nat): (o: Outcome)
    requires Good(rt) && scope in rt.env
    ensures Settles(rt, o)
    ensures l.Nil? && fuel > 0 ==> o == Ret(Nil, rt)
    decreases fuel, 0
  {
    if fuel == 0 then Stuck(OutOfFuel)
    else if l.Nil? then Ret(Nil, rt)
    else if !l.Cons? then Stuck(Trap)
    else match Eval(rt, scope, l.left, fuel - 1)
      case Ret(v, rt1) =>
        if l.right.Nil? then Ret(v, rt1) else Progn(rt1, scope, l.right, fuel - 1)
      case Null(rt1) => Null(rt1)
      case Stuck(why) => Stuck(why)
  }

  /**
   * `lambda_call`: evaluate the arguments in the caller's scope, bind them
   * pairwise to the parameters in a new scope under the closure, and run
   * the body there; a macro's result is evaluated once more, in the
   * caller's scope.
   */
  function LambdaCall(rt: Runtime, scope: nat, lam: Value, args: Value, fuel: nat): (o: Outcome)
    requires Good(rt) && scope in rt.env && lam.Lambda?
    ensures Settles(rt, o)
    decreases fuel, 0
  {
    if fuel == 0 then Stuck(OutOfFuel)
    else match EvalList(rt, scope, args, fuel - 1)
      case Null(rt1) => Null(rt1)
      case Stuck(why) => Stuck(why)
      case Ret(vals, rt1) =>
        if lam.closure !in rt1.env then Stuck(Dangling)
        else match Enter(rt1, lam, vals)
          case EnterTrap => Stuck(Trap)
          case EnterErr(rt2) => Null(rt2)
          case Entered(rt2, inner) => RunBody(rt2, scope, inner, lam, fuel - 1)
  }

  /** The body of a lambda, run in its new scope; a macro's result is evaluated in the caller's scope. */
  function RunBody(rt: Runtime, scope: nat, inner: nat, lam: Value, fuel: nat): (o: Outcome)
    requires Good(rt) && scope in rt.env && inner in rt.env && lam.Lambda?
    ensures Settles(rt, o)
    decreases fuel, 0
  {
    if fuel == 0 then Stuck(OutOfFuel)
    else match Progn(rt, inner, lam.code, fuel - 1)
      case Ret(result, rt1) =>
        if lam.kind == TpMacro then Eval(rt1, scope, result, fuel - 1) else Ret(result, rt1)
      case Null(rt1) => Null(rt1)
      case Stuck(why) => Stuck(why)
  }

  /** A lambda call's new scope, after the parameters are bound. */
  datatype Entry = Entered(rt: Runtime, inner: nat) | EnterErr(rt: Runtime) | EnterTrap

  /**
   * Make the scope under the closure, with the next id, and bind the
   * parameters in it; a count mismatch is an error raised with that scope
   * already made.
   */
  function Enter(rt: Runtime, lam: Value, vals: Value): (e: Entry)
    requires Good(rt) && lam.Lambda? && lam.closure in rt.env
    ensures !e.EnterTrap? ==> Settles(rt, if e.Entered? then Ret(Nil, e.rt) else Null(e.rt))
    ensures e.Entered? ==> e.inner == rt.nextScope && e.inner in e.rt.env && e.rt.env[e.inner].up == Some(lam.closure)
  {
    var inner := rt.nextScope;
    var rt2 := rt.(env := NewScope(rt.env, inner, Some(lam.closure)), nextScope := inner + 1);
    assert Good(rt2);
    match BindParams(rt2.env, inner, lam.args, vals)
    case BindTrap => EnterTrap
    case Bound2Few(env3) => EnterErr(Raise(rt2.(env := env3), Le2Few))
    case Bound2Many(env3) => EnterErr(Raise(rt2.(env := env3), Le2Many))
    case BoundAll(env3) => Entered(rt2.(env := env3), inner)
  }

  /** How the pairwise binding of `lambda_call` ended. */
  datatype Binding = BoundAll(env: Env) | Bound2Few(env: Env) | Bound2Many(env: Env) | BindTrap

  /**
   * The binding loop of `lambda_call`: bind parameter and value pairwise
   * while both lists go on; parameters left over are `LE_2FEW`, values
   * left over `LE_2MANY`. The bindings made before either is found stay.
   */
  function BindParams(env: Env, id: nat, params: Value, vals: Value): (b: Binding)
    requires id in env
    ensures !b.BindTrap? ==> b.env.Keys == env.Keys && b.env[id].up == env[id].up
    ensures !b.BindTrap? ==> forall j :: j in env && j != id ==> b.env[j] == env[j]
    ensures !b.BindTrap? && WellFormed(env) ==> WellFormed(b.env)
    decreases vals
  {
    if params.Nil? || vals.Nil? then
      if !params.Nil? then Bound2Few(env)
      else if !vals.Nil? then Bound2Many(env)
      else BoundAll(env)
    else if !params.Cons? || !vals.Cons? || !params.left.Sym? then BindTrap
    else BindParams(Bind(env, id, params.left.name, vals.left), id, params.right, vals.right)
  }

  /** Every item on the spine of `params` is a symbol. */
  predicate AllSymbols(params: Value)
  {
    forall k :: 0 <= k < |Elements(params)| ==> Elements(params)[k].Sym?
  }

  lemma AllSymbolsTail(params: Value)
    requires params.Cons? && AllSymbols(params)
    ensures params.left.Sym? && AllSymbols(params.right)
  {
    ElementsTail(params);
    assert Elements(params)[0] == params.left;
    forall k | 0 <= k < |Elements(params.right)| ensures Elements(params.right)[k].Sym? {
      assert Elements(params.right)[k] == Elements(params)[k + 1];
    }
  }

  /** No pair after the `k`-th binds the `k`-th name again; `n` is the number of pairs. */
  predicate NotRebound(ps: seq<Value>, n: int, k: nat)
    requires k < |ps|
  {
    forall j :: k < j < |ps| && j < n ==> ps[j] != ps[k]
  }

  /** The same holds for the pairs after the first, counted from the second. */
  lemma NotReboundTail(ps: seq<Value>, n: int, k: nat)
    requires 0 < k < |ps| && NotRebound(ps, n, k)
    ensures NotRebound(ps[1..], n - 1, k - 1)
  {
    forall j | k - 1 < j < |ps[1..]| && j < n - 1 ensures ps[1..][j] != ps[1..][k - 1] {
      assert ps[1..][j] == ps[j + 1];
    }
  }

  /** The first name is bound by no later pair. */
  lemma FirstNotRebound(ps: seq<Value>, n: int)
    requires 0 < |ps| && NotRebound(ps, n, 0)
    ensures forall j :: 0 <= j < |ps[1..]| && j < n - 1 ==> ps[1..][j] != ps[0]
  {
    forall j | 0 <= j < |ps[1..]| && j < n - 1 ensures ps[1..][j] != ps[0] {
      assert ps[1..][j] == ps[j + 1];
    }
  }

  lemma ElementsTail(v: Value)
    requires v.Cons?
    ensures Elements(v) == [v.left] + Elements(v.right)
  {
  }

  /**
   * For a parameter list of symbols, the binding loop ends in `LE_2FEW`
   * exactly when there are more parameters than values, in `LE_2MANY`
   * exactly when there are fewer, and binds them all otherwise.
   */
  lemma {:induction false} BindParamsCounts(env: Env, id: nat, params: Value, vals: Value)
    requires id in env && IsProper(params) && IsProper(vals) && AllSymbols(params)
    ensures var b := BindParams(env, id, params, vals);
      var p := |Elements(params)|; var n := |Elements(vals)|;
      !b.BindTrap? && (b.BoundAll? <==> p == n) && (b.Bound2Few? <==> p > n) && (b.Bound2Many? <==> p < n)
    decreases vals
  {
    if params.Cons? && vals.Cons? {
      AllSymbolsTail(params);
      BindParamsCounts(Bind(env, id, params.left.name, vals.left), id, params.right, vals.right);
    }
  }

  /** A symbol that no remaining pair binds keeps its binding through the loop. */
  lemma {:induction false} BindParamsKeeps(env: Env, id: nat, params: Value, vals: Value, n: string)
    requires id in env && IsProper(params) && IsProper(vals) && n in env[id].bindings
    requires forall j :: 0 <= j < |Elements(params)| && j < |Elements(vals)| ==> Elements(params)[j] != Sym(n)
    ensures var b := BindParams(env, id, params, vals);
      !b.BindTrap? ==> n in b.env[id].bindings && b.env[id].bindings[n] == env[id].bindings[n]
    decreases vals
  {
    if params.Cons? && vals.Cons? && params.left.Sym? {
      ElementsTail(params);
      ElementsTail(vals);
      assert Elements(params)[0] == params.left;
      forall j | 0 <= j < |Elements(params.right)| && j < |Elements(vals.right)|
        ensures Elements(params.right)[j] != Sym(n)
      {
        assert Elements(params.right)[j] == Elements(params)[j + 1];
      }
      BindParamsKeeps(Bind(env, id, params.left.name, vals.left), id, params.right, vals.right, n);
    }
  }

  /**
   * After the loop, the `k`-th parameter is bound to the `k`-th value (as
   * `lisp_scope_bind` stores it) unless a later pair binds the same name.
   */
  lemma {:induction false} BindParamsBinds(env: Env, id: nat, params: Value, vals: Value, k: nat)
    requires id in env && IsProper(params) && IsProper(vals) && AllSymbols(params)
    requires k < |Elements(params)| && k < |Elements(vals)|
    requires NotRebound(Elements(params), |Elements(vals)|, k)
    ensures var b := BindParams(env, id, params, vals); var n := Elements(params)[k].name;
      !b.BindTrap? && n in b.env[id].bindings && b.env[id].bindings[n] == Recorded(Elements(vals)[k], n)
    decreases vals
  {
    if k == 0 {
      BindFirstParam(env, id, params, vals);
    } else {
      LaterPairs(params, vals, k);
      var env1 := Bind(env, id, params.left.name, vals.left);
      assert BindParams(env, id, params, vals) == BindParams(env1, id, params.right, vals.right);
      BindParamsBinds(env1, id, params.right, vals.right, k - 1);
    }
  }

  /** The `k`-th pair, seen from the lists' tails. */
  lemma LaterPairs(params: Value, vals: Value, k: nat)
    requires IsProper(params) && IsProper(vals) && AllSymbols(params)
    requires 0 < k < |Elements(params)| && k < |Elements(vals)|
    requires NotRebound(Elements(params), |Elements(vals)|, k)
    ensures params.Cons? && vals.Cons? && params.left.Sym? && AllSymbols(params.right)
    ensures k - 1 < |Elements(params.right)| && k - 1 < |Elements(vals.right)|
    ensures NotRebound(Elements(params.right), |Elements(vals.right)|, k - 1)
    ensures Elements(params)[k] == Elements(params.right)[k - 1] && Elements(vals)[k] == Elements(vals.right)[k - 1]
  {
    AllSymbolsTail(params);
    var ps := Elements(params);
    var vs := Elements(vals);
    ElementsTail(params);
    ElementsTail(vals);
    assert ps[1..] == Elements(params.right) && vs[1..] == Elements(vals.right);
    NotReboundTail(ps, |vs|, k);
    assert ps[k] == ps[1..][k - 1] && vs[k] == vs[1..][k - 1];
  }

  /** The first pair's binding, which no later pair overwrites. */
  lemma BindFirstParam(env: Env, id: nat, params: Value, vals: Value)
    requires id in env && IsProper(params) && IsProper(vals) && AllSymbols(params)
    requires 0 < |Elements(params)| && 0 < |Elements(vals)|
    requires NotRebound(Elements(params), |Elements(vals)|, 0)
    ensures var b := BindParams(env, id, params, vals); var n := Elements(params)[0].name;
      !b.BindTrap? && n in b.env[id].bindings && b.env[id].bindings[n] == Recorded(Elements(vals)[0], n)
  {
    BindParamsCounts(env, id, params, vals);
    AllSymbolsTail(params);
    var ps := Elements(params);
    var vs := Elements(vals);
    ElementsTail(params);
    ElementsTail(vals);
    assert ps[1..] == Elements(params.right) && vs[1..] == Elements(vals.right);
    var name := params.left.name;
    var env1 := Bind(env, id, name, vals.left);
    assert BindParams(env, id, params, vals) == BindParams(env1, id, params.right, vals.right);
    FirstNotRebound(ps, |vs|);
    assert ps[0] == Sym(name);
    BindParamsKeeps(env1, id, params.right, vals.right, name);
  }

  /** Integers and strings, which evaluate to themselves. */
  predicate Literal(v: Value) { v.Int? || v.Str? }

  /** A list of literals, on its whole spine. */
  predicate Literals(l: Value)
  {
    l.Cons? ==> Literal(l.left) && Literals(l.right)
  }

  /** A list of literals evaluates to itself, and nothing else changes. */
  lemma {:induction false} EvalListLiterals(rt: Runtime, scope: nat, l: Value, fuel: nat)
    requires Good(rt) && scope in rt.env && IsProper(l) && Literals(l)
    requires fuel > |Elements(l)|
    ensures EvalList(rt, scope, l, fuel) == Ret(l, rt)
    decreases l
  {
    if l.Cons? {
      EvalListLiterals(rt, scope, l.right, fuel - 1);
    }
  }

  /** The last item of a non-empty list. */
  lemma LastItem(l: Value)
    requires l.Cons?
    ensures l.right.Cons? ==> Elements(l)[|Elements(l)| - 1] == Elements(l.right)[|Elements(l.right)| - 1]
    ensures !l.right.Cons? ==> Elements(l)[|Elements(l)| - 1] == l.left
  {
    ElementsTail(l);
  }

  /** A body of literals evaluates to its last expression. */
  lemma {:induction false} PrognLiterals(rt: Runtime, scope: nat, l: Value, fuel: nat)
    requires Good(rt) && scope in rt.env && IsProper(l) && l.Cons? && Literals(l)
    requires fuel > |Elements(l)|
    ensures Progn(rt, scope, l, fuel) == Ret(Elements(l)[|Elements(l)| - 1], rt)
    decreases l
  {
    LastItem(l);
    if l.right.Cons? {
      PrognLiterals(rt, scope, l.right, fuel - 1);
    }
  }

  /**
   * `if` evaluates its condition, then exactly one branch: the second
   * argument when the condition is a non-zero integer, the third otherwise.
   */
  lemma IfChooses(rt: Runtime, scope: nat, c: Value, t: Value, e: Value, fuel: nat, cv: Value, rt1: Runtime)
    requires Good(rt) && scope in rt.env && fuel > 0
    requires Eval(rt, scope, c, fuel - 1) == Ret(cv, rt1)
    ensures Good(rt1) && scope in rt1.env
    ensures If(rt, scope, FromSeq([c, t, e]), fuel)
            == Eval(rt1, scope, if cv.Int? && cv.x != 0 then t else e, fuel - 1)
  {
    GetArgsAny([c, t, e], "***");
    FromSeqElements([c, t, e]);
  }

  /*
   * Single evaluation steps, for following a concrete evaluation.
   */

  lemma EvalStep(rt: Runtime, scope: nat, head: Value, rest: Value, fuel: nat, c: Value, rt1: Runtime)
    requires Good(rt) && scope in rt.env && fuel > 0 && (rest.Nil? || rest.Cons?)
    requires Eval(rt, scope, head, fuel - 1) == Ret(c, rt1)
    ensures Good(rt1) && scope in rt1.env
    ensures Eval(rt, scope, Cons(head, rest), fuel) == Call(rt1, scope, c, rest, fuel - 1)
  {
  }

  /** `lisp_call` around a call that leaves the runtime as it found it. */
  lemma CallStep(rt: Runtime, scope: nat, c: Value, args: Value, fuel: nat, v: Value)
    requires Good(rt) && scope in rt.env && fuel > 0
    requires var pushed := rt.(stack := Cons(c, rt.stack), depth := rt.depth + 1);
      Apply(pushed, scope, c, args, fuel - 1) == Ret(v, pushed)
    ensures Call(rt, scope, c, args, fuel) == Ret(v, rt)
  {
    var pushed := rt.(stack := Cons(c, rt.stack), depth := rt.depth + 1);
    assert pushed.(stack := pushed.stack.right, depth := pushed.depth - 1) == rt;
  }

  lemma BuiltinStep(rt: Runtime, scope: nat, name: string, args: Value, fuel: nat)
    requires Good(rt) && scope in rt.env && fuel > 1 && IsProper(args)
    ensures Apply(rt, scope, Builtin(name, false), args, fuel) == RunBuiltin(rt, scope, name, args, fuel - 2)
  {
    IsBadListIffImproper(args);
  }

  lemma ComputeStep(rt: Runtime, scope: nat, name: string, args: Value, fuel: nat, vals: Value, rt1: Runtime)
    requires Good(rt) && scope in rt.env && fuel > 0 && IsProper(args) && Evaluating(name)
    requires EvalList(rt, scope, args, fuel - 1) == Ret(vals, rt1)
    ensures IsProper(vals) && RunBuiltin(rt, scope, name, args, fuel) == FromAnswer(rt1, Compute(name, vals))
  {
  }

  /** `cdr` of an argument that evaluates to nil returns NULL and records no error. */
  lemma CdrOfNilReturnsNull(rt: Runtime, scope: nat, args: Value, fuel: nat, rt1: Runtime)
    requires Good(rt) && scope in rt.env && fuel > 0 && IsProper(args)
    requires EvalList(rt, scope, args, fuel - 1) == Ret(FromSeq([Nil]), rt1)
    ensures RunBuiltin(rt, scope, "cdr", args, fuel) == Null(rt1)
  {
    ComputeStep(rt, scope, "cdr", args, fuel, FromSeq([Nil]), rt1);
    CdrOfNilSilent();
  }

  /**
   * A comparison of two evaluated integers answers by the sign of their
   * 32-bit difference, so `(< -2147483647 2)` is 0.
   */
  lemma ComparisonInEval(rt: Runtime, scope: nat, name: string, args: Value, fuel: nat, a: int, b: int, rt1: Runtime)
    requires Good(rt) && scope in rt.env && fuel > 0 && IsProper(args)
    requires name in {"==", "=", ">", ">=", "<", "<="}
    requires EvalList(rt, scope, args, fuel - 1) == Ret(FromSeq([Int(a), Int(b)]), rt1)
    ensures RunBuiltin(rt, scope, name, args, fuel) == Ret(Flag(SignTest(RelationOf(name), Wrap32(a - b))), rt1)
  {
    ComputeStep(rt, scope, name, args, fuel, FromSeq([Int(a), Int(b)]), rt1);
    CompareAsWrittenOfTwo(RelationOf(name), a, b);
  }

  /** The sum of two integers. */
  lemma SumOfTwo(a: int, b: int)
    ensures Plus([Int(a), Int(b)]) == Ok(Int(Wrap32(a + b)))
  {
    PlusIsSum([Int(a), Int(b)]);
    assert [Int(a), Int(b)][1..] == [Int(b)];
    assert [Int(b)][1..] == [];
    assert IntSum([Int(b)]) == b;
  }

  /**
   * `(+ a b)` with `+` bound to the builtin: the 32-bit sum, and the
   * runtime exactly as it was, the frame `lisp_call` pushed popped again.
   */
  lemma AddCall(rt: Runtime, scope: nat, a: int, b: int, fuel: nat)
    requires Good(rt) && scope in rt.env && Lookup(rt.env, scope, "+") == Some(Builtin("+", false))
    requires fuel >= 8
    ensures Eval(rt, scope, Cons(Sym("+"), Cons(Int(a), Cons(Int(b), Nil))), fuel) == Ret(Int(Wrap32(a + b)), rt)
  {
    var args := Cons(Int(a), Cons(Int(b), Nil));
    var plus := Builtin("+", false);
    AddApply(rt.(stack := Cons(plus, rt.stack), depth := rt.depth + 1), scope, a, b, fuel - 2);
    CallStep(rt, scope, plus, args, fuel - 1, Int(Wrap32(a + b)));
    EvalStep(rt, scope, Sym("+"), args, fuel, plus, rt);
  }

  /** The `+` builtin applied to two integers. */
  lemma AddApply(rt: Runtime, scope: nat, a: int, b: int, fuel: nat)
    requires Good(rt) && scope in rt.env && fuel >= 6
    ensures Apply(rt, scope, Builtin("+", false), Cons(Int(a), Cons(Int(b), Nil)), fuel) == Ret(Int(Wrap32(a + b)), rt)
  {
    var args := Cons(Int(a), Cons(Int(b), Nil));
    assert Elements(args) == [Int(a), Int(b)] by {
      assert Elements(args.right) == [Int(b)];
    }
    EvalListLiterals(rt, scope, args, fuel - 3);
    ComputeStep(rt, scope, "+", args, fuel - 2, args, rt);
    SumOfTwo(a, b);
    BuiltinStep(rt, scope, "+", args, fuel);
  }

  lemma ApplyLambda(rt: Runtime, scope: nat, lam: Value, args: Value, fuel: nat)
    requires Good(rt) && scope in rt.env && lam.Lambda? && fuel > 0
    ensures Apply(rt, scope, lam, args, fuel) == LambdaCall(rt, scope, lam, args, fuel - 1)
  {
  }

  lemma LambdaCallEntered(rt: Runtime, scope: nat, lam: Value, args: Value, fuel: nat, vals: Value, rt1: Runtime, rt2: Runtime, inner: nat)
    requires Good(rt) && scope in rt.env && lam.Lambda? && fuel > 0
    requires EvalList(rt, scope, args, fuel - 1) == Ret(vals, rt1) && lam.closure in rt1.env
    requires Enter(rt1, lam, vals) == Entered(rt2, inner)
    requires Good(rt2) && scope in rt2.env && inner in rt2.env
    ensures LambdaCall(rt, scope, lam, args, fuel) == RunBody(rt2, scope, inner, lam, fuel - 1)
  {
  }

  /** A lambda whose body is one symbol returns that symbol's value in the new scope. */
  lemma BodyVariable(rt: Runtime, scope: nat, inner: nat, lam: Value, fuel: nat, name: string, v: Value)
    requires Good(rt) && scope in rt.env && inner in rt.env && lam.Lambda? && lam.kind == TpLambda && fuel > 3
    requires lam.code == Cons(Sym(name), Nil) && Lookup(rt.env, inner, name) == Some(v)
    ensures RunBody(rt, scope, inner, lam, fuel) == Ret(v, rt)
  {
    assert Eval(rt, inner, Sym(name), fuel - 1 - 1) == Ret(v, rt);
  }

  /**
   * `((lambda (x) x) v)` for a literal `v`: the value comes back, through a
   * new scope under the closure that binds `x` to it.
   */
  lemma IdentityCall(rt: Runtime, scope: nat, closure: nat, v: Value, fuel: nat)
    requires Good(rt) && scope in rt.env && closure in rt.env && Literal(v) && fuel >= 6
    ensures var x := Cons(Sym("x"), Nil);
      var o := Apply(rt, scope, Lambda(TpLambda, x, x, closure, None), Cons(v, Nil), fuel);
      o.Ret? && o.v == v && o.rt.nextScope == rt.nextScope + 1
      && rt.nextScope in o.rt.env && o.rt.env[rt.nextScope].up == Some(closure)
      && o.rt.env[rt.nextScope].bindings == map["x" := v]
  {
    var x := Cons(Sym("x"), Nil);
    var lam := Lambda(TpLambda, x, x, closure, None);
    var inner := rt.nextScope;
    var rt2 := IdentityEnter(rt, closure, v);
    EvalListLiterals(rt, scope, Cons(v, Nil), fuel - 1 - 1);
    VariableBodyCall(rt, scope, lam, Cons(v, Nil), fuel, rt2, inner, "x", v);
  }

  /** A lambda whose body is one variable, called on arguments that evaluate to themselves, returns that variable's value in the new scope. */
  lemma VariableBodyCall(rt: Runtime, scope: nat, lam: Value, args: Value, fuel: nat, rt2: Runtime, inner: nat, name: string, v: Value)
    requires Good(rt) && scope in rt.env && lam.Lambda? && lam.kind == TpLambda && fuel > 5
    requires EvalList(rt, scope, args, fuel - 1 - 1) == Ret(args, rt) && lam.closure in rt.env
    requires Enter(rt, lam, args) == Entered(rt2, inner)
    requires Good(rt2) && scope in rt2.env && inner in rt2.env
    requires lam.code == Cons(Sym(name), Nil) && Lookup(rt2.env, inner, name) == Some(v)
    ensures Apply(rt, scope, lam, args, fuel) == Ret(v, rt2)
  {
    ApplyEntered(rt, scope, lam, args, fuel, args, rt, rt2, inner);
    BodyVariable(rt2, scope, inner, lam, fuel - 1 - 1, name, v);
  }

  /** Once the arguments are evaluated and the new scope entered, applying a lambda is running its body. */
  lemma ApplyEntered(rt: Runtime, scope: nat, lam: Value, args: Value, fuel: nat, vals: Value, rt1: Runtime, rt2: Runtime, inner: nat)
    requires Good(rt) && scope in rt.env && lam.Lambda? && fuel > 1
    requires EvalList(rt, scope, args, fuel - 1 - 1) == Ret(vals, rt1) && lam.closure in rt1.env
    requires Enter(rt1, lam, vals) == Entered(rt2, inner)
    requires Good(rt2) && scope in rt2.env && inner in rt2.env
    ensures Apply(rt, scope, lam, args, fuel) == RunBody(rt2, scope, inner, lam, fuel - 1 - 1)
  {
    LambdaCallEntered(rt, scope, lam, args, fuel - 1, vals, rt1, rt2, inner);
    ApplyLambda(rt, scope, lam, args, fuel);
  }

  /** Entering `(lambda (x) x)` with one literal: a new scope binding just `x`. */
  lemma IdentityEnter(rt: Runtime, closure: nat, v: Value) returns (rt2: Runtime)
    requires Good(rt) && closure in rt.env && Literal(v)
    ensures var x := Cons(Sym("x"), Nil);
      Enter(rt, Lambda(TpLambda, x, x, closure, None), Cons(v, Nil)) == Entered(rt2, rt.nextScope)
    ensures Good(rt2) && rt2.nextScope == rt.nextScope + 1 && rt.nextScope in rt2.env
    ensures rt.env.Keys <= rt2.env.Keys
    ensures rt2.env[rt.nextScope] == Scope(Some(closure), map["x" := v])
    ensures Lookup(rt2.env, rt.nextScope, "x") == Some(v)
  {
    var x := Cons(Sym("x"), Nil);
    var inner := rt.nextScope;
    var env2 := NewScope(rt.env, inner, Some(closure));
    var env3 := Bind(env2, inner, "x", v);
    rt2 := rt.(env := env3, nextScope := inner + 1);
    assert BindParams(env2, inner, x, Cons(v, Nil)) == BoundAll(env3);
    assert env3[inner].bindings == map["x" := v];
  }

  /** A macro's body result is evaluated again, in the caller's scope and not the macro's own. */
  lemma MacroResultInCallerScope(rt: Runtime, scope: nat, inner: nat, lam: Value, fuel: nat, e: Value, n: string, rt1: Runtime)
    requires Good(rt) && scope in rt.env && inner in rt.env && lam.Lambda? && lam.kind == TpMacro && fuel > 2
    requires lam.code == Cons(e, Nil) && Eval(rt, inner, e, fuel - 2) == Ret(Sym(n), rt1)
    ensures RunBody(rt, scope, inner, lam, fuel) ==
      match Lookup(rt1.env, scope, n)
      case Some(x) => Ret(x, rt1)
      case None => Null(Raise(rt1, LeNotFound))
  {
  }

  /*
   * The runtime a program starts in (`lisp_init` and `lisp_new_default_scope`).
   */

  /** The names `lisp_scope_populate_builtins` binds. */
  const DefaultNames: set<string> :=
    {"eval", "car", "cdr", "quote", "cons", "lambda", "macro", "define",
     "+", "-", "*", "/", "==", "=", ">", ">=", "<", "<=", "if", "null?",
     "map", "reduce", "print", "dump-stack", "progn", "unquote", "quasiquote"}

  /** Each default name bound to the builtin of that name; only `eval` and `car` get evaluated arguments. */
  function DefaultBindings(): (m: map<string, Value>)
    ensures m.Keys == DefaultNames
    ensures forall n :: n in m ==> m[n] == Builtin(n, n == "eval" || n == "car")
  {
    map n | n in DefaultNames :: Builtin(n, n == "eval" || n == "car")
  }

  /**
   * A fresh runtime with the default scope as scope 0: an empty stack at
   * depth 0, no error, nothing printed.
   */
  function Initial(): (rt: Runtime)
    ensures Good(rt) && 0 in rt.env && rt.nextScope == 1 && rt.stack == Nil && rt.depth == 0 && !rt.failed
  {
    Started(DefaultBindings())
  }

  /** A runtime whose only scope, scope 0, holds `bindings`. */
  function Started(bindings: map<string, Value>): (rt: Runtime)
    ensures Good(rt) && rt.env == map[0 := Scope(None, bindings)] && rt.nextScope == 1
    ensures rt.stack == Nil && rt.depth == 0 && !rt.failed
  {
    Runtime(map[0 := Scope(None, bindings)], 1, Nil, 0, false, LeNone, None, [])
  }

  /** In the default scope, `(+ a b)` is the 32-bit sum and leaves the runtime untouched. */
  lemma InitialAdd(a: int, b: int, fuel: nat)
    requires fuel >= 8
    ensures Eval(Initial(), 0, Cons(Sym("+"), Cons(Int(a), Cons(Int(b), Nil))), fuel) == Ret(Int(Wrap32(a + b)), Initial())
  {
    var rt := Initial();
    assert Lookup(rt.env, 0, "+") == Some(Builtin("+", false));
    AddCall(rt, 0, a, b, fuel);
  }
}
