/**
 * Structural equality (types.c `lisp_compare` and the per-type `compare`
 * functions). Comparison dispatches on the left value's type:
 *   - type objects are equal only to themselves;
 *   - a list equals a list: nil only nil, a cell a cell with equal halves;
 *   - integers compare their numbers, symbols and strings their text (a
 *     symbol never equals a string);
 *   - builtins compare name and evaluation flag;
 *   - lambdas compare kind, parameters, code and closure scope, but never the
 *     name they were first bound to;
 *   - scopes are equal when they are the same scope, or their parents are
 *     equal and they bind the same symbols to equal values.
 *
 * The C code follows scopes, and the values in them, with no bound (two
 * distinct scopes that each bind a lambda closed over itself recurse for
 * ever); here each step into a scope spends one unit of `depth`, and at
 * depth 0 two distinct scopes compare unequal.
 */
module Equality {
  import opened Values
  import opened Scopes

  /**
   * How `scope_compare` checks the sizes of the two tables: line 207 of
   * types.c compares the left table's length with itself (`LeftOnly`); the
   * evident intent is to compare both tables (`BothSizes`).
   */
  datatype SizeCheck = LeftOnly | BothSizes

  function Equal(env: Env, a: Value, b: Value, depth: nat, sc: SizeCheck): (r: bool)
    ensures a.Int? ==> (r <==> b == a)
    ensures a.Sym? || a.Str? ==> (r <==> b == a)
    ensures a.TypeObj? || a.Builtin? ==> (r <==> b == a)
    ensures r ==> TypeOf(b) == TypeOf(a)
    ensures a.Nil? ==> (r <==> b.Nil?)
    decreases depth, 1, a
  {
    match a
    case Nil => b.Nil?
    case Cons(l, rt) => b.Cons? && Equal(env, l, b.left, depth, sc) && Equal(env, rt, b.right, depth, sc)
    case Int(x) => b.Int? && b.x == x
    case Sym(t) => b.Sym? && b.name == t
    case Str(t) => b.Str? && b.text == t
    case Builtin(n, e) => b.Builtin? && b.bname == n && b.evald == e
    case Lambda(k, args, code, c, _) =>
      && b.Lambda? && b.kind == k
      && Equal(env, args, b.args, depth, sc)
      && Equal(env, code, b.code, depth, sc)
      && ScopesEqual(env, c, b.closure, depth, sc)
    case ScopeRef(i) => b.ScopeRef? && ScopesEqual(env, i, b.id, depth, sc)
    case TypeObj(t) => b.TypeObj? && b.tag == t
  }

  /** `scope_compare` on the scopes with ids `i` and `j`. */
  function ScopesEqual(env: Env, i: nat, j: nat, depth: nat, sc: SizeCheck): (r: bool)
    ensures i == j ==> r
    decreases depth, 0
  {
    if i == j then true
    else if depth == 0 || i !in env || j !in env then false
    else
      var lhs := env[i];
      var rhs := env[j];
      ParentsEqual(env, lhs.up, rhs.up, depth - 1, sc) && BindingsEqual(env, lhs.bindings, rhs.bindings, depth - 1, sc)
  }

  /**
   * The table check of `scope_compare`: the sizes (as `sc` says), then every
   * symbol of the left table bound in the right one to an equal value.
   */
  predicate BindingsEqual(env: Env, m1: map<string, Value>, m2: map<string, Value>, depth: nat, sc: SizeCheck)
    decreases depth, 2
  {
    && (sc == LeftOnly || |m1| == |m2|)
    && forall n :: n in m1 ==> n in m2 && Equal(env, m1[n], m2[n], depth, sc)
  }

  /** The parent check of `scope_compare`: both scopes have no parent, or both have equal parents. */
  predicate ParentsEqual(env: Env, u: Option<nat>, w: Option<nat>, depth: nat, sc: SizeCheck)
    decreases depth, 1
  {
    match (u, w)
    case (Some(p), Some(q)) => ScopesEqual(env, p, q, depth, sc)
    case (None, None) => true
    case _ => false
  }

  /** Every value equals itself. */
  lemma {:induction false} EqualReflexive(env: Env, a: Value, depth: nat, sc: SizeCheck)
    ensures Equal(env, a, a, depth, sc)
    decreases a
  {
    match a
    case Cons(l, r) =>
      EqualReflexive(env, l, depth, sc);
      EqualReflexive(env, r, depth, sc);
    case Lambda(_, args, code, _, _) =>
      EqualReflexive(env, args, depth, sc);
      EqualReflexive(env, code, depth, sc);
    case _ =>
  }

  /** The name a lambda was first bound to never affects a comparison, on either side. */
  lemma {:induction false} FirstBindingIgnored(env: Env, a: Value, b: Value, n1: Option<string>, n2: Option<string>,
                                               depth: nat, sc: SizeCheck)
    requires a.Lambda? && b.Lambda?
    ensures Equal(env, a.(firstBinding := n1), b.(firstBinding := n2), depth, sc) == Equal(env, a, b, depth, sc)
  {
  }

  /** Values built only from lists, numbers, text, builtins and types. */
  predicate Plain(v: Value)
  {
    match v
    case Cons(l, r) => Plain(l) && Plain(r)
    case Lambda(_, _, _, _, _) => false
    case ScopeRef(_) => false
    case _ => true
  }

  /** On plain values the comparison is exactly equality of the values. */
  lemma {:induction false} PlainEqualIff(env: Env, a: Value, b: Value, depth: nat, sc: SizeCheck)
    requires Plain(a)
    ensures Equal(env, a, b, depth, sc) <==> a == b
    decreases a
  {
    if a.Cons? && b.Cons? {
      PlainEqualIff(env, a.left, b.left, depth, sc);
      PlainEqualIff(env, a.right, b.right, depth, sc);
    }
  }

  /** Two scope tables of which the first binds a subset of the second's symbols, with as many entries. */
  lemma SameKeys(m1: map<string, Value>, m2: map<string, Value>)
    requires m1.Keys <= m2.Keys && |m1| == |m2|
    ensures m1.Keys == m2.Keys
  {
    var extra := m2.Keys - m1.Keys;
    assert m2.Keys == m1.Keys + extra;
    assert |m2.Keys| == |m1.Keys| + |extra|;
    assert extra == {};
  }

  /** With both sizes checked, the comparison is symmetric. */
  lemma {:induction false} EqualSymmetric(env: Env, a: Value, b: Value, depth: nat)
    requires Equal(env, a, b, depth, BothSizes)
    ensures Equal(env, b, a, depth, BothSizes)
    decreases depth, 1, a
  {
    match a
    case Cons(l, r) =>
      EqualSymmetric(env, l, b.left, depth);
      EqualSymmetric(env, r, b.right, depth);
    case Lambda(_, args, code, c, _) =>
      EqualSymmetric(env, args, b.args, depth);
      EqualSymmetric(env, code, b.code, depth);
      ScopesEqualSymmetric(env, c, b.closure, depth);
    case ScopeRef(i) =>
      ScopesEqualSymmetric(env, i, b.id, depth);
    case _ =>
  }

  lemma {:induction false} ScopesEqualSymmetric(env: Env, i: nat, j: nat, depth: nat)
    requires ScopesEqual(env, i, j, depth, BothSizes)
    ensures ScopesEqual(env, j, i, depth, BothSizes)
    decreases depth, 0
  {
    if i != j {
      var lhs := env[i];
      var rhs := env[j];
      if lhs.up.Some? {
        ScopesEqualSymmetric(env, lhs.up.value, rhs.up.value, depth - 1);
      }
      BindingsSymmetric(env, lhs.bindings, rhs.bindings, depth - 1);
    }
  }

  /** The table half of `ScopesEqualSymmetric`. */
  lemma {:induction false} BindingsSymmetric(env: Env, m1: map<string, Value>, m2: map<string, Value>, depth: nat)
    requires BindingsEqual(env, m1, m2, depth, BothSizes)
    ensures BindingsEqual(env, m2, m1, depth, BothSizes)
    decreases depth, 2
  {
    SameKeys(m1, m2);
    forall n | n in m2 ensures n in m1 && Equal(env, m2[n], m1[n], depth, BothSizes) {
      EqualSymmetric(env, m1[n], m2[n], depth);
    }
  }

  /**
   * More depth never turns a match into a mismatch: a comparison found equal
   * stays equal at every greater depth. Depth only cuts off the scope
   * walk, so the answer changes at most once as the depth grows, from false
   * to true, and stays fixed once the depth covers every scope the C
   * recursion enters.
   */
  lemma {:induction false} EqualMonotone(env: Env, a: Value, b: Value, depth: nat, more: nat, sc: SizeCheck)
    requires depth <= more && Equal(env, a, b, depth, sc)
    ensures Equal(env, a, b, more, sc)
    decreases depth, 1, a
  {
    match a
    case Cons(l, r) =>
      EqualMonotone(env, l, b.left, depth, more, sc);
      EqualMonotone(env, r, b.right, depth, more, sc);
    case Lambda(_, args, code, c, _) =>
      EqualMonotone(env, args, b.args, depth, more, sc);
      EqualMonotone(env, code, b.code, depth, more, sc);
      ScopesEqualMonotone(env, c, b.closure, depth, more, sc);
    case ScopeRef(i) =>
      ScopesEqualMonotone(env, i, b.id, depth, more, sc);
    case _ =>
  }

  lemma {:induction false} ScopesEqualMonotone(env: Env, i: nat, j: nat, depth: nat, more: nat, sc: SizeCheck)
    requires depth <= more && ScopesEqual(env, i, j, depth, sc)
    ensures ScopesEqual(env, i, j, more, sc)
    decreases depth, 0
  {
    if i != j {
      var lhs := env[i];
      var rhs := env[j];
      if lhs.up.Some? {
        ScopesEqualMonotone(env, lhs.up.value, rhs.up.value, depth - 1, more - 1, sc);
      }
      forall n | n in lhs.bindings
        ensures n in rhs.bindings && Equal(env, lhs.bindings[n], rhs.bindings[n], more - 1, sc)
      {
        EqualMonotone(env, lhs.bindings[n], rhs.bindings[n], depth - 1, more - 1, sc);
      }
    }
  }

  /**
   * The cut-off is real: two distinct scopes that both bind `x` to 1 and
   * have no parent are unequal with no depth to spend and equal with one.
   */
  lemma DepthDecides()
    ensures var env := map[0 := Scope(None, map["x" := Int(1)]), 1 := Scope(None, map["x" := Int(1)])];
      !ScopesEqual(env, 0, 1, 0, BothSizes) && ScopesEqual(env, 0, 1, 1, BothSizes)
  {
    var env := map[0 := Scope(None, map["x" := Int(1)]), 1 := Scope(None, map["x" := Int(1)])];
    assert env[0].bindings.Keys == {"x"};
    assert Equal(env, Int(1), Int(1), 0, BothSizes);
  }

  /** Two parentless scopes: an empty one (id 0) and one binding `x` to 1 (id 1). */
  function Lopsided(): (env: Env)
    ensures 0 in env && 1 in env && env[0].bindings == map[] && |env[1].bindings| == 1
  {
    map[0 := Scope(None, map[]), 1 := Scope(None, map["x" := Int(1)])]
  }

  /**
   * As written, the empty scope compares equal to a scope with a binding,
   * but not the other way round.
   */
  lemma EmptyScopeEqualsAnyAsWritten()
    ensures ScopesEqual(Lopsided(), 0, 1, 1, LeftOnly)
    ensures !ScopesEqual(Lopsided(), 1, 0, 1, LeftOnly)
  {
    var env := Lopsided();
    assert "x" in env[1].bindings;
  }

  /** With both sizes checked, the two scopes differ in either order. */
  lemma EmptyScopeDiffers()
    ensures !ScopesEqual(Lopsided(), 0, 1, 1, BothSizes)
    ensures !ScopesEqual(Lopsided(), 1, 0, 1, BothSizes)
  {
  }
}
