/**
 * Scopes (util.c `lisp_scope_bind`, `lisp_scope_lookup`). A scope is a table
 * from symbol text to value plus an optional parent (`up`). The C program
 * links scopes by pointer; here every scope has an id in an environment, and
 * an id is handed out when the scope is created, so a parent always has a
 * smaller id than its children.
 */
module Scopes {
  import opened Values

  datatype Scope = Scope(up: Option<nat>, bindings: map<string, Value>)

  type Env = map<nat, Scope>

  /** Every parent exists and was created before its child. */
  predicate WellFormed(env: Env)
  {
    forall id :: id in env && env[id].up.Some? ==> env[id].up.value < id && env[id].up.value in env
  }

  /** The scopes searched for a symbol from `id`: `id`, its parent, and so on up. */
  function Chain(env: Env, id: nat): (c: seq<nat>)
    ensures forall k :: 0 <= k < |c| ==> c[k] in env && c[k] <= id
    ensures id in env ==> |c| > 0 && c[0] == id
    decreases id
  {
    if id !in env then []
    else match env[id].up
      case Some(p) => if p < id then [id] + Chain(env, p) else [id]
      case None => [id]
  }

  /**
   * `lisp_scope_lookup`: the binding in the innermost scope that has the
   * symbol; `None` stands for the `LE_NOTFOUND` error once the chain ends.
   */
  function Lookup(env: Env, id: nat, name: string): (r: Option<Value>)
    ensures id in env && name in env[id].bindings ==> r == Some(env[id].bindings[name])
    decreases id
  {
    if id !in env then None
    else if name in env[id].bindings then Some(env[id].bindings[name])
    else match env[id].up
      case Some(p) => if p < id then Lookup(env, p, name) else None
      case None => None
  }

  /** The position in `c` of the first scope that binds `name`, if any. */
  predicate FirstBinder(env: Env, c: seq<nat>, k: nat, name: string)
    requires forall j :: 0 <= j < |c| ==> c[j] in env
  {
    k < |c| && name in env[c[k]].bindings
    && forall j :: 0 <= j < k ==> name !in env[c[j]].bindings
  }

  /**
   * In a well-formed environment the lookup finds the binding of the first
   * scope on the chain that binds the symbol, and fails exactly when no
   * scope on the chain binds it.
   */
  lemma LookupFirstOnChain(env: Env, id: nat, name: string)
    requires WellFormed(env)
    ensures var c := Chain(env, id);
      (Lookup(env, id, name).None? <==> forall j :: 0 <= j < |c| ==> name !in env[c[j]].bindings)
      && forall k: nat :: FirstBinder(env, c, k, name) ==> Lookup(env, id, name) == Some(env[c[k]].bindings[name])
  {
    LookupNoneOnChain(env, id, name);
    LookupFirstBinder(env, id, name);
  }

  /** No scope in `c` binds `name`. */
  predicate NoBinder(env: Env, c: seq<nat>, name: string)
    requires forall j :: 0 <= j < |c| ==> c[j] in env
  {
    forall j :: 0 <= j < |c| ==> name !in env[c[j]].bindings
  }

  /** The lookup fails exactly when no scope on the chain binds the symbol. */
  lemma {:induction false} LookupNoneOnChain(env: Env, id: nat, name: string)
    requires WellFormed(env)
    ensures Lookup(env, id, name).None? <==> NoBinder(env, Chain(env, id), name)
    decreases id
  {
    var c := Chain(env, id);
    if id in env && name !in env[id].bindings && env[id].up.Some? {
      var p := env[id].up.value;
      LookupNoneOnChain(env, p, name);
      var q := Chain(env, p);
      assert c == [id] + q;
      assert Lookup(env, id, name) == Lookup(env, p, name);
      if Lookup(env, id, name).None? {
        forall j | 0 <= j < |c| ensures name !in env[c[j]].bindings {
          if j > 0 { assert c[j] == q[j - 1]; } else { assert c[0] == id; }
        }
      } else {
        var j :| 0 <= j < |q| && name in env[q[j]].bindings;
        assert c[j + 1] == q[j];
      }
    }
  }

  /** The lookup finds the binding of the first scope on the chain that binds the symbol. */
  lemma {:induction false} LookupFirstBinder(env: Env, id: nat, name: string)
    requires WellFormed(env)
    ensures forall k: nat :: FirstBinder(env, Chain(env, id), k, name) ==>
              Lookup(env, id, name) == Some(env[Chain(env, id)[k]].bindings[name])
    decreases id
  {
    var c := Chain(env, id);
    if id in env && name !in env[id].bindings && env[id].up.Some? {
      var p := env[id].up.value;
      LookupFirstBinder(env, p, name);
      var q := Chain(env, p);
      assert c == [id] + q;
      assert Lookup(env, id, name) == Lookup(env, p, name);
      forall k: nat | FirstBinder(env, c, k, name)
        ensures Lookup(env, id, name) == Some(env[c[k]].bindings[name])
      {
        assert k > 0;
        assert FirstBinder(env, q, k - 1, name) by {
          forall j | 0 <= j < k - 1 ensures name !in env[q[j]].bindings {
            assert q[j] == c[j + 1];
          }
        }
      }
    }
  }

  /**
   * The value a binding stores: a lambda that has no recorded name yet
   * records this one, any other value is stored unchanged.
   */
  function Recorded(v: Value, name: string): (r: Value)
    ensures TypeOf(r) == TypeOf(v)
    ensures !v.Lambda? ==> r == v
    ensures v.Lambda? ==> r.Lambda? && r.kind == v.kind && r.args == v.args
                          && r.code == v.code && r.closure == v.closure
    ensures v.Lambda? ==> r.firstBinding == if v.firstBinding.Some? then v.firstBinding else Some(name)
  {
    if v.Lambda? && v.firstBinding.None? then v.(firstBinding := Some(name)) else v
  }

  /** `lisp_scope_bind`: bind (or rebind) `name` in scope `id` and nowhere else. */
  function Bind(env: Env, id: nat, name: string, v: Value): (r: Env)
    requires id in env
    ensures r.Keys == env.Keys
    ensures forall j :: j in env && j != id ==> r[j] == env[j]
    ensures r[id].up == env[id].up
    ensures r[id].bindings.Keys == env[id].bindings.Keys + {name}
    ensures forall n :: n in env[id].bindings && n != name ==> r[id].bindings[n] == env[id].bindings[n]
    ensures r[id].bindings[name] == Recorded(v, name)
    ensures Lookup(r, id, name) == Some(Recorded(v, name))
    ensures WellFormed(env) ==> WellFormed(r)
  {
    env[id := env[id].(bindings := env[id].bindings[name := Recorded(v, name)])]
  }

  /** A binding changes no other symbol's lookup from anywhere. */
  lemma {:induction false} LookupOtherName(env: Env, id: nat, name: string, v: Value, from: nat, other: string)
    requires id in env && other != name
    ensures Lookup(Bind(env, id, name, v), from, other) == Lookup(env, from, other)
    decreases from
  {
    var e := Bind(env, id, name, v);
    if from in env && other !in env[from].bindings && env[from].up.Some? && env[from].up.value < from {
      LookupOtherName(env, id, name, v, env[from].up.value, other);
    }
  }

  /** A binding in a scope created later is invisible from an earlier scope. */
  lemma {:induction false} LookupBelowBind(env: Env, id: nat, name: string, v: Value, from: nat, n: string)
    requires id in env && from < id
    ensures Lookup(Bind(env, id, name, v), from, n) == Lookup(env, from, n)
    decreases from
  {
    if from in env && n !in env[from].bindings && env[from].up.Some? && env[from].up.value < from {
      LookupBelowBind(env, id, name, v, env[from].up.value, n);
    }
  }

  /** A new, empty scope whose parent is `up`. */
  function NewScope(env: Env, newId: nat, up: Option<nat>): (r: Env)
    requires newId !in env
    ensures r.Keys == env.Keys + {newId}
    ensures forall j :: j in env ==> r[j] == env[j]
    ensures r[newId].bindings == map[] && r[newId].up == up
    ensures WellFormed(env) && (up.Some? ==> up.value in env && up.value < newId) ==> WellFormed(r)
  {
    env[newId := Scope(up, map[])]
  }

  /** An empty child scope looks every symbol up in its parent. */
  lemma LookupThroughNewScope(env: Env, newId: nat, up: nat, name: string)
    requires newId !in env && up < newId
    ensures Lookup(NewScope(env, newId, Some(up)), newId, name) == Lookup(env, up, name)
  {
    LookupBelowNew(env, newId, Some(up), up, name);
  }

  lemma {:induction false} LookupBelowNew(env: Env, newId: nat, up: Option<nat>, from: nat, name: string)
    requires newId !in env && from < newId
    ensures Lookup(NewScope(env, newId, up), from, name) == Lookup(env, from, name)
    decreases from
  {
    if from in env && name !in env[from].bindings && env[from].up.Some? && env[from].up.value < from {
      LookupBelowNew(env, newId, up, env[from].up.value, name);
    }
  }
}
