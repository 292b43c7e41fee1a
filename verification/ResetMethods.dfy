/** A generated Reset method: it resets every member of its receiver. */
module ResetMethods {
  import opened Model
  import opened ResetTypes
  import opened ResetEmitter
  import opened ResetSemantics

  /** A struct of the package that gets a generated method. */
  ghost predicate Generated(env: Env, fuel: nat, n: string) {
    && !IsPrimitive(n) && n in env && env[n].Struct?
    && EmitMethod(fuel, env, env[n].fields).Some?
  }

  /** Calling the generated method on a pointer: a nil receiver returns at once. */
  function RunMethod(w: World, n: string, body: seq<Stmt>, receiver: Value): Value {
    if receiver.Ptr? then Ptr(Exec(w, Ident(n), body, receiver.target)) else receiver
  }

  lemma ResolveNamedStruct(env: Env, n: string)
    requires !IsPrimitive(n) && n in env && env[n].Struct?
    ensures Resolve(Ident(n), env, {}) == env[n]
  {
    assert Resolve(env[n], env, {} + {n}) == env[n];
  }

  /** The statements for the members of a named struct, wherever it sits and whatever other name its
      type goes by there. */
  lemma ExpansionResets(fuel: nat, w: World, root: Type, path: Path, t: Type, n: string, v: Value)
    requires WellNamedEnv(w.env) && n in w.env && w.env[n].Struct?
    requires EmitMembers(fuel, w.env, path, Members(w.env[n].fields)).Some?
    requires TypeOf(w.env, root, path) == Some(t) && Resolve(t, w.env, {}) == w.env[n] && Get(v, path).Some?
    ensures Exec(w, root, EmitMembers(fuel, w.env, path, Members(w.env[n].fields)).value, v)
      == Put(v, path, ResetMembers(w, Members(w.env[n].fields), Get(v, path).value))
  {
    var ms := Members(w.env[n].fields);
    assert ms[..|ms|] == ms;
    MembersReset(fuel, w, root, path, t, |ms|, v);
  }

  /** A generated method resets every member of its receiver directly and leaves nil alone. */
  lemma MethodResets(fuel: nat, w: World, n: string, receiver: Value)
    requires WellNamedEnv(w.env) && Generated(w.env, fuel, n)
    ensures RunMethod(w, n, EmitMethod(fuel, w.env, w.env[n].fields).value, receiver) ==
      if receiver.Ptr? then Ptr(ResetMembers(w, Members(w.env[n].fields), receiver.target)) else receiver
  {
    if receiver.Ptr? {
      ResolveNamedStruct(w.env, n);
      ExpansionResets(fuel, w, Ident(n), [], Ident(n), n, receiver.target);
    }
  }
}
