/** The type expressions the reset generator reads, and how it follows names to what they stand for. */
module ResetTypes {

  datatype Type =
    | Ident(name: string)
    | Slice(elem: Type)
    | Array(elem: Type)
    | Map(key: Type, elem: Type)
    | Star(x: Type)
    | Struct(fields: seq<Field>)
    | Interface
    | Func
    | Chan
    | Selector(pkg: string, name: string)
    | Instance(generic: Type, args: seq<Type>)
    | Paren(inner: Type)

  datatype Field = Field(names: seq<string>, typ: Type)

  /** The named types of a package. */
  type Env = map<string, Type>

  predicate IsPrimitive(name: string) {
    name in {
      "bool", "string",
      "int", "int8", "int16", "int32", "int64",
      "uint", "uint8", "uint16", "uint32", "uint64", "uintptr",
      "byte", "rune", "float32", "float64", "complex64", "complex128"}
  }

  // ---- Fields ----

  /** The name of an embedded field, or "" when the expression gives none. */
  function EmbeddedFieldName(t: Type): string {
    match t
    case Ident(name) => name
    case Selector(_, name) => name
    case Star(x) => EmbeddedFieldName(x)
    case Instance(generic, _) => EmbeddedFieldName(generic)
    case _ => ""
  }

  function FieldNames(f: Field): seq<string> {
    if f.names != [] then f.names
    else if EmbeddedFieldName(f.typ) == "" then []
    else [EmbeddedFieldName(f.typ)]
  }

  /** A field of a struct under its own name. */
  datatype Member = Member(name: string, typ: Type)

  function OwnMembers(f: Field): seq<Member> {
    seq(|FieldNames(f)|, i requires 0 <= i < |FieldNames(f)| => Member(FieldNames(f)[i], f.typ))
  }

  function Members(fields: seq<Field>): seq<Member> {
    if fields == [] then [] else OwnMembers(fields[0]) + Members(fields[1..])
  }

  lemma {:induction false} MemberOf(fields: seq<Field>, m: Member) returns (f: Field)
    requires m in Members(fields)
    ensures f in fields && f.typ == m.typ
  {
    if m in OwnMembers(fields[0]) {
      f := fields[0];
    } else {
      f := MemberOf(fields[1..], m);
    }
  }

  /** An embedded type gives its field its own name, without pointer, package or type arguments. */
  lemma EmbeddedNames(pkg: string, name: string, args: seq<Type>)
    ensures EmbeddedFieldName(Ident(name)) == name == EmbeddedFieldName(Star(Ident(name)))
    ensures EmbeddedFieldName(Selector(pkg, name)) == name == EmbeddedFieldName(Star(Selector(pkg, name)))
    ensures EmbeddedFieldName(Instance(Ident(name), args)) == name
    ensures EmbeddedFieldName(Star(Instance(Ident(name), args))) == name
    ensures EmbeddedFieldName(Instance(Selector(pkg, name), args)) == name
  {
  }

  /** The members are exactly the fields under each of their names, an embedded field under its type's. */
  lemma {:induction false} MembersExactly(fields: seq<Field>, m: Member)
    ensures m in Members(fields) <==> exists f ::
      && f in fields && m.typ == f.typ
      && (m.name in f.names || (f.names == [] && EmbeddedFieldName(f.typ) == m.name != ""))
  {
    if fields != [] {
      var f := fields[0];
      MembersExactly(fields[1..], m);
      if m.typ == f.typ && m.name in FieldNames(f) {
        var i :| 0 <= i < |FieldNames(f)| && FieldNames(f)[i] == m.name;
        assert OwnMembers(f)[i] == m;
      }
      assert fields == [f] + fields[1..];
    }
  }

  // ---- Resolving names ----

  /** What a type expression stands for. A name already on the way is returned as it is. */
  function Resolve(t: Type, env: Env, seen: set<string>): Type
    decreases |env.Keys - seen|
  {
    if !t.Ident? || IsPrimitive(t.name) || t.name !in env || t.name in seen then t
    else
      assert env.Keys - (seen + {t.name}) == env.Keys - seen - {t.name};
      Resolve(env[t.name], env, seen + {t.name})
  }

  class Seen {
    var names: set<string>

    constructor ()
      ensures names == {}
    {
      names := {};
    }
  }

  /** The recursive walk with its shared set of names: it ends on every environment, cyclic ones
      included, and leaves the set as it found it. */
  method ResolveType(t: Type, env: Env, seen: Seen) returns (r: Type)
    modifies seen
    ensures r == Resolve(t, env, old(seen.names))
    ensures seen.names == old(seen.names)
    decreases |env.Keys - seen.names|
  {
    if !t.Ident? {
      return t;
    }
    if IsPrimitive(t.name) || t.name !in env || t.name in seen.names {
      return t;
    }
    seen.names := seen.names + {t.name};
    assert env.Keys - seen.names == env.Keys - old(seen.names) - {t.name};
    r := ResolveType(env[t.name], env, seen);
    seen.names := seen.names - {t.name};
  }

  /** A result is the expression itself or something the environment gives a name to. */
  lemma {:induction false} ResolveStaysIn(t: Type, env: Env, seen: set<string>)
    ensures Resolve(t, env, seen) == t || exists n :: n in env && env[n] == Resolve(t, env, seen)
    decreases |env.Keys - seen|
  {
    if t.Ident? && !IsPrimitive(t.name) && t.name in env && t.name !in seen {
      assert env.Keys - (seen + {t.name}) == env.Keys - seen - {t.name};
      ResolveStaysIn(env[t.name], env, seen + {t.name});
    }
  }

  /** A name that stands for another name: the link a walk follows. */
  ghost predicate Link(env: Env, a: string, b: string) {
    !IsPrimitive(a) && a in env && env[a] == Ident(b)
  }

  /** A walk over distinct names. */
  ghost predicate Walk(env: Env, names: seq<string>) {
    && (forall i :: 0 <= i < |names| - 1 ==> Link(env, names[i], names[i + 1]))
    && (forall i, j :: 0 <= i < j < |names| ==> names[i] != names[j])
  }

  function NamesOf(names: seq<string>): set<string> {
    set n | n in names
  }

  /** Walking a cycle from its j-th name comes back to that name. */
  lemma {:induction false} AroundTheCycle(env: Env, names: seq<string>, j: nat, i: nat)
    requires Walk(env, names) && j <= i < |names|
    requires Link(env, names[|names| - 1], names[j])
    ensures Resolve(Ident(names[i]), env, NamesOf(names[j..i])) == Ident(names[j])
    decreases |names| - i
  {
    assert names[i] !in names[j..i];
    assert NamesOf(names[j..i + 1]) == NamesOf(names[j..i]) + {names[i]} by {
      assert names[j..i + 1] == names[j..i] + [names[i]];
    }
    if i + 1 < |names| {
      assert Link(env, names[i], names[i + 1]);
      AroundTheCycle(env, names, j, i + 1);
    } else {
      assert names[j] == names[j..i + 1][0];
      assert names[j] in NamesOf(names[j..i + 1]);
    }
  }

  /** Every name of the walk has a meaning, the last one this. */
  ghost predicate WalkTo(env: Env, names: seq<string>, t: Type) {
    && Walk(env, names)
    && (forall i :: 0 <= i < |names| ==> !IsPrimitive(names[i]) && names[i] in env)
    && (names != [] ==> env[names[|names| - 1]] == t)
  }

  /** A chain of names stands for what its last name is defined as. */
  lemma {:induction false} ChainStandsForItsEnd(env: Env, names: seq<string>, t: Type, i: nat)
    requires WalkTo(env, names, t) && i < |names| && (!t.Ident? || IsPrimitive(t.name) || t.name !in env)
    ensures Resolve(Ident(names[i]), env, NamesOf(names[..i])) == t
    decreases |names| - i
  {
    assert names[i] !in names[..i];
    assert NamesOf(names[..i + 1]) == NamesOf(names[..i]) + {names[i]} by {
      assert names[..i + 1] == names[..i] + [names[i]];
    }
    if i + 1 < |names| {
      assert Link(env, names[i], names[i + 1]);
      ChainStandsForItsEnd(env, names, t, i + 1);
    }
  }

  /** Exactly what resolving gives: the end of the chain of names that starts with the expression, or,
      when that chain runs into a cycle, the name it enters the cycle by. */
  lemma {:induction false} ResolvesTo(t: Type, env: Env, names: seq<string>) returns (longer: seq<string>)
    requires WalkTo(env, names, t)
    ensures names <= longer
    ensures var r := Resolve(t, env, NamesOf(names));
      && WalkTo(env, longer, r)
      && (!r.Ident? || IsPrimitive(r.name) || r.name !in env || r.name in longer)
    decreases |env.Keys - NamesOf(names)|
  {
    longer := names;
    if t.Ident? && !IsPrimitive(t.name) && t.name in env && t.name !in NamesOf(names) {
      LongerWalk(env, names, t.name);
      longer := ResolvesTo(env[t.name], env, names + [t.name]);
    }
  }

  lemma LongerWalk(env: Env, names: seq<string>, name: string)
    requires WalkTo(env, names, Ident(name)) && !IsPrimitive(name) && name in env && name !in NamesOf(names)
    ensures WalkTo(env, names + [name], env[name])
    ensures NamesOf(names + [name]) == NamesOf(names) + {name}
    ensures env.Keys - NamesOf(names + [name]) < env.Keys - NamesOf(names)
    ensures |env.Keys - NamesOf(names + [name])| < |env.Keys - NamesOf(names)|
  {
    var longer := names + [name];
    assert NamesOf(longer) == NamesOf(names) + {name};
    assert env.Keys - NamesOf(longer) == env.Keys - NamesOf(names) - {name};
    forall i | 0 <= i < |names| ensures longer[i] != name {
      assert names[i] in NamesOf(names);
    }
    forall i | 0 <= i < |longer| - 1 ensures Link(env, longer[i], longer[i + 1]) {
      if i + 1 < |names| {
        assert Link(env, names[i], names[i + 1]);
      }
    }
  }

  /** Resolving after a walk gives something that resolves to itself. */
  lemma {:induction false} ResolveAfterWalk(t: Type, env: Env, names: seq<string>)
    requires WalkTo(env, names, t)
    ensures Resolve(Resolve(t, env, NamesOf(names)), env, {}) == Resolve(t, env, NamesOf(names))
    decreases |env.Keys - NamesOf(names)|
  {
    if t.Ident? && !IsPrimitive(t.name) && t.name in env {
      if t.name in NamesOf(names) {
        var j :| 0 <= j < |names| && names[j] == t.name;
        assert names[j..j] == [];
        assert NamesOf(names[j..j]) == {};
        AroundTheCycle(env, names, j, j);
      } else {
        LongerWalk(env, names, t.name);
        ResolveAfterWalk(env[t.name], env, names + [t.name]);
      }
    }
  }

  /** Resolution is idempotent: what a type resolves to resolves to itself, even on a cycle of names. */
  lemma ResolveIdempotent(t: Type, env: Env)
    ensures Resolve(Resolve(t, env, {}), env, {}) == Resolve(t, env, {})
  {
    assert NamesOf([]) == {};
    ResolveAfterWalk(t, env, []);
  }
}
