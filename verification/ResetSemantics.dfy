/** What the emitted statements do to a value, and what a reset should do: the two agree. */
module ResetSemantics {
  import opened Model
  import opened ResetTypes
  import opened ResetEmitter

  /** Values are trees: no two pointers share a target. A slice keeps its backing array, so its spare
      elements matter; anything nil is Nil; interface, function and channel contents are opaque. */
  datatype Value =
    | Scalar(n: int)
    | Nil
    | SliceV(elems: seq<Value>, spare: seq<Value>)
    | ArrayV(items: seq<Value>)
    | MapV(entries: map<string, Value>)
    | Ptr(target: Value)
    | StructV(fields: map<string, Value>)
    | Opaque(id: int)

  /** The rest of the program: its named types, the zero value of each type, for which address types
      `interface{ Reset() }` is satisfied, and what those Reset methods do to the value pointed at. */
  datatype World = World(env: Env, zero: Type -> Value, hasReset: Type -> bool, call: (Type, Value) -> Value)

  // ---- Values at paths ----

  function Get(v: Value, path: Path): Option<Value> {
    if path == [] then Some(v)
    else match path[0]
      case Dot(name) => if v.StructV? && name in v.fields then Get(v.fields[name], path[1..]) else None
      case Deref => if v.Ptr? then Get(v.target, path[1..]) else None
  }

  /** Storing at a path that does not exist changes nothing. */
  function Put(v: Value, path: Path, x: Value): Value {
    if path == [] then x
    else match path[0]
      case Dot(name) =>
        if v.StructV? && name in v.fields then StructV(v.fields[name := Put(v.fields[name], path[1..], x)]) else v
      case Deref => if v.Ptr? then Ptr(Put(v.target, path[1..], x)) else v
  }

  lemma {:induction false} GetSnoc(v: Value, path: Path, sel: Sel)
    ensures Get(v, path + [sel]) == match Get(v, path) case None => None case Some(x) => Get(x, [sel])
  {
    if path == [] {
      assert path + [sel] == [sel];
    } else {
      assert (path + [sel])[1..] == path[1..] + [sel];
      match path[0] {
        case Dot(name) =>
          if v.StructV? && name in v.fields {
            GetSnoc(v.fields[name], path[1..], sel);
          }
        case Deref =>
          if v.Ptr? {
            GetSnoc(v.target, path[1..], sel);
          }
      }
    }
  }

  lemma {:induction false} PutSnoc(v: Value, path: Path, sel: Sel, x: Value)
    requires Get(v, path).Some?
    ensures Put(v, path + [sel], x) == Put(v, path, Put(Get(v, path).value, [sel], x))
  {
    if path == [] {
      assert path + [sel] == [sel];
    } else {
      assert (path + [sel])[1..] == path[1..] + [sel];
      match path[0] {
        case Dot(name) => PutSnoc(v.fields[name], path[1..], sel, x);
        case Deref => PutSnoc(v.target, path[1..], sel, x);
      }
    }
  }

  /** The usual laws of a store, at an existing path. */
  lemma {:induction false} PutLaws(v: Value, path: Path, x: Value, y: Value)
    requires Get(v, path).Some?
    ensures Get(Put(v, path, x), path) == Some(x)
    ensures Put(Put(v, path, x), path, y) == Put(v, path, y)
    ensures Put(v, path, Get(v, path).value) == v
  {
    if path != [] {
      match path[0] {
        case Dot(name) =>
          PutLaws(v.fields[name], path[1..], x, y);
          assert v.fields[name := v.fields[name]] == v.fields;
        case Deref => PutLaws(v.target, path[1..], x, y);
      }
    }
  }

  lemma {:induction false} PutNowhere(v: Value, path: Path, x: Value)
    requires Get(v, path).None?
    ensures Put(v, path, x) == v
  {
    if path != [] {
      match path[0] {
        case Dot(name) =>
          if v.StructV? && name in v.fields {
            PutNowhere(v.fields[name], path[1..], x);
            assert v.fields[name := v.fields[name]] == v.fields;
          }
        case Deref =>
          if v.Ptr? {
            PutNowhere(v.target, path[1..], x);
          }
      }
    }
  }

  // ---- Static types of expressions ----

  function MemberType(ms: seq<Member>, name: string): Option<Type> {
    if ms == [] then None
    else if ms[|ms| - 1].name == name then Some(ms[|ms| - 1].typ)
    else MemberType(ms[..|ms| - 1], name)
  }

  function TypeOf(env: Env, root: Type, path: Path): Option<Type> {
    if path == [] then Some(root)
    else
      match TypeOf(env, root, path[..|path| - 1])
      case None => None
      case Some(t) =>
        match (path[|path| - 1], Resolve(t, env, {}))
        case (Dot(name), Struct(fields)) => MemberType(Members(fields), name)
        case (Deref, Star(x)) => Some(x)
        case _ => None
  }

  /** The type of the address: a pointer to what `&` is taken of, or the pointer's own declared type. */
  function AddrType(env: Env, root: Type, addr: Addr): Option<Type> {
    match addr
    case AddrOf(path) => (match TypeOf(env, root, path) case None => None case Some(t) => Some(Star(t)))
    case Pointer(path) => TypeOf(env, root, path)
  }

  function Pointee(addr: Addr): Path {
    match addr
    case AddrOf(path) => path
    case Pointer(path) => path + [Deref]
  }

  // ---- Running the emitted statements ----

  function Exec(w: World, root: Type, ss: seq<Stmt>, v: Value): Value
    decreases ss
  {
    if ss == [] then v else Exec(w, root, ss[1..], ExecOne(w, root, ss[0], v))
  }

  function ExecOne(w: World, root: Type, s: Stmt, v: Value): Value
    decreases s, 0
  {
    match s
    case Zero(addr) =>
      (match TypeOf(w.env, root, Pointee(addr))
       case None => v
       case Some(t) => Put(v, Pointee(addr), w.zero(t)))
    case Truncate(path) =>
      (match Get(v, path)
       case Some(SliceV(elems, spare)) => Put(v, path, SliceV([], elems + spare))
       case _ => v)
    case Clear(path) =>
      (match Get(v, path)
       case Some(MapV(_)) => Put(v, path, MapV(map[]))
       case _ => v)
    case IfNotNil(path, body) =>
      (match Get(v, path)
       case Some(Ptr(_)) => Exec(w, root, body, v)
       case _ => v)
    case IfResetter(addr, otherwise) =>
      var t := AddrType(w.env, root, addr);
      if t.Some? && w.hasReset(t.value) then
        (match Get(v, Pointee(addr))
         case None => v
         case Some(x) => Put(v, Pointee(addr), w.call(t.value, x)))
      else Exec(w, root, otherwise, v)
  }

  lemma {:induction false} ExecAppends(w: World, root: Type, a: seq<Stmt>, b: seq<Stmt>, v: Value)
    ensures Exec(w, root, a + b, v) == Exec(w, root, b, Exec(w, root, a, v))
  {
    if a == [] {
      assert a + b == b;
    } else {
      assert (a + b)[1..] == a[1..] + b;
      ExecAppends(w, root, a[1..], b, ExecOne(w, root, a[0], v));
    }
  }

  lemma ExecSingle(w: World, root: Type, s: Stmt, v: Value)
    ensures Exec(w, root, [s], v) == ExecOne(w, root, s, v)
  {
    assert [s][1..] == [];
  }

  // ---- The direct reset ----

  /** Resetting a value of type `t` reached through an address of type `addr`: zeroing, cutting slices,
      emptying maps, following pointers, and for a struct its Reset method or, failing that, all its
      members. It ends because values are finite, whatever the types. */
  function Reset(w: World, t: Type, addr: Type, v: Value): Value
    decreases v, 1
  {
    match Resolve(t, w.env, {})
    case Ident(name) => if !IsPrimitive(name) && w.hasReset(addr) then w.call(addr, v) else w.zero(t)
    case Slice(_) => if v.SliceV? then SliceV([], v.elems + v.spare) else v
    case Array(_) => w.zero(t)
    case Map(_, _) => if v.MapV? then MapV(map[]) else v
    case Star(x) => if v.Ptr? then Ptr(Reset(w, x, t, v.target)) else v
    case Struct(fields) => if w.hasReset(addr) then w.call(addr, v) else ResetMembers(w, Members(fields), v)
    case Interface => w.zero(t)
    case Func => w.zero(t)
    case Chan => w.zero(t)
    case _ => if w.hasReset(addr) then w.call(addr, v) else w.zero(t)
  }

  /** Every field that is a member is reset according to its type; nothing else changes. */
  function ResetMembers(w: World, ms: seq<Member>, v: Value): Value
    decreases v, 0
  {
    if !v.StructV? then v
    else StructV(map name | name in v.fields ::
      match MemberType(ms, name)
      case None => v.fields[name]
      case Some(t) => Reset(w, t, Star(t), v.fields[name]))
  }

  /** The type and address type of a sub-expression that the reset descends to: through pointers, and
      through structs without a visible Reset method. */
  function Descend(w: World, t: Type, addr: Type, path: Path): Option<(Type, Type)>
    decreases path
  {
    if path == [] then Some((t, addr))
    else
      match (path[0], Resolve(t, w.env, {}))
      case (Deref, Star(x)) => Descend(w, x, t, path[1..])
      case (Dot(name), Struct(fields)) =>
        if w.hasReset(addr) then None
        else
          (match MemberType(Members(fields), name)
           case None => None
           case Some(m) => Descend(w, m, Star(m), path[1..]))
      case _ => None
  }

  /** The reset seen from any such place: what was there is reset, what was not there (behind a nil
      pointer, say) is still not there, and every pointer on the way is kept. */
  lemma {:induction false} ResetReaches(w: World, t: Type, addr: Type, v: Value, path: Path)
    requires Descend(w, t, addr, path).Some?
    ensures Get(Reset(w, t, addr, v), path) ==
      match Get(v, path)
      case None => None
      case Some(x) => Some(Reset(w, Descend(w, t, addr, path).value.0, Descend(w, t, addr, path).value.1, x))
    decreases path
  {
    if path != [] {
      match (path[0], Resolve(t, w.env, {})) {
        case (Deref, Star(x)) =>
          if v.Ptr? {
            ResetReaches(w, x, t, v.target, path[1..]);
          }
        case (Dot(name), Struct(fields)) =>
          var m := MemberType(Members(fields), name).value;
          if v.StructV? && name in v.fields {
            ResetReaches(w, m, Star(m), v.fields[name], path[1..]);
          }
      }
    }
  }

  // ---- Well-formed packages ----

  ghost predicate DistinctNames(ms: seq<Member>) {
    forall i, j :: 0 <= i < j < |ms| ==> ms[i].name != ms[j].name
  }

  /** Go requires the fields of a struct to have distinct names. */
  ghost predicate WellNamed(t: Type) {
    match t
    case Star(x) => WellNamed(x)
    case Struct(fields) => DistinctNames(Members(fields)) && forall f :: f in fields ==> WellNamed(f.typ)
    case _ => true
  }

  ghost predicate WellNamedEnv(env: Env) {
    forall n :: n in env ==> WellNamed(env[n])
  }

  lemma ResolveWellNamed(t: Type, env: Env)
    requires WellNamed(t) && WellNamedEnv(env)
    ensures WellNamed(Resolve(t, env, {}))
  {
    ResolveStaysIn(t, env, {});
  }

  lemma MembersWellNamed(fields: seq<Field>, k: nat)
    requires WellNamed(Struct(fields)) && k < |Members(fields)|
    ensures WellNamed(Members(fields)[k].typ)
  {
    var f := MemberOf(fields, Members(fields)[k]);
  }

  lemma {:induction false} MemberTypeAt(ms: seq<Member>, k: nat, name: string)
    requires DistinctNames(ms) && k < |ms| && ms[k].name == name
    ensures MemberType(ms, name) == Some(ms[k].typ) && MemberType(ms[..k], name) == None
  {
    var n := |ms| - 1;
    if k < n {
      assert ms[..n][..k] == ms[..k];
      MemberTypeAt(ms[..n], k, name);
    } else {
      NoMemberType(ms[..n], name);
    }
  }

  lemma {:induction false} NoMemberType(ms: seq<Member>, name: string)
    requires forall m :: m in ms ==> m.name != name
    ensures MemberType(ms, name) == None
  {
    if ms != [] {
      assert ms[|ms| - 1] in ms;
      NoMemberType(ms[..|ms| - 1], name);
    }
  }

  // ---- Statements for a path that does not exist do nothing ----

  lemma ZeroNowhere(w: World, root: Type, addr: Addr, v: Value)
    requires Get(v, Pointee(addr)).None?
    ensures Exec(w, root, [Zero(addr)], v) == v
    ensures Exec(w, root, CallOrZero(addr), v) == v
  {
    ExecSingle(w, root, Zero(addr), v);
    ExecSingle(w, root, IfResetter(addr, [Zero(addr)]), v);
    var t := TypeOf(w.env, root, Pointee(addr));
    if t.Some? {
      PutNowhere(v, Pointee(addr), w.zero(t.value));
    }
  }

  lemma {:induction false} EmitNowhere(fuel: nat, w: World, root: Type, path: Path, addr: Addr, t: Type, v: Value)
    requires Emit(fuel, w.env, path, addr, t).Some? && Pointee(addr) == path && Get(v, path).None?
    ensures Exec(w, root, Emit(fuel, w.env, path, addr, t).value, v) == v
    decreases fuel, 0
  {
    ZeroNowhere(w, root, addr, v);
    ExecSingle(w, root, Emit(fuel, w.env, path, addr, t).value[0], v);
    var r := Resolve(t, w.env, {});
    if r.Struct? {
      MembersNowhere(fuel - 1, w, root, path, Members(r.fields), v);
    }
  }

  lemma {:induction false} MembersNowhere(fuel: nat, w: World, root: Type, path: Path, ms: seq<Member>, v: Value)
    requires EmitMembers(fuel, w.env, path, ms).Some? && Get(v, path).None?
    ensures Exec(w, root, EmitMembers(fuel, w.env, path, ms).value, v) == v
    decreases fuel, |ms|
  {
    if ms != [] {
      var n := |ms| - 1;
      var field := path + [Dot(ms[n].name)];
      MembersNowhere(fuel, w, root, path, ms[..n], v);
      GetSnoc(v, path, Dot(ms[n].name));
      EmitNowhere(fuel, w, root, field, AddrOf(field), ms[n].typ, v);
      ExecAppends(w, root, EmitMembers(fuel, w.env, path, ms[..n]).value,
        Emit(fuel, w.env, field, AddrOf(field), ms[n].typ).value, v);
    }
  }

  // ---- Statements for a path that exists reset the value there ----

  /** `addr` is the address of the expression `path`, which has type `t`. */
  ghost predicate Located(w: World, root: Type, path: Path, addr: Addr, t: Type, addrType: Type) {
    && TypeOf(w.env, root, path) == Some(t)
    && Pointee(addr) == path
    && AddrType(w.env, root, addr) == Some(addrType)
  }

  lemma LeafResets(w: World, root: Type, path: Path, addr: Addr, t: Type, addrType: Type, v: Value)
    requires Located(w, root, path, addr, t, addrType) && Get(v, path).Some?
    ensures Exec(w, root, [Zero(addr)], v) == Put(v, path, w.zero(t))
    ensures Exec(w, root, CallOrZero(addr), v) ==
      Put(v, path, if w.hasReset(addrType) then w.call(addrType, Get(v, path).value) else w.zero(t))
  {
    ExecSingle(w, root, Zero(addr), v);
    ExecSingle(w, root, IfResetter(addr, [Zero(addr)]), v);
  }

  lemma ContainerResets(w: World, root: Type, path: Path, v: Value)
    requires Get(v, path).Some?
    ensures var x := Get(v, path).value;
      && Exec(w, root, [Truncate(path)], v) == Put(v, path, if x.SliceV? then SliceV([], x.elems + x.spare) else x)
      && Exec(w, root, [Clear(path)], v) == Put(v, path, if x.MapV? then MapV(map[]) else x)
  {
    ExecSingle(w, root, Truncate(path), v);
    ExecSingle(w, root, Clear(path), v);
    PutLaws(v, path, Nil, Nil);
  }

  lemma TypeOfSnoc(env: Env, root: Type, path: Path, sel: Sel)
    ensures TypeOf(env, root, path + [sel]) ==
      match TypeOf(env, root, path)
      case None => None
      case Some(t) =>
        match (sel, Resolve(t, env, {}))
        case (Dot(name), Struct(fields)) => MemberType(Members(fields), name)
        case (Deref, Star(x)) => Some(x)
        case _ => None
  {
    assert (path + [sel])[..|path|] == path;
  }

  /** Generator correctness: whenever the emission ends, running the statements emitted for an
      expression resets the value there directly and changes nothing else, for every value. */
  lemma {:induction false} EmitResets(fuel: nat, w: World, root: Type, path: Path, addr: Addr, t: Type,
                                      addrType: Type, v: Value)
    requires WellNamedEnv(w.env) && WellNamed(t)
    requires Emit(fuel, w.env, path, addr, t).Some?
    requires Located(w, root, path, addr, t, addrType) && Get(v, path).Some?
    ensures Exec(w, root, Emit(fuel, w.env, path, addr, t).value, v)
      == Put(v, path, Reset(w, t, addrType, Get(v, path).value))
    decreases fuel, 0
  {
    ResolveWellNamed(t, w.env);
    var r := Resolve(t, w.env, {});
    if r.Star? {
      PointerResets(fuel, w, root, path, addr, t, addrType, v);
    } else if r.Struct? {
      StructResets(fuel, w, root, path, addr, t, addrType, v);
    } else {
      OthersReset(fuel, w, root, path, addr, t, addrType, v);
    }
  }

  /** Everything that the emission does not descend into. */
  lemma OthersReset(fuel: nat, w: World, root: Type, path: Path, addr: Addr, t: Type, addrType: Type, v: Value)
    requires !Resolve(t, w.env, {}).Star? && !Resolve(t, w.env, {}).Struct?
    requires Emit(fuel, w.env, path, addr, t).Some?
    requires Located(w, root, path, addr, t, addrType) && Get(v, path).Some?
    ensures Exec(w, root, Emit(fuel, w.env, path, addr, t).value, v)
      == Put(v, path, Reset(w, t, addrType, Get(v, path).value))
  {
    LeafResets(w, root, path, addr, t, addrType, v);
    ContainerResets(w, root, path, v);
  }

  lemma {:induction false} PointerResets(fuel: nat, w: World, root: Type, path: Path, addr: Addr, t: Type,
                                         addrType: Type, v: Value)
    requires WellNamedEnv(w.env) && WellNamed(Resolve(t, w.env, {})) && Resolve(t, w.env, {}).Star?
    requires Emit(fuel, w.env, path, addr, t).Some?
    requires Located(w, root, path, addr, t, addrType) && Get(v, path).Some?
    ensures Exec(w, root, Emit(fuel, w.env, path, addr, t).value, v)
      == Put(v, path, Reset(w, t, addrType, Get(v, path).value))
    decreases fuel - 1, 1
  {
    var x, pointee := Get(v, path).value, Resolve(t, w.env, {}).x;
    var body := Emit(fuel - 1, w.env, path + [Deref], Pointer(path), pointee).value;
    var y := if x.Ptr? then Reset(w, pointee, t, x.target) else x;
    if x.Ptr? {
      TypeOfSnoc(w.env, root, path, Deref);
      Through(v, path, y);
      EmitResets(fuel - 1, w, root, path + [Deref], Pointer(path), pointee, t, v);
    }
    NotNilResets(w, root, path, body, v, y);
  }

  /** Reading and storing through a pointer. */
  lemma Through(v: Value, path: Path, y: Value)
    requires Get(v, path).Some? && Get(v, path).value.Ptr?
    ensures Get(v, path + [Deref]) == Some(Get(v, path).value.target)
    ensures Put(v, path + [Deref], y) == Put(v, path, Ptr(y))
  {
    GetSnoc(v, path, Deref);
    PutSnoc(v, path, Deref, y);
  }

  /** The nil check around statements that store `y` behind the pointer. */
  lemma NotNilResets(w: World, root: Type, path: Path, body: seq<Stmt>, v: Value, y: Value)
    requires Get(v, path).Some?
    requires Get(v, path).value.Ptr? ==> Exec(w, root, body, v) == Put(v, path + [Deref], y)
    ensures Exec(w, root, [IfNotNil(path, body)], v)
      == Put(v, path, if Get(v, path).value.Ptr? then Ptr(y) else Get(v, path).value)
  {
    ExecSingle(w, root, IfNotNil(path, body), v);
    if Get(v, path).value.Ptr? {
      Through(v, path, y);
    } else {
      PutLaws(v, path, y, y);
    }
  }

  lemma {:induction false} StructResets(fuel: nat, w: World, root: Type, path: Path, addr: Addr, t: Type,
                                        addrType: Type, v: Value)
    requires WellNamedEnv(w.env) && WellNamed(Resolve(t, w.env, {})) && Resolve(t, w.env, {}).Struct?
    requires Emit(fuel, w.env, path, addr, t).Some?
    requires Located(w, root, path, addr, t, addrType) && Get(v, path).Some?
    ensures Exec(w, root, Emit(fuel, w.env, path, addr, t).value, v)
      == Put(v, path, Reset(w, t, addrType, Get(v, path).value))
    decreases fuel - 1, |Members(Resolve(t, w.env, {}).fields)| + 2
  {
    var ms, x := Members(Resolve(t, w.env, {}).fields), Get(v, path).value;
    var body := EmitMembers(fuel - 1, w.env, path, ms).value;
    assert ms[..|ms|] == ms;
    MembersReset(fuel - 1, w, root, path, t, |ms|, v);
    ResetterResets(w, root, path, addr, addrType, body, v, ResetMembers(w, ms, x));
  }

  /** The call of a visible Reset method, or statements that store `y`. */
  lemma ResetterResets(w: World, root: Type, path: Path, addr: Addr, addrType: Type, body: seq<Stmt>, v: Value,
                       y: Value)
    requires Pointee(addr) == path && AddrType(w.env, root, addr) == Some(addrType) && Get(v, path).Some?
    requires Exec(w, root, body, v) == Put(v, path, y)
    ensures Exec(w, root, [IfResetter(addr, body)], v) ==
      Put(v, path, if w.hasReset(addrType) then w.call(addrType, Get(v, path).value) else y)
  {
    ExecSingle(w, root, IfResetter(addr, body), v);
  }

  /** One more member. */
  lemma MembersStep(w: World, ms: seq<Member>, k: nat, x: Value)
    requires DistinctNames(ms) && k < |ms|
    ensures var before, after := ResetMembers(w, ms[..k], x), ResetMembers(w, ms[..k + 1], x);
      var name, t := ms[k].name, ms[k].typ;
      if x.StructV? && name in x.fields then
        && before.StructV? && name in before.fields && before.fields[name] == x.fields[name]
        && after == StructV(before.fields[name := Reset(w, t, Star(t), x.fields[name])])
      else after == before && Get(before, [Dot(name)]).None?
  {
    assert ms[..k + 1][..k] == ms[..k];
    MemberTypeAt(ms, k, ms[k].name);
    if x.StructV? && ms[k].name in x.fields {
      var before, after := ResetMembers(w, ms[..k], x).fields, ResetMembers(w, ms[..k + 1], x).fields;
      assert after == before[ms[k].name := Reset(w, ms[k].typ, Star(ms[k].typ), x.fields[ms[k].name])];
    }
  }

  lemma {:induction false} MembersReset(fuel: nat, w: World, root: Type, path: Path, t: Type, k: nat, v: Value)
    requires WellNamedEnv(w.env) && WellNamed(Resolve(t, w.env, {})) && Resolve(t, w.env, {}).Struct?
    requires k <= |Members(Resolve(t, w.env, {}).fields)|
    requires EmitMembers(fuel, w.env, path, Members(Resolve(t, w.env, {}).fields)[..k]).Some?
    requires TypeOf(w.env, root, path) == Some(t) && Get(v, path).Some?
    ensures var ms := Members(Resolve(t, w.env, {}).fields);
      Exec(w, root, EmitMembers(fuel, w.env, path, ms[..k]).value, v)
        == Put(v, path, ResetMembers(w, ms[..k], Get(v, path).value))
    decreases fuel, k + 1
  {
    var ms, x := Members(Resolve(t, w.env, {}).fields), Get(v, path).value;
    if k == 0 {
      PutLaws(v, path, x, x);
      NothingReset(w, x);
    } else {
      var n := k - 1;
      assert ms[..k][..n] == ms[..n];
      MembersReset(fuel, w, root, path, t, n, v);
      var x1 := ResetMembers(w, ms[..n], x);
      LastMemberResets(fuel, w, root, path, t, n, v, x1);
      var field := path + [Dot(ms[n].name)];
      ExecAppends(w, root, EmitMembers(fuel, w.env, path, ms[..n]).value,
        Emit(fuel, w.env, field, AddrOf(field), ms[n].typ).value, v);
    }
  }

  lemma NothingReset(w: World, x: Value)
    ensures ResetMembers(w, [], x) == x
  {
    if x.StructV? {
      assert ResetMembers(w, [], x).fields == x.fields;
    }
  }

  lemma {:induction false} LastMemberResets(fuel: nat, w: World, root: Type, path: Path, t: Type, n: nat, v: Value,
                                            x1: Value)
    requires WellNamedEnv(w.env) && WellNamed(Resolve(t, w.env, {})) && Resolve(t, w.env, {}).Struct?
    requires n < |Members(Resolve(t, w.env, {}).fields)|
    requires TypeOf(w.env, root, path) == Some(t) && Get(v, path).Some?
    requires var m := Members(Resolve(t, w.env, {}).fields)[n];
      var field := path + [Dot(m.name)];
      Emit(fuel, w.env, field, AddrOf(field), m.typ).Some?
    requires x1 == ResetMembers(w, Members(Resolve(t, w.env, {}).fields)[..n], Get(v, path).value)
    ensures var ms := Members(Resolve(t, w.env, {}).fields);
      var field := path + [Dot(ms[n].name)];
      Exec(w, root, Emit(fuel, w.env, field, AddrOf(field), ms[n].typ).value, Put(v, path, x1))
        == Put(v, path, ResetMembers(w, ms[..n + 1], Get(v, path).value))
    decreases fuel, 1
  {
    var ms, x := Members(Resolve(t, w.env, {}).fields), Get(v, path).value;
    var m, v1 := ms[n], Put(v, path, x1);
    var field := path + [Dot(m.name)];
    PutLaws(v, path, x1, x1);
    GetSnoc(v1, path, Dot(m.name));
    MembersStep(w, ms, n, x);
    if x.StructV? && m.name in x.fields {
      var r := Reset(w, m.typ, Star(m.typ), x.fields[m.name]);
      TypeOfSnoc(w.env, root, path, Dot(m.name));
      MemberTypeAt(ms, n, m.name);
      MembersWellNamed(Resolve(t, w.env, {}).fields, n);
      EmitResets(fuel, w, root, field, AddrOf(field), m.typ, Star(m.typ), v1);
      PutSnoc(v1, path, Dot(m.name), r);
      PutLaws(v, path, x1, StructV(x1.fields[m.name := r]));
    } else {
      EmitNowhere(fuel, w, root, field, AddrOf(field), m.typ, v1);
    }
  }

  // ---- What running the emitted statements does, kind by kind ----

  /** A slice keeps its backing array and loses its length, a map loses its entries, nil stays nil. */
  lemma ContainersAreEmptied(fuel: nat, w: World, root: Type, path: Path, addr: Addr, t: Type, addrType: Type, v: Value)
    requires WellNamedEnv(w.env) && WellNamed(t) && Emit(fuel, w.env, path, addr, t).Some?
    requires Located(w, root, path, addr, t, addrType) && Get(v, path).Some?
    requires Resolve(t, w.env, {}).Slice? || Resolve(t, w.env, {}).Map?
    ensures var x, after := Get(v, path).value, Exec(w, root, Emit(fuel, w.env, path, addr, t).value, v);
      && (Resolve(t, w.env, {}).Slice? && x.SliceV? ==> Get(after, path) == Some(SliceV([], x.elems + x.spare)))
      && (Resolve(t, w.env, {}).Map? && x.MapV? ==> Get(after, path) == Some(MapV(map[])))
      && (x == Nil ==> after == v)
  {
    EmitResets(fuel, w, root, path, addr, t, addrType, v);
    PutLaws(v, path, Reset(w, t, addrType, Get(v, path).value), Nil);
  }

  /** Predeclared types, fixed arrays, interfaces, functions and channels get their zero value. */
  lemma OthersAreZeroed(fuel: nat, w: World, root: Type, path: Path, addr: Addr, t: Type, addrType: Type, v: Value)
    requires WellNamedEnv(w.env) && WellNamed(t) && Emit(fuel, w.env, path, addr, t).Some?
    requires Located(w, root, path, addr, t, addrType) && Get(v, path).Some?
    requires match Resolve(t, w.env, {})
      case Ident(name) => IsPrimitive(name)
      case Array(_) => true
      case Interface => true
      case Func => true
      case Chan => true
      case _ => false
    ensures Get(Exec(w, root, Emit(fuel, w.env, path, addr, t).value, v), path) == Some(w.zero(t))
  {
    EmitResets(fuel, w, root, path, addr, t, addrType, v);
    PutLaws(v, path, w.zero(t), Nil);
  }

  /** A nil pointer stays nil; any other keeps pointing, and what it points at is reset in place. */
  lemma PointersAreKept(fuel: nat, w: World, root: Type, path: Path, addr: Addr, t: Type, addrType: Type, v: Value)
    requires WellNamedEnv(w.env) && WellNamed(t) && Emit(fuel, w.env, path, addr, t).Some?
    requires Located(w, root, path, addr, t, addrType) && Get(v, path).Some?
    requires Resolve(t, w.env, {}).Star?
    ensures var x, after := Get(v, path).value, Exec(w, root, Emit(fuel, w.env, path, addr, t).value, v);
      && (x == Nil ==> after == v)
      && (x.Ptr? ==> Get(after, path) == Some(Ptr(Reset(w, Resolve(t, w.env, {}).x, t, x.target))))
  {
    EmitResets(fuel, w, root, path, addr, t, addrType, v);
    PutLaws(v, path, Reset(w, t, addrType, Get(v, path).value), Nil);
  }

  /** Structs, imported types, instantiated ones and names the package does not define. */
  predicate MayHaveMethods(env: Env, t: Type) {
    match Resolve(t, env, {})
    case Struct(_) => true
    case Selector(_, _) => true
    case Instance(_, _) => true
    case Ident(name) => !IsPrimitive(name)
    case _ => false
  }

  /** Where a Reset method is visible, such a value is handed to it; without one a struct is expanded and
      anything else is zeroed. */
  lemma VisibleMethodsAreCalled(fuel: nat, w: World, root: Type, path: Path, addr: Addr, t: Type, addrType: Type,
                                v: Value)
    requires WellNamedEnv(w.env) && WellNamed(t) && Emit(fuel, w.env, path, addr, t).Some?
    requires Located(w, root, path, addr, t, addrType) && Get(v, path).Some?
    requires MayHaveMethods(w.env, t)
    ensures var x, after := Get(v, path).value, Exec(w, root, Emit(fuel, w.env, path, addr, t).value, v);
      if w.hasReset(addrType) then Get(after, path) == Some(w.call(addrType, x))
      else if Resolve(t, w.env, {}).Struct? then
        Get(after, path) == Some(ResetMembers(w, Members(Resolve(t, w.env, {}).fields), x))
      else Get(after, path) == Some(w.zero(t))
  {
    EmitResets(fuel, w, root, path, addr, t, addrType, v);
    PutLaws(v, path, Reset(w, t, addrType, Get(v, path).value), Nil);
  }
}
