/** The generated methods together with those a type gets from its embedded fields: what calling them
    does, that they have one consistent meaning, and when a promoted method hides members from a reset. */
module ResetPromotion {
  import opened Model
  import opened ResetTypes
  import opened ResetEmitter
  import opened ResetSemantics
  import opened ResetMethods

  /** A package before generation: `base` knows the Reset methods that are declared by hand or imported,
      each for the type that declares it; the marked structs will get a generated one. */
  datatype Package = Package(base: World, marked: set<string>)

  predicate IsMarked(p: Package, addr: Type) {
    addr.Star? && addr.x.Ident? && addr.x.name in p.marked
  }

  /** The type has a Reset method of its own. */
  predicate Own(p: Package, addr: Type) {
    p.base.hasReset(addr) || IsMarked(p, addr)
  }

  /** Every marked name is a struct whose method can be generated and was not written by hand. */
  ghost predicate Generates(p: Package, fuel: nat) {
    forall n :: n in p.marked ==> Generated(p.base.env, fuel, n) && !p.base.hasReset(Star(Ident(n)))
  }

  // ---- Promotion ----

  predicate Embedded(f: Field) {
    f.names == [] && EmbeddedFieldName(f.typ) != ""
  }

  function Target(e: Type): Type {
    if e.Star? then e.x else e
  }

  /** From a struct to the target of one of its embedded fields. */
  function Hop(e: Type): Path {
    [Dot(EmbeddedFieldName(e))] + if e.Star? then [Deref] else []
  }

  /** The type whose Reset method an embedded field offers: the pointer to it, or itself (an interface). */
  function Receiver(p: Package, e: Type): Type {
    if e.Star? then e else if Own(p, Star(e)) then Star(e) else e
  }

  /** What the selector Reset finds below an embedded field: a method, or a field of that name. */
  datatype Found = Method(path: Path, recv: Type) | Hidden

  predicate HasField(env: Env, t: Type, name: string) {
    Resolve(t, env, {}).Struct? && MemberType(Members(Resolve(t, env, {}).fields), name).Some?
  }

  function Below(hop: Path, found: seq<Found>): seq<Found> {
    seq(|found|, i requires 0 <= i < |found| =>
      if found[i].Method? then Method(hop + found[i].path, found[i].recv) else Hidden)
  }

  /** Everything found exactly `depth` embeddings below the embedded type `e`. */
  function At(p: Package, depth: nat, e: Type): seq<Found>
    decreases depth, 0
  {
    if depth == 0 then
      (if Own(p, Receiver(p, e)) then [Method([], Receiver(p, e))] else [])
      + (if HasField(p.base.env, Target(e), "Reset") then [Hidden] else [])
    else if Resolve(Target(e), p.base.env, {}).Struct? then
      AtFields(p, depth - 1, Resolve(Target(e), p.base.env, {}).fields)
    else []
  }

  function AtFields(p: Package, depth: nat, fields: seq<Field>): seq<Found>
    decreases depth, |fields|
  {
    if fields == [] then []
    else
      (if Embedded(fields[0]) then Below(Hop(fields[0].typ), At(p, depth, fields[0].typ)) else [])
      + AtFields(p, depth, fields[1..])
  }

  ghost predicate First(p: Package, fields: seq<Field>, depth: nat) {
    AtFields(p, depth, fields) != [] && forall less: nat :: less < depth ==> AtFields(p, less, fields) == []
  }

  /** The method a struct gets by promotion: the only thing found at the least depth, unless a field of
      that name hides it. */
  ghost function Promoted(p: Package, t: Type): Found {
    if Resolve(t, p.base.env, {}).Struct? && !HasField(p.base.env, t, "Reset") then
      var fields := Resolve(t, p.base.env, {}).fields;
      if depth: nat :| First(p, fields, depth) then
        if |AtFields(p, depth, fields)| == 1 then AtFields(p, depth, fields)[0] else Hidden
      else Hidden
    else Hidden
  }

  /** The method set: own methods, and for a pointer to a struct the promoted one. */
  ghost predicate HasReset(p: Package, addr: Type) {
    Own(p, addr) || (addr.Star? && Promoted(p, addr.x).Method?)
  }

  // ---- What the methods do ----

  /** A method of the type itself: written by hand, or generated. */
  ghost function OwnCall(p: Package, addr: Type, v: Value): Value
    decreases v, 1
  {
    if p.base.hasReset(addr) then p.base.call(addr, v)
    else if IsMarked(p, addr) && addr.x.name in p.base.env && p.base.env[addr.x.name].Struct? then
      FullMembers(p, Members(p.base.env[addr.x.name].fields), v)
    else v
  }

  /** A promoted method acts on the embedded value alone. */
  ghost function CallAt(p: Package, path: Path, recv: Type, v: Value): Value
    decreases v, 2
  {
    if path == [] then OwnCall(p, recv, v)
    else match path[0]
      case Dot(name) =>
        if v.StructV? && name in v.fields then
          StructV(v.fields[name := CallAt(p, path[1..], recv, v.fields[name])])
        else v
      case Deref => if v.Ptr? then Ptr(CallAt(p, path[1..], recv, v.target)) else v
  }

  ghost function FullCall(p: Package, addr: Type, v: Value): Value
    decreases v, 3
  {
    if Own(p, addr) then OwnCall(p, addr, v)
    else if addr.Star? && Promoted(p, addr.x).Method? then
      CallAt(p, Promoted(p, addr.x).path, Promoted(p, addr.x).recv, v)
    else v
  }

  /** The direct reset when every method, promoted ones included, is called where it is visible. */
  ghost function FullReset(p: Package, t: Type, addr: Type, v: Value): Value
    decreases v, 4
  {
    match Resolve(t, p.base.env, {})
    case Ident(name) => if !IsPrimitive(name) && HasReset(p, addr) then FullCall(p, addr, v) else p.base.zero(t)
    case Slice(_) => if v.SliceV? then SliceV([], v.elems + v.spare) else v
    case Array(_) => p.base.zero(t)
    case Map(_, _) => if v.MapV? then MapV(map[]) else v
    case Star(x) => if v.Ptr? then Ptr(FullReset(p, x, t, v.target)) else v
    case Struct(fields) => if HasReset(p, addr) then FullCall(p, addr, v) else FullMembers(p, Members(fields), v)
    case Interface => p.base.zero(t)
    case Func => p.base.zero(t)
    case Chan => p.base.zero(t)
    case _ => if HasReset(p, addr) then FullCall(p, addr, v) else p.base.zero(t)
  }

  ghost function FullMembers(p: Package, ms: seq<Member>, v: Value): Value
    decreases v, 0
  {
    if !v.StructV? then v
    else StructV(map name | name in v.fields ::
      match MemberType(ms, name)
      case None => v.fields[name]
      case Some(t) => FullReset(p, t, Star(t), v.fields[name]))
  }

  // ---- A consistent world ----

  /** The compiled package: method sets as Go defines them, handwritten methods as they were, generated
      methods running their generated bodies in this very world, promoted methods acting on the embedded
      value. */
  ghost predicate Linked(w: World, p: Package, fuel: nat) {
    && w.env == p.base.env && w.zero == p.base.zero
    && (forall addr :: w.hasReset(addr) <==> HasReset(p, addr))
    && (forall addr, x :: p.base.hasReset(addr) ==> w.call(addr, x) == p.base.call(addr, x))
    && (forall n, x :: n in p.marked ==> RunsGenerated(w, fuel, n, x))
    && (forall addr, x :: !Own(p, addr) && addr.Star? && Promoted(p, addr.x).Method? ==>
          w.call(addr, x) == PutCall(w, Promoted(p, addr.x).path, Promoted(p, addr.x).recv, x))
  }

  ghost predicate RunsGenerated(w: World, fuel: nat, n: string, x: Value) {
    && Generated(w.env, fuel, n)
    && Ptr(w.call(Star(Ident(n)), x)) == RunMethod(w, n, EmitMethod(fuel, w.env, w.env[n].fields).value, Ptr(x))
  }

  function PutCall(w: World, path: Path, recv: Type, v: Value): Value {
    match Get(v, path)
    case None => v
    case Some(x) => Put(v, path, w.call(recv, x))
  }

  lemma {:induction false} FoundIsOwn(p: Package, depth: nat, e: Type, found: Found)
    requires found in At(p, depth, e) && found.Method?
    ensures Own(p, found.recv)
    decreases depth, 0
  {
    if 0 < depth {
      FoundInFieldsIsOwn(p, depth - 1, Resolve(Target(e), p.base.env, {}).fields, found);
    }
  }

  lemma {:induction false} FoundInFieldsIsOwn(p: Package, depth: nat, fields: seq<Field>, found: Found)
    requires found in AtFields(p, depth, fields) && found.Method?
    ensures Own(p, found.recv) && found.path != []
    decreases depth, |fields|
  {
    if found in AtFields(p, depth, fields[1..]) {
      FoundInFieldsIsOwn(p, depth, fields[1..], found);
    } else {
      var e := fields[0].typ;
      var i :| 0 <= i < |At(p, depth, e)| && Below(Hop(e), At(p, depth, e))[i] == found;
      FoundIsOwn(p, depth, e, At(p, depth, e)[i]);
    }
  }

  lemma PromotedIsOwn(p: Package, t: Type)
    requires Promoted(p, t).Method?
    ensures Own(p, Promoted(p, t).recv) && Promoted(p, t).path != []
  {
    var fields := Resolve(t, p.base.env, {}).fields;
    var depth: nat :| First(p, fields, depth) && Promoted(p, t) in AtFields(p, depth, fields);
    FoundInFieldsIsOwn(p, depth, fields, Promoted(p, t));
  }

  // ---- Every consistent world resets alike ----

  lemma {:induction false} ResetAgrees(w: World, p: Package, fuel: nat, t: Type, addr: Type, v: Value)
    requires WellNamedEnv(w.env) && Linked(w, p, fuel)
    ensures Reset(w, t, addr, v) == FullReset(p, t, addr, v)
    decreases v, 4
  {
    var r := Resolve(t, w.env, {});
    if HasReset(p, addr) {
      CallAgrees(w, p, fuel, addr, v);
    }
    if r.Star? && v.Ptr? {
      ResetAgrees(w, p, fuel, r.x, t, v.target);
    } else if r.Struct? {
      MembersAgree(w, p, fuel, Members(r.fields), v);
    }
  }

  lemma {:induction false} CallAgrees(w: World, p: Package, fuel: nat, addr: Type, v: Value)
    requires WellNamedEnv(w.env) && Linked(w, p, fuel) && HasReset(p, addr)
    ensures w.call(addr, v) == FullCall(p, addr, v)
    decreases v, 3
  {
    if Own(p, addr) {
      OwnAgrees(w, p, fuel, addr, v);
    } else {
      PromotedIsOwn(p, addr.x);
      PathAgrees(w, p, fuel, Promoted(p, addr.x).path, Promoted(p, addr.x).recv, v);
    }
  }

  lemma {:induction false} PathAgrees(w: World, p: Package, fuel: nat, path: Path, recv: Type, v: Value)
    requires WellNamedEnv(w.env) && Linked(w, p, fuel) && Own(p, recv)
    ensures PutCall(w, path, recv, v) == CallAt(p, path, recv, v)
    decreases v, 2
  {
    if path == [] {
      OwnAgrees(w, p, fuel, recv, v);
    } else {
      match path[0] {
        case Dot(name) =>
          if v.StructV? && name in v.fields {
            PathAgrees(w, p, fuel, path[1..], recv, v.fields[name]);
            assert v.fields[name := v.fields[name]] == v.fields;
          }
        case Deref =>
          if v.Ptr? {
            PathAgrees(w, p, fuel, path[1..], recv, v.target);
          }
      }
    }
  }

  lemma {:induction false} OwnAgrees(w: World, p: Package, fuel: nat, addr: Type, v: Value)
    requires WellNamedEnv(w.env) && Linked(w, p, fuel) && Own(p, addr)
    ensures w.call(addr, v) == OwnCall(p, addr, v)
    decreases v, 1
  {
    if !p.base.hasReset(addr) {
      var n := addr.x.name;
      assert RunsGenerated(w, fuel, n, v);
      MethodResets(fuel, w, n, Ptr(v));
      MembersAgree(w, p, fuel, Members(w.env[n].fields), v);
    }
  }

  lemma {:induction false} MembersAgree(w: World, p: Package, fuel: nat, ms: seq<Member>, v: Value)
    requires WellNamedEnv(w.env) && Linked(w, p, fuel)
    ensures ResetMembers(w, ms, v) == FullMembers(p, ms, v)
    decreases v, 0
  {
    if v.StructV? {
      forall name | name in v.fields && MemberType(ms, name).Some?
        ensures var t := MemberType(ms, name).value;
          Reset(w, t, Star(t), v.fields[name]) == FullReset(p, t, Star(t), v.fields[name])
      {
        var t := MemberType(ms, name).value;
        ResetAgrees(w, p, fuel, t, Star(t), v.fields[name]);
      }
      assert ResetMembers(w, ms, v).fields == FullMembers(p, ms, v).fields;
    }
  }

  /** What a generated method does in the compiled package: nil is left alone; otherwise every member is
      reset, each visible method, promoted ones included, being called in place of an expansion. */
  lemma GeneratedMethodResets(w: World, p: Package, fuel: nat, n: string, receiver: Value)
    requires WellNamedEnv(w.env) && Linked(w, p, fuel) && n in p.marked
    ensures Generated(w.env, fuel, n)
    ensures RunMethod(w, n, EmitMethod(fuel, w.env, w.env[n].fields).value, receiver) ==
      if receiver.Ptr? then Ptr(FullMembers(p, Members(w.env[n].fields), receiver.target)) else receiver
  {
    assert RunsGenerated(w, fuel, n, receiver);
    MethodResets(fuel, w, n, receiver);
    if receiver.Ptr? {
      MembersAgree(w, p, fuel, Members(w.env[n].fields), receiver.target);
    }
  }

  /** Expansion agrees with the call: for a marked struct nested at any path of any value, under its own
      name or another one that resolves to it, the statements of the else branch change the whole value
      exactly as calling its generated method would. */
  lemma ExpansionAgreesWithCall(fuel: nat, w: World, p: Package, root: Type, path: Path, t: Type, n: string, v: Value)
    requires WellNamedEnv(w.env) && Linked(w, p, fuel) && n in p.marked && n in w.env && w.env[n].Struct?
    requires EmitMembers(fuel, w.env, path, Members(w.env[n].fields)).Some?
    requires TypeOf(w.env, root, path) == Some(t) && Resolve(t, w.env, {}) == w.env[n] && Get(v, path).Some?
    ensures Exec(w, root, EmitMembers(fuel, w.env, path, Members(w.env[n].fields)).value, v)
      == Put(v, path, w.call(Star(Ident(n)), Get(v, path).value))
  {
    assert RunsGenerated(w, fuel, n, Get(v, path).value);
    ExpansionResets(fuel, w, root, path, t, n, v);
    MethodResets(fuel, w, n, Ptr(Get(v, path).value));
  }

  // ---- A consistent world exists ----

  ghost function Link(p: Package): World {
    p.base.(
      hasReset := (addr: Type) => HasReset(p, addr),
      call := (addr: Type, v: Value) => FullCall(p, addr, v))
  }

  lemma {:induction false} LinkResets(p: Package, t: Type, addr: Type, v: Value)
    ensures Reset(Link(p), t, addr, v) == FullReset(p, t, addr, v)
    decreases v, 1
  {
    var r := Resolve(t, p.base.env, {});
    if r.Star? && v.Ptr? {
      LinkResets(p, r.x, t, v.target);
    } else if r.Struct? {
      LinkResetsMembers(p, Members(r.fields), v);
    }
    LinkStep(p, t, addr, v);
  }

  /** Alike here when alike below. */
  lemma LinkStep(p: Package, t: Type, addr: Type, v: Value)
    requires var r := Resolve(t, p.base.env, {}); r.Star? && v.Ptr? ==>
      Reset(Link(p), r.x, t, v.target) == FullReset(p, r.x, t, v.target)
    requires var r := Resolve(t, p.base.env, {}); r.Struct? ==>
      ResetMembers(Link(p), Members(r.fields), v) == FullMembers(p, Members(r.fields), v)
    ensures Reset(Link(p), t, addr, v) == FullReset(p, t, addr, v)
  {
  }

  lemma {:induction false} LinkResetsMembers(p: Package, ms: seq<Member>, v: Value)
    ensures ResetMembers(Link(p), ms, v) == FullMembers(p, ms, v)
    decreases v, 0
  {
    if v.StructV? {
      forall name | name in v.fields && MemberType(ms, name).Some?
        ensures var t := MemberType(ms, name).value;
          Reset(Link(p), t, Star(t), v.fields[name]) == FullReset(p, t, Star(t), v.fields[name])
      {
        var t := MemberType(ms, name).value;
        LinkResets(p, t, Star(t), v.fields[name]);
      }
      assert ResetMembers(Link(p), ms, v).fields == FullMembers(p, ms, v).fields;
    }
  }

  lemma {:induction false} LinkCalls(p: Package, path: Path, recv: Type, v: Value)
    requires Own(p, recv)
    ensures PutCall(Link(p), path, recv, v) == CallAt(p, path, recv, v)
    decreases path
  {
    if path != [] {
      match path[0] {
        case Dot(name) =>
          if v.StructV? && name in v.fields {
            LinkCalls(p, path[1..], recv, v.fields[name]);
            assert v.fields[name := v.fields[name]] == v.fields;
          }
        case Deref =>
          if v.Ptr? {
            LinkCalls(p, path[1..], recv, v.target);
          }
      }
    }
  }

  lemma MarkedCall(p: Package, n: string, v: Value)
    requires n in p.marked && n in p.base.env && p.base.env[n].Struct? && !p.base.hasReset(Star(Ident(n)))
    ensures FullCall(p, Star(Ident(n)), v) == FullMembers(p, Members(p.base.env[n].fields), v)
  {
    assert IsMarked(p, Star(Ident(n)));
  }

  /** Mutually calling generated and promoted methods have a consistent meaning in every package whose
      methods can be generated and were not written by hand. */
  lemma GeneratedMethodsLink(p: Package, fuel: nat)
    requires WellNamedEnv(p.base.env) && Generates(p, fuel)
    ensures Linked(Link(p), p, fuel)
  {
    var w := Link(p);
    forall addr ensures w.hasReset(addr) <==> HasReset(p, addr) {
    }
    forall addr, x | p.base.hasReset(addr) ensures w.call(addr, x) == p.base.call(addr, x) {
      assert FullCall(p, addr, x) == p.base.call(addr, x);
    }
    forall n, x | n in p.marked ensures RunsGenerated(w, fuel, n, x) {
      assert Generated(p.base.env, fuel, n);
      MarkedCall(p, n, x);
      MethodResets(fuel, w, n, Ptr(x));
      LinkResetsMembers(p, Members(w.env[n].fields), x);
    }
    forall addr, x | !Own(p, addr) && addr.Star? && Promoted(p, addr.x).Method?
      ensures w.call(addr, x) == PutCall(w, Promoted(p, addr.x).path, Promoted(p, addr.x).recv, x)
    {
      PromotedIsOwn(p, addr.x);
      LinkCalls(p, Promoted(p, addr.x).path, Promoted(p, addr.x).recv, x);
    }
  }

  // ---- How a promotion starts ----

  lemma {:induction false} NothingInFields(p: Package, depth: nat, fields: seq<Field>, f: Field)
    requires AtFields(p, depth, fields) == [] && f in fields && Embedded(f)
    ensures At(p, depth, f.typ) == []
    decreases |fields|
  {
    if f == fields[0] {
      assert |Below(Hop(f.typ), At(p, depth, f.typ))| == 0;
    } else {
      NothingInFields(p, depth, fields[1..], f);
    }
  }

  lemma {:induction false} OneInFields(p: Package, depth: nat, fields: seq<Field>, path: Path, recv: Type)
    returns (f: Field, rest: Path)
    requires AtFields(p, depth, fields) == [Method(path, recv)]
    ensures f in fields && Embedded(f) && path == Hop(f.typ) + rest && At(p, depth, f.typ) == [Method(rest, recv)]
    decreases |fields|
  {
    f := fields[0];
    var found, others := if Embedded(f) then At(p, depth, f.typ) else [], AtFields(p, depth, fields[1..]);
    var here := Below(Hop(f.typ), found);
    assert AtFields(p, depth, fields) == here + others;
    assert |here| == |found|;
    if |found| == 0 {
      assert here == [] && others == [Method(path, recv)];
      f, rest := OneInFields(p, depth, fields[1..], path, recv);
    } else {
      assert here[0] == (here + others)[0];
      rest := found[0].path;
      assert |found| == 1 && found == [found[0]];
    }
  }

  /** The embedded field offers this method: its own, or one promoted to its target. */
  ghost predicate Offers(p: Package, e: Type, rest: Path, recv: Type) {
    if rest == [] then Own(p, Receiver(p, e)) && recv == Receiver(p, e)
    else !Own(p, Receiver(p, e)) && Promoted(p, Target(e)) == Method(rest, recv)
  }

  /** The embedded field a promoted method comes through: it offers its own method, or one promoted to
      its target. */
  lemma PromotedThrough(p: Package, t: Type) returns (f: Field, rest: Path)
    requires Promoted(p, t).Method?
    ensures Resolve(t, p.base.env, {}).Struct? && f in Resolve(t, p.base.env, {}).fields && Embedded(f)
    ensures Promoted(p, t).path == Hop(f.typ) + rest
    ensures Offers(p, f.typ, rest, Promoted(p, t).recv)
  {
    var fields, path, recv := Resolve(t, p.base.env, {}).fields, Promoted(p, t).path, Promoted(p, t).recv;
    var depth: nat :| First(p, fields, depth) && AtFields(p, depth, fields) == [Method(path, recv)];
    f, rest := OneInFields(p, depth, fields, path, recv);
    if depth == 0 {
      FoundHere(p, f.typ, rest, recv);
    } else {
      forall less: nat | less < depth ensures At(p, less, f.typ) == [] {
        NothingInFields(p, less, fields, f);
      }
      FoundDeeper(p, f.typ, depth, rest, recv);
    }
  }

  lemma FoundHere(p: Package, e: Type, rest: Path, recv: Type)
    requires At(p, 0, e) == [Method(rest, recv)]
    ensures rest == [] && recv == Receiver(p, e) && Own(p, Receiver(p, e))
  {
    var own := if Own(p, Receiver(p, e)) then [Method([], Receiver(p, e))] else [];
    var hidden := if HasField(p.base.env, Target(e), "Reset") then [Hidden] else [];
    assert At(p, 0, e) == own + hidden;
    assert (own + hidden)[0] == Method(rest, recv);
  }

  lemma FoundDeeper(p: Package, e: Type, depth: nat, rest: Path, recv: Type)
    requires 0 < depth && At(p, depth, e) == [Method(rest, recv)]
    requires forall less: nat :: less < depth ==> At(p, less, e) == []
    ensures rest != [] && !Own(p, Receiver(p, e)) && Promoted(p, Target(e)) == Method(rest, recv)
  {
    var inner := Resolve(Target(e), p.base.env, {}).fields;
    assert At(p, 0, e) == [];
    FoundInFieldsIsOwn(p, depth - 1, inner, Method(rest, recv));
    forall less: nat | less < depth - 1 ensures AtFields(p, less, inner) == [] {
      assert At(p, less + 1, e) == AtFields(p, less, inner);
    }
    FirstDecides(p, Target(e), depth - 1);
  }

  lemma FirstDecides(p: Package, t: Type, depth: nat)
    requires Resolve(t, p.base.env, {}).Struct? && !HasField(p.base.env, t, "Reset")
    requires First(p, Resolve(t, p.base.env, {}).fields, depth)
    requires |AtFields(p, depth, Resolve(t, p.base.env, {}).fields)| == 1
    ensures Promoted(p, t) == AtFields(p, depth, Resolve(t, p.base.env, {}).fields)[0]
  {
    var fields := Resolve(t, p.base.env, {}).fields;
    forall d: nat | First(p, fields, d) ensures d == depth {
    }
  }

  // ---- What a promoted method leaves out ----

  /** An address type that is a plain pointer points at the type in hand. */
  predicate Fits(t: Type, addr: Type) {
    addr.Star? ==> addr.x == t
  }

  /** The emission asks for a Reset method before it does anything else to such an expression. */
  predicate Asks(env: Env, t: Type) {
    match Resolve(t, env, {})
    case Ident(name) => !IsPrimitive(name)
    case Struct(_) => true
    case Selector(_, _) => true
    case Instance(_, _) => true
    case Paren(_) => true
    case _ => false
  }

  /** The emission would call the very method that the embedded field offers. */
  predicate Consults(p: Package, e: Type) {
    Asks(p.base.env, Target(e)) && (e.Star? || Own(p, Star(e)) || !Own(p, e))
  }

  /** Resetting a member of this type can change it. */
  ghost predicate Changes(w: World, t: Type) {
    exists x :: Reset(w, t, Star(t), x) != x
  }

  /** The type gets its Reset method by promotion. */
  ghost predicate ByPromotion(p: Package, t: Type, addr: Type) {
    addr == Star(t) && !Own(p, addr) && Promoted(p, t).Method?
  }

  /** The embedded field a promoted method comes through, and the path behind it. */
  ghost function Through(p: Package, t: Type): string
    requires Promoted(p, t).Method?
  {
    var path := Promoted(p, t).path;
    if path != [] && path[0].Dot? then path[0].name else ""
  }

  ghost function Behind(p: Package, t: Type): Path
    requires Promoted(p, t).Method?
  {
    var path := Promoted(p, t).path;
    if path == [] then [] else path[1..]
  }

  ghost function MemberOfType(p: Package, t: Type, name: string): Option<Type> {
    if Resolve(t, p.base.env, {}).Struct? then MemberType(Members(Resolve(t, p.base.env, {}).fields), name) else None
  }

  /** A struct with a promoted Reset and another member that a reset would change; or whose promoted
      method differs from the statements for the embedded field, because they do not ask for it. */
  ghost predicate LeavesOut(p: Package, t: Type, addr: Type) {
    ByPromotion(p, t, addr) &&
    exists name :: MemberOfType(p, t, name).Some? && LeavesOutMember(p, t, name, MemberOfType(p, t, name).value)
  }

  ghost predicate LeavesOutMember(p: Package, t: Type, name: string, typ: Type)
    requires Promoted(p, t).Method?
  {
    if name != Through(p, t) then Changes(p.base, typ)
    else !Consults(p, typ) && exists x ::
      CallAt(p, Behind(p, t), Promoted(p, t).recv, x) != Reset(p.base, typ, Star(typ), x)
  }

  /** The generated code resets the members of this struct in turn, or calls a generated or promoted
      method that resets this one. */
  ghost predicate Enters(p: Package, t: Type, addr: Type, name: string, typ: Type) {
    && !p.base.hasReset(addr)
    && (ByPromotion(p, t, addr) ==> name == Through(p, t) && Consults(p, typ))
  }

  ghost predicate LeavesOutAt(p: Package, t: Type, addr: Type, path: Path)
    decreases |path|
  {
    if path == [] then LeavesOut(p, t, addr)
    else
      match path[0]
      case Deref =>
        Resolve(t, p.base.env, {}).Star? && LeavesOutAt(p, Resolve(t, p.base.env, {}).x, t, path[1..])
      case Dot(name) =>
        && MemberOfType(p, t, name).Some?
        && Enters(p, t, addr, name, MemberOfType(p, t, name).value)
        && LeavesOutAt(p, MemberOfType(p, t, name).value, Star(MemberOfType(p, t, name).value), path[1..])
  }

  /** Somewhere on the descent a promoted method leaves out a member. */
  ghost predicate Skips(p: Package, t: Type, addr: Type) {
    exists path :: LeavesOutAt(p, t, addr, path)
  }

  // ---- The embedded member is reset as it would be by expansion ----

  lemma EmbeddedMember(fields: seq<Field>, f: Field)
    requires DistinctNames(Members(fields)) && f in fields && Embedded(f)
    ensures MemberType(Members(fields), EmbeddedFieldName(f.typ)) == Some(f.typ)
  {
    var name := EmbeddedFieldName(f.typ);
    MembersExactly(fields, Member(name, f.typ));
    var k :| 0 <= k < |Members(fields)| && Members(fields)[k] == Member(name, f.typ);
    MemberTypeAt(Members(fields), k, name);
  }

  /** The member a promoted method comes through. */
  lemma PromotedMember(p: Package, t: Type) returns (e: Type, rest: Path)
    requires Promoted(p, t).Method? && WellNamed(Resolve(t, p.base.env, {}))
    ensures MemberOfType(p, t, Through(p, t)) == Some(e)
    ensures Promoted(p, t).path == [Dot(Through(p, t))] + Behind(p, t)
    ensures Behind(p, t) == (if e.Star? then [Deref] else []) + rest
    ensures Offers(p, e, rest, Promoted(p, t).recv)
  {
    var f;
    f, rest := PromotedThrough(p, t);
    e := f.typ;
    EmbeddedMember(Resolve(t, p.base.env, {}).fields, f);
    HopThen(e, rest, Promoted(p, t).path);
  }

  lemma HopThen(e: Type, rest: Path, path: Path)
    requires path == Hop(e) + rest
    ensures path != [] && path[0] == Dot(EmbeddedFieldName(e))
    ensures path[1..] == (if e.Star? then [Deref] else []) + rest
    ensures path == [path[0]] + path[1..]
  {
  }

  /** A promoted method is, for the embedded field, the reset of that field. */
  lemma PromotedResetsField(p: Package, t: Type, x: Value) returns (e: Type)
    requires Promoted(p, t).Method? && WellNamed(Resolve(t, p.base.env, {}))
    ensures MemberOfType(p, t, Through(p, t)) == Some(e)
    ensures Promoted(p, t).path == [Dot(Through(p, t))] + Behind(p, t)
    ensures Consults(p, e) ==>
      CallAt(p, Behind(p, t), Promoted(p, t).recv, x) == FullReset(p, e, Star(e), x)
  {
    var rest;
    e, rest := PromotedMember(p, t);
    if Consults(p, e) {
      FieldResets(p, e, rest, Behind(p, t), Promoted(p, t).recv, x);
    }
  }

  lemma FieldResets(p: Package, e: Type, rest: Path, path: Path, recv: Type, x: Value)
    requires Consults(p, e) && Offers(p, e, rest, recv) && path == (if e.Star? then [Deref] else []) + rest
    ensures CallAt(p, path, recv, x) == FullReset(p, e, Star(e), x)
  {
    if e.Star? {
      assert path[1..] == rest;
      if x.Ptr? {
        TargetResets(p, e, rest, recv, x.target);
      }
    } else {
      assert path == rest;
      TargetResets(p, e, rest, recv, x);
    }
  }

  lemma TargetResets(p: Package, e: Type, rest: Path, recv: Type, x: Value)
    requires Consults(p, e) && Offers(p, e, rest, recv)
    ensures CallAt(p, rest, recv, x) == FullReset(p, Target(e), Star(Target(e)), x)
  {
    var addr := Star(Target(e));
    assert HasReset(p, addr);
    assert CallAt(p, rest, recv, x) == FullCall(p, addr, x);
  }

  // ---- Nothing left out: the full reset is the expansion ----

  /** The marked names as generation leaves them. */
  ghost predicate MarkedStructs(p: Package) {
    forall n :: n in p.marked ==>
      !IsPrimitive(n) && n in p.base.env && p.base.env[n].Struct? && !p.base.hasReset(Star(Ident(n)))
  }

  lemma SkipsBelow(p: Package, t: Type, addr: Type, sel: Sel, t2: Type, addr2: Type)
    requires !Skips(p, t, addr)
    requires match sel
      case Deref => Resolve(t, p.base.env, {}).Star? && t2 == Resolve(t, p.base.env, {}).x && addr2 == t
      case Dot(name) => MemberOfType(p, t, name) == Some(t2) && Enters(p, t, addr, name, t2) && addr2 == Star(t2)
    ensures !Skips(p, t2, addr2)
  {
    if path :| LeavesOutAt(p, t2, addr2, path) {
      assert ([sel] + path)[1..] == path;
      assert LeavesOutAt(p, t, addr, [sel] + path);
    }
  }

  /** Which methods the emission can find at an address that is not a struct's. */
  lemma OnlyStructsPromote(p: Package, t: Type, addr: Type)
    requires MarkedStructs(p) && Fits(t, addr) && !Resolve(t, p.base.env, {}).Struct?
    ensures HasReset(p, addr) <==> p.base.hasReset(addr)
  {
    if IsMarked(p, addr) {
      ResolveNamedStruct(p.base.env, addr.x.name);
    }
  }

  lemma {:induction false} NothingLeftOut(p: Package, t: Type, addr: Type, v: Value)
    requires WellNamedEnv(p.base.env) && WellNamed(t) && MarkedStructs(p) && Fits(t, addr)
    requires !Skips(p, t, addr)
    ensures FullReset(p, t, addr, v) == Reset(p.base, t, addr, v)
    decreases v, 2
  {
    var r := Resolve(t, p.base.env, {});
    ResolveWellNamed(t, p.base.env);
    if r.Struct? {
      StructNothingLeftOut(p, t, addr, v);
    } else {
      OnlyStructsPromote(p, t, addr);
      if r.Star? && v.Ptr? {
        SkipsBelow(p, t, addr, Deref, r.x, t);
        ResolvedPointer(t, p.base.env);
        NothingLeftOut(p, r.x, t, v.target);
      }
      OthersAlike(p, t, addr, v);
    }
  }

  lemma OthersAlike(p: Package, t: Type, addr: Type, v: Value)
    requires !Resolve(t, p.base.env, {}).Struct? && (HasReset(p, addr) <==> p.base.hasReset(addr))
    requires var r := Resolve(t, p.base.env, {}); r.Star? && v.Ptr? ==>
      FullReset(p, r.x, t, v.target) == Reset(p.base, r.x, t, v.target)
    ensures FullReset(p, t, addr, v) == Reset(p.base, t, addr, v)
  {
    HandwrittenCall(p, addr, v);
  }

  lemma HandwrittenCall(p: Package, addr: Type, v: Value)
    ensures p.base.hasReset(addr) ==> HasReset(p, addr) && FullCall(p, addr, v) == p.base.call(addr, v)
  {
  }

  /** A plain pointer type resolves to itself. */
  lemma ResolvedPointer(t: Type, env: Env)
    ensures t.Star? ==> Resolve(t, env, {}) == t
  {
  }

  lemma {:induction false} StructNothingLeftOut(p: Package, t: Type, addr: Type, v: Value)
    requires WellNamedEnv(p.base.env) && WellNamed(Resolve(t, p.base.env, {})) && MarkedStructs(p) && Fits(t, addr)
    requires Resolve(t, p.base.env, {}).Struct? && !Skips(p, t, addr)
    ensures FullReset(p, t, addr, v) == Reset(p.base, t, addr, v)
    decreases v, 1
  {
    var ms := Members(Resolve(t, p.base.env, {}).fields);
    StructCases(p, t, addr, v);
    if p.base.hasReset(addr) {
    } else if ByPromotion(p, t, addr) {
      PromotionNothingLeftOut(p, t, addr, v);
    } else {
      MembersNothingLeftOut(p, t, addr, ms, v);
    }
  }

  /** What the full reset and the expansion do to a struct. */
  lemma StructCases(p: Package, t: Type, addr: Type, v: Value)
    requires MarkedStructs(p) && Fits(t, addr) && Resolve(t, p.base.env, {}).Struct?
    ensures var ms := Members(Resolve(t, p.base.env, {}).fields);
      if p.base.hasReset(addr) then
        FullReset(p, t, addr, v) == p.base.call(addr, v) == Reset(p.base, t, addr, v)
      else
        && Reset(p.base, t, addr, v) == ResetMembers(p.base, ms, v)
        && FullReset(p, t, addr, v) ==
          if ByPromotion(p, t, addr) then CallAt(p, Promoted(p, t).path, Promoted(p, t).recv, v)
          else FullMembers(p, ms, v)
  {
    var ms := Members(Resolve(t, p.base.env, {}).fields);
    HandwrittenCall(p, addr, v);
    if !p.base.hasReset(addr) {
      if IsMarked(p, addr) {
        ResolveNamedStruct(p.base.env, addr.x.name);
        MarkedCall(p, addr.x.name, v);
      }
      assert FullReset(p, t, addr, v) == if HasReset(p, addr) then FullCall(p, addr, v) else FullMembers(p, ms, v);
    }
  }

  lemma {:induction false} MembersNothingLeftOut(p: Package, t: Type, addr: Type, ms: seq<Member>, v: Value)
    requires WellNamedEnv(p.base.env) && WellNamed(Resolve(t, p.base.env, {})) && MarkedStructs(p)
    requires Resolve(t, p.base.env, {}).Struct? && ms == Members(Resolve(t, p.base.env, {}).fields)
    requires !Skips(p, t, addr) && !p.base.hasReset(addr) && !ByPromotion(p, t, addr)
    ensures FullMembers(p, ms, v) == ResetMembers(p.base, ms, v)
    decreases v, 0
  {
    if v.StructV? {
      forall name | name in v.fields && MemberType(ms, name).Some?
        ensures var u := MemberType(ms, name).value;
          FullReset(p, u, Star(u), v.fields[name]) == Reset(p.base, u, Star(u), v.fields[name])
      {
        var u := MemberType(ms, name).value;
        MemberIsWellNamed(Resolve(t, p.base.env, {}).fields, name);
        SkipsBelow(p, t, addr, Dot(name), u, Star(u));
        NothingLeftOut(p, u, Star(u), v.fields[name]);
      }
      assert FullMembers(p, ms, v).fields == ResetMembers(p.base, ms, v).fields;
    }
  }

  lemma MemberIsWellNamed(fields: seq<Field>, name: string)
    requires WellNamed(Struct(fields)) && MemberType(Members(fields), name).Some?
    ensures WellNamed(MemberType(Members(fields), name).value)
  {
    var k := MemberTypeIs(Members(fields), name);
    MembersWellNamed(fields, k);
  }

  lemma {:induction false} MemberTypeIs(ms: seq<Member>, name: string) returns (k: nat)
    requires MemberType(ms, name).Some?
    ensures k < |ms| && ms[k].typ == MemberType(ms, name).value
  {
    k := |ms| - 1;
    if ms[k].name != name {
      k := MemberTypeIs(ms[..k], name);
    }
  }

  lemma {:induction false} PromotionNothingLeftOut(p: Package, t: Type, addr: Type, v: Value)
    requires WellNamedEnv(p.base.env) && WellNamed(Resolve(t, p.base.env, {})) && MarkedStructs(p)
    requires Resolve(t, p.base.env, {}).Struct? && ByPromotion(p, t, addr) && !Skips(p, t, addr)
    ensures CallAt(p, Promoted(p, t).path, Promoted(p, t).recv, v)
      == ResetMembers(p.base, Members(Resolve(t, p.base.env, {}).fields), v)
    decreases v, 0
  {
    var fields := Resolve(t, p.base.env, {}).fields;
    var ms, m := Members(fields), Through(p, t);
    var e := PromotedResetsField(p, t, if v.StructV? && m in v.fields then v.fields[m] else v);
    if v.StructV? {
      assert !LeavesOutAt(p, t, addr, []);
      var after := CallAt(p, Promoted(p, t).path, Promoted(p, t).recv, v);
      assert Promoted(p, t).path[1..] == Behind(p, t);
      forall name | name in v.fields
        ensures after.StructV? && name in after.fields
        ensures after.fields[name] == ResetMembers(p.base, ms, v).fields[name]
      {
        if name == m {
          if Consults(p, e) {
            MemberIsWellNamed(fields, m);
            SkipsBelow(p, t, addr, Dot(m), e, Star(e));
            NothingLeftOut(p, e, Star(e), v.fields[m]);
          } else {
            assert !LeavesOutMember(p, t, m, e);
          }
        } else if MemberType(ms, name).Some? {
          assert MemberOfType(p, t, name) == MemberType(ms, name);
          assert !LeavesOutMember(p, t, name, MemberType(ms, name).value);
        }
      }
      assert after.fields == ResetMembers(p.base, ms, v).fields;
    }
  }

  // ---- Something left out: some value shows it ----

  lemma {:induction false} LeftOutShows(p: Package, t: Type, addr: Type, path: Path) returns (v: Value)
    requires WellNamedEnv(p.base.env) && WellNamed(t) && MarkedStructs(p) && Fits(t, addr)
    requires LeavesOutAt(p, t, addr, path)
    ensures FullReset(p, t, addr, v) != Reset(p.base, t, addr, v)
    decreases |path|
  {
    ResolveWellNamed(t, p.base.env);
    if path == [] {
      v := LeftOutHere(p, t, addr);
    } else {
      match path[0] {
        case Deref =>
          ResolvedPointer(t, p.base.env);
          var x := LeftOutShows(p, Resolve(t, p.base.env, {}).x, t, path[1..]);
          v := Ptr(x);
        case Dot(name) =>
          var u := MemberOfType(p, t, name).value;
          MemberIsWellNamed(Resolve(t, p.base.env, {}).fields, name);
          var x := LeftOutShows(p, u, Star(u), path[1..]);
          v := StructV(map[name := x]);
          OneMember(p, t, addr, name, u, x);
      }
    }
  }

  /** A struct value with one member only. */
  lemma OneMember(p: Package, t: Type, addr: Type, name: string, u: Type, x: Value)
    requires WellNamed(Resolve(t, p.base.env, {})) && MarkedStructs(p) && Fits(t, addr)
    requires MemberOfType(p, t, name) == Some(u) && Enters(p, t, addr, name, u)
    ensures var v := StructV(map[name := x]);
      && Get(FullReset(p, t, addr, v), [Dot(name)]) == Some(FullReset(p, u, Star(u), x))
      && Get(Reset(p.base, t, addr, v), [Dot(name)]) == Some(Reset(p.base, u, Star(u), x))
  {
    var v := StructV(map[name := x]);
    StructCases(p, t, addr, v);
    if ByPromotion(p, t, addr) {
      var e := PromotedResetsField(p, t, x);
      assert Promoted(p, t).path[1..] == Behind(p, t);
    }
  }

  lemma LeftOutHere(p: Package, t: Type, addr: Type) returns (v: Value)
    requires WellNamed(Resolve(t, p.base.env, {})) && MarkedStructs(p) && LeavesOut(p, t, addr)
    ensures FullReset(p, t, addr, v) != Reset(p.base, t, addr, v)
  {
    var name :| MemberOfType(p, t, name).Some? && LeavesOutMember(p, t, name, MemberOfType(p, t, name).value);
    var u := MemberOfType(p, t, name).value;
    var e := PromotedResetsField(p, t, Nil);
    assert Promoted(p, t).path[1..] == Behind(p, t);
    var x :|
      if name == Through(p, t) then CallAt(p, Behind(p, t), Promoted(p, t).recv, x) != Reset(p.base, u, Star(u), x)
      else Reset(p.base, u, Star(u), x) != x;
    v := StructV(map[name := x]);
    StructCases(p, t, addr, v);
    assert Get(Reset(p.base, t, addr, v), [Dot(name)]) == Some(Reset(p.base, u, Star(u), x));
    assert Get(FullReset(p, t, addr, v), [Dot(name)]) ==
      Some(if name == Through(p, t) then CallAt(p, Behind(p, t), Promoted(p, t).recv, x) else x);
  }

  // ---- Main result ----

  /** Exactly when a generated method resets, for every value, all that expanding every struct without a
      handwritten method would: when no promoted method on the descent leaves a member out. */
  lemma GeneratedResetsAllExactly(w: World, p: Package, fuel: nat, n: string)
    requires WellNamedEnv(w.env) && Generates(p, fuel) && Linked(w, p, fuel) && n in p.marked
    ensures Generated(w.env, fuel, n)
    ensures (forall v ::
        RunMethod(w, n, EmitMethod(fuel, w.env, w.env[n].fields).value, Ptr(v))
          == Ptr(ResetMembers(p.base, Members(w.env[n].fields), v)))
      <==> !Skips(p, Ident(n), Star(Ident(n)))
  {
    var ms := Members(w.env[n].fields);
    assert Generated(p.base.env, fuel, n);
    ResolveNamedStruct(w.env, n);
    forall v ensures RunMethod(w, n, EmitMethod(fuel, w.env, w.env[n].fields).value, Ptr(v))
      == Ptr(FullMembers(p, ms, v))
    {
      GeneratedMethodResets(w, p, fuel, n, Ptr(v));
    }
    forall v ensures FullReset(p, Ident(n), Star(Ident(n)), v) == FullMembers(p, ms, v)
      && Reset(p.base, Ident(n), Star(Ident(n)), v) == ResetMembers(p.base, ms, v)
    {
      MarkedCall(p, n, v);
      assert IsMarked(p, Star(Ident(n)));
    }
    if !Skips(p, Ident(n), Star(Ident(n))) {
      forall v ensures FullMembers(p, ms, v) == ResetMembers(p.base, ms, v) {
        NothingLeftOut(p, Ident(n), Star(Ident(n)), v);
      }
    } else {
      var path :| LeavesOutAt(p, Ident(n), Star(Ident(n)), path);
      var v := LeftOutShows(p, Ident(n), Star(Ident(n)), path);
      assert FullMembers(p, ms, v) != ResetMembers(p.base, ms, v);
    }
  }

  /** Members that are zeroed, cut or emptied are changed by a reset of some value. */
  lemma OrdinaryMembersChange(w: World, t: Type)
    requires !Asks(w.env, t) && !Resolve(t, w.env, {}).Star?
    ensures Changes(w, t)
  {
    var x := match Resolve(t, w.env, {})
      case Slice(_) => SliceV([Nil], [])
      case Map(_, _) => MapV(map["" := Nil])
      case _ => if w.zero(t) == Nil then Scalar(0) else Nil;
    assert [Nil] != [] && "" in map["" := Nil];
    assert Reset(w, t, Star(t), x) != x;
  }

  /** A marked struct embedded in an unmarked one, and that one inside a marked one. */
  function MidPackage(zero: Type -> Value): Package {
    var env := map[
      "Inner" := Struct([Field(["N"], Ident("int"))]),
      "Mid" := Struct([Field([], Ident("Inner")), Field(["M"], Ident("int"))]),
      "Outer" := Struct([Field(["Mid"], Ident("Mid"))])];
    Package(World(env, zero, t => false, (t, v) => v), {"Inner", "Outer"})
  }

  lemma MidIsPromoted(zero: Type -> Value)
    ensures Promoted(MidPackage(zero), Ident("Mid")) == Method([Dot("Inner")], Star(Ident("Inner")))
  {
    var p, inner := MidPackage(zero), Ident("Inner");
    var fields := p.base.env["Mid"].fields;
    ResolveNamedStruct(p.base.env, "Inner");
    ResolveNamedStruct(p.base.env, "Mid");
    assert Members(p.base.env["Inner"].fields) == [Member("N", Ident("int"))];
    assert Members(fields) == [Member("Inner", inner), Member("M", Ident("int"))];
    assert At(p, 0, inner) == [Method([], Star(inner))];
    assert Hop(inner) + [] == [Dot("Inner")];
    assert Below(Hop(inner), At(p, 0, inner)) == [Method([Dot("Inner")], Star(inner))];
    assert AtFields(p, 0, fields) == [Method([Dot("Inner")], Star(inner))];
    FirstDecides(p, Ident("Mid"), 0);
  }

  /** The generated method of the outer struct leaves the member beside the embedded one as it was. */
  lemma PromotionHidesMembers(zero: Type -> Value, k: int)
    ensures var v := StructV(map["Mid" := StructV(map["M" := Scalar(k)])]);
      FullReset(MidPackage(zero), Ident("Outer"), Star(Ident("Outer")), v) == v
  {
    var p, mid := MidPackage(zero), StructV(map["M" := Scalar(k)]);
    MidIsPromoted(zero);
    ResolveNamedStruct(p.base.env, "Mid");
    ResolveNamedStruct(p.base.env, "Outer");
    assert !Own(p, Star(Ident("Mid")));
    assert CallAt(p, [Dot("Inner")], Star(Ident("Inner")), mid) == mid;
    assert FullCall(p, Star(Ident("Mid")), mid) == mid;
    assert FullReset(p, Ident("Mid"), Star(Ident("Mid")), mid) == mid;
    assert Members(p.base.env["Outer"].fields) == [Member("Mid", Ident("Mid"))];
    MarkedCall(p, "Outer", StructV(map["Mid" := mid]));
    assert FullMembers(p, [Member("Mid", Ident("Mid"))], StructV(map["Mid" := mid])).fields == map["Mid" := mid];
  }

  // ---- Go's rules of promotion ----

  /** A field named Reset hides every promoted method. */
  lemma FieldHidesMethods(p: Package, t: Type)
    requires HasField(p.base.env, t, "Reset")
    ensures !Promoted(p, t).Method?
  {
  }

  /** The embedded field offers a method of its own and has no field of that name. */
  ghost predicate OffersOwn(p: Package, f: Field) {
    Embedded(f) && Own(p, Receiver(p, f.typ)) && !HasField(p.base.env, Target(f.typ), "Reset")
  }

  /** The embedded field has neither a method of its own nor a field of that name. */
  ghost predicate OffersNothing(p: Package, f: Field) {
    Embedded(f) ==> !Own(p, Receiver(p, f.typ)) && !HasField(p.base.env, Target(f.typ), "Reset")
  }

  lemma OwnIsFound(p: Package, f: Field)
    requires OffersOwn(p, f)
    ensures Below(Hop(f.typ), At(p, 0, f.typ)) == [Method(Hop(f.typ), Receiver(p, f.typ))]
  {
    assert At(p, 0, f.typ) == [Method([], Receiver(p, f.typ))];
    assert Hop(f.typ) + [] == Hop(f.typ);
  }

  /** Each field contributes what it offers, in order. */
  lemma {:induction false} FoundFieldByField(p: Package, a: seq<Field>, b: seq<Field>)
    ensures AtFields(p, 0, a + b) == AtFields(p, 0, a) + AtFields(p, 0, b)
  {
    if a == [] {
      assert a + b == b;
    } else {
      assert (a + b)[1..] == a[1..] + b;
      FoundFieldByField(p, a[1..], b);
    }
  }

  lemma {:induction false} NothingOffered(p: Package, fields: seq<Field>)
    requires forall f :: f in fields ==> OffersNothing(p, f)
    ensures AtFields(p, 0, fields) == []
  {
    if fields != [] {
      assert fields[0] in fields;
      NothingOffered(p, fields[1..]);
    }
  }

  /** A single embedded field that offers a method of its own has it promoted. */
  lemma SingleOfferIsPromoted(p: Package, t: Type, before: seq<Field>, f: Field, behind: seq<Field>)
    requires Resolve(t, p.base.env, {}) == Struct(before + [f] + behind) && !HasField(p.base.env, t, "Reset")
    requires OffersOwn(p, f) && (forall g :: g in before || g in behind ==> OffersNothing(p, g))
    ensures Promoted(p, t) == Method(Hop(f.typ), Receiver(p, f.typ))
  {
    OfferInTheMiddle(p, before, f, behind);
    NothingOffered(p, before);
    NothingOffered(p, behind);
    FirstDecides(p, t, 0);
  }

  lemma OfferInTheMiddle(p: Package, before: seq<Field>, f: Field, behind: seq<Field>)
    requires OffersOwn(p, f)
    ensures AtFields(p, 0, before + [f] + behind)
      == AtFields(p, 0, before) + [Method(Hop(f.typ), Receiver(p, f.typ))] + AtFields(p, 0, behind)
  {
    FoundFieldByField(p, before + [f], behind);
    FoundFieldByField(p, before, [f]);
    OwnIsFound(p, f);
    assert [f][1..] == [];
    assert AtFields(p, 0, [f]) == [Method(Hop(f.typ), Receiver(p, f.typ))] + [];
  }

  /** Two embedded fields that offer a method of their own at the same depth promote none. */
  lemma TwoOffersPromoteNothing(p: Package, t: Type, a: seq<Field>, f: Field, b: seq<Field>, g: Field, c: seq<Field>)
    requires Resolve(t, p.base.env, {}) == Struct(a + [f] + (b + [g] + c))
    requires OffersOwn(p, f) && OffersOwn(p, g)
    ensures !Promoted(p, t).Method?
  {
    var fields := a + [f] + (b + [g] + c);
    OfferInTheMiddle(p, a, f, b + [g] + c);
    OfferInTheMiddle(p, b, g, c);
    assert |AtFields(p, 0, fields)| >= 2;
    forall d: nat | First(p, fields, d) ensures d == 0 {
    }
  }
}
