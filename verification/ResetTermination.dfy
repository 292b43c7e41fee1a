/** When the generator terminates: exactly when no type reachable through pointers and struct fields
    reaches itself again. */
module ResetTermination {
  import opened ResetTypes
  import opened ResetEmitter

  /** The types the generator descends into: a pointer's target and a struct's members. Slices, maps and
      fixed arrays cut the descent. */
  function Kids(env: Env, t: Type): seq<Type> {
    match Resolve(t, env, {})
    case Star(x) => [x]
    case Struct(fields) => TypesOf(Members(fields))
    case _ => []
  }

  function TypesOf(ms: seq<Member>): seq<Type> {
    seq(|ms|, i requires 0 <= i < |ms| => ms[i].typ)
  }

  /** `fuel` levels suffice: no kid needs as many. */
  predicate Enough(fuel: nat, env: Env, t: Type)
    decreases fuel, 0
  {
    0 < fuel && AllEnough(fuel - 1, env, Kids(env, t))
  }

  predicate AllEnough(fuel: nat, env: Env, ts: seq<Type>)
    decreases fuel, |ts|
  {
    ts == [] || (AllEnough(fuel, env, ts[..|ts| - 1]) && Enough(fuel, env, ts[|ts| - 1]))
  }

  lemma {:induction false} AllEnoughMeans(fuel: nat, env: Env, ts: seq<Type>)
    ensures AllEnough(fuel, env, ts) <==> forall x :: x in ts ==> Enough(fuel, env, x)
    decreases |ts|
  {
    if ts != [] {
      var n := |ts| - 1;
      AllEnoughMeans(fuel, env, ts[..n]);
      if AllEnough(fuel, env, ts) {
        forall x | x in ts ensures Enough(fuel, env, x) {
          assert x in ts[..n] || x == ts[n];
        }
      } else {
        var x := ts[n];
        if Enough(fuel, env, ts[n]) {
          x :| x in ts[..n] && !Enough(fuel, env, x);
        }
        assert x in ts && !Enough(fuel, env, x);
      }
    }
  }

  lemma {:induction false} MembersEmitExactly(fuel: nat, env: Env, path: Path, ms: seq<Member>)
    ensures EmitMembers(fuel, env, path, ms).Some? <==> AllEnough(fuel, env, TypesOf(ms))
    decreases fuel, |ms|
  {
    if ms != [] {
      var n := |ms| - 1;
      var field := path + [Dot(ms[n].name)];
      assert TypesOf(ms)[..n] == TypesOf(ms[..n]);
      MembersEmitExactly(fuel, env, path, ms[..n]);
      EmitsExactly(fuel, env, field, AddrOf(field), ms[n].typ);
    }
  }

  /** Whether the emission ends does not depend on the expression it is for. */
  lemma {:induction false} EmitsExactly(fuel: nat, env: Env, path: Path, addr: Addr, t: Type)
    ensures Emit(fuel, env, path, addr, t).Some? <==> Enough(fuel, env, t)
    decreases fuel, 0
  {
    if 0 < fuel {
      var r := Resolve(t, env, {});
      if r.Star? {
        EmitsExactly(fuel - 1, env, path + [Deref], Pointer(path), r.x);
        PointerEmits(fuel, env, path, addr, t);
      } else if r.Struct? {
        MembersEmitExactly(fuel - 1, env, path, Members(r.fields));
        StructEmits(fuel, env, path, addr, t);
      } else {
        OthersEmit(fuel, env, path, addr, t);
      }
    }
  }

  lemma PointerEmits(fuel: nat, env: Env, path: Path, addr: Addr, t: Type)
    requires 0 < fuel && Resolve(t, env, {}).Star?
    requires var x := Resolve(t, env, {}).x;
      Emit(fuel - 1, env, path + [Deref], Pointer(path), x).Some? <==> Enough(fuel - 1, env, x)
    ensures Emit(fuel, env, path, addr, t).Some? <==> Enough(fuel, env, t)
  {
    AllEnoughMeans(fuel - 1, env, Kids(env, t));
  }

  lemma StructEmits(fuel: nat, env: Env, path: Path, addr: Addr, t: Type)
    requires 0 < fuel && Resolve(t, env, {}).Struct?
    requires var ms := Members(Resolve(t, env, {}).fields);
      EmitMembers(fuel - 1, env, path, ms).Some? <==> AllEnough(fuel - 1, env, TypesOf(ms))
    ensures Emit(fuel, env, path, addr, t).Some? <==> Enough(fuel, env, t)
  {
  }

  lemma OthersEmit(fuel: nat, env: Env, path: Path, addr: Addr, t: Type)
    requires 0 < fuel && !Resolve(t, env, {}).Star? && !Resolve(t, env, {}).Struct?
    ensures Emit(fuel, env, path, addr, t).Some? && Enough(fuel, env, t)
  {
  }

  // ---- More fuel changes nothing ----

  lemma {:induction false} MembersFuelIrrelevant(fuel: nat, more: nat, env: Env, path: Path, ms: seq<Member>)
    requires fuel <= more && EmitMembers(fuel, env, path, ms).Some?
    ensures EmitMembers(more, env, path, ms) == EmitMembers(fuel, env, path, ms)
    decreases fuel, |ms|
  {
    if ms != [] {
      var n := |ms| - 1;
      var field := path + [Dot(ms[n].name)];
      MembersFuelIrrelevant(fuel, more, env, path, ms[..n]);
      FuelIrrelevant(fuel, more, env, field, AddrOf(field), ms[n].typ);
    }
  }

  /** The emitted statements do not depend on the fuel: it only bounds the depth. */
  lemma {:induction false} FuelIrrelevant(fuel: nat, more: nat, env: Env, path: Path, addr: Addr, t: Type)
    requires fuel <= more && Emit(fuel, env, path, addr, t).Some?
    ensures Emit(more, env, path, addr, t) == Emit(fuel, env, path, addr, t)
    decreases fuel, 0
  {
    match Resolve(t, env, {}) {
      case Star(x) => FuelIrrelevant(fuel - 1, more - 1, env, path + [Deref], Pointer(path), x);
      case Struct(fields) => MembersFuelIrrelevant(fuel - 1, more - 1, env, path, Members(fields));
      case _ =>
    }
  }

  // ---- Chains of types ----

  ghost predicate Chain(env: Env, p: seq<Type>) {
    p != [] && forall i :: 0 <= i < |p| - 1 ==> p[i + 1] in Kids(env, p[i])
  }

  lemma {:induction false} ChainTooLong(fuel: nat, env: Env, p: seq<Type>)
    requires Chain(env, p) && |p| == fuel + 1
    ensures !Enough(fuel, env, p[0])
  {
    if 0 < fuel {
      assert p[0 + 1] in Kids(env, p[0]);
      forall i | 0 <= i < |p[1..]| - 1 ensures p[1..][i + 1] in Kids(env, p[1..][i]) {
        assert p[(i + 1) + 1] in Kids(env, p[i + 1]);
      }
      ChainTooLong(fuel - 1, env, p[1..]);
      AllEnoughMeans(fuel - 1, env, Kids(env, p[0]));
    }
  }

  lemma {:induction false} LongChain(fuel: nat, env: Env, t: Type) returns (p: seq<Type>)
    requires !Enough(fuel, env, t)
    ensures Chain(env, p) && |p| == fuel + 1 && p[0] == t
  {
    if fuel == 0 {
      p := [t];
    } else {
      AllEnoughMeans(fuel - 1, env, Kids(env, t));
      var kid :| kid in Kids(env, t) && !Enough(fuel - 1, env, kid);
      var q := LongChain(fuel - 1, env, kid);
      p := [t] + q;
      forall i | 0 <= i < |p| - 1 ensures p[i + 1] in Kids(env, p[i]) {
        if 0 < i {
          assert q[(i - 1) + 1] in Kids(env, q[i - 1]);
        }
      }
    }
  }

  // ---- The finite universe of types ----

  /** A type with everything it spells out below pointers and struct fields. */
  function Nodes(t: Type): set<Type> {
    {t} + match t
      case Star(x) => Nodes(x)
      case Struct(fields) => set f, x | f in fields && x in Nodes(f.typ) :: x
      case _ => {}
  }

  function Universe(env: Env, t: Type): set<Type> {
    Nodes(t) + set n, x | n in env && x in Nodes(env[n]) :: x
  }

  lemma {:induction false} NodesClosed(t: Type, x: Type, y: Type)
    requires x in Nodes(t) && y in Nodes(x)
    ensures y in Nodes(t)
  {
    if x != t {
      match t {
        case Star(s) => NodesClosed(s, x, y);
        case Struct(fields) =>
          var f :| f in fields && x in Nodes(f.typ);
          NodesClosed(f.typ, x, y);
        case _ =>
      }
    }
  }

  lemma KidsStayIn(env: Env, t: Type, x: Type, kid: Type)
    requires x in Universe(env, t) && kid in Kids(env, x)
    ensures kid in Universe(env, t)
  {
    var r := Resolve(x, env, {});
    ResolveStaysIn(x, env, {});
    assert kid in Nodes(r) by {
      match r {
        case Star(s) => assert kid in Nodes(s);
        case Struct(fields) =>
          var m :| m in Members(fields) && m.typ == kid;
          var f := MemberOf(fields, m);
          assert kid in Nodes(kid);
        case _ =>
      }
    }
    if x in Nodes(t) && r == x {
      NodesClosed(t, x, kid);
    } else if r == x {
      var n :| n in env && x in Nodes(env[n]);
      NodesClosed(env[n], x, kid);
    }
  }

  lemma {:induction false} ChainStaysIn(env: Env, t: Type, p: seq<Type>, i: nat)
    requires Chain(env, p) && p[0] == t && i < |p|
    ensures p[i] in Universe(env, t)
  {
    if 0 < i {
      ChainStaysIn(env, t, p, i - 1);
      assert p[(i - 1) + 1] in Kids(env, p[i - 1]);
      KidsStayIn(env, t, p[i - 1], p[i]);
    }
  }

  lemma {:induction false} Pigeonhole(p: seq<Type>, u: set<Type>)
    requires (forall x :: x in p ==> x in u) && |u| < |p|
    ensures exists i, j :: 0 <= i < j < |p| && p[i] == p[j]
  {
    var n := |p| - 1;
    if p[n] in p[..n] {
      var i :| 0 <= i < n && p[..n][i] == p[n];
    } else {
      assert forall x :: x in p[..n] ==> x in u - {p[n]};
      Pigeonhole(p[..n], u - {p[n]});
      var i, j :| 0 <= i < j < n && p[..n][i] == p[..n][j];
      assert p[i] == p[j];
    }
  }

  /** A type reachable from `t` reaches itself again. */
  ghost predicate ReachesCycle(env: Env, t: Type) {
    exists p, i, j :: Chain(env, p) && p[0] == t && 0 <= i < j < |p| && p[i] == p[j]
  }

  /** Going around a cycle as often as needed: chains of every length, ending on the cycle. */
  lemma {:induction false} GoAround(env: Env, p: seq<Type>, i: nat, j: nat, n: nat) returns (q: seq<Type>, e: nat)
    requires Chain(env, p) && i < j < |p| && p[i] == p[j]
    ensures Chain(env, q) && |q| == n + 1 && q[0] == p[0]
    ensures e < j && q[n] == p[e]
  {
    if n == 0 {
      q, e := [p[0]], 0;
    } else {
      q, e := GoAround(env, p, i, j, n - 1);
      assert p[e + 1] in Kids(env, p[e]);
      var before := q;
      q := q + [p[e + 1]];
      forall k | 0 <= k < |q| - 1 ensures q[k + 1] in Kids(env, q[k]) {
        if k < |before| - 1 {
          assert before[k + 1] in Kids(env, before[k]);
        }
      }
      e := if e + 1 == j then i else e + 1;
    }
  }

  // ---- Main results ----

  /** Exactly how much fuel is not enough: as much as some chain is deep. */
  lemma FuelExactly(fuel: nat, env: Env, path: Path, addr: Addr, t: Type)
    ensures Emit(fuel, env, path, addr, t).None? <==> exists p :: Chain(env, p) && |p| == fuel + 1 && p[0] == t
  {
    EmitsExactly(fuel, env, path, addr, t);
    if !Enough(fuel, env, t) {
      var p := LongChain(fuel, env, t);
    } else if p :| Chain(env, p) && |p| == fuel + 1 && p[0] == t {
      ChainTooLong(fuel, env, p);
    }
  }

  /** Exactly when the generator terminates on a type: when no cycle of pointers and struct fields is
      reachable. On a cycle every depth is exceeded; without one the number of distinct types is deep
      enough. */
  lemma TerminatesExactly(env: Env, path: Path, addr: Addr, t: Type)
    ensures (exists fuel :: Emit(fuel, env, path, addr, t).Some?) <==> !ReachesCycle(env, t)
    ensures !ReachesCycle(env, t) ==> Emit(|Universe(env, t)|, env, path, addr, t).Some?
  {
    if ReachesCycle(env, t) {
      var p, i, j :| Chain(env, p) && p[0] == t && 0 <= i < j < |p| && p[i] == p[j];
      forall fuel ensures Emit(fuel, env, path, addr, t).None? {
        var q, e := GoAround(env, p, i, j, fuel);
        FuelExactly(fuel, env, path, addr, t);
      }
    } else {
      var fuel := |Universe(env, t)|;
      FuelExactly(fuel, env, path, addr, t);
      if p :| Chain(env, p) && |p| == fuel + 1 && p[0] == t {
        forall x | x in p ensures x in Universe(env, t) {
          var i :| 0 <= i < |p| && p[i] == x;
          ChainStaysIn(env, t, p, i);
        }
        Pigeonhole(p, Universe(env, t));
      }
    }
  }

  /** The generator may descend from `t` to `x`. */
  ghost predicate Below(env: Env, t: Type, x: Type) {
    exists p :: Chain(env, p) && p[0] == t && p[|p| - 1] == x
  }

  /** A rank that drops on every descent below `t`. */
  ghost predicate Ranks(env: Env, t: Type, rank: Type -> nat) {
    forall x, kid :: Below(env, t, x) && kid in Kids(env, x) ==> rank(kid) < rank(x)
  }

  lemma BelowKid(env: Env, t: Type, x: Type, kid: Type)
    requires Below(env, t, x) && kid in Kids(env, x)
    ensures Below(env, t, kid)
  {
    var p :| Chain(env, p) && p[0] == t && p[|p| - 1] == x;
    var q := p + [kid];
    forall i | 0 <= i < |q| - 1 ensures q[i + 1] in Kids(env, q[i]) {
      if i < |p| - 1 {
        assert p[i + 1] in Kids(env, p[i]);
      }
    }
    assert Chain(env, q) && q[0] == t && q[|q| - 1] == kid;
  }

  lemma {:induction false} RankBelow(env: Env, t: Type, rank: Type -> nat, x: Type)
    requires Ranks(env, t, rank) && Below(env, t, x)
    ensures Enough(rank(x) + 1, env, x)
    decreases rank(x)
  {
    var r := rank(x);
    forall kid | kid in Kids(env, x) ensures Enough(r, env, kid) {
      BelowKid(env, t, x, kid);
      RankBelow(env, t, rank, kid);
      EnoughGrows(rank(kid) + 1, r, env, kid);
    }
    KidsEnough(r, env, x);
  }

  lemma KidsEnough(fuel: nat, env: Env, x: Type)
    requires forall kid :: kid in Kids(env, x) ==> Enough(fuel, env, kid)
    ensures Enough(fuel + 1, env, x)
  {
    AllEnoughMeans(fuel, env, Kids(env, x));
  }

  /** A rank bounds the depth, whatever other types the environment has. */
  lemma RankBoundsDepth(env: Env, rank: Type -> nat, t: Type)
    requires Ranks(env, t, rank)
    ensures Enough(rank(t) + 1, env, t)
  {
    assert Chain(env, [t]) && [t][0] == t;
    RankBelow(env, t, rank, t);
  }

  /** The least depth that is enough, if any is. */
  ghost function Depth(env: Env, x: Type, fuel: nat): (d: nat)
    requires Enough(fuel, env, x)
    ensures Enough(d, env, x) && d <= fuel
    ensures forall less: nat :: less < d ==> !Enough(less, env, x)
  {
    if less: nat :| less < fuel && Enough(less, env, x) then Depth(env, x, less) else fuel
  }

  ghost function DepthRank(env: Env, x: Type): nat {
    if fuel: nat :| Enough(fuel, env, x) then Depth(env, x, fuel) else 0
  }

  lemma {:induction false} EnoughBelow(env: Env, p: seq<Type>, fuel: nat) returns (less: nat)
    requires Chain(env, p) && Enough(fuel, env, p[0])
    ensures Enough(less, env, p[|p| - 1])
    decreases |p|
  {
    less := fuel;
    if 1 < |p| {
      assert p[0 + 1] in Kids(env, p[0]);
      AllEnoughMeans(fuel - 1, env, Kids(env, p[0]));
      forall i | 0 <= i < |p[1..]| - 1 ensures p[1..][i + 1] in Kids(env, p[1..][i]) {
        assert p[(i + 1) + 1] in Kids(env, p[i + 1]);
      }
      less := EnoughBelow(env, p[1..], fuel - 1);
    }
  }

  lemma DepthDrops(env: Env, x: Type, kid: Type, fuel: nat)
    requires Enough(fuel, env, x) && kid in Kids(env, x)
    ensures DepthRank(env, kid) < DepthRank(env, x)
  {
    var d := DepthRank(env, x);
    assert Enough(d, env, x);
    AllEnoughMeans(d - 1, env, Kids(env, x));
    assert Enough(d - 1, env, kid);
    assert DepthRank(env, kid) <= d - 1;
  }

  /** The generator ends on a type exactly when some rank drops along all its descents. */
  lemma RankExactly(env: Env, t: Type)
    ensures (exists rank: Type -> nat :: Ranks(env, t, rank)) <==> !ReachesCycle(env, t)
  {
    TerminatesExactly(env, [], AddrOf([]), t);
    if rank: Type -> nat :| Ranks(env, t, rank) {
      RankBoundsDepth(env, rank, t);
      EmitsExactly(rank(t) + 1, env, [], AddrOf([]), t);
    }
    if !ReachesCycle(env, t) {
      var fuel := |Universe(env, t)|;
      EmitsExactly(fuel, env, [], AddrOf([]), t);
      ghost var rank: Type -> nat := (x: Type) => DepthRank(env, x);
      forall x, kid | Below(env, t, x) && kid in Kids(env, x) ensures rank(kid) < rank(x) {
        var p :| Chain(env, p) && p[0] == t && p[|p| - 1] == x;
        var less := EnoughBelow(env, p, fuel);
        DepthDrops(env, x, kid, less);
      }
      assert Ranks(env, t, rank);
    }
  }

  lemma {:induction false} EnoughGrows(fuel: nat, more: nat, env: Env, t: Type)
    requires fuel <= more && Enough(fuel, env, t)
    ensures Enough(more, env, t)
    decreases fuel, 0
  {
    AllEnoughGrows(fuel - 1, more - 1, env, Kids(env, t));
  }

  lemma {:induction false} AllEnoughGrows(fuel: nat, more: nat, env: Env, ts: seq<Type>)
    requires fuel <= more && AllEnough(fuel, env, ts)
    ensures AllEnough(more, env, ts)
    decreases fuel, |ts|
  {
    if ts != [] {
      AllEnoughGrows(fuel, more, env, ts[..|ts| - 1]);
      EnoughGrows(fuel, more, env, ts[|ts| - 1]);
    }
  }
}
