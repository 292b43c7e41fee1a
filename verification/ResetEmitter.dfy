/** The generator proper: from a type expression to the statements that reset a value of that type. */
module ResetEmitter {
  import opened Model
  import opened ResetTypes

  /** An expression of the generated code, as a path from the receiver's struct. */
  datatype Sel = Dot(name: string) | Deref

  type Path = seq<Sel>

  /** The address handed to a call: `&e`, or an expression that is a pointer already. */
  datatype Addr = AddrOf(path: Path) | Pointer(path: Path)

  datatype Stmt =
    | Zero(addr: Addr)
    | Truncate(path: Path)
    | Clear(path: Path)
    | IfNotNil(path: Path, body: seq<Stmt>)
    | IfResetter(addr: Addr, otherwise: seq<Stmt>)

  function CallOrZero(addr: Addr): seq<Stmt> {
    [IfResetter(addr, [Zero(addr)])]
  }

  /** The statements for one expression, or None when `fuel` levels of pointers and structs are not
      enough. The set of names already followed starts empty at every level. */
  function Emit(fuel: nat, env: Env, path: Path, addr: Addr, t: Type): Option<seq<Stmt>>
    decreases fuel, 0
  {
    if fuel == 0 then None
    else
      match Resolve(t, env, {})
      case Ident(name) => Some(if IsPrimitive(name) then [Zero(addr)] else CallOrZero(addr))
      case Slice(_) => Some([Truncate(path)])
      case Array(_) => Some([Zero(addr)])
      case Map(_, _) => Some([Clear(path)])
      case Star(x) =>
        (match Emit(fuel - 1, env, path + [Deref], Pointer(path), x)
         case None => None
         case Some(body) => Some([IfNotNil(path, body)]))
      case Struct(fields) =>
        (match EmitMembers(fuel - 1, env, path, Members(fields))
         case None => None
         case Some(body) => Some([IfResetter(addr, body)]))
      case Interface => Some([Zero(addr)])
      case Func => Some([Zero(addr)])
      case Chan => Some([Zero(addr)])
      case _ => Some(CallOrZero(addr))
  }

  function EmitMembers(fuel: nat, env: Env, path: Path, ms: seq<Member>): Option<seq<Stmt>>
    decreases fuel, |ms|
  {
    if ms == [] then Some([])
    else
      var n := |ms| - 1;
      var field := path + [Dot(ms[n].name)];
      match (EmitMembers(fuel, env, path, ms[..n]), Emit(fuel, env, field, AddrOf(field), ms[n].typ))
      case (Some(before), Some(last)) => Some(before + last)
      case _ => None
  }

  /** The body of the Reset method generated for a marked struct. */
  function EmitMethod(fuel: nat, env: Env, fields: seq<Field>): Option<seq<Stmt>> {
    EmitMembers(fuel, env, [], Members(fields))
  }

  // ---- The emitted text ----

  /** One line of output. */
  datatype Code =
    | ZeroLine(addr: Addr)
    | TruncateLine(path: Path)
    | ClearLine(path: Path)
    | IfNotNilLine(path: Path)
    | IfResetterLine(addr: Addr)
    | CallResetLine
    | ElseLine
    | EndLine
    | FuncLine(receiver: string)
    | IfNilLine
    | ReturnLine
    | CommentLine
    | PackageLine(name: string)
    | HelperLine
    | VarLine
    | StoreLine
    | BlankLine

  datatype Line = Line(indent: nat, code: Code)

  function LinesOf(s: Stmt, indent: nat): seq<Line>
    decreases s, 0
  {
    match s
    case Zero(addr) => [Line(indent, ZeroLine(addr))]
    case Truncate(path) => [Line(indent, TruncateLine(path))]
    case Clear(path) => [Line(indent, ClearLine(path))]
    case IfNotNil(path, body) => [Line(indent, IfNotNilLine(path))] + TextOf(body, indent + 1) + [Line(indent, EndLine)]
    case IfResetter(addr, otherwise) => Opening(addr, indent) + TextOf(otherwise, indent + 1) + [Line(indent, EndLine)]
  }

  function Opening(addr: Addr, indent: nat): seq<Line> {
    [Line(indent, IfResetterLine(addr)), Line(indent + 1, CallResetLine), Line(indent, ElseLine)]
  }

  function TextOf(ss: seq<Stmt>, indent: nat): seq<Line>
    decreases ss
  {
    if ss == [] then [] else LinesOf(ss[0], indent) + TextOf(ss[1..], indent)
  }

  lemma {:induction false} TextAppends(a: seq<Stmt>, b: seq<Stmt>, indent: nat)
    ensures TextOf(a + b, indent) == TextOf(a, indent) + TextOf(b, indent)
  {
    if a == [] {
      assert a + b == b;
    } else {
      assert (a + b)[1..] == a[1..] + b;
      TextAppends(a[1..], b, indent);
      var l, x, y := LinesOf(a[0], indent), TextOf(a[1..], indent), TextOf(b, indent);
      assert l + (x + y) == l + x + y;
    }
  }

  /** Reading lines back into statements, up to an unmatched end or the end of the text. */
  function Parse(lines: seq<Line>): Option<(seq<Stmt>, seq<Line>)>
    ensures Parse(lines).Some? ==> |Parse(lines).value.1| <= |lines|
    decreases |lines|
  {
    if lines == [] || lines[0].code.EndLine? then Some(([], lines))
    else
      match ParseOne(lines)
      case None => None
      case Some(first) =>
        match Parse(first.1)
        case None => None
        case Some(others) => Some(([first.0] + others.0, others.1))
  }

  function ParseOne(lines: seq<Line>): Option<(Stmt, seq<Line>)>
    requires lines != []
    ensures ParseOne(lines).Some? ==> |ParseOne(lines).value.1| < |lines|
    decreases |lines|, 0
  {
    match lines[0].code
    case ZeroLine(addr) => Some((Zero(addr), lines[1..]))
    case TruncateLine(path) => Some((Truncate(path), lines[1..]))
    case ClearLine(path) => Some((Clear(path), lines[1..]))
    case IfNotNilLine(path) =>
      (match Parse(lines[1..])
       case None => None
       case Some(body) => if body.1 == [] then None else Some((IfNotNil(path, body.0), body.1[1..])))
    case IfResetterLine(addr) =>
      if |lines| < 3 || lines[1].code != CallResetLine || lines[2].code != ElseLine then None
      else
        (match Parse(lines[3..])
         case None => None
         case Some(body) => if body.1 == [] then None else Some((IfResetter(addr, body.0), body.1[1..])))
    case _ => None
  }

  /** The text determines the statements: every brace closes where it should. */
  lemma {:induction false} TextParses(ss: seq<Stmt>, rest: seq<Line>, indent: nat)
    requires rest == [] || rest[0].code.EndLine?
    ensures Parse(TextOf(ss, indent) + rest) == Some((ss, rest))
    decreases ss
  {
    if ss == [] {
      assert TextOf(ss, indent) + rest == rest;
    } else {
      var more := TextOf(ss[1..], indent) + rest;
      assert TextOf(ss, indent) + rest == LinesOf(ss[0], indent) + more;
      StmtParses(ss[0], more, indent);
      TextParses(ss[1..], rest, indent);
      assert [ss[0]] + ss[1..] == ss;
    }
  }

  lemma {:induction false} StmtParses(s: Stmt, rest: seq<Line>, indent: nat)
    ensures var lines := LinesOf(s, indent) + rest;
      !lines[0].code.EndLine? && ParseOne(lines) == Some((s, rest))
    decreases s, 0
  {
    var lines := LinesOf(s, indent) + rest;
    match s {
      case IfNotNil(path, body) =>
        TextParses(body, [Line(indent, EndLine)] + rest, indent + 1);
        BlockParses([Line(indent, IfNotNilLine(path))], TextOf(body, indent + 1), Line(indent, EndLine), rest);
      case IfResetter(addr, otherwise) =>
        TextParses(otherwise, [Line(indent, EndLine)] + rest, indent + 1);
        BlockParses(Opening(addr, indent), TextOf(otherwise, indent + 1), Line(indent, EndLine), rest);
      case _ =>
        assert lines[1..] == rest;
    }
  }

  /** The parts of a block. */
  lemma BlockParses(head: seq<Line>, body: seq<Line>, end: Line, rest: seq<Line>)
    ensures (head + body + [end] + rest)[|head|..] == body + ([end] + rest)
    ensures ([end] + rest)[1..] == rest
  {
  }

  // ---- The generator as it runs: appending lines to a buffer ----

  class Buffer {
    var lines: seq<Line>

    constructor ()
      ensures lines == []
    {
      lines := [];
    }

    method WriteLine(line: Line)
      modifies this
      ensures lines == old(lines) + [line]
    {
      lines := lines + [line];
    }
  }

  lemma LeafText(s: Stmt, indent: nat)
    requires s.Zero? || s.Truncate? || s.Clear?
    ensures TextOf([s], indent) == LinesOf(s, indent)
  {
    assert [s][1..] == [];
  }

  lemma NotNilText(path: Path, body: seq<Stmt>, start: seq<Line>, indent: nat)
    ensures start + [Line(indent, IfNotNilLine(path))] + TextOf(body, indent + 1) + [Line(indent, EndLine)]
      == start + TextOf([IfNotNil(path, body)], indent)
  {
    var s := IfNotNil(path, body);
    assert [s][1..] == [];
    assert start + [Line(indent, IfNotNilLine(path))] + TextOf(body, indent + 1) + [Line(indent, EndLine)]
      == start + LinesOf(s, indent);
  }

  lemma ResetterText(addr: Addr, otherwise: seq<Stmt>, start: seq<Line>, indent: nat)
    ensures start + Opening(addr, indent) + TextOf(otherwise, indent + 1) + [Line(indent, EndLine)]
      == start + TextOf([IfResetter(addr, otherwise)], indent)
  {
    var s := IfResetter(addr, otherwise);
    assert [s][1..] == [];
    assert start + Opening(addr, indent) + TextOf(otherwise, indent + 1) + [Line(indent, EndLine)]
      == start + LinesOf(s, indent);
  }

  method EmitZero(b: Buffer, addr: Addr, indent: nat)
    modifies b
    ensures b.lines == old(b.lines) + TextOf([Zero(addr)], indent)
  {
    b.WriteLine(Line(indent, ZeroLine(addr)));
    LeafText(Zero(addr), indent);
  }

  method EmitOpening(b: Buffer, addr: Addr, indent: nat)
    modifies b
    ensures b.lines == old(b.lines) + Opening(addr, indent)
  {
    b.WriteLine(Line(indent, IfResetterLine(addr)));
    b.WriteLine(Line(indent + 1, CallResetLine));
    b.WriteLine(Line(indent, ElseLine));
  }

  method EmitResetCallOrZero(b: Buffer, addr: Addr, indent: nat)
    modifies b
    ensures b.lines == old(b.lines) + TextOf(CallOrZero(addr), indent)
  {
    EmitOpening(b, addr, indent);
    EmitZero(b, addr, indent + 1);
    b.WriteLine(Line(indent, EndLine));
    ResetterText(addr, [Zero(addr)], old(b.lines), indent);
  }

  /** The recursive descent; `fuel` only witnesses that it ends. */
  method EmitResetForType(ghost fuel: nat, b: Buffer, path: Path, addr: Addr, t: Type, env: Env, indent: nat)
    requires Emit(fuel, env, path, addr, t).Some?
    modifies b
    ensures b.lines == old(b.lines) + TextOf(Emit(fuel, env, path, addr, t).value, indent)
    decreases fuel, 1
  {
    var seen := new Seen();
    var resolved := ResolveType(t, env, seen);
    match resolved {
      case Ident(name) =>
        if IsPrimitive(name) {
          EmitZero(b, addr, indent);
        } else {
          EmitResetCallOrZero(b, addr, indent);
        }
      case Slice(_) =>
        b.WriteLine(Line(indent, TruncateLine(path)));
        LeafText(Truncate(path), indent);
      case Array(_) => EmitZero(b, addr, indent);
      case Map(_, _) =>
        b.WriteLine(Line(indent, ClearLine(path)));
        LeafText(Clear(path), indent);
      case Star(x) =>
        b.WriteLine(Line(indent, IfNotNilLine(path)));
        EmitResetForType(fuel - 1, b, path + [Deref], Pointer(path), x, env, indent + 1);
        b.WriteLine(Line(indent, EndLine));
        NotNilText(path, Emit(fuel - 1, env, path + [Deref], Pointer(path), x).value, old(b.lines), indent);
      case Struct(fields) =>
        EmitResetStructOrCall(fuel - 1, b, path, addr, fields, env, indent);
      case Interface => EmitZero(b, addr, indent);
      case Func => EmitZero(b, addr, indent);
      case Chan => EmitZero(b, addr, indent);
      case _ => EmitResetCallOrZero(b, addr, indent);
    }
  }

  method EmitResetStructOrCall(ghost fuel: nat, b: Buffer, path: Path, addr: Addr, fields: seq<Field>, env: Env,
                               indent: nat)
    requires EmitMembers(fuel, env, path, Members(fields)).Some?
    modifies b
    ensures var otherwise := EmitMembers(fuel, env, path, Members(fields)).value;
      b.lines == old(b.lines) + TextOf([IfResetter(addr, otherwise)], indent)
    decreases fuel, 5
  {
    EmitOpening(b, addr, indent);
    ghost var ms := Members(fields);
    ghost var start := b.lines;
    EmitFields(fuel, b, path, fields, env, ms, indent + 1);
    WrittenAll(fuel, env, path, ms, start, b.lines, indent + 1);
    b.WriteLine(Line(indent, EndLine));
    ResetterText(addr, EmitMembers(fuel, env, path, ms).value, old(b.lines), indent);
  }

  lemma {:induction false} MembersBefore(fuel: nat, env: Env, path: Path, ms: seq<Member>, k: nat)
    requires k <= |ms| && EmitMembers(fuel, env, path, ms).Some?
    ensures EmitMembers(fuel, env, path, ms[..k]).Some?
  {
    if k < |ms| {
      MembersBefore(fuel, env, path, ms[..|ms| - 1], k);
      assert ms[..|ms| - 1][..k] == ms[..k];
    } else {
      assert ms[..k] == ms;
    }
  }

  /** The text of the first `k` members. */
  ghost predicate Written(fuel: nat, env: Env, path: Path, ms: seq<Member>, k: nat, start: seq<Line>,
                          lines: seq<Line>, indent: nat)
    requires k <= |ms| && EmitMembers(fuel, env, path, ms).Some?
  {
    MembersBefore(fuel, env, path, ms, k);
    lines == start + TextOf(EmitMembers(fuel, env, path, ms[..k]).value, indent)
  }

  /** The loop over the fields of a struct. */
  method EmitFields(ghost fuel: nat, b: Buffer, path: Path, fields: seq<Field>, env: Env, ghost ms: seq<Member>,
                    indent: nat)
    requires ms == Members(fields) && EmitMembers(fuel, env, path, ms).Some?
    modifies b
    ensures Written(fuel, env, path, ms, |ms|, old(b.lines), b.lines, indent)
    decreases fuel, 4
  {
    ghost var done: nat := 0;
    WrittenNone(fuel, env, path, ms, b.lines, indent);
    assert fields[0..] == fields && ms[0..] == ms;
    var i := 0;
    while i < |fields|
      invariant i <= |fields| && done <= |ms| && ms[done..] == Members(fields[i..])
      invariant Written(fuel, env, path, ms, done, old(b.lines), b.lines, indent)
    {
      ghost var next := FieldMembers(ms, done, fields, i);
      EmitField(fuel, b, path, fields[i], env, ms, done, next, old(b.lines), indent);
      i, done := i + 1, next;
    }
    assert |ms[done..]| == 0;
  }

  lemma WrittenNone(fuel: nat, env: Env, path: Path, ms: seq<Member>, start: seq<Line>, indent: nat)
    requires EmitMembers(fuel, env, path, ms).Some?
    ensures Written(fuel, env, path, ms, 0, start, start, indent)
  {
    assert ms[..0] == [];
    assert start + [] == start;
  }

  lemma WrittenAll(fuel: nat, env: Env, path: Path, ms: seq<Member>, start: seq<Line>, lines: seq<Line>, indent: nat)
    requires EmitMembers(fuel, env, path, ms).Some?
    requires Written(fuel, env, path, ms, |ms|, start, lines, indent)
    ensures lines == start + TextOf(EmitMembers(fuel, env, path, ms).value, indent)
  {
    assert ms[..|ms|] == ms;
  }

  /** The loop over the names of one field. */
  method EmitField(ghost fuel: nat, b: Buffer, path: Path, f: Field, env: Env,
                   ghost ms: seq<Member>, ghost k: nat, ghost next: nat, ghost start: seq<Line>, indent: nat)
    requires EmitMembers(fuel, env, path, ms).Some? && k <= next <= |ms| && ms[k..next] == OwnMembers(f)
    requires Written(fuel, env, path, ms, k, start, b.lines, indent)
    modifies b
    ensures Written(fuel, env, path, ms, next, start, b.lines, indent)
    decreases fuel, 3
  {
    var names := FieldNames(f);
    assert next - k == |OwnMembers(f)| == |names|;
    var j := 0;
    while j < |names|
      invariant j <= |names|
      invariant Written(fuel, env, path, ms, k + j, start, b.lines, indent)
    {
      assert ms[k + j] == ms[k..next][j];
      EmitMember(fuel, b, path, names[j], f.typ, env, ms, k + j, start, indent);
      j := j + 1;
    }
  }

  method EmitMember(ghost fuel: nat, b: Buffer, path: Path, name: string, t: Type, env: Env,
                    ghost ms: seq<Member>, ghost k: nat, ghost start: seq<Line>, indent: nat)
    requires EmitMembers(fuel, env, path, ms).Some? && k < |ms| && ms[k] == Member(name, t)
    requires Written(fuel, env, path, ms, k, start, b.lines, indent)
    modifies b
    ensures Written(fuel, env, path, ms, k + 1, start, b.lines, indent)
    decreases fuel, 2
  {
    var field := path + [Dot(name)];
    OneMoreMember(fuel, env, path, ms, k, start, b.lines, indent);
    EmitResetForType(fuel, b, field, AddrOf(field), t, env, indent);
  }

  /** The members of the i-th field come next. */
  lemma FieldMembers(ms: seq<Member>, done: nat, fields: seq<Field>, i: nat) returns (next: nat)
    requires i < |fields| && done <= |ms| && ms[done..] == Members(fields[i..])
    ensures done <= next <= |ms| && ms[done..next] == OwnMembers(fields[i]) && ms[next..] == Members(fields[i + 1..])
  {
    var own := OwnMembers(fields[i]);
    assert fields[i..][1..] == fields[i + 1..];
    assert ms[done..] == own + Members(fields[i + 1..]);
    next := done + |own|;
    assert ms[done..next] == ms[done..][..|own|];
    assert ms[next..] == ms[done..][|own|..];
  }

  lemma NextMember(fuel: nat, env: Env, path: Path, ms: seq<Member>, k: nat)
    requires k < |ms| && EmitMembers(fuel, env, path, ms).Some?
    ensures var field := path + [Dot(ms[k].name)];
      var before, last := EmitMembers(fuel, env, path, ms[..k]), Emit(fuel, env, field, AddrOf(field), ms[k].typ);
      before.Some? && last.Some? && EmitMembers(fuel, env, path, ms[..k + 1]) == Some(before.value + last.value)
  {
    MembersBefore(fuel, env, path, ms, k + 1);
    assert ms[..k + 1][..k] == ms[..k];
  }

  lemma TextGrows(start: seq<Line>, before: seq<Stmt>, last: seq<Stmt>, indent: nat)
    ensures start + TextOf(before, indent) + TextOf(last, indent) == start + TextOf(before + last, indent)
  {
    TextAppends(before, last, indent);
    assert start + TextOf(before, indent) + TextOf(last, indent)
      == start + (TextOf(before, indent) + TextOf(last, indent));
  }

  lemma OneMoreMember(fuel: nat, env: Env, path: Path, ms: seq<Member>, k: nat, start: seq<Line>, lines: seq<Line>,
                      indent: nat)
    requires k < |ms| && EmitMembers(fuel, env, path, ms).Some?
    requires Written(fuel, env, path, ms, k, start, lines, indent)
    ensures var field := path + [Dot(ms[k].name)];
      var last := Emit(fuel, env, field, AddrOf(field), ms[k].typ);
      last.Some? && Written(fuel, env, path, ms, k + 1, start, lines + TextOf(last.value, indent), indent)
  {
    NextMember(fuel, env, path, ms, k);
    var field := path + [Dot(ms[k].name)];
    TextGrows(start, EmitMembers(fuel, env, path, ms[..k]).value,
      Emit(fuel, env, field, AddrOf(field), ms[k].typ).value, indent);
  }

  // ---- The whole file ----

  datatype Marked = Marked(name: string, fields: seq<Field>)

  ghost predicate AllEmit(fuel: nat, env: Env, marked: seq<Marked>) {
    forall m :: m in marked ==> EmitMethod(fuel, env, m.fields).Some?
  }

  /** The fixed beginning of the file: comment, package clause, zeroing helper. */
  function HeadText(pkg: string): seq<Line> {
    [Line(0, CommentLine), Line(0, BlankLine), Line(0, PackageLine(pkg)), Line(0, BlankLine),
     Line(0, HelperLine), Line(1, VarLine), Line(1, StoreLine), Line(0, EndLine), Line(0, BlankLine)]
  }

  /** The beginning of a method: its signature and its check for a nil receiver. */
  function MethodHead(name: string): seq<Line> {
    [Line(0, FuncLine(name)), Line(1, IfNilLine), Line(2, ReturnLine), Line(1, EndLine)]
  }

  function MethodText(fuel: nat, env: Env, m: Marked): seq<Line>
    requires EmitMethod(fuel, env, m.fields).Some?
  {
    MethodHead(m.name) + TextOf(EmitMethod(fuel, env, m.fields).value, 1) + [Line(0, EndLine)]
  }

  /** The methods, a blank line before each but the first. */
  function MethodsText(fuel: nat, env: Env, marked: seq<Marked>): seq<Line>
    requires AllEmit(fuel, env, marked)
  {
    if marked == [] then []
    else
      var n := |marked| - 1;
      var blank := if n > 0 then [Line(0, BlankLine)] else [];
      MethodsText(fuel, env, marked[..n]) + blank + MethodText(fuel, env, marked[n])
  }

  method GenerateMethod(ghost fuel: nat, b: Buffer, env: Env, m: Marked)
    requires EmitMethod(fuel, env, m.fields).Some?
    modifies b
    ensures b.lines == old(b.lines) + MethodText(fuel, env, m)
  {
    b.WriteLine(Line(0, FuncLine(m.name)));
    b.WriteLine(Line(1, IfNilLine));
    b.WriteLine(Line(2, ReturnLine));
    b.WriteLine(Line(1, EndLine));
    assert b.lines == old(b.lines) + MethodHead(m.name);
    ghost var ms := Members(m.fields);
    ghost var start := b.lines;
    EmitFields(fuel, b, [], m.fields, env, ms, 1);
    WrittenAll(fuel, env, [], ms, start, b.lines, 1);
    b.WriteLine(Line(0, EndLine));
  }

  method GenerateHead(b: Buffer, pkg: string)
    modifies b
    ensures b.lines == old(b.lines) + HeadText(pkg)
  {
    b.WriteLine(Line(0, CommentLine));
    b.WriteLine(Line(0, BlankLine));
    b.WriteLine(Line(0, PackageLine(pkg)));
    b.WriteLine(Line(0, BlankLine));
    b.WriteLine(Line(0, HelperLine));
    b.WriteLine(Line(1, VarLine));
    b.WriteLine(Line(1, StoreLine));
    b.WriteLine(Line(0, EndLine));
    b.WriteLine(Line(0, BlankLine));
  }

  /** The head, then one Reset method per marked struct, in order. */
  method GenerateFile(ghost fuel: nat, b: Buffer, pkg: string, env: Env, marked: seq<Marked>)
    requires AllEmit(fuel, env, marked)
    modifies b
    ensures b.lines == old(b.lines) + HeadText(pkg) + MethodsText(fuel, env, marked)
  {
    GenerateHead(b, pkg);
    ghost var start := b.lines;
    var i := 0;
    while i < |marked|
      invariant i <= |marked| && AllEmit(fuel, env, marked[..i])
      invariant b.lines == start + MethodsText(fuel, env, marked[..i])
    {
      MethodsStep(fuel, env, marked, i, start);
      if i > 0 {
        b.WriteLine(Line(0, BlankLine));
      }
      GenerateMethod(fuel, b, env, marked[i]);
      i := i + 1;
    }
    assert marked[..i] == marked;
  }

  lemma MethodsStep(fuel: nat, env: Env, marked: seq<Marked>, i: nat, start: seq<Line>)
    requires i < |marked| && AllEmit(fuel, env, marked)
    ensures AllEmit(fuel, env, marked[..i]) && AllEmit(fuel, env, marked[..i + 1])
    ensures var blank := if i > 0 then [Line(0, BlankLine)] else [];
      start + MethodsText(fuel, env, marked[..i]) + blank + MethodText(fuel, env, marked[i])
        == start + MethodsText(fuel, env, marked[..i + 1])
  {
    assert marked[..i + 1][..i] == marked[..i];
    var before, last := MethodsText(fuel, env, marked[..i]), MethodText(fuel, env, marked[i]);
    var blank := if i > 0 then [Line(0, BlankLine)] else [];
    assert start + before + blank + last == start + (before + blank + last);
  }

  // ---- Predeclared types ----

  /** Among the names a package does not define, exactly these are zeroed without asking for a method. */
  lemma PredeclaredAreZeroed(fuel: nat, env: Env, path: Path, addr: Addr, name: string)
    requires 0 < fuel && name !in env
    ensures Emit(fuel, env, path, addr, Ident(name)) == Some([Zero(addr)]) <==>
      name in ["bool", "string", "int", "int8", "int16", "int32", "int64", "uint", "uint8", "uint16", "uint32",
        "uint64", "uintptr", "byte", "rune", "float32", "float64", "complex64", "complex128"]
    ensures Emit(fuel, env, path, addr, Ident(name)) in {Some([Zero(addr)]), Some([IfResetter(addr, [Zero(addr)])])}
  {
    assert [IfResetter(addr, [Zero(addr)])][0] != [Zero(addr)][0];
  }
}
