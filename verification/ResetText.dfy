/** How the emitted lines are spelled, and that the spelling loses nothing. */
module ResetText {
  import opened Model
  import opened ResetTypes
  import opened ResetEmitter

  /** An expression: the receiver, a field of one, or a dereferenced one. */
  function ExprText(path: Path): string {
    if path == [] then "r"
    else
      var e := ExprText(path[..|path| - 1]);
      match path[|path| - 1]
      case Dot(name) => e + "." + name
      case Deref => "(*" + e + ")"
  }

  function AddrText(addr: Addr): string {
    match addr
    case AddrOf(path) => "&" + ExprText(path)
    case Pointer(path) => ExprText(path)
  }

  function CodeText(code: Code): string {
    match code
    case ZeroLine(addr) => "__resetgenZero(" + AddrText(addr) + ")"
    case TruncateLine(path) => ExprText(path) + " = " + ExprText(path) + "[:0]"
    case ClearLine(path) => "clear(" + ExprText(path) + ")"
    case IfNotNilLine(path) => "if " + ExprText(path) + " != nil {"
    case IfResetterLine(addr) => "if resetter, ok := any(" + AddrText(addr) + ").(interface{ Reset() }); ok {"
    case CallResetLine => "resetter.Reset()"
    case ElseLine => "} else {"
    case EndLine => "}"
    case FuncLine(receiver) => "func (r *" + receiver + ") Reset() {"
    case IfNilLine => "if r == nil {"
    case ReturnLine => "return"
    case CommentLine => "//" + " Code generated by reset generator. DO NOT EDIT."
    case PackageLine(name) => "package " + name
    case HelperLine => "func __resetgenZero[T any](v *T) {"
    case VarLine => "var zero T"
    case StoreLine => "*v = zero"
    case BlankLine => ""
  }

  function Tabs(n: nat): string {
    if n == 0 then "" else "\t" + Tabs(n - 1)
  }

  function LineText(line: Line): string {
    Tabs(line.indent) + CodeText(line.code)
  }

  /** What matters of Go identifiers here. */
  predicate IsName(name: string) {
    name != "" && '.' !in name && ')' !in name
  }

  predicate Named(path: Path) {
    forall i :: 0 <= i < |path| && path[i].Dot? ==> IsName(path[i].name)
  }

  predicate NamedCode(code: Code) {
    match code
    case ZeroLine(addr) => Named(addr.path)
    case TruncateLine(path) => Named(path)
    case ClearLine(path) => Named(path)
    case IfNotNilLine(path) => Named(path)
    case IfResetterLine(addr) => Named(addr.path)
    case _ => true
  }

  lemma Between(before: string, x: string, y: string, after: string)
    requires before + x + after == before + y + after
    ensures x == y
  {
    var left, right := before + x + after, before + y + after;
    assert left[|before|..|left| - |after|] == x && right[|before|..|right| - |after|] == y;
  }

  /** How an expression ends, and how it begins. */
  lemma {:induction false} ExprEnds(path: Path)
    requires Named(path)
    ensures ExprText(path) != "" && ExprText(path)[0] in {'r', '('}
    ensures ExprText(path)[|ExprText(path)| - 1] == ')' <==> path != [] && path[|path| - 1].Deref?
    ensures path != [] && path[|path| - 1].Dot? ==> 1 < |ExprText(path)|
  {
    if path != [] {
      var n := |path| - 1;
      ExprEnds(path[..n]);
      match path[n] {
        case Dot(name) => assert ExprText(path)[|ExprText(path)| - 1] == name[|name| - 1];
        case Deref =>
      }
    }
  }

  /** Expressions are spelled alike only when they are the same. */
  lemma {:induction false} ExprApart(p: Path, q: Path)
    requires Named(p) && Named(q) && ExprText(p) == ExprText(q)
    ensures p == q
    decreases |p|
  {
    ExprEnds(p);
    ExprEnds(q);
    if p != [] && q != [] {
      var m, n := |p| - 1, |q| - 1;
      var e, f := ExprText(p[..m]), ExprText(q[..n]);
      match p[m] {
        case Dot(name) => LastSeparator('.', e, name, f, q[n].name);
        case Deref => Between("(*", e, f, ")");
      }
      ExprApart(p[..m], q[..n]);
      assert p == p[..m] + [p[m]] && q == q[..n] + [q[n]];
    }
  }

  lemma AddrApart(a: Addr, b: Addr)
    requires Named(a.path) && Named(b.path) && AddrText(a) == AddrText(b)
    ensures a == b
  {
    ExprEnds(a.path);
    ExprEnds(b.path);
    assert a.AddrOf? ==> AddrText(a)[0] == '&' && AddrText(a)[1..] == ExprText(a.path);
    assert b.AddrOf? ==> AddrText(b)[0] == '&' && AddrText(b)[1..] == ExprText(b.path);
    ExprApart(a.path, b.path);
  }

  datatype Kind =
    | KZero | KTruncate | KClear | KNotNil | KResetter | KCall | KElse | KEnd | KFunc | KNil | KReturn
    | KComment | KPackage | KHelper | KVar | KStore | KBlank

  function KindOf(code: Code): Kind {
    match code
    case ZeroLine(_) => KZero
    case TruncateLine(_) => KTruncate
    case ClearLine(_) => KClear
    case IfNotNilLine(_) => KNotNil
    case IfResetterLine(_) => KResetter
    case CallResetLine => KCall
    case ElseLine => KElse
    case EndLine => KEnd
    case FuncLine(_) => KFunc
    case IfNilLine => KNil
    case ReturnLine => KReturn
    case CommentLine => KComment
    case PackageLine(_) => KPackage
    case HelperLine => KHelper
    case VarLine => KVar
    case StoreLine => KStore
    case BlankLine => KBlank
  }

  /** The kind of a line, told from a few of its characters. */
  function KindTold(text: string): Kind {
    if text == "" then KBlank
    else
      match text[0]
      case '_' => KZero
      case 'c' => KClear
      case 'f' => if 5 < |text| && text[5] == '_' then KHelper else KFunc
      case 'p' => KPackage
      case '/' => KComment
      case 'v' => KVar
      case '*' => KStore
      case '}' => if text == "}" then KEnd else KElse
      case 'i' => CheckTold(text)
      case _ => BodyTold(text[|text| - 1])
  }

  function CheckTold(text: string): Kind {
    if |text| < 8 || text[|text| - 3] != 'l' then KResetter
    else if text[|text| - 8] == '!' then KNotNil
    else KNil
  }

  function BodyTold(last: char): Kind {
    match last
    case ']' => KTruncate
    case ')' => KCall
    case _ => KReturn
  }

  lemma Ends(before: string, x: string, after: string, k: nat)
    requires before != "" && 0 < k <= |after|
    ensures var text := before + x + after;
      text[0] == before[0] && text[|text| - k] == after[|after| - k]
  {
  }

  lemma TruncateIsTold(path: Path)
    requires Named(path)
    ensures KindTold(CodeText(TruncateLine(path))) == KTruncate
    ensures CodeText(TruncateLine(path))[0] != '\t'
  {
    ExprEnds(path);
    var e, s := ExprText(path), "[:0]";
    Ends(e, " = " + e, s, 1);
    assert e + (" = " + e) + s == CodeText(TruncateLine(path));
    assert s[|s| - 1] == ']';
  }

  lemma NotNilIsTold(path: Path)
    ensures KindTold(CodeText(IfNotNilLine(path))) == KNotNil
  {
    var s := " != nil {";
    Ends("if ", ExprText(path), s, 3);
    Ends("if ", ExprText(path), s, 8);
    assert s[|s| - 3] == 'l' && s[|s| - 8] == '!';
  }

  lemma ResetterIsTold(addr: Addr)
    ensures KindTold(CodeText(IfResetterLine(addr))) == KResetter
  {
    var before, s := "if resetter, ok := any(", ").(interface{ Reset() }); ok {";
    assert before[0] == 'i' && s[|s| - 3] == 'k';
    CheckOfMethod(before, AddrText(addr), s);
  }

  lemma CheckOfMethod(before: string, x: string, after: string)
    requires before != "" && before[0] == 'i' && 3 <= |after| && after[|after| - 3] == 'k'
    ensures KindTold(before + x + after) == KResetter
  {
    Ends(before, x, after, 3);
  }

  lemma FuncIsTold(name: string)
    ensures KindTold(CodeText(FuncLine(name))) == KFunc
  {
    var s := "func (r *";
    assert s[5] == '(';
    assert CodeText(FuncLine(name))[5] == s[5] && CodeText(FuncLine(name))[0] == s[0];
  }

  lemma KindIsTold(code: Code)
    requires NamedCode(code)
    ensures KindTold(CodeText(code)) == KindOf(code)
  {
    match code {
      case ZeroLine(addr) => Ends("__resetgenZero(", AddrText(addr), ")", 1);
      case TruncateLine(path) => TruncateIsTold(path);
      case ClearLine(path) => Ends("clear(", ExprText(path), ")", 1);
      case IfNotNilLine(path) => NotNilIsTold(path);
      case IfResetterLine(addr) => ResetterIsTold(addr);
      case FuncLine(name) => FuncIsTold(name);
      case PackageLine(name) => assert CodeText(code)[0] == 'p';
      case _ => FixedIsTold(code);
    }
  }

  /** The lines without parts of their own. */
  lemma FixedIsTold(code: Code)
    requires !code.ZeroLine? && !code.TruncateLine? && !code.ClearLine? && !code.IfNotNilLine? && !code.IfResetterLine?
    requires !code.FuncLine? && !code.PackageLine?
    ensures KindTold(CodeText(code)) == KindOf(code)
  {
    match code {
      case IfNilLine =>
        var s := "if r == nil {";
        assert |s| == 13 && s[10] == 'l' && s[5] == '=';
      case CallResetLine =>
        var s := "resetter.Reset()";
        assert |s| == 16 && s[0] == 'r' && s[15] == ')';
      case ReturnLine =>
        var s := "return";
        assert |s| == 6 && s[0] == 'r' && s[5] == 'n';
      case HelperLine =>
        var s := "func __resetgenZero[T any](v *T) {";
        assert s[0] == 'f' && s[5] == '_';
      case ElseLine =>
        var s := "} else {";
        assert |s| == 8 && s[0] == '}';
      case EndLine => assert "}"[0] == '}';
      case CommentLine => assert "//"[0] == '/';
      case VarLine => assert "var zero T"[0] == 'v';
      case StoreLine => assert "*v = zero"[0] == '*';
      case BlankLine =>
    }
  }

  /** Lines without their tabs are spelled alike only when they are the same. */
  lemma CodeApart(a: Code, b: Code)
    requires NamedCode(a) && NamedCode(b) && CodeText(a) == CodeText(b)
    ensures a == b
  {
    KindIsTold(a);
    KindIsTold(b);
    match a {
      case ZeroLine(x) =>
        Between("__resetgenZero(", AddrText(x), AddrText(b.addr), ")");
        AddrApart(x, b.addr);
      case TruncateLine(p) =>
        var e, f := ExprText(p), ExprText(b.path);
        assert CodeText(a)[..|e|] == e && CodeText(b)[..|f|] == f;
        ExprApart(p, b.path);
      case ClearLine(p) =>
        Between("clear(", ExprText(p), ExprText(b.path), ")");
        ExprApart(p, b.path);
      case IfNotNilLine(p) =>
        Between("if ", ExprText(p), ExprText(b.path), " != nil {");
        ExprApart(p, b.path);
      case IfResetterLine(x) =>
        Between("if resetter, ok := any(", AddrText(x), AddrText(b.addr), ").(interface{ Reset() }); ok {");
        AddrApart(x, b.addr);
      case FuncLine(name) => Between("func (r *", name, b.receiver, ") Reset() {");
      case PackageLine(name) =>
        assert CodeText(a)[8..] == name && CodeText(b)[8..] == b.name;
      case _ =>
    }
  }

  lemma NoTab(code: Code)
    requires NamedCode(code)
    ensures CodeText(code) == "" || CodeText(code)[0] != '\t'
  {
    KindIsTold(code);
    match code {
      case TruncateLine(path) => TruncateIsTold(path);
      case CallResetLine => assert "resetter.Reset()"[0] == 'r';
      case ReturnLine => assert "return"[0] == 'r';
      case _ =>
    }
  }

  lemma {:induction false} TabsApart(m: nat, x: string, n: nat, y: string)
    requires Tabs(m) + x == Tabs(n) + y && (x == "" || x[0] != '\t') && (y == "" || y[0] != '\t')
    ensures m == n && x == y
    decreases m
  {
    assert m > 0 ==> (Tabs(m) + x)[0] == '\t';
    assert n > 0 ==> (Tabs(n) + y)[0] == '\t';
    assert m == 0 ==> Tabs(m) + x == x;
    assert n == 0 ==> Tabs(n) + y == y;
    if m > 0 && n > 0 {
      assert (Tabs(m) + x)[1..] == Tabs(m - 1) + x && (Tabs(n) + y)[1..] == Tabs(n - 1) + y;
      TabsApart(m - 1, x, n - 1, y);
    }
  }

  /** Lines are spelled alike only when they are the same, their indentation included. */
  lemma LineApart(a: Line, b: Line)
    requires NamedCode(a.code) && NamedCode(b.code) && LineText(a) == LineText(b)
    ensures a == b
  {
    NoTab(a.code);
    NoTab(b.code);
    TabsApart(a.indent, CodeText(a.code), b.indent, CodeText(b.code));
    CodeApart(a.code, b.code);
  }

  function Spelled(lines: seq<Line>): seq<string> {
    seq(|lines|, i requires 0 <= i < |lines| => LineText(lines[i]))
  }

  predicate NamedText(lines: seq<Line>) {
    forall l :: l in lines ==> NamedCode(l.code)
  }

  lemma SpelledApart(x: seq<Line>, y: seq<Line>)
    requires NamedText(x) && NamedText(y) && Spelled(x) == Spelled(y)
    ensures x == y
  {
    assert |Spelled(x)| == |x| && |Spelled(y)| == |y|;
    forall i | 0 <= i < |x| ensures x[i] == y[i] {
      assert Spelled(x)[i] == Spelled(y)[i];
      LineApart(x[i], y[i]);
    }
  }

  /** The spelled lines determine the statements: emitted texts are alike only for the same ones. */
  lemma SpellingKeepsStatements(a: seq<Stmt>, b: seq<Stmt>, indent: nat)
    requires NamedText(TextOf(a, indent)) && NamedText(TextOf(b, indent))
    requires Spelled(TextOf(a, indent)) == Spelled(TextOf(b, indent))
    ensures a == b
  {
    SpelledApart(TextOf(a, indent), TextOf(b, indent));
    assert TextOf(a, indent) + [] == TextOf(a, indent);
    TextParses(a, [], indent);
    TextParses(b, [], indent);
  }

  // ---- The spelling itself ----

  /** A field of the receiver, and a field behind a pointer. */
  lemma FieldSpelling(name: string, other: string)
    ensures ExprText([Dot(name)]) == "r." + name
    ensures ExprText([Dot(name), Deref, Dot(other)]) == "(*r." + name + ")." + other
    ensures AddrText(AddrOf([Dot(name)])) == "&r." + name && AddrText(Pointer([Dot(name)])) == "r." + name
  {
    var p, q, all := [Dot(name)], [Dot(name), Deref], [Dot(name), Deref, Dot(other)];
    assert p[..0] == [] && q[..1] == p && all[..2] == q;
    assert "r" + "." == "r.";
    assert ExprText(p) == "r." + name;
    Joined("(*", "r.", name, ")");
    assert "(*" + "r." == "(*r.";
    assert ExprText(q) == "(*r." + name + ")";
    assert "(*r." + name + ")" + "." + other == "(*r." + name + (")" + ".") + other;
    assert ")" + "." == ").";
    assert "&" + ("r." + name) == ("&" + "r.") + name;
    assert "&" + "r." == "&r.";
  }

  lemma Joined(a: string, b: string, c: string, d: string)
    ensures a + (b + c) + d == (a + b) + c + d
  {
  }

  lemma TabSpelling()
    ensures Tabs(1) == "\t" && Tabs(2) == "\t\t"
  {
    assert Tabs(0) == "";
    assert Tabs(1) == "\t" + Tabs(0);
    assert Tabs(2) == "\t" + Tabs(1);
  }

  /** The lines of a reset, for an expression that is spelled `e`. */
  lemma LineSpelling(path: Path, e: string)
    requires ExprText(path) == e
    ensures LineText(Line(1, ZeroLine(AddrOf(path)))) == "\t" + ("__resetgenZero(" + ("&" + e) + ")")
    ensures LineText(Line(1, ZeroLine(Pointer(path)))) == "\t" + ("__resetgenZero(" + e + ")")
    ensures LineText(Line(1, TruncateLine(path))) == "\t" + (e + " = " + e + "[:0]")
    ensures LineText(Line(1, ClearLine(path))) == "\t" + ("clear(" + e + ")")
    ensures LineText(Line(1, IfNotNilLine(path))) == "\t" + ("if " + e + " != nil {")
    ensures LineText(Line(1, IfResetterLine(AddrOf(path)))) ==
      "\t" + ("if resetter, ok := any(" + ("&" + e) + ").(interface{ Reset() }); ok {")
  {
    TabSpelling();
  }

  /** The lines that are always the same, with their tabs. */
  lemma FixedSpelling()
    ensures LineText(Line(2, CallResetLine)) == "\t\t" + "resetter.Reset()"
    ensures LineText(Line(1, ElseLine)) == "\t" + "} else {" && LineText(Line(1, EndLine)) == "\t" + "}"
    ensures LineText(Line(1, IfNilLine)) == "\t" + "if r == nil {" && LineText(Line(2, ReturnLine)) == "\t\t" + "return"
    ensures LineText(Line(1, VarLine)) == "\t" + "var zero T" && LineText(Line(1, StoreLine)) == "\t" + "*v = zero"
  {
    TabSpelling();
  }

  /** The beginning of every generated file. */
  lemma HeadSpelling(pkg: string)
    ensures Spelled(HeadText(pkg)) == [
      "//" + " Code generated by reset generator. DO NOT EDIT.", "", "package " + pkg, "",
      "func __resetgenZero[T any](v *T) {", "\t" + "var zero T", "\t" + "*v = zero", "}", ""]
  {
    TabSpelling();
    Unindented(CommentLine);
    Unindented(BlankLine);
    Unindented(PackageLine(pkg));
    Unindented(HelperLine);
    Unindented(EndLine);
  }

  lemma Unindented(code: Code)
    ensures LineText(Line(0, code)) == CodeText(code)
  {
    assert Tabs(0) + CodeText(code) == CodeText(code);
  }

  /** The beginning of every generated method. */
  lemma MethodHeadSpelling(name: string)
    ensures Spelled(MethodHead(name)) == [
      "func (r *" + name + ") Reset() {", "\t" + "if r == nil {", "\t\t" + "return", "\t" + "}"]
  {
    TabSpelling();
    Unindented(FuncLine(name));
  }

  /** A nil check around a statement. */
  lemma NotNilBlockSpelling(path: Path, inner: Path, e: string, f: string)
    requires ExprText(path) == e && ExprText(inner) == f
    ensures Spelled(TextOf([IfNotNil(path, [Clear(inner)])], 1)) == [
      "\t" + ("if " + e + " != nil {"), "\t\t" + ("clear(" + f + ")"), "\t" + "}"]
  {
    TabSpelling();
    LeafText(Clear(inner), 2);
    assert [IfNotNil(path, [Clear(inner)])][1..] == [];
    assert TextOf([IfNotNil(path, [Clear(inner)])], 1) ==
      [Line(1, IfNotNilLine(path)), Line(2, ClearLine(inner)), Line(1, EndLine)];
  }

  /** A call of a visible method, with a statement for the other case. */
  lemma ResetterBlockSpelling(path: Path, inner: Path, e: string, f: string)
    requires ExprText(path) == e && ExprText(inner) == f
    ensures Spelled(TextOf([IfResetter(AddrOf(path), [Clear(inner)])], 1)) == [
      "\t" + ("if resetter, ok := any(" + ("&" + e) + ").(interface{ Reset() }); ok {"),
      "\t\t" + "resetter.Reset()", "\t" + "} else {", "\t\t" + ("clear(" + f + ")"), "\t" + "}"]
  {
    TabSpelling();
    LeafText(Clear(inner), 2);
    assert [IfResetter(AddrOf(path), [Clear(inner)])][1..] == [];
    assert TextOf([IfResetter(AddrOf(path), [Clear(inner)])], 1) ==
      [Line(1, IfResetterLine(AddrOf(path))), Line(2, CallResetLine), Line(1, ElseLine),
       Line(2, ClearLine(inner)), Line(1, EndLine)];
  }
}
