/**
 * The buffer half of the Java writer: identifiers, types, scopes and
 * expressions are appended to an append-only text buffer, which `write`
 * returns and `clear` empties. The buffer is an explicit value threaded
 * through each visit.
 */
module JavaWriter {
  import opened Wrappers
  import opened Text
  import opened JavaAst
  import opened JavaComments

  const Space := " "

  /** The visitor's `StringBuffer`. */
  datatype Writer = Writer(buffer: string)

  /** Why a visit throws: the reference-type visit is not implemented. It is
      reached for every non-primitive type, even one whose reference is null,
      since the overload is chosen statically and nothing is dereferenced. */
  datatype RenderError = ReferenceTypesNotImplemented

  function NewWriter(): (w: Writer)
    ensures Write(w) == ""
  {
    Writer("")
  }

  /** `clear`: empties the buffer. */
  function Clear(w: Writer): (w': Writer)
    ensures Write(w') == ""
  {
    Writer("")
  }

  /** `write`: the buffer's contents. */
  function Write(w: Writer): string
  {
    w.buffer
  }

  function Append(w: Writer, text: string): Writer
  {
    Writer(w.buffer + text)
  }

  /* ------------------------------------------------ visits, as the code runs */

  function VisitIdentifier(w: Writer, identifier: IdentifierNode): Writer
  {
    Append(w, identifier.name)
  }

  /** `TypeKind.toString()`: the enum constant's name. */
  function KindName(k: TypeKind): string
  {
    match k
    case Byte => "BYTE"
    case Short => "SHORT"
    case Int => "INT"
    case Long => "LONG"
    case Float => "FLOAT"
    case Double => "DOUBLE"
    case Char => "CHAR"
    case Boolean => "BOOLEAN"
    case Void => "VOID"
    case Object => "OBJECT"
  }

  function VisitReference(w: Writer, reference: Option<ReferenceTypeNode>): Result<Writer, RenderError>
  {
    Failure(ReferenceTypesNotImplemented)
  }

  /** A primitive type appends its lower-cased kind name and, for arrays,
      "[]"; any other type, whether its reference is set or null, is handed
      to the reference visit. */
  function VisitType(w: Writer, t: TypeNode): (r: Result<Writer, RenderError>)
    ensures r.Success? <==> t.IsPrimitiveType()
    ensures r.Failure? ==> r.error == ReferenceTypesNotImplemented
    ensures r.Success? ==> |w.buffer| < |r.value.buffer| && r.value.buffer[..|w.buffer|] == w.buffer
  {
    if t.IsPrimitiveType() then
      var code := ToLowerAscii(KindName(t.typeKind));
      var code' := if t.isArray then code + "[]" else code;
      Success(Append(w, code'))
    else
      VisitReference(w, t.reference)
  }

  /** `ScopeNode.toString()`. */
  function ScopeText(s: ScopeNode): string
  {
    match s
    case Local => ""
    case Private => "private"
    case Protected => "protected"
    case Public => "public"
  }

  function VisitScope(w: Writer, s: ScopeNode): Writer
  {
    Append(w, ScopeText(s))
  }

  function VisitValue(w: Writer, v: ValueExpr): Writer
  {
    Append(w, v.value)
  }

  /** A declaration appends the scope and a space (unless local), "static "
      and "final " when set, the type and a space; every occurrence then
      appends the identifier. */
  function VisitVariableExpr(w: Writer, e: VariableExpr): (r: Result<Writer, RenderError>)
    ensures r.Success? <==> !e.isDecl || e.variable.typ.IsPrimitiveType()
    ensures r.Success? ==>
      var out := r.value.buffer;
      var name := e.variable.identifier.name;
      && |w.buffer| + |name| <= |out|
      && out[..|w.buffer|] == w.buffer
      && out[|out| - |name|..] == name
    ensures r.Success? && !e.isDecl ==> r.value == Append(w, e.variable.identifier.name)
  {
    if e.isDecl then
      var w4 :- VisitType(VisitModifiers(w, e), e.variable.typ);
      Success(VisitIdentifier(Append(w4, Space), e.variable.identifier))
    else
      Success(VisitIdentifier(w, e.variable.identifier))
  }

  /** The declaration prefix: the scope and a space unless the scope is
      local, then "static " and "final " when set. */
  function VisitModifiers(w: Writer, e: VariableExpr): Writer
  {
    var w1 := if e.scope != Local then Append(VisitScope(w, e.scope), Space) else w;
    var w2 := if e.isStatic then Append(Append(w1, "static"), Space) else w1;
    if e.isFinal then Append(Append(w2, "final"), Space) else w2
  }

  function VisitAssignment(w: Writer, a: AssignmentExpr): (r: Result<Writer, RenderError>)
    ensures r.Success? ==> |w.buffer| <= |r.value.buffer| && r.value.buffer[..|w.buffer|] == w.buffer
    decreases a
  {
    var w1 :- VisitVariableExpr(w, a.variableExpr);
    var w2 := Append(w1, " = ");
    assert w2.buffer[..|w.buffer|] == w.buffer by {
      assert w2.buffer[..|w1.buffer|] == w1.buffer;
    }
    VisitExpr(w2, a.valueExpr)
  }

  function VisitExpr(w: Writer, e: Expr): (r: Result<Writer, RenderError>)
    ensures r.Success? ==> |w.buffer| <= |r.value.buffer| && r.value.buffer[..|w.buffer|] == w.buffer
    decreases e
  {
    match e
    case Value(v) => Success(VisitValue(w, v))
    case Var(v) => VisitVariableExpr(w, v)
    case Assign(a) => VisitAssignment(w, a)
  }

  /** The visit result of any node: the writer after it, and the text that
      the comment visits return (none for the others). */
  datatype Visited = Visited(writer: Writer, returned: Option<string>)

  /** `node.accept(visitor)`: single dispatch on the closed node set. */
  function Accept(w: Writer, node: AstNode, formatter: SourceFormatter): (r: Result<Visited, RenderError>)
    ensures r.Success? ==> (r.value.returned.Some? <==> node.LineCommentNode? || node.BlockCommentNode? || node.JavaDocNode?)
    ensures r.Success? && r.value.returned.Some? ==> r.value.writer == w
    ensures r.Success? ==> |w.buffer| <= |r.value.writer.buffer| && r.value.writer.buffer[..|w.buffer|] == w.buffer
  {
    match node
    case Identifier(id) => Success(Visited(VisitIdentifier(w, id), None))
    case Type(t) =>
      var w' :- VisitType(w, t);
      Success(Visited(w', None))
    case Scope(s) => Success(Visited(VisitScope(w, s), None))
    case Expression(e) =>
      var w' :- VisitExpr(w, e);
      Success(Visited(w', None))
    case LineCommentNode(c) => Success(Visited(w, Some(VisitLineComment(formatter, c))))
    case BlockCommentNode(c) => Success(Visited(w, Some(VisitBlockComment(formatter, c))))
    case JavaDocNode(d) => Success(Visited(w, Some(VisitJavaDoc(formatter, d))))
  }

  /* ------------------------------------------- reference layout of the text */

  /** The Java keyword of each primitive kind. */
  function PrimitiveKeyword(k: TypeKind): string
    requires k != Object
  {
    match k
    case Byte => "byte"
    case Short => "short"
    case Int => "int"
    case Long => "long"
    case Float => "float"
    case Double => "double"
    case Char => "char"
    case Boolean => "boolean"
    case Void => "void"
  }

  /** The text of a type: its keyword, with "[]" for arrays; reference types
      cannot be rendered. */
  function TypeText(t: TypeNode): Result<string, RenderError>
  {
    if t.typeKind == Object then
      Failure(ReferenceTypesNotImplemented)
    else
      Success(PrimitiveKeyword(t.typeKind) + (if t.isArray then "[]" else ""))
  }

  /** The modifier words of a declaration, in their fixed order. */
  function Modifiers(e: VariableExpr): seq<string>
  {
    (if e.scope != Local then [ScopeText(e.scope)] else [])
    + (if e.isStatic then ["static"] else [])
    + (if e.isFinal then ["final"] else [])
  }

  /** A declaration is its modifiers, type and name separated by single
      spaces; any other occurrence is the bare name. */
  function VariableText(e: VariableExpr): Result<string, RenderError>
  {
    if e.isDecl then
      var t :- TypeText(e.variable.typ);
      Success(Join(Space, Modifiers(e) + [t, e.variable.identifier.name]))
    else
      Success(e.variable.identifier.name)
  }

  /** An assignment is its two sides around " = ", with no terminator. */
  function ExprText(e: Expr): Result<string, RenderError>
  {
    match e
    case Value(v) => Success(v.value)
    case Var(v) => VariableText(v)
    case Assign(a) =>
      var lhs :- VariableText(a.variableExpr);
      var rhs :- ExprText(a.valueExpr);
      Success(lhs + " = " + rhs)
  }

  /** The writer after appending a text, or the error. */
  function AppendResult(w: Writer, r: Result<string, RenderError>): Result<Writer, RenderError>
  {
    match r
    case Success(text) => Success(Append(w, text))
    case Failure(err) => Failure(err)
  }

  /* ---------------------------------------------------------------- lemmas */

  lemma {:induction false} IntegralKindsLower(k: TypeKind)
    requires k == Byte || k == Short || k == Int || k == Long
    ensures ToLowerAscii(KindName(k)) == PrimitiveKeyword(k)
  {
    match k
    case Byte => LowersTo("BYTE", "byte");
    case Short => LowersTo("SHORT", "short");
    case Int => LowersTo("INT", "int");
    case Long => LowersTo("LONG", "long");
  }

  lemma {:induction false} OtherKindsLower(k: TypeKind)
    requires k == Float || k == Double || k == Char || k == Boolean || k == Void
    ensures ToLowerAscii(KindName(k)) == PrimitiveKeyword(k)
  {
    match k
    case Float => LowersTo("FLOAT", "float");
    case Double => LowersTo("DOUBLE", "double");
    case Char => LowersTo("CHAR", "char");
    case Boolean => LowersTo("BOOLEAN", "boolean");
    case Void => LowersTo("VOID", "void");
  }

  /** Lower-casing the enum name gives the Java keyword. */
  lemma {:induction false} KindNameLowersToKeyword(k: TypeKind)
    requires k != Object
    ensures ToLowerAscii(KindName(k)) == PrimitiveKeyword(k)
  {
    if k == Byte || k == Short || k == Int || k == Long {
      IntegralKindsLower(k);
    } else {
      OtherKindsLower(k);
    }
  }

  /** A type visit appends exactly the type's text, or fails exactly when the
      type is not primitive. */
  lemma {:induction false} VisitTypeAppends(w: Writer, t: TypeNode)
    ensures VisitType(w, t) == AppendResult(w, TypeText(t))
    ensures VisitType(w, t).Failure? <==> !t.IsPrimitiveType()
    ensures !t.IsPrimitiveType() ==> VisitType(w, t) == Failure(ReferenceTypesNotImplemented)
  {
    if t.IsPrimitiveType() {
      KindNameLowersToKeyword(t.typeKind);
      var kw := PrimitiveKeyword(t.typeKind);
      assert (if t.isArray then kw + "[]" else kw) == kw + (if t.isArray then "[]" else "");
    }
  }

  lemma {:induction false} TerminatedOne(x: string)
    ensures Terminated(Space, [x]) == x + Space
  {
    assert [x][1..] == [];
  }

  lemma {:induction false} TerminatedOptional(b: bool, x: string, w: Writer)
    ensures (if b then Append(Append(w, x), Space) else w) == Append(w, Terminated(Space, if b then [x] else []))
  {
    if b {
      TerminatedOne(x);
      assert w.buffer + x + Space == w.buffer + (x + Space);
    } else {
      assert w.buffer + "" == w.buffer;
    }
  }

  lemma {:induction false} AppendTwice(w: Writer, a: string, b: string)
    ensures Append(Append(w, a), b) == Append(w, a + b)
  {
    assert w.buffer + a + b == w.buffer + (a + b);
  }

  /** The declaration prefix is the modifier words, each followed by a space. */
  lemma {:induction false} VisitModifiersAppends(w: Writer, e: VariableExpr)
    ensures VisitModifiers(w, e) == Append(w, Terminated(Space, Modifiers(e)))
  {
    var s := if e.scope != Local then [ScopeText(e.scope)] else [];
    var st := if e.isStatic then ["static"] else [];
    var f := if e.isFinal then ["final"] else [];
    var ts, tst, tf := Terminated(Space, s), Terminated(Space, st), Terminated(Space, f);
    var w1 := if e.scope != Local then Append(VisitScope(w, e.scope), Space) else w;
    var w2 := if e.isStatic then Append(Append(w1, "static"), Space) else w1;
    var w3 := if e.isFinal then Append(Append(w2, "final"), Space) else w2;
    assert VisitModifiers(w, e) == w3;
    assert w1 == Append(w, ts) by { TerminatedOptional(e.scope != Local, ScopeText(e.scope), w); }
    assert w2 == Append(w1, tst) by { TerminatedOptional(e.isStatic, "static", w1); }
    assert w3 == Append(w2, tf) by { TerminatedOptional(e.isFinal, "final", w2); }
    assert Terminated(Space, Modifiers(e)) == ts + tst + tf by {
      TerminatedAppend(Space, s, st);
      TerminatedAppend(Space, s + st, f);
      assert Modifiers(e) == s + st + f;
    }
    AppendTwice(w, ts, tst);
    AppendTwice(w, ts + tst, tf);
  }

  /** A variable visit appends exactly the variable's text: a declaration its
      space-separated modifiers, type and name; a plain reference its name
      only, whatever its type. It fails exactly for a declaration of a
      non-primitive type. */
  lemma {:induction false} VisitVariableExprAppends(w: Writer, e: VariableExpr)
    ensures VisitVariableExpr(w, e) == AppendResult(w, VariableText(e))
    ensures VisitVariableExpr(w, e).Failure? <==> e.isDecl && !e.variable.typ.IsPrimitiveType()
  {
    if e.isDecl {
      var w3 := VisitModifiers(w, e);
      var t := TypeText(e.variable.typ);
      assert VisitType(w3, e.variable.typ) == AppendResult(w3, t) by { VisitTypeAppends(w3, e.variable.typ); }
      if t.Success? {
        DeclarationAppends(w, e);
      }
    }
  }

  lemma {:induction false} DeclarationAppends(w: Writer, e: VariableExpr)
    requires e.isDecl && TypeText(e.variable.typ).Success?
    ensures VariableText(e).Success?
    ensures VisitVariableExpr(w, e) == Success(Append(w, VariableText(e).value))
  {
    var w3 := VisitModifiers(w, e);
    var mods := Terminated(Space, Modifiers(e));
    var name := e.variable.identifier.name;
    var tv := TypeText(e.variable.typ).value;
    DeclText(e);
    DeclVisit(w, e);
    VisitModifiersAppends(w, e);
    var vt := VariableText(e);
    var vv := VisitVariableExpr(w, e);
    Combine(vv, vt, w3, w, mods, tv, name);
  }

  lemma {:induction false} Combine(vv: Result<Writer, RenderError>, vt: Result<string, RenderError>, w3: Writer, w: Writer, m: string, t: string, n: string)
    requires vt == Success(m + (t + Space + n))
    requires vv == Success(Append(Append(Append(w3, t), Space), n))
    requires w3 == Append(w, m)
    ensures vt.Success? && vv == Success(Append(w, vt.value))
  {
    assert w.buffer + m + t + Space + n == w.buffer + (m + (t + Space + n));
  }

  lemma {:induction false} DeclText(e: VariableExpr)
    requires e.isDecl && TypeText(e.variable.typ).Success?
    ensures VariableText(e) == Success(Terminated(Space, Modifiers(e)) + (TypeText(e.variable.typ).value + Space + e.variable.identifier.name))
  {
    var tv := TypeText(e.variable.typ).value;
    var name := e.variable.identifier.name;
    JoinAppend(Space, Modifiers(e), [tv, name]);
    assert Join(Space, [tv, name]) == tv + Space + name;
  }

  lemma {:induction false} DeclVisit(w: Writer, e: VariableExpr)
    requires e.isDecl && TypeText(e.variable.typ).Success?
    ensures VisitVariableExpr(w, e) == Success(Append(Append(Append(VisitModifiers(w, e), TypeText(e.variable.typ).value), Space), e.variable.identifier.name))
  {
    VisitTypeAppends(VisitModifiers(w, e), e.variable.typ);
  }

  /** Append-only rendering: visiting an expression appends exactly the
      expression's text to whatever the buffer held, and fails exactly when
      that text cannot be produced. */
  lemma {:induction false} VisitExprAppends(w: Writer, e: Expr)
    ensures VisitExpr(w, e) == AppendResult(w, ExprText(e))
    decreases e
  {
    match e
    case Value(v) => {}
    case Var(v) => VisitVariableExprAppends(w, v);
    case Assign(a) => VisitAssignmentAppends(w, a);
  }

  lemma {:induction false} VisitAssignmentAppends(w: Writer, a: AssignmentExpr)
    ensures VisitAssignment(w, a) == AppendResult(w, ExprText(Assign(a)))
    decreases a
  {
    VisitVariableExprAppends(w, a.variableExpr);
    var lhs := VariableText(a.variableExpr);
    if lhs.Success? {
      var w1 := Append(w, lhs.value);
      VisitExprAppends(Append(w1, " = "), a.valueExpr);
      var rhs := ExprText(a.valueExpr);
      if rhs.Success? {
        assert w.buffer + lhs.value + " = " + rhs.value == w.buffer + (lhs.value + " = " + rhs.value);
      }
    }
  }

  /** An assignment renders its left side, " = ", then its right side; the
      text does not end with a statement terminator unless the right side's
      own text does. */
  lemma {:induction false} AssignmentLayout(a: AssignmentExpr)
    requires VariableText(a.variableExpr).Success? && ExprText(a.valueExpr).Success?
    ensures var lhs := VariableText(a.variableExpr).value;
      var rhs := ExprText(a.valueExpr).value;
      var text := ExprText(Assign(a));
      && text.Success?
      && text.value[..|lhs|] == lhs
      && text.value[|lhs|..|lhs| + 3] == " = "
      && text.value[|lhs| + 3..] == rhs
  {
  }

  /** A declaration's text, word by word: cutting it at single spaces gives
      back its modifier words, then its type, then its name, whenever the
      name holds no space. One word per modifier that is present. */
  lemma {:induction false} DeclarationWords(e: VariableExpr)
    requires e.isDecl && e.variable.typ.IsPrimitiveType()
    requires ' ' !in e.variable.identifier.name
    ensures VariableText(e).Success?
    ensures SplitAt(' ', VariableText(e).value)
         == Modifiers(e) + [TypeText(e.variable.typ).value, e.variable.identifier.name]
    ensures |SplitAt(' ', VariableText(e).value)|
         == 2 + (if e.scope != Local then 1 else 0) + (if e.isStatic then 1 else 0) + (if e.isFinal then 1 else 0)
  {
    var words := Modifiers(e) + [TypeText(e.variable.typ).value, e.variable.identifier.name];
    forall i | 0 <= i < |words| ensures ' ' !in words[i] {
      ModifierWordsHaveNoSpace(e);
      TypeTextHasNoSpace(e.variable.typ);
      if i < |Modifiers(e)| {
        assert words[i] == Modifiers(e)[i];
      }
    }
    assert Space == [' '];
    SplitAtOfJoin(' ', words);
  }

  lemma {:induction false} ModifierWordsHaveNoSpace(e: VariableExpr)
    ensures forall i :: 0 <= i < |Modifiers(e)| ==> ' ' !in Modifiers(e)[i]
  {
    assert ' ' !in ScopeText(e.scope) by {
      match e.scope
      case Local => {}
      case Private => {}
      case Protected => {}
      case Public => {}
    }
  }

  lemma {:induction false} TypeTextHasNoSpace(t: TypeNode)
    requires t.IsPrimitiveType()
    ensures ' ' !in TypeText(t).value
  {
    assert ' ' !in PrimitiveKeyword(t.typeKind) by {
      match t.typeKind
      case Byte => {}
      case Short => {}
      case Int => {}
      case Long => {}
      case Float => {}
      case Double => {}
      case Char => {}
      case Boolean => {}
      case Void => {}
    }
  }

  /** `node.accept` on the closed node set: comment visits return their
      formatted text and leave the buffer untouched; every other visit
      returns nothing and appends exactly the node's text. */
  lemma {:induction false} AcceptContract(w: Writer, node: AstNode, formatter: SourceFormatter)
    ensures node.LineCommentNode? ==>
      Accept(w, node, formatter) == Success(Visited(w, Some(Format(formatter, LineCommentSource(node.lineComment)))))
    ensures node.BlockCommentNode? ==>
      Accept(w, node, formatter) == Success(Visited(w, Some(Format(formatter, BlockCommentSource(node.blockComment)))))
    ensures node.JavaDocNode? ==>
      Accept(w, node, formatter) == Success(Visited(w, Some(Format(formatter, JavaDocSource(node.javaDoc)))))
    ensures node.Scope? ==>
      Accept(w, node, formatter) == Success(Visited(Append(w, ScopeText(node.scope)), None))
    ensures node.Identifier? ==>
      Accept(w, node, formatter) == Success(Visited(Append(w, node.identifier.name), None))
    ensures node.Type? ==>
      (Accept(w, node, formatter).Success? <==> node.typeNode.IsPrimitiveType())
    ensures node.Type? && node.typeNode.IsPrimitiveType() ==>
      Accept(w, node, formatter) == Success(Visited(Append(w, TypeText(node.typeNode).value), None))
    ensures node.Expression? && ExprText(node.expr).Success? ==>
      Accept(w, node, formatter) == Success(Visited(Append(w, ExprText(node.expr).value), None))
    ensures node.Expression? && ExprText(node.expr).Failure? ==>
      Accept(w, node, formatter) == Failure(ExprText(node.expr).error)
    ensures node.Type? && !node.typeNode.IsPrimitiveType() ==>
      Accept(w, node, formatter) == Failure(ReferenceTypesNotImplemented)
  {
    match node
    case Type(t) => VisitTypeAppends(w, t);
    case Expression(e) => VisitExprAppends(w, e);
    case _ => {}
  }

  /** `clear` then a visit leaves exactly the node's text in the buffer. */
  lemma {:induction false} ClearThenVisit(w: Writer, e: Expr)
    requires ExprText(e).Success?
    ensures VisitExpr(Clear(w), e).Success?
    ensures Write(VisitExpr(Clear(w), e).value) == ExprText(e).value
  {
    VisitExprAppends(Clear(w), e);
  }
}
