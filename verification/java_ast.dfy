/**
 * The closed set of IR nodes the Java writer visits: identifiers, types,
 * scopes, the three expression forms and the three comment forms.
 */
module JavaAst {
  import opened Wrappers

  /** `IdentifierNode`: a name, emitted verbatim. */
  datatype IdentifierNode = IdentifierNode(name: string)

  /** `TypeNode.TypeKind`: the primitive kinds plus `Object` for reference types. */
  datatype TypeKind = Byte | Short | Int | Long | Float | Double | Char | Boolean | Void | Object

  /** `ReferenceTypeNode`: the referenced class, by fully qualified name. */
  datatype ReferenceTypeNode = ReferenceTypeNode(fullName: string)

  /** `TypeNode`: a kind, an array flag and, for reference types, a possibly
      null reference. */
  datatype TypeNode = TypeNode(typeKind: TypeKind, isArray: bool, reference: Option<ReferenceTypeNode>)
  {
    predicate IsPrimitiveType()
    {
      typeKind != Object
    }
  }

  /** `ScopeNode`: visibility; `Local` is the scope of local variables. */
  datatype ScopeNode = Local | Private | Protected | Public

  /** `Variable`: a typed identifier. */
  datatype Variable = Variable(identifier: IdentifierNode, typ: TypeNode)

  /** `VariableExpr`: a use of a variable. `isDecl` marks the declaring
      occurrence, which is the only one that shows scope, modifiers and type. */
  datatype VariableExpr = VariableExpr(
    variable: Variable,
    scope: ScopeNode,
    isDecl: bool,
    isStatic: bool,
    isFinal: bool)

  /** `ValueExpr`: a literal, carried as the text of its value. */
  datatype ValueExpr = ValueExpr(value: string)

  /** `AssignmentExpr`: `variableExpr = valueExpr`. */
  datatype AssignmentExpr = AssignmentExpr(variableExpr: VariableExpr, valueExpr: Expr)

  /** The expressions the writer renders. */
  datatype Expr =
    | Value(valueExpr: ValueExpr)
    | Var(variableExpr: VariableExpr)
    | Assign(assignmentExpr: AssignmentExpr)

  /** `LineComment`: raw text, possibly spanning several lines. */
  datatype LineComment = LineComment(comment: string)

  /** `BlockComment`: one text body. */
  datatype BlockComment = BlockComment(comment: string)

  /** `JavaDocComment`: description paragraphs, `@param` entries in the
      insertion order of their map, code samples, and optional
      `@deprecated` and `@throws` texts. */
  datatype JavaDocComment = JavaDocComment(
    comments: seq<string>,
    params: seq<(string, string)>,
    sampleCode: seq<string>,
    deprecated: Option<string>,
    throwsText: Option<string>)

  /** Every node the writer accepts. */
  datatype AstNode =
    | Identifier(identifier: IdentifierNode)
    | Type(typeNode: TypeNode)
    | Scope(scope: ScopeNode)
    | Expression(expr: Expr)
    | LineCommentNode(lineComment: LineComment)
    | BlockCommentNode(blockComment: BlockComment)
    | JavaDocNode(javaDoc: JavaDocComment)
}
