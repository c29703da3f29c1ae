/**
 * The C# syntax the suppressors inspect: expressions, patterns, switch
 * expression arms, switch statement sections and labels, the node a
 * diagnostic is located at, and the suppressions reported back.
 */
module Syntax {
  import opened Wrappers

  /**
   * IdentifierNameSyntax or GenericNameSyntax. `position` is where the name
   * stands in the source text: the host resolves nodes, not spellings, so
   * two occurrences of the same identifier are distinct nodes.
   */
  datatype SimpleName =
    | IdentifierName(identifier: string, position: nat)
    | GenericName(identifier: string, position: nat)

  /** ExpressionSyntax, including the TypeSyntax nodes written in patterns and case labels. */
  datatype Expr =
    | NameExpr(name: SimpleName)
    | MemberAccess(expression: Expr, memberName: SimpleName)
      /** `this`; like a name, it is resolved per occurrence, since `this` means a different class in each. */
    | ThisExpr(thisPosition: nat)
    | Parenthesized(inner: Expr)
    | Await(operand: Expr)
      /** A literal; `tokenValue` is None exactly when the token's value is null (the `null` literal). */
    | Literal(tokenValue: Option<string>)
    | PredefinedType(keyword: string)
      /** Any other expression or type syntax (invocations, qualified names, arrays, ...). */
    | OtherExpr(exprPosition: nat)

  /** A sub-pattern `Name: pattern` inside a property or positional clause. */
  datatype Subpattern = Subpattern(nameColon: Option<SimpleName>, pattern: Pattern)

  /** A property clause `{ ... }` or positional clause `( ... )` of a recursive pattern, or its absence. */
  datatype Clause = Absent | Present(subpatterns: seq<Subpattern>)

  /** PatternSyntax. A recursive pattern is `Type (positional...) { property... } designation`. */
  datatype Pattern =
    | DiscardPattern
    | VarPattern(designation: string)
    | ConstantPattern(expression: Expr)
    | TypePattern(typeSyntax: Expr)
    | DeclarationPattern(typeSyntax: Expr, designation: string)
    | RecursivePattern(
        recursiveType: Option<Expr>,
        positionalClause: Clause,
        propertyClause: Clause)
      /** Relational, `not`, `and`/`or`, parenthesized and list patterns. */
    | OtherPattern(patternPosition: nat)

  /** One arm `pattern when condition => result` of a switch expression. */
  datatype SwitchExpressionArm = SwitchExpressionArm(pattern: Pattern, whenClause: Option<Expr>)

  datatype SwitchExpression = SwitchExpression(governingExpression: Expr, arms: seq<SwitchExpressionArm>)

  /** `case value:`, `case pattern when condition:` and `default:`. */
  datatype SwitchLabel =
    | CaseSwitchLabel(value: Expr)
    | CasePatternSwitchLabel(pattern: Pattern, whenClause: Option<Expr>)
    | DefaultSwitchLabel

  datatype SwitchSection = SwitchSection(labels: seq<SwitchLabel>)

  datatype SwitchStatement = SwitchStatement(expression: Expr, sections: seq<SwitchSection>)

  /**
   * The node FindNode returns for a diagnostic's span. Nodes other than the
   * two switch forms are kept only as containers of further nodes.
   */
  datatype SyntaxNode =
    | SwitchExpressionNode(switchExpression: SwitchExpression)
    | SwitchStatementNode(switchStatement: SwitchStatement)
    | OtherNode(children: seq<SyntaxNode>)

  /** A reported diagnostic; `locatedNode` is None when its location has no source tree. */
  datatype Diagnostic = Diagnostic(id: string, locatedNode: Option<SyntaxNode>)

  datatype SuppressionDescriptor = SuppressionDescriptor(id: string, suppressedDiagnosticId: string)

  datatype Suppression = Suppression(descriptor: SuppressionDescriptor, suppressedDiagnostic: Diagnostic)
}
