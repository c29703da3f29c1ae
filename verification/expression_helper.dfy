/**
 * Resolves the type of the value a `switch` is over, when the switchee is
 * `<source>.Value`: parentheses are stripped, and `await e` is typed as the
 * single type argument of the task type of `e`.
 */
module ExpressionHelper {
  import opened Wrappers
  import opened Symbols
  import opened Syntax

  /** The name of the OneOf property that holds the current variant. */
  const OneOfValuePropertyName := "Value"

  /** Number of nodes on the spine of an expression; strictly shrinks towards sub-expressions. */
  function Size(e: Expr): nat
  {
    match e
    case MemberAccess(inner, _) => 1 + Size(inner)
    case Parenthesized(inner) => 1 + Size(inner)
    case Await(inner) => 1 + Size(inner)
    case _ => 1
  }

  /** The expression inside all enclosing parentheses. */
  function Unparenthesized(e: Expr): (r: Expr)
    ensures !r.Parenthesized?
    ensures Size(r) <= Size(e)
    ensures !e.Parenthesized? ==> r == e
  {
    if e.Parenthesized? then Unparenthesized(e.inner) else e
  }

  /** `n` pairs of parentheses around `e`. */
  function Parenthesize(n: nat, e: Expr): Expr
  {
    if n == 0 then e else Parenthesized(Parenthesize(n - 1, e))
  }

  /** Every expression is some number of parentheses around its unparenthesized core. */
  lemma {:induction false} UnparenthesizedPeelsParentheses(e: Expr)
    ensures exists n: nat :: e == Parenthesize(n, Unparenthesized(e))
  {
    if e.Parenthesized? {
      UnparenthesizedPeelsParentheses(e.inner);
      var n: nat :| e.inner == Parenthesize(n, Unparenthesized(e.inner));
      assert e == Parenthesize(n + 1, Unparenthesized(e));
    } else {
      assert e == Parenthesize(0, Unparenthesized(e));
    }
  }

  /** Stripping removes exactly the parentheses that were added. */
  lemma {:induction false} UnparenthesizedOfParenthesize(n: nat, e: Expr)
    ensures Unparenthesized(Parenthesize(n, e)) == Unparenthesized(e)
  {
    if n > 0 {
      UnparenthesizedOfParenthesize(n - 1, e);
    }
  }

  /** Stripping twice is stripping once. */
  lemma UnparenthesizedIdempotent(e: Expr)
    ensures Unparenthesized(Unparenthesized(e)) == Unparenthesized(e)
  {
  }

  /** GetUnparenthesizedExpression: the loop that unwraps parenthesized expressions one at a time. */
  method GetUnparenthesizedExpression(expression: Expr) returns (r: Expr)
    ensures !r.Parenthesized?
    ensures exists n: nat :: expression == Parenthesize(n, r)
    ensures r == Unparenthesized(expression)
  {
    r := expression;
    ghost var depth: nat := 0;
    while r.Parenthesized?
      invariant expression == Parenthesize(depth, r)
      decreases Size(r)
    {
      r := r.inner;
      depth := depth + 1;
      assert Parenthesize(depth, r) == Parenthesize(depth - 1, Parenthesized(r)) by {
        ParenthesizeShift(depth - 1, r);
      }
    }
    UnparenthesizedOfParenthesize(depth, r);
  }

  lemma {:induction false} ParenthesizeShift(n: nat, e: Expr)
    ensures Parenthesize(n + 1, e) == Parenthesize(n, Parenthesized(e))
  {
    if n > 0 {
      ParenthesizeShift(n - 1, e);
    }
  }

  /**
   * GetTypeOfTask: the single type argument of a named (task) type; None for
   * no type, a type that is not named, or a type with zero or several type arguments.
   */
  function GetTypeOfTask(taskSymbol: Option<TypeSymbol>): (r: Option<TypeSymbol>)
    ensures r.Some? <==>
      taskSymbol.Some? && taskSymbol.value.isNamedType && |taskSymbol.value.typeArguments| == 1
    ensures r.Some? ==> r.value == taskSymbol.value.typeArguments[0]
  {
    match taskSymbol
    case None => None
    case Some(t) =>
      if !t.isNamedType then None
      else if |t.typeArguments| != 1 then None
      else Some(t.typeArguments[0])
  }

  /**
   * GetTypeSymbolFromExpression: for `await e` (inside any parentheses) the
   * awaited type of `e`'s type, recursively; otherwise the host's type of
   * the expression as written.
   */
  function GetTypeSymbolFromExpression(h: Host, expression: Expr): (r: Option<TypeSymbol>)
    ensures !Unparenthesized(expression).Await? ==> r == h.typeInfo(expression)
    decreases Size(expression)
  {
    match Unparenthesized(expression)
    case Await(operand) => GetTypeOfTask(GetTypeSymbolFromExpression(h, operand))
    case _ => h.typeInfo(expression)
  }

  /** GetTypeOfValueSource: the type of `<source>` in a switchee `<source>.Value`, or None for any other switchee. */
  function GetTypeOfValueSource(h: Host, switchee: Expr): (r: Option<TypeSymbol>)
    ensures !(switchee.MemberAccess? && switchee.memberName.identifier == OneOfValuePropertyName) ==> r.None?
  {
    match switchee
    case MemberAccess(source, name) =>
      if name.identifier == OneOfValuePropertyName then GetTypeSymbolFromExpression(h, source) else None
    case _ => None
  }

  /** `n` awaits around `e`. */
  function Awaits(n: nat, e: Expr): Expr
  {
    if n == 0 then e else Await(Awaits(n - 1, e))
  }

  /** `n` task layers taken off a type, one per await. */
  function UnwrapTasks(n: nat, t: Option<TypeSymbol>): Option<TypeSymbol>
  {
    if n == 0 then t else GetTypeOfTask(UnwrapTasks(n - 1, t))
  }

  /** `await await ... e` unwraps one task layer per `await`. */
  lemma {:induction false} NestedAwaitsUnwrapOneTaskEach(h: Host, n: nat, e: Expr)
    ensures GetTypeSymbolFromExpression(h, Awaits(n, e)) == UnwrapTasks(n, GetTypeSymbolFromExpression(h, e))
  {
    if n > 0 {
      NestedAwaitsUnwrapOneTaskEach(h, n - 1, e);
    }
  }

  /**
   * Parentheses around a non-await expression leave it to the host, which is
   * asked about the parenthesized expression; around an await they are transparent.
   */
  lemma {:induction false} ParenthesizedTypeIsResolvedThrough(h: Host, parens: nat, e: Expr)
    ensures Unparenthesized(e).Await? ==>
      GetTypeSymbolFromExpression(h, Parenthesize(parens, e)) == GetTypeSymbolFromExpression(h, e)
    ensures !Unparenthesized(e).Await? ==>
      GetTypeSymbolFromExpression(h, Parenthesize(parens, e)) == h.typeInfo(Parenthesize(parens, e))
  {
    UnparenthesizedOfParenthesize(parens, e);
  }

  /** For `<source>.Value` with `source` an `await`, the value source's type is the awaited type. */
  lemma ValueOfAwaitedSource(h: Host, operand: Expr, pos: nat)
    ensures GetTypeOfValueSource(h, MemberAccess(Await(operand), IdentifierName(OneOfValuePropertyName, pos)))
            == GetTypeOfTask(GetTypeSymbolFromExpression(h, operand))
  {
  }
}
