/**
 * The steps both suppressors take, inline and identically, to get from the
 * switch's governing expression to the union's variant types: the switchee
 * must be `<source>.Value`, the source a name, a member access ending in a
 * name, or `this`; the union symbol is the source type's immediate
 * `OneOfBase<...>` base type or the source type itself when it is a `OneOf<...>`.
 */
module OneOfSwitchee {
  import opened Wrappers
  import opened Symbols
  import opened Syntax
  import OneOfTypeHelper

  const ValuePropertyName := "Value"
  const OneOfBaseName := "OneOfBase"

  /** The receiver of a switchee of the form `<receiver>.Value`. */
  function ValueAccessReceiver(switchee: Expr): (r: Option<Expr>)
    ensures r.Some? <==> switchee.MemberAccess? && switchee.memberName.identifier == ValuePropertyName
    ensures r.Some? ==> r.value == switchee.expression
  {
    match switchee
    case MemberAccess(receiver, name) => if name.identifier == ValuePropertyName then Some(receiver) else None
    case _ => None
  }

  /** The node whose type is asked for: the identifier, the last name of a member access, or `this`. */
  function ValueSource(receiver: Expr): (r: Option<Expr>)
    ensures r.Some? <==>
      || (receiver.NameExpr? && receiver.name.IdentifierName?)
      || (receiver.MemberAccess? && receiver.memberName.IdentifierName?)
      || receiver.ThisExpr?
    ensures r.Some? && receiver.MemberAccess? ==> r.value == NameExpr(receiver.memberName)
    ensures r.Some? && !receiver.MemberAccess? ==> r.value == receiver
  {
    match receiver
    case NameExpr(IdentifierName(_, _)) => Some(receiver)
    case MemberAccess(_, IdentifierName(_, _)) => Some(NameExpr(receiver.memberName))
    case ThisExpr(_) => Some(receiver)
    case _ => None
  }

  /** AsOneOfSymbol: `t` itself when it is a named type called `name` from the OneOf assembly. */
  function AsOneOfSymbol(t: Option<TypeSymbol>, name: string): (r: Option<TypeSymbol>)
    ensures r.Some? <==>
      && t.Some? && t.value.name == name
      && t.value.containingAssembly == OneOfTypeHelper.OneOfAssemblyName
      && t.value.isNamedType
    ensures r.Some? ==> r == t
  {
    if t.Some? && t.value.name == name && t.value.containingAssembly == OneOfTypeHelper.OneOfAssemblyName then
      (if t.value.isNamedType then t else None)
    else None
  }

  function BaseTypeOf(t: Option<TypeSymbol>): Option<TypeSymbol>
  {
    if t.Some? then t.value.baseType else None
  }

  /** The union symbol: the immediate `OneOfBase` base type first, otherwise the type itself as `OneOf`. */
  function OneOfSymbol(valueSourceType: Option<TypeSymbol>): Option<TypeSymbol>
  {
    match AsOneOfSymbol(BaseTypeOf(valueSourceType), OneOfBaseName)
    case Some(s) => Some(s)
    case None => AsOneOfSymbol(valueSourceType, OneOfTypeHelper.OneOfName)
  }

  /** What the orchestrators need of the union: its variant types and whether the null case must be matched. */
  datatype UnionView = UnionView(subtypes: seq<TypeSymbol>, mustHandleNullCase: bool)

  /** Some type argument is annotated as nullable or is nullable-oblivious. */
  predicate MustHandleNullCase(oneOf: TypeSymbol)
  {
    exists i | 0 <= i < |oneOf.typeArguments| :: oneOf.typeArguments[i].nullableAnnotation != NotAnnotated
  }

  /** The union reached from a switchee, or None when any step fails (the suppressor then returns without a suppression). */
  function ResolveUnion(h: Host, switchee: Expr): (r: Option<UnionView>)
  {
    match ValueAccessReceiver(switchee)
    case None => None
    case Some(receiver) =>
      match ValueSource(receiver)
      case None => None
      case Some(valueSource) =>
        match OneOfSymbol(h.typeInfo(valueSource))
        case None => None
        case Some(oneOf) =>
          match OneOfTypeHelper.NamedTypeArguments(oneOf)
          case None => None
          case Some(subtypes) => Some(UnionView(subtypes, MustHandleNullCase(oneOf)))
  }

  // ---------------------------------------------------------------------
  // Properties

  /**
   * Precedence of the two union shapes: a `OneOfBase` immediate base type
   * wins; otherwise the type itself must be `OneOf`; nothing else is a union.
   */
  lemma OneOfSymbolPrecedence(t: Option<TypeSymbol>)
    ensures AsOneOfSymbol(BaseTypeOf(t), OneOfBaseName).Some? ==>
      OneOfSymbol(t) == BaseTypeOf(t)
    ensures AsOneOfSymbol(BaseTypeOf(t), OneOfBaseName).None? ==>
      OneOfSymbol(t) == AsOneOfSymbol(t, OneOfTypeHelper.OneOfName)
    ensures OneOfSymbol(t).Some? ==>
      && OneOfSymbol(t).value.containingAssembly == OneOfTypeHelper.OneOfAssemblyName
      && OneOfSymbol(t).value.isNamedType
      && (OneOfSymbol(t).value.name == OneOfBaseName || OneOfSymbol(t).value.name == OneOfTypeHelper.OneOfName)
  {
  }

  /**
   * Only one base level is examined: a class deriving from a class that
   * derives from `OneOfBase<...>` is not recognised (unless it is itself
   * called `OneOf` in the OneOf assembly).
   */
  lemma OnlyImmediateBaseExamined(t: TypeSymbol)
    requires t.baseType.Some? && t.baseType.value.name != OneOfBaseName
    requires t.name != OneOfTypeHelper.OneOfName
    ensures OneOfSymbol(Some(t)).None?
  {
  }

  /** In the direct case the inline decoding agrees with GetOneOfSubTypes. */
  lemma DirectUnionDecodesLikeGetOneOfSubTypes(t: TypeSymbol)
    requires AsOneOfSymbol(BaseTypeOf(Some(t)), OneOfBaseName).None?
    requires OneOfSymbol(Some(t)).Some?
    ensures OneOfTypeHelper.NamedTypeArguments(OneOfSymbol(Some(t)).value) == OneOfTypeHelper.GetOneOfSubTypes(t)
  {
  }

  /**
   * A resolved union is exactly what the syntax and the host say: the
   * switchee is `<source>.Value` of an accepted source shape, and the
   * variants are the union symbol's type arguments, all named, in order.
   */
  lemma ResolveUnionCharacterised(h: Host, switchee: Expr, u: UnionView)
    ensures ResolveUnion(h, switchee) == Some(u) <==>
      exists oneOf: TypeSymbol ::
        && ValueAccessReceiver(switchee).Some?
        && ValueSource(switchee.expression).Some?
        && OneOfSymbol(h.typeInfo(ValueSource(switchee.expression).value)) == Some(oneOf)
        && (forall i :: 0 <= i < |oneOf.typeArguments| ==> oneOf.typeArguments[i].isNamedType)
        && u.subtypes == oneOf.typeArguments
        && u.mustHandleNullCase == MustHandleNullCase(oneOf)
  {
  }

  /** Swapping `.Value` for any other member name, or using another source shape, never resolves a union. */
  lemma NoUnionWithoutValueAccess(h: Host, switchee: Expr)
    requires || !switchee.MemberAccess?
             || switchee.memberName.identifier != ValuePropertyName
             || ValueSource(switchee.expression).None?
    ensures ResolveUnion(h, switchee).None?
  {
  }
}
