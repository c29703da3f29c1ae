/**
 * The part of the host compiler's semantic model that the suppressors consult:
 * type symbols, the symbols names resolve to, and the three queries
 * (type of an expression, symbol of a name, implicit conversion).
 */
module Symbols {
  import opened Wrappers
  import opened Syntax

  /** Roslyn's NullableAnnotation: `None` (nullable-oblivious) is called Oblivious here. */
  datatype NullableAnnotation = Oblivious | NotAnnotated | Annotated

  /**
   * An ITypeSymbol. `isNamedType` says whether the symbol is an INamedTypeSymbol
   * (classes, structs, interfaces, enums, delegates, `Nullable<T>`); type
   * parameters, arrays, pointers and `dynamic` are not. `isNullableOfT` says
   * whether its original definition is `System.Nullable<T>`.
   */
  datatype TypeSymbol = TypeSymbol(
    isNamedType: bool,
    name: string,
    containingAssembly: string,
    typeArguments: seq<TypeSymbol>,
    baseType: Option<TypeSymbol>,
    isNullableOfT: bool,
    nullableAnnotation: NullableAnnotation)

  /** What a name resolves to: a type, a property (with its declared type), or anything else. */
  datatype Symbol =
    | TypeSym(typeSymbol: TypeSymbol)
    | PropertySym(propertyType: TypeSymbol)
    | OtherSym

  /**
   * The host's services, as total functions: SemanticModel.GetTypeInfo(e).Type,
   * SemanticModel.GetSymbolInfo(e).Symbol and Compilation.HasImplicitConversion.
   */
  datatype Host = Host(
    typeInfo: Expr -> Option<TypeSymbol>,
    symbolInfo: Expr -> Option<Symbol>,
    hasImplicitConversion: (TypeSymbol, TypeSymbol) -> bool)

  /** `symbol is INamedTypeSymbol namedType`: the named type a resolved symbol denotes, if any. */
  function AsNamedType(symbol: Option<Symbol>): (r: Option<TypeSymbol>)
    ensures r.Some? <==> symbol.Some? && symbol.value.TypeSym? && symbol.value.typeSymbol.isNamedType
    ensures r.Some? ==> symbol == Some(TypeSym(r.value))
  {
    match symbol
    case Some(TypeSym(t)) => if t.isNamedType then Some(t) else None
    case _ => None
  }
}
