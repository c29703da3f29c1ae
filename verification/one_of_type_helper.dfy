/**
 * Recognises the `OneOf<...>` union type of the OneOf library and decodes
 * its type arguments, the union's variant types, in declaration order.
 */
module OneOfTypeHelper {
  import opened Wrappers
  import opened Symbols

  /** The library's name for its flat union type and for its assembly. */
  const OneOfName := "OneOf"
  const OneOfAssemblyName := "OneOf"

  /** `typeArguments.OfType<INamedTypeSymbol>()`: the named types among `ts`, in order. */
  function NamedTypesOf(ts: seq<TypeSymbol>): (r: seq<TypeSymbol>)
    ensures |r| <= |ts|
    ensures forall i :: 0 <= i < |r| ==> r[i].isNamedType
    ensures forall t :: t in r <==> t in ts && t.isNamedType
  {
    if ts == [] then []
    else if ts[0].isNamedType then [ts[0]] + NamedTypesOf(ts[1..])
    else NamedTypesOf(ts[1..])
  }

  /** The filter keeps every element exactly when each element is a named type, and then it changes nothing. */
  lemma {:induction false} NamedTypesOfKeepsAllIffAllNamed(ts: seq<TypeSymbol>)
    ensures |NamedTypesOf(ts)| == |ts| <==> forall i :: 0 <= i < |ts| ==> ts[i].isNamedType
    ensures |NamedTypesOf(ts)| == |ts| ==> NamedTypesOf(ts) == ts
  {
    if ts != [] {
      NamedTypesOfKeepsAllIffAllNamed(ts[1..]);
      if !ts[0].isNamedType {
        assert |NamedTypesOf(ts)| < |ts|;
      } else if forall i :: 0 <= i < |ts| ==> ts[i].isNamedType {
        assert forall i :: 0 <= i < |ts[1..]| ==> ts[1..][i].isNamedType by {
          forall i | 0 <= i < |ts[1..]| ensures ts[1..][i].isNamedType {
            assert ts[1..][i] == ts[i + 1];
          }
        }
        assert [ts[0]] + ts[1..] == ts;
      } else {
        var k :| 0 <= k < |ts| && !ts[k].isNamedType;
        assert k > 0 && !ts[1..][k - 1].isNamedType;
      }
    }
  }

  /**
   * The type arguments of `t` when every one of them is a named type, and
   * None when some argument is not (a type parameter, an array, ...).
   */
  function NamedTypeArguments(t: TypeSymbol): (r: Option<seq<TypeSymbol>>)
    ensures r.Some? <==> forall i :: 0 <= i < |t.typeArguments| ==> t.typeArguments[i].isNamedType
    ensures r.Some? ==> r.value == t.typeArguments
  {
    NamedTypesOfKeepsAllIffAllNamed(t.typeArguments);
    var named := NamedTypesOf(t.typeArguments);
    if |named| == |t.typeArguments| then Some(named) else None
  }

  /**
   * GetOneOfSubTypes: the variant types of a `OneOf<...>` from the OneOf
   * assembly (names compared ordinally), or None for any other type or
   * when some type argument is not a named type.
   */
  function GetOneOfSubTypes(oneOfCandidate: TypeSymbol): (r: Option<seq<TypeSymbol>>)
    requires oneOfCandidate.isNamedType
    ensures r.Some? <==>
      && oneOfCandidate.name == OneOfName
      && oneOfCandidate.containingAssembly == OneOfAssemblyName
      && forall i :: 0 <= i < |oneOfCandidate.typeArguments| ==> oneOfCandidate.typeArguments[i].isNamedType
    ensures r.Some? ==> r.value == oneOfCandidate.typeArguments
  {
    if oneOfCandidate.name == OneOfName && oneOfCandidate.containingAssembly == OneOfAssemblyName then
      NamedTypeArguments(oneOfCandidate)
    else
      None
  }

  /**
   * A decoded variant keeps its nullable annotation: `OneOf<bool, string?>`
   * yields `string?`, not `string`.
   */
  lemma SubTypesKeepAnnotations(oneOfCandidate: TypeSymbol, i: nat)
    requires oneOfCandidate.isNamedType && i < |oneOfCandidate.typeArguments|
    requires GetOneOfSubTypes(oneOfCandidate).Some?
    ensures GetOneOfSubTypes(oneOfCandidate).value[i].nullableAnnotation
            == oneOfCandidate.typeArguments[i].nullableAnnotation
  {
  }
}
