/**
 * The verdicts the repository's tests expect, replayed on a small concrete
 * host: `int`, `bool`, `string` (with its nullable annotation), `int?`, the
 * union types, and implicit conversion taken as identity up to nullable
 * annotations.
 */
module Scenarios {
  import opened Wrappers
  import opened Symbols
  import opened Syntax
  import opened OneOfSwitchee
  import PatternHelper
  import SwitchExpressionSuppressor
  import SwitchStatementSuppressor

  const Int32 := TypeSymbol(true, "Int32", "System.Runtime", [], None, false, NotAnnotated)
  const Boolean := TypeSymbol(true, "Boolean", "System.Runtime", [], None, false, NotAnnotated)

  function StringType(a: NullableAnnotation): TypeSymbol
  {
    TypeSymbol(true, "String", "System.Runtime", [], None, false, a)
  }

  function NullableOf(t: TypeSymbol): TypeSymbol
  {
    TypeSymbol(true, "Nullable", "System.Runtime", [t], None, true, Annotated)
  }

  function OneOfType(args: seq<TypeSymbol>): TypeSymbol
  {
    TypeSymbol(true, "OneOf", "OneOf", args, None, false, NotAnnotated)
  }

  /** `class GeneratedOneOf : OneOfBase<...>`. */
  function GeneratedOneOf(args: seq<TypeSymbol>): TypeSymbol
  {
    var oneOfBase := TypeSymbol(true, "OneOfBase", "OneOf", args, None, false, NotAnnotated);
    TypeSymbol(true, "GeneratedOneOf", "MyCode", [], Some(oneOfBase), false, NotAnnotated)
  }

  /** Identity conversion, ignoring nullable annotations. */
  function SameTypeConversion(a: TypeSymbol, b: TypeSymbol): bool
  {
    a.name == b.name && a.containingAssembly == b.containingAssembly && a.typeArguments == b.typeArguments
  }

  function KeywordType(keyword: string): Option<Symbol>
  {
    if keyword == "int" then Some(TypeSym(Int32))
    else if keyword == "bool" then Some(TypeSym(Boolean))
    else if keyword == "string" then Some(TypeSym(StringType(Oblivious)))
    else None
  }

  function TypeName(name: string): Option<Symbol>
  {
    if name == "Int32" then Some(TypeSym(Int32))
    else if name == "Boolean" then Some(TypeSym(Boolean))
    else if name == "String" then Some(TypeSym(StringType(Oblivious)))
    else None
  }

  /**
   * A host in which `source` has type `sourceType`, and the keywords `int`,
   * `bool`, `string` and the names `Int32`, `Boolean`, `String` name their types.
   */
  function TestHost(source: Expr, sourceType: TypeSymbol): Host
  {
    Host((e: Expr) => if e == source then Some(sourceType) else None,
         (e: Expr) => if e.PredefinedType? then KeywordType(e.keyword)
                      else if e.NameExpr? then TypeName(e.name.identifier)
                      else None,
         SameTypeConversion)
  }

  const Oneof := NameExpr(IdentifierName("oneof", 0))
  const OneofValue := MemberAccess(Oneof, IdentifierName("Value", 1))

  /** `wrapper.Inner.Inner.Value`, and its last `Inner`. */
  const NestedValue :=
    MemberAccess(MemberAccess(MemberAccess(NameExpr(IdentifierName("wrapper", 0)), IdentifierName("Inner", 1)),
                              IdentifierName("Inner", 2)),
                 IdentifierName("Value", 3))
  const LastInner := NameExpr(IdentifierName("Inner", 2))

  /** In `wrapper.Inner.Inner.Value` the value source is the last `Inner`. */
  lemma NestedValueSourceIsLastInner()
    ensures ValueAccessReceiver(NestedValue).Some?
    ensures ValueSource(ValueAccessReceiver(NestedValue).value) == Some(LastInner)
  {
  }

  function TypeArm(keyword: string): SwitchExpressionArm
  {
    SwitchExpressionArm(TypePattern(PredefinedType(keyword)), None)
  }

  const NullArm := SwitchExpressionArm(ConstantPattern(Literal(None)), None)

  /** `case int:`: a keyword type after `case` is a type pattern, not a constant. */
  function CaseSection(keyword: string): SwitchSection
  {
    SwitchSection([CasePatternSwitchLabel(TypePattern(PredefinedType(keyword)), None)])
  }

  const CaseNullSection := SwitchSection([CaseSwitchLabel(Literal(None))])

  /** In the test host, the arm `k => ...` covers every variant that matches as the type the keyword `k` names. */
  lemma TypeArmCovers(source: Expr, sourceType: TypeSymbol, keyword: string, t: TypeSymbol)
    requires KeywordType(keyword).Some? && KeywordType(keyword).value.TypeSym?
    requires SameTypeConversion(PatternHelper.TypeToBeMatched(t), KeywordType(keyword).value.typeSymbol)
    ensures SwitchExpressionSuppressor.ArmHandlesTypeWithoutRestrictions(TestHost(source, sourceType), TypeArm(keyword), t)
  {
    assert TestHost(source, sourceType).symbolInfo(PredefinedType(keyword)) == KeywordType(keyword);
  }

  /** In the test host, `case k:` covers every variant that matches as the type the keyword `k` names. */
  lemma CaseSectionCovers(source: Expr, sourceType: TypeSymbol, keyword: string, t: TypeSymbol)
    requires KeywordType(keyword).Some? && KeywordType(keyword).value.TypeSym?
    requires SameTypeConversion(PatternHelper.TypeToBeMatched(t), KeywordType(keyword).value.typeSymbol)
    ensures SwitchStatementSuppressor.SectionHandlesTypeWithoutRestrictions(TestHost(source, sourceType), CaseSection(keyword), t)
  {
    var h := TestHost(source, sourceType);
    assert h.symbolInfo(PredefinedType(keyword)) == KeywordType(keyword);
    assert SwitchStatementSuppressor.LabelHandlesTypeWithoutRestriction(h, CaseSection(keyword).labels[0], t);
  }

  /** A switch expression whose union is resolved, whose null case is handled when required and whose every variant is covered, is suppressed. */
  lemma ExpressionSuppressedWhenCovered(h: Host, e: SwitchExpression, u: UnionView)
    requires ResolveUnion(h, e.governingExpression) == Some(u)
    requires u.mustHandleNullCase ==> exists i | 0 <= i < |e.arms| :: SwitchExpressionSuppressor.HandlesNullCase(e.arms[i])
    requires forall k | 0 <= k < |u.subtypes| :: SwitchExpressionSuppressor.AnyArmHandles(h, e.arms, u.subtypes[k])
    ensures SwitchExpressionSuppressor.ShouldSuppress(h, e)
  {
    SwitchExpressionSuppressor.ShouldSuppressIff(h, e);
  }

  /** The same for a switch statement and its sections. */
  lemma StatementSuppressedWhenCovered(h: Host, s: SwitchStatement, u: UnionView)
    requires ResolveUnion(h, s.expression) == Some(u)
    requires u.mustHandleNullCase ==> exists i | 0 <= i < |s.sections| :: SwitchStatementSuppressor.SectionHandlesNullCase(s.sections[i])
    requires forall k | 0 <= k < |u.subtypes| :: SwitchStatementSuppressor.AnySectionHandles(h, s.sections, u.subtypes[k])
    ensures SwitchStatementSuppressor.ShouldSuppress(h, s)
  {
    SwitchStatementSuppressor.ShouldSuppressIff(h, s);
  }

  // ---------------------------------------------------------------------
  // Switch expressions

  /** `OneOf<int, string>` with only an `int` arm: not suppressed. */
  lemma ExpressionMissingVariantNotSuppressed()
    ensures !SwitchExpressionSuppressor.ShouldSuppress(
      TestHost(Oneof, OneOfType([Int32, StringType(NotAnnotated)])),
      SwitchExpression(OneofValue, [TypeArm("int")]))
  {
  }

  /** `OneOf<int, string>` matched by `int` and `string`: suppressed. */
  lemma ExpressionAllVariantsSuppressed()
    ensures SwitchExpressionSuppressor.ShouldSuppress(
      TestHost(Oneof, OneOfType([Int32, StringType(NotAnnotated)])),
      SwitchExpression(OneofValue, [TypeArm("int"), TypeArm("string")]))
  {
    var h := TestHost(Oneof, OneOfType([Int32, StringType(NotAnnotated)]));
    var e := SwitchExpression(OneofValue, [TypeArm("int"), TypeArm("string")]);
    var u := UnionView([Int32, StringType(NotAnnotated)], false);
    assert ResolveUnion(h, OneofValue) == Some(u);
    TypeArmCovers(Oneof, OneOfType([Int32, StringType(NotAnnotated)]), "int", Int32);
    assert SwitchExpressionSuppressor.ArmHandlesTypeWithoutRestrictions(h, e.arms[0], Int32);
    TypeArmCovers(Oneof, OneOfType([Int32, StringType(NotAnnotated)]), "string", StringType(NotAnnotated));
    assert SwitchExpressionSuppressor.ArmHandlesTypeWithoutRestrictions(h, e.arms[1], StringType(NotAnnotated));
    ExpressionSuppressedWhenCovered(h, e, u);
  }

  /** With nullable reference types disabled, `string` is oblivious: without a null arm, not suppressed. */
  lemma ExpressionObliviousStringNeedsNullArm()
    ensures !SwitchExpressionSuppressor.ShouldSuppress(
      TestHost(Oneof, OneOfType([Int32, StringType(Oblivious)])),
      SwitchExpression(OneofValue, [TypeArm("int"), TypeArm("string")]))
  {
  }

  /** `OneOf<int, bool>` needs no null arm, even with nullable reference types disabled. */
  lemma ExpressionValueTypesNeedNoNullArm()
    ensures SwitchExpressionSuppressor.ShouldSuppress(
      TestHost(Oneof, OneOfType([Int32, Boolean])),
      SwitchExpression(OneofValue, [TypeArm("int"), TypeArm("bool")]))
  {
    var h := TestHost(Oneof, OneOfType([Int32, Boolean]));
    var e := SwitchExpression(OneofValue, [TypeArm("int"), TypeArm("bool")]);
    var u := UnionView([Int32, Boolean], false);
    assert ResolveUnion(h, OneofValue) == Some(u);
    TypeArmCovers(Oneof, OneOfType([Int32, Boolean]), "int", Int32);
    assert SwitchExpressionSuppressor.ArmHandlesTypeWithoutRestrictions(h, e.arms[0], Int32);
    TypeArmCovers(Oneof, OneOfType([Int32, Boolean]), "bool", Boolean);
    assert SwitchExpressionSuppressor.ArmHandlesTypeWithoutRestrictions(h, e.arms[1], Boolean);
    ExpressionSuppressedWhenCovered(h, e, u);
  }

  /** `wrapper.Inner.Inner.Value`: the last `Inner` is the value source. */
  lemma ExpressionNestedValueSourceSuppressed()
    ensures SwitchExpressionSuppressor.ShouldSuppress(
              TestHost(LastInner, OneOfType([Int32, StringType(NotAnnotated)])),
              SwitchExpression(NestedValue, [TypeArm("int"), TypeArm("string")]))
  {
    var h := TestHost(LastInner, OneOfType([Int32, StringType(NotAnnotated)]));
    var e := SwitchExpression(NestedValue, [TypeArm("int"), TypeArm("string")]);
    var u := UnionView([Int32, StringType(NotAnnotated)], false);
    NestedValueSourceIsLastInner();
    assert ResolveUnion(h, NestedValue) == Some(u);
    TypeArmCovers(LastInner, OneOfType([Int32, StringType(NotAnnotated)]), "int", Int32);
    assert SwitchExpressionSuppressor.ArmHandlesTypeWithoutRestrictions(h, e.arms[0], Int32);
    TypeArmCovers(LastInner, OneOfType([Int32, StringType(NotAnnotated)]), "string", StringType(NotAnnotated));
    assert SwitchExpressionSuppressor.ArmHandlesTypeWithoutRestrictions(h, e.arms[1], StringType(NotAnnotated));
    ExpressionSuppressedWhenCovered(h, e, u);
  }

  /** `OneOf<int?, string>` without a null arm: not suppressed. */
  lemma ExpressionNullableValueTypeWithoutNullArm()
    ensures !SwitchExpressionSuppressor.ShouldSuppress(
      TestHost(Oneof, OneOfType([NullableOf(Int32), StringType(NotAnnotated)])),
      SwitchExpression(OneofValue, [TypeArm("int"), TypeArm("string")]))
  {
  }

  /** `OneOf<int?, string>` with a null arm: suppressed, the type pattern `int` covering `int?`. */
  lemma ExpressionNullableValueTypeWithNullArm()
    ensures SwitchExpressionSuppressor.ShouldSuppress(
      TestHost(Oneof, OneOfType([NullableOf(Int32), StringType(NotAnnotated)])),
      SwitchExpression(OneofValue, [TypeArm("int"), TypeArm("string"), NullArm]))
  {
    var h := TestHost(Oneof, OneOfType([NullableOf(Int32), StringType(NotAnnotated)]));
    var e := SwitchExpression(OneofValue, [TypeArm("int"), TypeArm("string"), NullArm]);
    var u := UnionView([NullableOf(Int32), StringType(NotAnnotated)], true);
    assert OneOfType([NullableOf(Int32), StringType(NotAnnotated)]).typeArguments[0].nullableAnnotation == Annotated;
    assert ResolveUnion(h, OneofValue) == Some(u);
    TypeArmCovers(Oneof, OneOfType([NullableOf(Int32), StringType(NotAnnotated)]), "int", NullableOf(Int32));
    assert SwitchExpressionSuppressor.ArmHandlesTypeWithoutRestrictions(h, e.arms[0], NullableOf(Int32));
    TypeArmCovers(Oneof, OneOfType([NullableOf(Int32), StringType(NotAnnotated)]), "string", StringType(NotAnnotated));
    assert SwitchExpressionSuppressor.ArmHandlesTypeWithoutRestrictions(h, e.arms[1], StringType(NotAnnotated));
    assert SwitchExpressionSuppressor.HandlesNullCase(e.arms[2]);
    ExpressionSuppressedWhenCovered(h, e, u);
  }

  /** `OneOf<int, string?>` without a null arm: not suppressed. */
  lemma ExpressionNullableReferenceTypeWithoutNullArm()
    ensures !SwitchExpressionSuppressor.ShouldSuppress(
      TestHost(Oneof, OneOfType([Int32, StringType(Annotated)])),
      SwitchExpression(OneofValue, [TypeArm("int"), TypeArm("string")]))
  {
  }

  /** `OneOf<int, string?>` with a null arm: suppressed. */
  lemma ExpressionNullableReferenceTypeWithNullArm()
    ensures SwitchExpressionSuppressor.ShouldSuppress(
      TestHost(Oneof, OneOfType([Int32, StringType(Annotated)])),
      SwitchExpression(OneofValue, [TypeArm("int"), TypeArm("string"), NullArm]))
  {
    var h := TestHost(Oneof, OneOfType([Int32, StringType(Annotated)]));
    var e := SwitchExpression(OneofValue, [TypeArm("int"), TypeArm("string"), NullArm]);
    var u := UnionView([Int32, StringType(Annotated)], true);
    assert OneOfType([Int32, StringType(Annotated)]).typeArguments[1].nullableAnnotation == Annotated;
    assert ResolveUnion(h, OneofValue) == Some(u);
    TypeArmCovers(Oneof, OneOfType([Int32, StringType(Annotated)]), "int", Int32);
    assert SwitchExpressionSuppressor.ArmHandlesTypeWithoutRestrictions(h, e.arms[0], Int32);
    TypeArmCovers(Oneof, OneOfType([Int32, StringType(Annotated)]), "string", StringType(Annotated));
    assert SwitchExpressionSuppressor.ArmHandlesTypeWithoutRestrictions(h, e.arms[1], StringType(Annotated));
    assert SwitchExpressionSuppressor.HandlesNullCase(e.arms[2]);
    ExpressionSuppressedWhenCovered(h, e, u);
  }

  // ---------------------------------------------------------------------
  // Switch statements

  /** `case int:` alone for `OneOf<int, string>`: not suppressed. */
  lemma StatementMissingVariantNotSuppressed()
    ensures !SwitchStatementSuppressor.ShouldSuppress(
      TestHost(Oneof, OneOfType([Int32, StringType(NotAnnotated)])),
      SwitchStatement(OneofValue, [CaseSection("int")]))
  {
  }

  /** With nullable reference types disabled, `case int:` and `case string:` without `case null:`: not suppressed. */
  lemma StatementObliviousStringNeedsCaseNull()
    ensures !SwitchStatementSuppressor.ShouldSuppress(
      TestHost(Oneof, OneOfType([Int32, StringType(Oblivious)])),
      SwitchStatement(OneofValue, [CaseSection("int"), CaseSection("string")]))
  {
  }

  /** `OneOf<int, bool>` with `case int:` and `case bool:` needs no `case null:`. */
  lemma StatementValueTypesNeedNoCaseNull()
    ensures SwitchStatementSuppressor.ShouldSuppress(
      TestHost(Oneof, OneOfType([Int32, Boolean])),
      SwitchStatement(OneofValue, [CaseSection("int"), CaseSection("bool")]))
  {
    var h := TestHost(Oneof, OneOfType([Int32, Boolean]));
    var s := SwitchStatement(OneofValue, [CaseSection("int"), CaseSection("bool")]);
    var u := UnionView([Int32, Boolean], false);
    assert ResolveUnion(h, OneofValue) == Some(u);
    CaseSectionCovers(Oneof, OneOfType([Int32, Boolean]), "int", Int32);
    assert SwitchStatementSuppressor.SectionHandlesTypeWithoutRestrictions(h, s.sections[0], Int32);
    CaseSectionCovers(Oneof, OneOfType([Int32, Boolean]), "bool", Boolean);
    assert SwitchStatementSuppressor.SectionHandlesTypeWithoutRestrictions(h, s.sections[1], Boolean);
    StatementSuppressedWhenCovered(h, s, u);
  }

  /** `OneOf<int, string>` with `case int:` and `case string:`: suppressed. */
  lemma StatementAllVariantsSuppressed()
    ensures SwitchStatementSuppressor.ShouldSuppress(
      TestHost(Oneof, OneOfType([Int32, StringType(NotAnnotated)])),
      SwitchStatement(OneofValue, [CaseSection("int"), CaseSection("string")]))
  {
    var h := TestHost(Oneof, OneOfType([Int32, StringType(NotAnnotated)]));
    var s := SwitchStatement(OneofValue, [CaseSection("int"), CaseSection("string")]);
    var u := UnionView([Int32, StringType(NotAnnotated)], false);
    assert ResolveUnion(h, OneofValue) == Some(u);
    CaseSectionCovers(Oneof, OneOfType([Int32, StringType(NotAnnotated)]), "int", Int32);
    assert SwitchStatementSuppressor.SectionHandlesTypeWithoutRestrictions(h, s.sections[0], Int32);
    CaseSectionCovers(Oneof, OneOfType([Int32, StringType(NotAnnotated)]), "string", StringType(NotAnnotated));
    assert SwitchStatementSuppressor.SectionHandlesTypeWithoutRestrictions(h, s.sections[1], StringType(NotAnnotated));
    StatementSuppressedWhenCovered(h, s, u);
  }

  /** `switch (this.Value)` inside `GeneratedOneOf : OneOfBase<int, string>` with `case int:` and `case string:`: suppressed through the base type. */
  lemma StatementThisValueSuppressed()
    ensures SwitchStatementSuppressor.ShouldSuppress(
      TestHost(ThisExpr(0), GeneratedOneOf([Int32, StringType(NotAnnotated)])),
      SwitchStatement(MemberAccess(ThisExpr(0), IdentifierName("Value", 1)), [CaseSection("int"), CaseSection("string")]))
  {
    var h := TestHost(ThisExpr(0), GeneratedOneOf([Int32, StringType(NotAnnotated)]));
    var s := SwitchStatement(MemberAccess(ThisExpr(0), IdentifierName("Value", 1)), [CaseSection("int"), CaseSection("string")]);
    var u := UnionView([Int32, StringType(NotAnnotated)], false);
    assert OneOfSymbol(h.typeInfo(ThisExpr(0))) == GeneratedOneOf([Int32, StringType(NotAnnotated)]).baseType;
    assert ResolveUnion(h, MemberAccess(ThisExpr(0), IdentifierName("Value", 1))) == Some(u);
    CaseSectionCovers(ThisExpr(0), GeneratedOneOf([Int32, StringType(NotAnnotated)]), "int", Int32);
    assert SwitchStatementSuppressor.SectionHandlesTypeWithoutRestrictions(h, s.sections[0], Int32);
    CaseSectionCovers(ThisExpr(0), GeneratedOneOf([Int32, StringType(NotAnnotated)]), "string", StringType(NotAnnotated));
    assert SwitchStatementSuppressor.SectionHandlesTypeWithoutRestrictions(h, s.sections[1], StringType(NotAnnotated));
    StatementSuppressedWhenCovered(h, s, u);
  }

  /** `switch (wrapper.Inner.Inner.Value)` over a `GeneratedOneOf`: the last `Inner` is the value source. */
  lemma StatementNestedValueSourceSuppressed()
    ensures SwitchStatementSuppressor.ShouldSuppress(
              TestHost(LastInner, GeneratedOneOf([Int32, StringType(NotAnnotated)])),
              SwitchStatement(NestedValue, [CaseSection("int"), CaseSection("string")]))
  {
    var h := TestHost(LastInner, GeneratedOneOf([Int32, StringType(NotAnnotated)]));
    var s := SwitchStatement(NestedValue, [CaseSection("int"), CaseSection("string")]);
    var u := UnionView([Int32, StringType(NotAnnotated)], false);
    NestedValueSourceIsLastInner();
    assert OneOfSymbol(h.typeInfo(LastInner)) == GeneratedOneOf([Int32, StringType(NotAnnotated)]).baseType;
    assert ResolveUnion(h, NestedValue) == Some(u);
    CaseSectionCovers(LastInner, GeneratedOneOf([Int32, StringType(NotAnnotated)]), "int", Int32);
    assert SwitchStatementSuppressor.SectionHandlesTypeWithoutRestrictions(h, s.sections[0], Int32);
    CaseSectionCovers(LastInner, GeneratedOneOf([Int32, StringType(NotAnnotated)]), "string", StringType(NotAnnotated));
    assert SwitchStatementSuppressor.SectionHandlesTypeWithoutRestrictions(h, s.sections[1], StringType(NotAnnotated));
    StatementSuppressedWhenCovered(h, s, u);
  }

  /** `OneOf<int?, string>` without `case null:`: not suppressed. */
  lemma StatementNullableValueTypeWithoutCaseNull()
    ensures !SwitchStatementSuppressor.ShouldSuppress(
      TestHost(Oneof, OneOfType([NullableOf(Int32), StringType(NotAnnotated)])),
      SwitchStatement(OneofValue, [CaseSection("int"), CaseSection("string")]))
  {
  }

  /** `OneOf<int, string?>` without `case null:`: not suppressed. */
  lemma StatementNullableReferenceTypeWithoutCaseNull()
    ensures !SwitchStatementSuppressor.ShouldSuppress(
      TestHost(Oneof, OneOfType([Int32, StringType(Annotated)])),
      SwitchStatement(OneofValue, [CaseSection("int"), CaseSection("string")]))
  {
  }

  /** `OneOf<int?, string>` with `case null:`: suppressed, the type pattern `int` covering `int?`. */
  lemma StatementNullableValueTypeWithCaseNull()
    ensures SwitchStatementSuppressor.ShouldSuppress(
      TestHost(Oneof, OneOfType([NullableOf(Int32), StringType(NotAnnotated)])),
      SwitchStatement(OneofValue, [CaseSection("int"), CaseSection("string"), CaseNullSection]))
  {
    var h := TestHost(Oneof, OneOfType([NullableOf(Int32), StringType(NotAnnotated)]));
    var s := SwitchStatement(OneofValue, [CaseSection("int"), CaseSection("string"), CaseNullSection]);
    var u := UnionView([NullableOf(Int32), StringType(NotAnnotated)], true);
    assert OneOfType([NullableOf(Int32), StringType(NotAnnotated)]).typeArguments[0].nullableAnnotation == Annotated;
    assert ResolveUnion(h, OneofValue) == Some(u);
    CaseSectionCovers(Oneof, OneOfType([NullableOf(Int32), StringType(NotAnnotated)]), "int", NullableOf(Int32));
    assert SwitchStatementSuppressor.SectionHandlesTypeWithoutRestrictions(h, s.sections[0], NullableOf(Int32));
    CaseSectionCovers(Oneof, OneOfType([NullableOf(Int32), StringType(NotAnnotated)]), "string", StringType(NotAnnotated));
    assert SwitchStatementSuppressor.SectionHandlesTypeWithoutRestrictions(h, s.sections[1], StringType(NotAnnotated));
    assert SwitchStatementSuppressor.LabelHandlesNullCase(s.sections[2].labels[0]);
    StatementSuppressedWhenCovered(h, s, u);
  }

  /** `OneOf<int, string?>` with `case null:`: suppressed. */
  lemma StatementNullableReferenceTypeWithCaseNull()
    ensures SwitchStatementSuppressor.ShouldSuppress(
      TestHost(Oneof, OneOfType([Int32, StringType(Annotated)])),
      SwitchStatement(OneofValue, [CaseSection("int"), CaseSection("string"), CaseNullSection]))
  {
    var h := TestHost(Oneof, OneOfType([Int32, StringType(Annotated)]));
    var s := SwitchStatement(OneofValue, [CaseSection("int"), CaseSection("string"), CaseNullSection]);
    var u := UnionView([Int32, StringType(Annotated)], true);
    assert OneOfType([Int32, StringType(Annotated)]).typeArguments[1].nullableAnnotation == Annotated;
    assert ResolveUnion(h, OneofValue) == Some(u);
    CaseSectionCovers(Oneof, OneOfType([Int32, StringType(Annotated)]), "int", Int32);
    assert SwitchStatementSuppressor.SectionHandlesTypeWithoutRestrictions(h, s.sections[0], Int32);
    CaseSectionCovers(Oneof, OneOfType([Int32, StringType(Annotated)]), "string", StringType(Annotated));
    assert SwitchStatementSuppressor.SectionHandlesTypeWithoutRestrictions(h, s.sections[1], StringType(Annotated));
    assert SwitchStatementSuppressor.LabelHandlesNullCase(s.sections[2].labels[0]);
    StatementSuppressedWhenCovered(h, s, u);
  }

  /**
   * A constant label naming a type, `case Int32:`, converts the variant
   * itself, without Nullable stripping: it does not cover `int?`, whereas the
   * type pattern in `case int:` does.
   */
  lemma CaseLabelDoesNotStripNullable()
    ensures var h := TestHost(Oneof, OneOfType([NullableOf(Int32)]));
            && !SwitchStatementSuppressor.LabelHandlesTypeWithoutRestriction(h, CaseSwitchLabel(NameExpr(IdentifierName("Int32", 2))), NullableOf(Int32))
            && SwitchStatementSuppressor.LabelHandlesTypeWithoutRestriction(h, CasePatternSwitchLabel(TypePattern(PredefinedType("int")), None), NullableOf(Int32))
  {
  }
}
