# OneOfDiagnosticSuppressor — a Dafny model

OneOfDiagnosticSuppressor is a Roslyn diagnostic suppressor for C# code that
uses the OneOf discriminated-union library. The C# compiler and the IDE
analyzers warn that a `switch` over `x.Value` of a `OneOf<T0, ..., Tn>` (or of
a class deriving from `OneOfBase<T0, ..., Tn>`) does not handle every possible
value. The warnings are CS8509 and IDE0072 for switch expressions, and IDE0010
for switch statements. The suppressor withdraws such a warning when two things
hold:

- every variant type `Ti` is matched by an arm or case label that the
  suppressor's syntactic rule deems "without restrictions": the pattern's
  type is implied by `Ti`, and no nested sub-pattern is of a kind the rule
  counts as narrowing (the rule is not a full check that every value of `Ti`
  is accepted; see "## Left out");
- if some variant may be null, the null case is matched too.

This project models the decision procedure:

- `OneOfTypeHelper` (`one_of_type_helper.dfy`): recognises `OneOf<...>` and
  decodes its variant types.
- `ExpressionHelper` (`expression_helper.dfy`): resolves the type of the value
  source in `<source>.Value`. It strips parentheses (a `while` loop, modelled
  as a method) and unwraps `await`.
- `PatternHelper` (`pattern_helper.dfy`): decides whether one pattern covers a
  variant without restrictions. Beside it sits a tree-wide reference
  definition, proved equivalent.
- `OneOfSwitchee` (`one_of_switchee.dfy`): the steps both suppressors inline,
  from the switchee to the union's variant types and the null-case
  obligation.
- `SwitchExpressionSuppressor` and `SwitchStatementSuppressor`: the per-arm
  and per-label rules, the decision, the per-diagnostic handler, and the
  `ReportSuppressions` loop. Each loop is proved equal to a recursive
  specification. That specification is proved sound and complete against the
  decision: a suppression is reported exactly for the handled diagnostics
  whose switch passes it.
- `Scenarios` (`scenarios.dfy`): the verdicts the repository's tests expect,
  replayed on a small concrete host. Each expression scenario replays
  the single switch its test writes. For the statement tests, the template
  generates three switches with the same labels (CodeHelper.cs:50-84), and
  each statement scenario replays the `oneof.Value` switch over
  `OneOf<...>` (CodeHelper.cs:65-73). There are two exceptions:
  `StatementThisValueSuppressed` replays the `this.Value` switch inside
  `GeneratedOneOf` (CodeHelper.cs:53-63), and
  `StatementNestedValueSourceSuppressed` replays the
  `Wrapper<Wrapper<GeneratedOneOf>>` switch of its test.

The Roslyn services are parameters. A `Host` value (`symbols.dfy`) bundles:

- `GetTypeInfo(e).Type`;
- `GetSymbolInfo(e).Symbol`;
- `Compilation.HasImplicitConversion`.

All three are total functions over syntax. Names and `this` carry a position,
so two identical-looking occurrences are different nodes: the two `Inner` in
`wrapper.Inner.Inner.Value`, or `this` inside two different classes. Type symbols carry their name, containing assembly, type
arguments, immediate base type, whether they are `Nullable<T>`, and their
nullable annotation.

The model follows the code in every detail but one, the correction under
"## Findings". Points of the code's behaviour a reader might not expect:

- Only the immediate base type is examined for `OneOfBase<...>`; a deeper
  ancestor is not recognised (`OneOfSwitchee.OnlyImmediateBaseExamined`).
- A discard arm `_` covers the null case but never covers a variant type,
  because it names no type (`PatternHelper.ShapesWithoutTypeNeverCover`).
- Neither suppressor calls `ExpressionHelper`. Both inline a narrower rule:
  the value source must be an identifier, a member access ending in an
  identifier, or `this`. Parentheses and `await` around the source therefore
  prevent suppression. `ExpressionHelper` is modelled on its own.
- Only the switch statement requires the literal `case null:` label for the
  null case. `default:` and `case _:` do not count there, although the
  comment beside the check (SwitchStatementSuppressor.cs:108-109) says that
  both `_` and `null` match null; the check itself (lines 112-113) accepts
  only a constant label whose token value is null.

## Model

| member | source | states |
|---|---|---|
| Symbols.AsNamedType | OneOfDiagnosticSuppressor/PatternHelper.cs:30-33 | a resolved symbol yields a named type exactly when it is a type symbol whose type is named, and then it is that type |
| OneOfTypeHelper.NamedTypesOf | OneOfDiagnosticSuppressor/OneOfTypeHelper.cs:15 | the `OfType<INamedTypeSymbol>` filter keeps exactly the named types of the input, never more elements than the input |
| OneOfTypeHelper.NamedTypesOfKeepsAllIffAllNamed | OneOfDiagnosticSuppressor/OneOfTypeHelper.cs:15-16 | the length comparison succeeds iff every type argument is a named type, and then the filtered array equals the type arguments |
| OneOfTypeHelper.NamedTypeArguments | OneOfDiagnosticSuppressor/OneOfTypeHelper.cs:15-19 | the type arguments are returned, in order, iff all are named types; otherwise nothing |
| OneOfTypeHelper.GetOneOfSubTypes | OneOfDiagnosticSuppressor/OneOfTypeHelper.cs:9-23 | subtypes are returned iff the type is called `OneOf`, comes from the `OneOf` assembly and all its type arguments are named; they are then exactly the type arguments in order |
| OneOfTypeHelper.SubTypesKeepAnnotations | OneOfDiagnosticSuppressor.Tests/OneOfTypeHelperTests.cs:9-39 | a decoded variant keeps its nullable annotation (`OneOf<bool, string?>` yields `string?`) |
| ExpressionHelper.Unparenthesized | OneOfDiagnosticSuppressor/ExpressionHelper.cs:32-40 | the result is never parenthesized, is no larger than the input, and is the input itself when that is not parenthesized |
| ExpressionHelper.UnparenthesizedPeelsParentheses | OneOfDiagnosticSuppressor/ExpressionHelper.cs:32-40 | every expression is some number of parentheses around its unparenthesized core |
| ExpressionHelper.UnparenthesizedOfParenthesize | OneOfDiagnosticSuppressor/ExpressionHelper.cs:32-40 | stripping removes exactly the parentheses added around an expression |
| ExpressionHelper.UnparenthesizedIdempotent | OneOfDiagnosticSuppressor/ExpressionHelper.cs:32-40 | stripping parentheses twice is stripping once |
| ExpressionHelper.GetUnparenthesizedExpression | OneOfDiagnosticSuppressor/ExpressionHelper.cs:32-40 | the loop ends on a non-parenthesized expression, the input is that expression wrapped in some number of parentheses, and the result equals `Unparenthesized` of the input |
| ExpressionHelper.ParenthesizeShift | OneOfDiagnosticSuppressor/ExpressionHelper.cs:34-37 | one more pair of parentheses outside equals one more pair inside (the loop invariant's step) |
| ExpressionHelper.GetTypeOfTask | OneOfDiagnosticSuppressor/ExpressionHelper.cs:42-55 | a type is returned iff the task type is present, named and has exactly one type argument, and it is that argument |
| ExpressionHelper.GetTypeSymbolFromExpression | OneOfDiagnosticSuppressor/ExpressionHelper.cs:20-30 | an expression that is not an await (inside any parentheses) is typed by the host as written |
| ExpressionHelper.GetTypeOfValueSource | OneOfDiagnosticSuppressor/ExpressionHelper.cs:10-18 | no type unless the switchee is a member access named `Value` |
| ExpressionHelper.NestedAwaitsUnwrapOneTaskEach | OneOfDiagnosticSuppressor/ExpressionHelper.cs:24-27 | `await` applied n times takes n task layers off the operand's type |
| ExpressionHelper.ParenthesizedTypeIsResolvedThrough | OneOfDiagnosticSuppressor/ExpressionHelper.cs:22-29 | parentheses around an await are transparent; around anything else the host is asked about the parenthesized expression |
| ExpressionHelper.ValueOfAwaitedSource | OneOfDiagnosticSuppressor/ExpressionHelper.cs:10-18 | for `(await e).Value` the value source's type is the single type argument of `e`'s task type |
| PatternHelper.TypeSource | OneOfDiagnosticSuppressor/PatternHelper.cs:11-23 | a type or declaration pattern yields its type syntax and a recursive pattern its optional type; a constant `a.B` yields the name `B`, a constant identifier yields itself, and any other constant (a generic name included) yields none; discard, var and other patterns yield none |
| PatternHelper.TypeToBeMatched | OneOfDiagnosticSuppressor/PatternHelper.cs:35-37 | a `Nullable<T>` variant is matched as `T`; every other variant as itself |
| PatternHelper.IsDeclarationPatternNonRestrictive | OneOfDiagnosticSuppressor/PatternHelper.cs:58-78 | true iff the declared type resolves to a named type, the name before the colon is an identifier that resolves to a property, and the property's type converts implicitly to the declared type |
| PatternHelper.IsSubpatternNonRestrictive | OneOfDiagnosticSuppressor/PatternHelper.cs:46-53 | the sub-pattern rule (var, recursive, declaration), extended to positional clauses by the correction; characterised by `RecursiveNonRestrictiveIffEveryNodeHarmless` |
| PatternHelper.IsRecursivePatternNonRestrictive | OneOfDiagnosticSuppressor/PatternHelper.cs:55-56 | the corrected recursive rule (property clause present, every property and positional sub-pattern non-restrictive); characterised by `RecursiveNonRestrictiveIffEveryNodeHarmless` |
| PatternHelper.HandlesAsNonNullableTypeWithoutRestrictions | OneOfDiagnosticSuppressor/PatternHelper.cs:9-44 | a positive answer means the pattern's type resolves to a named type that the (Nullable-stripped) variant converts to; a covering recursive pattern has a property clause |
| PatternHelper.ShapesWithoutTypeNeverCover | OneOfDiagnosticSuppressor/PatternHelper.cs:11-28 | discards, var, literals and other untyped shapes, and recursive patterns without a type, cover no variant |
| PatternHelper.UnresolvedTypeNeverCovers | OneOfDiagnosticSuppressor/PatternHelper.cs:30-33 | a pattern whose type does not resolve to a named type covers no variant |
| PatternHelper.SimplePatternCoversIffConversion | OneOfDiagnosticSuppressor/PatternHelper.cs:38-43 | for constant, type and declaration patterns the verdict is exactly the implicit conversion from the variant |
| PatternHelper.NullableVariantCoveredAsUnderlying | OneOfDiagnosticSuppressor/PatternHelper.cs:35-38 | a `Nullable<T>` variant is covered by exactly the patterns that cover `T` |
| PatternHelper.ChildAt | OneOfDiagnosticSuppressor/PatternHelper.cs:55-56 | only a recursive pattern has sub-patterns |
| PatternHelper.RecursiveNonRestrictiveIffEveryNodeHarmless | OneOfDiagnosticSuppressor/PatternHelper.cs:46-56 | the recursive rule holds iff the pattern has a property clause and every node reachable in its sub-pattern tree is harmless on its own (var, a recursive pattern with a property clause, or a non-restrictive declaration) |
| PatternHelper.ChildIsNonRestrictive | OneOfDiagnosticSuppressor/PatternHelper.cs:46-56 | every direct sub-pattern of a non-restrictive recursive pattern is non-restrictive |
| PatternHelper.AllChildrenNonRestrictive | OneOfDiagnosticSuppressor/PatternHelper.cs:46-56 | a recursive pattern with a property clause whose direct sub-patterns are all non-restrictive is non-restrictive |
| PatternHelper.CoversIffConversionAndHarmlessTree | OneOfDiagnosticSuppressor/PatternHelper.cs:9-56 | a pattern covers a variant iff its type resolves to a named type the variant converts to and, for a recursive pattern, every node of its sub-pattern tree is harmless |
| PatternHelper.IsSubpatternNonRestrictiveAsWritten | OneOfDiagnosticSuppressor/PatternHelper.cs:46-53 | the sub-pattern rule exactly as written; characterised by `RecursiveAsWrittenIffEveryPropertyNodeHarmless` |
| PatternHelper.IsRecursivePatternNonRestrictiveAsWritten | OneOfDiagnosticSuppressor/PatternHelper.cs:55-56 | the recursive rule exactly as written (property clause only); characterised by `RecursiveAsWrittenIffEveryPropertyNodeHarmless` |
| PatternHelper.HandlesAsNonNullableTypeWithoutRestrictionsAsWritten | OneOfDiagnosticSuppressor/PatternHelper.cs:9-56 | the classifier the program runs answers yes only for a pattern whose type resolves to a named type that the (Nullable-stripped) variant converts to; a covering recursive pattern has a property clause |
| PatternHelper.RecursiveAsWrittenIffEveryPropertyNodeHarmless | OneOfDiagnosticSuppressor/PatternHelper.cs:46-56 | the recursive rule as written holds iff the pattern has a property clause and every node reachable through property clauses only is harmless; positional sub-patterns are never consulted, at any depth |
| PatternHelper.CoversAsWrittenIffConversionAndHarmlessPropertyTree | OneOfDiagnosticSuppressor/PatternHelper.cs:9-56 | the classifier as written covers a variant iff the pattern's type resolves to a named type the variant converts to and, for a recursive pattern, every node reachable through property clauses is harmless |
| PatternHelper.OnlyPropertyPathsWithoutPositionalClause | OneOfDiagnosticSuppressor/PatternHelper.cs:55-56 | in a pattern without positional clauses every existing path steps through property clauses only |
| PatternHelper.AsWrittenAgreesWithoutPositionalClause | OneOfDiagnosticSuppressor/PatternHelper.cs:9-56 | on a pattern with no positional clause at any depth, the corrected classifier and the one as written give the same answer |
| PatternHelper.CorrectedRecursiveRuleIsStricter | OneOfDiagnosticSuppressor/PatternHelper.cs:55-56 | whatever the corrected recursive rule accepts, the rule as written accepts too |
| PatternHelper.CorrectedClassifierIsStricter | OneOfDiagnosticSuppressor/PatternHelper.cs:9-56 | the corrected classifier only withdraws coverage, never adds it |
| PatternHelper.PositionalClauseIgnoredAsWritten | OneOfDiagnosticSuppressor/PatternHelper.cs:55-56 | `Point(0, 0) { }` covers a variant `Point` by the rule as written but not by the corrected rule; its positional sub-pattern `0` is not harmless |
| OneOfSwitchee.ValueAccessReceiver | OneOfDiagnosticSuppressor/SwitchExpressionSuppressor.cs:45-49 | a receiver exists iff the switchee is a member access named `Value`, and it is that access's expression |
| OneOfSwitchee.ValueSource | OneOfDiagnosticSuppressor/SwitchExpressionSuppressor.cs:51-62 | a value source exists iff the receiver is an identifier, a member access ending in an identifier, or `this`; for a member access it is the final name |
| OneOfSwitchee.AsOneOfSymbol | OneOfDiagnosticSuppressor/SwitchExpressionSuppressor.cs:67-77 | a symbol is returned iff the type is present, has the given name, comes from the `OneOf` assembly and is named, and it is that type |
| OneOfSwitchee.OneOfSymbol | OneOfDiagnosticSuppressor/SwitchExpressionSuppressor.cs:79-80 | the union symbol; characterised by `OneOfSymbolPrecedence` |
| OneOfSwitchee.MustHandleNullCase | OneOfDiagnosticSuppressor/SwitchExpressionSuppressor.cs:92 | some type argument's annotation is not `NotAnnotated` (nullable or oblivious) |
| OneOfSwitchee.ResolveUnion | OneOfDiagnosticSuppressor/SwitchExpressionSuppressor.cs:45-92 | the steps from switchee to variants and null obligation; characterised by `ResolveUnionCharacterised` |
| OneOfSwitchee.OneOfSymbolPrecedence | OneOfDiagnosticSuppressor/SwitchExpressionSuppressor.cs:79-80 | an immediate `OneOfBase` base type wins; otherwise the type itself must be `OneOf`; a union symbol is always a named `OneOf`/`OneOfBase` from the `OneOf` assembly |
| OneOfSwitchee.OnlyImmediateBaseExamined | OneOfDiagnosticSuppressor/SwitchStatementSuppressor.cs:77-78 | a type whose immediate base type is not `OneOfBase` and which is not itself `OneOf` is never a union |
| OneOfSwitchee.DirectUnionDecodesLikeGetOneOfSubTypes | OneOfDiagnosticSuppressor/SwitchExpressionSuppressor.cs:82-85 | for a direct `OneOf<...>` the inline decoding gives the same variants as `GetOneOfSubTypes` |
| OneOfSwitchee.ResolveUnionCharacterised | OneOfDiagnosticSuppressor/SwitchExpressionSuppressor.cs:45-92 | a union is resolved iff the switchee is `<source>.Value` with an accepted source whose type yields a union symbol with all-named type arguments; the variants are those arguments and the null case is required iff some argument's annotation is not `NotAnnotated` |
| OneOfSwitchee.NoUnionWithoutValueAccess | OneOfDiagnosticSuppressor/SwitchStatementSuppressor.cs:43-60 | any other member name or value-source shape never resolves a union |
| SwitchExpressionSuppressor.DescriptorFor | OneOfDiagnosticSuppressor/SwitchExpressionSuppressor.cs:14-18 | every handled id gets a descriptor with suppression id `ONEOFSUPP001` suppressing that id |
| SwitchExpressionSuppressor.SwitchExpressionsOf | OneOfDiagnosticSuppressor/SwitchExpressionSuppressor.cs:43 | reference definition: the switch expressions of a node and its descendants in pre-order |
| SwitchExpressionSuppressor.FirstSwitchExpression | OneOfDiagnosticSuppressor/SwitchExpressionSuppressor.cs:43 | the result is the first of `SwitchExpressionsOf(node)` in pre-order, or none when there is none; a located switch expression is itself the one found; a switch statement node yields none |
| SwitchExpressionSuppressor.HandlesNullCase | OneOfDiagnosticSuppressor/SwitchExpressionSuppressor.cs:109-114 | a guard-free arm whose pattern is `_` or the `null` literal |
| SwitchExpressionSuppressor.ArmHandlesTypeWithoutRestrictions | OneOfDiagnosticSuppressor/SwitchExpressionSuppressor.cs:116-118 | a guard-free arm whose pattern covers the variant; see `GuardedArmNeverCovers` |
| SwitchExpressionSuppressor.AnyArmHandles | OneOfDiagnosticSuppressor/SwitchExpressionSuppressor.cs:101 | some arm covers the variant |
| SwitchExpressionSuppressor.UnhandledSubtypes | OneOfDiagnosticSuppressor/SwitchExpressionSuppressor.cs:101 | a type is unhandled iff it is a variant that no arm handles |
| SwitchExpressionSuppressor.ShouldSuppress | OneOfDiagnosticSuppressor/SwitchExpressionSuppressor.cs:87-107 | the decision; characterised by `ShouldSuppressIff` |
| SwitchExpressionSuppressor.SuppressionFor | OneOfDiagnosticSuppressor/SwitchExpressionSuppressor.cs:26-28 | nothing for an unhandled id, otherwise the handler's answer |
| SwitchExpressionSuppressor.Suppressions | OneOfDiagnosticSuppressor/SwitchExpressionSuppressor.cs:24-30 | the suppressions of a diagnostic list in order; proved sound and complete by `SuppressedOnlyWhenDecided` and `DecidedIsSuppressed` |
| SwitchExpressionSuppressor.ShouldSuppressIff | OneOfDiagnosticSuppressor/SwitchExpressionSuppressor.cs:87-107 | suppressed iff a union is resolved, a `_` or `null` arm exists when required, and every variant is covered by a guard-free arm |
| SwitchExpressionSuppressor.HandleDiagnostic | OneOfDiagnosticSuppressor/SwitchExpressionSuppressor.cs:32-107 | a suppression, for the diagnostic itself with its id's descriptor, is returned iff the located node holds a switch expression and the first one passes the decision |
| SwitchExpressionSuppressor.SuppressedOnlyWhenDecided | OneOfDiagnosticSuppressor/SwitchExpressionSuppressor.cs:22-107 | every reported suppression is for a reported diagnostic with a handled id whose located switch expression resolves to a union with every variant covered by a guard-free arm |
| SwitchExpressionSuppressor.DecidedIsSuppressed | OneOfDiagnosticSuppressor/SwitchExpressionSuppressor.cs:22-107 | every reported diagnostic with a handled id whose switch expression passes the decision is suppressed |
| SwitchExpressionSuppressor.ReportSuppressions | OneOfDiagnosticSuppressor/SwitchExpressionSuppressor.cs:22-30 | the loop reports exactly the recursive specification: no more suppressions than diagnostics, each for a reported diagnostic with a handled id, its descriptor, and a positive decision |
| SwitchExpressionSuppressor.SuppressionsSound | OneOfDiagnosticSuppressor/SwitchExpressionSuppressor.cs:22-30 | every reported suppression is for a reported diagnostic with a handled id and carries its descriptor, and no more suppressions than diagnostics |
| SwitchExpressionSuppressor.OtherIdsNeverSuppressed | OneOfDiagnosticSuppressor/SwitchExpressionSuppressor.cs:26 | diagnostics with other ids are never suppressed |
| SwitchExpressionSuppressor.GuardedArmNeverCovers | OneOfDiagnosticSuppressor/SwitchExpressionSuppressor.cs:116-118 | an arm with a `when` clause covers no variant |
| SwitchExpressionSuppressor.MoreArmsKeepSuppression | OneOfDiagnosticSuppressor/SwitchExpressionSuppressor.cs:94-105 | adding arms never withdraws a suppression |
| SwitchExpressionSuppressor.UncoveredVariantPreventsSuppression | OneOfDiagnosticSuppressor/SwitchExpressionSuppressor.cs:101-105 | a variant no arm covers prevents suppression |
| SwitchExpressionSuppressor.MissingNullArmPreventsSuppression | OneOfDiagnosticSuppressor/SwitchExpressionSuppressor.cs:92-99 | with a nullable variant slot and no `_`/`null` arm there is no suppression |
| SwitchStatementSuppressor.DescriptorFor | OneOfDiagnosticSuppressor/SwitchStatementSuppressor.cs:14-18 | every handled id gets a descriptor with suppression id `ONEOFSUPP002` suppressing that id |
| SwitchStatementSuppressor.LabelHandlesNullCase | OneOfDiagnosticSuppressor/SwitchStatementSuppressor.cs:112-113 | only the constant label `case null:` |
| SwitchStatementSuppressor.SectionHandlesNullCase | OneOfDiagnosticSuppressor/SwitchStatementSuppressor.cs:107-110 | some label of the section is `case null:`; see `DefaultAndDiscardDoNotHandleNull` |
| SwitchStatementSuppressor.CaseSwitchLabelHandlesTypeWithoutRestriction | OneOfDiagnosticSuppressor/SwitchStatementSuppressor.cs:126-127 | the label's value resolves to a named type the variant itself converts to; see `CaseLabelDoesNotStripNullable` |
| SwitchStatementSuppressor.LabelHandlesTypeWithoutRestriction | OneOfDiagnosticSuppressor/SwitchStatementSuppressor.cs:118-127 | `case T:` covers a variant iff `T` resolves to a named type that the variant itself (no Nullable stripping) converts to; an unguarded pattern label covers exactly what the pattern classifier accepts; `default:` and guarded pattern labels cover no variant |
| SwitchStatementSuppressor.SectionHandlesTypeWithoutRestrictions | OneOfDiagnosticSuppressor/SwitchStatementSuppressor.cs:115-116 | some label of the section covers the variant |
| SwitchStatementSuppressor.AnySectionHandles | OneOfDiagnosticSuppressor/SwitchStatementSuppressor.cs:99 | some section covers the variant |
| SwitchStatementSuppressor.UnhandledSubtypes | OneOfDiagnosticSuppressor/SwitchStatementSuppressor.cs:99 | a type is unhandled iff it is a variant that no section handles |
| SwitchStatementSuppressor.ShouldSuppress | OneOfDiagnosticSuppressor/SwitchStatementSuppressor.cs:90-105 | the decision; characterised by `ShouldSuppressIff` |
| SwitchStatementSuppressor.SuppressionFor | OneOfDiagnosticSuppressor/SwitchStatementSuppressor.cs:26-28 | nothing for an unhandled id, otherwise the handler's answer |
| SwitchStatementSuppressor.Suppressions | OneOfDiagnosticSuppressor/SwitchStatementSuppressor.cs:24-30 | the suppressions of a diagnostic list in order; proved sound and complete by `SuppressedOnlyWhenDecided` and `DecidedIsSuppressed` |
| SwitchStatementSuppressor.ShouldSuppressIff | OneOfDiagnosticSuppressor/SwitchStatementSuppressor.cs:90-105 | suppressed iff a union is resolved, a `case null:` label exists when required, and every variant is covered by some label |
| SwitchStatementSuppressor.HandleDiagnostic | OneOfDiagnosticSuppressor/SwitchStatementSuppressor.cs:32-105 | a suppression, for the diagnostic itself with its id's descriptor, is returned iff the located node is a switch statement that passes the decision |
| SwitchStatementSuppressor.SuppressedOnlyWhenDecided | OneOfDiagnosticSuppressor/SwitchStatementSuppressor.cs:22-105 | every reported suppression is for a reported IDE0010 diagnostic located at a switch statement that resolves to a union with every variant covered by some section |
| SwitchStatementSuppressor.DecidedIsSuppressed | OneOfDiagnosticSuppressor/SwitchStatementSuppressor.cs:22-105 | every reported IDE0010 diagnostic located at a switch statement that passes the decision is suppressed |
| SwitchStatementSuppressor.ReportSuppressions | OneOfDiagnosticSuppressor/SwitchStatementSuppressor.cs:22-30 | the loop reports exactly the recursive specification; every suppression is for a reported IDE0010 diagnostic with the `ONEOFSUPP002` descriptor and a positive decision |
| SwitchStatementSuppressor.SuppressionsSound | OneOfDiagnosticSuppressor/SwitchStatementSuppressor.cs:22-30 | every reported suppression is for a reported diagnostic with a handled id and carries its descriptor, and no more suppressions than diagnostics |
| SwitchStatementSuppressor.OnlySwitchStatementNodes | OneOfDiagnosticSuppressor/SwitchStatementSuppressor.cs:34-41 | a located node that is not a switch statement yields no suppression |
| SwitchStatementSuppressor.DefaultAndDiscardDoNotHandleNull | OneOfDiagnosticSuppressor/SwitchStatementSuppressor.cs:107-113 | `default:` and `case _:` do not handle the null case |
| Scenarios.ExpressionMissingVariantNotSuppressed | OneOfDiagnosticSuppressor.Tests/SwitchExpressionSuppressorTests.cs:31-45 | `OneOf<int, string>` with only an `int` arm is not suppressed |
| Scenarios.ExpressionObliviousStringNeedsNullArm | OneOfDiagnosticSuppressor.Tests/SwitchExpressionSuppressorTests.cs:47-62 | with nullable reference types disabled, `int`/`string` arms without `null` are not suppressed |
| Scenarios.ExpressionValueTypesNeedNoNullArm | OneOfDiagnosticSuppressor.Tests/SwitchExpressionSuppressorTests.cs:64-79 | `OneOf<int, bool>` with `int`/`bool` arms is suppressed without a null arm |
| Scenarios.ExpressionAllVariantsSuppressed | OneOfDiagnosticSuppressor.Tests/SwitchExpressionSuppressorTests.cs:81-96 | `OneOf<int, string>` with `int`/`string` arms is suppressed |
| Scenarios.ExpressionNestedValueSourceSuppressed | OneOfDiagnosticSuppressor.Tests/SwitchExpressionSuppressorTests.cs:98-114 | `wrapper.Inner.Inner.Value` is suppressed, typed through the last `Inner` |
| Scenarios.ExpressionNullableValueTypeWithoutNullArm | OneOfDiagnosticSuppressor.Tests/SwitchExpressionSuppressorTests.cs:116-130 | `OneOf<int?, string>` without a null arm is not suppressed |
| Scenarios.ExpressionNullableReferenceTypeWithoutNullArm | OneOfDiagnosticSuppressor.Tests/SwitchExpressionSuppressorTests.cs:132-146 | `OneOf<int, string?>` without a null arm is not suppressed |
| Scenarios.ExpressionNullableValueTypeWithNullArm | OneOfDiagnosticSuppressor.Tests/SwitchExpressionSuppressorTests.cs:148-163 | `OneOf<int?, string>` with `int`, `string` and `null` arms is suppressed (`int` covers `int?`) |
| Scenarios.ExpressionNullableReferenceTypeWithNullArm | OneOfDiagnosticSuppressor.Tests/SwitchExpressionSuppressorTests.cs:165-180 | `OneOf<int, string?>` with `int`, `string` and `null` arms is suppressed |
| Scenarios.StatementMissingVariantNotSuppressed | OneOfDiagnosticSuppressor.Tests/SwitchStatementSuppressorTests.cs:30-38 | `case int:` alone over `OneOf<int, string>` is not suppressed |
| Scenarios.StatementObliviousStringNeedsCaseNull | OneOfDiagnosticSuppressor.Tests/SwitchStatementSuppressorTests.cs:40-49 | with nullable reference types disabled, `case int:`/`case string:` without `case null:` is not suppressed |
| Scenarios.StatementValueTypesNeedNoCaseNull | OneOfDiagnosticSuppressor.Tests/SwitchStatementSuppressorTests.cs:51-60 | `OneOf<int, bool>` with `case int:`/`case bool:` is suppressed without `case null:` |
| Scenarios.StatementAllVariantsSuppressed | OneOfDiagnosticSuppressor.Tests/SwitchStatementSuppressorTests.cs:62-71 | `OneOf<int, string>` with `case int:`/`case string:` is suppressed |
| Scenarios.StatementThisValueSuppressed | OneOfDiagnosticSuppressor.Tests/CodeHelper.cs:53-63 | `switch (this.Value)` inside a `OneOfBase<int, string>` subclass with `case int:`/`case string:` is suppressed |
| Scenarios.StatementNestedValueSourceSuppressed | OneOfDiagnosticSuppressor.Tests/SwitchStatementSuppressorTests.cs:73-107 | `switch (wrapper.Inner.Inner.Value)` over a `OneOfBase<int, string>` subclass is suppressed |
| Scenarios.StatementNullableValueTypeWithoutCaseNull | OneOfDiagnosticSuppressor.Tests/SwitchStatementSuppressorTests.cs:109-118 | `OneOf<int?, string>` without `case null:` is not suppressed |
| Scenarios.StatementNullableReferenceTypeWithoutCaseNull | OneOfDiagnosticSuppressor.Tests/SwitchStatementSuppressorTests.cs:120-129 | `OneOf<int, string?>` without `case null:` is not suppressed |
| Scenarios.StatementNullableValueTypeWithCaseNull | OneOfDiagnosticSuppressor.Tests/SwitchStatementSuppressorTests.cs:131-141 | `OneOf<int?, string>` with `case null:` is suppressed, the type pattern in `case int:` covering `int?` |
| Scenarios.StatementNullableReferenceTypeWithCaseNull | OneOfDiagnosticSuppressor.Tests/SwitchStatementSuppressorTests.cs:143-153 | `OneOf<int, string?>` with `case null:` is suppressed |
| Scenarios.CaseLabelDoesNotStripNullable | OneOfDiagnosticSuppressor/SwitchStatementSuppressor.cs:126-127 | a constant label naming a type, `case Int32:`, does not cover `int?` (no Nullable stripping), whereas the type pattern in `case int:` does |

## Left out

- The Roslyn plumbing (syntax trees, `FindNode`, semantic models, compilations, `CancellationToken`) is represented by the `Host` parameter and by the diagnostic's located node; `ReportSuppression` is modelled by returning the list of suppressions.
- The `SupportedSuppressions` property and the justification text of each descriptor are not modelled; they carry no decision.
- SwitchExpressionSuppressor.HandleDiagnostic: when the located node contains no switch expression, the source dereferences null (`FirstOrDefault()` at SwitchExpressionSuppressor.cs:43); the model returns no suppression instead of a crash.
- SwitchExpressionSuppressor.FirstSwitchExpression: a switch statement node is a leaf, so switch expressions nested inside a switch statement are not searched.
- OneOfSwitchee.AsOneOfSymbol: a type without a containing assembly (a null dereference in the source) is not represented; every type symbol has an assembly name.
- PatternHelper.TypeToBeMatched: only strips `Nullable<T>` when it has exactly one type argument, which always holds for `Nullable<T>` in C#.
- Host functions are keyed by the syntax value (with positions), not by node identity in a tree; two nodes with equal kind, text and position would be indistinguishable.
- ExpressionHelper is modelled on its own; neither suppressor calls it, so parentheses and `await` around the value source are not recognised by the suppressors.
- SwitchExpressionSuppressor.ShouldSuppress: uses the corrected pattern classifier, so it does not suppress where the code, through the positional-clause oversight under "## Findings", does (an arm `Point(0, 0) { }` over `OneOf<Point>`); on arms without positional clauses the two agree (`PatternHelper.AsWrittenAgreesWithoutPositionalClause`).
- SwitchStatementSuppressor.ShouldSuppress: the same divergence for `case Point(0, 0) { }:` labels, and the same agreement on labels without positional clauses.
- The C# parser is not modelled: the scenarios take `int` after `case` or before `=>` to be a type pattern, and `case Int32:` to be a constant label.
- Literals and keyword types carry no position; the host never needs to tell two occurrences of them apart.
- PatternHelper.HandlesAsNonNullableTypeWithoutRestrictions: like the rule as written, the corrected rule does not check a nested pattern's own type test (`T { P: Derived { } }` is accepted though it rejects every `T` whose `P` is not a `Derived`) nor the null case of a nested declaration (`{ P: string s }` is accepted though it rejects a null `P`); a nested declaration only needs the implicit conversion from the property's type.
- Concurrency, logging and registration of the analyzers are out of scope.

## Findings

| source | as written | input that shows it | evidently intended | confidence | as-written member | corrected member |
|---|---|---|---|---|---|---|
| OneOfDiagnosticSuppressor/PatternHelper.cs:55-56 | a recursive pattern is non-restrictive when its property clause exists and all property sub-patterns are non-restrictive; the positional clause is never examined | arm `Point(0, 0) { }` against variant `Point`: accepted as covering every `Point` although `(0, 0)` tests the deconstructed values | positional sub-patterns must also be non-restrictive | high, not executed | PatternHelper.PositionalClauseIgnoredAsWritten | PatternHelper.HandlesAsNonNullableTypeWithoutRestrictions |

The suppressors in this model use the corrected rule. The rule as written is
kept as `PatternHelper.HandlesAsNonNullableTypeWithoutRestrictionsAsWritten`,
and `PatternHelper.CorrectedClassifierIsStricter` shows that the correction
only withdraws coverage.
