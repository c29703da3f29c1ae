/**
 * Decides whether one arm pattern matches a variant type "without
 * restrictions" by the source's rule: the type it checks is implied by the
 * variant type, and no nested sub-pattern is of a kind the rule counts as
 * narrowing what it matches.
 */
module PatternHelper {
  import opened Wrappers
  import opened Symbols
  import opened Syntax

  /**
   * The syntax node naming the type an arm pattern tests: the name of a
   * constant pattern written as an identifier or member access (a type
   * name parses that way), or the type of a type, declaration or recursive
   * pattern. None for shapes that test no type.
   */
  function TypeSource(p: Pattern): (r: Option<Expr>)
    ensures p.DiscardPattern? || p.VarPattern? || p.OtherPattern? ==> r.None?
    ensures p.ConstantPattern? && !(p.expression.MemberAccess? || p.expression.NameExpr?) ==> r.None?
    ensures p.RecursivePattern? ==> r == p.recursiveType
    ensures p.TypePattern? ==> r == Some(p.typeSyntax)
    ensures p.DeclarationPattern? ==> r == Some(p.typeSyntax)
    ensures p.ConstantPattern? && p.expression.MemberAccess? ==> r == Some(NameExpr(p.expression.memberName))
    ensures p.ConstantPattern? && p.expression.NameExpr? ==>
      r == if p.expression.name.IdentifierName? then Some(p.expression) else None
  {
    match p
    case ConstantPattern(e) =>
      (match e
       case MemberAccess(_, name) => Some(NameExpr(name))
       case NameExpr(IdentifierName(_, _)) => Some(e)
       case _ => None)
    case TypePattern(t) => Some(t)
    case DeclarationPattern(t, _) => Some(t)
    case RecursivePattern(t, _, _) => t
    case _ => None
  }

  /** A variant of type `Nullable<T>` is matched as `T`; every other variant as itself. */
  function TypeToBeMatched(t: TypeSymbol): (r: TypeSymbol)
    ensures t.isNullableOfT && |t.typeArguments| == 1 ==> r == t.typeArguments[0]
    ensures !t.isNullableOfT ==> r == t
  {
    if t.isNullableOfT && |t.typeArguments| == 1 then t.typeArguments[0] else t
  }

  /**
   * A declaration sub-pattern `Name: T x` restricts nothing when `Name` is a
   * property whose declared type converts implicitly to the named type `T`.
   */
  function IsDeclarationPatternNonRestrictive(h: Host, typeSyntax: Expr, nameColon: Option<SimpleName>): (r: bool)
    ensures r <==>
      && AsNamedType(h.symbolInfo(typeSyntax)).Some?
      && nameColon.Some? && nameColon.value.IdentifierName?
      && h.symbolInfo(NameExpr(nameColon.value)).Some?
      && h.symbolInfo(NameExpr(nameColon.value)).value.PropertySym?
      && h.hasImplicitConversion(h.symbolInfo(NameExpr(nameColon.value)).value.propertyType,
                                 AsNamedType(h.symbolInfo(typeSyntax)).value)
  {
    match AsNamedType(h.symbolInfo(typeSyntax))
    case None => false
    case Some(declaredType) =>
      match nameColon
      case Some(IdentifierName(_, _)) =>
        (match h.symbolInfo(NameExpr(nameColon.value))
         case Some(PropertySym(propertyType)) => h.hasImplicitConversion(propertyType, declaredType)
         case _ => false)
      case _ => false
  }

  /**
   * A sub-pattern restricts nothing when it is `var`, a recursive pattern
   * that restricts nothing (its own type is not consulted), or a declaration
   * pattern as above. Constants, discards, relational patterns, ... restrict.
   */
  function IsSubpatternNonRestrictive(h: Host, sp: Subpattern): bool
    decreases sp, 1
  {
    match sp.pattern
    case VarPattern(_) => true
    case RecursivePattern(_, _, _) => IsRecursivePatternNonRestrictive(h, sp.pattern)
    case DeclarationPattern(t, _) => IsDeclarationPatternNonRestrictive(h, t, sp.nameColon)
    case _ => false
  }

  /**
   * A recursive pattern restricts nothing when it has a property clause
   * (`{ }` counts) and every sub-pattern of its property clause and of its
   * positional clause, if any, restricts nothing.
   */
  function IsRecursivePatternNonRestrictive(h: Host, p: Pattern): bool
    requires p.RecursivePattern?
    decreases p, 0
  {
    && p.propertyClause.Present?
    && (forall i | 0 <= i < |p.propertyClause.subpatterns| :: IsSubpatternNonRestrictive(h, p.propertyClause.subpatterns[i]))
    && (p.positionalClause.Present? ==>
          forall i | 0 <= i < |p.positionalClause.subpatterns| :: IsSubpatternNonRestrictive(h, p.positionalClause.subpatterns[i]))
  }

  /**
   * HandlesAsNonNullableTypeWithoutRestrictions: by the source's rule,
   * pattern `p` matches variant `t` (as non-nullable) without restrictions.
   * A positive answer always means the pattern's type resolves to a named
   * type that `t` converts to.
   */
  function HandlesAsNonNullableTypeWithoutRestrictions(h: Host, p: Pattern, t: TypeSymbol): (r: bool)
    ensures r ==>
      && TypeSource(p).Some?
      && AsNamedType(h.symbolInfo(TypeSource(p).value)).Some?
      && h.hasImplicitConversion(TypeToBeMatched(t), AsNamedType(h.symbolInfo(TypeSource(p).value)).value)
    ensures r && p.RecursivePattern? ==> p.propertyClause.Present?
  {
    match TypeSource(p)
    case None => false
    case Some(typeSource) =>
      match AsNamedType(h.symbolInfo(typeSource))
      case None => false
      case Some(namedType) =>
        var matchedTypeIsSubtype := h.hasImplicitConversion(TypeToBeMatched(t), namedType);
        if p.RecursivePattern? then matchedTypeIsSubtype && IsRecursivePatternNonRestrictive(h, p)
        else matchedTypeIsSubtype
  }

  // ---------------------------------------------------------------------
  // Properties of the classifier

  /** Discards, `var`, constants that are not names (such as literals) and recursive patterns without a type cover no variant. */
  lemma ShapesWithoutTypeNeverCover(h: Host, p: Pattern, t: TypeSymbol)
    requires || p.DiscardPattern? || p.VarPattern? || p.OtherPattern?
             || (p.ConstantPattern? && !(p.expression.MemberAccess? || p.expression.NameExpr?))
             || (p.RecursivePattern? && p.recursiveType.None?)
    ensures !HandlesAsNonNullableTypeWithoutRestrictions(h, p, t)
  {
  }

  /** A pattern whose type syntax does not resolve to a named type covers no variant. */
  lemma UnresolvedTypeNeverCovers(h: Host, p: Pattern, t: TypeSymbol)
    requires TypeSource(p).Some? && AsNamedType(h.symbolInfo(TypeSource(p).value)).None?
    ensures !HandlesAsNonNullableTypeWithoutRestrictions(h, p, t)
  {
  }

  /** For constant, type and declaration patterns the verdict is exactly the implicit conversion from the (Nullable-stripped) variant. */
  lemma SimplePatternCoversIffConversion(h: Host, p: Pattern, t: TypeSymbol, namedType: TypeSymbol)
    requires p.ConstantPattern? || p.TypePattern? || p.DeclarationPattern?
    requires TypeSource(p).Some? && AsNamedType(h.symbolInfo(TypeSource(p).value)) == Some(namedType)
    ensures HandlesAsNonNullableTypeWithoutRestrictions(h, p, t) == h.hasImplicitConversion(TypeToBeMatched(t), namedType)
  {
  }

  /** `Nullable<T>` is covered by exactly the patterns that cover `T`. */
  lemma NullableVariantCoveredAsUnderlying(h: Host, p: Pattern, t: TypeSymbol)
    requires t.isNullableOfT && |t.typeArguments| == 1
    requires !t.typeArguments[0].isNullableOfT  // C# has no Nullable<Nullable<T>>
    ensures HandlesAsNonNullableTypeWithoutRestrictions(h, p, t)
            == HandlesAsNonNullableTypeWithoutRestrictions(h, p, t.typeArguments[0])
  {
  }

  // ---------------------------------------------------------------------
  // A reference definition: every node of the sub-pattern tree is harmless

  /** One step into a recursive pattern: the i-th sub-pattern of its property or of its positional clause. */
  datatype Step = Property(i: nat) | Positional(i: nat)

  function ChildAt(p: Pattern, step: Step): (r: Option<Subpattern>)
    ensures r.Some? ==> p.RecursivePattern?
  {
    if !p.RecursivePattern? then None
    else
      var clause := if step.Property? then p.propertyClause else p.positionalClause;
      if clause.Present? && step.i < |clause.subpatterns| then Some(clause.subpatterns[step.i]) else None
  }

  /** The sub-pattern reached from `p` by following a non-empty path of steps, if the path exists. */
  function SubpatternAt(p: Pattern, path: seq<Step>): Option<Subpattern>
    requires path != []
    decreases |path|
  {
    match ChildAt(p, path[0])
    case None => None
    case Some(sp) => if |path| == 1 then Some(sp) else SubpatternAt(sp.pattern, path[1..])
  }

  /** A single sub-pattern node that the source's rule treats as narrowing nothing by itself. */
  ghost predicate Harmless(h: Host, sp: Subpattern)
  {
    match sp.pattern
    case VarPattern(_) => true
    case RecursivePattern(_, _, properties) => properties.Present?
    case DeclarationPattern(t, _) => IsDeclarationPatternNonRestrictive(h, t, sp.nameColon)
    case _ => false
  }

  /** A recursive pattern all of whose reachable sub-patterns are harmless. */
  ghost predicate EveryNodeHarmless(h: Host, p: Pattern)
  {
    && p.RecursivePattern?
    && p.propertyClause.Present?
    && forall path | path != [] && SubpatternAt(p, path).Some? :: Harmless(h, SubpatternAt(p, path).value)
  }

  lemma SubpatternAtCons(p: Pattern, step: Step, path: seq<Step>)
    requires path != [] && ChildAt(p, step).Some?
    ensures SubpatternAt(p, [step] + path) == SubpatternAt(ChildAt(p, step).value.pattern, path)
  {
    assert ([step] + path)[0] == step;
    assert ([step] + path)[1..] == path;
  }

  /** The recursive rule agrees with the tree-wide reference definition, in both directions. */
  lemma {:induction false} RecursiveNonRestrictiveIffEveryNodeHarmless(h: Host, p: Pattern)
    requires p.RecursivePattern?
    ensures IsRecursivePatternNonRestrictive(h, p) <==> EveryNodeHarmless(h, p)
    decreases p
  {
    if IsRecursivePatternNonRestrictive(h, p) {
      forall path | path != [] && SubpatternAt(p, path).Some?
        ensures Harmless(h, SubpatternAt(p, path).value)
      {
        var step := path[0];
        var sp := ChildAt(p, step).value;
        ChildIsNonRestrictive(h, p, step);
        if |path| == 1 {
          assert SubpatternAt(p, path) == Some(sp);
        } else {
          assert SubpatternAt(p, path) == SubpatternAt(sp.pattern, path[1..]);
          assert ChildAt(sp.pattern, path[1..][0]).Some?;
          if step.Property? {
            RecursiveNonRestrictiveIffEveryNodeHarmless(h, p.propertyClause.subpatterns[step.i].pattern);
          } else {
            RecursiveNonRestrictiveIffEveryNodeHarmless(h, p.positionalClause.subpatterns[step.i].pattern);
          }
        }
      }
    }
    if EveryNodeHarmless(h, p) {
      forall step | ChildAt(p, step).Some?
        ensures IsSubpatternNonRestrictive(h, ChildAt(p, step).value)
      {
        var sp := ChildAt(p, step).value;
        assert SubpatternAt(p, [step]) == Some(sp);
        if sp.pattern.RecursivePattern? {
          forall path | path != [] && SubpatternAt(sp.pattern, path).Some?
            ensures Harmless(h, SubpatternAt(sp.pattern, path).value)
          {
            SubpatternAtCons(p, step, path);
          }
          if step.Property? {
            RecursiveNonRestrictiveIffEveryNodeHarmless(h, p.propertyClause.subpatterns[step.i].pattern);
          } else {
            RecursiveNonRestrictiveIffEveryNodeHarmless(h, p.positionalClause.subpatterns[step.i].pattern);
          }
        }
      }
      AllChildrenNonRestrictive(h, p);
    }
  }

  lemma ChildIsNonRestrictive(h: Host, p: Pattern, step: Step)
    requires p.RecursivePattern? && IsRecursivePatternNonRestrictive(h, p) && ChildAt(p, step).Some?
    ensures IsSubpatternNonRestrictive(h, ChildAt(p, step).value)
  {
  }

  lemma AllChildrenNonRestrictive(h: Host, p: Pattern)
    requires p.RecursivePattern? && p.propertyClause.Present?
    requires forall step | ChildAt(p, step).Some? :: IsSubpatternNonRestrictive(h, ChildAt(p, step).value)
    ensures IsRecursivePatternNonRestrictive(h, p)
  {
    forall i | 0 <= i < |p.propertyClause.subpatterns|
      ensures IsSubpatternNonRestrictive(h, p.propertyClause.subpatterns[i])
    {
      assert ChildAt(p, Property(i)) == Some(p.propertyClause.subpatterns[i]);
    }
    if p.positionalClause.Present? {
      forall i | 0 <= i < |p.positionalClause.subpatterns|
        ensures IsSubpatternNonRestrictive(h, p.positionalClause.subpatterns[i])
      {
        assert ChildAt(p, Positional(i)) == Some(p.positionalClause.subpatterns[i]);
      }
    }
  }

  /**
   * The whole classifier against the reference definition: a pattern covers
   * `t` iff its type resolves to a named type that `t` converts to and, for a
   * recursive pattern, every node of its sub-pattern tree is harmless.
   */
  lemma CoversIffConversionAndHarmlessTree(h: Host, p: Pattern, t: TypeSymbol)
    ensures HandlesAsNonNullableTypeWithoutRestrictions(h, p, t) <==>
      && TypeSource(p).Some?
      && AsNamedType(h.symbolInfo(TypeSource(p).value)).Some?
      && h.hasImplicitConversion(TypeToBeMatched(t), AsNamedType(h.symbolInfo(TypeSource(p).value)).value)
      && (p.RecursivePattern? ==> EveryNodeHarmless(h, p))
  {
    if p.RecursivePattern? {
      RecursiveNonRestrictiveIffEveryNodeHarmless(h, p);
    }
  }

  // ---------------------------------------------------------------------
  // The recursive rule as the source writes it: the positional clause is never looked at

  function IsSubpatternNonRestrictiveAsWritten(h: Host, sp: Subpattern): bool
    decreases sp, 1
  {
    match sp.pattern
    case VarPattern(_) => true
    case RecursivePattern(_, _, _) => IsRecursivePatternNonRestrictiveAsWritten(h, sp.pattern)
    case DeclarationPattern(t, _) => IsDeclarationPatternNonRestrictive(h, t, sp.nameColon)
    case _ => false
  }

  function IsRecursivePatternNonRestrictiveAsWritten(h: Host, p: Pattern): bool
    requires p.RecursivePattern?
    decreases p, 0
  {
    && p.propertyClause.Present?
    && forall i | 0 <= i < |p.propertyClause.subpatterns| :: IsSubpatternNonRestrictiveAsWritten(h, p.propertyClause.subpatterns[i])
  }

  function HandlesAsNonNullableTypeWithoutRestrictionsAsWritten(h: Host, p: Pattern, t: TypeSymbol): (r: bool)
    ensures r ==>
      && TypeSource(p).Some?
      && AsNamedType(h.symbolInfo(TypeSource(p).value)).Some?
      && h.hasImplicitConversion(TypeToBeMatched(t), AsNamedType(h.symbolInfo(TypeSource(p).value)).value)
    ensures r && p.RecursivePattern? ==> p.propertyClause.Present?
  {
    match TypeSource(p)
    case None => false
    case Some(typeSource) =>
      match AsNamedType(h.symbolInfo(typeSource))
      case None => false
      case Some(namedType) =>
        var matchedTypeIsSubtype := h.hasImplicitConversion(TypeToBeMatched(t), namedType);
        if p.RecursivePattern? then matchedTypeIsSubtype && IsRecursivePatternNonRestrictiveAsWritten(h, p)
        else matchedTypeIsSubtype
  }

  /** A path that steps into property clauses only: the part of the tree the rule as written visits. */
  predicate PropertyPath(path: seq<Step>)
  {
    forall k | 0 <= k < |path| :: path[k].Property?
  }

  /** A recursive pattern all of whose sub-patterns reachable through property clauses are harmless. */
  ghost predicate EveryPropertyNodeHarmless(h: Host, p: Pattern)
  {
    && p.RecursivePattern?
    && p.propertyClause.Present?
    && forall path | path != [] && PropertyPath(path) && SubpatternAt(p, path).Some? :: Harmless(h, SubpatternAt(p, path).value)
  }

  /**
   * The recursive rule as written agrees with the reference definition
   * restricted to property paths: positional sub-patterns, at any depth, are
   * never consulted.
   */
  lemma {:induction false} RecursiveAsWrittenIffEveryPropertyNodeHarmless(h: Host, p: Pattern)
    requires p.RecursivePattern?
    ensures IsRecursivePatternNonRestrictiveAsWritten(h, p) <==> EveryPropertyNodeHarmless(h, p)
    decreases p
  {
    if IsRecursivePatternNonRestrictiveAsWritten(h, p) {
      forall path | path != [] && PropertyPath(path) && SubpatternAt(p, path).Some?
        ensures Harmless(h, SubpatternAt(p, path).value)
      {
        var step := path[0];
        var sp := ChildAt(p, step).value;
        assert sp == p.propertyClause.subpatterns[step.i];
        assert IsSubpatternNonRestrictiveAsWritten(h, sp);
        if sp.pattern.RecursivePattern? {
          assert IsRecursivePatternNonRestrictiveAsWritten(h, sp.pattern);
        }
        if |path| == 1 {
          assert SubpatternAt(p, path) == Some(sp);
        } else {
          assert SubpatternAt(p, path) == SubpatternAt(sp.pattern, path[1..]);
          assert ChildAt(sp.pattern, path[1..][0]).Some?;
          var rest: seq<Step> := path[1..];
          forall k | 0 <= k < |rest| ensures rest[k].Property? {
            assert rest[k] == path[k + 1];
          }
          assert PropertyPath(rest);
          RecursiveAsWrittenIffEveryPropertyNodeHarmless(h, p.propertyClause.subpatterns[step.i].pattern);
        }
      }
    }
    if EveryPropertyNodeHarmless(h, p) {
      forall i | 0 <= i < |p.propertyClause.subpatterns|
        ensures IsSubpatternNonRestrictiveAsWritten(h, p.propertyClause.subpatterns[i])
      {
        var sp := p.propertyClause.subpatterns[i];
        assert ChildAt(p, Property(i)) == Some(sp);
        assert PropertyPath([Property(i)]);
        assert SubpatternAt(p, [Property(i)]) == Some(sp);
        if sp.pattern.RecursivePattern? {
          forall path | path != [] && PropertyPath(path) && SubpatternAt(sp.pattern, path).Some?
            ensures Harmless(h, SubpatternAt(sp.pattern, path).value)
          {
            SubpatternAtCons(p, Property(i), path);
            var full: seq<Step> := [Property(i)] + path;
            forall k | 0 <= k < |full| ensures full[k].Property? {
              if k > 0 {
                assert full[k] == path[k - 1];
              }
            }
            assert PropertyPath(full);
          }
          RecursiveAsWrittenIffEveryPropertyNodeHarmless(h, p.propertyClause.subpatterns[i].pattern);
        }
      }
    }
  }

  /**
   * The classifier the program runs, characterised: a pattern covers `t` iff
   * its type resolves to a named type the variant converts to and, for a
   * recursive pattern, every node reachable through property clauses is harmless.
   */
  lemma CoversAsWrittenIffConversionAndHarmlessPropertyTree(h: Host, p: Pattern, t: TypeSymbol)
    ensures HandlesAsNonNullableTypeWithoutRestrictionsAsWritten(h, p, t) <==>
      && TypeSource(p).Some?
      && AsNamedType(h.symbolInfo(TypeSource(p).value)).Some?
      && h.hasImplicitConversion(TypeToBeMatched(t), AsNamedType(h.symbolInfo(TypeSource(p).value)).value)
      && (p.RecursivePattern? ==> EveryPropertyNodeHarmless(h, p))
  {
    if p.RecursivePattern? {
      RecursiveAsWrittenIffEveryPropertyNodeHarmless(h, p);
    }
  }

  /** A pattern in which no recursive pattern, at any depth, has a positional clause. */
  ghost predicate NoPositionalClause(p: Pattern)
  {
    && (p.RecursivePattern? ==> p.positionalClause.Absent?)
    && forall path | path != [] && SubpatternAt(p, path).Some? ::
         SubpatternAt(p, path).value.pattern.RecursivePattern? ==> SubpatternAt(p, path).value.pattern.positionalClause.Absent?
  }

  /** Without positional clauses, every existing path is a property path. */
  lemma {:induction false} OnlyPropertyPathsWithoutPositionalClause(p: Pattern, path: seq<Step>)
    requires NoPositionalClause(p)
    requires path != [] && SubpatternAt(p, path).Some?
    ensures PropertyPath(path)
    decreases |path|
  {
    var step := path[0];
    var sp := ChildAt(p, step).value;
    assert step.Property?;
    if |path| > 1 {
      var rest: seq<Step> := path[1..];
      assert SubpatternAt(p, path) == SubpatternAt(sp.pattern, rest);
      assert NoPositionalClause(sp.pattern) by {
        assert SubpatternAt(p, [step]) == Some(sp);
        forall q | q != [] && SubpatternAt(sp.pattern, q).Some?
          ensures SubpatternAt(sp.pattern, q).value.pattern.RecursivePattern? ==>
                  SubpatternAt(sp.pattern, q).value.pattern.positionalClause.Absent?
        {
          SubpatternAtCons(p, step, q);
        }
      }
      OnlyPropertyPathsWithoutPositionalClause(sp.pattern, rest);
      forall k | 0 <= k < |path| ensures path[k].Property? {
        if k > 0 {
          assert path[k] == rest[k - 1];
        }
      }
    }
  }

  /** On patterns without positional clauses the corrected classifier and the one as written agree. */
  lemma AsWrittenAgreesWithoutPositionalClause(h: Host, p: Pattern, t: TypeSymbol)
    requires NoPositionalClause(p)
    ensures HandlesAsNonNullableTypeWithoutRestrictionsAsWritten(h, p, t) == HandlesAsNonNullableTypeWithoutRestrictions(h, p, t)
  {
    CoversIffConversionAndHarmlessTree(h, p, t);
    CoversAsWrittenIffConversionAndHarmlessPropertyTree(h, p, t);
    if p.RecursivePattern? && EveryPropertyNodeHarmless(h, p) {
      forall path | path != [] && SubpatternAt(p, path).Some?
        ensures Harmless(h, SubpatternAt(p, path).value)
      {
        OnlyPropertyPathsWithoutPositionalClause(p, path);
      }
    }
  }

  /** The corrected rule only ever withdraws coverage: whatever it accepts, the rule as written accepts too. */
  lemma {:induction false} CorrectedRecursiveRuleIsStricter(h: Host, p: Pattern)
    requires p.RecursivePattern? && IsRecursivePatternNonRestrictive(h, p)
    ensures IsRecursivePatternNonRestrictiveAsWritten(h, p)
    decreases p
  {
    forall i | 0 <= i < |p.propertyClause.subpatterns|
      ensures IsSubpatternNonRestrictiveAsWritten(h, p.propertyClause.subpatterns[i])
    {
      assert IsSubpatternNonRestrictive(h, p.propertyClause.subpatterns[i]);
      if p.propertyClause.subpatterns[i].pattern.RecursivePattern? {
        CorrectedRecursiveRuleIsStricter(h, p.propertyClause.subpatterns[i].pattern);
      }
    }
  }

  lemma CorrectedClassifierIsStricter(h: Host, p: Pattern, t: TypeSymbol)
    ensures HandlesAsNonNullableTypeWithoutRestrictions(h, p, t) ==> HandlesAsNonNullableTypeWithoutRestrictionsAsWritten(h, p, t)
  {
    if HandlesAsNonNullableTypeWithoutRestrictions(h, p, t) && p.RecursivePattern? {
      CorrectedRecursiveRuleIsStricter(h, p);
    }
  }

  /**
   * `Point(0, 0) { }` against a variant `Point`: the rule as written counts
   * the arm as covering every Point although its positional sub-pattern `0`
   * is a constant test; the corrected rule does not.
   */
  lemma PositionalClauseIgnoredAsWritten(point: TypeSymbol)
    requires point.isNamedType && !point.isNullableOfT
    ensures var pointName := NameExpr(IdentifierName("Point", 0));
            var h := Host(e => None,
                          e => if e == pointName then Some(TypeSym(point)) else None,
                          (a, b) => a == b);
            var zero := Subpattern(None, ConstantPattern(Literal(Some("0"))));
            var arm := RecursivePattern(Some(pointName), Present([zero, zero]), Present([]));
            && HandlesAsNonNullableTypeWithoutRestrictionsAsWritten(h, arm, point)
            && !HandlesAsNonNullableTypeWithoutRestrictions(h, arm, point)
            && SubpatternAt(arm, [Positional(0)]).Some? && !Harmless(h, SubpatternAt(arm, [Positional(0)]).value)
  {
    var pointName := NameExpr(IdentifierName("Point", 0));
    var h := Host(e => None,
                  e => if e == pointName then Some(TypeSym(point)) else None,
                  (a, b) => a == b);
    var zero := Subpattern(None, ConstantPattern(Literal(Some("0"))));
    var arm := RecursivePattern(Some(pointName), Present([zero, zero]), Present([]));
    assert !IsSubpatternNonRestrictive(h, arm.positionalClause.subpatterns[0]);
    assert ChildAt(arm, Positional(0)) == Some(zero);
  }
}
