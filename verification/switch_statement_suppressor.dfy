/**
 * Suppresses IDE0010 ("populate switch") on `switch (x.Value) { ... }` when
 * every variant type of the OneOf union is covered by some section, and a
 * `case null:` label exists when some variant may be null.
 */
module SwitchStatementSuppressor {
  import opened Wrappers
  import opened Symbols
  import opened Syntax
  import opened OneOfSwitchee
  import PatternHelper

  const SuppressedDiagnosticIds: seq<string> := ["IDE0010"]
  const SuppressionId := "ONEOFSUPP002"

  function DescriptorFor(diagnosticId: string): (r: SuppressionDescriptor)
    ensures r.id == SuppressionId && r.suppressedDiagnosticId == diagnosticId
  {
    SuppressionDescriptor(SuppressionId, diagnosticId)
  }

  /** LabelHandlesNullCase: only `case null:`; `default:` and `case _:` do not count. */
  predicate LabelHandlesNullCase(l: SwitchLabel)
  {
    l.CaseSwitchLabel? && l.value.Literal? && l.value.tokenValue.None?
  }

  predicate SectionHandlesNullCase(s: SwitchSection)
  {
    exists i | 0 <= i < |s.labels| :: LabelHandlesNullCase(s.labels[i])
  }

  /** CaseSwitchLabelHandlesTypeWithoutRestriction: `case T:` with `T` a named type that `t` converts to (no Nullable stripping). */
  predicate CaseSwitchLabelHandlesTypeWithoutRestriction(h: Host, value: Expr, t: TypeSymbol)
  {
    AsNamedType(h.symbolInfo(value)).Some? && h.hasImplicitConversion(t, AsNamedType(h.symbolInfo(value)).value)
  }

  /**
   * LabelHandlesTypeWithoutRestriction, by label kind: `case T:` covers a
   * variant that itself (not stripped of Nullable) converts to the named
   * type `T` resolves to; an unguarded pattern label covers what the pattern
   * rule accepts; `default:` and guarded pattern labels never cover.
   */
  function LabelHandlesTypeWithoutRestriction(h: Host, l: SwitchLabel, t: TypeSymbol): (r: bool)
    ensures r ==> !l.DefaultSwitchLabel? && !(l.CasePatternSwitchLabel? && l.whenClause.Some?)
    ensures l.CaseSwitchLabel? ==>
      (r <==> AsNamedType(h.symbolInfo(l.value)).Some? && h.hasImplicitConversion(t, AsNamedType(h.symbolInfo(l.value)).value))
    ensures l.CasePatternSwitchLabel? && l.whenClause.None? ==>
      r == PatternHelper.HandlesAsNonNullableTypeWithoutRestrictions(h, l.pattern, t)
  {
    match l
    case CaseSwitchLabel(value) => CaseSwitchLabelHandlesTypeWithoutRestriction(h, value, t)
    case CasePatternSwitchLabel(pattern, None) => PatternHelper.HandlesAsNonNullableTypeWithoutRestrictions(h, pattern, t)
    case _ => false
  }

  /** SectionHandlesTypeWithoutRestrictions: one of the section's labels covers `t`. */
  predicate SectionHandlesTypeWithoutRestrictions(h: Host, s: SwitchSection, t: TypeSymbol)
  {
    exists i | 0 <= i < |s.labels| :: LabelHandlesTypeWithoutRestriction(h, s.labels[i], t)
  }

  predicate AnySectionHandles(h: Host, sections: seq<SwitchSection>, t: TypeSymbol)
  {
    exists i | 0 <= i < |sections| :: SectionHandlesTypeWithoutRestrictions(h, sections[i], t)
  }

  /** `subtypes.Where(t => !sections.Any(s => SectionHandlesTypeWithoutRestrictions(s, t)))`, in order. */
  function UnhandledSubtypes(h: Host, subtypes: seq<TypeSymbol>, sections: seq<SwitchSection>): (r: seq<TypeSymbol>)
    ensures forall t :: t in r <==> t in subtypes && !AnySectionHandles(h, sections, t)
  {
    if subtypes == [] then []
    else
      var rest := UnhandledSubtypes(h, subtypes[1..], sections);
      if AnySectionHandles(h, sections, subtypes[0]) then rest else [subtypes[0]] + rest
  }

  predicate ShouldSuppress(h: Host, switchStatement: SwitchStatement)
  {
    match ResolveUnion(h, switchStatement.expression)
    case None => false
    case Some(u) =>
      var sections := switchStatement.sections;
      if u.mustHandleNullCase && !(exists i | 0 <= i < |sections| :: SectionHandlesNullCase(sections[i])) then false
      else |UnhandledSubtypes(h, u.subtypes, sections)| == 0
  }

  /** HandleDiagnostic: the located node must itself be a switch statement. */
  function HandleDiagnostic(h: Host, diagnostic: Diagnostic): (r: Option<Suppression>)
    ensures r.Some? ==> r.value == Suppression(DescriptorFor(diagnostic.id), diagnostic)
    ensures r.Some? <==>
      && diagnostic.locatedNode.Some?
      && diagnostic.locatedNode.value.SwitchStatementNode?
      && ShouldSuppress(h, diagnostic.locatedNode.value.switchStatement)
  {
    match diagnostic.locatedNode
    case Some(SwitchStatementNode(switchStatement)) =>
      if ShouldSuppress(h, switchStatement) then Some(Suppression(DescriptorFor(diagnostic.id), diagnostic)) else None
    case _ => None
  }

  function SuppressionFor(h: Host, diagnostic: Diagnostic): Option<Suppression>
  {
    if diagnostic.id in SuppressedDiagnosticIds then HandleDiagnostic(h, diagnostic) else None
  }

  function Suppressions(h: Host, diagnostics: seq<Diagnostic>): seq<Suppression>
  {
    if diagnostics == [] then []
    else
      var earlier := Suppressions(h, diagnostics[..|diagnostics| - 1]);
      match SuppressionFor(h, diagnostics[|diagnostics| - 1])
      case None => earlier
      case Some(s) => earlier + [s]
  }

  /** ReportSuppressions: visits the reported diagnostics in order and collects what each one yields. */
  method ReportSuppressions(h: Host, reportedDiagnostics: seq<Diagnostic>) returns (reported: seq<Suppression>)
    ensures reported == Suppressions(h, reportedDiagnostics)
    ensures |reported| <= |reportedDiagnostics|
    ensures forall k :: 0 <= k < |reported| ==>
      && reported[k].suppressedDiagnostic in reportedDiagnostics
      && reported[k].suppressedDiagnostic.id == "IDE0010"
      && reported[k].descriptor == SuppressionDescriptor(SuppressionId, "IDE0010")
      && HandleDiagnostic(h, reported[k].suppressedDiagnostic) == Some(reported[k])
  {
    reported := [];
    for i := 0 to |reportedDiagnostics|
      invariant reported == Suppressions(h, reportedDiagnostics[..i])
    {
      var diagnostic := reportedDiagnostics[i];
      if diagnostic.id in SuppressedDiagnosticIds {
        var suppression := HandleDiagnostic(h, diagnostic);
        if suppression.Some? {
          reported := reported + [suppression.value];
        }
      }
      assert reportedDiagnostics[..i + 1][..i] == reportedDiagnostics[..i];
    }
    assert reportedDiagnostics[..|reportedDiagnostics|] == reportedDiagnostics;
    SuppressionsSound(h, reportedDiagnostics);
  }

  // ---------------------------------------------------------------------
  // Properties

  lemma {:induction false} SuppressionsSound(h: Host, diagnostics: seq<Diagnostic>)
    ensures |Suppressions(h, diagnostics)| <= |diagnostics|
    ensures forall k :: 0 <= k < |Suppressions(h, diagnostics)| ==>
      var s := Suppressions(h, diagnostics)[k];
      && s.suppressedDiagnostic in diagnostics
      && s.suppressedDiagnostic.id in SuppressedDiagnosticIds
      && s.descriptor == DescriptorFor(s.suppressedDiagnostic.id)
      && HandleDiagnostic(h, s.suppressedDiagnostic) == Some(s)
  {
    if diagnostics != [] {
      var prefix := diagnostics[..|diagnostics| - 1];
      SuppressionsSound(h, prefix);
      assert forall d :: d in prefix ==> d in diagnostics;
    }
  }

  /**
   * End-to-end soundness: a reported suppression is for a reported IDE0010
   * diagnostic located at a switch statement whose switchee resolves to a
   * union with every variant covered by some section.
   */
  lemma SuppressedOnlyWhenDecided(h: Host, diagnostics: seq<Diagnostic>, s: Suppression)
    requires s in Suppressions(h, diagnostics)
    ensures s.suppressedDiagnostic in diagnostics && s.suppressedDiagnostic.id in SuppressedDiagnosticIds
    ensures s.suppressedDiagnostic.locatedNode.Some? && s.suppressedDiagnostic.locatedNode.value.SwitchStatementNode?
    ensures ShouldSuppress(h, s.suppressedDiagnostic.locatedNode.value.switchStatement)
    ensures var switchStatement := s.suppressedDiagnostic.locatedNode.value.switchStatement;
            && ResolveUnion(h, switchStatement.expression).Some?
            && forall t | t in ResolveUnion(h, switchStatement.expression).value.subtypes ::
                 AnySectionHandles(h, switchStatement.sections, t)
  {
    SuppressionsSound(h, diagnostics);
    var k :| 0 <= k < |Suppressions(h, diagnostics)| && Suppressions(h, diagnostics)[k] == s;
    ShouldSuppressIff(h, s.suppressedDiagnostic.locatedNode.value.switchStatement);
  }

  /** Completeness: a handled diagnostic located at a switch statement that passes the decision is suppressed. */
  lemma {:induction false} DecidedIsSuppressed(h: Host, diagnostics: seq<Diagnostic>, d: Diagnostic)
    requires d in diagnostics && d.id in SuppressedDiagnosticIds
    requires d.locatedNode.Some? && d.locatedNode.value.SwitchStatementNode?
    requires ShouldSuppress(h, d.locatedNode.value.switchStatement)
    ensures Suppression(DescriptorFor(d.id), d) in Suppressions(h, diagnostics)
  {
    var prefix := diagnostics[..|diagnostics| - 1];
    assert diagnostics == prefix + [diagnostics[|diagnostics| - 1]];
    if d != diagnostics[|diagnostics| - 1] {
      DecidedIsSuppressed(h, prefix, d);
    }
  }

  /**
   * Soundness and completeness of the decision: suppressed exactly when the
   * switchee resolves to a union, a `case null:` label exists when required,
   * and every variant is covered by some section.
   */
  lemma ShouldSuppressIff(h: Host, switchStatement: SwitchStatement)
    ensures ShouldSuppress(h, switchStatement) <==>
      && ResolveUnion(h, switchStatement.expression).Some?
      && var u := ResolveUnion(h, switchStatement.expression).value;
         var sections := switchStatement.sections;
         && (u.mustHandleNullCase ==>
               exists i, j | 0 <= i < |sections| && 0 <= j < |sections[i].labels| ::
                 sections[i].labels[j] == CaseSwitchLabel(Literal(None)))
         && forall t | t in u.subtypes ::
              exists i, j | 0 <= i < |sections| && 0 <= j < |sections[i].labels| ::
                LabelHandlesTypeWithoutRestriction(h, sections[i].labels[j], t)
  {
    if ResolveUnion(h, switchStatement.expression).Some? {
      var u := ResolveUnion(h, switchStatement.expression).value;
      var unhandled := UnhandledSubtypes(h, u.subtypes, switchStatement.sections);
      if |unhandled| != 0 {
        assert unhandled[0] in unhandled;
      }
    }
  }

  /** A located node that is not itself a switch statement yields no suppression. */
  lemma OnlySwitchStatementNodes(h: Host, diagnostic: Diagnostic)
    requires diagnostic.locatedNode.None? || !diagnostic.locatedNode.value.SwitchStatementNode?
    ensures HandleDiagnostic(h, diagnostic).None?
  {
  }

  /** A section consisting only of `default:` and `case _:` labels never handles the null case. */
  lemma DefaultAndDiscardDoNotHandleNull(s: SwitchSection)
    requires forall i | 0 <= i < |s.labels| ::
      s.labels[i] == DefaultSwitchLabel || s.labels[i] == CasePatternSwitchLabel(DiscardPattern, None)
    ensures !SectionHandlesNullCase(s)
  {
  }
}
