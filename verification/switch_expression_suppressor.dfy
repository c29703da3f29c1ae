/**
 * Suppresses CS8509 / IDE0072 ("the switch expression does not handle all
 * possible values") on `x.Value switch { ... }` when every variant type of
 * the OneOf union is matched by a guard-free arm that the source's rule deems
 * unrestricted, and the null case is matched when some variant may be null.
 */
module SwitchExpressionSuppressor {
  import opened Wrappers
  import opened Symbols
  import opened Syntax
  import opened OneOfSwitchee
  import PatternHelper

  const SuppressedDiagnosticIds: seq<string> := ["CS8509", "IDE0072"]
  const SuppressionId := "ONEOFSUPP001"

  /** SuppressionDescriptorByDiagnosticId: one descriptor per handled id, all with the same suppression id. */
  function DescriptorFor(diagnosticId: string): (r: SuppressionDescriptor)
    ensures r.id == SuppressionId && r.suppressedDiagnosticId == diagnosticId
  {
    SuppressionDescriptor(SuppressionId, diagnosticId)
  }

  /**
   * The switch expressions of `node` and its descendants, in pre-order, as
   * far as the modelled syntax reaches: switch expression and switch
   * statement nodes are leaves. A switch expression nested in another comes
   * after it in pre-order, so leaving it out never changes the first one.
   */
  function SwitchExpressionsOf(node: SyntaxNode): seq<SwitchExpression>
    decreases node, 1
  {
    match node
    case SwitchExpressionNode(e) => [e]
    case SwitchStatementNode(_) => []
    case OtherNode(_) => SwitchExpressionsAmong(node, 0)
  }

  /** The switch expressions of `node.children[i..]`, child after child. */
  function SwitchExpressionsAmong(node: SyntaxNode, i: nat): seq<SwitchExpression>
    requires node.OtherNode? && i <= |node.children|
    decreases node, 0, |node.children| - i
  {
    if i == |node.children| then []
    else SwitchExpressionsOf(node.children[i]) + SwitchExpressionsAmong(node, i + 1)
  }

  /** `node.DescendantNodesAndSelf().OfType<SwitchExpressionSyntax>().FirstOrDefault()`: the first in pre-order. */
  function FirstSwitchExpression(node: SyntaxNode): (r: Option<SwitchExpression>)
    ensures r == if SwitchExpressionsOf(node) == [] then None else Some(SwitchExpressionsOf(node)[0])
    ensures node.SwitchExpressionNode? ==> r == Some(node.switchExpression)
    ensures node.SwitchStatementNode? ==> r.None?
    decreases node, 1
  {
    match node
    case SwitchExpressionNode(e) => Some(e)
    case SwitchStatementNode(_) => None
    case OtherNode(_) => FirstAmongChildren(node, 0)
  }

  function FirstAmongChildren(node: SyntaxNode, i: nat): (r: Option<SwitchExpression>)
    requires node.OtherNode? && i <= |node.children|
    ensures r == if SwitchExpressionsAmong(node, i) == [] then None else Some(SwitchExpressionsAmong(node, i)[0])
    decreases node, 0, |node.children| - i
  {
    if i == |node.children| then None
    else
      match FirstSwitchExpression(node.children[i])
      case Some(e) => Some(e)
      case None => FirstAmongChildren(node, i + 1)
  }

  /** HandlesNullCase: an arm without `when` whose pattern is `_` or the `null` literal. */
  predicate HandlesNullCase(a: SwitchExpressionArm)
  {
    && a.whenClause.None?
    && (|| a.pattern.DiscardPattern?
        || (a.pattern.ConstantPattern? && a.pattern.expression.Literal? && a.pattern.expression.tokenValue.None?))
  }

  /** ArmHandlesTypeWithoutRestrictions: an arm without `when` whose pattern covers `t`. */
  predicate ArmHandlesTypeWithoutRestrictions(h: Host, a: SwitchExpressionArm, t: TypeSymbol)
  {
    a.whenClause.None? && PatternHelper.HandlesAsNonNullableTypeWithoutRestrictions(h, a.pattern, t)
  }

  predicate AnyArmHandles(h: Host, arms: seq<SwitchExpressionArm>, t: TypeSymbol)
  {
    exists i | 0 <= i < |arms| :: ArmHandlesTypeWithoutRestrictions(h, arms[i], t)
  }

  /** `subtypes.Where(t => !arms.Any(a => ArmHandlesTypeWithoutRestrictions(a, t)))`, in order. */
  function UnhandledSubtypes(h: Host, subtypes: seq<TypeSymbol>, arms: seq<SwitchExpressionArm>): (r: seq<TypeSymbol>)
    ensures forall t :: t in r <==> t in subtypes && !AnyArmHandles(h, arms, t)
  {
    if subtypes == [] then []
    else
      var rest := UnhandledSubtypes(h, subtypes[1..], arms);
      if AnyArmHandles(h, arms, subtypes[0]) then rest else [subtypes[0]] + rest
  }

  /** The decision HandleDiagnostic takes once the switch expression is found. */
  predicate ShouldSuppress(h: Host, switchExpression: SwitchExpression)
  {
    match ResolveUnion(h, switchExpression.governingExpression)
    case None => false
    case Some(u) =>
      var arms := switchExpression.arms;
      if u.mustHandleNullCase && !(exists i | 0 <= i < |arms| :: HandlesNullCase(arms[i])) then false
      else |UnhandledSubtypes(h, u.subtypes, arms)| == 0
  }

  /**
   * HandleDiagnostic: the suppression reported for one diagnostic, if any.
   * A diagnostic whose node contains no switch expression gets none (the
   * source dereferences null there).
   */
  function HandleDiagnostic(h: Host, diagnostic: Diagnostic): (r: Option<Suppression>)
    ensures r.Some? ==> r.value == Suppression(DescriptorFor(diagnostic.id), diagnostic)
    ensures r.Some? <==>
      && diagnostic.locatedNode.Some?
      && FirstSwitchExpression(diagnostic.locatedNode.value).Some?
      && ShouldSuppress(h, FirstSwitchExpression(diagnostic.locatedNode.value).value)
  {
    match diagnostic.locatedNode
    case None => None
    case Some(node) =>
      match FirstSwitchExpression(node)
      case None => None
      case Some(switchExpression) =>
        if ShouldSuppress(h, switchExpression) then Some(Suppression(DescriptorFor(diagnostic.id), diagnostic))
        else None
  }

  /** What ReportSuppressions reports for a diagnostic: nothing for an id it does not handle. */
  function SuppressionFor(h: Host, diagnostic: Diagnostic): Option<Suppression>
  {
    if diagnostic.id in SuppressedDiagnosticIds then HandleDiagnostic(h, diagnostic) else None
  }

  /** All suppressions reported for `diagnostics`, in order. */
  function Suppressions(h: Host, diagnostics: seq<Diagnostic>): seq<Suppression>
  {
    if diagnostics == [] then []
    else
      var earlier := Suppressions(h, diagnostics[..|diagnostics| - 1]);
      match SuppressionFor(h, diagnostics[|diagnostics| - 1])
      case None => earlier
      case Some(s) => earlier + [s]
  }

  /** ReportSuppressions: visits the reported diagnostics in order and collects what each one yields. */
  method ReportSuppressions(h: Host, reportedDiagnostics: seq<Diagnostic>) returns (reported: seq<Suppression>)
    ensures reported == Suppressions(h, reportedDiagnostics)
    ensures |reported| <= |reportedDiagnostics|
    ensures forall k :: 0 <= k < |reported| ==>
      && reported[k].suppressedDiagnostic in reportedDiagnostics
      && reported[k].suppressedDiagnostic.id in SuppressedDiagnosticIds
      && reported[k].descriptor == DescriptorFor(reported[k].suppressedDiagnostic.id)
      && HandleDiagnostic(h, reported[k].suppressedDiagnostic) == Some(reported[k])
  {
    reported := [];
    for i := 0 to |reportedDiagnostics|
      invariant reported == Suppressions(h, reportedDiagnostics[..i])
    {
      var diagnostic := reportedDiagnostics[i];
      if diagnostic.id in SuppressedDiagnosticIds {
        var suppression := HandleDiagnostic(h, diagnostic);
        if suppression.Some? {
          reported := reported + [suppression.value];
        }
      }
      assert reportedDiagnostics[..i + 1][..i] == reportedDiagnostics[..i];
    }
    assert reportedDiagnostics[..|reportedDiagnostics|] == reportedDiagnostics;
    SuppressionsSound(h, reportedDiagnostics);
  }

  // ---------------------------------------------------------------------
  // Properties

  /** At most one suppression per diagnostic, each for a handled id, with that id's descriptor, and only when HandleDiagnostic decides so. */
  lemma {:induction false} SuppressionsSound(h: Host, diagnostics: seq<Diagnostic>)
    ensures |Suppressions(h, diagnostics)| <= |diagnostics|
    ensures forall k :: 0 <= k < |Suppressions(h, diagnostics)| ==>
      var s := Suppressions(h, diagnostics)[k];
      && s.suppressedDiagnostic in diagnostics
      && s.suppressedDiagnostic.id in SuppressedDiagnosticIds
      && s.descriptor == DescriptorFor(s.suppressedDiagnostic.id)
      && HandleDiagnostic(h, s.suppressedDiagnostic) == Some(s)
  {
    if diagnostics != [] {
      var prefix := diagnostics[..|diagnostics| - 1];
      SuppressionsSound(h, prefix);
      assert forall d :: d in prefix ==> d in diagnostics;
    }
  }

  /**
   * End-to-end soundness: a reported suppression is for a reported diagnostic
   * with a handled id, located at a node holding a switch expression whose
   * switchee resolves to a union with every variant covered by a guard-free arm.
   */
  lemma SuppressedOnlyWhenDecided(h: Host, diagnostics: seq<Diagnostic>, s: Suppression)
    requires s in Suppressions(h, diagnostics)
    ensures s.suppressedDiagnostic in diagnostics && s.suppressedDiagnostic.id in SuppressedDiagnosticIds
    ensures s.suppressedDiagnostic.locatedNode.Some?
    ensures FirstSwitchExpression(s.suppressedDiagnostic.locatedNode.value).Some?
    ensures ShouldSuppress(h, FirstSwitchExpression(s.suppressedDiagnostic.locatedNode.value).value)
    ensures var switchExpression := FirstSwitchExpression(s.suppressedDiagnostic.locatedNode.value).value;
            && ResolveUnion(h, switchExpression.governingExpression).Some?
            && forall t | t in ResolveUnion(h, switchExpression.governingExpression).value.subtypes ::
                 AnyArmHandles(h, switchExpression.arms, t)
  {
    SuppressionsSound(h, diagnostics);
    var k :| 0 <= k < |Suppressions(h, diagnostics)| && Suppressions(h, diagnostics)[k] == s;
    var switchExpression := FirstSwitchExpression(s.suppressedDiagnostic.locatedNode.value).value;
    ShouldSuppressIff(h, switchExpression);
  }

  /** Completeness: a handled diagnostic whose switch expression passes the decision is suppressed. */
  lemma {:induction false} DecidedIsSuppressed(h: Host, diagnostics: seq<Diagnostic>, d: Diagnostic)
    requires d in diagnostics && d.id in SuppressedDiagnosticIds
    requires d.locatedNode.Some? && FirstSwitchExpression(d.locatedNode.value).Some?
    requires ShouldSuppress(h, FirstSwitchExpression(d.locatedNode.value).value)
    ensures Suppression(DescriptorFor(d.id), d) in Suppressions(h, diagnostics)
  {
    var prefix := diagnostics[..|diagnostics| - 1];
    assert diagnostics == prefix + [diagnostics[|diagnostics| - 1]];
    if d != diagnostics[|diagnostics| - 1] {
      DecidedIsSuppressed(h, prefix, d);
    }
  }

  /** A diagnostic with any other id is never suppressed. */
  lemma {:induction false} OtherIdsNeverSuppressed(h: Host, diagnostics: seq<Diagnostic>)
    requires forall i :: 0 <= i < |diagnostics| ==> diagnostics[i].id !in SuppressedDiagnosticIds
    ensures Suppressions(h, diagnostics) == []
  {
    if diagnostics != [] {
      OtherIdsNeverSuppressed(h, diagnostics[..|diagnostics| - 1]);
    }
  }

  /**
   * Soundness and completeness of the decision: a switch expression is
   * suppressed exactly when its switchee resolves to a union, the null case
   * is matched by some arm when required, and every variant is matched by a
   * guard-free arm without restrictions.
   */
  lemma ShouldSuppressIff(h: Host, switchExpression: SwitchExpression)
    ensures ShouldSuppress(h, switchExpression) <==>
      && ResolveUnion(h, switchExpression.governingExpression).Some?
      && var u := ResolveUnion(h, switchExpression.governingExpression).value;
         var arms := switchExpression.arms;
         && (u.mustHandleNullCase ==> exists i | 0 <= i < |arms| :: HandlesNullCase(arms[i]))
         && forall t | t in u.subtypes ::
              exists i | 0 <= i < |arms| ::
                arms[i].whenClause.None? && PatternHelper.HandlesAsNonNullableTypeWithoutRestrictions(h, arms[i].pattern, t)
  {
    if ResolveUnion(h, switchExpression.governingExpression).Some? {
      var u := ResolveUnion(h, switchExpression.governingExpression).value;
      var unhandled := UnhandledSubtypes(h, u.subtypes, switchExpression.arms);
      if |unhandled| != 0 {
        assert unhandled[0] in unhandled;
      }
    }
  }

  /** An arm with a `when` clause never counts for a variant, whatever its pattern. */
  lemma GuardedArmNeverCovers(h: Host, a: SwitchExpressionArm, t: TypeSymbol)
    requires a.whenClause.Some?
    ensures !ArmHandlesTypeWithoutRestrictions(h, a, t)
  {
  }

  /** Adding arms never withdraws a suppression. */
  lemma MoreArmsKeepSuppression(h: Host, governing: Expr, arms: seq<SwitchExpressionArm>, more: seq<SwitchExpressionArm>)
    requires ShouldSuppress(h, SwitchExpression(governing, arms))
    ensures ShouldSuppress(h, SwitchExpression(governing, arms + more))
  {
    ShouldSuppressIff(h, SwitchExpression(governing, arms));
    ShouldSuppressIff(h, SwitchExpression(governing, arms + more));
    var all := arms + more;
    assert forall i | 0 <= i < |arms| :: all[i] == arms[i];
  }

  /** A variant that no guard-free arm covers prevents the suppression. */
  lemma UncoveredVariantPreventsSuppression(h: Host, switchExpression: SwitchExpression, u: UnionView, t: TypeSymbol)
    requires ResolveUnion(h, switchExpression.governingExpression) == Some(u)
    requires t in u.subtypes
    requires forall i | 0 <= i < |switchExpression.arms| ::
      !PatternHelper.HandlesAsNonNullableTypeWithoutRestrictions(h, switchExpression.arms[i].pattern, t)
    ensures !ShouldSuppress(h, switchExpression)
  {
    ShouldSuppressIff(h, switchExpression);
  }

  /** With a nullable variant slot, no suppression without a `_` or `null` arm. */
  lemma MissingNullArmPreventsSuppression(h: Host, switchExpression: SwitchExpression, u: UnionView)
    requires ResolveUnion(h, switchExpression.governingExpression) == Some(u)
    requires u.mustHandleNullCase
    requires forall i | 0 <= i < |switchExpression.arms| :: !HandlesNullCase(switchExpression.arms[i])
    ensures !ShouldSuppress(h, switchExpression)
  {
  }
}
