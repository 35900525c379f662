/**
 * A stand-in for the two calls the discovery filter makes into the
 * Kubernetes label library: turning a label selector specification into an
 * evaluable selector (metav1.LabelSelectorAsSelector) and evaluating a
 * selector against a label set (labels.Selector.Matches).
 *
 * A specification is a map of required key/value pairs plus a list of match
 * expressions over the operators In, NotIn, Exists and DoesNotExist; it may
 * also be absent (a nil pointer), which compiles to a selector that matches
 * nothing. The requirements of one selector are AND-combined.
 */
module Labels {
  import opened Wrappers

  type LabelSet = map<string, string>

  /** One entry of matchExpressions, as written in configuration. */
  datatype SelectorExpr = SelectorExpr(key: string, operator: string, values: seq<string>)

  /** The configuration form of a selector. */
  datatype LabelSelector = LabelSelector(matchLabels: map<string, string>, matchExpressions: seq<SelectorExpr>)

  datatype Operator = In | NotIn | Exists | DoesNotExist

  datatype Requirement = Requirement(key: string, op: Operator, values: set<string>)

  /** A compiled selector: the empty selector, or a conjunction of requirements. */
  datatype Selector =
    | Nothing
    | Conjunction(equalities: map<string, string>, requirements: seq<Requirement>)

  /** The selector that matches every label set. */
  const Everything: Selector := Conjunction(map[], [])

  // ---------------------------------------------------------------------
  // Syntax of label keys and values
  // ---------------------------------------------------------------------

  predicate IsAlphaNumeric(c: char) {
    ('a' <= c <= 'z') || ('A' <= c <= 'Z') || ('0' <= c <= '9')
  }

  predicate IsNameChar(c: char) {
    IsAlphaNumeric(c) || c == '-' || c == '_' || c == '.'
  }

  /** A label name: 1 to 63 characters, alphanumeric at both ends. */
  predicate IsLabelName(s: string) {
    0 < |s| <= 63 && IsAlphaNumeric(s[0]) && IsAlphaNumeric(s[|s| - 1]) &&
    forall i :: 0 <= i < |s| ==> IsNameChar(s[i])
  }

  predicate IsPrefixChar(c: char) {
    ('a' <= c <= 'z') || ('0' <= c <= '9') || c == '-' || c == '.'
  }

  /** A key prefix: a lower-case DNS-style name of at most 253 characters. */
  predicate IsKeyPrefix(p: string) {
    0 < |p| <= 253 && p[0] != '-' && p[0] != '.' && p[|p| - 1] != '-' && p[|p| - 1] != '.' &&
    forall i :: 0 <= i < |p| ==> IsPrefixChar(p[i])
  }

  /** A label key: a name, optionally preceded by a prefix and a slash. */
  predicate IsLabelKey(k: string) {
    IsLabelName(k) ||
    exists i :: 0 < i < |k| && k[i] == '/' && IsKeyPrefix(k[..i]) && IsLabelName(k[i + 1..])
  }

  /** A label value: empty, or a label name. */
  predicate IsLabelValue(v: string) {
    v == "" || IsLabelName(v)
  }

  // ---------------------------------------------------------------------
  // Meaning of a specification, independent of compilation
  // ---------------------------------------------------------------------

  predicate ExprWellFormed(e: SelectorExpr) {
    IsLabelKey(e.key) &&
    (forall i :: 0 <= i < |e.values| ==> IsLabelValue(e.values[i])) &&
    (if e.operator == "In" || e.operator == "NotIn" then |e.values| > 0
     else if e.operator == "Exists" || e.operator == "DoesNotExist" then |e.values| == 0
     else false)
  }

  /** A specification the library accepts: an absent one, or one whose keys, values and expressions are valid. */
  predicate SpecWellFormed(spec: Option<LabelSelector>) {
    match spec
    case None => true
    case Some(sel) =>
      (forall k :: k in sel.matchLabels ==> IsLabelKey(k) && IsLabelValue(sel.matchLabels[k])) &&
      (forall i :: 0 <= i < |sel.matchExpressions| ==> ExprWellFormed(sel.matchExpressions[i]))
  }

  predicate ExprHolds(e: SelectorExpr, ls: LabelSet) {
    if e.operator == "In" then e.key in ls && ls[e.key] in e.values
    else if e.operator == "NotIn" then e.key !in ls || ls[e.key] !in e.values
    else if e.operator == "Exists" then e.key in ls
    else if e.operator == "DoesNotExist" then e.key !in ls
    else false
  }

  /** What a specification selects: an absent one nothing, otherwise every label set meeting all its constraints. */
  predicate SpecSelects(spec: Option<LabelSelector>, ls: LabelSet) {
    match spec
    case None => false
    case Some(sel) =>
      (forall k :: k in sel.matchLabels ==> k in ls && ls[k] == sel.matchLabels[k]) &&
      (forall i :: 0 <= i < |sel.matchExpressions| ==> ExprHolds(sel.matchExpressions[i], ls))
  }

  // ---------------------------------------------------------------------
  // Evaluation of compiled selectors
  // ---------------------------------------------------------------------

  predicate RequirementMatches(r: Requirement, ls: LabelSet) {
    match r.op
    case In => r.key in ls && ls[r.key] in r.values
    case NotIn => r.key !in ls || ls[r.key] !in r.values
    case Exists => r.key in ls
    case DoesNotExist => r.key !in ls
  }

  /**
   * The empty selector matches nothing; a conjunction matches when each
   * required pair is present and each requirement holds.
   */
  predicate Matches(s: Selector, ls: LabelSet) {
    match s
    case Nothing => false
    case Conjunction(eq, reqs) =>
      (forall k :: k in eq ==> k in ls && ls[k] == eq[k]) &&
      (forall i :: 0 <= i < |reqs| ==> RequirementMatches(reqs[i], ls))
  }

  /**
   * Requirements are AND-combined: a conjunction over r1 + r2 matches exactly
   * when the conjunction over r1 and the one over r2 alone both match.
   */
  lemma {:induction false} ConjunctionSplits(eq: map<string, string>, r1: seq<Requirement>, r2: seq<Requirement>, ls: LabelSet)
    ensures Matches(Conjunction(eq, r1 + r2), ls) <==>
            Matches(Conjunction(eq, r1), ls) && Matches(Conjunction(map[], r2), ls)
  {
    var rs := r1 + r2;
    assert forall i :: 0 <= i < |r1| ==> rs[i] == r1[i];
    assert forall i :: 0 <= i < |r2| ==> rs[|r1| + i] == r2[i];
  }

  /**
   * A conjunction matches exactly when its equalities alone match and every
   * requirement, taken as a one-requirement selector, matches.
   */
  lemma {:induction false} EachRequirementAlone(eq: map<string, string>, reqs: seq<Requirement>, ls: LabelSet)
    ensures Matches(Conjunction(eq, reqs), ls) <==>
            Matches(Conjunction(eq, []), ls) &&
            forall i :: 0 <= i < |reqs| ==> Matches(Conjunction(map[], [reqs[i]]), ls)
  {
    forall i | 0 <= i < |reqs|
      ensures Matches(Conjunction(map[], [reqs[i]]), ls) <==> RequirementMatches(reqs[i], ls)
    {
      assert [reqs[i]][0] == reqs[i];
    }
  }

  // ---------------------------------------------------------------------
  // Compilation
  // ---------------------------------------------------------------------

  function CompileOperator(op: string): (r: Option<Operator>)
    ensures r.Some? <==> op in {"In", "NotIn", "Exists", "DoesNotExist"}
  {
    if op == "In" then Some(In)
    else if op == "NotIn" then Some(NotIn)
    else if op == "Exists" then Some(Exists)
    else if op == "DoesNotExist" then Some(DoesNotExist)
    else None
  }

  function CompileExpr(e: SelectorExpr): (r: Option<Requirement>)
    ensures r.Some? <==> ExprWellFormed(e)
    ensures r.Some? ==> forall ls :: RequirementMatches(r.value, ls) <==> ExprHolds(e, ls)
  {
    match CompileOperator(e.operator)
    case None => None
    case Some(op) =>
      if !IsLabelKey(e.key) then None
      else if (op == In || op == NotIn) && |e.values| == 0 then None
      else if (op == Exists || op == DoesNotExist) && |e.values| != 0 then None
      else if exists i :: 0 <= i < |e.values| && !IsLabelValue(e.values[i]) then None
      else Some(Requirement(e.key, op, set v | v in e.values))
  }

  /** Compiles the expressions in order; the first malformed one fails the whole list. */
  function CompileExprs(es: seq<SelectorExpr>): (r: Option<seq<Requirement>>)
    ensures r.Some? <==> forall i :: 0 <= i < |es| ==> ExprWellFormed(es[i])
    ensures r.Some? ==> |r.value| == |es| && forall i :: 0 <= i < |es| ==> CompileExpr(es[i]) == Some(r.value[i])
  {
    if es == [] then Some([])
    else
      match CompileExpr(es[0])
      case None => None
      case Some(req) =>
        match CompileExprs(es[1..])
        case None => None
        case Some(rest) => Some([req] + rest)
  }

  /**
   * Compiles one selector specification. An absent specification selects
   * nothing, an empty one everything; otherwise every key, value and
   * expression must be well formed, and the compiled selector means what the
   * specification says.
   */
  function Compile(spec: Option<LabelSelector>): (r: Option<Selector>)
    ensures r.Some? <==> SpecWellFormed(spec)
    ensures spec.None? ==> r == Some(Nothing)
    ensures spec.Some? && |spec.value.matchLabels| == 0 && |spec.value.matchExpressions| == 0 ==> r == Some(Everything)
    ensures r.Some? ==> forall ls :: Matches(r.value, ls) <==> SpecSelects(spec, ls)
  {
    match spec
    case None => Some(Nothing)
    case Some(sel) =>
      if |sel.matchLabels| + |sel.matchExpressions| == 0 then Some(Everything)
      else if !(forall k :: k in sel.matchLabels ==> IsLabelKey(k) && IsLabelValue(sel.matchLabels[k])) then None
      else
        match CompileExprs(sel.matchExpressions)
        case None => None
        case Some(reqs) => Some(Conjunction(sel.matchLabels, reqs))
  }
}
