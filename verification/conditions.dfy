/**
 * The conditional evaluator: `ConditionalLogic.isVisibilityMet` and
 * `isRequiredMet`, and the popup's `isComponentVisible` and
 * `isComponentRequired`, which read the dependency's value from the
 * response store.
 */
module Conditions {
  import opened Wrappers
  import opened JsText
  import opened Model

  /** The four condition kinds the evaluator recognises. */
  datatype ConditionKind = EqualsKind | NotEqualsKind | ContainsKind | NotContainsKind

  /** The `switch` on the condition text: anything unrecognised evaluates as `equals`. */
  function KindOf(condition: string): (k: ConditionKind)
    ensures k == NotEqualsKind <==> condition == "notEquals"
    ensures k == ContainsKind <==> condition == "contains"
    ensures k == NotContainsKind <==> condition == "notContains"
  {
    if condition == "notEquals" then NotEqualsKind
    else if condition == "contains" then ContainsKind
    else if condition == "notContains" then NotContainsKind
    else EqualsKind
  }

  /** `toString` of a stored value that is not null: an array is its items joined by `,`. */
  function JsString(v: Value): string
    requires !v.Null?
  {
    match v
    case Str(s) => s
    case List(items) => Join(items, ',')
  }

  /** `items.some(item => item.toString().toLowerCase() === target.toLowerCase())`. */
  function SomeItemIs(items: seq<string>, target: string): (r: bool)
    ensures r <==> exists i :: 0 <= i < |items| && Lower(items[i]) == Lower(target)
  {
    if items == [] then false
    else if Lower(items[0]) == Lower(target) then true
    else
      var r := SomeItemIs(items[1..], target);
      assert forall i :: 1 <= i < |items| ==> items[i] == items[1..][i - 1];
      r
  }

  /**
   * The comparison of a non-null dependency value with the target of a
   * condition. `equals` and `notEquals` compare lower-cased string forms;
   * `contains` on an array is case-insensitive membership, on anything else
   * a case-sensitive substring test; `notContains` is its negation.
   */
  function Matches(kind: ConditionKind, dep: Value, target: string): bool
    requires !dep.Null?
  {
    match kind
    case EqualsKind => Lower(JsString(dep)) == Lower(target)
    case NotEqualsKind => Lower(JsString(dep)) != Lower(target)
    case ContainsKind =>
      if dep.List? then SomeItemIs(dep.items, target) else Includes(JsString(dep), target)
    case NotContainsKind =>
      if dep.List? then !SomeItemIs(dep.items, target) else !Includes(JsString(dep), target)
  }

  /**
   * `isVisibilityMet`: without a `when-value` the field is always visible;
   * otherwise a null dependency value hides it and the condition decides.
   */
  function IsVisibilityMet(l: ConditionalLogic, dep: Value): (r: bool)
    ensures l.value.None? ==> r
    ensures l.value.Some? && dep.Null? ==> !r
    ensures l.value.Some? && !dep.Null? ==> (r <==> Matches(KindOf(l.condition), dep, l.value.value))
  {
    if l.value.None? then true
    else if dep.Null? then false
    else Matches(KindOf(l.condition), dep, l.value.value)
  }

  /**
   * `isRequiredMet`: the same comparison against `required-when-value`;
   * without one, or with a null dependency value, the condition is not met.
   */
  function IsRequiredMet(l: ConditionalLogic, dep: Value): (r: bool)
    ensures l.requiredWhenValue.None? || dep.Null? ==> !r
    ensures l.requiredWhenValue.Some? && !dep.Null? ==> (r <==> Matches(KindOf(l.condition), dep, l.requiredWhenValue.value))
  {
    if l.requiredWhenValue.None? then false
    else if dep.Null? then false
    else Matches(KindOf(l.condition), dep, l.requiredWhenValue.value)
  }

  /** The response store; a missing key reads as `undefined`, which every caller treats as null. */
  type Responses = map<string, Value>

  function Lookup(responses: Responses, id: string): (v: Value)
    ensures id !in responses ==> v.Null?
    ensures id in responses ==> v == responses[id]
  {
    if id in responses then responses[id] else Null
  }

  /** `isComponentVisible`: a field without conditional logic is always visible. */
  function IsComponentVisible(responses: Responses, f: Field): (r: bool)
    ensures f.conditionalLogic.None? ==> r
    ensures f.conditionalLogic.Some? ==>
      (r <==> IsVisibilityMet(f.conditionalLogic.value, Lookup(responses, f.conditionalLogic.value.dependsOn)))
  {
    match f.conditionalLogic
    case None => true
    case Some(l) => IsVisibilityMet(l, Lookup(responses, l.dependsOn))
  }

  /** Whether a field is required while it is visible, when `required-when-value` is not set. */
  predicate RequiredWhileVisible(f: Field) {
    if f.conditionalLogic.Some? && f.conditionalLogic.value.requiredWhenVisible.Some?
    then f.conditionalLogic.value.requiredWhenVisible.value
    else f.isRequired
  }

  /**
   * `isComponentRequired`, with its three levels: `required-when-value`
   * decides alone when set; otherwise `required-when-visible`, when set,
   * applies while the field is visible; otherwise the static `required`
   * flag applies while the field is visible.
   */
  function IsComponentRequired(responses: Responses, f: Field): (r: bool)
    ensures f.conditionalLogic.Some? && f.conditionalLogic.value.requiredWhenValue.Some? ==>
      (r <==> IsRequiredMet(f.conditionalLogic.value, Lookup(responses, f.conditionalLogic.value.dependsOn)))
    ensures (f.conditionalLogic.None? || f.conditionalLogic.value.requiredWhenValue.None?) ==>
      (r <==> (IsComponentVisible(responses, f) && RequiredWhileVisible(f)))
  {
    if f.conditionalLogic.Some? && f.conditionalLogic.value.requiredWhenValue.Some? then
      var l := f.conditionalLogic.value;
      var dep := Lookup(responses, l.dependsOn);
      !dep.Null? && IsRequiredMet(l, dep)
    else if f.conditionalLogic.Some? && f.conditionalLogic.value.requiredWhenVisible.Some? then
      if IsComponentVisible(responses, f) then f.conditionalLogic.value.requiredWhenVisible.value else false
    else if IsComponentVisible(responses, f) then f.isRequired
    else false
  }

  // ---------------------------------------------------------------------
  // Properties of the evaluator

  /** `notEquals` and `notContains` are the exact negations of `equals` and `contains`. */
  lemma NegatedKinds(dep: Value, target: string)
    requires !dep.Null?
    ensures Matches(NotEqualsKind, dep, target) == !Matches(EqualsKind, dep, target)
    ensures Matches(NotContainsKind, dep, target) == !Matches(ContainsKind, dep, target)
  {
  }

  /** A condition text the switch does not know behaves exactly like `equals`, for visibility and requiredness. */
  lemma UnknownIsEquals(l: ConditionalLogic, dep: Value)
    requires l.condition !in {"equals", "notEquals", "contains", "notContains"}
    ensures IsVisibilityMet(l, dep) == IsVisibilityMet(l.(condition := "equals"), dep)
    ensures IsRequiredMet(l, dep) == IsRequiredMet(l.(condition := "equals"), dep)
  {
  }

  /** Level one ignores the static flag, `required-when-visible` and the visibility target. */
  lemma RequiredByValueIndependent(responses: Responses, f: Field, isRequired: bool,
                                   requiredWhenVisible: Option<bool>, value: Option<string>)
    requires f.conditionalLogic.Some? && f.conditionalLogic.value.requiredWhenValue.Some?
    ensures var g := f.(isRequired := isRequired,
                        conditionalLogic := Some(f.conditionalLogic.value.(requiredWhenVisible := requiredWhenVisible, value := value)));
      IsComponentRequired(responses, g) == IsComponentRequired(responses, f)
  {
  }

  /** Only `required-when-value` can make a hidden field required. */
  lemma HiddenRequiredOnlyByValue(responses: Responses, f: Field)
    requires !IsComponentVisible(responses, f) && IsComponentRequired(responses, f)
    ensures f.conditionalLogic.Some? && f.conditionalLogic.value.requiredWhenValue.Some?
  {
  }

  /** Visibility reads the store only at the dependency's id. */
  lemma VisibleReadsOnlyDependency(r1: Responses, r2: Responses, f: Field)
    requires f.conditionalLogic.Some?
    requires Lookup(r1, f.conditionalLogic.value.dependsOn) == Lookup(r2, f.conditionalLogic.value.dependsOn)
    ensures IsComponentVisible(r1, f) == IsComponentVisible(r2, f)
    ensures IsComponentRequired(r1, f) == IsComponentRequired(r2, f)
  {
  }

  // ---------------------------------------------------------------------
  // Worked cases

  function Rule(dependsOn: string, condition: string, value: string): ConditionalLogic {
    ConditionalLogic(dependsOn, condition, Some(value), true, None, None)
  }

  /** `equals` ignores case; scalar `contains` does not; array `contains` does. */
  lemma CaseSensitivity()
    ensures IsVisibilityMet(Rule("q", "equals", "Yes"), Str("yES"))
    ensures !IsVisibilityMet(Rule("q", "contains", "Yes"), Str("yes please"))
    ensures IsVisibilityMet(Rule("q", "contains", "Yes"), Str("Yes please"))
    ensures IsVisibilityMet(Rule("q", "contains", "Yes"), List(["no", "yes"]))
    ensures IsVisibilityMet(Rule("q", "equals", "A,b"), List(["a", "B"]))
  {
    assert OccursAt("Yes please", "Yes", 0);
    assert !Includes("yes please", "Yes") by {
      forall i: nat | i <= |"yes please"|
        ensures !OccursAt("yes please", "Yes", i)
      {
        if i + 3 <= 10 {
          assert "yes please"[i..i + 3] != "Yes" by {
            assert "yes please"[i..i + 3][0] == "yes please"[i];
          }
        }
      }
    }
    assert Lower(["no", "yes"][1]) == Lower("Yes");
  }

  /**
   * Visibility is not transitive: a field whose dependency is itself hidden
   * is still shown when the dependency's stored value matches.
   */
  lemma NotTransitive()
    ensures var a := Field("a", TextField, "A", false, None, None, None, Some(Rule("gate", "equals", "open")));
      var b := Field("b", TextField, "B", false, None, None, None, Some(Rule("a", "equals", "x")));
      var responses := map["gate" := Str("shut"), "a" := Str("x")];
      !IsComponentVisible(responses, a) && IsComponentVisible(responses, b)
  {
  }
}
