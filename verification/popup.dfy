/**
 * The popup's own state and the operations that change it: construction,
 * `handleComponentChange`, `validateForm`, and `handleSubmit` as a state
 * machine whose callback outcome is an input.
 */
module Popup {
  import opened Wrappers
  import opened JsText
  import opened Model
  import opened Scanner
  import opened Conditions
  import opened Validation

  /** The fields of a `DynamicPopup` that the engine reads and writes. */
  datatype Popup = Popup(
    popupId: string,
    content: ParsedContent,
    responses: Responses,
    componentErrors: map<string, bool>,
    isSubmitting: bool,
    hasValidationErrors: bool,
    firstInvalidComponentId: Option<string>,
    dialogClosed: bool)
  {
    function Components(): seq<Field> {
      content.components
    }
  }

  /** Every component has an entry in the response store and in the error flags. */
  predicate Covered(p: Popup) {
    Ids(p.Components()) <= p.responses.Keys && Ids(p.Components()) <= p.componentErrors.Keys
  }

  /** The constructor: parse the content, then seed the store with the type defaults. */
  function NewPopup(popupId: string, markdownContent: string, freshIds: nat -> string): (p: Popup)
    ensures p.content == ParseMarkdown(markdownContent, freshIds)
    ensures Covered(p)
    ensures !p.isSubmitting && !p.hasValidationErrors && p.firstInvalidComponentId.None? && !p.dialogClosed
  {
    var content := ParseMarkdown(markdownContent, freshIds);
    var (responses, errors) := InitializeResponses(content.components, map[], map[]);
    Popup(popupId, content, responses, errors, false, false, None, false)
  }

  /** A new popup holds each component's type default and no error. */
  lemma NewPopupStore(popupId: string, markdownContent: string, freshIds: nat -> string)
    ensures var p := NewPopup(popupId, markdownContent, freshIds);
      var cs := p.Components();
      && (forall i :: 0 <= i < |cs| && LastWithId(cs, i) ==> p.responses[cs[i].id] == DefaultValue(cs[i]))
      && (forall k :: k in p.componentErrors ==> !p.componentErrors[k])
  {
    var content := ParseMarkdown(markdownContent, freshIds);
    InitializedValues(content.components, map[], map[]);
  }

  /**
   * `handleComponentChange`: store the value, clear the field's error flag
   * and the form-level error state. The component id is not checked.
   */
  function HandleComponentChange(p: Popup, componentId: string, value: Value): (q: Popup)
    ensures Lookup(q.responses, componentId) == value
    ensures forall k :: k != componentId ==> Lookup(q.responses, k) == Lookup(p.responses, k)
    ensures componentId in q.componentErrors && !q.componentErrors[componentId]
    ensures forall k :: k != componentId && k in p.componentErrors ==> k in q.componentErrors && q.componentErrors[k] == p.componentErrors[k]
    ensures !q.hasValidationErrors && q.firstInvalidComponentId.None?
    ensures q.content == p.content && q.isSubmitting == p.isSubmitting && q.dialogClosed == p.dialogClosed
    ensures Covered(p) ==> Covered(q)
  {
    p.(responses := p.responses[componentId := value],
       componentErrors := p.componentErrors[componentId := false],
       hasValidationErrors := false,
       firstInvalidComponentId := None)
  }

  /** A change to one field leaves the visibility and requiredness of fields that do not depend on it as they were. */
  lemma ChangeKeepsOthers(p: Popup, componentId: string, value: Value, f: Field)
    requires f.conditionalLogic.Some? ==> f.conditionalLogic.value.dependsOn != componentId
    ensures var q := HandleComponentChange(p, componentId, value);
      IsComponentVisible(q.responses, f) == IsComponentVisible(p.responses, f)
      && IsComponentRequired(q.responses, f) == IsComponentRequired(p.responses, f)
  {
    var q := HandleComponentChange(p, componentId, value);
    if f.conditionalLogic.Some? {
      VisibleReadsOnlyDependency(q.responses, p.responses, f);
    }
  }

  /**
   * `validateForm`: check the visible components, merge their flags into
   * the error map, and record the verdict and the first invalid id.
   */
  function ValidateForm(p: Popup): (r: (bool, Popup))
    ensures r.0 <==> forall i :: 0 <= i < |p.Components()| ==> !Fails(p.responses, p.Components()[i])
    ensures r.0 <==> r.1.firstInvalidComponentId.None?
    ensures r.1.firstInvalidComponentId.Some? ==>
      exists i :: 0 <= i < |p.Components()| && FirstFailure(p.responses, p.Components(), i)
        && p.Components()[i].id == r.1.firstInvalidComponentId.value
    ensures r.1.hasValidationErrors == !r.0
    ensures r.1.responses == p.responses && r.1.content == p.content
    ensures r.1.isSubmitting == p.isSubmitting && r.1.dialogClosed == p.dialogClosed
  {
    var c := CheckAll(p.responses, p.Components());
    CheckValid(p.responses, p.Components());
    CheckFirstInvalid(p.responses, p.Components());
    (c.valid, p.(componentErrors := p.componentErrors + c.newErrors,
                 hasValidationErrors := !c.valid,
                 firstInvalidComponentId := c.firstInvalid))
  }

  /**
   * Validation writes an error flag for exactly the visible components and
   * leaves the flags of hidden ones as they were, so every component keeps
   * its entry.
   */
  lemma ValidateFormErrors(p: Popup)
    ensures var q := ValidateForm(p).1;
      && q.componentErrors.Keys == p.componentErrors.Keys + VisibleIds(p.responses, p.Components())
      && (forall k :: k in p.componentErrors && k !in VisibleIds(p.responses, p.Components()) ==>
            q.componentErrors[k] == p.componentErrors[k])
      && (Covered(p) ==> Covered(q))
  {
    CheckErrors(p.responses, p.Components());
  }

  /** A visible component's flag after validation says whether it failed, when no later visible component shares its id. */
  lemma ValidateFormFlags(p: Popup, i: nat)
    requires i < |p.Components()|
    requires IsComponentVisible(p.responses, p.Components()[i]) && LastVisibleWithId(p.responses, p.Components(), i)
    ensures p.Components()[i].id in ValidateForm(p).1.componentErrors
      && ValidateForm(p).1.componentErrors[p.Components()[i].id] == !Passes(p.responses, p.Components()[i])
  {
    CheckErrors(p.responses, p.Components());
  }

  /** When component `i` is the earliest failure, validation rejects the form and names that component. */
  lemma ValidateNamesFirstFailure(p: Popup, i: nat)
    requires i < |p.Components()| && FirstFailure(p.responses, p.Components(), i)
    ensures !ValidateForm(p).0
    ensures ValidateForm(p).1.firstInvalidComponentId == Some(p.Components()[i].id)
  {
    var r := ValidateForm(p);
    var cs := p.Components();
    assert Fails(p.responses, cs[i]);
    var j :| 0 <= j < |cs| && FirstFailure(p.responses, cs, j) && cs[j].id == r.1.firstInvalidComponentId.value;
    FirstFailureUnique(p.responses, cs, i, j);
  }

  /** Validating twice in a row gives the same verdict and state as validating once. */
  lemma ValidateFormIdempotent(p: Popup)
    ensures ValidateForm(ValidateForm(p).1) == ValidateForm(p)
  {
    var q := ValidateForm(p).1;
    var c := CheckAll(p.responses, p.Components());
    assert CheckAll(q.responses, q.Components()) == c;
    assert q.componentErrors + c.newErrors == q.componentErrors;
  }

  // ---------------------------------------------------------------------
  // Submission

  /** `prepareValueForApi`: a checkbox's array is sent joined by `,`; everything else as it is. */
  function PrepareValueForApi(f: Field, v: Value): (r: Value)
    ensures f.kind != Checkbox || !v.List? ==> r == v
    ensures f.kind == Checkbox && v.List? ==> r.Str?
  {
    if f.kind == Checkbox && v.List? then Str(Join(v.items, ',')) else v
  }

  /** A checkbox selection whose option values have no comma is recovered from what is sent. */
  lemma PreparedCheckboxRoundTrip(f: Field, items: seq<string>)
    requires f.kind == Checkbox && |items| > 0
    requires forall k :: 0 <= k < |items| ==> ',' !in items[k]
    ensures Split(PrepareValueForApi(f, List(items)).s, ',') == items
  {
    SplitJoin(items, ',');
  }

  /** The empty selection and a selection of one empty value are sent alike. */
  lemma PreparedEmptyIsAmbiguous(f: Field)
    requires f.kind == Checkbox
    ensures PrepareValueForApi(f, List([])) == PrepareValueForApi(f, List([""])) == Str("")
  {
  }

  /** The `responseData` handed to the completion callback, without its timestamp. */
  datatype Payload = Payload(popupId: string, responses: map<string, Value>, wasCompleted: bool)

  /** What the payload holds for one component: its stored value, prepared. */
  function Entry(responses: Responses, f: Field): Value {
    PrepareValueForApi(f, Lookup(responses, f.id))
  }

  /** The payload entries: every component, visible or not, in order, so a later duplicate id overwrites. */
  function PayloadResponses(cs: seq<Field>, responses: Responses, acc: map<string, Value>): (r: map<string, Value>)
    ensures r.Keys == acc.Keys + Ids(cs)
    decreases |cs|
  {
    if cs == [] then acc
    else
      IdsCons(cs);
      PayloadResponses(cs[1..], responses, acc[cs[0].id := Entry(responses, cs[0])])
  }

  /** Each component's entry is its prepared stored value, when no later component shares its id. */
  lemma {:induction false} PayloadValues(cs: seq<Field>, responses: Responses, acc: map<string, Value>)
    ensures var r := PayloadResponses(cs, responses, acc);
      && (forall i :: 0 <= i < |cs| && LastWithId(cs, i) ==> r[cs[i].id] == Entry(responses, cs[i]))
      && (forall k :: k in acc && k !in Ids(cs) ==> r[k] == acc[k])
    decreases |cs|
  {
    if cs != [] {
      var acc' := acc[cs[0].id := Entry(responses, cs[0])];
      PayloadValues(cs[1..], responses, acc');
      IdsCons(cs);
      LastWithIdCons(cs);
      var r := PayloadResponses(cs, responses, acc);
      assert r == PayloadResponses(cs[1..], responses, acc');
      forall i | 0 <= i < |cs| && LastWithId(cs, i)
        ensures r[cs[i].id] == Entry(responses, cs[i])
      {
        if i > 0 {
          assert cs[1..][i - 1] == cs[i];
        }
      }
    }
  }

  function BuildPayload(p: Popup): (d: Payload)
    ensures d.popupId == p.popupId && d.wasCompleted
    ensures d.responses.Keys == Ids(p.Components())
  {
    Payload(p.popupId, PayloadResponses(p.Components(), p.responses, map[]), true)
  }

  /** What a submit attempt did: nothing, stopped at validation, or handed a payload to the callback. */
  datatype SubmitStep = Skipped | Rejected | Sent(payload: Payload)

  /** How the completion callback ended: normally, or by throwing. */
  datatype Outcome = Completed | Threw

  /**
   * The part of `handleSubmit` before the callback: a no-op while a submit
   * is in flight; otherwise validate, and on success mark the popup as
   * submitting and build the payload.
   */
  function BeginSubmit(p: Popup): (r: (Popup, SubmitStep))
    ensures p.isSubmitting ==> r.0 == p && r.1 == Skipped
    ensures !p.isSubmitting ==> (r.1.Rejected? <==> !ValidateForm(p).0)
    ensures r.1.Rejected? ==> r.0 == ValidateForm(p).1
    ensures r.1.Sent? ==> r.0.isSubmitting && ValidateForm(p).0 && r.1.payload == BuildPayload(p)
  {
    if p.isSubmitting then (p, Skipped)
    else
      var (ok, q) := ValidateForm(p);
      if !ok then (q, Rejected)
      else (q.(isSubmitting := true), Sent(BuildPayload(q)))
  }

  /**
   * The part after the callback: a normal return closes the dialog, a throw
   * leaves it open with an error message; either way the popup is no
   * longer submitting.
   */
  function FinishSubmit(p: Popup, outcome: Outcome): (q: Popup)
    ensures !q.isSubmitting
    ensures q.dialogClosed <==> p.dialogClosed || outcome == Completed
    ensures q.responses == p.responses && q.componentErrors == p.componentErrors && q.content == p.content
  {
    p.(isSubmitting := false, dialogClosed := p.dialogClosed || outcome == Completed)
  }

  /** `handleSubmit` run to completion, with the callback ending as `outcome`. */
  function HandleSubmit(p: Popup, outcome: Outcome): (r: (Popup, SubmitStep))
    ensures !p.isSubmitting ==> !r.0.isSubmitting
    ensures r.1.Sent? ==> ValidateForm(p).0
    ensures r.0.dialogClosed ==> p.dialogClosed || (r.1.Sent? && outcome == Completed)
    ensures r.0.responses == p.responses
  {
    var (q, step) := BeginSubmit(p);
    if step.Sent? then (FinishSubmit(q, outcome), step) else (q, step)
  }

  /** A second submit while the first awaits its callback does nothing. */
  lemma SubmitGuard(p: Popup)
    requires BeginSubmit(p).1.Sent?
    ensures BeginSubmit(BeginSubmit(p).0).0 == BeginSubmit(p).0 && BeginSubmit(BeginSubmit(p).0).1 == Skipped
  {
  }

  /** The payload names every component, not only the visible ones, each with its prepared value. */
  lemma SubmittedPayload(p: Popup, outcome: Outcome, i: nat)
    requires HandleSubmit(p, outcome).1.Sent?
    requires i < |p.Components()| && LastWithId(p.Components(), i)
    ensures var d := HandleSubmit(p, outcome).1.payload;
      var f := p.Components()[i];
      f.id in d.responses && d.responses[f.id] == PrepareValueForApi(f, Lookup(p.responses, f.id))
  {
    PayloadValues(p.Components(), p.responses, map[]);
  }
}
