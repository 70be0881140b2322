/**
 * The response store's initial values and the validator: `getDefaultValue`,
 * `initializeResponses`, `validateComponent` and the pass of `validateForm`
 * over the components.
 */
module Validation {
  import opened Wrappers
  import opened JsText
  import opened Model
  import opened Conditions

  /** `getDefaultValue`: the type's empty value. The `default` attribute does not seed the store. */
  function DefaultValue(f: Field): (v: Value)
    ensures f.kind == Checkbox <==> v.List?
    ensures v.List? ==> v.items == []
    ensures f.kind in {TextArea, TextField} <==> v == Str("")
    ensures f.kind in {RadioButton, Dropdown} <==> v.Null?
  {
    match f.kind
    case RadioButton => Null
    case Checkbox => List([])
    case TextArea => Str("")
    case TextField => Str("")
    case Dropdown => Null
  }

  /** The ids of a list of components. */
  function Ids(cs: seq<Field>): (r: set<string>)
    ensures forall i :: 0 <= i < |cs| ==> cs[i].id in r
    ensures forall k :: k in r ==> exists i :: 0 <= i < |cs| && cs[i].id == k
  {
    if cs == [] then {}
    else
      var rest := Ids(cs[1..]);
      assert forall i :: 1 <= i < |cs| ==> cs[i] == cs[1..][i - 1];
      {cs[0].id} + rest
  }

  /** Component `i` is the last one in `cs` with its id, so its entries in a store written in order stay. */
  predicate LastWithId(cs: seq<Field>, i: nat)
    requires i < |cs|
  {
    forall j :: i < j < |cs| ==> cs[j].id != cs[i].id
  }

  /**
   * `initializeResponses`: every component's id gets its type default and a
   * cleared error flag, in order, so a later component with the same id
   * overwrites an earlier one.
   */
  function InitializeResponses(cs: seq<Field>, responses: Responses, errors: map<string, bool>)
    : (r: (Responses, map<string, bool>))
    ensures r.0.Keys == responses.Keys + Ids(cs)
    ensures r.1.Keys == errors.Keys + Ids(cs)
    decreases |cs|
  {
    if cs == [] then (responses, errors)
    else
      IdsCons(cs);
      InitializeResponses(cs[1..], responses[cs[0].id := DefaultValue(cs[0])], errors[cs[0].id := false])
  }

  lemma IdsCons(cs: seq<Field>)
    requires cs != []
    ensures Ids(cs) == {cs[0].id} + Ids(cs[1..])
  {
    assert forall i :: 1 <= i < |cs| ==> cs[i] == cs[1..][i - 1];
  }

  lemma LastWithIdCons(cs: seq<Field>)
    requires cs != []
    ensures forall i :: 1 <= i < |cs| && LastWithId(cs, i) ==> LastWithId(cs[1..], i - 1)
    ensures LastWithId(cs, 0) ==> cs[0].id !in Ids(cs[1..])
  {
    assert forall i :: 1 <= i < |cs| ==> cs[i] == cs[1..][i - 1];
  }

  /** After initialization each id holds the default of the last component with that id, and a cleared flag. */
  lemma {:induction false} InitializedValues(cs: seq<Field>, responses: Responses, errors: map<string, bool>)
    ensures var r := InitializeResponses(cs, responses, errors);
      && (forall i :: 0 <= i < |cs| && LastWithId(cs, i) ==> r.0[cs[i].id] == DefaultValue(cs[i]))
      && (forall k :: k in Ids(cs) ==> !r.1[k])
      && (forall k :: k in responses && k !in Ids(cs) ==> r.0[k] == responses[k])
      && (forall k :: k in errors && k !in Ids(cs) ==> r.1[k] == errors[k])
    decreases |cs|
  {
    if cs != [] {
      var rs := responses[cs[0].id := DefaultValue(cs[0])];
      var es := errors[cs[0].id := false];
      InitializedValues(cs[1..], rs, es);
      IdsCons(cs);
      LastWithIdCons(cs);
      var r := InitializeResponses(cs, responses, errors);
      assert r == InitializeResponses(cs[1..], rs, es);
      forall i | 0 <= i < |cs| && LastWithId(cs, i)
        ensures r.0[cs[i].id] == DefaultValue(cs[i])
      {
        if i > 0 {
          assert cs[1..][i - 1] == cs[i];
        }
      }
    }
  }

  /**
   * `validateComponent`: a field that is not required always passes; a
   * required checkbox needs a non-empty array; any other required field
   * needs a value that is not null and not blank after trimming.
   */
  function ValidateComponent(f: Field, v: Value): (ok: bool)
    ensures !f.isRequired ==> ok
    ensures f.isRequired && f.kind == Checkbox ==> (ok <==> v.List? && |v.items| > 0)
    ensures f.isRequired && f.kind != Checkbox ==> (ok <==> !v.Null? && !IsBlank(JsString(v)))
  {
    if !f.isRequired then true
    else
      match f.kind
      case Checkbox => v.List? && |v.items| > 0
      case _ => !v.Null? && !IsBlank(JsString(v))
  }

  /** A field fresh from `initializeResponses` fails as soon as it is required. */
  lemma DefaultFailsWhenRequired(f: Field)
    requires f.isRequired
    ensures !ValidateComponent(f, DefaultValue(f))
  {
  }

  /** A visible component passes with the required flag `isComponentRequired` gives it. */
  predicate Passes(responses: Responses, f: Field) {
    ValidateComponent(f.(isRequired := IsComponentRequired(responses, f)), Lookup(responses, f.id))
  }

  /** A component `validateForm` flags: visible, and failing. */
  predicate Fails(responses: Responses, f: Field) {
    IsComponentVisible(responses, f) && !Passes(responses, f)
  }

  /** Component `i` is the earliest one that fails. */
  predicate FirstFailure(responses: Responses, cs: seq<Field>, i: nat)
    requires i < |cs|
  {
    Fails(responses, cs[i]) && forall j :: 0 <= j < i ==> !Fails(responses, cs[j])
  }

  /** There is at most one earliest failure. */
  lemma FirstFailureUnique(responses: Responses, cs: seq<Field>, i: nat, j: nat)
    requires i < |cs| && j < |cs|
    requires FirstFailure(responses, cs, i) && FirstFailure(responses, cs, j)
    ensures i == j
  {
  }

  /** What one pass of `validateForm` computes: the verdict, the new error flags and the first invalid id. */
  datatype Check = Check(valid: bool, newErrors: map<string, bool>, firstInvalid: Option<string>)

  /** The ids of the visible components. */
  function VisibleIds(responses: Responses, cs: seq<Field>): set<string> {
    set i | 0 <= i < |cs| && IsComponentVisible(responses, cs[i]) :: cs[i].id
  }

  /**
   * The loop of `validateForm`: only visible components are checked; each
   * check writes the component's error flag (later components with the
   * same id overwrite), and the first failure names the first invalid id.
   */
  function CheckAll(responses: Responses, cs: seq<Field>): (c: Check)
    ensures c.firstInvalid.None? <==> c.valid
    decreases |cs|
  {
    if cs == [] then Check(true, map[], None)
    else
      var rest := CheckAll(responses, cs[1..]);
      if !IsComponentVisible(responses, cs[0]) then rest
      else if !Passes(responses, cs[0]) then Check(false, map[cs[0].id := true] + rest.newErrors, Some(cs[0].id))
      else Check(rest.valid, map[cs[0].id := false] + rest.newErrors, rest.firstInvalid)
  }

  /** Component `i` is the last visible one with its id. */
  predicate LastVisibleWithId(responses: Responses, cs: seq<Field>, i: nat)
    requires i < |cs|
  {
    forall j :: i < j < |cs| && IsComponentVisible(responses, cs[j]) ==> cs[j].id != cs[i].id
  }

  lemma SeqTail(cs: seq<Field>)
    requires cs != []
    ensures forall i :: 1 <= i < |cs| ==> cs[i] == cs[1..][i - 1]
  {
  }

  lemma VisibleIdsCons(responses: Responses, cs: seq<Field>)
    requires cs != []
    ensures VisibleIds(responses, cs) ==
      (if IsComponentVisible(responses, cs[0]) then {cs[0].id} else {}) + VisibleIds(responses, cs[1..])
  {
    SeqTail(cs);
    forall k | k in VisibleIds(responses, cs)
      ensures k in (if IsComponentVisible(responses, cs[0]) then {cs[0].id} else {}) + VisibleIds(responses, cs[1..])
    {
      var i :| 0 <= i < |cs| && IsComponentVisible(responses, cs[i]) && cs[i].id == k;
      if i > 0 {
        assert cs[1..][i - 1].id == k;
      }
    }
    forall k | k in VisibleIds(responses, cs[1..])
      ensures k in VisibleIds(responses, cs)
    {
      var i :| 0 <= i < |cs[1..]| && IsComponentVisible(responses, cs[1..][i]) && cs[1..][i].id == k;
      assert cs[i + 1] == cs[1..][i];
    }
  }

  /** The form is valid exactly when no visible component fails. */
  lemma {:induction false} CheckValid(responses: Responses, cs: seq<Field>)
    ensures CheckAll(responses, cs).valid <==> forall i :: 0 <= i < |cs| ==> !Fails(responses, cs[i])
    decreases |cs|
  {
    if cs != [] {
      CheckValid(responses, cs[1..]);
      SeqTail(cs);
    }
  }

  /** The first invalid id is that of the earliest failing component. */
  lemma {:induction false} CheckFirstInvalid(responses: Responses, cs: seq<Field>)
    ensures var c := CheckAll(responses, cs);
      c.firstInvalid.Some? ==> exists i :: 0 <= i < |cs| && FirstFailure(responses, cs, i) && cs[i].id == c.firstInvalid.value
    decreases |cs|
  {
    if cs != [] {
      CheckFirstInvalid(responses, cs[1..]);
      SeqTail(cs);
      var c := CheckAll(responses, cs);
      if Fails(responses, cs[0]) {
        assert FirstFailure(responses, cs, 0);
      } else if c.firstInvalid.Some? {
        var i :| 0 <= i < |cs[1..]| && FirstFailure(responses, cs[1..], i) && cs[1..][i].id == c.firstInvalid.value;
        assert FirstFailure(responses, cs, i + 1);
      }
    }
  }

  /**
   * The new error flags cover exactly the visible components, and each
   * holds whether the last visible component with that id failed.
   */
  lemma {:induction false} CheckErrors(responses: Responses, cs: seq<Field>)
    ensures var c := CheckAll(responses, cs);
      && c.newErrors.Keys == VisibleIds(responses, cs)
      && forall i :: 0 <= i < |cs| && IsComponentVisible(responses, cs[i]) && LastVisibleWithId(responses, cs, i) ==>
           c.newErrors[cs[i].id] == !Passes(responses, cs[i])
    decreases |cs|
  {
    if cs != [] {
      CheckErrors(responses, cs[1..]);
      VisibleIdsCons(responses, cs);
      SeqTail(cs);
      var c := CheckAll(responses, cs);
      forall i | 0 <= i < |cs| && IsComponentVisible(responses, cs[i]) && LastVisibleWithId(responses, cs, i)
        ensures c.newErrors[cs[i].id] == !Passes(responses, cs[i])
      {
        if i == 0 {
          forall j | 0 <= j < |cs[1..]| && IsComponentVisible(responses, cs[1..][j])
            ensures cs[1..][j].id != cs[0].id
          {
            assert cs[1..][j] == cs[j + 1];
          }
          assert cs[0].id !in VisibleIds(responses, cs[1..]);
        } else {
          assert cs[1..][i - 1] == cs[i];
          assert LastVisibleWithId(responses, cs[1..], i - 1);
        }
      }
    }
  }
}
