/**
 * The field builder of `createComponentFromTag`: from the lower-cased tag
 * name, the attribute map and the parsed options to a field descriptor, or
 * the error the source throws.
 */
module Builder {
  import opened Wrappers
  import opened JsText
  import opened Model
  import opened Attributes

  /** Why `createComponentFromTag` throws. */
  datatype BuildError =
      /** The tag name is not one of the five field types. */
      UnsupportedComponentType(tag: string)
      /**
       * An attribute named `hasOwnProperty` replaces the method of that name
       * on the attribute object, so the presence test for `required` calls a
       * string and throws a TypeError.
       */
    | OwnPropertyShadowed

  /** The fixed tag-name table. */
  function TypeOfTag(tag: string): Option<FieldType> {
    if tag == "radiobutton" then Some(RadioButton)
    else if tag == "checkbox" then Some(Checkbox)
    else if tag == "textarea" then Some(TextArea)
    else if tag == "textfield" then Some(TextField)
    else if tag == "dropdown" then Some(Dropdown)
    else None
  }

  /** The tag name that denotes a field type. */
  function TagName(kind: FieldType): string {
    match kind
    case RadioButton => "radiobutton"
    case Checkbox => "checkbox"
    case TextArea => "textarea"
    case TextField => "textfield"
    case Dropdown => "dropdown"
  }

  /** The table is a bijection between the five tag names and the field types. */
  lemma TagNameInverse(tag: string, kind: FieldType)
    ensures TypeOfTag(TagName(kind)) == Some(kind)
    ensures TypeOfTag(tag) == Some(kind) ==> tag == TagName(kind)
  {
  }

  /** `attributeMap[key] || fallback`: an absent key and an empty value both fall back. */
  function OrElse(am: map<string, string>, key: string, fallback: string): string {
    if key in am && am[key] != "" then am[key] else fallback
  }

  /** `attributeMap[key] || null`. */
  function NonEmpty(am: map<string, string>, key: string): Option<string> {
    if key in am && am[key] != "" then Some(am[key]) else None
  }

  /** The value of a key that `hasOwnProperty` reports present, whatever it is. */
  function Get(am: map<string, string>, key: string): Option<string> {
    if key in am then Some(am[key]) else None
  }

  /** The conditional logic of a tag, present exactly when `depends-on` is. */
  function BuildLogic(am: map<string, string>): Option<ConditionalLogic> {
    if "depends-on" !in am then None
    else
      Some(ConditionalLogic(
        am["depends-on"],
        OrElse(am, "condition", "equals"),
        Get(am, "when-value"),
        Get(am, "disable-when-hidden") != Some("false"),
        Flag(am, "required-when-visible"),
        Get(am, "required-when-value")))
  }

  /** `attributeMap[key].toLowerCase() === 'true'` when the key is present. */
  function Flag(am: map<string, string>, key: string): Option<bool> {
    if key in am then Some(Lower(am[key]) == "true") else None
  }

  /**
   * `createComponentFromTag` once the attribute text has been parsed into
   * `am`. `freshId` stands for the id the source synthesizes from the clock
   * and a random number when the tag has no usable `id`.
   */
  function BuildField(tag: string, am: map<string, string>, options: Option<seq<OptionItem>>, freshId: string)
    : (r: Result<Field, BuildError>)
    ensures r.Success? <==> "hasOwnProperty" !in am && TypeOfTag(Lower(tag)).Some?
    ensures r.Failure? && "hasOwnProperty" !in am ==> r.error == UnsupportedComponentType(tag)
    ensures r.Success? ==> Some(r.value.kind) == TypeOfTag(Lower(tag))
    ensures r.Success? ==> (r.value.isRequired <==> "required" in am)
    ensures r.Success? ==> r.value.id == (if "id" in am && am["id"] != "" then am["id"] else freshId)
    ensures r.Success? ==> r.value.labelText == (if "label" in am && am["label"] != "" then am["label"] else "Field")
    ensures r.Success? ==> (r.value.placeholder.None? <==> "placeholder" !in am || am["placeholder"] == "")
    ensures r.Success? ==> (r.value.defaultValue.None? <==> "default" !in am || am["default"] == "")
    ensures r.Success? ==> r.value.optionData == options
    ensures r.Success? ==> (r.value.conditionalLogic.Some? <==> "depends-on" in am)
  {
    if "hasOwnProperty" in am then Failure(OwnPropertyShadowed)
    else
      match TypeOfTag(Lower(tag))
      case None => Failure(UnsupportedComponentType(tag))
      case Some(kind) =>
        Success(Field(
          OrElse(am, "id", freshId),
          kind,
          OrElse(am, "label", "Field"),
          "required" in am,
          options,
          NonEmpty(am, "placeholder"),
          NonEmpty(am, "default"),
          BuildLogic(am)))
  }

  /** What the built conditional logic holds, attribute by attribute. */
  lemma LogicFromAttributes(am: map<string, string>)
    requires "depends-on" in am
    ensures BuildLogic(am).Some?
    ensures BuildLogic(am).value.dependsOn == am["depends-on"]
    ensures "condition" !in am || am["condition"] == "" ==> BuildLogic(am).value.condition == "equals"
    ensures BuildLogic(am).value.value.Some? <==> "when-value" in am
    ensures BuildLogic(am).value.requiredWhenValue.Some? <==> "required-when-value" in am
    ensures BuildLogic(am).value.requiredWhenVisible.Some? <==> "required-when-visible" in am
    ensures !BuildLogic(am).value.disableWhenHidden <==> "disable-when-hidden" in am && am["disable-when-hidden"] == "false"
  {
  }

  /** `createComponentFromTag`: parse the attribute text, then build. */
  function CreateComponentFromTag(tag: string, attributes: string, options: Option<seq<OptionItem>>, freshId: string)
    : Result<Field, BuildError>
  {
    BuildField(tag, ParseAttributes(attributes), options, freshId)
  }

  /** For attributes written out as `name` / `name="value"`, building sees exactly the map they denote. */
  lemma CreateFromWrittenAttributes(tag: string, attrs: seq<Attr>, pad: string, options: Option<seq<OptionItem>>, freshId: string)
    requires forall i :: 0 <= i < |attrs| ==> attrs[i].WellFormed()
    requires IsBlank(pad)
    ensures CreateComponentFromTag(tag, RenderAttrs(attrs) + pad, options, freshId) == BuildField(tag, AttrMap(attrs), options, freshId)
  {
    ParseRendered(attrs, pad);
  }

  // ---------------------------------------------------------------------
  // The attributes that describe a field, and the builder as their inverse.

  /** No character that would end a quoted value or the opening tag. */
  predicate Quotable(s: string) {
    '"' !in s && '>' !in s
  }

  predicate WellFormedLogic(l: ConditionalLogic) {
    && Quotable(l.dependsOn)
    && l.condition != "" && Quotable(l.condition)
    && (l.value.Some? ==> Quotable(l.value.value))
    && (l.requiredWhenValue.Some? ==> Quotable(l.requiredWhenValue.value))
  }

  /** The fields a tag can describe exactly: every string attribute quotable, and non-empty where the builder treats empty as absent. */
  predicate WellFormedField(f: Field) {
    && f.id != "" && Quotable(f.id)
    && f.labelText != "" && Quotable(f.labelText)
    && (f.placeholder.Some? ==> f.placeholder.value != "" && Quotable(f.placeholder.value))
    && (f.defaultValue.Some? ==> f.defaultValue.value != "" && Quotable(f.defaultValue.value))
    && (f.conditionalLogic.Some? ==> WellFormedLogic(f.conditionalLogic.value))
  }

  function OptionalAttr(name: string, value: Option<string>): seq<Attr> {
    if value.Some? then [Attr(name, value)] else []
  }

  function LogicAttrs(logic: Option<ConditionalLogic>): seq<Attr> {
    if logic.None? then []
    else
      var l := logic.value;
      [Attr("depends-on", Some(l.dependsOn)), Attr("condition", Some(l.condition))]
      + OptionalAttr("when-value", l.value)
      + OptionalAttr("disable-when-hidden", if l.disableWhenHidden then None else Some("false"))
      + OptionalAttr("required-when-visible",
          if l.requiredWhenVisible.None? then None else Some(if l.requiredWhenVisible.value then "true" else "false"))
      + OptionalAttr("required-when-value", l.requiredWhenValue)
  }

  /** The attributes a tag for `f` carries before its conditional logic. */
  function HeadAttrs(f: Field): seq<Attr> {
    [Attr("id", Some(f.id)), Attr("label", Some(f.labelText))]
    + OptionalAttr("required", if f.isRequired then Some("true") else None)
    + OptionalAttr("placeholder", f.placeholder)
    + OptionalAttr("default", f.defaultValue)
  }

  /** The attributes a tag for `f` carries. */
  function FieldAttrs(f: Field): seq<Attr> {
    HeadAttrs(f) + LogicAttrs(f.conditionalLogic)
  }

  /** Lookup in a concatenation of attribute lists: the later part wins. */
  lemma GetAppend(a: seq<Attr>, b: seq<Attr>, k: string)
    ensures Get(AttrMap(a + b), k) == if Get(AttrMap(b), k).Some? then Get(AttrMap(b), k) else Get(AttrMap(a), k)
  {
    AttrMapAppend(a, b);
  }

  /** The value the attributes of a logic record carry for key `k`. */
  function LogicAttrValue(l: ConditionalLogic, k: string): Option<string> {
    if k == "depends-on" then Some(l.dependsOn)
    else if k == "condition" then Some(l.condition)
    else if k == "when-value" then l.value
    else if k == "disable-when-hidden" then (if l.disableWhenHidden then None else Some("false"))
    else if k == "required-when-visible" then
      (if l.requiredWhenVisible.None? then None else Some(if l.requiredWhenVisible.value then "true" else "false"))
    else if k == "required-when-value" then l.requiredWhenValue
    else None
  }

  /** The value the attributes of a field carry for key `k`: the logic's keys are written after the head's. */
  function FieldAttrValue(f: Field, k: string): Option<string> {
    if f.conditionalLogic.Some? && LogicAttrValue(f.conditionalLogic.value, k).Some?
    then LogicAttrValue(f.conditionalLogic.value, k)
    else HeadAttrValue(f, k)
  }

  lemma GetSingle(x: Attr, k: string)
    ensures Get(AttrMap([x]), k) == if x.name == k then Some(x.Recorded()) else None
  {
    assert [x][1..] == [];
  }

  lemma GetOptional(name: string, value: Option<string>, k: string)
    ensures Get(AttrMap(OptionalAttr(name, value)), k) == if name == k then value else None
  {
    if value.Some? {
      GetSingle(Attr(name, value), k);
    }
  }

  lemma GetPair(x: Attr, y: Attr, k: string)
    ensures Get(AttrMap([x, y]), k) == if y.name == k then Some(y.Recorded()) else if x.name == k then Some(x.Recorded()) else None
  {
    assert [x, y] == [x] + [y];
    GetAppend([x], [y], k);
    GetSingle(x, k);
    GetSingle(y, k);
  }

  lemma LogicAttrsGet(l: ConditionalLogic, k: string)
    ensures Get(AttrMap(LogicAttrs(Some(l))), k) == LogicAttrValue(l, k)
  {
    var a := [Attr("depends-on", Some(l.dependsOn)), Attr("condition", Some(l.condition))];
    var b := OptionalAttr("when-value", l.value);
    var c := OptionalAttr("disable-when-hidden", if l.disableWhenHidden then None else Some("false"));
    var d := OptionalAttr("required-when-visible",
               if l.requiredWhenVisible.None? then None else Some(if l.requiredWhenVisible.value then "true" else "false"));
    var e := OptionalAttr("required-when-value", l.requiredWhenValue);
    assert LogicAttrs(Some(l)) == a + b + c + d + e;
    GetAppend(a + b + c + d, e, k);
    GetAppend(a + b + c, d, k);
    GetAppend(a + b, c, k);
    GetAppend(a, b, k);
    GetPair(Attr("depends-on", Some(l.dependsOn)), Attr("condition", Some(l.condition)), k);
    GetOptional("when-value", l.value, k);
    GetOptional("disable-when-hidden", if l.disableWhenHidden then None else Some("false"), k);
    GetOptional("required-when-visible",
      if l.requiredWhenVisible.None? then None else Some(if l.requiredWhenVisible.value then "true" else "false"), k);
    GetOptional("required-when-value", l.requiredWhenValue, k);
  }

  function HeadAttrValue(f: Field, k: string): Option<string> {
    if k == "id" then Some(f.id)
    else if k == "label" then Some(f.labelText)
    else if k == "required" then (if f.isRequired then Some("true") else None)
    else if k == "placeholder" then f.placeholder
    else if k == "default" then f.defaultValue
    else None
  }

  lemma HeadAttrsGet(f: Field, k: string)
    ensures Get(AttrMap(HeadAttrs(f)), k) == HeadAttrValue(f, k)
  {
    var a := [Attr("id", Some(f.id)), Attr("label", Some(f.labelText))];
    var b := OptionalAttr("required", if f.isRequired then Some("true") else None);
    var c := OptionalAttr("placeholder", f.placeholder);
    var d := OptionalAttr("default", f.defaultValue);
    GetAppend(a + b + c, d, k);
    GetAppend(a + b, c, k);
    GetAppend(a, b, k);
    GetPair(Attr("id", Some(f.id)), Attr("label", Some(f.labelText)), k);
    GetOptional("required", if f.isRequired then Some("true") else None, k);
    GetOptional("placeholder", f.placeholder, k);
    GetOptional("default", f.defaultValue, k);
  }

  lemma FieldAttrsGet(f: Field, k: string)
    ensures Get(AttrMap(FieldAttrs(f)), k) == FieldAttrValue(f, k)
  {
    GetAppend(HeadAttrs(f), LogicAttrs(f.conditionalLogic), k);
    HeadAttrsGet(f, k);
    if f.conditionalLogic.Some? {
      LogicAttrsGet(f.conditionalLogic.value, k);
    }
  }

  /** The tag names are already lower case. */
  lemma LowerTagName(kind: FieldType)
    ensures |TagName(kind)| >= 8 && AllLetters(TagName(kind)) && Lower(TagName(kind)) == TagName(kind)
  {
    assert AllLowerLetters(TagName(kind));
    LowerOfLowerLetters(TagName(kind));
  }

  /** Any attribute map that carries exactly the values of a logic record builds that record. */
  lemma BuildLogicFromValues(am: map<string, string>, l: ConditionalLogic)
    requires l.condition != ""
    requires Get(am, "depends-on") == Some(l.dependsOn)
    requires Get(am, "condition") == Some(l.condition)
    requires Get(am, "when-value") == l.value
    requires Get(am, "disable-when-hidden") == (if l.disableWhenHidden then None else Some("false"))
    requires Get(am, "required-when-visible") ==
      (if l.requiredWhenVisible.None? then None else Some(if l.requiredWhenVisible.value then "true" else "false"))
    requires Get(am, "required-when-value") == l.requiredWhenValue
    ensures BuildLogic(am) == Some(l)
  {
    FlagWritten(am, "required-when-visible", l.requiredWhenVisible);
  }

  /** A flag written as `"true"` or `"false"` reads back as written. */
  lemma FlagWritten(am: map<string, string>, key: string, b: Option<bool>)
    requires Get(am, key) == (if b.None? then None else Some(if b.value then "true" else "false"))
    ensures Flag(am, key) == b
  {
    assert Lower("true") == "true";
    assert Lower("false") != "true";
  }

  /** Any attribute map that carries exactly the values of a well-formed field builds that field. */
  lemma BuildFromValues(am: map<string, string>, f: Field, freshId: string)
    requires WellFormedField(f)
    requires Get(am, "hasOwnProperty") == None
    requires Get(am, "id") == Some(f.id)
    requires Get(am, "label") == Some(f.labelText)
    requires Get(am, "required").Some? <==> f.isRequired
    requires Get(am, "placeholder") == f.placeholder
    requires Get(am, "default") == f.defaultValue
    requires f.conditionalLogic.None? ==> Get(am, "depends-on") == None
    requires f.conditionalLogic.Some? ==> BuildLogic(am) == f.conditionalLogic
    ensures BuildField(TagName(f.kind), am, f.optionData, freshId) == Success(f)
  {
    LowerTagName(f.kind);
    TagNameInverse(TagName(f.kind), f.kind);
  }

  /** Building from the attributes written for a well-formed field gives that field back. */
  lemma BuildFieldAttrs(f: Field, freshId: string)
    requires WellFormedField(f)
    ensures BuildField(TagName(f.kind), AttrMap(FieldAttrs(f)), f.optionData, freshId) == Success(f)
  {
    HeadValuesWritten(f);
    if f.conditionalLogic.Some? {
      LogicValuesWritten(f);
    }
    BuildFromValues(AttrMap(FieldAttrs(f)), f, freshId);
  }

  /** The written attributes carry the field's own values under the head keys. */
  lemma HeadValuesWritten(f: Field)
    ensures var am := AttrMap(FieldAttrs(f));
      && Get(am, "hasOwnProperty") == None
      && Get(am, "id") == Some(f.id)
      && Get(am, "label") == Some(f.labelText)
      && (Get(am, "required").Some? <==> f.isRequired)
      && Get(am, "placeholder") == f.placeholder
      && Get(am, "default") == f.defaultValue
      && (f.conditionalLogic.None? ==> Get(am, "depends-on") == None)
  {
    FieldAttrsGet(f, "hasOwnProperty");
    FieldAttrsGet(f, "id");
    FieldAttrsGet(f, "label");
    FieldAttrsGet(f, "required");
    FieldAttrsGet(f, "placeholder");
    FieldAttrsGet(f, "default");
    FieldAttrsGet(f, "depends-on");
  }

  /** The written attributes of a field with conditional logic build that logic. */
  lemma LogicValuesWritten(f: Field)
    requires f.conditionalLogic.Some? && f.conditionalLogic.value.condition != ""
    ensures BuildLogic(AttrMap(FieldAttrs(f))) == f.conditionalLogic
  {
    FieldAttrsGet(f, "depends-on");
    FieldAttrsGet(f, "condition");
    FieldAttrsGet(f, "when-value");
    FieldAttrsGet(f, "disable-when-hidden");
    FieldAttrsGet(f, "required-when-visible");
    FieldAttrsGet(f, "required-when-value");
    BuildLogicFromValues(AttrMap(FieldAttrs(f)), f.conditionalLogic.value);
  }
}
