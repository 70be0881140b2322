/**
 * The data the popup engine works on: field descriptors parsed from the
 * inline tags, their conditional logic, the content flow that interleaves
 * prose with fields, and the JavaScript values held in the response store.
 */
module Model {
  import opened Wrappers

  /** `DynamicComponentType`. */
  datatype FieldType = RadioButton | Checkbox | TextArea | TextField | Dropdown

  /** One `<option>` entry: its `id` attribute (none when absent or empty) and its text. */
  datatype OptionItem = OptionItem(id: Option<string>, text: string) {
    /** The value a selection of this option stands for. */
    function EffectiveValue(): string {
      if id.Some? then id.value else text
    }
  }

  /**
   * `ConditionalLogic`: the rule tying a field's visibility and requiredness
   * to the stored value of the field `dependsOn`. `condition` is kept as the
   * raw attribute text; unrecognised conditions evaluate as `equals`.
   */
  datatype ConditionalLogic = ConditionalLogic(
    dependsOn: string,
    condition: string,
    value: Option<string>,
    disableWhenHidden: bool,
    requiredWhenVisible: Option<bool>,
    requiredWhenValue: Option<string>)

  /** A field descriptor as built by `createComponentFromTag` (`labelText` is its `label`). */
  datatype Field = Field(
    id: string,
    kind: FieldType,
    labelText: string,
    isRequired: bool,
    optionData: Option<seq<OptionItem>>,
    placeholder: Option<string>,
    defaultValue: Option<string>,
    conditionalLogic: Option<ConditionalLogic>)
  {
    /** The `options` property: the option texts, kept for backward compatibility. */
    function Options(): Option<seq<string>> {
      if optionData.None? then None
      else Some(seq(|optionData.value|, i requires 0 <= i < |optionData.value| => optionData.value[i].text))
    }

    function MaxLines(): nat {
      if kind == TextArea then 4 else 1
    }

    function MinLines(): nat {
      if kind == TextArea then 2 else 1
    }
  }

  /** One element of the content flow: a prose chunk or a field. */
  datatype ContentElement = Prose(text: string) | Component(field: Field)

  /** What `parseMarkdown` returns. */
  datatype ParsedContent = ParsedContent(contentFlow: seq<ContentElement>, components: seq<Field>)

  /** The fields of the component elements of a flow, in order. */
  function ComponentsOf(flow: seq<ContentElement>): seq<Field> {
    if flow == [] then []
    else (if flow[0].Component? then [flow[0].field] else []) + ComponentsOf(flow[1..])
  }

  lemma {:induction false} ComponentsOfAppend(a: seq<ContentElement>, b: seq<ContentElement>)
    ensures ComponentsOf(a + b) == ComponentsOf(a) + ComponentsOf(b)
  {
    if a == [] {
      assert a + b == b;
    } else {
      assert (a + b)[0] == a[0];
      assert (a + b)[1..] == a[1..] + b;
      ComponentsOfAppend(a[1..], b);
    }
  }

  /** The texts of the prose elements of a flow, in order. */
  function ProseOf(flow: seq<ContentElement>): seq<string> {
    if flow == [] then []
    else (if flow[0].Prose? then [flow[0].text] else []) + ProseOf(flow[1..])
  }

  /** A value held in the response store: `null`/`undefined`, a string, or an array of strings. */
  datatype Value = Null | Str(s: string) | List(items: seq<string>)
}
