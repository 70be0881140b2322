# Dynamic popup engine — a Dafny model

`js/dynamicPopup.js` turns markdown text with inline form tags such as
`:::dc<textfield id="email" required label="Email" />dc:::` or
`:::dc<radiobutton id="q">` … `<option id="SI">YES</option>` … `</radiobutton>dc:::`
into a content flow of prose chunks and field descriptors. It keeps a store
of responses, evaluates conditional visibility and requiredness between
fields, validates the form and hands a payload to a completion callback.

This project models that engine without the DOM, as pure functions over
immutable data. It proves the properties listed under "## Model".

| file | module | what it holds |
|---|---|---|
| `wrappers.dfy` | `Wrappers` | `Option`, `Result` |
| `jstext.dfy` | `JsText` | the `\s` class and `trim`, `toLowerCase` on ASCII, `startsWith`, `includes`, `indexOf`, `join` / `split` |
| `search.dfy` | `Search` | `RegExp.exec` as a leftmost search with a matcher on suffixes |
| `model.dfy` | `Model` | field types, options, `ConditionalLogic`, field descriptors, content flow, stored values |
| `patterns.dfy` | `Patterns` | the opener, closer, suffix and option patterns of `parseMarkdown` |
| `attributes.dfy` | `Attributes` | the attribute pattern and the attribute map |
| `builder.dfy` | `Builder` | `createComponentFromTag`, and the attributes a field is written with |
| `scanner.dfy` | `Scanner` | the loop of `parseMarkdown` and the assembly of its result |
| `roundtrip.dfy` | `RoundTrip` | a field and a content flow written as text, and the proof that parsing reads them back |
| `conditions.dfy` | `Conditions` | `isVisibilityMet`, `isRequiredMet`, `isComponentVisible`, `isComponentRequired` |
| `validation.dfy` | `Validation` | `getDefaultValue`, `initializeResponses`, `validateComponent`, the pass of `validateForm` |
| `popup.dfy` | `Popup` | the popup state, `handleComponentChange`, `validateForm`, `prepareValueForApi`, `handleSubmit` |
| `scenarios.dfy` | `Scenarios` | three configurations of `js/testData.js`, each with every field it declares, followed through change, validation and submission |

Modelling choices:

- **Regular expressions.** Each pattern is a matcher that reports the match
  at the start of a string, and `Search.FindFrom` finds the leftmost match
  from a position. None of the patterns has an anchor or a look-behind, so
  this is what `exec` with `lastIndex` does. Each matcher's doc comment
  argues why backtracking has only one successful path.
- **Generated ids.** The id the source makes from `Date.now()` and
  `Math.random()` for a tag without an `id` is a parameter,
  `freshIds: nat -> string`. It is indexed by the number of tags found
  before. Nothing is claimed about id uniqueness.
- **JavaScript values.** Stored values are `Null | Str | List`.
  `undefined` from a missing key reads as `Null`. The `toString` of an
  array is its items joined by `,`.
- **Scanner and assembly.** `parseMarkdown` is a scan into segments (text
  passed over, and each opening tag with what was consumed after it)
  followed by an assembly of the content flow and the component list.
- **Written form.** A field is written as a tag in one canonical spelling:
  - attributes in a fixed order, each `name="value"`;
  - `required` written as `required="true"`;
  - a self-closing tag when the field has no options.

  `RoundTrip.ParseRenderedFlow` proves that this spelling parses back to
  the field.
- **Submission.** `handleSubmit` is split into `BeginSubmit`, which runs up
  to the callback, and `FinishSubmit`, which runs after it. The callback's
  outcome (`Completed` or `Threw`) is an input. A second submit that
  arrives between the two phases meets the `isSubmitting` guard.
- **Self-closing suffix.** The `dc:::` after a self-closing tag reads as
  optional. The code, however, searches for `\s*dc:::` anywhere in the rest
  of the text and advances by the match's length only. The model follows
  the code, and `Scanner.SelfClosingSuffixQuirk` shows the consequence.
- **Case handling.** The code compares case-insensitively for
  `equals`/`notEquals` and for `contains` on an array. Scalar `contains` is
  case-sensitive. The model keeps this mix as written.

## Model

| member | source | states |
|---|---|---|
| `Search.FindFrom` | js/dynamicPopup.js:127 | the match reported is the leftmost one at or after the start position, and no match means none anywhere after it |
| `Patterns.OpenerAt` | js/dynamicPopup.js:124-131 | an opening tag starts with `:::dc`, ends with `>`, is longer than 7 characters, has a non-empty letter name, and its attribute text holds no `>` |
| `Patterns.OpenerEndsAtFirstGt` | js/dynamicPopup.js:124 | an opening tag ends at the first `>` of the text: no `>` comes before its last character |
| `Patterns.CloserAt` | js/dynamicPopup.js:149-150 | a closer starts with `</name>` for the lower-cased name, then has only whitespace, then ends with `dc:::` |
| `Patterns.SuffixAt` | js/dynamicPopup.js:176-177 | the suffix match is whitespace only, then `dc:::` as its last five characters |
| `Patterns.OptionAt` | js/dynamicPopup.js:156-163 | an option entry has non-empty text without `<`; an empty or absent id becomes none |
| `Patterns.ExtractOptions` | js/dynamicPopup.js:156-169 | every extracted entry has non-empty text without `<`, and its id, when present, is non-empty and holds no double quote |
| `Patterns.ExtractOptionsEmpty` | js/dynamicPopup.js:156-169 | the list is empty exactly when no option entry starts anywhere in the inner content |
| `Patterns.OptionsOf` | js/dynamicPopup.js:171-173 | an empty option list is recorded as no options |
| `RoundTrip.ExtractRendered` | js/dynamicPopup.js:156-169 | extracting the options from written option entries returns exactly those entries, in order |
| `RoundTrip.FindCloserWritten` | js/dynamicPopup.js:147-153 | after written option entries, the first closer found is the one that follows them |
| `Scanner.BodyAfter` | js/dynamicPopup.js:143-181 | a self-closing tag has no options; a paired tag with a closer has a non-empty option list or none; nothing past the text is consumed |
| `Scanner.SelfClosingSuffixQuirk` | js/dynamicPopup.js:174-180 | with text before the first `dc:::`, a self-closing tag consumes only the match's length and leaves the tail of the marker behind |
| `Scanner.Scan` | js/dynamicPopup.js:127-198 | the segments spell out the input exactly, and no opening tag starts in any text segment |
| `Scanner.Assemble` | js/dynamicPopup.js:134-139 | the components are the component elements of the content flow, in order, and they are the fields the tags built, in order |
| `Scanner.AssembledProse` | js/dynamicPopup.js:134-139 | the prose of the content flow is exactly the non-blank text segments of the scan, in order; each prose element is such a segment |
| `Scanner.ParseMarkdown` | js/dynamicPopup.js:115-212 | the components are the component elements of the content flow and exactly the fields the scan of the input built, in order; the prose is exactly the scan's non-blank text segments, in order, each free of opening tags |
| `RoundTrip.ScanWritten` | js/dynamicPopup.js:127-190 | prose followed by a written field is read as a text segment and a tag that builds the field, and the scan resumes after it |
| `RoundTrip.ScanFlow` | js/dynamicPopup.js:127-206 | the scan of a written well-formed flow yields its prose and built fields in order |
| `RoundTrip.ParseRenderedFlow` | js/dynamicPopup.js:115-212 | parsing a written well-formed content flow returns that flow and its components |
| `RoundTrip.ScanUnsupportedAt` | js/dynamicPopup.js:127-197 | on any input, when the first opening tag found has an unknown type, the build throws, the text before it is a gap (prose unless blank) and the scan resumes right after the opening tag |
| `RoundTrip.ScanUnclosedAt` | js/dynamicPopup.js:145-183 | on any input, when the first opening tag found is paired and no closer for its name follows, the builder gets no options and the scan resumes right after the opening tag |
| `RoundTrip.ScanUnsupported` | js/dynamicPopup.js:192-197 | a canonically written tag of an unknown type after opener-free prose yields no component and no content, and the scan resumes right after its opening tag |
| `RoundTrip.ScanUnclosed` | js/dynamicPopup.js:145-183 | a well-formed field written as a paired tag with no closer after it is still built, with no options, and the scan resumes right after its opening tag |
| `Attributes.AttrAt` | js/dynamicPopup.js:218-226 | a match exists iff the text starts with a name character; its name is a prefix of name characters and its value holds no double quote |
| `Attributes.AttrAtRule` | js/dynamicPopup.js:218-224 | the name is the longest run of name characters; the value is the text up to the next double quote when `="` and a closing quote follow, and `true`, ending the match after the name, otherwise |
| `Attributes.ParsedKeys` | js/dynamicPopup.js:217-226 | every key of the attribute map is a non-empty run of name characters, and no value holds a double quote |
| `Attributes.AttrMapLast` | js/dynamicPopup.js:221-225 | a later duplicate attribute overwrites an earlier one |
| `Attributes.ParseRendered` | js/dynamicPopup.js:217-226 | parsing written-out attributes yields exactly the map they denote |
| `Builder.BuildField` | js/dynamicPopup.js:228-305 | the field builds iff the type is known and `hasOwnProperty` is not shadowed; `isRequired` iff `required` is present; label defaults to `Field`; empty placeholder and default become none; logic iff `depends-on` is present |
| `Builder.LogicFromAttributes` | js/dynamicPopup.js:236-266 | the condition defaults to `equals`; `when-value`, `required-when-value` and `required-when-visible` are set iff present; `disableWhenHidden` is false only for the literal `false` |
| `Builder.TagNameInverse` | js/dynamicPopup.js:268-287 | the tag-name table is a bijection between the five names and the field types |
| `Builder.CreateFromWrittenAttributes` | js/dynamicPopup.js:215-226 | on written-out attributes the builder sees exactly the map they denote |
| `Builder.BuildFieldAttrs` | js/dynamicPopup.js:228-304 | building from the attributes a well-formed field is written with gives that field back |
| `RoundTrip.BuildWritten` | js/dynamicPopup.js:215-305 | the written attribute text of a well-formed field builds that field |
| `Conditions.KindOf` | js/dynamicPopup.js:39-59 | only the literal texts `notEquals`, `contains` and `notContains` select those kinds; anything else is `equals` |
| `Conditions.SomeItemIs` | js/dynamicPopup.js:46-47 | an array contains a target iff some item equals it after lower-casing both |
| `Conditions.IsVisibilityMet` | js/dynamicPopup.js:33-60 | an unset `when-value` is always met; a null dependency value never is; otherwise the condition decides |
| `Conditions.IsRequiredMet` | js/dynamicPopup.js:63-91 | an unset `required-when-value` or a null dependency value is never met; otherwise the condition decides |
| `Conditions.NegatedKinds` | js/dynamicPopup.js:40-57 | `notEquals` and `notContains` are the exact negations of `equals` and `contains` |
| `Conditions.UnknownIsEquals` | js/dynamicPopup.js:57-59 | an unrecognised condition behaves exactly like `equals` for visibility and requiredness |
| `Conditions.CaseSensitivity` | js/dynamicPopup.js:40-50 | `equals` ignores case; scalar `contains` does not; array `contains` does; an array compares as its items joined by `,` |
| `Conditions.Lookup` | js/dynamicPopup.js:353 | a missing key reads as null |
| `Conditions.IsComponentVisible` | js/dynamicPopup.js:350-358 | a field without logic is visible; otherwise visibility is the visibility condition on the dependency's stored value |
| `Conditions.IsComponentRequired` | js/dynamicPopup.js:361-400 | with `required-when-value` set, required iff that condition is met; otherwise required iff visible and the `required-when-visible` flag (when set) or the static flag says so |
| `Conditions.RequiredByValueIndependent` | js/dynamicPopup.js:363-378 | with `required-when-value` set, requiredness ignores the static flag, `required-when-visible` and the visibility target |
| `Conditions.HiddenRequiredOnlyByValue` | js/dynamicPopup.js:380-399 | a hidden field is required only through `required-when-value` |
| `Conditions.VisibleReadsOnlyDependency` | js/dynamicPopup.js:350-358 | visibility and requiredness read the store only at the dependency's id |
| `Conditions.NotTransitive` | js/dynamicPopup.js:350-358 | a field whose dependency is hidden is still visible when the dependency's stored value matches |
| `Validation.DefaultValue` | js/dynamicPopup.js:315-330 | checkboxes start with an empty array, text fields with the empty string, radio buttons and dropdowns with null |
| `Validation.InitializeResponses` | js/dynamicPopup.js:308-313 | the store and the error flags gain exactly the component ids |
| `Validation.InitializedValues` | js/dynamicPopup.js:308-313 | each id holds the default of the last component with that id, every error flag is cleared, other keys are untouched |
| `Validation.ValidateComponent` | js/dynamicPopup.js:959-978 | a field that is not required passes; a required checkbox needs a non-empty array; any other required field needs a non-null value that is not blank after trimming |
| `Validation.DefaultFailsWhenRequired` | js/dynamicPopup.js:959-978 | a required field holding its type default fails validation |
| `Validation.CheckAll` | js/dynamicPopup.js:463-487 | there is a first invalid id exactly when the form is invalid |
| `Validation.CheckValid` | js/dynamicPopup.js:468-487 | the form is valid iff no visible component fails with its effective required flag |
| `Validation.CheckFirstInvalid` | js/dynamicPopup.js:478-480 | the first invalid id is that of the earliest failing visible component |
| `Validation.CheckErrors` | js/dynamicPopup.js:470-476 | new error flags are written for exactly the visible components, each saying whether the last visible component with that id failed |
| `Popup.NewPopup` | js/dynamicPopup.js:96-112 | a new popup holds the parsed content, covers every component in the store and the error flags, and is idle |
| `Popup.NewPopupStore` | js/dynamicPopup.js:308-313 | a new popup holds each component's type default and no error |
| `Popup.HandleComponentChange` | js/dynamicPopup.js:333-337 | the value is stored and the field's error cleared, the form-level error state is reset, and every other entry stays |
| `Popup.ChangeKeepsOthers` | js/dynamicPopup.js:333-346 | a change leaves the visibility and requiredness of fields that do not depend on it unchanged |
| `Popup.ValidateForm` | js/dynamicPopup.js:463-498 | the verdict holds iff no visible component fails; there is a first invalid id exactly when the form is invalid, and it names an earliest failure; responses, content and the submit state are unchanged |
| `Popup.ValidateFormErrors` | js/dynamicPopup.js:468-489 | validation writes error flags for exactly the visible components, hidden fields keep their previous flags, and every component keeps its entry |
| `Popup.ValidateNamesFirstFailure` | js/dynamicPopup.js:463-498 | when a component is the earliest failure, validation rejects the form and names that component |
| `Popup.ValidateFormFlags` | js/dynamicPopup.js:470-488 | after validation a visible component's error flag says whether it failed |
| `Popup.ValidateFormIdempotent` | js/dynamicPopup.js:463-498 | validating twice gives the same verdict and state as validating once |
| `Popup.PrepareValueForApi` | js/dynamicPopup.js:501-509 | a checkbox's array is sent as a string; every other value is sent unchanged |
| `Popup.PreparedCheckboxRoundTrip` | js/dynamicPopup.js:505-506 | a checkbox selection whose values hold no comma is recovered by splitting what is sent |
| `Popup.PreparedEmptyIsAmbiguous` | js/dynamicPopup.js:505-506 | no selection and a selection of one empty value are sent alike |
| `Popup.PayloadResponses` | js/dynamicPopup.js:537-543 | the payload has an entry for every component, visible or not |
| `Popup.PayloadValues` | js/dynamicPopup.js:537-543 | each component's entry is its prepared stored value when no later component shares its id |
| `Popup.BuildPayload` | js/dynamicPopup.js:528-543 | the payload carries the popup id, is marked completed, and names every component |
| `Popup.BeginSubmit` | js/dynamicPopup.js:512-529 | a submit in flight makes it a no-op; an invalid form is rejected with the validated state; otherwise the popup is submitting and the payload is built |
| `Popup.FinishSubmit` | js/dynamicPopup.js:546-558 | either outcome leaves the popup idle; only a normal return closes the dialog |
| `Popup.HandleSubmit` | js/dynamicPopup.js:512-559 | an idle popup is idle again afterwards; a payload is sent only for a valid form; responses are unchanged |
| `Popup.SubmitGuard` | js/dynamicPopup.js:513 | a second submit while the first awaits its callback does nothing |
| `Popup.SubmittedPayload` | js/dynamicPopup.js:537-543 | the submitted payload names each component with its prepared stored value |
| `Scenarios.NewPopupOfWrittenFlow` | js/dynamicPopup.js:108-111 | a popup constructed from a written well-formed flow opens on exactly that flow with type defaults |
| `Scenarios.EmailContentParses` | js/testData.js:22-28 | the configuration's own markdown content, with its bare `required`, parses to the heading and sentence as one prose chunk followed by the email field (id, label, placeholder, required) |
| `Scenarios.EmailOpens` | js/testData.js:19-28 | the popup constructed from that content holds the email field with the empty string and no error |
| `Scenarios.RequiredTextField` | js/testData.js:19-28 | constructed from that content, the form fails on `email`; once filled it is valid and submitting sends that value and closes the dialog |
| `Scenarios.VisibleOnAnswer` | js/testData.js:169-197 | on the form's four fields, whatever the question's label: the three dependent fields are hidden and the form fails on the question until it is answered with any string that lower-cases to `si`; then all three show, the detail text is the first failure, once it is filled the required relationship dropdown is, and once a relationship is chosen the form is valid with the institution name left empty |
| `Scenarios.RoleShownIff` | js/testData.js:186-193 | each of the three dependent fields is shown exactly when the stored answer lower-cases to `si` |
| `Scenarios.RoleDetailsOnly` | js/testData.js:186-191 | with `si` answered and only the detail text filled, the form fails on the required relationship dropdown |
| `Scenarios.RoleFilled` | js/testData.js:177-193 | with any non-blank answer, the detail text and a relationship filled, the form is valid; the optional institution name may stay empty |
| `Scenarios.RequiredOnAnswer` | js/testData.js:208-217 | the detail field is always visible, is required only after the answer `SI`, and is optional after `NO` |

## Left out

- The DOM: rendering, styling, `markdownToHtml`, the widget builders and
  their change handlers, `updateConditionalVisibility`,
  `updateConditionalRequired`, `updateRequiredAsterisk`, `updateErrorState`,
  `showSubmissionError`, and scrolling to the first invalid field. They are
  presentation only. `closeDialog` is modelled only as the `dialogClosed`
  flag, set on a normal return from the callback. The source sets it only
  when the dialog element exists.
- The clock and randomness. Generated ids are the `freshIds` parameter.
  The payload's `timestamp` is not modelled.
- Asynchrony and logging. The callback's outcome is an input, and
  `console.error` is dropped.
- The `onDismissed` callback that `closeDialog` calls.
- `toLowerCase` is modelled on ASCII letters only (`JsText.Lower`). Other
  letters keep their case in the model, while JavaScript maps them.
- Strings are sequences of characters, not of UTF-16 code units.
- Object keys: the attribute map and the stores are Dafny maps. The names
  `__proto__` and other inherited members of plain objects are not modelled.
  The one such name the code itself trips over, `hasOwnProperty`, is
  modelled as a build error.
- The round trip covers the canonical written form of a field, not every
  spelling a tag can take. The required-text-field scenario parses the
  configuration's own content. The public-role and additional-information
  scenarios start from every field their configuration declares, written
  as the values those tags describe; that the parser builds exactly these
  values from their markdown text is not proved.
- The demo harness and exports of `js/testData.js`.
- Regular expressions in general: only the patterns the engine uses are
  modelled, each as a hand-written matcher.
- The question label of the public-role form in `js/testData.js` is not
  spelled out: `Scenarios.PublicRole` takes it as a parameter, and the
  scenario holds for any label.
