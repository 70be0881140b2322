/**
 * Worked configurations: the required text field, the public-role form with
 * fields shown only for one answer, and the form whose text field becomes
 * required for one answer. The first is parsed from its markdown content;
 * the other two start from every field their configuration declares, as
 * the builder describes each tag. Each is followed through change,
 * validation and submission.
 */
module Scenarios {
  import opened Wrappers
  import opened JsText
  import opened Model
  import opened Scanner
  import opened Builder
  import opened RoundTrip
  import opened Conditions
  import opened Validation
  import opened Popup
  import opened Search
  import opened Patterns
  import opened Attributes

  /** The popup right after construction from content that parses to `flow`. */
  function Opened(popupId: string, flow: seq<ContentElement>): (p: Popup)
    ensures p.Components() == ComponentsOf(flow)
    ensures !p.isSubmitting && !p.dialogClosed
  {
    var (responses, errors) := InitializeResponses(ComponentsOf(flow), map[], map[]);
    Popup(popupId, ParsedContent(flow, ComponentsOf(flow)), responses, errors, false, false, None, false)
  }

  /** Constructing a popup from a written, well-formed flow opens it on exactly that flow. */
  lemma NewPopupOfWrittenFlow(popupId: string, flow: seq<ContentElement>, freshIds: nat -> string)
    requires WellFormedFlow(flow)
    ensures NewPopup(popupId, RenderFlow(flow), freshIds) == Opened(popupId, flow)
  {
    ParseRenderedFlow(flow, freshIds);
  }

  /** Seeding the store for two more fields on top of whatever it already holds. */
  lemma InitializeTwo(a: Field, b: Field, r: Responses, e: map<string, bool>)
    ensures InitializeResponses([a, b], r, e).0 == r[a.id := DefaultValue(a)][b.id := DefaultValue(b)]
    ensures InitializeResponses([a, b], r, e).1 == e[a.id := false][b.id := false]
  {
    var cs := [a, b];
    var r1, e1 := r[a.id := DefaultValue(a)], e[a.id := false];
    assert cs[1..] == [b] && [b][1..] == [];
    assert InitializeResponses(cs, r, e) == InitializeResponses([b], r1, e1);
    assert InitializeResponses([b], r1, e1) == InitializeResponses([], r1[b.id := DefaultValue(b)], e1[b.id := false]);
  }

  /** Prose without a colon cannot hold the tag marker. */
  lemma NoColonNoMarker(t: string)
    requires ':' !in t
    ensures !Includes(t, ":::dc")
  {
    forall i: nat | i <= |t|
      ensures !OccursAt(t, ":::dc", i)
    {
      if i + 5 <= |t| {
        assert t[i..i + 5][0] == t[i];
      }
    }
  }

  /** A string starting with a non-space character is not blank. */
  lemma NotBlank(s: string)
    requires |s| > 0 && !IsSpace(s[0])
    ensures !IsBlank(s)
  {
  }

  // ---------------------------------------------------------------------
  // The required text field

  function Email(): Field {
    Field("email", TextField, "Email", true, None, Some("Enter your email"), None, None)
  }

  /** The prose before the email tag, line by line, blank lines and heading included. */
  function EmailIntro(): string {
    "\n" + "# Required Text Field\n" + "\n" + "This field is required and must be filled.\n" + "\n"
  }

  /**
   * The form's markdown content as the configuration writes it: the intro,
   * the email tag split only where one attribute ends, then the closing
   * line's indentation.
   */
  function RequiredTextFieldContent(): string {
    EmailIntro()
    + ":::dc<textfield" + " id=\"email\"" + " required" + " label=\"Email\"" + " placeholder=\"Enter your email\"" + " />dc:::"
    + "\n  "
  }

  function EmailFlow(): seq<ContentElement> {
    [Prose(EmailIntro()), Component(Email())]
  }

  /** The popup as constructed: the email field holds the empty string and no error. */
  function EmailStart(): Popup {
    Popup("required_text_field", ParsedContent(EmailFlow(), [Email()]),
      map["email" := Str("")], map["email" := false], false, false, None, false)
  }

  lemma HeadingHasNoColon()
    ensures ':' !in "# Required Text Field\n"
  {
  }

  lemma SentenceHasNoColon()
    ensures ':' !in "This field is required and must be filled.\n"
  {
  }

  lemma IntroHasNoColon()
    ensures ':' !in EmailIntro()
  {
    HeadingHasNoColon();
    SentenceHasNoColon();
  }

  lemma IntroIsProse()
    ensures WellFormedProse(EmailIntro())
  {
    var intro := EmailIntro();
    IntroHasNoColon();
    NoColonNoMarker(intro);
    assert intro[1] == "# Required Text Field\n"[0];
  }

  lemma EmailWellFormed()
    ensures WellFormedComponent(Email())
  {
    assert Quotable("email") && Quotable("Email") && Quotable("Enter your email");
  }

  lemma EmailFlowWellFormed()
    ensures WellFormedFlow(EmailFlow())
  {
    IntroIsProse();
    EmailWellFormed();
    assert WellFormedElement(EmailFlow()[0]);
    assert WellFormedElement(EmailFlow()[1]);
  }

  /** The attributes of the email tag as the form's content writes them: a bare `required`, in this order. */
  function EmailAttrs(): seq<Attr> {
    [Attr("id", Some("email")), Attr("required", None), Attr("label", Some("Email")),
     Attr("placeholder", Some("Enter your email"))]
  }

  /** The map the email tag's attributes denote. */
  function EmailAttrMap(): map<string, string> {
    map["id" := "email", "required" := "true", "label" := "Email", "placeholder" := "Enter your email"]
  }

  lemma EmailAttrsDenote()
    ensures AttrMap(EmailAttrs()) == EmailAttrMap()
  {
    var attrs := EmailAttrs();
    assert attrs[1..][1..][1..][1..] == [];
    assert AttrMap(attrs[1..][1..][1..]) == map["placeholder" := "Enter your email"];
    assert AttrMap(attrs[1..][1..]) == map["label" := "Email", "placeholder" := "Enter your email"];
    assert AttrMap(attrs[1..]) == map["required" := "true", "label" := "Email", "placeholder" := "Enter your email"];
  }

  lemma EmailAttrsWellFormed()
    ensures forall i :: 0 <= i < |EmailAttrs()| ==> EmailAttrs()[i].WellFormed()
  {
    assert AllNameChars("id") && AllNameChars("required") && AllNameChars("label") && AllNameChars("placeholder");
  }

  lemma EmailMapValues()
    ensures Get(EmailAttrMap(), "hasOwnProperty") == None && Get(EmailAttrMap(), "default") == None
    ensures Get(EmailAttrMap(), "depends-on") == None
    ensures Get(EmailAttrMap(), "id") == Some("email") && Get(EmailAttrMap(), "label") == Some("Email")
    ensures Get(EmailAttrMap(), "required") == Some("true")
    ensures Get(EmailAttrMap(), "placeholder") == Some("Enter your email")
  {
  }

  lemma EmailBuildsFromMap(freshId: string)
    ensures BuildField("textfield", EmailAttrMap(), None, freshId) == Success(Email())
  {
    var f := Email();
    assert f.kind == TextField && f.optionData == None;
    assert TagName(f.kind) == "textfield";
    EmailWellFormed();
    EmailMapValues();
    BuildFromValues(EmailAttrMap(), f, freshId);
  }

  /** The attribute text of the email tag, with the space before its `/>`, builds the email field. */
  lemma EmailTagBuilds(a: string, freshId: string)
    requires a == RenderAttrs(EmailAttrs()) + " "
    ensures CreateComponentFromTag(Lower("textfield"), a, None, freshId) == Success(Email())
  {
    EmailAttrsWellFormed();
    assert IsBlank(" ") by {
      assert IsSpace(" "[0]);
    }
    LowerTagName(TextField);
    CreateFromWrittenAttributes("textfield", EmailAttrs(), " ", None, freshId);
    EmailAttrsDenote();
    EmailBuildsFromMap(freshId);
  }

  lemma EmailAttrTextShape(a: string)
    requires a == RenderAttrs(EmailAttrs()) + " "
    ensures '>' !in a && a != [] && a[0] == ' ' && a[|a| - 1] == ' '
  {
    var attrs := EmailAttrs();
    EmailAttrsWellFormed();
    assert '>' !in "email" && '>' !in "Email" && '>' !in "Enter your email";
    assert AllWritable(attrs);
    RenderAttrsShape(attrs);
    var r := RenderAttrs(attrs);
    assert a[0] == r[0];
  }

  /** The step at the email tag builds the email field and consumes the `dc:::` after it. */
  lemma EmailStep(s: string, i: nat, a: string, w: string, freshIds: nat -> string)
    requires a == RenderAttrs(EmailAttrs()) + " "
    requires i + |w| + 5 <= |s| && s[i + |w|..] == "dc:::" + s[i + |w| + 5..]
    ensures Step(s, i, Opener("textfield", a, true, |w|), 0, freshIds).0 == i + |w| + 5
    ensures Step(s, i, Opener("textfield", a, true, |w|), 0, freshIds).1 == Success(Email())
  {
    var op := Opener("textfield", a, true, |w|);
    var rest := s[i + |w|..];
    SuffixAtWritten(s[i + |w| + 5..]);
    assert BodyAfter(op, rest) == Body(5, None);
    EmailTagBuilds(a, freshIds(0));
    StepBuilds(s, i, op, 0, freshIds, rest, Body(5, None), Email());
  }

  /** A written opening tag after opener-free prose is the first one the search finds, whatever follows it. */
  lemma FindOpenerBefore(intro: string, name: string, a: string, w: string, more: string)
    requires !Includes(intro, ":::dc")
    requires |name| > 0 && AllLetters(name)
    requires '>' !in a && a != [] && a[0] == ' ' && a[|a| - 1] == ' '
    requires w == WrittenOpener(name, a, true, "")
    ensures FindFrom(OpenerAt, intro + (w + more), 0) == Some(Found(|intro|, Opener(name, a, true, |w|)))
  {
    FindWrittenOpener(intro, name, a, true, more);
    Regroup3(intro, w, more);
  }

  /** The search finds the written `textfield` tag right after opener-free prose. */
  lemma EmailOpenerFound(intro: string, a: string, w: string, more: string)
    requires !Includes(intro, ":::dc")
    requires a == RenderAttrs(EmailAttrs()) + " "
    requires w == WrittenOpener("textfield", a, true, "")
    ensures FindFrom(OpenerAt, intro + (w + more), 0) == Some(Found(|intro|, Opener("textfield", a, true, |w|)))
  {
    EmailAttrTextShape(a);
    assert AllLetters("textfield");
    FindOpenerBefore(intro, "textfield", a, w, more);
  }

  /**
   * Content made of opener-free text, the email tag with `dc:::` after it,
   * and opener-free text again scans as those three pieces.
   */
  lemma EmailContentScan(intro: string, a: string, w: string, tail: string, freshIds: nat -> string)
    requires !Includes(intro, ":::dc") && !Includes(tail, ":::dc")
    requires a == RenderAttrs(EmailAttrs()) + " "
    requires w == WrittenOpener("textfield", a, true, "")
    ensures Scan(intro + (w + "dc:::") + tail, 0, freshIds) == [Text(intro), Tag(w + "dc:::", Success(Email())), Text(tail)]
  {
    var tag := w + "dc:::";
    var s := intro + tag + tail;
    var op := Opener("textfield", a, true, |w|);
    Regroup3(intro, tag, tail);
    Regroup3(w, "dc:::", tail);
    EmailOpenerFound(intro, a, w, "dc:::" + tail);
    assert s[|intro| + |w|..] == "dc:::" + s[|intro| + |w| + 5..];
    EmailStep(s, |intro|, a, w, freshIds);
    ScanTagBetween(intro, tag, tail, Success(Email()), 0, freshIds, op);
  }

  /** Four attributes written out: each with its leading space, in order. */
  lemma RenderFour(x1: Attr, x2: Attr, x3: Attr, x4: Attr)
    ensures RenderAttrs([x1, x2, x3, x4])
      == (" " + RenderAttr(x1)) + ((" " + RenderAttr(x2)) + ((" " + RenderAttr(x3)) + (" " + RenderAttr(x4))))
  {
    var xs := [x1, x2, x3, x4];
    assert xs[1..] == [x2, x3, x4] && xs[1..][1..] == [x3, x4] && xs[1..][1..][1..] == [x4] && [x4][1..] == [];
    var b4 := " " + RenderAttr(x4);
    assert RenderAttrs([x4]) == b4 + "";
    assert b4 + "" == b4;
    assert RenderAttrs([x3, x4]) == (" " + RenderAttr(x3)) + RenderAttrs([x4]);
    assert RenderAttrs([x2, x3, x4]) == (" " + RenderAttr(x2)) + RenderAttrs([x3, x4]);
  }

  lemma RegroupTag(p: string, q: string, x1: string, x2: string, x3: string, x4: string, sp: string, m: string, d: string)
    ensures p + q + (x1 + (x2 + (x3 + x4)) + sp) + m + "" + d == (p + q) + x1 + x2 + x3 + x4 + (sp + m + d)
  {
  }

  lemma RegroupContent(i: string, t: string, x1: string, x2: string, x3: string, x4: string, z: string, n: string)
    ensures i + (t + x1 + x2 + x3 + x4 + z) + n == i + t + x1 + x2 + x3 + x4 + z + n
  {
  }

  lemma EmailIdWritten()
    ensures " " + RenderAttr(EmailAttrs()[0]) == " id=\"email\""
    ensures " " + RenderAttr(EmailAttrs()[1]) == " required"
  {
  }

  lemma EmailLabelWritten()
    ensures " " + RenderAttr(EmailAttrs()[2]) == " label=\"Email\""
  {
  }

  lemma EmailPlaceholderWritten()
    ensures " " + RenderAttr(EmailAttrs()[3]) == " placeholder=\"Enter your email\""
  {
  }

  /** The written email tag, with its `dc:::`, is the text the configuration spells out. */
  lemma EmailTagText(a: string, w: string)
    requires a == RenderAttrs(EmailAttrs()) + " "
    requires w == WrittenOpener("textfield", a, true, "")
    ensures w + "dc:::"
      == ":::dc<textfield" + " id=\"email\"" + " required" + " label=\"Email\"" + " placeholder=\"Enter your email\"" + " />dc:::"
  {
    var attrs := EmailAttrs();
    RenderFour(attrs[0], attrs[1], attrs[2], attrs[3]);
    assert attrs == [attrs[0], attrs[1], attrs[2], attrs[3]];
    EmailIdWritten();
    EmailLabelWritten();
    EmailPlaceholderWritten();
    RegroupTag(":::dc<", "textfield", " id=\"email\"", " required", " label=\"Email\"", " placeholder=\"Enter your email\"",
      " ", "/>", "dc:::");
    assert ":::dc<" + "textfield" == ":::dc<textfield";
    assert " " + "/>" + "dc:::" == " />dc:::";
  }

  /** The configured content is the intro, the written email tag with its `dc:::`, and a blank tail. */
  lemma EmailContentParts(a: string, w: string)
    requires a == RenderAttrs(EmailAttrs()) + " "
    requires w == WrittenOpener("textfield", a, true, "")
    ensures RequiredTextFieldContent() == EmailIntro() + (w + "dc:::") + "\n  "
  {
    EmailTagText(a, w);
    RegroupContent(EmailIntro(), ":::dc<textfield", " id=\"email\"", " required", " label=\"Email\"",
      " placeholder=\"Enter your email\"", " />dc:::", "\n  ");
  }

  /** Prose, a built field and blank text scan to a flow of the prose and the field. */
  lemma ParseProseThenField(s: string, t: string, tag: string, tail: string, f: Field, freshIds: nat -> string)
    requires Scan(s, 0, freshIds) == [Text(t), Tag(tag, Success(f)), Text(tail)]
    requires !IsBlank(t) && IsBlank(tail)
    ensures ParseMarkdown(s, freshIds) == ParsedContent([Prose(t), Component(f)], [f])
  {
    var segs := [Text(t), Tag(tag, Success(f)), Text(tail)];
    AssembleStep(t, tag, f, [Text(tail)]);
    assert [Text(t), Tag(tag, Success(f))] + [Text(tail)] == segs;
    assert Assemble([Text(tail)]).contentFlow == [];
    assert Assemble(segs).contentFlow == [Prose(t), Component(f)];
    assert ComponentsOf([Prose(t), Component(f)]) == [f];
  }

  /** The indentation closing the configured content is blank and has no tag. */
  lemma ClosingIndentBlank(tail: string)
    requires tail == "\n  "
    ensures IsBlank(tail) && !Includes(tail, ":::dc")
  {
    NoColonNoMarker(tail);
    assert IsSpace(tail[0]) && IsSpace(tail[1]) && IsSpace(tail[2]);
  }

  /** The intro, the written email tag and a blank tail parse as the intro, then the email field. */
  lemma EmailTextParses(s: string, a: string, w: string, tail: string, freshIds: nat -> string)
    requires a == RenderAttrs(EmailAttrs()) + " "
    requires w == WrittenOpener("textfield", a, true, "")
    requires tail == "\n  " && s == EmailIntro() + (w + "dc:::") + tail
    ensures ParseMarkdown(s, freshIds) == ParsedContent(EmailFlow(), [Email()])
  {
    IntroIsProse();
    ClosingIndentBlank(tail);
    EmailContentScan(EmailIntro(), a, w, tail, freshIds);
    ParseProseThenField(s, EmailIntro(), w + "dc:::", tail, Email(), freshIds);
  }

  /** Parsing the configured content gives the intro as prose, then the email field. */
  lemma EmailContentParses(freshIds: nat -> string)
    ensures ParseMarkdown(RequiredTextFieldContent(), freshIds) == ParsedContent(EmailFlow(), [Email()])
  {
    var a := RenderAttrs(EmailAttrs()) + " ";
    var w := WrittenOpener("textfield", a, true, "");
    EmailContentParts(a, w);
    EmailTextParses(RequiredTextFieldContent(), a, w, "\n  ", freshIds);
  }

  lemma EmailOpens(freshIds: nat -> string)
    ensures NewPopup("required_text_field", RequiredTextFieldContent(), freshIds) == EmailStart()
  {
    EmailContentParses(freshIds);
    assert ComponentsOf(EmailFlow()) == [Email()];
  }

  lemma EmailRejected()
    ensures !ValidateForm(EmailStart()).0
    ensures ValidateForm(EmailStart()).1.firstInvalidComponentId == Some("email")
    ensures ValidateForm(EmailStart()).1.componentErrors["email"]
    ensures HandleSubmit(EmailStart(), Completed).1 == Rejected
  {
    var p := EmailStart();
    assert Fails(p.responses, Email());
    ValidateFormFlags(p, 0);
  }

  lemma EmailAccepted()
    ensures var q := HandleComponentChange(EmailStart(), "email", Str("a@b.it"));
      && ValidateForm(q).0
      && HandleSubmit(q, Completed).1 == Sent(Payload("required_text_field", map["email" := Str("a@b.it")], true))
      && HandleSubmit(q, Completed).0.dialogClosed
  {
    var q := HandleComponentChange(EmailStart(), "email", Str("a@b.it"));
    NotBlank("a@b.it");
    assert Passes(q.responses, Email());
    assert PayloadResponses([Email()], q.responses, map[]) == map["email" := Str("a@b.it")];
  }

  /**
   * Opened fresh, the form fails validation on `email`; once a value is
   * typed in it passes, and submitting hands over that value and closes the
   * dialog.
   */
  lemma RequiredTextField(freshIds: nat -> string)
    ensures var p := NewPopup("required_text_field", RequiredTextFieldContent(), freshIds);
      && !ValidateForm(p).0
      && ValidateForm(p).1.firstInvalidComponentId == Some("email")
      && HandleSubmit(p, Completed).1 == Rejected
    ensures var p := NewPopup("required_text_field", RequiredTextFieldContent(), freshIds);
      var q := HandleComponentChange(p, "email", Str("a@b.it"));
      && ValidateForm(q).0
      && HandleSubmit(q, Completed).1 == Sent(Payload("required_text_field", map["email" := Str("a@b.it")], true))
      && HandleSubmit(q, Completed).0.dialogClosed
  {
    EmailOpens(freshIds);
    EmailRejected();
    EmailAccepted();
  }

  // ---------------------------------------------------------------------
  // Fields shown for one answer

  /** The yes/no question; its label is left open, since nothing below depends on it. */
  function PublicRole(question: string): Field {
    Field("public_role", RadioButton, question, true,
      Some([OptionItem(Some("SI"), "YES"), OptionItem(Some("NO"), "NO")]), None, None, None)
  }

  /** The rule the three dependent fields share: shown while `public_role` equals `SI`. */
  function ShownOnSi(): ConditionalLogic {
    ConditionalLogic("public_role", "equals", Some("SI"), true, None, None)
  }

  function RoleDetails(): Field {
    Field("role_details", TextField, "Degree of kinship/affinity:", true, None, None, None, Some(ShownOnSi()))
  }

  function RelationshipType(): Field {
    Field("relationship_type", Dropdown, "Type of relationship:", true,
      Some([OptionItem(Some("family"), "Degree of kinship/affinity"),
            OptionItem(Some("public_admin"), "Public Administration and/or Public Institution")]),
      None, None, Some(ShownOnSi()))
  }

  function InstitutionName(): Field {
    Field("institution_name", TextField, "Public Administration and/or Public Institution:", false,
      None, None, None, Some(ShownOnSi()))
  }

  /** The four fields in the order the configuration writes them. */
  function RoleFields(question: string): seq<Field> {
    [PublicRole(question), RoleDetails(), RelationshipType(), InstitutionName()]
  }

  function RoleFlow(question: string): seq<ContentElement> {
    [Component(PublicRole(question)), Component(RoleDetails()),
     Component(RelationshipType()), Component(InstitutionName())]
  }

  function RoleStart(question: string): Popup {
    Popup("conditional_visibility", ParsedContent(RoleFlow(question), RoleFields(question)),
      map["public_role" := Null, "role_details" := Str(""),
          "relationship_type" := Null, "institution_name" := Str("")],
      map["public_role" := false, "role_details" := false,
          "relationship_type" := false, "institution_name" := false], false, false, None, false)
  }

  lemma RoleOpened(question: string)
    ensures Opened("conditional_visibility", RoleFlow(question)) == RoleStart(question)
  {
    var flow := RoleFlow(question);
    var cs := RoleFields(question);
    assert flow[1..][1..][1..][1..] == [];
    assert ComponentsOf(flow[1..][1..][1..]) == [InstitutionName()];
    assert ComponentsOf(flow[1..][1..]) == [RelationshipType(), InstitutionName()];
    assert ComponentsOf(flow[1..]) == cs[1..];
    assert ComponentsOf(flow) == cs;
    var r2 := map["public_role" := Null, "role_details" := Str("")];
    var e2 := map["public_role" := false, "role_details" := false];
    assert cs[1..][1..] == [RelationshipType(), InstitutionName()];
    assert InitializeResponses(cs, map[], map[]) == InitializeResponses(cs[1..][1..], r2, e2);
    InitializeTwo(RelationshipType(), InstitutionName(), r2, e2);
  }
  /** An answer that lower-cases to `si`, such as the option id `SI` the radio group stores, is not blank. */
  lemma SiNotBlank(answer: string)
    requires Lower(answer) == "si"
    ensures !IsBlank(answer)
  {
    assert LowerChar(answer[0]) == 's';
    NotBlank(answer);
  }

  /** Whatever else the store holds, the dependent fields are shown exactly when the answer lower-cases to `si`. */
  lemma ShownOnSiIff(m: Responses, answer: string)
    requires Lookup(m, "public_role") == Str(answer)
    ensures IsComponentVisible(m, RoleDetails()) <==> Lower(answer) == "si"
    ensures IsComponentVisible(m, RelationshipType()) <==> Lower(answer) == "si"
    ensures IsComponentVisible(m, InstitutionName()) <==> Lower(answer) == "si"
  {
    assert Lower("SI") == "si";
  }

  /** Whatever else the store holds, an answer that lower-cases to `si` shows the dependent fields and requires the first two. */
  lemma SiShowsDependents(m: Responses, answer: string)
    requires Lookup(m, "public_role") == Str(answer) && Lower(answer) == "si"
    ensures IsComponentVisible(m, RoleDetails()) && IsComponentRequired(m, RoleDetails())
    ensures IsComponentVisible(m, RelationshipType()) && IsComponentRequired(m, RelationshipType())
    ensures IsComponentVisible(m, InstitutionName()) && !IsComponentRequired(m, InstitutionName())
  {
    ShownOnSiIff(m, answer);
  }

  /** Any popup on the four fields with the question unanswered hides the dependents and fails on the question. */
  lemma FailsOnQuestion(p: Popup, question: string)
    requires p.Components() == RoleFields(question)
    requires Lookup(p.responses, "public_role") == Null
    ensures forall f <- RoleFields(question)[1..] ::
      !IsComponentVisible(p.responses, f) && !IsComponentRequired(p.responses, f)
    ensures ValidateForm(p).1.firstInvalidComponentId == Some("public_role")
  {
    assert RoleFields(question)[1..] == [RoleDetails(), RelationshipType(), InstitutionName()];
    assert FirstFailure(p.responses, p.Components(), 0);
    ValidateNamesFirstFailure(p, 0);
  }

  /** Any popup on the four fields with `si` answered and the detail text empty fails on the detail text. */
  lemma FailsOnDetails(q: Popup, question: string, answer: string)
    requires q.Components() == RoleFields(question)
    requires Lookup(q.responses, "public_role") == Str(answer) && Lower(answer) == "si"
    requires Lookup(q.responses, "role_details") == Str("")
    ensures ValidateForm(q).1.firstInvalidComponentId == Some("role_details")
  {
    SiNotBlank(answer);
    SiShowsDependents(q.responses, answer);
    assert FirstFailure(q.responses, q.Components(), 1);
    ValidateNamesFirstFailure(q, 1);
  }

  /** Any popup on the four fields with `si` answered and only the detail text filled fails on the relationship dropdown. */
  lemma FailsOnRelationship(u: Popup, question: string, answer: string)
    requires u.Components() == RoleFields(question)
    requires Lookup(u.responses, "public_role") == Str(answer) && Lower(answer) == "si"
    requires Lookup(u.responses, "role_details") == Str("cousin")
    requires Lookup(u.responses, "relationship_type") == Null
    ensures ValidateForm(u).1.firstInvalidComponentId == Some("relationship_type")
  {
    SiNotBlank(answer);
    SiShowsDependents(u.responses, answer);
    NotBlank("cousin");
    assert FirstFailure(u.responses, u.Components(), 2);
    ValidateNamesFirstFailure(u, 2);
  }

  /** Any popup on the four fields with the question answered and both required dependents filled is valid. */
  lemma ValidWhenFilled(w: Popup, question: string, answer: string)
    requires w.Components() == RoleFields(question)
    requires Lookup(w.responses, "public_role") == Str(answer) && !IsBlank(answer)
    requires Lookup(w.responses, "role_details") == Str("cousin")
    requires Lookup(w.responses, "relationship_type") == Str("family")
    ensures ValidateForm(w).0
  {
    NotBlank("cousin");
    NotBlank("family");
    ShownOnSiIff(w.responses, answer);
    assert !Fails(w.responses, PublicRole(question));
    assert !Fails(w.responses, RoleDetails()) && !Fails(w.responses, RelationshipType())
      && !Fails(w.responses, InstitutionName());
    assert forall i :: 0 <= i < 4 ==> !Fails(w.responses, RoleFields(question)[i]);
  }

  /** With no answer the three dependent fields are hidden and not required, and the form fails on the question. */
  lemma RoleUnanswered(question: string)
    ensures forall f <- RoleFields(question)[1..] ::
      !IsComponentVisible(RoleStart(question).responses, f) && !IsComponentRequired(RoleStart(question).responses, f)
    ensures ValidateForm(RoleStart(question)).1.firstInvalidComponentId == Some("public_role")
  {
    var p := RoleStart(question);
    assert Lookup(p.responses, "public_role") == Null;
    assert p.Components() == RoleFields(question);
    FailsOnQuestion(p, question);
  }

  /** Each dependent field is shown exactly when the stored answer lower-cases to `si`. */
  lemma RoleShownIff(question: string, answer: string)
    ensures var q := HandleComponentChange(RoleStart(question), "public_role", Str(answer));
      forall f <- RoleFields(question)[1..] :: IsComponentVisible(q.responses, f) <==> Lower(answer) == "si"
  {
    var p := RoleStart(question);
    var q := HandleComponentChange(p, "public_role", Str(answer));
    ShownOnSiIff(q.responses, answer);
    assert RoleFields(question)[1..] == [RoleDetails(), RelationshipType(), InstitutionName()];
  }

  /** Answering `si` in any case shows the dependent fields, and the detail field is then the first failure. */
  lemma RoleAnswered(question: string, answer: string)
    requires Lower(answer) == "si"
    ensures var q := HandleComponentChange(RoleStart(question), "public_role", Str(answer));
      (forall f <- RoleFields(question)[1..] :: IsComponentVisible(q.responses, f))
      && ValidateForm(q).1.firstInvalidComponentId == Some("role_details")
  {
    var p := RoleStart(question);
    var q := HandleComponentChange(p, "public_role", Str(answer));
    RoleShownIff(question, answer);
    assert Lookup(p.responses, "role_details") == Str("");
    assert q.Components() == RoleFields(question);
    FailsOnDetails(q, question, answer);
  }

  /** With only the detail text filled, the form fails next on the required relationship dropdown. */
  lemma RoleDetailsOnly(question: string, answer: string)
    requires Lower(answer) == "si"
    ensures var q := HandleComponentChange(RoleStart(question), "public_role", Str(answer));
      ValidateForm(HandleComponentChange(q, "role_details", Str("cousin"))).1.firstInvalidComponentId
        == Some("relationship_type")
  {
    var p := RoleStart(question);
    var q := HandleComponentChange(p, "public_role", Str(answer));
    var u := HandleComponentChange(q, "role_details", Str("cousin"));
    assert Lookup(p.responses, "relationship_type") == Null;
    assert u.Components() == RoleFields(question);
    FailsOnRelationship(u, question, answer);
  }

  /**
   * With the question answered and both required dependent fields filled the
   * form is valid, whatever the non-blank answer; the optional institution
   * name may stay empty.
   */
  lemma RoleFilled(question: string, answer: string)
    requires !IsBlank(answer)
    ensures var q := HandleComponentChange(RoleStart(question), "public_role", Str(answer));
      var u := HandleComponentChange(q, "role_details", Str("cousin"));
      ValidateForm(HandleComponentChange(u, "relationship_type", Str("family"))).0
  {
    var p := RoleStart(question);
    var q := HandleComponentChange(p, "public_role", Str(answer));
    var u := HandleComponentChange(q, "role_details", Str("cousin"));
    var w := HandleComponentChange(u, "relationship_type", Str("family"));
    assert w.Components() == RoleFields(question);
    ValidWhenFilled(w, question, answer);
  }

  /**
   * With no answer the dependent fields are hidden and the form fails on the
   * question; answering `si` in any case shows them and makes the detail
   * field the first failure; filling it moves the failure to the
   * relationship dropdown; choosing a relationship makes the form valid.
   */
  lemma VisibleOnAnswer(question: string, answer: string)
    requires Lower(answer) == "si"
    ensures var p := Opened("conditional_visibility", RoleFlow(question));
      && (forall f <- RoleFields(question)[1..] :: !IsComponentVisible(p.responses, f))
      && ValidateForm(p).1.firstInvalidComponentId == Some("public_role")
    ensures var p := Opened("conditional_visibility", RoleFlow(question));
      var q := HandleComponentChange(p, "public_role", Str(answer));
      var u := HandleComponentChange(q, "role_details", Str("cousin"));
      && (forall f <- RoleFields(question)[1..] :: IsComponentVisible(q.responses, f))
      && ValidateForm(q).1.firstInvalidComponentId == Some("role_details")
      && ValidateForm(u).1.firstInvalidComponentId == Some("relationship_type")
      && ValidateForm(HandleComponentChange(u, "relationship_type", Str("family"))).0
  {
    RoleOpened(question);
    RoleUnanswered(question);
    RoleAnswered(question, answer);
    RoleDetailsOnly(question, answer);
    SiNotBlank(answer);
    RoleFilled(question, answer);
  }

  // ---------------------------------------------------------------------
  // A field required for one answer

  function InfoNeeded(): Field {
    Field("additional_info_needed", RadioButton, "Do you have additional information to provide?", true,
      Some([OptionItem(Some("SI"), "YES"), OptionItem(Some("NO"), "NO")]), None, None, None)
  }

  function AdditionalInfo(): Field {
    Field("additional_info", TextField, "Additional Information:", false, None, Some("Provide further details"), None,
      Some(ConditionalLogic("additional_info_needed", "equals", None, true, None, Some("SI"))))
  }

  function InfoFlow(): seq<ContentElement> {
    [Component(InfoNeeded()), Component(AdditionalInfo())]
  }

  function InfoStart(): Popup {
    Popup("conditional_required", ParsedContent(InfoFlow(), [InfoNeeded(), AdditionalInfo()]),
      map["additional_info_needed" := Null, "additional_info" := Str("")],
      map["additional_info_needed" := false, "additional_info" := false], false, false, None, false)
  }

  lemma InfoOpened()
    ensures Opened("conditional_required", InfoFlow()) == InfoStart()
  {
    assert ComponentsOf(InfoFlow()) == [InfoNeeded(), AdditionalInfo()];
  }

  lemma InfoUnanswered()
    ensures IsComponentVisible(InfoStart().responses, AdditionalInfo())
    ensures !IsComponentRequired(InfoStart().responses, AdditionalInfo())
    ensures ValidateForm(InfoStart()).1.firstInvalidComponentId == Some("additional_info_needed")
  {
    var p := InfoStart();
    assert FirstFailure(p.responses, p.Components(), 0);
    ValidateNamesFirstFailure(p, 0);
  }

  lemma InfoYes()
    ensures var q := HandleComponentChange(InfoStart(), "additional_info_needed", Str("SI"));
      IsComponentRequired(q.responses, AdditionalInfo())
      && ValidateForm(q).1.firstInvalidComponentId == Some("additional_info")
  {
    var q := HandleComponentChange(InfoStart(), "additional_info_needed", Str("SI"));
    NotBlank("SI");
    assert !Fails(q.responses, InfoNeeded());
    assert Fails(q.responses, AdditionalInfo());
    assert FirstFailure(q.responses, q.Components(), 1);
    ValidateNamesFirstFailure(q, 1);
  }

  lemma InfoNo()
    ensures var q := HandleComponentChange(InfoStart(), "additional_info_needed", Str("NO"));
      !IsComponentRequired(q.responses, AdditionalInfo()) && ValidateForm(q).0
  {
    var q := HandleComponentChange(InfoStart(), "additional_info_needed", Str("NO"));
    NotBlank("NO");
    assert !Fails(q.responses, InfoNeeded());
    assert !Fails(q.responses, AdditionalInfo());
  }

  /**
   * The detail field is always visible. It is not required until the
   * question is answered `SI`, is then the first failure, and is optional
   * again after the answer `NO`.
   */
  lemma RequiredOnAnswer()
    ensures var p := Opened("conditional_required", InfoFlow());
      && IsComponentVisible(p.responses, AdditionalInfo())
      && !IsComponentRequired(p.responses, AdditionalInfo())
      && ValidateForm(p).1.firstInvalidComponentId == Some("additional_info_needed")
    ensures var p := Opened("conditional_required", InfoFlow());
      var q := HandleComponentChange(p, "additional_info_needed", Str("SI"));
      && IsComponentRequired(q.responses, AdditionalInfo())
      && ValidateForm(q).1.firstInvalidComponentId == Some("additional_info")
    ensures var p := Opened("conditional_required", InfoFlow());
      var q := HandleComponentChange(p, "additional_info_needed", Str("NO"));
      && !IsComponentRequired(q.responses, AdditionalInfo())
      && ValidateForm(q).0
  {
    InfoOpened();
    InfoUnanswered();
    InfoYes();
    InfoNo();
  }
}
