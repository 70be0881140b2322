/**
 * Writing a content flow back out as tagged text, and the proof that
 * `parseMarkdown` reads it back: every well-formed flow survives the round
 * trip, and the fields it holds come out as the component list.
 */
module RoundTrip {
  import opened Wrappers
  import opened JsText
  import opened Search
  import opened Model
  import opened Attributes
  import opened Builder
  import opened Patterns
  import opened Scanner

  // ---------------------------------------------------------------------
  // Option entries

  function IdPart(id: Option<string>): string {
    if id.Some? then " id=\"" + id.value + "\"" else ""
  }

  /** `<option id="…">text</option>`, or `<option>text</option>` without an id. */
  function RenderOption(o: OptionItem): string {
    "<option" + IdPart(o.id) + ">" + o.text + "</option>"
  }

  function RenderOptions(opts: seq<OptionItem>): string {
    if opts == [] then "" else RenderOption(opts[0]) + RenderOptions(opts[1..])
  }

  /** Option entries that can be written so the option pattern reads them back. */
  predicate WellFormedOption(o: OptionItem) {
    && |o.text| > 0 && '<' !in o.text
    && (o.id.Some? ==> o.id.value != "" && '"' !in o.id.value && '<' !in o.id.value)
  }

  lemma IdGroupRendered(id: Option<string>, t: string)
    requires id.Some? ==> '"' !in id.value
    requires StartsWith(t, "<option" + IdPart(id) + ">")
    ensures IdGroup(t, 7).Some? && IdGroup(t, 7).value.0 == (if id.Some? then id.value else "") && IdGroup(t, 7).value.1 == 7 + |IdPart(id)|
  {
    var h := "<option" + IdPart(id) + ">";
    assert t[..|h|] == h;
    assert forall k :: 0 <= k < |h| ==> t[k] == h[k];
    if id.Some? {
      var v := id.value;
      assert t[7] == ' ';
      assert t[8] == 'i';
      SpanWhileIs(t, 7, IsSpace, 8);
      assert t[8..12] == "id=\"";
      assert StartsWith(t[8..], "id=\"");
      assert forall k :: 12 <= k < 12 + |v| ==> t[k] == v[k - 12];
      assert forall k :: 12 <= k < 12 + |v| ==> t[k] != '"';
      assert t[12 + |v|] == '"';
      IndexOfIs(t, '"', 12, 12 + |v|);
      assert t[12..12 + |v|] == v;
    } else {
      assert t[7] == '>';
    }
  }

  /** Where the parts of a written entry sit. */
  lemma RenderedOptionShape(o: OptionItem, u: string)
    ensures var t := RenderOption(o) + u;
      var g := 7 + |IdPart(o.id)|;
      && StartsWith(t, "<option" + IdPart(o.id) + ">")
      && StartsWith(t, "<option")
      && g < |t| && t[g] == '>'
      && t[g + 1..g + 1 + |o.text|] == o.text
      && StartsWith(t[g + 1 + |o.text|..], "</option>")
  {
    var t := RenderOption(o) + u;
    var h := "<option" + IdPart(o.id) + ">";
    var g := 7 + |IdPart(o.id)|;
    var e := g + 1 + |o.text|;
    assert t == h + o.text + "</option>" + u;
    assert t[..|h|] == h;
    assert t[..7] == h[..7];
    DropPrefix3(h, o.text, "</option>" + u);
    assert t[e..e + 9] == "</option>";
  }

  /** The text run of a written entry stops exactly at its closing `</option>`. */
  lemma RenderedOptionText(o: OptionItem, u: string)
    requires '<' !in o.text
    ensures var t := RenderOption(o) + u;
      var g := 7 + |IdPart(o.id)|;
      g + 1 + |o.text| <= |t| && SpanWhile(t, g + 1, NotLt) == g + 1 + |o.text|
  {
    var t := RenderOption(o) + u;
    var g := 7 + |IdPart(o.id)|;
    var e := g + 1 + |o.text|;
    RenderedOptionShape(o, u);
    assert forall k :: g + 1 <= k < e ==> t[k] == o.text[k - g - 1];
    assert forall k :: g + 1 <= k < e ==> NotLt(t[k]);
    assert t[e] == '<';
    SpanWhileIs(t, g + 1, NotLt, e);
  }

  /** The option pattern reads a written entry back, whatever follows it. */
  lemma OptionAtRendered(o: OptionItem, u: string)
    requires WellFormedOption(o)
    ensures OptionAt(RenderOption(o) + u) == Some(OptionMatch(o, |RenderOption(o)|))
  {
    var t := RenderOption(o) + u;
    var g := 7 + |IdPart(o.id)|;
    var e := g + 1 + |o.text|;
    var id := if o.id.Some? then o.id.value else "";
    RenderedOptionShape(o, u);
    RenderedOptionText(o, u);
    IdGroupRendered(o.id, t);
    OptionAtParts(t, id, g, e, OptionMatch(o, |RenderOption(o)|));
  }

  lemma OptionAtParts(t: string, id: string, g: nat, e: nat, m: OptionMatch)
    requires StartsWith(t, "<option") && IdGroup(t, 7).Some? && IdGroup(t, 7).value.0 == id && IdGroup(t, 7).value.1 == g
    requires g < |t| && t[g] == '>'
    requires g + 1 < e <= |t| && SpanWhile(t, g + 1, NotLt) == e
    requires StartsWith(t[e..], "</option>")
    requires m.item.id == (if id == "" then None else Some(id)) && m.item.text == t[g + 1..e] && m.len == e + 9
    ensures OptionAt(t) == Some(m)
  {
    OptionAtIs(t, id, g, e);
  }

  /** An entry matched at the very start of the text is the first one extracted. */
  lemma ExtractFirst(inner: string, m: OptionMatch)
    requires OptionAt(inner) == Some(m)
    ensures m.len <= |inner| && ExtractOptions(inner) == [m.item] + ExtractOptions(inner[m.len..])
  {
    assert inner[0..] == inner;
    FindFromIs(OptionAt, inner, 0, 0);
  }

  /** The option entries of written options are exactly those options, in order. */
  lemma {:induction false} ExtractRendered(opts: seq<OptionItem>)
    requires forall i :: 0 <= i < |opts| ==> WellFormedOption(opts[i])
    ensures ExtractOptions(RenderOptions(opts)) == opts
  {
    if opts == [] {
      assert OptionAt(RenderOptions(opts)[0..]).None? by {
        assert RenderOptions(opts)[0..] == "";
      }
    } else {
      var inner := RenderOptions(opts);
      var first := RenderOption(opts[0]);
      var rest := RenderOptions(opts[1..]);
      assert inner == first + rest;
      OptionAtRendered(opts[0], rest);
      ExtractFirst(inner, OptionMatch(opts[0], |first|));
      DropPrefix(first, rest);
      ExtractRendered(opts[1..]);
      assert [opts[0]] + opts[1..] == opts;
    }
  }

  // ---------------------------------------------------------------------
  // The closer search over written options

  /**
   * Every `<` starts either something other than `</`, or the text
   * `</option>`: so no closer of a longer tag name starts there.
   */
  predicate LtSafe(r: string) {
    forall j :: 0 <= j < |r| ==> LtSafeAt(r, j)
  }

  predicate LtSafeAt(r: string, j: nat)
    requires j < |r|
  {
    r[j] == '<' ==> (j + 1 < |r| && r[j + 1] != '/') || (j + 9 <= |r| && r[j..j + 9] == "</option>")
  }

  lemma LtSafeNoLt(r: string)
    requires '<' !in r
    ensures LtSafe(r)
  {
    forall j | 0 <= j < |r|
      ensures LtSafeAt(r, j)
    {
      assert r[j] in r;
    }
  }

  lemma {:induction false} LtSafeConcat(a: string, b: string)
    requires LtSafe(a) && LtSafe(b)
    ensures LtSafe(a + b)
  {
    var r := a + b;
    forall j | 0 <= j < |r|
      ensures LtSafeAt(r, j)
    {
      if r[j] != '<' {
      } else if j < |a| {
        assert a[j] == '<';
        assert LtSafeAt(a, j);
        if j + 1 < |a| && a[j + 1] != '/' {
          assert r[j + 1] == a[j + 1];
        } else {
          assert a[j..j + 9] == "</option>";
          SliceOfPrefix(a, b, j, j + 9);
        }
      } else {
        var k := j - |a|;
        assert b[k] == r[j];
        assert LtSafeAt(b, k);
        if k + 1 < |b| && b[k + 1] != '/' {
          assert r[j + 1] == b[k + 1];
        } else {
          assert b[k..k + 9] == "</option>";
          assert r[j..j + 9] == b[k..k + 9];
        }
      }
    }
  }

  lemma LtSafeOption(o: OptionItem)
    requires WellFormedOption(o)
    ensures LtSafe(RenderOption(o))
  {
    assert LtSafe("<option") by {
      forall j | 0 <= j < 7
        ensures LtSafeAt("<option", j)
      {
        if j > 0 {
          assert "<option"[j] != '<';
        }
      }
    }
    assert '<' !in IdPart(o.id) by {
      if o.id.Some? {
        assert IdPart(o.id) == " id=\"" + o.id.value + "\"";
        forall k | 0 <= k < |IdPart(o.id)|
          ensures IdPart(o.id)[k] != '<'
        {
          if 5 <= k < 5 + |o.id.value| {
            assert IdPart(o.id)[k] == o.id.value[k - 5];
            assert o.id.value[k - 5] in o.id.value;
          }
        }
      }
    }
    LtSafeNoLt(IdPart(o.id));
    LtSafeNoLt(">");
    LtSafeNoLt(o.text);
    assert LtSafe("</option>") by {
      forall j | 0 <= j < 9
        ensures LtSafeAt("</option>", j)
      {
        if j > 0 {
          assert "</option>"[j] != '<';
        }
      }
    }
    LtSafeConcat("<option", IdPart(o.id));
    LtSafeConcat("<option" + IdPart(o.id), ">");
    LtSafeConcat("<option" + IdPart(o.id) + ">", o.text);
    LtSafeConcat("<option" + IdPart(o.id) + ">" + o.text, "</option>");
  }

  lemma {:induction false} LtSafeOptions(opts: seq<OptionItem>)
    requires forall i :: 0 <= i < |opts| ==> WellFormedOption(opts[i])
    ensures LtSafe(RenderOptions(opts))
  {
    if opts == [] {
      LtSafeNoLt("");
    } else {
      LtSafeOption(opts[0]);
      LtSafeOptions(opts[1..]);
      LtSafeConcat(RenderOption(opts[0]), RenderOptions(opts[1..]));
    }
  }

  /** No closer for a name of seven or more letters starts inside `r`. */
  lemma NoCloserIn(r: string, name: string, x: string)
    requires LtSafe(r) && |name| >= 7 && AllLetters(name)
    ensures forall j :: 0 <= j < |r| ==> CloserAt(name, (r + x)[j..]).None?
  {
    forall j | 0 <= j < |r|
      ensures !StartsWith((r + x)[j..], CloseTag(name))
    {
      var t := (r + x)[j..];
      var c := CloseTag(name);
      assert c[0] == '<' && c[1] == '/' && c[8] == name[6];
      if |t| >= |c| {
        assert t[0] == r[j];
        if r[j] == '<' {
          assert LtSafeAt(r, j);
          if j + 1 < |r| && r[j + 1] != '/' {
            assert t[1] == r[j + 1];
            assert t[..|c|][1] != c[1];
          } else {
            assert r[j..j + 9] == "</option>";
            assert t[8] == r[j + 8] == '>';
            assert IsAsciiLetter(name[6]);
            assert t[..|c|][8] != c[8];
          }
        } else {
          assert t[..|c|][0] != c[0];
        }
      }
    }
  }

  /** A closer with nothing between `</name>` and `dc:::` has the length of both. */
  lemma CloserAtWritten(name: string, x: string)
    ensures CloserAt(name, CloseTag(name) + "dc:::" + x) == Some(|CloseTag(name)| + 5)
  {
    var c := CloseTag(name);
    var t := c + "dc:::" + x;
    assert t[..|c|] == c;
    DropPrefix3(c, "dc:::", x);
    assert t[|c|..][..5] == "dc:::";
    assert t[|c|] == 'd';
    SpanWhileIs(t, |c|, IsSpace, |c|);
  }

  /** The closer search over written options finds the closer written right after them. */
  lemma FindCloserWritten(opts: seq<OptionItem>, name: string, x: string)
    requires forall i :: 0 <= i < |opts| ==> WellFormedOption(opts[i])
    requires |name| >= 7 && AllLetters(name)
    ensures var r := RenderOptions(opts);
      FindFrom(CloserFor(name), r + (CloseTag(name) + "dc:::" + x), 0) == Some(Found(|r|, (|CloseTag(name)| + 5) as nat))
  {
    var r := RenderOptions(opts);
    var y := CloseTag(name) + "dc:::" + x;
    LtSafeOptions(opts);
    NoCloserIn(r, name, y);
    DropPrefix(r, y);
    CloserAtWritten(name, x);
    FindFromIs(CloserFor(name), r + y, 0, |r|);
  }

  // ---------------------------------------------------------------------
  // The opening tag of a written field

  /** An attribute that can sit inside an opening tag: well formed, and no `>` in its value. */
  predicate Writable(a: Attr) {
    a.WellFormed() && (a.value.Some? ==> '>' !in a.value.value)
  }

  predicate AllWritable(attrs: seq<Attr>) {
    forall i :: 0 <= i < |attrs| ==> Writable(attrs[i])
  }

  lemma AllWritableAppend(a: seq<Attr>, b: seq<Attr>)
    requires AllWritable(a) && AllWritable(b)
    ensures AllWritable(a + b)
  {
    forall i | 0 <= i < |a + b|
      ensures Writable((a + b)[i])
    {
      if i >= |a| {
        assert (a + b)[i] == b[i - |a|];
      }
    }
  }

  lemma OptionalWritable(name: string, value: Option<string>)
    requires |name| > 0 && AllNameChars(name)
    requires value.Some? ==> Quotable(value.value)
    ensures AllWritable(OptionalAttr(name, value))
  {
  }

  lemma NameCharNotSpecial(c: char)
    requires IsNameChar(c)
    ensures c != '>' && c != '/' && c != '"' && c != '<'
  {
  }

  /** One written attribute holds no `>` and does not end in `/`. */
  lemma RenderAttrShape(a: Attr)
    requires Writable(a)
    ensures var one := RenderAttr(a);
      |one| > 0 && '>' !in one && one[|one| - 1] != '/'
  {
    var one := RenderAttr(a);
    forall k | 0 <= k < |one|
      ensures one[k] != '>'
    {
      if k < |a.name| {
        NameCharNotSpecial(a.name[k]);
      } else if a.value.Some? && |a.name| + 2 <= k < |a.name| + 2 + |a.value.value| {
        assert one[k] == a.value.value[k - |a.name| - 2];
        assert a.value.value[k - |a.name| - 2] in a.value.value;
      }
    }
    if a.value.None? {
      NameCharNotSpecial(a.name[|a.name| - 1]);
    }
  }

  /** A space, one attribute and the attributes after it keep that shape. */
  lemma SpaceJoinShape(one: string, rest: string)
    requires |one| > 0 && '>' !in one && one[|one| - 1] != '/'
    requires '>' !in rest && (rest != [] ==> rest[|rest| - 1] != '/')
    ensures var w := " " + one + rest;
      '>' !in w && w[0] == ' ' && w[|w| - 1] != '/'
  {
    var w := " " + one + rest;
    forall k | 0 <= k < |w|
      ensures w[k] != '>'
    {
      if 1 <= k < 1 + |one| {
        assert w[k] == one[k - 1];
        assert one[k - 1] in one;
      } else if k >= 1 + |one| {
        assert w[k] == rest[k - 1 - |one|];
        assert rest[k - 1 - |one|] in rest;
      }
    }
    if rest == [] {
      assert w[|w| - 1] == one[|one| - 1];
    } else {
      assert w[|w| - 1] == rest[|rest| - 1];
    }
  }

  lemma AllWritableTail(attrs: seq<Attr>)
    requires AllWritable(attrs) && attrs != []
    ensures AllWritable(attrs[1..]) && Writable(attrs[0])
  {
    forall i | 0 <= i < |attrs[1..]|
      ensures Writable(attrs[1..][i])
    {
      assert attrs[1..][i] == attrs[i + 1];
    }
  }

  /** The written attributes hold no `>`, start with a space and do not end in `/`. */
  lemma {:induction false} RenderAttrsShape(attrs: seq<Attr>)
    requires AllWritable(attrs)
    ensures var w := RenderAttrs(attrs);
      && '>' !in w
      && (attrs == [] <==> w == [])
      && (attrs != [] ==> w[0] == ' ' && w[|w| - 1] != '/')
  {
    if attrs != [] {
      AllWritableTail(attrs);
      RenderAttrsShape(attrs[1..]);
      RenderAttrShape(attrs[0]);
      SpaceJoinShape(RenderAttr(attrs[0]), RenderAttrs(attrs[1..]));
    }
  }

  lemma AllWritable5(a: seq<Attr>, b: seq<Attr>, c: seq<Attr>, d: seq<Attr>, e: seq<Attr>)
    requires AllWritable(a) && AllWritable(b) && AllWritable(c) && AllWritable(d) && AllWritable(e)
    ensures AllWritable(a + b + c + d + e)
  {
    AllWritableAppend(a, b);
    AllWritableAppend(a + b, c);
    AllWritableAppend(a + b + c, d);
    AllWritableAppend(a + b + c + d, e);
  }

  /** The names of the conditional-logic attributes are attribute names. */
  lemma LogicNames()
    ensures AllNameChars("depends-on") && AllNameChars("condition") && AllNameChars("when-value")
    ensures AllNameChars("disable-when-hidden") && AllNameChars("required-when-visible")
    ensures AllNameChars("required-when-value")
  {
  }

  lemma LogicAttrsWritable(logic: Option<ConditionalLogic>)
    requires logic.Some? ==> WellFormedLogic(logic.value)
    ensures AllWritable(LogicAttrs(logic))
  {
    if logic.Some? {
      var l := logic.value;
      var a := [Attr("depends-on", Some(l.dependsOn)), Attr("condition", Some(l.condition))];
      var b := OptionalAttr("when-value", l.value);
      var c := OptionalAttr("disable-when-hidden", if l.disableWhenHidden then None else Some("false"));
      var d := OptionalAttr("required-when-visible",
                 if l.requiredWhenVisible.None? then None else Some(if l.requiredWhenVisible.value then "true" else "false"));
      var e := OptionalAttr("required-when-value", l.requiredWhenValue);
      LogicNames();
      assert AllWritable(a);
      OptionalWritable("when-value", l.value);
      OptionalWritable("disable-when-hidden", if l.disableWhenHidden then None else Some("false"));
      OptionalWritable("required-when-visible",
        if l.requiredWhenVisible.None? then None else Some(if l.requiredWhenVisible.value then "true" else "false"));
      OptionalWritable("required-when-value", l.requiredWhenValue);
      AllWritable5(a, b, c, d, e);
    }
  }

  lemma FieldAttrsWritable(f: Field)
    requires WellFormedField(f)
    ensures AllWritable(FieldAttrs(f)) && |FieldAttrs(f)| >= 2
  {
    var a := [Attr("id", Some(f.id)), Attr("label", Some(f.labelText))];
    var b := OptionalAttr("required", if f.isRequired then Some("true") else None);
    var c := OptionalAttr("placeholder", f.placeholder);
    var d := OptionalAttr("default", f.defaultValue);
    assert AllWritable(a) by {
      assert AllNameChars("id") && AllNameChars("label");
    }
    OptionalWritable("required", if f.isRequired then Some("true") else None);
    OptionalWritable("placeholder", f.placeholder);
    OptionalWritable("default", f.defaultValue);
    AllWritableAppend(a, b);
    AllWritableAppend(a + b, c);
    AllWritableAppend(a + b + c, d);
    LogicAttrsWritable(f.conditionalLogic);
    AllWritableAppend(HeadAttrs(f), LogicAttrs(f.conditionalLogic));
  }

  function CloseMark(selfClosing: bool): string {
    if selfClosing then "/>" else ">"
  }

  /** A character absent from `a` is absent from a copy of `a` inside `t`. */
  lemma NotInSlice(t: string, start: nat, a: string, c: char)
    requires start + |a| <= |t|
    requires forall k :: 0 <= k < |a| ==> t[start + k] == a[k]
    requires c !in a
    ensures forall k :: start <= k < start + |a| ==> t[k] != c
  {
    forall k | start <= k < start + |a|
      ensures t[k] != c
    {
      var i := k - start;
      assert t[start + i] == a[i];
      assert a[i] in a;
    }
  }

  /** Where the parts of a written opening tag sit. */
  lemma WrittenOpenerShape(name: string, a: string, selfClosing: bool, x: string)
    ensures var t := ":::dc<" + name + a + CloseMark(selfClosing) + x;
      var ne := 6 + |name|;
      var m := CloseMark(selfClosing);
      && |t| == ne + |a| + |m| + |x|
      && StartsWith(t, ":::dc") && t[5] == '<'
      && (forall k :: 0 <= k < |name| ==> t[6 + k] == name[k])
      && (forall k :: 0 <= k < |a| ==> t[ne + k] == a[k])
      && (forall k :: 0 <= k < |m| ==> t[ne + |a| + k] == m[k])
  {
    var t := ":::dc<" + name + a + CloseMark(selfClosing) + x;
    assert t[..5] == ":::dc";
  }

  function WrittenOpener(name: string, a: string, selfClosing: bool, x: string): string {
    ":::dc<" + name + a + CloseMark(selfClosing) + x
  }

  lemma OpenerHeadWritten(name: string, a: string, selfClosing: bool, x: string)
    ensures var t := WrittenOpener(name, a, selfClosing, x);
      && StartsWith(t, ":::dc") && |t| == 6 + |name| + |a| + |CloseMark(selfClosing)| + |x|
      && SpanWhile(t, 5, IsSpace) == 5 && t[5] == '<'
  {
    var t := WrittenOpener(name, a, selfClosing, x);
    WrittenOpenerShape(name, a, selfClosing, x);
    SpanWhileIs(t, 5, IsSpace, 5);
  }

  lemma OpenerNameWritten(name: string, a: string, selfClosing: bool, x: string)
    requires AllLetters(name)
    requires a != [] ==> a[0] == ' '
    ensures var t := WrittenOpener(name, a, selfClosing, x);
      6 + |name| < |t| && SpanWhile(t, 6, IsAsciiLetter) == 6 + |name| && t[6..6 + |name|] == name
  {
    var t := WrittenOpener(name, a, selfClosing, x);
    var ne := 6 + |name|;
    var m := CloseMark(selfClosing);
    WrittenOpenerShape(name, a, selfClosing, x);
    assert forall k :: 6 <= k < ne ==> t[k] == name[k - 6];
    assert t[ne] == (if a != [] then a[0] else m[0]);
    SpanWhileIs(t, 6, IsAsciiLetter, ne);
  }

  lemma OpenerGtWritten(name: string, a: string, selfClosing: bool, x: string)
    requires '>' !in a
    ensures var t := WrittenOpener(name, a, selfClosing, x);
      var ne := 6 + |name|;
      ne <= |t| && IndexOf(t, '>', ne) == Some(ne + |a| + |CloseMark(selfClosing)| - 1)
  {
    var t := WrittenOpener(name, a, selfClosing, x);
    var ne := 6 + |name|;
    var m := CloseMark(selfClosing);
    var j := ne + |a| + |m| - 1;
    WrittenOpenerShape(name, a, selfClosing, x);
    NotInSlice(t, ne, a, '>');
    assert t[j] == m[|m| - 1];
    assert selfClosing ==> t[ne + |a|] == m[0];
    IndexOfIs(t, '>', ne, j);
  }

  lemma OpenerSlashWritten(name: string, a: string, selfClosing: bool, x: string)
    requires a != [] ==> a[|a| - 1] != '/'
    ensures var t := WrittenOpener(name, a, selfClosing, x);
      var ne := 6 + |name|;
      var j := ne + |a| + |CloseMark(selfClosing)| - 1;
      && j < |t|
      && (selfClosing <==> j > ne && t[j - 1] == '/')
      && (selfClosing ==> t[ne..j - 1] == a)
      && (!selfClosing ==> t[ne..j] == a)
  {
    var t := WrittenOpener(name, a, selfClosing, x);
    var ne := 6 + |name|;
    var m := CloseMark(selfClosing);
    var j := ne + |a| + |m| - 1;
    WrittenOpenerShape(name, a, selfClosing, x);
    if selfClosing {
      assert t[j - 1] == m[0];
      assert t[ne..j - 1] == a;
    } else {
      if a != [] {
        assert t[j - 1] == a[|a| - 1];
      }
      assert t[ne..j] == a;
    }
  }

  /** The opener pattern reads a written opening tag back, whatever follows it. */
  lemma OpenerAtWritten(name: string, a: string, selfClosing: bool, x: string)
    requires |name| > 0 && AllLetters(name)
    requires '>' !in a
    requires a != [] ==> a[0] == ' ' && a[|a| - 1] != '/'
    ensures OpenerAt(WrittenOpener(name, a, selfClosing, x))
      == Some(Opener(name, a, selfClosing, 6 + |name| + |a| + |CloseMark(selfClosing)|))
  {
    var t := WrittenOpener(name, a, selfClosing, x);
    var ne := 6 + |name|;
    var j := ne + |a| + |CloseMark(selfClosing)| - 1;
    OpenerHeadWritten(name, a, selfClosing, x);
    OpenerNameWritten(name, a, selfClosing, x);
    OpenerGtWritten(name, a, selfClosing, x);
    OpenerSlashWritten(name, a, selfClosing, x);
    OpenerAtIs(t, 5, ne, j);
  }

  // ---------------------------------------------------------------------
  // A written field

  /** Fields that can be written as a tag and read back: options, when present, are non-empty and writable. */
  predicate WellFormedComponent(f: Field) {
    && WellFormedField(f)
    && (f.optionData.Some? ==>
          |f.optionData.value| > 0
          && forall i :: 0 <= i < |f.optionData.value| ==> WellFormedOption(f.optionData.value[i]))
  }

  /** What follows the opening tag: `dc:::` for a field without options, else the options and the closer. */
  function FieldBody(f: Field): string {
    if f.optionData.None? then "dc:::"
    else RenderOptions(f.optionData.value) + (CloseTag(TagName(f.kind)) + "dc:::")
  }

  /**
   * A field as an inline tag: self-closing when it has no options, paired
   * around its `<option>` entries otherwise.
   */
  function RenderField(f: Field): string {
    WrittenOpener(TagName(f.kind), RenderAttrs(FieldAttrs(f)), f.optionData.None?, FieldBody(f))
  }

  lemma WrittenOpenerAppend(name: string, a: string, selfClosing: bool, x: string, y: string)
    ensures WrittenOpener(name, a, selfClosing, x) + y == WrittenOpener(name, a, selfClosing, x + y)
  {
  }

  /** The opening tag of a written field, as the opener pattern reads it. */
  function OpenerOf(f: Field): Opener {
    var a := RenderAttrs(FieldAttrs(f));
    Opener(TagName(f.kind), a, f.optionData.None?, 6 + |TagName(f.kind)| + |a| + |CloseMark(f.optionData.None?)|)
  }

  /** The attribute text of a written field fits between the tag name and the `>`. */
  lemma FieldAttrText(f: Field)
    requires WellFormedField(f)
    ensures var a := RenderAttrs(FieldAttrs(f));
      '>' !in a && a != [] && a[0] == ' ' && a[|a| - 1] != '/'
  {
    FieldAttrsWritable(f);
    RenderAttrsShape(FieldAttrs(f));
  }

  lemma OpenerAtWrittenBefore(name: string, a: string, selfClosing: bool, body: string, more: string)
    requires |name| > 0 && AllLetters(name)
    requires '>' !in a
    requires a != [] ==> a[0] == ' ' && a[|a| - 1] != '/'
    ensures OpenerAt(WrittenOpener(name, a, selfClosing, body) + more)
      == Some(Opener(name, a, selfClosing, 6 + |name| + |a| + |CloseMark(selfClosing)|))
    ensures |WrittenOpener(name, a, selfClosing, body)| == 6 + |name| + |a| + |CloseMark(selfClosing)| + |body|
  {
    WrittenOpenerAppend(name, a, selfClosing, body, more);
    OpenerAtWritten(name, a, selfClosing, body + more);
  }

  lemma OpenerOfWritten(f: Field, more: string)
    requires WellFormedField(f)
    ensures OpenerAt(RenderField(f) + more) == Some(OpenerOf(f))
    ensures |RenderField(f)| == OpenerOf(f).len + |FieldBody(f)|
  {
    LowerTagName(f.kind);
    FieldAttrText(f);
    OpenerAtOf(RenderField(f), OpenerOf(f), TagName(f.kind), RenderAttrs(FieldAttrs(f)), f.optionData.None?, FieldBody(f), more);
  }

  /** `OpenerAtWrittenBefore`, for a text and an opener given by name. */
  lemma OpenerAtOf(w: string, op: Opener, name: string, a: string, selfClosing: bool, body: string, more: string)
    requires |name| > 0 && AllLetters(name)
    requires '>' !in a
    requires a != [] ==> a[0] == ' ' && a[|a| - 1] != '/'
    requires w == WrittenOpener(name, a, selfClosing, body)
    requires op == Opener(name, a, selfClosing, 6 + |name| + |a| + |CloseMark(selfClosing)|)
    ensures OpenerAt(w + more) == Some(op) && |w| == op.len + |body|
  {
    OpenerAtWrittenBefore(name, a, selfClosing, body, more);
  }

  /** The builder turns the written attributes back into the field. */
  lemma BuildWritten(f: Field, freshId: string)
    requires WellFormedField(f)
    ensures CreateComponentFromTag(Lower(TagName(f.kind)), RenderAttrs(FieldAttrs(f)), f.optionData, freshId) == Success(f)
  {
    LowerTagName(f.kind);
    FieldAttrsWritable(f);
    assert RenderAttrs(FieldAttrs(f)) + "" == RenderAttrs(FieldAttrs(f));
    CreateFromWrittenAttributes(TagName(f.kind), FieldAttrs(f), "", f.optionData, freshId);
    BuildFieldAttrs(f, freshId);
  }

  lemma SuffixAtWritten(more: string)
    ensures FindFrom(SuffixAt, "dc:::" + more, 0) == Some(Found(0, 5))
  {
    var r := "dc:::" + more;
    assert r[0] == 'd';
    SpanWhileIs(r, 0, IsSpace, 0);
    assert r[0..][..5] == "dc:::";
    assert r[0..] == r;
    FindFromIs(SuffixAt, r, 0, 0);
  }

  /** After a written opening tag the scan consumes exactly the written body and finds the field's options. */
  lemma BodyAfterWritten(f: Field, more: string)
    requires WellFormedComponent(f)
    ensures BodyAfter(OpenerOf(f), FieldBody(f) + more) == Body(|FieldBody(f)|, f.optionData)
  {
    var name := TagName(f.kind);
    LowerTagName(f.kind);
    if f.optionData.None? {
      SuffixAtWritten(more);
      assert FieldBody(f) + more == "dc:::" + more;
    } else {
      var opts := f.optionData.value;
      var r := RenderOptions(opts);
      var rest := FieldBody(f) + more;
      assert rest == r + (CloseTag(name) + "dc:::" + more);
      FindCloserWritten(opts, name, more);
      assert rest[..|r|] == r;
      ExtractRendered(opts);
    }
  }

  // ---------------------------------------------------------------------
  // Prose next to a tag

  /**
   * No opener starts inside prose that does not contain `:::dc` when a tag
   * follows it: `:::dc` overlaps no `:::` in a way that could let a match
   * start in the prose and run into the tag.
   */
  lemma NoOpenerBeforeTag(t: string, r: string)
    requires !Includes(t, ":::dc")
    requires |r| >= 3 && r[0] == ':' && r[1] == ':' && r[2] == ':'
    ensures forall j :: 0 <= j < |t| ==> OpenerAt((t + r)[j..]).None?
  {
    forall j | 0 <= j < |t|
      ensures !StartsWith((t + r)[j..], ":::dc")
    {
      var u := (t + r)[j..];
      if |u| >= 5 {
        if j + 5 <= |t| {
          assert !OccursAt(t, ":::dc", j);
          assert u[..5] == t[j..j + 5];
        } else if |t| - j <= 3 {
          assert u[3] == r[j + 3 - |t|];
          assert u[..5][3] != ":::dc"[3];
        } else {
          assert u[4] == r[0];
          assert u[..5][4] != ":::dc"[4];
        }
      }
    }
  }

  /** Prose without `:::dc` has no opener in it. */
  lemma NoOpenerInProse(t: string)
    requires !Includes(t, ":::dc")
    ensures NoOpener(t)
  {
    forall j | 0 <= j <= |t|
      ensures !StartsWith(t[j..], ":::dc")
    {
      if j + 5 <= |t| {
        assert !OccursAt(t, ":::dc", j);
        assert t[j..][..5] == t[j..j + 5];
      }
    }
  }

  lemma RenderFieldStart(f: Field)
    ensures |RenderField(f)| >= 3 && RenderField(f)[0] == ':' && RenderField(f)[1] == ':' && RenderField(f)[2] == ':'
  {
    var p := ":::dc<" + TagName(f.kind) + RenderAttrs(FieldAttrs(f)) + CloseMark(f.optionData.None?) + FieldBody(f);
    assert RenderField(f) == p;
    assert p[..6] == ":::dc<";
  }

  // ---------------------------------------------------------------------
  // One step of the scan over written text

  function OpenerText(f: Field): string {
    ":::dc<" + TagName(f.kind) + RenderAttrs(FieldAttrs(f)) + CloseMark(f.optionData.None?)
  }

  lemma RenderFieldSplit(f: Field)
    requires WellFormedField(f)
    ensures RenderField(f) == OpenerText(f) + FieldBody(f)
    ensures |OpenerText(f)| == OpenerOf(f).len
  {
  }

  lemma FindOpenerWritten(t: string, f: Field, more: string)
    requires !Includes(t, ":::dc")
    requires WellFormedField(f)
    ensures FindFrom(OpenerAt, t + RenderField(f) + more, 0) == Some(Found(|t|, OpenerOf(f)))
  {
    var s := t + RenderField(f) + more;
    var r := RenderField(f) + more;
    assert s == t + r;
    DropPrefix(t, r);
    OpenerOfWritten(f, more);
    RenderFieldStart(f);
    assert r[0] == ':' && r[1] == ':' && r[2] == ':';
    NoOpenerBeforeTag(t, r);
    FindFromIs(OpenerAt, s, 0, |t|);
  }

  lemma StepWritten(t: string, f: Field, more: string, ordinal: nat, freshIds: nat -> string)
    requires WellFormedComponent(f)
    ensures var s := t + RenderField(f) + more;
      |t| + OpenerOf(f).len <= |s|
      && Step(s, |t|, OpenerOf(f), ordinal, freshIds).0 == |t| + |RenderField(f)|
      && Step(s, |t|, OpenerOf(f), ordinal, freshIds).1 == Success(f)
  {
    var s := t + RenderField(f) + more;
    var op := OpenerOf(f);
    var rest := FieldBody(f) + more;
    RenderFieldSplit(f);
    assert s == (t + OpenerText(f)) + rest;
    DropPrefix(t + OpenerText(f), rest);
    BodyAfterWritten(f, more);
    BuildWritten(f, freshIds(ordinal));
    StepBuilds(s, |t|, op, ordinal, freshIds, rest, Body(|FieldBody(f)|, f.optionData), f);
  }

  /** A step whose opening tag builds resumes after the consumed body. */
  lemma StepBuilds(s: string, i: nat, op: Opener, ordinal: nat, freshIds: nat -> string,
                   rest: string, body: Body, f: Field)
    requires i + op.len <= |s| && rest == s[i + op.len..]
    requires BodyAfter(op, rest) == body
    requires CreateComponentFromTag(Lower(op.name), op.attrs, body.options, freshIds(ordinal)) == Success(f)
    ensures Step(s, i, op, ordinal, freshIds).0 == i + op.len + body.consumed
    ensures Step(s, i, op, ordinal, freshIds).1 == Success(f)
  {
  }

  /** The scan reads prose followed by a written field as a text segment and a built tag, then goes on. */
  lemma ScanWritten(t: string, f: Field, more: string, ordinal: nat, freshIds: nat -> string)
    requires !Includes(t, ":::dc")
    requires WellFormedComponent(f)
    ensures Scan(t + RenderField(f) + more, ordinal, freshIds)
      == [Text(t), Tag(RenderField(f), Success(f))] + Scan(more, ordinal + 1, freshIds)
  {
    FindOpenerWritten(t, f, more);
    StepWritten(t, f, more, ordinal, freshIds);
    RenderFieldSplit(f);
    ScanAfterOpener(t, RenderField(f), more, Success(f), ordinal, freshIds, OpenerOf(f));
  }

  // ---------------------------------------------------------------------
  // Whole content flows

  function RenderElement(e: ContentElement): string {
    match e
    case Prose(t) => t
    case Component(f) => RenderField(f)
  }

  /** A content flow written out: prose as itself, fields as inline tags. */
  function RenderFlow(flow: seq<ContentElement>): string {
    if flow == [] then "" else RenderElement(flow[0]) + RenderFlow(flow[1..])
  }

  /** Prose the scan keeps as one chunk: not blank, and without `:::dc`. */
  predicate WellFormedProse(t: string) {
    !IsBlank(t) && !Includes(t, ":::dc")
  }

  predicate WellFormedElement(e: ContentElement) {
    match e
    case Prose(t) => WellFormedProse(t)
    case Component(f) => WellFormedComponent(f)
  }

  /** Flows `parseMarkdown` can produce: well-formed elements and no two prose chunks in a row. */
  predicate WellFormedFlow(flow: seq<ContentElement>) {
    && (forall i :: 0 <= i < |flow| ==> WellFormedElement(flow[i]))
    && (forall i :: 0 <= i < |flow| - 1 ==> flow[i].Component? || flow[i + 1].Component?)
  }

  lemma WellFormedFlowTail(flow: seq<ContentElement>, k: nat)
    requires WellFormedFlow(flow) && k <= |flow|
    ensures WellFormedFlow(flow[k..])
  {
    forall i | 0 <= i < |flow[k..]| - 1
      ensures flow[k..][i].Component? || flow[k..][i + 1].Component?
    {
      assert flow[k..][i] == flow[k + i] && flow[k..][i + 1] == flow[k + i + 1];
    }
  }

  lemma AssembleStep(t: string, text: string, f: Field, tail: seq<Segment>)
    ensures Assemble([Text(t), Tag(text, Success(f))] + tail).contentFlow
      == (if IsBlank(t) then [] else [Prose(t)]) + [Component(f)] + Assemble(tail).contentFlow
  {
    var segs := [Text(t), Tag(text, Success(f))] + tail;
    assert segs[1..] == [Tag(text, Success(f))] + tail;
    assert segs[1..][1..] == tail;
  }

  lemma ScanProse(t: string, ordinal: nat, freshIds: nat -> string)
    requires !Includes(t, ":::dc")
    ensures Scan(t, ordinal, freshIds) == [Text(t)]
  {
    NoOpenerInProse(t);
  }

  lemma EmptyHasNoMarker()
    ensures !Includes("", ":::dc")
  {
  }

  /** One field, preceded by prose or by nothing, then a flow the scan already reads back. */
  lemma ScanFieldThen(t: string, f: Field, rest: seq<ContentElement>, ordinal: nat, freshIds: nat -> string)
    requires t == "" || WellFormedProse(t)
    requires WellFormedComponent(f)
    requires Assemble(Scan(RenderFlow(rest), ordinal + 1, freshIds)).contentFlow == rest
    ensures Assemble(Scan(t + RenderField(f) + RenderFlow(rest), ordinal, freshIds)).contentFlow
      == (if t == "" then [] else [Prose(t)]) + [Component(f)] + rest
  {
    var more := RenderFlow(rest);
    EmptyHasNoMarker();
    ScanWritten(t, f, more, ordinal, freshIds);
    AssembleStep(t, RenderField(f), f, Scan(more, ordinal + 1, freshIds));
  }

  lemma Cons1<T>(xs: seq<T>)
    requires |xs| >= 1
    ensures [xs[0]] + xs[1..] == xs
  {
  }

  lemma Cons2<T>(xs: seq<T>)
    requires |xs| >= 2
    ensures [xs[0], xs[1]] + xs[2..] == xs
  {
  }

  lemma EmptyPrefix(x: string, y: string)
    ensures "" + x + y == x + y
  {
  }

  lemma RenderFlowCons(flow: seq<ContentElement>)
    requires |flow| >= 1
    ensures RenderFlow(flow) == RenderElement(flow[0]) + RenderFlow(flow[1..])
  {
  }

  lemma ScanProseLast(flow: seq<ContentElement>, ordinal: nat, freshIds: nat -> string)
    requires |flow| == 1 && flow[0].Prose? && WellFormedProse(flow[0].text)
    ensures Assemble(Scan(RenderFlow(flow), ordinal, freshIds)).contentFlow == flow
  {
    RenderFlowCons(flow);
    assert RenderFlow(flow) == flow[0].text + "";
    ScanProse(flow[0].text, ordinal, freshIds);
    Cons1(flow);
  }

  lemma ScanProseThenField(flow: seq<ContentElement>, ordinal: nat, freshIds: nat -> string)
    requires |flow| >= 2 && flow[0].Prose? && flow[1].Component?
    requires WellFormedProse(flow[0].text) && WellFormedComponent(flow[1].field)
    requires Assemble(Scan(RenderFlow(flow[2..]), ordinal + 1, freshIds)).contentFlow == flow[2..]
    ensures Assemble(Scan(RenderFlow(flow), ordinal, freshIds)).contentFlow == flow
  {
    RenderProseThenField(flow);
    ScanFieldThen(flow[0].text, flow[1].field, flow[2..], ordinal, freshIds);
    ProseThenFieldCons(flow);
  }

  lemma RenderProseThenField(flow: seq<ContentElement>)
    requires |flow| >= 2 && flow[0].Prose? && flow[1].Component?
    ensures RenderFlow(flow) == flow[0].text + RenderField(flow[1].field) + RenderFlow(flow[2..])
  {
    RenderFlowCons(flow);
    RenderFlowCons(flow[1..]);
    assert flow[1..][1..] == flow[2..];
  }

  lemma ProseThenFieldCons(flow: seq<ContentElement>)
    requires |flow| >= 2 && flow[0].Prose? && flow[1].Component? && WellFormedProse(flow[0].text)
    ensures flow[0].text != ""
    ensures [Prose(flow[0].text)] + [Component(flow[1].field)] + flow[2..] == flow
  {
    Cons2(flow);
  }

  lemma ScanFieldFirst(flow: seq<ContentElement>, ordinal: nat, freshIds: nat -> string)
    requires |flow| >= 1 && flow[0].Component? && WellFormedComponent(flow[0].field)
    requires Assemble(Scan(RenderFlow(flow[1..]), ordinal + 1, freshIds)).contentFlow == flow[1..]
    ensures Assemble(Scan(RenderFlow(flow), ordinal, freshIds)).contentFlow == flow
  {
    var f := flow[0].field;
    RenderFlowCons(flow);
    EmptyPrefix(RenderField(f), RenderFlow(flow[1..]));
    ScanFieldThen("", f, flow[1..], ordinal, freshIds);
    Cons1(flow);
  }

  /** Every well-formed flow, written out and scanned, assembles back into itself. */
  lemma {:induction false} ScanFlow(flow: seq<ContentElement>, ordinal: nat, freshIds: nat -> string)
    requires WellFormedFlow(flow)
    ensures Assemble(Scan(RenderFlow(flow), ordinal, freshIds)).contentFlow == flow
    decreases |flow|
  {
    if flow == [] {
      EmptyHasNoMarker();
      ScanProse("", ordinal, freshIds);
    } else if flow[0].Prose? && |flow| == 1 {
      assert WellFormedElement(flow[0]);
      ScanProseLast(flow, ordinal, freshIds);
    } else if flow[0].Prose? {
      assert WellFormedElement(flow[0]);
      assert flow[1].Component?;
      assert WellFormedElement(flow[1]);
      WellFormedFlowTail(flow, 2);
      ScanFlow(flow[2..], ordinal + 1, freshIds);
      ScanProseThenField(flow, ordinal, freshIds);
    } else {
      assert WellFormedElement(flow[0]);
      WellFormedFlowTail(flow, 1);
      ScanFlow(flow[1..], ordinal + 1, freshIds);
      ScanFieldFirst(flow, ordinal, freshIds);
    }
  }

  /**
   * The round trip: parsing a well-formed flow written out gives that flow
   * back as the content flow, and its fields, in order, as the components,
   * whatever ids the source would synthesize.
   */
  lemma ParseRenderedFlow(flow: seq<ContentElement>, freshIds: nat -> string)
    requires WellFormedFlow(flow)
    ensures ParseMarkdown(RenderFlow(flow), freshIds) == ParsedContent(flow, ComponentsOf(flow))
  {
    ScanFlow(flow, 0, freshIds);
  }

  // ---------------------------------------------------------------------
  // Recovery: tags that do not build, and paired tags that never close

  lemma WrittenOpenerStart(name: string, a: string, selfClosing: bool, body: string)
    ensures var w := WrittenOpener(name, a, selfClosing, body);
      |w| >= 3 && w[0] == ':' && w[1] == ':' && w[2] == ':'
  {
    var w := WrittenOpener(name, a, selfClosing, body);
    assert w[..6] == ":::dc<";
  }

  /** Prose without `:::dc` followed by an opening tag: the search finds that tag. */
  lemma FindOpenerAfterProse(t: string, r: string, op: Opener)
    requires !Includes(t, ":::dc")
    requires |r| >= 3 && r[0] == ':' && r[1] == ':' && r[2] == ':'
    requires OpenerAt(r) == Some(op)
    ensures FindFrom(OpenerAt, t + r, 0) == Some(Found(|t|, op))
  {
    DropPrefix(t, r);
    NoOpenerBeforeTag(t, r);
    FindFromIs(OpenerAt, t + r, 0, |t|);
  }

  lemma FindWrittenOpener(t: string, name: string, a: string, selfClosing: bool, more: string)
    requires !Includes(t, ":::dc")
    requires |name| > 0 && AllLetters(name)
    requires '>' !in a
    requires a != [] ==> a[0] == ' ' && a[|a| - 1] != '/'
    ensures var w := WrittenOpener(name, a, selfClosing, "");
      FindFrom(OpenerAt, t + w + more, 0) == Some(Found(|t|, Opener(name, a, selfClosing, |w|)))
  {
    var w := WrittenOpener(name, a, selfClosing, "");
    var r := w + more;
    OpenerAtWrittenBefore(name, a, selfClosing, "", more);
    WrittenOpenerStart(name, a, selfClosing, "");
    FindOpenerAfterProse(t, r, Opener(name, a, selfClosing, |w|));
    assert t + w + more == t + r;
  }

  lemma ScanAfterOpener(t: string, w: string, more: string, built: Result<Field, BuildError>,
                        ordinal: nat, freshIds: nat -> string, op: Opener)
    requires FindFrom(OpenerAt, t + w + more, 0) == Some(Found(|t|, op)) && op.len <= |w|
    requires Step(t + w + more, |t|, op, ordinal, freshIds).0 == |t| + |w|
    requires Step(t + w + more, |t|, op, ordinal, freshIds).1 == built
    ensures Scan(t + w + more, ordinal, freshIds) == [Text(t), Tag(w, built)] + Scan(more, ordinal + 1, freshIds)
  {
    var s := t + w + more;
    assert s[..|t|] == t;
    assert s[|t|..|t| + |w|] == w;
    assert s[|t| + |w|..] == more;
  }

  /** A tag that the search finds after opener-free prose, then opener-free prose: three pieces. */
  lemma ScanTagBetween(t: string, w: string, tail: string, built: Result<Field, BuildError>,
                       ordinal: nat, freshIds: nat -> string, op: Opener)
    requires !Includes(tail, ":::dc")
    requires FindFrom(OpenerAt, t + w + tail, 0) == Some(Found(|t|, op)) && op.len <= |w|
    requires Step(t + w + tail, |t|, op, ordinal, freshIds).0 == |t| + |w|
    requires Step(t + w + tail, |t|, op, ordinal, freshIds).1 == built
    ensures Scan(t + w + tail, ordinal, freshIds) == [Text(t), Tag(w, built), Text(tail)]
  {
    ScanAfterOpener(t, w, tail, built, ordinal, freshIds, op);
    ScanProse(tail, ordinal + 1, freshIds);
  }

  /** A tag of an unknown type throws, and the scan resumes right after its opening tag. */
  lemma StepUnsupported(s: string, i: nat, op: Opener, ordinal: nat, freshIds: nat -> string)
    requires i + op.len <= |s|
    requires TypeOfTag(Lower(op.name)).None?
    ensures Step(s, i, op, ordinal, freshIds).0 == i + op.len
    ensures Step(s, i, op, ordinal, freshIds).1.Failure?
  {
    LowerIdempotent(op.name);
  }

  lemma AssembleFailStep(t: string, text: string, built: Result<Field, BuildError>, tail: seq<Segment>)
    requires built.Failure?
    ensures Assemble([Text(t), Tag(text, built)] + tail).contentFlow
      == (if IsBlank(t) then [] else [Prose(t)]) + Assemble(tail).contentFlow
  {
    var segs := [Text(t), Tag(text, built)] + tail;
    assert segs[1..] == [Tag(text, built)] + tail;
    assert segs[1..][1..] == tail;
  }

  /**
   * A tag whose name is not one of the five field types yields no
   * component and no content, and the scan resumes right after its opening
   * tag, so whatever a paired one encloses is read as content.
   */
  lemma ScanUnsupported(t: string, name: string, a: string, selfClosing: bool, more: string,
                        ordinal: nat, freshIds: nat -> string)
    requires !Includes(t, ":::dc")
    requires |name| > 0 && AllLetters(name) && TypeOfTag(Lower(name)).None?
    requires '>' !in a
    requires a != [] ==> a[0] == ' ' && a[|a| - 1] != '/'
    ensures var w := WrittenOpener(name, a, selfClosing, "");
      exists e :: Scan(t + w + more, ordinal, freshIds) == [Text(t), Tag(w, Failure(e))] + Scan(more, ordinal + 1, freshIds)
    ensures var w := WrittenOpener(name, a, selfClosing, "");
      Assemble(Scan(t + w + more, ordinal, freshIds)).contentFlow
        == (if IsBlank(t) then [] else [Prose(t)]) + Assemble(Scan(more, ordinal + 1, freshIds)).contentFlow
  {
    var w := WrittenOpener(name, a, selfClosing, "");
    var op := Opener(name, a, selfClosing, |w|);
    var s := t + w + more;
    FindWrittenOpener(t, name, a, selfClosing, more);
    StepUnsupported(s, |t|, op, ordinal, freshIds);
    var built := Step(s, |t|, op, ordinal, freshIds).1;
    ScanAfterOpener(t, w, more, built, ordinal, freshIds, op);
    AssembleFailStep(t, w, built, Scan(more, ordinal + 1, freshIds));
  }

  /** With no closer for a paired tag, nothing after its opening tag is consumed and it has no options. */
  lemma BodyUnclosed(op: Opener, more: string)
    requires !op.selfClosing
    requires forall j :: 0 <= j <= |more| ==> CloserAt(Lower(op.name), more[j..]).None?
    ensures BodyAfter(op, more) == Body(0, None)
  {
  }

  lemma StepUnclosed(t: string, f: Field, w: string, more: string, ordinal: nat, freshIds: nat -> string)
    requires WellFormedField(f) && f.optionData.None?
    requires w == WrittenOpener(TagName(f.kind), RenderAttrs(FieldAttrs(f)), false, "")
    requires forall j :: 0 <= j <= |more| ==> CloserAt(TagName(f.kind), more[j..]).None?
    ensures var op := Opener(TagName(f.kind), RenderAttrs(FieldAttrs(f)), false, |w|);
      |t| + |w| <= |t + w + more|
      && Step(t + w + more, |t|, op, ordinal, freshIds).0 == |t| + |w|
      && Step(t + w + more, |t|, op, ordinal, freshIds).1 == Success(f)
  {
    var op := Opener(TagName(f.kind), RenderAttrs(FieldAttrs(f)), false, |w|);
    var s := t + w + more;
    LowerTagName(f.kind);
    DropPrefix(t + w, more);
    assert s[|t| + |w|..] == more;
    BodyUnclosed(op, more);
    BuildWritten(f, freshIds(ordinal));
    StepBuilds(s, |t|, op, ordinal, freshIds, more, Body(0, None), f);
  }

  /**
   * A paired tag with no closer anywhere after it is still built, with no
   * options, and the scan resumes right after its opening tag.
   */
  lemma ScanUnclosed(t: string, f: Field, more: string, ordinal: nat, freshIds: nat -> string)
    requires !Includes(t, ":::dc")
    requires WellFormedField(f) && f.optionData.None?
    requires forall j :: 0 <= j <= |more| ==> CloserAt(TagName(f.kind), more[j..]).None?
    ensures var w := WrittenOpener(TagName(f.kind), RenderAttrs(FieldAttrs(f)), false, "");
      Scan(t + w + more, ordinal, freshIds) == [Text(t), Tag(w, Success(f))] + Scan(more, ordinal + 1, freshIds)
  {
    var name := TagName(f.kind);
    var a := RenderAttrs(FieldAttrs(f));
    var w := WrittenOpener(name, a, false, "");
    var op := Opener(name, a, false, |w|);
    LowerTagName(f.kind);
    FieldAttrText(f);
    FindWrittenOpener(t, name, a, false, more);
    StepUnclosed(t, f, w, more, ordinal, freshIds);
    ScanAfterOpener(t, w, more, Success(f), ordinal, freshIds, op);
  }

  /**
   * Recovery from a tag of an unknown type, on any input: the first opening
   * tag the search finds throws, the text before it is a gap, and the scan
   * resumes right after the opening tag, whatever its spelling.
   */
  lemma ScanUnsupportedAt(s: string, i: nat, op: Opener, ordinal: nat, freshIds: nat -> string)
    requires FindFrom(OpenerAt, s, 0) == Some(Found(i, op))
    requires TypeOfTag(Lower(op.name)).None?
    ensures i + op.len <= |s| && Step(s, i, op, ordinal, freshIds).0 == i + op.len
    ensures Step(s, i, op, ordinal, freshIds).1.Failure?
    ensures var (end, built) := Step(s, i, op, ordinal, freshIds);
      Scan(s, ordinal, freshIds) == [Text(s[..i]), Tag(s[i..end], built)] + Scan(s[end..], ordinal + 1, freshIds)
    ensures var end := Step(s, i, op, ordinal, freshIds).0;
      Assemble(Scan(s, ordinal, freshIds)).contentFlow
        == (if IsBlank(s[..i]) then [] else [Prose(s[..i])]) + Assemble(Scan(s[end..], ordinal + 1, freshIds)).contentFlow
  {
    FirstOpenerFits(s, i, op);
    StepUnsupported(s, i, op, ordinal, freshIds);
    ScanStep(s, i, op, ordinal, freshIds);
    var (end, built) := Step(s, i, op, ordinal, freshIds);
    AssembleFailStep(s[..i], s[i..end], built, Scan(s[end..], ordinal + 1, freshIds));
  }

  /**
   * A paired opening tag with no closer for its lower-cased name anywhere
   * after it, on any input: the builder gets no options, and the scan
   * resumes right after the opening tag whether or not the build succeeds.
   */
  lemma ScanUnclosedAt(s: string, i: nat, op: Opener, ordinal: nat, freshIds: nat -> string)
    requires FindFrom(OpenerAt, s, 0) == Some(Found(i, op))
    requires !op.selfClosing
    requires forall j :: i + op.len <= j <= |s| ==> CloserAt(Lower(op.name), s[j..]).None?
    ensures i + op.len <= |s| && Step(s, i, op, ordinal, freshIds).0 == i + op.len
    ensures Step(s, i, op, ordinal, freshIds).1 == CreateComponentFromTag(Lower(op.name), op.attrs, None, freshIds(ordinal))
    ensures var (end, built) := Step(s, i, op, ordinal, freshIds);
      Scan(s, ordinal, freshIds) == [Text(s[..i]), Tag(s[i..end], built)] + Scan(s[end..], ordinal + 1, freshIds)
  {
    FirstOpenerFits(s, i, op);
    StepNoCloser(s, i, op, ordinal, freshIds);
    ScanStep(s, i, op, ordinal, freshIds);
  }

  /** With no closer after a paired opening tag, the builder gets no options and nothing after the tag is consumed. */
  lemma StepNoCloser(s: string, i: nat, op: Opener, ordinal: nat, freshIds: nat -> string)
    requires i + op.len <= |s| && !op.selfClosing
    requires forall j :: i + op.len <= j <= |s| ==> CloserAt(Lower(op.name), s[j..]).None?
    ensures Step(s, i, op, ordinal, freshIds).0 == i + op.len
    ensures Step(s, i, op, ordinal, freshIds).1 == CreateComponentFromTag(Lower(op.name), op.attrs, None, freshIds(ordinal))
  {
    var rest := s[i + op.len..];
    forall j | 0 <= j <= |rest| ensures CloserAt(Lower(op.name), rest[j..]).None? {
      assert rest[j..] == s[i + op.len + j..];
    }
    BodyUnclosed(op, rest);
  }
}
