/**
 * The attribute parser of `createComponentFromTag`: the global pattern
 * `([a-zA-Z0-9_-]+)(?:="([^"]*)")?` run over the attribute text, each match
 * recorded in an attribute map, a bare name standing for `"true"` and a later
 * duplicate overwriting an earlier one.
 */
module Attributes {
  import opened Wrappers
  import opened JsText
  import opened Search

  /** One match of the attribute pattern: the name, the recorded value and the match length. */
  datatype AttrToken = AttrToken(name: string, value: string, len: nat)

  /**
   * The attribute pattern matched at the start of `t`. The name run is
   * greedy and the quoted part optional, so the name is the longest run of
   * name characters; the quoted part is taken when `="` follows and a closing
   * quote exists, and otherwise the match ends after the name with value
   * `"true"`.
   */
  function AttrAt(t: string): (r: Option<AttrToken>)
    ensures r.Some? ==> 0 < |r.value.name| <= r.value.len <= |t|
    ensures r.Some? ==> r.value.name == t[..|r.value.name|] && AllNameChars(r.value.name)
    ensures r.Some? ==> '"' !in r.value.value
    ensures r.None? <==> (|t| == 0 || !IsNameChar(t[0]))
  {
    var n := SpanWhile(t, 0, IsNameChar);
    if n == 0 then None
    else if n + 2 <= |t| && t[n] == '=' && t[n + 1] == '"' then
      match IndexOf(t, '"', n + 2)
      case Some(q) => Some(AttrToken(t[..n], t[n + 2..q], q + 1))
      case None => Some(AttrToken(t[..n], "true", n))
    else Some(AttrToken(t[..n], "true", n))
  }

  /**
   * The name is the longest run of name characters at the start. The value
   * is the text between `="` and the next double quote when both are there,
   * and `"true"` with the match ending after the name otherwise.
   */
  lemma AttrAtRule(t: string)
    ensures AttrAt(t).Some? ==> |AttrAt(t).value.name| == |t| || !IsNameChar(t[|AttrAt(t).value.name|])
    ensures AttrAt(t).Some? ==> var n, tok := |AttrAt(t).value.name|, AttrAt(t).value;
      if n + 2 <= |t| && t[n] == '=' && t[n + 1] == '"' && '"' in t[n + 2..] then
        n + 3 <= tok.len && t[tok.len - 1] == '"' && tok.value == t[n + 2..tok.len - 1]
      else
        tok.len == n && tok.value == "true"
  {
    var n := SpanWhile(t, 0, IsNameChar);
    if n > 0 && n + 2 <= |t| && t[n] == '=' && t[n + 1] == '"' {
      match IndexOf(t, '"', n + 2)
      case Some(q) =>
        assert t[q] in t[n + 2..] by {
          assert t[n + 2..][q - n - 2] == t[q];
        }
      case None =>
    }
  }

  /** The attribute map built from the attribute text of an opening tag. */
  function ParseAttributes(t: string): (m: map<string, string>)
    decreases |t|, 1
  {
    ParseFrom(t, FindFrom(AttrAt, t, 0))
  }

  /** The attribute map, given where the scan finds the first attribute of `t`. */
  function ParseFrom(t: string, first: Option<Found<AttrToken>>): (m: map<string, string>)
    requires first.Some? ==> 0 < first.value.m.len && first.value.index + first.value.m.len <= |t|
    decreases |t|, 0
  {
    match first
    case None => map[]
    case Some(Found(i, tok)) => map[tok.name := tok.value] + ParseAttributes(t[i + tok.len..])
  }

  /**
   * Every key is a non-empty run of name characters, and no value holds a
   * double quote; in particular a key is present only if the text matched
   * it somewhere.
   */
  lemma {:induction false} ParsedKeys(t: string, k: string)
    requires k in ParseAttributes(t)
    ensures |k| > 0 && AllNameChars(k) && '"' !in ParseAttributes(t)[k]
    decreases |t|
  {
    var f := FindFrom(AttrAt, t, 0);
    if f.Some? {
      var i, tok := f.value.index, f.value.m;
      ParseStep(t, i, tok);
      FoundToken(t, i, tok);
      var rest := ParseAttributes(t[i + tok.len..]);
      UnionLookup(map[tok.name := tok.value], rest, k);
      if k in rest {
        ParsedKeys(t[i + tok.len..], k);
      }
    }
  }

  /** One step of the attribute scan: the match found binds its name, and the scan goes on after it. */
  lemma ParseStep(t: string, i: nat, tok: AttrToken)
    requires FindFrom(AttrAt, t, 0) == Some(Found(i, tok))
    ensures i + tok.len <= |t|
    ensures ParseAttributes(t) == map[tok.name := tok.value] + ParseAttributes(t[i + tok.len..])
  {
    FoundToken(t, i, tok);
    ParseFromSome(t, i, tok, FindFrom(AttrAt, t, 0));
  }

  lemma ParseFromSome(t: string, i: nat, tok: AttrToken, first: Option<Found<AttrToken>>)
    requires first == Some(Found(i, tok))
    requires 0 < tok.len && i + tok.len <= |t|
    ensures ParseFrom(t, first) == map[tok.name := tok.value] + ParseAttributes(t[i + tok.len..])
  {
  }

  /** The token the scan reports is a match of the attribute pattern at its index. */
  lemma FoundToken(t: string, i: nat, tok: AttrToken)
    requires FindFrom(AttrAt, t, 0) == Some(Found(i, tok))
    ensures i + tok.len <= |t| && AttrAt(t[i..]) == Some(tok)
    ensures |tok.name| > 0 && AllNameChars(tok.name) && '"' !in tok.value
  {
    assert AttrAt(t[i..]) == Some(tok);
  }

  /** A key of a union is looked up on the right when it is bound there, and on the left otherwise. */
  lemma UnionLookup<K, V>(h: map<K, V>, r: map<K, V>, k: K)
    requires k in h + r
    ensures k in r ==> (h + r)[k] == r[k]
    ensures k !in r ==> k in h && (h + r)[k] == h[k]
  {
  }

  lemma UnionAssoc<K, V>(h: map<K, V>, x: map<K, V>, y: map<K, V>)
    ensures h + (x + y) == (h + x) + y
  {
  }

  /** An attribute as written in a tag: `name` alone or `name="value"`. */
  datatype Attr = Attr(name: string, value: Option<string>) {
    /** The value the attribute map records for it. */
    function Recorded(): string {
      if value.Some? then value.value else "true"
    }

    predicate WellFormed() {
      |name| > 0 && AllNameChars(name) && (value.Some? ==> '"' !in value.value)
    }
  }

  function RenderAttr(a: Attr): string {
    a.name + (if a.value.Some? then "=\"" + a.value.value + "\"" else "")
  }

  /** Attributes written out in order, each preceded by one space. */
  function RenderAttrs(attrs: seq<Attr>): string {
    if attrs == [] then "" else " " + RenderAttr(attrs[0]) + RenderAttrs(attrs[1..])
  }

  /** The map the attributes denote: each name bound to its recorded value, later ones winning. */
  function AttrMap(attrs: seq<Attr>): map<string, string> {
    if attrs == [] then map[] else map[attrs[0].name := attrs[0].Recorded()] + AttrMap(attrs[1..])
  }

  /** A name is bound iff some attribute carries it. */
  lemma {:induction false} AttrMapKeys(attrs: seq<Attr>, k: string)
    ensures k in AttrMap(attrs) <==> exists i :: 0 <= i < |attrs| && attrs[i].name == k
  {
    if attrs != [] {
      AttrMapKeys(attrs[1..], k);
      if k in AttrMap(attrs[1..]) {
        var i :| 0 <= i < |attrs[1..]| && attrs[1..][i].name == k;
        assert attrs[i + 1].name == k;
      }
      if exists i :: 0 <= i < |attrs| && attrs[i].name == k {
        var i :| 0 <= i < |attrs| && attrs[i].name == k;
        if i > 0 {
          assert attrs[1..][i - 1].name == k;
        }
      }
    }
  }

  /** The value bound to a name is that of its last occurrence: a later duplicate overwrites an earlier one. */
  lemma {:induction false} AttrMapLast(attrs: seq<Attr>, i: nat)
    requires i < |attrs|
    requires forall j :: i < j < |attrs| ==> attrs[j].name != attrs[i].name
    ensures attrs[i].name in AttrMap(attrs)
    ensures AttrMap(attrs)[attrs[i].name] == attrs[i].Recorded()
  {
    if i == 0 {
      AttrMapKeys(attrs[1..], attrs[0].name);
    } else {
      AttrMapLast(attrs[1..], i - 1);
    }
  }

  lemma {:induction false} AttrMapAppend(a: seq<Attr>, b: seq<Attr>)
    ensures AttrMap(a + b) == AttrMap(a) + AttrMap(b)
  {
    if a == [] {
      assert a + b == b;
    } else {
      assert (a + b)[0] == a[0];
      assert (a + b)[1..] == a[1..] + b;
      AttrMapAppend(a[1..], b);
      var h := map[a[0].name := a[0].Recorded()];
      var x, y := AttrMap(a[1..]), AttrMap(b);
      assert AttrMap(a + b) == h + AttrMap(a[1..] + b);
      UnionAssoc(h, x, y);
    }
  }

  /** Text with no name character yields no attributes. */
  lemma ParseBlank(t: string)
    requires IsBlank(t)
    ensures ParseAttributes(t) == map[]
  {
    forall j | 0 <= j <= |t|
      ensures AttrAt(t[j..]).None?
    {
      if j < |t| {
        SpaceIsNotNameChar(t[j]);
      }
    }
  }

  /** One written attribute, followed by nothing or by whitespace, is matched whole. */
  lemma AttrAtRendered(a: Attr, u: string)
    requires a.WellFormed()
    requires u == [] || IsSpace(u[0])
    ensures AttrAt(RenderAttr(a) + u) == Some(AttrToken(a.name, a.Recorded(), |RenderAttr(a)|))
  {
    var w := RenderAttr(a) + u;
    var n := |a.name|;
    assert w[..n] == a.name;
    forall k | 0 <= k < n ensures IsNameChar(w[k]) {
      assert w[k] == a.name[k];
    }
    if n < |w| {
      if a.value.Some? {
        assert w[n] == '=';
      } else {
        assert w[n] == u[0];
        SpaceIsNotNameChar(u[0]);
      }
    }
    SpanWhileIs(w, 0, IsNameChar, n);
    if a.value.Some? {
      var v := a.value.value;
      assert w[n] == '=' && w[n + 1] == '"';
      assert w[n + 2 + |v|] == '"';
      forall k | n + 2 <= k < n + 2 + |v| ensures w[k] != '"' {
        assert w[k] == v[k - n - 2];
        assert v[k - n - 2] in v;
      }
      IndexOfIs(w, '"', n + 2, n + 2 + |v|);
      assert w[n + 2..n + 2 + |v|] == v;
    } else {
      assert !(n + 2 <= |w| && w[n] == '=');
    }
  }

  lemma RenderedStartsWithSpace(attrs: seq<Attr>, pad: string)
    requires IsBlank(pad)
    ensures RenderAttrs(attrs) + pad == [] || IsSpace((RenderAttrs(attrs) + pad)[0])
  {
    if attrs != [] {
      assert (RenderAttrs(attrs) + pad)[0] == ' ';
    } else if pad != [] {
      assert RenderAttrs(attrs) + pad == pad;
    }
  }

  /** The attribute scan reporting its first match right after one leading non-name character. */
  lemma FirstAttrAtOne(t: string, tok: AttrToken)
    requires |t| > 0 && AttrAt(t[0..]).None? && AttrAt(t[1..]) == Some(tok)
    ensures FindFrom(AttrAt, t, 0) == Some(Found(1, tok))
  {
    FindFromIs(AttrAt, t, 0, 1);
  }

  /** One space-led attribute contributes its binding, and parsing continues with the text after it. */
  lemma ParseOneRendered(a: Attr, u: string)
    requires a.WellFormed()
    requires u == [] || IsSpace(u[0])
    ensures ParseAttributes(" " + RenderAttr(a) + u) == map[a.name := a.Recorded()] + ParseAttributes(u)
  {
    var x := RenderAttr(a);
    var t := " " + x + u;
    var tok := AttrToken(a.name, a.Recorded(), |x|);
    DropPrefix3(" ", x, u);
    assert AttrAt(t[0..]).None?;
    assert AttrAt(t[1..]) == Some(tok) by {
      AttrAtRendered(a, u);
    }
    FirstAttrAtOne(t, tok);
    ParseStep(t, 1, tok);
  }

  /** Parsing written-out attributes (with optional trailing whitespace) yields exactly the map they denote. */
  lemma {:induction false} ParseRendered(attrs: seq<Attr>, pad: string)
    requires forall i :: 0 <= i < |attrs| ==> attrs[i].WellFormed()
    requires IsBlank(pad)
    ensures ParseAttributes(RenderAttrs(attrs) + pad) == AttrMap(attrs)
  {
    if attrs == [] {
      assert RenderAttrs(attrs) + pad == pad;
      ParseBlank(pad);
    } else {
      var u := RenderAttrs(attrs[1..]) + pad;
      assert RenderAttrs(attrs) + pad == " " + RenderAttr(attrs[0]) + u;
      RenderedStartsWithSpace(attrs[1..], pad);
      ParseOneRendered(attrs[0], u);
      ParseRendered(attrs[1..], pad);
    }
  }
}
