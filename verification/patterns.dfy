/**
 * The four regular expressions of `parseMarkdown`, each as a matcher at the
 * start of a string. None of them has an anchor, a look-behind or a word
 * boundary, so a match at offset `i` of a string is a match at the start of
 * its suffix from `i`, and `Search.FindFrom` gives the leftmost one.
 *
 * Each pattern is deterministic under backtracking, which the doc comments
 * argue pattern by pattern; the matchers take the one path the engine can
 * succeed on.
 */
module Patterns {
  import opened Wrappers
  import opened JsText
  import opened Search
  import opened Model

  /** A match of the opening-tag pattern: tag name, attribute text, whether it ends in `/>`, and its length. */
  datatype Opener = Opener(name: string, attrs: string, selfClosing: bool, len: nat)

  /**
   * `:::dc\s*<([a-zA-Z]+)([^>]*?)(\/?)>`. The whitespace and letter runs
   * are greedy and are followed by characters outside their classes, so
   * they are maximal. The lazy attribute group stops at the first `>`
   * after the name (it cannot cross one), and the optional slash is taken
   * exactly when the character before that `>` is a `/` that is not part
   * of the name.
   */
  function OpenerAt(t: string): (r: Option<Opener>)
    ensures r.Some? ==> StartsWith(t, ":::dc")
    ensures r.Some? ==> 7 < r.value.len <= |t| && t[r.value.len - 1] == '>'
    ensures r.Some? ==> |r.value.name| > 0 && AllLetters(r.value.name)
    ensures r.Some? ==> '>' !in r.value.attrs
  {
    if !StartsWith(t, ":::dc") then None
    else
      var ws := SpanWhile(t, 5, IsSpace);
      if ws == |t| || t[ws] != '<' then None
      else
        var ne := SpanWhile(t, ws + 1, IsAsciiLetter);
        if ne == ws + 1 then None
        else
          match IndexOf(t, '>', ne)
          case None => None
          case Some(j) =>
            var sc := j > ne && t[j - 1] == '/';
            Some(Opener(t[ws + 1..ne], if sc then t[ne..j - 1] else t[ne..j], sc, j + 1))
  }

  /** An opener match is determined by where its whitespace run, its name and its attribute text end. */
  lemma OpenerAtIs(t: string, ws: nat, ne: nat, j: nat)
    requires StartsWith(t, ":::dc") && 5 <= ws < |t|
    requires SpanWhile(t, 5, IsSpace) == ws && t[ws] == '<'
    requires ws + 1 < ne <= |t| && SpanWhile(t, ws + 1, IsAsciiLetter) == ne
    requires IndexOf(t, '>', ne) == Some(j)
    ensures OpenerAt(t) == Some(Opener(t[ws + 1..ne],
      if j > ne && t[j - 1] == '/' then t[ne..j - 1] else t[ne..j], j > ne && t[j - 1] == '/', j + 1))
  {
  }

  /** An opening tag ends at the first `>` in the text: none comes before its last character. */
  lemma OpenerEndsAtFirstGt(t: string)
    ensures OpenerAt(t).Some? ==> forall k :: 0 <= k < OpenerAt(t).value.len - 1 ==> t[k] != '>'
  {
    if StartsWith(t, ":::dc") {
      var ws := SpanWhile(t, 5, IsSpace);
      if ws < |t| && t[ws] == '<' {
        var ne := SpanWhile(t, ws + 1, IsAsciiLetter);
        if ne > ws + 1 && IndexOf(t, '>', ne).Some? {
          var j := IndexOf(t, '>', ne).value;
          assert OpenerAt(t).value.len == j + 1;
          forall k | 0 <= k < j ensures t[k] != '>' {
            if k < 5 {
              assert t[k] == t[..5][k];
            } else if k < ws {
              assert IsSpace(t[k]);
            } else if ws < k < ne {
              assert IsAsciiLetter(t[k]);
            }
          }
        }
      }
    }
  }

  /** The text `</name>` that closes a paired tag. */
  function CloseTag(name: string): string {
    "</" + name + ">"
  }

  /**
   * `<\/name>\s*dc:::` built from the lower-cased tag name: the length of
   * the match at the start of `t`. The whitespace run is greedy and `d` is
   * not whitespace, so it is maximal.
   */
  function CloserAt(name: string, t: string): (r: Option<nat>)
    ensures r.Some? ==> StartsWith(t, CloseTag(name)) && |CloseTag(name)| + 5 <= r.value <= |t|
    ensures r.Some? ==> t[r.value - 5..r.value] == "dc:::" && IsBlank(t[|CloseTag(name)|..r.value - 5])
  {
    if !StartsWith(t, CloseTag(name)) then None
    else
      var k := SpanWhile(t, |CloseTag(name)|, IsSpace);
      if StartsWith(t[k..], "dc:::") then Some(k + 5) else None
  }

  /** The closer pattern for a tag name, as a matcher to search with. */
  function CloserFor(name: string): string -> Option<nat> {
    t => CloserAt(name, t)
  }

  /** `\s*dc:::` at the start of `t`: the length of the match. */
  function SuffixAt(t: string): (r: Option<nat>)
    ensures r.Some? ==> 5 <= r.value <= |t|
    ensures r.Some? ==> t[r.value - 5..r.value] == "dc:::" && IsBlank(t[..r.value - 5])
  {
    var k := SpanWhile(t, 0, IsSpace);
    if StartsWith(t[k..], "dc:::") then Some(k + 5) else None
  }

  /** The class `[^<]` of option text. */
  predicate NotLt(c: char) {
    c != '<'
  }

  /** A match of the option pattern: the entry it denotes and its length. */
  datatype OptionMatch = OptionMatch(item: OptionItem, len: nat)

  /**
   * Where the optional group `\s+id="([^"]*)"` of the option pattern leaves
   * off, starting at `p` just after `<option`: the captured id (empty when
   * the group is skipped) and the index that must hold the `>`. The group
   * is tried first and is deterministic; when it is attempted and fails,
   * skipping it leaves the whitespace at `p` where `>` is needed, so the
   * whole match fails.
   */
  function IdGroup(t: string, p: nat): (r: Option<(string, nat)>)
    requires p <= |t|
    ensures r.Some? ==> p <= r.value.1 <= |t| && '"' !in r.value.0
  {
    if p < |t| && IsSpace(t[p]) then
      var q := SpanWhile(t, p, IsSpace);
      if !StartsWith(t[q..], "id=\"") then None
      else
        match IndexOf(t, '"', q + 4)
        case None => None
        case Some(e) => Some((t[q + 4..e], e + 1))
    else Some(("", p))
  }

  /**
   * `<option(?:\s+id="([^"]*)")?>([^<]+)<\/option>` at the start of `t`.
   * The text run is greedy and must be followed by `<`, so it is maximal.
   * An empty id is recorded as none (`optionMatch[1] || null`).
   */
  function OptionAt(t: string): (r: Option<OptionMatch>)
    ensures r.Some? ==> 0 < r.value.len <= |t|
    ensures r.Some? ==> |r.value.item.text| > 0 && '<' !in r.value.item.text
    ensures r.Some? && r.value.item.id.Some? ==> r.value.item.id.value != "" && '"' !in r.value.item.id.value
  {
    if !StartsWith(t, "<option") then None
    else
      match IdGroup(t, 7)
      case None => None
      case Some((id, g)) =>
        if g == |t| || t[g] != '>' then None
        else
          var e := SpanWhile(t, g + 1, NotLt);
          if e == g + 1 || !StartsWith(t[e..], "</option>") then None
          else
            Some(OptionMatch(OptionItem(if id == "" then None else Some(id), t[g + 1..e]), e + 9))
  }

  /** An option match is determined by where its id group and its text end. */
  lemma OptionAtIs(t: string, id: string, g: nat, e: nat)
    requires StartsWith(t, "<option") && IdGroup(t, 7).Some? && IdGroup(t, 7).value.0 == id && IdGroup(t, 7).value.1 == g
    requires g < |t| && t[g] == '>'
    requires g + 1 < e <= |t| && SpanWhile(t, g + 1, NotLt) == e
    requires StartsWith(t[e..], "</option>")
    ensures OptionAt(t) == Some(OptionMatch(OptionItem(if id == "" then None else Some(id), t[g + 1..e]), e + 9))
  {
    var r := OptionAt(t);
    assert r == Some(OptionMatch(OptionItem(if id == "" then None else Some(id), t[g + 1..e]), e + 9)) by {
      assert StartsWith(t, "<option");
      assert !(g == |t| || t[g] != '>');
      assert !(e == g + 1 || !StartsWith(t[e..], "</option>"));
    }
  }

  /** Every option entry of `inner`, left to right, as the global option pattern finds them. */
  function ExtractOptions(inner: string): (r: seq<OptionItem>)
    ensures forall i :: 0 <= i < |r| ==> |r[i].text| > 0 && '<' !in r[i].text
    ensures forall i :: 0 <= i < |r| && r[i].id.Some? ==> r[i].id.value != "" && '"' !in r[i].id.value
    decreases |inner|
  {
    match FindFrom(OptionAt, inner, 0)
    case None => []
    case Some(Found(i, m)) => [m.item] + ExtractOptions(inner[i + m.len..])
  }

  /** The option list is empty exactly when no option entry starts anywhere in `inner`. */
  lemma ExtractOptionsEmpty(inner: string)
    ensures ExtractOptions(inner) == [] <==> forall j :: 0 <= j <= |inner| ==> OptionAt(inner[j..]).None?
  {
    match FindFrom(OptionAt, inner, 0)
    case None =>
    case Some(Found(i, m)) =>
      assert OptionAt(inner[i..]).Some?;
  }

  /** `optionsList.length > 0 ? optionsList : null`. */
  function OptionsOf(list: seq<OptionItem>): (r: Option<seq<OptionItem>>)
    ensures r.None? <==> |list| == 0
    ensures r.Some? ==> r.value == list
  {
    if |list| > 0 then Some(list) else None
  }
}
