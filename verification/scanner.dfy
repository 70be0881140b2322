/**
 * `parseMarkdown`: the scan of the content for inline field tags, and the
 * assembly of its content flow and component list.
 *
 * The scan is written as a trace of segments that together spell out the
 * whole input: the text between tags, and each opening tag with whatever the
 * source consumed after it. Assembly then keeps the non-blank texts as prose
 * and the built fields as components.
 */
module Scanner {
  import opened Wrappers
  import opened JsText
  import opened Search
  import opened Model
  import opened Patterns
  import opened Builder

  /** What the source consumes after an opening tag, and the options it found there. */
  datatype Body = Body(consumed: nat, options: Option<seq<OptionItem>>)

  /**
   * The part of a component after its opening tag. A self-closing tag takes
   * the length of the first `\s*dc:::` anywhere in the rest, wherever that
   * match starts. A paired tag takes everything up to and including the
   * first closer for its lower-cased name, and the options of the text in
   * between; with no closer it takes nothing and has no options.
   */
  function BodyAfter(op: Opener, rest: string): (r: Body)
    ensures r.consumed <= |rest|
    ensures op.selfClosing ==> r.options.None?
    ensures !op.selfClosing && r.options.Some? ==> |r.options.value| > 0
  {
    if op.selfClosing then
      match FindFrom(SuffixAt, rest, 0)
      case None => Body(0, None)
      case Some(Found(_, n)) => Body(n, None)
    else
      match FindFrom(CloserFor(Lower(op.name)), rest, 0)
      case None => Body(0, None)
      case Some(Found(i, n)) => Body(i + n, OptionsOf(ExtractOptions(rest[..i])))
  }

  /**
   * The suffix of a self-closing tag is searched for anywhere in the rest,
   * but only its length is consumed: with text before the first `dc:::`,
   * the consumed part ends inside the marker and leaves its tail behind.
   */
  lemma SelfClosingSuffixQuirk(op: Opener)
    requires op.selfClosing
    ensures BodyAfter(op, "ab dc:::") == Body(6, None)
    ensures "ab dc:::"[6..] == "::"
  {
    var rest := "ab dc:::";
    assert rest[0] == 'a' && rest[1] == 'b';
    SpanWhileIs(rest[2..], 0, IsSpace, 1);
    assert rest[2..][1..][..5] == "dc:::";
    assert SuffixAt(rest[0..]).None? by {
      SpanWhileIs(rest[0..], 0, IsSpace, 0);
      assert rest[0..][0..][..5][0] == 'a';
    }
    assert SuffixAt(rest[1..]).None? by {
      SpanWhileIs(rest[1..], 0, IsSpace, 0);
      assert rest[1..][0..][..5][0] == 'b';
    }
    FindFromIs(SuffixAt, rest, 0, 2);
  }

  /**
   * One piece of the input: text the scan passed over, or an opening tag
   * together with what was consumed after it and the outcome of building it.
   */
  datatype Segment =
    | Text(text: string)
    | Tag(text: string, built: Result<Field, BuildError>)

  function Spelled(segs: seq<Segment>): string {
    if segs == [] then "" else segs[0].text + Spelled(segs[1..])
  }

  /** No opening-tag match starts anywhere in `s`. */
  predicate NoOpener(s: string) {
    forall j :: 0 <= j <= |s| ==> OpenerAt(s[j..]).None?
  }

  /** A complete opener match is unaffected by what follows it. */
  lemma OpenerExtend(p: string, x: string)
    ensures OpenerAt(p).Some? ==> OpenerAt(p + x) == OpenerAt(p)
  {
    if OpenerAt(p).Some? {
      var ws := SpanWhile(p, 5, IsSpace);
      var ne := SpanWhile(p, ws + 1, IsAsciiLetter);
      var j := IndexOf(p, '>', ne).value;
      OpenerExtendAt(p, x, ws, ne, j);
    }
  }

  lemma OpenerExtendAt(p: string, x: string, ws: nat, ne: nat, j: nat)
    requires StartsWith(p, ":::dc") && 5 <= ws < |p|
    requires SpanWhile(p, 5, IsSpace) == ws && p[ws] == '<'
    requires ws + 1 < ne <= |p| && SpanWhile(p, ws + 1, IsAsciiLetter) == ne
    requires IndexOf(p, '>', ne) == Some(j)
    ensures OpenerAt(p + x) == OpenerAt(p)
  {
    ExtendedRuns(p, x, ws, ne, j);
    SameOpener(p, p + x, ws, ne, j);
  }

  /** Two texts that agree on the runs, the `>` and the slices of an opener match agree on the match. */
  lemma SameOpener(p: string, t: string, ws: nat, ne: nat, j: nat)
    requires StartsWith(p, ":::dc") && 5 <= ws < |p| && ws + 1 < ne <= j < |p| <= |t|
    requires SpanWhile(p, 5, IsSpace) == ws && p[ws] == '<'
    requires SpanWhile(p, ws + 1, IsAsciiLetter) == ne
    requires IndexOf(p, '>', ne) == Some(j)
    requires StartsWith(t, ":::dc") && t[ws] == '<' && t[j - 1] == p[j - 1]
    requires SpanWhile(t, 5, IsSpace) == ws
    requires SpanWhile(t, ws + 1, IsAsciiLetter) == ne
    requires IndexOf(t, '>', ne) == Some(j)
    requires t[ws + 1..ne] == p[ws + 1..ne] && t[ne..j] == p[ne..j] && (j > ne ==> t[ne..j - 1] == p[ne..j - 1])
    ensures OpenerAt(t) == OpenerAt(p)
  {
    OpenerAtIs(p, ws, ne, j);
    OpenerAtIs(t, ws, ne, j);
    assert (j > ne && t[j - 1] == '/') == (j > ne && p[j - 1] == '/');
  }

  /** The runs and the `>` an opener match is made of sit in the same places once text is appended. */
  lemma ExtendedRuns(p: string, x: string, ws: nat, ne: nat, j: nat)
    requires StartsWith(p, ":::dc") && 5 <= ws < |p|
    requires SpanWhile(p, 5, IsSpace) == ws && p[ws] == '<'
    requires ws + 1 < ne <= |p| && SpanWhile(p, ws + 1, IsAsciiLetter) == ne
    requires IndexOf(p, '>', ne) == Some(j)
    ensures var t := p + x;
      && StartsWith(t, ":::dc") && t[ws] == '<' && j < |p| && t[j - 1] == p[j - 1]
      && t[ws + 1..ne] == p[ws + 1..ne] && t[ne..j] == p[ne..j] && (j > ne ==> t[ne..j - 1] == p[ne..j - 1])
      && SpanWhile(t, 5, IsSpace) == ws
      && SpanWhile(t, ws + 1, IsAsciiLetter) == ne
      && IndexOf(t, '>', ne) == Some(j)
  {
    var t := p + x;
    assert forall k :: 0 <= k < |p| ==> t[k] == p[k];
    SliceOfPrefix(p, x, 0, 5);
    SpanWhileIs(t, 5, IsSpace, ws);
    SpanWhileIs(t, ws + 1, IsAsciiLetter, ne);
    IndexOfIs(t, '>', ne, j);
    SliceOfPrefix(p, x, ws + 1, ne);
    SliceOfPrefix(p, x, ne, j);
    if j > ne {
      SliceOfPrefix(p, x, ne, j - 1);
    }
  }

  /** A prefix of a string in which no opener starts has none either. */
  lemma NoOpenerPrefix(s: string, i: nat)
    requires i <= |s|
    requires forall j :: 0 <= j < i ==> OpenerAt(s[j..]).None?
    ensures NoOpener(s[..i])
  {
    forall j | 0 <= j <= i
      ensures OpenerAt(s[..i][j..]).None?
    {
      if j < i {
        OpenerExtend(s[..i][j..], s[i..]);
        assert s[..i][j..] + s[i..] == s[j..];
      } else {
        assert s[..i][j..] == [];
      }
    }
  }

  lemma NoOpenerWhole(s: string)
    requires forall j :: 0 <= j <= |s| ==> OpenerAt(s[j..]).None?
    ensures NoOpener(s)
  {
  }

  lemma Split3(s: string, i: nat, j: nat)
    requires i <= j <= |s|
    ensures s == s[..i] + s[i..j] + s[j..]
  {
  }

  /** Every text segment is free of openers. */
  predicate GapsClear(segs: seq<Segment>) {
    forall k :: 0 <= k < |segs| && segs[k].Text? ==> NoOpener(segs[k].text)
  }

  lemma GapsClearStep(a: string, b: string, built: Result<Field, BuildError>, tail: seq<Segment>)
    requires NoOpener(a) && GapsClear(tail)
    ensures GapsClear([Text(a), Tag(b, built)] + tail)
  {
    var segs := [Text(a), Tag(b, built)] + tail;
    forall k | 0 <= k < |segs| && segs[k].Text?
      ensures NoOpener(segs[k].text)
    {
      if k >= 2 {
        assert segs[k] == tail[k - 2];
      }
    }
  }

  lemma SpelledStep(a: string, b: string, built: Result<Field, BuildError>, tail: seq<Segment>)
    ensures Spelled([Text(a), Tag(b, built)] + tail) == a + b + Spelled(tail)
  {
    var segs := [Text(a), Tag(b, built)] + tail;
    assert segs[1..] == [Tag(b, built)] + tail;
    assert segs[1..][1..] == tail;
  }

  /**
   * One tag found at `i`: where the scan resumes and what the builder made
   * of it.
   */
  function Step(s: string, i: nat, op: Opener, ordinal: nat, freshIds: nat -> string): (r: (nat, Result<Field, BuildError>))
    requires i + op.len <= |s|
    ensures i + op.len <= r.0 <= |s|
  {
    var rest := s[i + op.len..];
    var body := BodyAfter(op, rest);
    var built := CreateComponentFromTag(Lower(op.name), op.attrs, body.options, freshIds(ordinal));
    (if built.Success? then i + op.len + body.consumed else i + op.len, built)
  }

  /**
   * The loop of `parseMarkdown` from the current position on. `ordinal`
   * counts the tags found so far and selects the id `freshIds` supplies
   * for a tag without one. A tag that builds resumes the search after its
   * consumed body; one that throws resumes right after its opening tag.
   */
  function Scan(s: string, ordinal: nat, freshIds: nat -> string): (segs: seq<Segment>)
    ensures Spelled(segs) == s
    ensures GapsClear(segs)
    decreases |s|
  {
    match FindFrom(OpenerAt, s, 0)
    case None =>
      NoOpenerWhole(s);
      [Text(s)]
    case Some(Found(i, op)) =>
      NoOpenerPrefix(s, i);
      var (end, built) := Step(s, i, op, ordinal, freshIds);
      var tail := Scan(s[end..], ordinal + 1, freshIds);
      SpelledStep(s[..i], s[i..end], built, tail);
      GapsClearStep(s[..i], s[i..end], built, tail);
      Split3(s, i, end);
      [Text(s[..i]), Tag(s[i..end], built)] + tail
  }

  /** The first opening tag found is a match of the opener pattern there, and fits in the text. */
  lemma FirstOpenerFits(s: string, i: nat, op: Opener)
    requires FindFrom(OpenerAt, s, 0) == Some(Found(i, op))
    ensures OpenerAt(s[i..]) == Some(op) && i + op.len <= |s|
  {
    assert OpenerAt(s[i..]) == Some(op);
  }

  /** The loop's step at the first opening tag found: the gap before it, the tag, and the scan from where it resumes. */
  lemma ScanStep(s: string, i: nat, op: Opener, ordinal: nat, freshIds: nat -> string)
    requires FindFrom(OpenerAt, s, 0) == Some(Found(i, op))
    requires i + op.len <= |s|
    ensures var (end, built) := Step(s, i, op, ordinal, freshIds);
      Scan(s, ordinal, freshIds) == [Text(s[..i]), Tag(s[i..end], built)] + Scan(s[end..], ordinal + 1, freshIds)
  {
  }

  /**
   * The content flow and component list the loop pushes: a text segment
   * becomes prose when it is not blank after trimming, a tag that built
   * becomes a component in both lists, and a tag that threw leaves nothing.
   */
  function Assemble(segs: seq<Segment>): (r: ParsedContent)
    ensures r.components == ComponentsOf(r.contentFlow)
    ensures r.components == BuiltFields(segs)
  {
    if segs == [] then ParsedContent([], [])
    else
      var tail := Assemble(segs[1..]);
      match segs[0]
      case Text(t) =>
        if IsBlank(t) then tail
        else ParsedContent([Prose(t)] + tail.contentFlow, tail.components)
      case Tag(_, built) =>
        if built.Failure? then tail
        else ParsedContent([Component(built.value)] + tail.contentFlow, [built.value] + tail.components)
  }

  /** The texts of the text segments that are not blank, in scan order. */
  function NonBlankTexts(segs: seq<Segment>): seq<string> {
    if segs == [] then []
    else (if segs[0].Text? && !IsBlank(segs[0].text) then [segs[0].text] else []) + NonBlankTexts(segs[1..])
  }

  /**
   * The prose of the assembled flow is exactly the non-blank text segments,
   * in order; in particular every prose element is such a segment.
   */
  lemma {:induction false} AssembledProse(segs: seq<Segment>)
    ensures ProseOf(Assemble(segs).contentFlow) == NonBlankTexts(segs)
    ensures forall k :: 0 <= k < |Assemble(segs).contentFlow| && Assemble(segs).contentFlow[k].Prose? ==>
      exists m :: 0 <= m < |segs| && segs[m] == Text(Assemble(segs).contentFlow[k].text) && !IsBlank(segs[m].text)
  {
    if segs != [] {
      AssembledProse(segs[1..]);
      var flow := Assemble(segs).contentFlow;
      var tail := Assemble(segs[1..]).contentFlow;
      if flow != tail {
        assert flow[1..] == tail;
      }
      forall k | 0 <= k < |flow| && flow[k].Prose?
        ensures exists m :: 0 <= m < |segs| && segs[m] == Text(flow[k].text) && !IsBlank(segs[m].text)
      {
        var j := if flow == tail then k else k - 1;
        if flow == tail || k > 0 {
          assert 0 <= j < |tail| && tail[j] == flow[k];
          var m :| 0 <= m < |segs[1..]| && segs[1..][m] == Text(tail[j].text) && !IsBlank(segs[1..][m].text);
          assert segs[m + 1] == segs[1..][m];
        } else {
          assert segs[0] == Text(flow[0].text);
        }
      }
    }
  }

  /** The fields built, in scan order. */
  function BuiltFields(segs: seq<Segment>): seq<Field> {
    if segs == [] then []
    else (if segs[0].Tag? && segs[0].built.Success? then [segs[0].built.value] else []) + BuiltFields(segs[1..])
  }

  /** `parseMarkdown`. */
  function ParseMarkdown(s: string, freshIds: nat -> string): (r: ParsedContent)
    ensures r.components == ComponentsOf(r.contentFlow)
    ensures r.components == BuiltFields(Scan(s, 0, freshIds))
    ensures ProseOf(r.contentFlow) == NonBlankTexts(Scan(s, 0, freshIds))
    ensures forall k :: 0 <= k < |r.contentFlow| && r.contentFlow[k].Prose? ==>
      !IsBlank(r.contentFlow[k].text) && NoOpener(r.contentFlow[k].text)
  {
    var segs := Scan(s, 0, freshIds);
    AssembledProse(segs);
    Assemble(segs)
  }
}
