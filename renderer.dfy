/** The scenario renderer (`processStory`): one pass over a chapter's
    snippets that appends markdown to a growing buffer. `ProcessStory` is
    the loop itself; `Render` is its specification, the in-order
    concatenation of one chunk per snippet, where a chunk depends on the
    buffer built so far only through whether it is empty. */
module Renderer {
  import opened Markdown

  /** One step of the script: which kind of action, and the position of its
      data in `talkData` or `specialEffectData`. */
  datatype Snippet = Snippet(actionType: int, referenceIndex: int)

  /** One line of dialogue. */
  datatype Talk = Talk(windowDisplayName: string, body: string)

  /** One special effect; only title cards are rendered. */
  datatype SpecialEffect = SpecialEffect(effectType: int, stringVal: string)

  /** The `Base` object of a scenario asset. */
  datatype Story = Story(snippets: seq<Snippet>, talkData: seq<Talk>, specialEffectData: seq<SpecialEffect>)

  /** The rendered markdown, or the snippet whose data could not be found:
      an index outside its array yields `undefined`, and reading a field of
      it throws before anything is returned. */
  datatype Outcome = Ok(text: string) | Malformed(culprit: Snippet)

  const DialogueAction: int := 1
  const SpecialEffectAction: int := 6
  const TitleEffect: int := 8

  predicate InRange(i: int, n: nat) {
    0 <= i < n
  }

  /** A snippet whose lookup fails: a dialogue or special-effect action
      whose index lies outside the array it refers to. Other actions never
      look anything up. */
  predicate IsMalformed(story: Story, sn: Snippet) {
    (sn.actionType == DialogueAction && !InRange(sn.referenceIndex, |story.talkData|)) ||
    (sn.actionType == SpecialEffectAction && !InRange(sn.referenceIndex, |story.specialEffectData|))
  }

  /** A special-effect action whose effect is a title card. */
  predicate IsTitleCard(story: Story, sn: Snippet) {
    sn.actionType == SpecialEffectAction && InRange(sn.referenceIndex, |story.specialEffectData|) &&
    story.specialEffectData[sn.referenceIndex].effectType == TitleEffect
  }

  /** A dialogue action whose line exists. */
  predicate IsDialogue(story: Story, sn: Snippet) {
    sn.actionType == DialogueAction && InRange(sn.referenceIndex, |story.talkData|)
  }

  /** `**<name>:** <body>\n\n`: the name verbatim, the body with its line
      breaks flattened and then escaped. */
  function DialogueLine(t: Talk): string {
    "**" + t.windowDisplayName + ":** " + Escape(FlattenLineBreaks(t.body)) + "\n\n"
  }

  /** The part between the name and the closing blank line is well-formed
      escaped text, unescapes to the flattened body and holds no line
      break, so each line of dialogue is a single paragraph line however the
      name reads. */
  lemma DialogueLineShape(t: Talk)
    ensures var line, n := DialogueLine(t), |t.windowDisplayName| + 6;
      n + 2 <= |line| &&
      line[..n] == "**" + t.windowDisplayName + ":** " &&
      line[|line| - 2..] == "\n\n" &&
      IsEscaped(line[n..|line| - 2]) &&
      Unescape(line[n..|line| - 2]) == FlattenLineBreaks(t.body) &&
      NoLineBreak(line[n..|line| - 2])
  {
    var head := "**" + t.windowDisplayName + ":** ";
    var e := Escape(FlattenLineBreaks(t.body));
    EscapeIsEscaped(FlattenLineBreaks(t.body));
    UnescapeEscape(FlattenLineBreaks(t.body));
    EscapeKeepsNoLineBreak(FlattenLineBreaks(t.body));
    var line := DialogueLine(t);
    assert line == head + e + "\n\n";
    assert line[..|head|] == head;
    assert line[|head|..|line| - 2] == e;
  }

  /** `**-- <escaped text> --**\n\n`. */
  function TitleLine(e: SpecialEffect): string {
    "**-- " + Escape(e.stringVal) + " --**\n\n"
  }

  /** The middle of a title line is well-formed escaped text that unescapes
      to the card's text, and the line ends in the title close the divider
      rule looks for. */
  lemma TitleLineShape(e: SpecialEffect)
    ensures var line := TitleLine(e);
      12 <= |line| && line[..5] == "**-- " && EndsWith(line, " --**\n\n") &&
      EndsWith(line, TitleClose) &&
      IsEscaped(line[5..|line| - 7]) && Unescape(line[5..|line| - 7]) == e.stringVal
  {
    var x := Escape(e.stringVal);
    EscapeIsEscaped(e.stringVal);
    UnescapeEscape(e.stringVal);
    var line := TitleLine(e);
    assert line[..5] == "**-- ";
    assert line[5..|line| - 7] == x;
    assert line[|line| - 7..] == " --**\n\n";
    assert line[|line| - 6..] == TitleClose;
  }

  /** What one snippet appends, given whether the buffer is already
      non-empty: a dialogue line; a title card, behind a divider exactly
      when the buffer is non-empty; nothing for any other action or effect;
      the snippet itself when its lookup fails. */
  function Chunk(story: Story, sn: Snippet, nonEmpty: bool): (r: Outcome)
    ensures r.Malformed? <==> IsMalformed(story, sn)
    ensures r.Malformed? ==> r.culprit == sn
    ensures r.Ok? && !IsDialogue(story, sn) && !IsTitleCard(story, sn) ==> r.text == ""
    ensures IsDialogue(story, sn) ==> r == Ok(DialogueLine(story.talkData[sn.referenceIndex]))
    ensures IsTitleCard(story, sn) ==>
      r == Ok((if nonEmpty then Divider else "") + TitleLine(story.specialEffectData[sn.referenceIndex]))
  {
    if sn.actionType == DialogueAction then
      if InRange(sn.referenceIndex, |story.talkData|) then Ok(DialogueLine(story.talkData[sn.referenceIndex]))
      else Malformed(sn)
    else if sn.actionType == SpecialEffectAction then
      if !InRange(sn.referenceIndex, |story.specialEffectData|) then Malformed(sn)
      else
        var data := story.specialEffectData[sn.referenceIndex];
        if data.effectType == TitleEffect then
          Ok((if nonEmpty then Divider else "") + TitleLine(data))
        else Ok("")
    else Ok("")
  }

  /** Puts `prefix` in front of a successful outcome. */
  function Prefix(prefix: string, o: Outcome): Outcome {
    match o
    case Ok(t) => Ok(prefix + t)
    case Malformed(y) => Malformed(y)
  }

  /** The chunks of `snips` concatenated in order, on a buffer whose
      emptiness is `nonEmpty` at the start; the first failing lookup stops
      everything. */
  function RenderFrom(story: Story, snips: seq<Snippet>, nonEmpty: bool): Outcome
    decreases |snips|
  {
    if snips == [] then Ok("")
    else
      match Chunk(story, snips[0], nonEmpty)
      case Malformed(y) => Malformed(y)
      case Ok(c) => Prefix(c, RenderFrom(story, snips[1..], nonEmpty || c != ""))
  }

  /** What `processStory` returns for a whole chapter. */
  function Render(story: Story): Outcome {
    RenderFrom(story, story.snippets, false)
  }

  /** Continues a rendering that produced `first` with the snippets `b`. */
  function AndThen(story: Story, first: Outcome, b: seq<Snippet>, nonEmpty: bool): Outcome {
    match first
    case Malformed(y) => Malformed(y)
    case Ok(x) => Prefix(x, RenderFrom(story, b, nonEmpty || x != ""))
  }

  lemma PrefixPrefix(c: string, x: string, o: Outcome)
    ensures Prefix(c, Prefix(x, o)) == Prefix(c + x, o)
  {
    match o
    case Malformed(y) =>
    case Ok(t) => assert c + (x + t) == (c + x) + t;
  }

  /** Rendering `a + b` is rendering `a`, then rendering `b` on a buffer
      that is non-empty if it was before or `a` produced anything. */
  lemma {:induction false} RenderFromAppend(story: Story, a: seq<Snippet>, b: seq<Snippet>, nonEmpty: bool)
    ensures RenderFrom(story, a + b, nonEmpty) == AndThen(story, RenderFrom(story, a, nonEmpty), b, nonEmpty)
    decreases |a|
  {
    if a == [] {
      assert a + b == b;
      match RenderFrom(story, b, nonEmpty)
      case Ok(t) => assert "" + t == t;
      case Malformed(y) =>
    } else {
      assert (a + b)[0] == a[0];
      assert (a + b)[1..] == a[1..] + b;
      match Chunk(story, a[0], nonEmpty)
      case Malformed(y) =>
      case Ok(c) =>
        var ne := nonEmpty || c != "";
        RenderFromAppend(story, a[1..], b, ne);
        var rest := RenderFrom(story, a[1..], ne);
        assert RenderFrom(story, a + b, nonEmpty) == Prefix(c, AndThen(story, rest, b, ne));
        assert RenderFrom(story, a, nonEmpty) == Prefix(c, rest);
        if rest.Ok? {
          var x := rest.text;
          assert (ne || x != "") == (nonEmpty || c + x != "");
          PrefixPrefix(c, x, RenderFrom(story, b, ne || x != ""));
        }
    }
  }

  /** One more snippet at the end: its chunk is appended, and it sees the
      buffer as non-empty when the rendering so far is. */
  lemma RenderFromSnoc(story: Story, s: seq<Snippet>, x: Snippet)
    ensures RenderFrom(story, s + [x], false) ==
      match RenderFrom(story, s, false)
      case Malformed(y) => Malformed(y)
      case Ok(b) => Prefix(b, Chunk(story, x, b != ""))
  {
    RenderFromAppend(story, s, [x], false);
    match RenderFrom(story, s, false)
    case Malformed(y) =>
    case Ok(b) =>
      assert [x][1..] == [];
      match Chunk(story, x, b != "")
      case Malformed(y) =>
      case Ok(c) =>
        assert c + "" == c;
        assert RenderFrom(story, [x], b != "") == Ok(c);
  }

  /** After a successful prefix rendering to `buf`, one more snippet
      appends its chunk, computed on the emptiness of `buf`. This is
      `RenderFromSnoc` with its match already resolved, so that the loop
      body of `ProcessStory` reasons about one equation instead of a case
      split. */
  lemma Step(story: Story, s: seq<Snippet>, x: Snippet, buf: string)
    requires RenderFrom(story, s, false) == Ok(buf)
    ensures RenderFrom(story, s + [x], false) == Prefix(buf, Chunk(story, x, buf != ""))
  {
    RenderFromSnoc(story, s, x);
  }

  /** The loop of `processStory`. The buffer is a string that only ever has
      text appended; the divider test is the condition as written, which the
      proof reduces to "the buffer is not empty". */
  method ProcessStory(story: Story) returns (r: Outcome)
    ensures r == Render(story)
  {
    var storyData := "";
    for i := 0 to |story.snippets|
      invariant RenderFrom(story, story.snippets[..i], false) == Ok(storyData)
    {
      var snippet := story.snippets[i];
      assert story.snippets[..i + 1] == story.snippets[..i] + [snippet];
      Step(story, story.snippets[..i], snippet, storyData);
      if snippet.actionType == DialogueAction {
        if !InRange(snippet.referenceIndex, |story.talkData|) {
          PrefixFailure(story, story.snippets, i + 1);
          return Malformed(snippet);
        }
        var data := story.talkData[snippet.referenceIndex];
        assert Chunk(story, snippet, storyData != "") == Ok(DialogueLine(data));
        storyData := storyData + ("**" + data.windowDisplayName + ":** " + Escape(FlattenLineBreaks(data.body)) + "\n\n");
      } else if snippet.actionType == SpecialEffectAction {
        if !InRange(snippet.referenceIndex, |story.specialEffectData|) {
          PrefixFailure(story, story.snippets, i + 1);
          return Malformed(snippet);
        }
        var data := story.specialEffectData[snippet.referenceIndex];
        if data.effectType == TitleEffect {
          GuardIsNonEmpty(storyData);
          ghost var before := storyData;
          if DividerGuard(storyData) {
            storyData := storyData + Divider;
          }
          storyData := storyData + ("**-- " + Escape(data.stringVal) + " --**\n\n");
          assert storyData == before + ((if before != "" then Divider else "") + TitleLine(data));
        } else {
          assert Chunk(story, snippet, storyData != "") == Ok("");
          assert storyData + "" == storyData;
        }
      } else {
        assert Chunk(story, snippet, storyData != "") == Ok("");
        assert storyData + "" == storyData;
      }
    }
    assert story.snippets[..|story.snippets|] == story.snippets;
    return Ok(storyData);
  }

  /** A failure in the first `i` snippets is the failure of the whole pass:
      nothing rendered before it survives. */
  lemma PrefixFailure(story: Story, s: seq<Snippet>, i: nat)
    requires i <= |s| && RenderFrom(story, s[..i], false).Malformed?
    ensures RenderFrom(story, s, false) == RenderFrom(story, s[..i], false)
  {
    assert s == s[..i] + s[i..];
    RenderFromAppend(story, s[..i], s[i..], false);
  }

  /** A chapter without snippets renders to the empty string. */
  lemma RenderEmpty(story: Story)
    requires story.snippets == []
    ensures Render(story) == Ok("")
  {
  }

  /** The buffer only grows: every prefix of the snippets renders to a
      prefix of the whole chapter's text. */
  lemma RenderGrows(story: Story, i: nat)
    requires i <= |story.snippets| && Render(story).Ok?
    ensures RenderFrom(story, story.snippets[..i], false).Ok?
    ensures RenderFrom(story, story.snippets[..i], false).text <= Render(story).text
  {
    var s := story.snippets;
    assert s == s[..i] + s[i..];
    RenderFromAppend(story, s[..i], s[i..], false);
  }

  /** A snippet that is neither dialogue nor a title card leaves the buffer
      exactly as it was. */
  lemma IgnoredSnippet(story: Story, s: seq<Snippet>, x: Snippet)
    requires !IsMalformed(story, x) && !IsDialogue(story, x) && !IsTitleCard(story, x)
    ensures RenderFrom(story, s + [x], false) == RenderFrom(story, s, false)
  {
    RenderFromSnoc(story, s, x);
    match RenderFrom(story, s, false)
    case Malformed(y) =>
    case Ok(b) => assert b + "" == b;
  }

  /** A title card gets a divider in front of it exactly when something has
      been rendered before it. */
  lemma TitleCardDivider(story: Story, s: seq<Snippet>, x: Snippet)
    requires IsTitleCard(story, x) && RenderFrom(story, s, false).Ok?
    ensures var b := RenderFrom(story, s, false).text;
      RenderFrom(story, s + [x], false) ==
        Ok(b + (if b != "" then Divider else "") + TitleLine(story.specialEffectData[x.referenceIndex]))
  {
    RenderFromSnoc(story, s, x);
  }

  /** A title card that is the first snippet of a chapter gets no divider:
      the chapter's text starts with the title line itself. */
  lemma FirstTitleCardHasNoDivider(story: Story)
    requires |story.snippets| > 0 && IsTitleCard(story, story.snippets[0]) && Render(story).Ok?
    ensures TitleLine(story.specialEffectData[story.snippets[0].referenceIndex]) <= Render(story).text
    ensures Render(story).text[..5] == "**-- "
  {
    var s := story.snippets;
    assert s == [s[0]] + s[1..];
    RenderFromAppend(story, [s[0]], s[1..], false);
    assert RenderFrom(story, [s[0]], false) == Ok(TitleLine(story.specialEffectData[s[0].referenceIndex])) by {
      var t := TitleLine(story.specialEffectData[s[0].referenceIndex]);
      assert [s[0]][1..] == [];
      assert t + "" == t;
    }
  }

  /** Two title cards in a row are separated by a divider: since the
      condition reduces to non-emptiness, the buffer ending in a title close
      does not suppress it. */
  lemma ConsecutiveTitleCards(story: Story, s: seq<Snippet>, x: Snippet, y: Snippet)
    requires IsTitleCard(story, x) && IsTitleCard(story, y) && RenderFrom(story, s, false).Ok?
    ensures var b := RenderFrom(story, s, false).text;
      RenderFrom(story, s + [x, y], false) ==
        Ok(b + (if b != "" then Divider else "") + TitleLine(story.specialEffectData[x.referenceIndex])
             + Divider + TitleLine(story.specialEffectData[y.referenceIndex]))
  {
    TitleCardDivider(story, s, x);
    TitleCardDivider(story, s + [x], y);
    assert s + [x, y] == (s + [x]) + [y];
  }

  /** A pass fails exactly when some snippet's lookup fails, and then it
      reports the first such snippet. */
  lemma {:induction false} RenderFromFailure(story: Story, s: seq<Snippet>, nonEmpty: bool)
    ensures RenderFrom(story, s, nonEmpty).Malformed? <==> exists i | 0 <= i < |s| :: IsMalformed(story, s[i])
    ensures RenderFrom(story, s, nonEmpty).Malformed? ==>
      exists i | 0 <= i < |s| :: s[i] == RenderFrom(story, s, nonEmpty).culprit && IsMalformed(story, s[i]) &&
        forall j | 0 <= j < i :: !IsMalformed(story, s[j])
    decreases |s|
  {
    if s != [] {
      match Chunk(story, s[0], nonEmpty)
      case Malformed(y) =>
        assert s[0] == y && IsMalformed(story, s[0]);
      case Ok(c) =>
        var ne := nonEmpty || c != "";
        RenderFromFailure(story, s[1..], ne);
        assert !IsMalformed(story, s[0]);
        if RenderFrom(story, s[1..], ne).Malformed? {
          var i :| 0 <= i < |s[1..]| && s[1..][i] == RenderFrom(story, s[1..], ne).culprit &&
            IsMalformed(story, s[1..][i]) && forall j | 0 <= j < i :: !IsMalformed(story, s[1..][j]);
          assert s[i + 1] == s[1..][i];
          forall j | 0 <= j < i + 1 ensures !IsMalformed(story, s[j]) {
            if j > 0 { assert s[j] == s[1..][j - 1]; }
          }
        } else {
          forall i | 0 <= i < |s| ensures !IsMalformed(story, s[i]) {
            if i > 0 { assert s[i] == s[1..][i - 1]; }
          }
        }
    }
  }

  /** The whole chapter fails exactly when one of its snippets refers
      outside its array. */
  lemma RenderFailure(story: Story)
    ensures Render(story).Malformed? <==>
      exists i | 0 <= i < |story.snippets| :: IsMalformed(story, story.snippets[i])
  {
    RenderFromFailure(story, story.snippets, false);
  }

  /** A chapter made of one dialogue snippet renders to exactly its line. */
  lemma SingleDialogue(t: Talk)
    ensures Render(Story([Snippet(1, 0)], [t], [])) == Ok(DialogueLine(t))
  {
    var story := Story([Snippet(1, 0)], [t], []);
    assert story.snippets[1..] == [];
  }

  /** A chapter made of one title card renders to exactly its title line,
      with no divider in front. */
  lemma SingleTitleCard(e: SpecialEffect)
    requires e.effectType == TitleEffect
    ensures Render(Story([Snippet(6, 0)], [], [e])) == Ok(TitleLine(e))
  {
    var story := Story([Snippet(6, 0)], [], [e]);
    assert story.snippets[1..] == [];
  }

  /** Text that neither the escape nor the line-break flattening touches. */
  predicate Plain(s: string) {
    forall i | 0 <= i < |s| :: !IsSpecial(s[i]) && !IsLineBreak(s[i])
  }

  /** A body of two plain lines becomes one line with a space between them,
      behind the speaker's name. */
  lemma DialogueExample(name: string, x: string, y: string)
    requires Plain(x) && Plain(y)
    ensures DialogueLine(Talk(name, x + "\n" + y)) == "**" + name + ":** " + x + " " + y + "\n\n"
  {
    assert FlattenLineBreaks(x + "\n" + y) == x + " " + y;
    EscapePlain(x + " " + y);
  }

  /** Asterisks around a word of a title are escaped, the rest kept. */
  lemma TitleExample(x: string, y: string)
    requires Plain(x) && Plain(y)
    ensures TitleLine(SpecialEffect(8, x + "*" + y + "*")) ==
      "**-- " + x + "\\*" + y + "\\*" + " --**\n\n"
  {
    EscapeStarred(x, y);
  }

  lemma EscapeStarred(x: string, y: string)
    requires Plain(x) && Plain(y)
    ensures Escape(x + "*" + y + "*") == x + "\\*" + y + "\\*"
  {
    EscapeAppend(x + "*" + y, "*");
    EscapeAppend(x + "*", y);
    EscapeAppend(x, "*");
    EscapePlain(x);
    EscapePlain(y);
    assert Escape("*") == "\\*";
  }

  /** Kasumi's two-line greeting renders as one paragraph line. */
  lemma KasumiExample()
    ensures Render(Story([Snippet(1, 0)], [Talk("Kasumi", "Let's go!\nTogether!")], []))
      == Ok("**Kasumi:** Let's go! Together!\n\n")
  {
    KasumiText();
    KasumiLine();
    SingleDialogue(Talk("Kasumi", "Let's go!\nTogether!"));
    DialogueExample("Kasumi", "Let's go!", "Together!");
  }

  /** The title card "Chapter *One*" opening a chapter renders without a
      divider and with its asterisks escaped. */
  lemma ChapterOneExample()
    ensures Render(Story([Snippet(6, 0)], [], [SpecialEffect(8, "Chapter *One*")]))
      == Ok("**-- Chapter \\*One\\* --**\n\n")
  {
    ChapterOneText();
    SingleTitleCard(SpecialEffect(8, "Chapter *One*"));
    TitleExample("Chapter ", "One");
  }

  // The string literals of the two examples, split into the pieces the
  // general lemmas above speak about. Kept apart from `Render` so that the
  // solver does not unfold the renderer on whole literals.

  lemma KasumiText()
    ensures "Let's go!\nTogether!" == "Let's go!" + "\n" + "Together!"
    ensures Plain("Let's go!") && Plain("Together!")
  {
  }

  lemma KasumiLine()
    ensures "**Kasumi:** Let's go! Together!\n\n" ==
      "**" + "Kasumi" + ":** " + "Let's go!" + " " + "Together!" + "\n\n"
  {
  }

  lemma ChapterOneText()
    ensures "Chapter *One*" == "Chapter " + "*" + "One" + "*"
    ensures Plain("Chapter ") && Plain("One")
    ensures "**-- Chapter \\*One\\* --**\n\n" ==
      "**-- " + "Chapter " + "\\*" + "One" + "\\*" + " --**\n\n"
  {
  }
}
