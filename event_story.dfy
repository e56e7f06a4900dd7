/** The markdown of one event: a book heading with the event name, then for
    each chapter a chapter heading and the chapter's rendered scenario. A
    chapter whose scenario fails to render makes the whole event fail, and
    no e-book is produced for it. */
module EventStory {
  import opened Markdown
  import opened Renderer

  /** `% <escaped name>\n\n`: the title block of the e-book. The part
      between `% ` and the closing blank line is well-formed escaped text
      that unescapes to the event name. */
  function BookHeading(name: string): (h: string)
    ensures 4 <= |h| && h[..2] == "% " && h[|h| - 2..] == "\n\n"
    ensures IsEscaped(h[2..|h| - 2]) && Unescape(h[2..|h| - 2]) == name
  {
    var e := Escape(name);
    EscapeIsEscaped(name);
    UnescapeEscape(name);
    var h := "% " + e + "\n\n";
    assert h[..2] == "% ";
    assert h[2..|h| - 2] == e;
    h
  }

  /** `# <caption> - <escaped title>\n\n---\n\n`: the caption goes in
      verbatim, the title escaped, and the heading ends with a divider. */
  function ChapterHeading(caption: string, title: string): (h: string)
    ensures var n := |caption| + 5;
      n + 7 <= |h| &&
      h[..n] == "# " + caption + " - " &&
      h[|h| - 7..] == "\n\n" + Divider &&
      IsEscaped(h[n..|h| - 7]) && Unescape(h[n..|h| - 7]) == title
    ensures EndsWith(h, Divider)
  {
    var head := "# " + caption + " - ";
    var e := Escape(title);
    EscapeIsEscaped(title);
    UnescapeEscape(title);
    var h := head + e + "\n\n---\n\n";
    assert h[..|head|] == head;
    assert h[|head|..|h| - 7] == e;
    assert h[|h| - 7..] == "\n\n" + Divider;
    assert h[|h| - 5..] == Divider;
    h
  }

  /** One chapter of an event: its caption and title in the chosen region,
      and its scenario. */
  datatype Chapter = Chapter(caption: string, title: string, episode: Story)

  /** The event's markdown after its first `|chapters|` chapters. */
  function EventMarkdown(name: string, chapters: seq<Chapter>): Outcome
    decreases |chapters|
  {
    if chapters == [] then Ok(BookHeading(name))
    else
      var c := chapters[|chapters| - 1];
      match EventMarkdown(name, chapters[..|chapters| - 1])
      case Malformed(y) => Malformed(y)
      case Ok(t) => Prefix(t + ChapterHeading(c.caption, c.title), Render(c.episode))
  }

  /** The chapter loop: each chapter's heading, then its rendered scenario,
      appended to the event's buffer; a chapter that fails to render ends
      the event with that failure. */
  method BuildEventStory(name: string, chapters: seq<Chapter>) returns (r: Outcome)
    ensures r == EventMarkdown(name, chapters)
  {
    var eventStoryData := BookHeading(name);
    for i := 0 to |chapters|
      invariant EventMarkdown(name, chapters[..i]) == Ok(eventStoryData)
    {
      var chapter := chapters[i];
      assert chapters[..i + 1][..i] == chapters[..i];
      eventStoryData := eventStoryData + ChapterHeading(chapter.caption, chapter.title);
      var part := ProcessStory(chapter.episode);
      if part.Malformed? {
        EventPrefixFailure(name, chapters, i + 1);
        return Malformed(part.culprit);
      }
      eventStoryData := eventStoryData + part.text;
    }
    assert chapters[..|chapters|] == chapters;
    return Ok(eventStoryData);
  }

  /** Once a chapter has failed, no later chapter changes the outcome. */
  lemma {:induction false} EventPrefixFailure(name: string, chapters: seq<Chapter>, i: nat)
    requires i <= |chapters| && EventMarkdown(name, chapters[..i]).Malformed?
    ensures EventMarkdown(name, chapters) == EventMarkdown(name, chapters[..i])
    decreases |chapters|
  {
    if i < |chapters| {
      var init := chapters[..|chapters| - 1];
      assert init[..i] == chapters[..i];
      EventPrefixFailure(name, init, i);
    } else {
      assert chapters[..i] == chapters;
    }
  }

  /** A successful event's markdown starts with its book heading. */
  lemma {:induction false} EventStartsWithHeading(name: string, chapters: seq<Chapter>)
    requires EventMarkdown(name, chapters).Ok?
    ensures BookHeading(name) <= EventMarkdown(name, chapters).text
    decreases |chapters|
  {
    if chapters != [] {
      EventStartsWithHeading(name, chapters[..|chapters| - 1]);
    }
  }

  /** An event fails exactly when one of its chapters' scenarios fails to
      render. */
  lemma {:induction false} EventFailure(name: string, chapters: seq<Chapter>)
    ensures EventMarkdown(name, chapters).Malformed? <==>
      exists i | 0 <= i < |chapters| :: Render(chapters[i].episode).Malformed?
    decreases |chapters|
  {
    if chapters != [] {
      var init := chapters[..|chapters| - 1];
      EventFailure(name, init);
      if exists i | 0 <= i < |init| :: Render(init[i].episode).Malformed? {
        var i :| 0 <= i < |init| && Render(init[i].episode).Malformed?;
        assert chapters[i] == init[i];
      }
      if exists i | 0 <= i < |chapters| :: Render(chapters[i].episode).Malformed? {
        var i :| 0 <= i < |chapters| && Render(chapters[i].episode).Malformed?;
        if i < |init| { assert init[i] == chapters[i]; }
      }
    }
  }

  /** A chapter that opens with a title card gets exactly the divider that
      ends its chapter heading: the renderer starts each chapter on an empty
      buffer, so it adds none of its own. */
  lemma ChapterOpeningTitle(name: string, chapters: seq<Chapter>, i: nat)
    requires i < |chapters| && EventMarkdown(name, chapters[..i + 1]).Ok?
    requires var ep := chapters[i].episode; |ep.snippets| > 0 && IsTitleCard(ep, ep.snippets[0])
    ensures var c := chapters[i];
      EventMarkdown(name, chapters[..i]).Ok? &&
      EventMarkdown(name, chapters[..i + 1]).text ==
        EventMarkdown(name, chapters[..i]).text + ChapterHeading(c.caption, c.title) + Render(c.episode).text &&
      EndsWith(ChapterHeading(c.caption, c.title), Divider) &&
      TitleLine(c.episode.specialEffectData[c.episode.snippets[0].referenceIndex]) <= Render(c.episode).text
  {
    var c := chapters[i];
    assert chapters[..i + 1][..i] == chapters[..i];
    assert chapters[..i + 1][i] == c;
    FirstTitleCardHasNoDivider(c.episode);
  }
}
