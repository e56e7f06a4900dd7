# bandori-epub-converter: the scenario renderer, modelled in Dafny

The converter downloads the event scenarios of a rhythm game and turns each
into an e-book. The part with real logic is `processStory`: a single pass
over a chapter's snippets that appends markdown to a string buffer.
Dialogue snippets (action 1) append `**<name>:** <body>\n\n`. The body has
its line breaks flattened to spaces and its markdown characters escaped.
Special-effect snippets (action 6) whose effect is a title card (effect 8)
append `**-- <text> --**\n\n`, preceded by a divider `---\n\n` when the
divider condition holds. Every other snippet appends nothing. Around it sit
the markdown escape, the book and chapter headings, the loop that joins the
chapters of one event, and the sanitiser that builds the e-book's file name.

Files and modules:

- `markdown.dfy`, module `Markdown`: the escape of `\ * _ < > ( ) #` with
  its reference inverse `Unescape`, the line-break flattening, `EndsWith`,
  and the divider condition exactly as written.
- `renderer.dfy`, module `Renderer`: the scenario data, the per-snippet
  `Chunk`, the functional specification `Render`, the loop `ProcessStory`,
  and the lemmas about them.
- `event_story.dfy`, module `EventStory`: the headings, and the chapter loop
  `BuildEventStory` with its specification `EventMarkdown`.
- `file_names.dfy`, module `FileNames`: the Windows file-name sanitiser, the
  zero padding of the event id, and the output path.

`ProcessStory` keeps the source's form. It is a method with a `storyData`
string that grows by `+`, and a `for` loop over the snippets. It tests the
divider with the literal condition
`(!endsWith("---\n\n") || !endsWith("--**\n\n")) && storyData != ""`.
Its postcondition ties the result to `Render`, a concatenation of
per-snippet chunks where each chunk sees the buffer only through "is it
empty". The proof goes through `GuardIsNonEmpty`. No string ends with both
suffixes, because their third-last characters are `-` and `*`. So the
condition as written is the same as "the buffer is not empty". As a result,
a divider goes before every title card except the first thing in a chapter,
including directly after another title card (`ConsecutiveTitleCards`).
Only the dialogue body is escaped; the speaker name goes in verbatim.

A `referenceIndex` outside its array makes the source read a field of
`undefined`, which throws before anything is returned. The model returns
`Malformed(snippet)` for the first such snippet, and an event with a failing
chapter fails as a whole. In the source, its `catch` then skips that event.

## Model

| member | source | states |
|---|---|---|
| `Markdown.Escape` | index.js:18 | the escaped text is longer by exactly the number of special characters and brings in no character that is not in the input other than the backslash |
| `Markdown.EscapeIsEscaped` | index.js:18 | the escape's output is well-formed escaped text: every special character follows a backslash |
| `Markdown.UnescapeEscape` | index.js:18 | removing the inserted backslashes gives back the input, so every other character is kept in order |
| `Markdown.EscapeUnescape` | index.js:18 | every well-formed escaped text is the escape of something, so the escape is a bijection onto escaped text |
| `Markdown.EscapeAppend` | index.js:18 | the escape works character by character: it distributes over concatenation |
| `Markdown.EscapePlain` | index.js:18 | text without special characters is unchanged |
| `Markdown.FlattenLineBreaks` | index.js:59 | each `\n` and each `\r` becomes one space, all else stays in place, and the result has no line break |
| `Markdown.EscapeKeepsNoLineBreak` | index.js:59 | escaping flattened text does not bring back a line break |
| `Markdown.NoStringEndsWithBoth` | index.js:65 | no string ends with both `---\n\n` and `--**\n\n` |
| `Markdown.GuardIsNonEmpty` | index.js:65-67 | the divider condition as written holds exactly when the buffer is non-empty |
| `Renderer.DialogueLineShape` | index.js:57-59 | a dialogue line is `**`, the unescaped name, `:** `, then escaped text without line breaks that unescapes to the flattened body, then `\n\n` |
| `Renderer.TitleLineShape` | index.js:68 | a title line is `**-- `, escaped text that unescapes to the card's text, then ` --**\n\n`, so it ends in the title close |
| `Renderer.Chunk` | index.js:56-72 | a snippet fails exactly when its lookup is out of range; dialogue gives its line; a title card gives its line behind a divider exactly when the buffer is non-empty; any other action or effect gives nothing |
| `Renderer.RenderFromAppend` | index.js:54-73 | rendering `a + b` is rendering `a`, then `b` on a buffer that is non-empty if `a` wrote anything |
| `Renderer.RenderFromSnoc` | index.js:54-73 | one more snippet appends its chunk to what came before, with the buffer's emptiness as its only input |
| `Renderer.ProcessStory` | index.js:52-75 | the loop with the literal divider condition returns exactly `Render`: the in-order concatenation of the chunks, or the first failing snippet |
| `Renderer.PrefixFailure` | index.js:58-63 | a failure in a prefix of the snippets is the failure of the whole chapter, with no partial output |
| `Renderer.RenderEmpty` | index.js:53-54 | a chapter without snippets renders to the empty string |
| `Renderer.RenderGrows` | index.js:54-73 | the buffer only grows: each prefix of the snippets renders to a prefix of the chapter's text |
| `Renderer.IgnoredSnippet` | index.js:56-72 | a snippet that is neither dialogue nor a title card leaves the rendering unchanged |
| `Renderer.TitleCardDivider` | index.js:64-68 | a title card appends a divider exactly when the buffer is non-empty, then its title line |
| `Renderer.FirstTitleCardHasNoDivider` | index.js:64-68 | a title card that opens a chapter gets no leading divider: the chapter's text starts with its title line |
| `Renderer.ConsecutiveTitleCards` | index.js:64-68 | two title cards in a row are separated by a divider, since ending in a title close does not suppress it |
| `Renderer.RenderFromFailure` | index.js:58-63 | a pass fails exactly when some snippet's lookup is out of range, and it then reports the first such snippet |
| `Renderer.RenderFailure` | index.js:58-63 | a chapter fails exactly when one of its snippets refers outside its array |
| `Renderer.SingleDialogue` | index.js:57-59 | a chapter of one dialogue snippet renders to exactly that snippet's line |
| `Renderer.SingleTitleCard` | index.js:61-68 | a chapter of one title card renders to exactly its title line, with no divider |
| `Renderer.DialogueExample` | index.js:59 | a body of two lines without special characters becomes the name in bold, then both lines joined by a space |
| `Renderer.TitleExample` | index.js:68 | asterisks around a word of a title card are escaped with a backslash, the other characters kept |
| `Renderer.KasumiExample` | index.js:57-59 | Kasumi saying `Let's go!`, a line break, `Together!` renders as `**Kasumi:** Let's go! Together!` and a blank line |
| `Renderer.ChapterOneExample` | index.js:64-68 | the title card `Chapter *One*` alone in a chapter renders as `**-- Chapter \*One\* --**` and a blank line, with no divider |
| `EventStory.BookHeading` | index.js:106 | the book heading is `% `, escaped text that unescapes to the event name, then `\n\n` |
| `EventStory.ChapterHeading` | index.js:114 | the chapter heading is `# `, the caption unescaped, ` - `, escaped text that unescapes to the title, then `\n\n` and a divider |
| `EventStory.BuildEventStory` | index.js:105-118 | the chapter loop returns exactly `EventMarkdown`: the book heading, then each chapter's heading and rendering, or the first failure |
| `EventStory.EventPrefixFailure` | index.js:109-118 | once a chapter fails, later chapters do not change the outcome |
| `EventStory.EventStartsWithHeading` | index.js:106 | a successful event's markdown starts with its book heading |
| `EventStory.EventFailure` | index.js:109-118 | an event fails exactly when one of its chapters fails to render |
| `EventStory.ChapterOpeningTitle` | index.js:114-117 | a chapter opening with a title card gets only the divider ending its heading, and its rendering starts with the title line |
| `FileNames.ReplaceForbidden` | index.js:17 | each of `< > : " / \ ? *` and the vertical bar becomes `_`, all else stays in place, and no forbidden character remains |
| `FileNames.SanitizeName` | index.js:121 | the sanitised name has no forbidden character, loses exactly one trailing dot when the name ends in one, and otherwise keeps every position |
| `FileNames.PadStart` | index.js:121 | the padded id has length max(width, length of the id), ends with the id, and has only the fill character in front of it |
| `FileNames.PadStartNoForbidden` | index.js:121 | padding with `0` adds no forbidden character |
| `FileNames.PadStartKeepsNumber` | index.js:121 | padding the id with zeros to any width keeps its decimal value |
| `FileNames.FileName` | index.js:121 | the file name is the event id left-padded with zeros to at least three characters, ` - `, the sanitised event name, then `.epub`, and it has no forbidden character when the event id has none |
| `FileNames.EpubPath` | index.js:121 | the output path is `Stories/Event Stories/` followed by that file name |

## Left out

- `fileExists`, `mkdir` and `cacheAsset` (index.js:23-48): file-system access, HTTP download and a dynamic `require`, all I/O.
- The fetches of the event lists, the console logging and the call of the external markdown-to-epub converter (index.js:77-130): network, logging and an external program. The `try`/`catch` appears only as the `Malformed` outcome that makes an event fail as a whole.
- The "has the event started" test (index.js:98): it compares the wall clock with a parsed date.
- The choice of region (index.js:7): captions, titles and event names come into the model as already chosen strings.
- Fields that are missing or not strings: the model's scenario records always hold strings. In the source, a missing speaker name would print as `undefined` and a missing body would throw.
- `referenceIndex` values that are not integers: the model's indices are integers.
- A missing entry for an event in the story list (index.js:109) throws in the source; the model takes the chapters as given.
- JavaScript strings are sequences of UTF-16 code units; the model works on Dafny characters, which makes no difference to these fixed ASCII character tests.
