# AIPPT slide builder in Dafny

AIPPT asks a chat model for a markdown outline of a talk and turns the outline
into a PowerPoint deck with `create_ppt` (main.py). This project models that
function and the helper `set_text_frame_properties` it calls, and proves what
they do with an outline:

- the outline is cut at every `## `; each piece that is not whitespace-only
  becomes one slide, in order, including a non-blank preamble before the
  first `## `;
- a slide's title is the first line of its piece, stripped;
- every further line becomes exactly one box, in order. A line holding
  `[IMAGE:` becomes a 4in by 3in placeholder that shows
  `[图片: <description>]`, centred. The description is the text between the
  line's first `:` and its first `]`. Any other line, empty lines included,
  becomes a 9in by 0.5in text box holding the line verbatim, in 18pt black
  微软雅黑 with word wrap on;
- a cursor starting at 1.5in moves down 3.5in after an image box and 0.6in
  after a text box, so the boxes of a slide never overlap;
- the layout's body placeholder is removed from every slide;
- `create_ppt` raises (`ValueError` from `str.index`) exactly when some
  non-blank piece has, after its first line, a line with `[IMAGE:` and no `]`.

Two behaviours of the code as written are proved as they are:

- `index(':')` finds the first `:` of the whole line, which may lie before the
  `[IMAGE:` tag (`ColonBeforeMarker`).
- The description is empty whenever the first `]` comes no later than one
  place after the first `:` (`ImageDescriptionSlice`), as in `[1][IMAGE:x]`,
  where a `]` ahead of the tag precedes every `:` (`BracketBeforeMarker`). A
  `]` ahead of the tag but after a `:` instead yields the text between them.

A marker written as the outline prompt asks, with no `:` or `]` in front of
it, reads back as written (`MarkerDescription`).

Lengths are integers in EMU, the unit python-pptx stores (914400 per inch,
12700 per point), so every length in main.py is exact.

Modules:

- `Wrappers`: `Option` and `Result`.
- `PyStr`: the Python string operations main.py relies on, as functions with
  lemmas:
  - `str.split` and its inverse `join`;
  - `strip`, `lstrip` and `rstrip` over the `str.isspace` characters;
  - `in` and `index`;
  - slicing with clamped bounds.
- `Slides`: the data model and what `create_ppt` computes, as functions of the
  outline:
  - `Render` is the whole outline;
  - `RenderFragment` is one piece;
  - `LineShape` is one line;
  - `Cursor` is the position of `top`.
- `SlideProperties`: the properties above, proved of those functions.
- `Builder`: the step-by-step code.
  - A `Presentation` class whose slide list its methods change in place.
  - `SetTextFrameProperties` with its loop over paragraphs.
  - `CreatePpt` with its loop over pieces, which calls `AddFragmentSlide`
    (one pass of the loop body) and `AddLineShape` (one pass of the inner
    loop over lines).
  - Each method's contract ties its result or the new state to the
    functions of `Slides`.

python-pptx gives a new text box one empty paragraph, and `add_paragraph`
appends after it. The model keeps that paragraph: every box's frame is that
empty paragraph followed by the one main.py fills in. A new box also has word
wrap off (`wrap="none"`) and unstyled paragraphs. Text boxes are then styled
by `set_text_frame_properties`; image placeholders keep those defaults.

## Model

| member | source | states |
|---|---|---|
| PyStr.IndexOf | main.py:119 | no contract; `str.find`/`str.index`, characterised by IndexOfFirst, IndexOfIs and IndexOfInRange |
| PyStr.Contains | main.py:117 | no contract; `sub in s`, characterised by OccurrenceContains and IndexOfFirst |
| PyStr.Join | main.py:101 | no contract; `sep.join`, characterised by SplitJoin as the inverse of `split` |
| PyStr.IsSpace | main.py:103 | no contract; the characters for which `str.isspace()` holds, which `strip()` removes here and at line 109; used by LStripRemovesSpace, RStripRemovesSpace, StripTrims and StripEmptyIff |
| PyStr.LStrip | main.py:109 | no contract; `lstrip`, characterised by LStripRemovesSpace |
| PyStr.RStrip | main.py:109 | no contract; `rstrip`, characterised by RStripRemovesSpace |
| PyStr.Strip | main.py:109 | no contract; `strip`, characterised by StripTrims and StripEmptyIff |
| PyStr.Slice | main.py:119 | no contract; `s[a:b]`, characterised by SliceChars and SliceWithin |
| Slides.StyledFrame | main.py:88-94 | no contract; what `set_text_frame_properties` leaves, characterised by StyledFrameKeepsText and computed by Builder.SetTextFrameProperties |
| Slides.StyledParagraph | main.py:90-94 | no contract; one paragraph after the loop body sets its size, name and colour; characterised by StyledFrameKeepsText |
| Slides.AddParagraph | main.py:140-141 | no contract; `tf.add_paragraph()` and its text, also at lines 132-134: the new paragraph goes after those already in the frame; stated in TextLineShape and ImageLineShape |
| Slides.IsBlank | main.py:103 | no contract; `not slide_content.strip()`, characterised by StripEmptyIff |
| Slides.IsImageLine | main.py:117 | no contract; `'[IMAGE:' in line`, characterised by OccurrenceContains and IndexOfFirst |
| Slides.Unclosed | main.py:117-119 | no contract; an image line on which `line.index(']')` raises, characterised by LineShapeFails and LayoutFailsIff |
| Slides.ImageDescription | main.py:119 | no contract; the label slice, characterised by ImageLineHasColon, ImageDescriptionFails, ImageDescriptionSlice and MarkerDescription |
| Slides.PlaceholderText | main.py:133 | no contract; the f-string `[图片: {description}]`, stated in ImageLineShape |
| Slides.ImageShape | main.py:117-136 | no contract; the placeholder box, characterised by ImageLineShape and LineShapePlacement |
| Slides.TextShape | main.py:137-143 | no contract; the text box, characterised by TextLineShape and LineShapePlacement |
| Slides.LineShape | main.py:117-143 | no contract; one line's box or error, characterised by TextLineShape, ImageLineShape, LineShapeFails and LineShapePlacement |
| Slides.Advance | main.py:136-143 | no contract; the cursor's step per line, characterised by CursorStep and LineShapePlacement |
| Slides.Cursor | main.py:112-143 | no contract; the value of `top` after some lines, characterised by CursorStep, CursorGrows and NoOverlap |
| Slides.LayoutLines | main.py:116-143 | no contract; the boxes of a slide, characterised by LayoutShapes, LayoutFailsIff and NoOverlap |
| Slides.RenderFragment | main.py:104-147 | no contract; one piece's slide, characterised by FirstLine, FragmentSlide and FragmentFailsIff |
| Slides.NonBlank | main.py:101-104 | no contract; the pieces that become slides, characterised by NonBlankMembers, NonBlankOrder and NonBlankFirst |
| Slides.NonBlankPositions | main.py:102-103 | no contract; the positions of the non-blank pieces, characterised by NonBlankOrder, NonBlankPositionsIncrease and NonBlankPositionsComplete |
| Slides.RenderDeck | main.py:101-147 | no contract; the slides of a list of pieces, characterised by DeckSlides and DeckFailsIff |
| Slides.Render | main.py:97-149 | no contract; what `create_ppt` returns or raises, characterised by RenderSlides and RenderFailsIff, and computed by Builder.CreatePpt |
| PyStr.IndexOfFirst | main.py:119 | `index` returns a position where the substring occurs, with no occurrence before it; it raises only when the substring occurs nowhere |
| PyStr.OccurrenceContains | main.py:117 | `sub in s` holds whenever `sub` occurs at some position of `s` |
| PyStr.IndexOfIs | main.py:119 | an occurrence with none before it is exactly what `index` returns |
| PyStr.IndexOfChar | main.py:119 | `index(c)` for one character is the position of its first appearance |
| PyStr.IndexOfInRange | main.py:119 | the position `index` returns leaves room for the substring before the end of the string |
| PyStr.Split | main.py:101 | `split` always yields at least one piece |
| PyStr.SplitJoin | main.py:101 | joining the pieces of `split` with the separator gives back the string, and no piece contains the separator |
| PyStr.SplitFirst | main.py:108 | the first piece of `split` is the text before the first separator, or the whole string when there is none, and only then is it the only piece |
| PyStr.LStripRemovesSpace | main.py:109 | `lstrip` removes a leading run of whitespace, a suffix remains, and it starts with a non-whitespace character |
| PyStr.RStripRemovesSpace | main.py:109 | `rstrip` removes a trailing run of whitespace, a prefix remains, and it ends with a non-whitespace character |
| PyStr.StripTrims | main.py:109 | `strip` is a contiguous stretch of the string, flanked only by whitespace, and neither starting nor ending with whitespace |
| PyStr.StripEmptyIff | main.py:103 | `s.strip()` is empty exactly when every character of `s` is whitespace |
| PyStr.SliceChars | main.py:119 | `s[a:b]` has length `min(b, len(s)) - a` (0 when that is not positive) and holds the characters from `a` on |
| PyStr.SliceWithin | main.py:119 | within bounds, `s[a:b]` is empty when `b <= a` and the stretch from `a` to `b` otherwise |
| Slides.StyledFrameKeepsText | main.py:88-94 | styling turns word wrap on, gives every paragraph 18pt black 微软雅黑, keeps each paragraph's text, alignment and order, and is idempotent |
| Slides.Lines | main.py:108 | a piece has at least one line, so `lines[0]` never fails |
| SlideProperties.ImageLineHasColon | main.py:117-119 | a line holding `[IMAGE:` holds a `:` no later than the tag's own, so `index(':')` never raises on it |
| SlideProperties.ImageDescriptionFails | main.py:119 | on a line holding a `:`, cutting the description raises exactly when there is no `]` |
| SlideProperties.ImageDescriptionSlice | main.py:119 | the description is the text strictly between the first `:` and the first `]`, and empty when that `]` is not past the character after the `:` |
| SlideProperties.MarkerPositions | main.py:117-119 | in `pre + "[IMAGE:" + d + "]" + post`, with no `:` or `]` in `pre` and no `]` in `d`, the line is an image line, the first `:` is the tag's and the first `]` closes the marker |
| SlideProperties.MarkerDescription | main.py:117-119 | such a marker yields exactly the description `d` |
| SlideProperties.ColonBeforeMarker | main.py:119 | a `:` before the tag is the one `index(':')` finds, so `a:[IMAGE:x]` yields the description `[IMAGE:x` |
| SlideProperties.BracketBeforeMarker | main.py:119 | a `]` ahead of every `:` ends the slice before it starts: `[1][IMAGE:x]` yields `""` (the general case, a first `]` no later than one place after the first `:`, is ImageDescriptionSlice) |
| SlideProperties.TextLineShape | main.py:137-143 | a line without `[IMAGE:` becomes a text box at left 0.5in, 9in wide, 0.5in high, at the cursor, holding the line verbatim after the empty paragraph, with word wrap on and both paragraphs in the body font |
| SlideProperties.ImageLineShape | main.py:117-134 | a line with `[IMAGE:` and `]` becomes a 4in by 3in box at left 1in, at the cursor, holding the centred text `[图片: ` + the description + `]` after the empty paragraph |
| SlideProperties.LineShapeFails | main.py:117-119 | one line raises exactly when it holds `[IMAGE:` and no `]` |
| SlideProperties.LineShapePlacement | main.py:120-143 | a box starts at the cursor and its height is positive and less than the distance the cursor then moves |
| SlideProperties.CursorStep | main.py:136-143 | after one more line, the cursor has moved by 3.5in for an image line and by 0.6in otherwise |
| SlideProperties.CursorGrows | main.py:136-143 | after line `i` and any lines that follow it, the cursor is at least that line's advance lower |
| SlideProperties.LayoutShapes | main.py:116-143 | the lines after the title give exactly one box each, in order, the k-th being what line k becomes at the cursor the lines before it left |
| SlideProperties.LayoutFailsIff | main.py:116-119 | a slide's lines raise exactly when one of them holds `[IMAGE:` and no `]` |
| SlideProperties.NoOverlap | main.py:111-143 | the first box starts at 1.5in and every box starts strictly below the bottom of every box before it |
| SlideProperties.FirstLine | main.py:108-109 | the line the title comes from is the piece up to its first newline, or all of it when it has none |
| SlideProperties.FragmentFailsIff | main.py:108-119 | a piece's slide raises exactly when some line after its first holds `[IMAGE:` and no `]` |
| SlideProperties.FragmentSlide | main.py:104-147 | a slide's title is the first line stripped, its body placeholder is gone, and its boxes are exactly one per further line, in order, each at its cursor position |
| SlideProperties.NonBlankMembers | main.py:101-103 | the pieces that become slides are exactly those whose `strip()` is not empty |
| SlideProperties.NonBlankOrder | main.py:101-104 | the i-th piece to become a slide is the piece at the i-th of the picked positions, and each picked position holds a non-blank piece |
| SlideProperties.NonBlankPositionsIncrease | main.py:101-104 | the picked positions strictly increase, so the pieces keep their order and none is taken twice |
| SlideProperties.NonBlankPositionsComplete | main.py:101-104 | every non-blank piece's position is picked, so no slide is dropped |
| SlideProperties.NonBlankFirst | main.py:101-104 | a non-blank preamble before the first `## ` is the first piece to become a slide |
| SlideProperties.DeckSlides | main.py:101-104 | one slide per non-blank piece, in order, each the slide that piece becomes |
| SlideProperties.Raises | main.py:102-119 | no contract; a piece that stops `create_ppt`: not blank, and its slide raises; characterised by FragmentFailsIff and DeckFailsIff |
| SlideProperties.DeckFailsStep | main.py:102-119 | handling one more piece raises when the earlier pieces raised or when that piece is non-blank and raises |
| SlideProperties.DeckFailsIff | main.py:101-119 | a list of pieces raises exactly when some non-blank piece raises |
| SlideProperties.RenderFailsIff | main.py:97-149 | `create_ppt(content)` raises exactly when some non-blank piece of `content.split('## ')` raises |
| SlideProperties.RenderSlides | main.py:97-149 | otherwise the deck has one slide per non-blank piece, in order, and a non-blank preamble gives the first slide |
| Builder.Presentation.constructor | main.py:98 | a new presentation has no slides |
| Builder.Presentation.AddSlide | main.py:104 | `add_slide` appends a slide with an empty title and the body placeholder, and changes no other slide |
| Builder.Presentation.SetTitle | main.py:109 | setting the title changes only the newest slide's title |
| Builder.Presentation.AddShape | main.py:124-125 | `add_textbox` appends the box to the newest slide's boxes and changes nothing else |
| Builder.Presentation.RemoveBodyPlaceholder | main.py:145-147 | removing the placeholder clears only the newest slide's body flag |
| Builder.SetTextFrameProperties | main.py:88-94 | the loop over paragraphs yields the styled frame: word wrap on, every paragraph 18pt black 微软雅黑, texts kept |
| Builder.LayoutStep | main.py:116-143 | one more line moves the cursor by its advance and appends its box, or raises |
| Builder.DeckStep | main.py:102-104 | one more piece adds nothing when blank, and its slide otherwise |
| Builder.LayoutFailsPrefix | main.py:116-119 | once some of a slide's lines raise, the whole slide raises |
| Builder.RaisesRender | main.py:119 | a piece that raises makes `create_ppt` raise |
| Builder.AddLineShape | main.py:117-143 | one pass of the loop over lines appends exactly the box the line becomes to the newest slide and moves the cursor by its advance, or raises exactly when that line raises |
| Builder.AddFragmentSlide | main.py:103-147 | one pass of the loop over pieces appends exactly the slide the piece becomes, or raises exactly when that slide raises |
| Builder.CreatePpt | main.py:97-149 | `create_ppt` raises exactly when the outline raises, and otherwise returns a new presentation whose slides are exactly those the outline describes |

## Left out

- The Flask routes `index`, `generate_ppt`, `update_ppt` and `download_ppt` (main.py:18-85): HTTP handling, file checks and saving the deck to disk.
- The call to the chat-completion API and the reading of its JSON reply (main.py:29-52), and the configuration read by `load_dotenv` and `os.getenv` (main.py:12-15): network and environment I/O.
- The slide size set at main.py:99-100: a float-derived setting that the layout does not use.
- The fill and outline colours of the image placeholder (main.py:126-129): styling only, and no other step reads them.
- python-pptx internals. The model treats layout 1 as a title and one body placeholder (`hasBody`) and a text box as a value with a frame. It assumes three python-pptx defaults for a new text box (`NewFrame`): one empty paragraph, word wrap off, and paragraphs with no font size, name or colour of their own. It assumes that `add_slide` gives a slide with an empty title.
- Builder.SetTextFrameProperties: the text frame is a value returned with the new settings, not an object changed in place, so aliasing between the text box and `tf` is not modelled.
- Builder.AddFragmentSlide: when it raises, the contract says nothing about the partly built slide left in the presentation, because `create_ppt` then raises and its caller never sees that presentation.
- Builder.CreatePpt: an exception is a `Failure(SubstringNotFound)` result. The model does not say which `index` call raised; on an image line only `index(']')` can (ImageLineHasColon).
- main.py has no `[SLIDE]`/`[TITLE]` tag grammar and no mind-map generation; neither is modelled.
- Strings are sequences of Unicode scalar values, so a lone surrogate, which a Python `str` can hold (say from a `\ud800` escape in the API's JSON reply), cannot be represented. This changes no outcome: no surrogate is whitespace, `:`, `]`, `#` or a newline. Whitespace is Python's `str.isspace` set, and no encoding or normalisation is modelled.
