/**
  What `create_ppt` (main.py) builds from the generated markdown outline,
  stated as functions of the outline: the outline is cut into fragments at
  every `## `, each fragment that is not blank becomes one slide whose title
  is its first line, and every further line becomes one box on that slide,
  an image placeholder for a line holding `[IMAGE:` and a text box otherwise,
  stacked downwards by a cursor.

  Lengths are EMU, the integer unit python-pptx stores lengths in
  (914400 per inch, 12700 per point).
 */
module Slides {
  import opened Wrappers
  import opened PyStr

  // ---------------------------------------------------------------- units

  /** One tenth of an inch in EMU: `Inches(0.1)`. Every length main.py uses is a whole number of these. */
  const TenthInch: int := 91440
  /** One point in EMU: `Pt(1)`. */
  const PointEmu: int := 12700

  /** Text boxes: `left`, `width` and `height` of main.py, and the gap `Inches(0.1)` after each. */
  const TextLeft: int := 5 * TenthInch
  const TextWidth: int := 90 * TenthInch
  const TextHeight: int := 5 * TenthInch
  const TextGap: int := 1 * TenthInch

  /** Image placeholders: `img_left`, `img_width`, `img_height`, and the gap `Inches(0.5)` after each. */
  const ImageLeft: int := 10 * TenthInch
  const ImageWidth: int := 40 * TenthInch
  const ImageHeight: int := 30 * TenthInch
  const ImageGap: int := 5 * TenthInch

  /** Where the cursor `top` starts on every slide: `Inches(1.5)`. */
  const StartTop: int := 15 * TenthInch

  /** The outline's slide separator and the marker of an image line. */
  const SlideSeparator: string := "## "
  const ImageTag: string := "[IMAGE:"

  /** The font `set_text_frame_properties` gives every paragraph of a text box. */
  const FontSize: int := 18 * PointEmu
  const FontName: string := "微软雅黑"

  // ----------------------------------------------------------- data model

  datatype Rgb = Rgb(red: int, green: int, blue: int)

  /** Font attributes of a paragraph; `None` leaves the attribute to the theme. */
  datatype Font = Font(size: Option<int>, name: Option<string>, color: Option<Rgb>)

  datatype Alignment = Inherited | Center

  datatype Paragraph = Paragraph(text: string, font: Font, alignment: Alignment)

  /** A text frame: its word-wrap setting (`None`: left to the theme) and its paragraphs. */
  datatype TextFrame = TextFrame(wordWrap: Option<bool>, paragraphs: seq<Paragraph>)

  /** Both kinds of box main.py adds are python-pptx text boxes; the kind records which branch made it. */
  datatype ShapeKind = TextBox | ImagePlaceholder

  datatype Shape = Shape(kind: ShapeKind, left: int, top: int, width: int, height: int, frame: TextFrame)

  /**
    A slide of layout 1 ("Title and Content"): its title text, whether the
    layout's body placeholder is still on it, and the boxes added to it.
   */
  datatype Slide = Slide(title: string, hasBody: bool, shapes: seq<Shape>)

  /** The `ValueError` that `str.index` raises when the substring is absent. */
  datatype PptError = SubstringNotFound

  const DefaultFont: Font := Font(None, None, None)
  const BodyFont: Font := Font(Some(FontSize), Some(FontName), Some(Rgb(0, 0, 0)))

  /** The paragraph python-pptx gives a new text box, and the one `tf.add_paragraph()` appends: empty, unstyled. */
  const BlankParagraph: Paragraph := Paragraph("", DefaultFont, Inherited)

  /**
    The frame of a text box `slide.shapes.add_textbox` has just added: word
    wrap off (python-pptx writes `wrap="none"`, which `set_text_frame_properties`
    turns on) and one empty, unstyled paragraph.
   */
  const NewFrame: TextFrame := TextFrame(Some(false), [BlankParagraph])

  /** `p = tf.add_paragraph()` and its settings: `p` goes after the paragraphs already in `tf`. */
  function AddParagraph(tf: TextFrame, p: Paragraph): (r: TextFrame) {
    tf.(paragraphs := tf.paragraphs + [p])
  }

  // ------------------------------------------- set_text_frame_properties

  /** One paragraph after `set_text_frame_properties`: 18pt, 微软雅黑, black. */
  function StyledParagraph(p: Paragraph): (r: Paragraph) {
    p.(font := BodyFont)
  }

  /** A text frame after `set_text_frame_properties`: word wrap on and every paragraph styled. */
  function StyledFrame(tf: TextFrame): (r: TextFrame) {
    TextFrame(Some(true), seq(|tf.paragraphs|, k requires 0 <= k < |tf.paragraphs| => StyledParagraph(tf.paragraphs[k])))
  }

  /**
    Styling keeps every paragraph's text and alignment, in order, and gives
    each the body font; styling twice is styling once.
   */
  lemma StyledFrameKeepsText(tf: TextFrame)
    ensures StyledFrame(tf).wordWrap == Some(true)
    ensures |StyledFrame(tf).paragraphs| == |tf.paragraphs|
    ensures forall k :: 0 <= k < |tf.paragraphs| ==>
      StyledFrame(tf).paragraphs[k].text == tf.paragraphs[k].text
      && StyledFrame(tf).paragraphs[k].alignment == tf.paragraphs[k].alignment
      && StyledFrame(tf).paragraphs[k].font == BodyFont
    ensures StyledFrame(StyledFrame(tf)) == StyledFrame(tf)
  {
  }

  // ------------------------------------------------------ one line, one box

  /** `'[IMAGE:' in line`: the test that sends a line to the image branch. */
  predicate IsImageLine(line: string) {
    Contains(line, ImageTag)
  }

  /** An image line without a `]`: the line on which `line.index(']')` raises. */
  predicate Unclosed(line: string) {
    IsImageLine(line) && !Contains(line, "]")
  }

  /**
    `line[line.index(':') + 1:line.index(']')]`: the description main.py cuts
    out of an image line, or the `ValueError` either `index` raises.
   */
  function ImageDescription(line: string): (r: Result<string, PptError>) {
    var colon := IndexOf(line, ":");
    var close := IndexOf(line, "]");
    if colon.None? || close.None? then Failure(SubstringNotFound)
    else Success(Slice(line, colon.value + 1, close.value))
  }

  /** The text of an image placeholder: `f"[图片: {description}]"`. */
  function PlaceholderText(description: string): (r: string) {
    "[图片: " + description + "]"
  }

  /** The placeholder box for an image line whose description is `description`, at `top`: the centred label after the box's empty paragraph. */
  function ImageShape(description: string, top: int): (r: Shape) {
    Shape(ImagePlaceholder, ImageLeft, top, ImageWidth, ImageHeight,
          AddParagraph(NewFrame, Paragraph(PlaceholderText(description), DefaultFont, Center)))
  }

  /** The text box for a non-image line, at `top`: the line verbatim after the box's empty paragraph, in a styled frame. */
  function TextShape(line: string, top: int): (r: Shape) {
    Shape(TextBox, TextLeft, top, TextWidth, TextHeight,
          StyledFrame(AddParagraph(NewFrame, Paragraph(line, DefaultFont, Inherited))))
  }

  /** The box one line after the title becomes when the cursor stands at `top`. */
  function LineShape(line: string, top: int): (r: Result<Shape, PptError>) {
    if IsImageLine(line) then
      match ImageDescription(line)
      case Success(d) => Success(ImageShape(d, top))
      case Failure(e) => Failure(e)
    else
      Success(TextShape(line, top))
  }

  /** How far the cursor moves for one line: the box's height and the gap below it. */
  function Advance(line: string): (r: int) {
    if IsImageLine(line) then ImageHeight + ImageGap else TextHeight + TextGap
  }

  /** The cursor `top` once every line of `lines` has been placed. */
  function Cursor(lines: seq<string>): (r: int) {
    if lines == [] then StartTop
    else Cursor(lines[..|lines| - 1]) + Advance(lines[|lines| - 1])
  }

  /** The boxes the lines after a slide's title become, in order, or the error the first bad line raises. */
  function LayoutLines(lines: seq<string>): (r: Result<seq<Shape>, PptError>) {
    if lines == [] then Success([])
    else
      var front := lines[..|lines| - 1];
      match LayoutLines(front)
      case Failure(e) => Failure(e)
      case Success(shapes) =>
        match LineShape(lines[|lines| - 1], Cursor(front))
        case Failure(e) => Failure(e)
        case Success(s) => Success(shapes + [s])
  }

  // ------------------------------------------------------ fragments, slides

  /** `not slide_content.strip()`: a fragment that yields no slide. */
  predicate IsBlank(fragment: string) {
    Strip(fragment) == []
  }

  /** `slide_content.split('\n')`. */
  function Lines(fragment: string): (r: seq<string>)
    ensures |r| >= 1
  {
    Split(fragment, "\n")
  }

  /** The slide a non-blank fragment becomes, or the error one of its lines raises. */
  function RenderFragment(fragment: string): (r: Result<Slide, PptError>) {
    var lines := Lines(fragment);
    match LayoutLines(lines[1..])
    case Failure(e) => Failure(e)
    case Success(shapes) => Success(Slide(Strip(lines[0]), false, shapes))
  }

  /** The fragments that are not blank, in order. */
  function NonBlank(fragments: seq<string>): (r: seq<string>) {
    if fragments == [] then []
    else
      var front := NonBlank(fragments[..|fragments| - 1]);
      var last := fragments[|fragments| - 1];
      if IsBlank(last) then front else front + [last]
  }

  /** The positions of the fragments that are not blank, in increasing order. */
  function NonBlankPositions(fragments: seq<string>): (r: seq<int>) {
    if fragments == [] then []
    else
      var front := NonBlankPositions(fragments[..|fragments| - 1]);
      if IsBlank(fragments[|fragments| - 1]) then front else front + [|fragments| - 1]
  }

  /** The slides of a sequence of fragments, or the error the first bad line raises. */
  function RenderDeck(fragments: seq<string>): (r: Result<seq<Slide>, PptError>) {
    if fragments == [] then Success([])
    else
      var last := fragments[|fragments| - 1];
      match RenderDeck(fragments[..|fragments| - 1])
      case Failure(e) => Failure(e)
      case Success(slides) =>
        if IsBlank(last) then Success(slides)
        else
          match RenderFragment(last)
          case Failure(e) => Failure(e)
          case Success(s) => Success(slides + [s])
  }

  /** What `create_ppt(content)` produces: the slides of the presentation, or the error it raises. */
  function Render(content: string): (r: Result<seq<Slide>, PptError>) {
    RenderDeck(Split(content, SlideSeparator))
  }
}
