/**
  `create_ppt` and `set_text_frame_properties` of main.py as the step-by-step
  code they are: a presentation object whose slide list grows, a loop over
  the outline's fragments, and for each slide a loop over its lines that
  adds one box per line and moves the cursor `top` down. Each method is
  proved against the functions of module Slides.
 */
module Builder {
  import opened Wrappers
  import opened PyStr
  import opened Slides
  import opened SlideProperties

  /**
    The python-pptx `Presentation` as `create_ppt` uses it: a list of slides
    that grows at the end, where the calls after `add_slide` edit the newest
    slide.
   */
  class Presentation {
    var slides: seq<Slide>

    /** `Presentation()`: no slides yet. */
    constructor ()
      ensures slides == []
    {
      slides := [];
    }

    /** `ppt.slides.add_slide(ppt.slide_layouts[1])`: a new last slide with an empty title and the layout's body placeholder. */
    method AddSlide()
      modifies this
      ensures slides == old(slides) + [Slide("", true, [])]
    {
      slides := slides + [Slide("", true, [])];
    }

    /** `slide.shapes.title.text = text` on the newest slide. */
    method SetTitle(text: string)
      requires slides != []
      modifies this
      ensures slides == old(slides[..|slides| - 1] + [slides[|slides| - 1].(title := text)])
    {
      var last := slides[|slides| - 1];
      slides := slides[..|slides| - 1] + [last.(title := text)];
    }

    /** `slide.shapes.add_textbox(...)` on the newest slide: the box goes after the ones already there. */
    method AddShape(shape: Shape)
      requires slides != []
      modifies this
      ensures slides == old(slides[..|slides| - 1] + [slides[|slides| - 1].(shapes := slides[|slides| - 1].shapes + [shape])])
    {
      var last := slides[|slides| - 1];
      slides := slides[..|slides| - 1] + [last.(shapes := last.shapes + [shape])];
    }

    /** Removing the body placeholder's element from the newest slide. */
    method RemoveBodyPlaceholder()
      requires slides != []
      modifies this
      ensures slides == old(slides[..|slides| - 1] + [slides[|slides| - 1].(hasBody := false)])
    {
      var last := slides[|slides| - 1];
      slides := slides[..|slides| - 1] + [last.(hasBody := false)];
    }
  }

  /**
    `set_text_frame_properties(text_frame)`: word wrap on, then every
    paragraph's font set to 18pt, 微软雅黑, black, one paragraph at a time.
   */
  method SetTextFrameProperties(tf: TextFrame) returns (styled: TextFrame)
    ensures styled == StyledFrame(tf)
  {
    styled := tf.(wordWrap := Some(true));
    var i := 0;
    while i < |styled.paragraphs|
      invariant 0 <= i <= |styled.paragraphs| == |tf.paragraphs|
      invariant styled.wordWrap == Some(true)
      invariant forall k :: 0 <= k < i ==> styled.paragraphs[k] == StyledParagraph(tf.paragraphs[k])
      invariant forall k :: i <= k < |styled.paragraphs| ==> styled.paragraphs[k] == tf.paragraphs[k]
    {
      var p := styled.paragraphs[i];
      var font := p.font;
      font := font.(size := Some(FontSize));
      font := font.(name := Some(FontName));
      font := font.(color := Some(Rgb(0, 0, 0)));
      styled := styled.(paragraphs := styled.paragraphs[i := p.(font := font)]);
      i := i + 1;
    }
    assert styled.paragraphs == StyledFrame(tf).paragraphs;
  }

  /** Placing one more line: the cursor moves by its advance and its box goes after the others, or it raises. */
  lemma LayoutStep(lines: seq<string>, k: nat)
    requires k < |lines| && LayoutLines(lines[..k]).Success?
    ensures Cursor(lines[..k + 1]) == Cursor(lines[..k]) + Advance(lines[k])
    ensures LineShape(lines[k], Cursor(lines[..k])).Failure? ==> LayoutLines(lines[..k + 1]).Failure?
    ensures LineShape(lines[k], Cursor(lines[..k])).Success? ==>
      LayoutLines(lines[..k + 1]) == Success(LayoutLines(lines[..k]).value + [LineShape(lines[k], Cursor(lines[..k])).value])
  {
    assert lines[..k + 1][..k] == lines[..k];
  }

  /** Handling one more fragment: a blank one adds nothing, any other adds its slide or raises. */
  lemma DeckStep(fragments: seq<string>, n: nat)
    requires n < |fragments| && RenderDeck(fragments[..n]).Success?
    ensures IsBlank(fragments[n]) ==> RenderDeck(fragments[..n + 1]) == RenderDeck(fragments[..n])
    ensures !IsBlank(fragments[n]) && RenderFragment(fragments[n]).Success? ==>
      RenderDeck(fragments[..n + 1]) == Success(RenderDeck(fragments[..n]).value + [RenderFragment(fragments[n]).value])
  {
    assert fragments[..n + 1][..n] == fragments[..n];
  }

  /** Once a prefix of the lines raises, the whole slide raises. */
  lemma LayoutFailsPrefix(lines: seq<string>, m: nat)
    requires m <= |lines| && LayoutLines(lines[..m]).Failure?
    ensures LayoutLines(lines).Failure?
  {
    LayoutFailsIff(lines[..m]);
    var k :| 0 <= k < m && Unclosed(lines[..m][k]);
    assert lines[k] == lines[..m][k];
    LayoutFailsIff(lines);
  }

  /** A fragment that raises makes the whole outline raise. */
  lemma RaisesRender(content: string, n: nat)
    requires n < |Split(content, SlideSeparator)| && Raises(Split(content, SlideSeparator)[n])
    ensures Render(content).Failure?
  {
    RenderFailsIff(content);
  }

  /**
    One turn of the loop over a slide's lines: the box for `line` goes at
    the end of the newest slide and the cursor moves past it to `next`, or
    `raised` reports that `line.index(...)` raised on an image line without
    a `]`, before any box was added.
   */
  method AddLineShape(ppt: Presentation, line: string, top: int) returns (raised: bool, next: int)
    requires ppt.slides != []
    modifies ppt
    ensures raised <==> LineShape(line, top).Failure?
    ensures !raised ==> next == top + Advance(line)
    ensures raised ==> ppt.slides == old(ppt.slides)
    ensures !raised ==> ppt.slides == old(ppt.slides[..|ppt.slides| - 1] +
      [ppt.slides[|ppt.slides| - 1].(shapes := ppt.slides[|ppt.slides| - 1].shapes + [LineShape(line, top).value])])
  {
    raised, next := false, top;
    if Contains(line, ImageTag) {
      var colon := IndexOf(line, ":");
      var close := IndexOf(line, "]");
      if colon.None? || close.None? {
        // `line.index(...)` raises ValueError.
        return true, top;
      }
      var description := Slice(line, colon.value + 1, close.value);
      var frame := AddParagraph(NewFrame, Paragraph(PlaceholderText(description), DefaultFont, Center));
      ppt.AddShape(Shape(ImagePlaceholder, ImageLeft, top, ImageWidth, ImageHeight, frame));
      next := top + ImageHeight + ImageGap;
    } else {
      var frame := AddParagraph(NewFrame, Paragraph(line, DefaultFont, Inherited));
      frame := SetTextFrameProperties(frame);
      ppt.AddShape(Shape(TextBox, TextLeft, top, TextWidth, TextHeight, frame));
      next := top + TextHeight + TextGap;
    }
  }

  /**
    One turn of `create_ppt`'s loop for a fragment that is not blank: add a
    slide, set its title from the first line, add one box per further line
    while moving the cursor down, and remove the body placeholder. It
    reports `raised` when `line.index(...)` raises on one of the lines.
   */
  method AddFragmentSlide(ppt: Presentation, fragment: string) returns (raised: bool)
    modifies ppt
    ensures raised <==> RenderFragment(fragment).Failure?
    ensures !raised ==> ppt.slides == old(ppt.slides) + [RenderFragment(fragment).value]
  {
    ghost var done := ppt.slides;
    ppt.AddSlide();
    var lines := Lines(fragment);
    var title := Strip(lines[0]);
    ppt.SetTitle(title);
    var body := lines[1..];
    var top := StartTop;
    var k := 0;
    while k < |body|
      invariant 0 <= k <= |body|
      invariant top == Cursor(body[..k])
      invariant LayoutLines(body[..k]).Success?
      invariant ppt.slides == done + [Slide(title, true, LayoutLines(body[..k]).value)]
    {
      var line := body[k];
      LayoutStep(body, k);
      raised, top := AddLineShape(ppt, line, top);
      if raised {
        LayoutFailsPrefix(body, k + 1);
        return;
      }
      k := k + 1;
    }
    assert body[..k] == body;
    ppt.RemoveBodyPlaceholder();
    raised := false;
  }

  /**
    `create_ppt(content)`: the presentation holds exactly the slides the
    outline describes, or the call raises, which it does exactly when the
    outline describes an error.
   */
  method CreatePpt(content: string) returns (r: Result<Presentation, PptError>)
    ensures r.Success? <==> Render(content).Success?
    ensures r.Success? ==> fresh(r.value) && r.value.slides == Render(content).value
  {
    var ppt := new Presentation();
    var fragments := Split(content, SlideSeparator);
    var n := 0;
    while n < |fragments|
      invariant 0 <= n <= |fragments|
      invariant fresh(ppt)
      invariant RenderDeck(fragments[..n]).Success?
      invariant ppt.slides == RenderDeck(fragments[..n]).value
    {
      var fragment := fragments[n];
      DeckStep(fragments, n);
      if Strip(fragment) != [] {
        var raised := AddFragmentSlide(ppt, fragment);
        if raised {
          RaisesRender(content, n);
          return Failure(SubstringNotFound);
        }
      }
      n := n + 1;
    }
    assert fragments[..n] == fragments;
    r := Success(ppt);
  }
}
