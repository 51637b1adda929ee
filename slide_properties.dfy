/**
  What `create_ppt` promises about the slides it builds, proved of the
  functions in module Slides: which fragments become slides, what each
  slide's title and boxes are, when it raises, and that the boxes of a slide
  are stacked without overlapping.
 */
module SlideProperties {
  import opened Wrappers
  import opened PyStr
  import opened Slides

  // ------------------------------------------------------------ image lines

  /**
    An image line always holds a `:` (the one inside `[IMAGE:` at the
    latest), so `line.index(':')` never raises on it; the `:` it finds may
    still lie before the tag.
   */
  lemma ImageLineHasColon(line: string)
    requires IsImageLine(line)
    ensures Contains(line, ":")
    ensures IndexOf(line, ":").value <= IndexOf(line, ImageTag).value + 6
  {
    IndexOfFirst(line, ImageTag);
    IndexOfFirst(line, ":");
    var t := IndexOf(line, ImageTag).value;
    assert line[t..t + 7] == ImageTag;
    assert line[t + 6..t + 7] == ":" by {
      assert line[t + 6] == ImageTag[6];
    }
    assert OccursAt(line, ":", t + 6);
    OccurrenceContains(line, ":", t + 6);
  }

  /** Cutting out the description of a line that holds a `:` fails exactly when the line has no `]`. */
  lemma ImageDescriptionFails(line: string)
    requires Contains(line, ":")
    ensures ImageDescription(line).Failure? <==> !Contains(line, "]")
  {
  }

  /** With both a `:` and a `]` present, the description is the slice between the first of each. */
  lemma DescriptionBetween(line: string)
    requires Contains(line, ":") && Contains(line, "]")
    ensures ImageDescription(line) == Success(Slice(line, IndexOf(line, ":").value + 1, IndexOf(line, "]").value))
  {
  }

  /**
    The description cut out of a line whose first `:` is at `colon` and
    whose first `]` is at `close`: the text strictly between the two, which
    is empty when that `]` comes no later than one place after the `:`.
   */
  lemma ImageDescriptionSlice(line: string, colon: nat, close: nat)
    requires IndexOf(line, ":") == Some(colon) && IndexOf(line, "]") == Some(close)
    ensures close < |line| && ImageDescription(line).Success?
    ensures ImageDescription(line).value == if close <= colon + 1 then "" else line[colon + 1..close]
  {
    IndexOfInRange(line, "]");
    SliceWithin(line, colon + 1, close);
  }

  /**
    In a line `pre + "[IMAGE:" + d + "]" + post`, where `pre` holds no `:`
    and no `]` and `d` holds no `]`, the first `:` is the tag's own and the
    first `]` is the one closing the marker.
   */
  lemma MarkerPositions(pre: string, d: string, post: string)
    requires forall k :: 0 <= k < |pre| ==> pre[k] != ':' && pre[k] != ']'
    requires forall k :: 0 <= k < |d| ==> d[k] != ']'
    ensures IsImageLine(pre + ImageTag + d + "]" + post)
    ensures IndexOf(pre + ImageTag + d + "]" + post, ":") == Some(|pre| + 6)
    ensures IndexOf(pre + ImageTag + d + "]" + post, "]") == Some(|pre| + 7 + |d|)
  {
    var head := pre + ImageTag;
    var line := head + d + "]" + post;
    assert line == pre + ImageTag + d + "]" + post;
    var colon, close := |pre| + 6, |head| + |d|;
    assert line[..|head|] == head;
    assert line[|pre|..|pre| + 7] == ImageTag by {
      assert head[|pre|..] == ImageTag;
    }
    OccurrenceContains(line, ImageTag, |pre|);
    forall k | 0 <= k < colon ensures line[k] != ':' {
      assert line[k] == head[k];
    }
    assert line[colon] == head[colon];
    IndexOfChar(line, ':', colon);
    forall k | 0 <= k < close ensures line[k] != ']' {
      if k < |head| {
        assert line[k] == head[k];
      } else {
        assert line[k] == d[k - |head|];
      }
    }
    IndexOfChar(line, ']', close);
  }

  /**
    The marker the outline prompt asks for reads back as written: a line
    `pre + "[IMAGE:" + d + "]" + post`, where `pre` holds no `:` and no `]`
    and `d` holds no `]`, yields the description `d`.
   */
  lemma MarkerDescription(pre: string, d: string, post: string)
    requires forall k :: 0 <= k < |pre| ==> pre[k] != ':' && pre[k] != ']'
    requires forall k :: 0 <= k < |d| ==> d[k] != ']'
    ensures IsImageLine(pre + ImageTag + d + "]" + post)
    ensures ImageDescription(pre + ImageTag + d + "]" + post) == Success(d)
  {
    var line := pre + ImageTag + d + "]" + post;
    MarkerPositions(pre, d, post);
    var a := |pre| + 7;
    ImageDescriptionSlice(line, a - 1, a + |d|);
    assert line[a..a + |d|] == d by {
      forall k | 0 <= k < |d| ensures line[a + k] == d[k] {
      }
    }
  }

  /** A `:` ahead of the marker is the one `index(':')` finds, so the description starts there. */
  lemma ColonBeforeMarker(line: string)
    requires line == "a:[IMAGE:x]"
    ensures ImageDescription(line) == Success("[IMAGE:x")
  {
    assert line[0] == 'a' && line[1] == ':' && line[10] == ']';
    assert IndexOf(line, ":") == Some(1) by {
      IndexOfChar(line, ':', 1);
    }
    assert IndexOf(line, "]") == Some(10) by {
      IndexOfChar(line, ']', 10);
    }
    ImageDescriptionSlice(line, 1, 10);
    assert line[2..10] == "[IMAGE:x";
  }

  /**
    A `]` ahead of every `:` ends the slice before it starts: the description
    is empty. (A `]` ahead of the marker but after a `:` instead yields the
    text between the two; `ImageDescriptionSlice` states the general case.)
   */
  lemma BracketBeforeMarker(line: string)
    requires line == "[1][IMAGE:x]"
    ensures ImageDescription(line) == Success("")
  {
    assert line[2] == ']' && line[9] == ':';
    assert IndexOf(line, "]") == Some(2) by {
      IndexOfChar(line, ']', 2);
    }
    assert IndexOf(line, ":") == Some(9) by {
      IndexOfChar(line, ':', 9);
    }
    ImageDescriptionSlice(line, 9, 2);
  }

  // ------------------------------------------------------ one line, one box

  /**
    A line without `[IMAGE:` becomes a text box at left 0.5in, 9in wide and
    0.5in high, holding the line verbatim in the paragraph after the empty
    one every new text box starts with; both get the body font, and word
    wrap is on.
   */
  lemma TextLineShape(line: string, top: int)
    requires !IsImageLine(line)
    ensures LineShape(line, top) == Success(
      Shape(TextBox, TextLeft, top, TextWidth, TextHeight,
            TextFrame(Some(true), [Paragraph("", BodyFont, Inherited), Paragraph(line, BodyFont, Inherited)])))
  {
    var tf := AddParagraph(NewFrame, Paragraph(line, DefaultFont, Inherited));
    StyledFrameKeepsText(tf);
    assert StyledFrame(tf).paragraphs == [Paragraph("", BodyFont, Inherited), Paragraph(line, BodyFont, Inherited)];
  }

  /**
    A line with `[IMAGE:` and a `]` becomes a 4in by 3in placeholder at left
    1in, left unstyled with word wrap off, holding, after the empty
    paragraph, the centred text
    `[图片: <description>]`, the description being the slice between the
    line's first `:` and its first `]`.
   */
  lemma ImageLineShape(line: string, top: int)
    requires IsImageLine(line) && Contains(line, "]")
    ensures Contains(line, ":")
    ensures LineShape(line, top) == Success(
      Shape(ImagePlaceholder, ImageLeft, top, ImageWidth, ImageHeight,
            TextFrame(Some(false), [BlankParagraph, Paragraph(PlaceholderText(
              Slice(line, IndexOf(line, ":").value + 1, IndexOf(line, "]").value)), DefaultFont, Center)])))
  {
    ImageLineHasColon(line);
    DescriptionBetween(line);
    var d := ImageDescription(line).value;
    var p := Paragraph(PlaceholderText(d), DefaultFont, Center);
    assert AddParagraph(NewFrame, p) == TextFrame(Some(false), [BlankParagraph, p]);
  }

  /** A line makes the slide raise exactly when it holds `[IMAGE:` and no `]`. */
  lemma LineShapeFails(line: string, top: int)
    ensures LineShape(line, top).Failure? <==> Unclosed(line)
  {
    if IsImageLine(line) {
      ImageLineHasColon(line);
      ImageDescriptionFails(line);
    }
  }

  /** Either box sits at the cursor and is followed by a gap before the cursor's next position. */
  lemma LineShapePlacement(line: string, top: int)
    requires LineShape(line, top).Success?
    ensures LineShape(line, top).value.top == top
    ensures 0 < LineShape(line, top).value.height < Advance(line)
  {
  }

  // ------------------------------------------------------------ the cursor

  /** Placing one more line moves the cursor by that line's advance. */
  lemma CursorStep(lines: seq<string>, i: nat)
    requires i < |lines|
    ensures Cursor(lines[..i + 1]) == Cursor(lines[..i]) + Advance(lines[i])
  {
    assert lines[..i + 1][..i] == lines[..i];
  }

  /** The cursor only moves down: after more lines it stands strictly lower, by at least the boxes' heights. */
  lemma {:induction false} CursorGrows(lines: seq<string>, i: nat, j: nat)
    requires i < j <= |lines|
    ensures Cursor(lines[..j]) >= Cursor(lines[..i]) + Advance(lines[i])
    decreases j - i
  {
    CursorStep(lines, i);
    if i + 1 < j {
      CursorGrows(lines, i + 1, j);
    }
  }

  // ---------------------------------------------------------- whole slides

  /**
    Every line after the title gives exactly one box, in the order of the
    lines: the k-th box is what the k-th line becomes with the cursor where
    the lines before it left it.
   */
  lemma {:induction false} LayoutShapes(lines: seq<string>)
    requires LayoutLines(lines).Success?
    ensures |LayoutLines(lines).value| == |lines|
    ensures forall k :: 0 <= k < |lines| ==>
      LineShape(lines[k], Cursor(lines[..k])) == Success(LayoutLines(lines).value[k])
  {
    if lines != [] {
      var n := |lines| - 1;
      var front := lines[..n];
      LayoutShapes(front);
      LayoutLast(lines);
      var v := LayoutLines(front).value;
      forall k | 0 <= k < n
        ensures LineShape(lines[k], Cursor(lines[..k])) == Success(v[k])
      {
        PrefixOfPrefix(lines, n, k);
      }
    }
  }

  /** A slide's lines lay out when those before the last do and the last line does, at the cursor they leave. */
  lemma LayoutLast(lines: seq<string>)
    requires lines != [] && LayoutLines(lines).Success?
    ensures var front := lines[..|lines| - 1];
      && LayoutLines(front).Success?
      && LineShape(lines[|lines| - 1], Cursor(front)).Success?
      && LayoutLines(lines).value == LayoutLines(front).value + [LineShape(lines[|lines| - 1], Cursor(front)).value]
  {
  }

  /** Cutting a prefix shorter still is cutting the whole sequence there. */
  lemma PrefixOfPrefix(lines: seq<string>, n: nat, k: nat)
    requires k < n <= |lines|
    ensures lines[..n][..k] == lines[..k] && lines[..n][k] == lines[k]
  {
  }

  /** The lines of a slide raise exactly when one of them holds `[IMAGE:` and no `]`. */
  lemma {:induction false} LayoutFailsIff(lines: seq<string>)
    ensures LayoutLines(lines).Failure? <==>
      exists k :: 0 <= k < |lines| && Unclosed(lines[k])
  {
    if lines != [] {
      var n := |lines| - 1;
      var front := lines[..n];
      LayoutFailsIff(front);
      LineShapeFails(lines[n], Cursor(front));
      UnclosedSplit(lines);
    }
  }

  /** Some line is unclosed exactly when some line before the last is, or the last is. */
  lemma UnclosedSplit(lines: seq<string>)
    requires lines != []
    ensures var n := |lines| - 1;
      (exists k :: 0 <= k < |lines| && Unclosed(lines[k])) <==>
      (exists k :: 0 <= k < n && Unclosed(lines[..n][k])) || Unclosed(lines[n])
  {
    var n := |lines| - 1;
    if exists k :: 0 <= k < |lines| && Unclosed(lines[k]) {
      var k :| 0 <= k < |lines| && Unclosed(lines[k]);
      if k < n {
        assert lines[..n][k] == lines[k];
      }
    }
    if exists k :: 0 <= k < n && Unclosed(lines[..n][k]) {
      var k :| 0 <= k < n && Unclosed(lines[..n][k]);
      assert lines[k] == lines[..n][k];
    }
  }

  /**
    The boxes of a slide are stacked downwards from 1.5in: the first starts
    there, and every box starts strictly below the bottom of every box
    before it, so no two overlap.
   */
  lemma NoOverlap(lines: seq<string>)
    requires LayoutLines(lines).Success?
    ensures |LayoutLines(lines).value| == |lines|
    ensures lines != [] ==> LayoutLines(lines).value[0].top == StartTop
    ensures forall i, j :: 0 <= i < j < |lines| ==>
      LayoutLines(lines).value[i].top + LayoutLines(lines).value[i].height < LayoutLines(lines).value[j].top
  {
    var v := LayoutLines(lines).value;
    LayoutShapes(lines);
    if lines != [] {
      assert lines[..0] == [];
      LineShapePlacement(lines[0], StartTop);
    }
    forall i, j | 0 <= i < j < |lines|
      ensures v[i].top + v[i].height < v[j].top
    {
      LineShapePlacement(lines[i], Cursor(lines[..i]));
      LineShapePlacement(lines[j], Cursor(lines[..j]));
      CursorGrows(lines, i, j);
    }
  }

  // ------------------------------------------------------------- fragments

  /**
    The first line of a fragment, the one its title is taken from, is the
    fragment up to its first newline (all of it when there is none).
   */
  lemma FirstLine(fragment: string)
    ensures |Lines(fragment)[0]| <= |fragment|
    ensures Lines(fragment)[0] == fragment[..|Lines(fragment)[0]|]
    ensures forall k :: 0 <= k < |Lines(fragment)[0]| ==> fragment[k] != '\n'
    ensures |Lines(fragment)| > 1 <==> |Lines(fragment)[0]| < |fragment|
    ensures |Lines(fragment)[0]| < |fragment| ==> fragment[|Lines(fragment)[0]|] == '\n'
  {
    var i := IndexOf(fragment, "\n");
    IndexOfFirst(fragment, "\n");
    SplitFirst(fragment, "\n");
    if i.Some? {
      assert fragment[i.value..i.value + 1] == "\n";
      forall k | 0 <= k < i.value ensures fragment[k] != '\n' {
        assert !OccursAt(fragment, "\n", k);
        assert fragment[k..k + 1] == [fragment[k]];
      }
    } else {
      forall k | 0 <= k < |fragment| ensures fragment[k] != '\n' {
        assert !OccursAt(fragment, "\n", k);
        assert fragment[k..k + 1] == [fragment[k]];
      }
    }
  }

  /** A fragment's slide raises exactly when one of the lines after its first holds `[IMAGE:` and no `]`. */
  lemma FragmentFailsIff(fragment: string)
    ensures RenderFragment(fragment).Failure? ==>
      exists k :: 1 <= k < |Lines(fragment)| && Unclosed(Lines(fragment)[k])
    ensures forall k :: 1 <= k < |Lines(fragment)| && Unclosed(Lines(fragment)[k]) ==>
      RenderFragment(fragment).Failure?
  {
    var lines := Lines(fragment);
    var body := lines[1..];
    LayoutFailsIff(body);
    assert RenderFragment(fragment).Failure? <==> LayoutLines(body).Failure?;
    if LayoutLines(body).Failure? {
      var k :| 0 <= k < |body| && Unclosed(body[k]);
      assert lines[k + 1] == body[k];
    }
    forall k | 1 <= k < |lines| && Unclosed(lines[k])
      ensures LayoutLines(body).Failure?
    {
      assert body[k - 1] == lines[k];
    }
  }

  /** The lines after the first, cut before line `k`, are `lines[1..k]`, and their last is `lines[k - 1]`. */
  lemma TailPrefix(lines: seq<string>, k: nat)
    requires 1 <= k <= |lines|
    ensures lines[1..][..k - 1] == lines[1..k]
    ensures k < |lines| ==> lines[1..][k - 1] == lines[k]
  {
  }

  /**
    A slide made from a fragment: its title is the fragment's first line
    stripped, its body placeholder is gone, and its boxes are exactly those
    of the lines after the first, in order.
   */
  lemma FragmentSlide(fragment: string)
    requires RenderFragment(fragment).Success?
    ensures RenderFragment(fragment).value.title == Strip(Lines(fragment)[0])
    ensures !RenderFragment(fragment).value.hasBody
    ensures |RenderFragment(fragment).value.shapes| == |Lines(fragment)| - 1
    ensures forall k :: 1 <= k < |Lines(fragment)| ==>
      LineShape(Lines(fragment)[k], Cursor(Lines(fragment)[1..k])) == Success(RenderFragment(fragment).value.shapes[k - 1])
  {
    var lines := Lines(fragment);
    var body := lines[1..];
    assert RenderFragment(fragment) == Success(Slide(Strip(lines[0]), false, LayoutLines(body).value));
    LayoutShapes(body);
    forall k | 1 <= k < |lines|
      ensures LineShape(lines[k], Cursor(lines[1..k])) == Success(LayoutLines(body).value[k - 1])
    {
      TailPrefix(lines, k);
    }
  }

  // ----------------------------------------------------------------- decks

  /** The non-blank fragments are exactly the fragments that are not blank. */
  lemma {:induction false} NonBlankMembers(fragments: seq<string>)
    ensures forall f :: f in NonBlank(fragments) <==> f in fragments && !IsBlank(f)
  {
    if fragments != [] {
      var front := fragments[..|fragments| - 1];
      NonBlankMembers(front);
      assert fragments == front + [fragments[|fragments| - 1]];
    }
  }

  /**
    `NonBlank` picks fragments by position: its i-th member is the fragment
    at the i-th of `NonBlankPositions`, and each of those positions holds a
    non-blank fragment.
   */
  lemma {:induction false} NonBlankOrder(fragments: seq<string>)
    ensures |NonBlankPositions(fragments)| == |NonBlank(fragments)|
    ensures forall i :: 0 <= i < |NonBlankPositions(fragments)| ==>
      && 0 <= NonBlankPositions(fragments)[i] < |fragments|
      && !IsBlank(fragments[NonBlankPositions(fragments)[i]])
      && NonBlank(fragments)[i] == fragments[NonBlankPositions(fragments)[i]]
  {
    if fragments != [] {
      var n := |fragments| - 1;
      var front := fragments[..n];
      NonBlankOrder(front);
      var p := NonBlankPositions(front);
      forall i | 0 <= i < |p|
        ensures fragments[p[i]] == front[p[i]]
      {
      }
    }
  }

  /** The positions `NonBlank` picks strictly increase, so it keeps the fragments' order and takes none twice. */
  lemma {:induction false} NonBlankPositionsIncrease(fragments: seq<string>)
    ensures forall i :: 0 <= i < |NonBlankPositions(fragments)| ==> 0 <= NonBlankPositions(fragments)[i] < |fragments|
    ensures forall i, j :: 0 <= i < j < |NonBlankPositions(fragments)| ==>
      NonBlankPositions(fragments)[i] < NonBlankPositions(fragments)[j]
  {
    if fragments != [] {
      NonBlankPositionsIncrease(fragments[..|fragments| - 1]);
    }
  }

  /** Every non-blank fragment's position is among those `NonBlank` picks, so it drops no slide. */
  lemma {:induction false} NonBlankPositionsComplete(fragments: seq<string>)
    ensures forall k :: 0 <= k < |fragments| && !IsBlank(fragments[k]) ==> k in NonBlankPositions(fragments)
  {
    if fragments != [] {
      var n := |fragments| - 1;
      var front := fragments[..n];
      NonBlankPositionsComplete(front);
      forall k | 0 <= k < n && !IsBlank(fragments[k])
        ensures k in NonBlankPositions(front)
      {
        assert front[k] == fragments[k];
      }
    }
  }

  /** When the first fragment (the text before the first `## `) is not blank, it is the first non-blank fragment. */
  lemma {:induction false} NonBlankFirst(fragments: seq<string>)
    requires fragments != [] && !IsBlank(fragments[0])
    ensures NonBlank(fragments) != [] && NonBlank(fragments)[0] == fragments[0]
  {
    if |fragments| > 1 {
      var front := fragments[..|fragments| - 1];
      assert front[0] == fragments[0];
      NonBlankFirst(front);
    }
  }

  /** One slide per non-blank fragment, in order, each the slide that fragment becomes. */
  lemma {:induction false} DeckSlides(fragments: seq<string>)
    requires RenderDeck(fragments).Success?
    ensures |RenderDeck(fragments).value| == |NonBlank(fragments)|
    ensures forall k :: 0 <= k < |NonBlank(fragments)| ==>
      RenderFragment(NonBlank(fragments)[k]) == Success(RenderDeck(fragments).value[k])
  {
    if fragments != [] {
      DeckSlides(fragments[..|fragments| - 1]);
    }
  }

  /** A fragment that stops `create_ppt`: not blank, and its slide raises. */
  predicate Raises(fragment: string) {
    !IsBlank(fragment) && RenderFragment(fragment).Failure?
  }

  /** A deck raises when the deck before its last fragment raises or when that fragment raises. */
  lemma DeckFailsStep(fragments: seq<string>)
    requires fragments != []
    ensures RenderDeck(fragments).Failure? <==>
      RenderDeck(fragments[..|fragments| - 1]).Failure? || Raises(fragments[|fragments| - 1])
  {
  }

  /** A deck raises exactly when some non-blank fragment raises. */
  lemma {:induction false} DeckFailsIff(fragments: seq<string>)
    ensures RenderDeck(fragments).Failure? <==> exists k :: 0 <= k < |fragments| && Raises(fragments[k])
  {
    if fragments != [] {
      var n := |fragments| - 1;
      var front := fragments[..n];
      DeckFailsIff(front);
      DeckFailsStep(fragments);
      if RenderDeck(fragments).Failure? {
        if RenderDeck(front).Failure? {
          var k :| 0 <= k < n && Raises(front[k]);
          assert fragments[k] == front[k];
        } else {
          assert Raises(fragments[n]);
        }
      }
      if exists k :: 0 <= k < |fragments| && Raises(fragments[k]) {
        var k :| 0 <= k < |fragments| && Raises(fragments[k]);
        if k < n {
          assert Raises(front[k]);
          assert RenderDeck(front).Failure?;
        } else {
          assert k == n;
        }
        assert RenderDeck(fragments).Failure?;
      }
    }
  }

  /**
    `create_ppt(content)` raises exactly when a non-blank piece of the outline,
    cut at every `## `, has a line after its first that holds `[IMAGE:` and
    no `]`.
   */
  lemma RenderFailsIff(content: string)
    ensures Render(content).Failure? ==>
      exists k :: 0 <= k < |Split(content, SlideSeparator)| && Raises(Split(content, SlideSeparator)[k])
    ensures forall k :: 0 <= k < |Split(content, SlideSeparator)| && Raises(Split(content, SlideSeparator)[k]) ==>
      Render(content).Failure?
  {
    var pieces := Split(content, SlideSeparator);
    DeckFailsIff(pieces);
    assert Render(content) == RenderDeck(pieces);
  }

  /**
    Otherwise there is one slide per non-blank piece of the outline, in
    order, and a non-blank preamble before the first `## ` gives the first
    slide.
   */
  lemma RenderSlides(content: string)
    requires Render(content).Success?
    ensures |Render(content).value| == |NonBlank(Split(content, SlideSeparator))|
    ensures forall k :: 0 <= k < |Render(content).value| ==>
      RenderFragment(NonBlank(Split(content, SlideSeparator))[k]) == Success(Render(content).value[k])
    ensures !IsBlank(Split(content, SlideSeparator)[0]) ==>
      |Render(content).value| > 0 && RenderFragment(Split(content, SlideSeparator)[0]) == Success(Render(content).value[0])
  {
    var pieces := Split(content, SlideSeparator);
    DeckSlides(pieces);
    if !IsBlank(pieces[0]) {
      NonBlankFirst(pieces);
    }
  }
}
