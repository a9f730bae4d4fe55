/** Text extraction for PowerPoint files: the texts of all shapes that have
    one, slide by slide and shape by shape, concatenated with nothing in
    between. The presentation reader is not modelled; a slide is the list of
    its shapes, each with the text it reports, if any. */
module Pptx {
  import opened Text

  /** A shape and its `text` attribute; `None` for a shape without one
      (a picture, say). */
  datatype Shape = Shape(text: Option<string>)
  datatype Slide = Slide(shapes: seq<Shape>)

  /** The texts of the shapes that have one, in order. */
  function ShapeTexts(shapes: seq<Shape>): (r: seq<string>)
    ensures |r| <= |shapes|
  {
    if shapes == [] then []
    else match shapes[0].text
      case None => ShapeTexts(shapes[1..])
      case Some(t) => [t] + ShapeTexts(shapes[1..])
  }

  /** Every shape of the presentation, slide by slide. */
  function AllShapes(slides: seq<Slide>): seq<Shape>
  {
    if slides == [] then [] else slides[0].shapes + AllShapes(slides[1..])
  }

  /** The text of a presentation: the shape texts run together. */
  function PresentationText(slides: seq<Slide>): string
  {
    Flatten(ShapeTexts(AllShapes(slides)))
  }

  lemma {:induction false} ShapeTextsAppend(a: seq<Shape>, b: seq<Shape>)
    ensures ShapeTexts(a + b) == ShapeTexts(a) + ShapeTexts(b)
    decreases |a|
  {
    if a == [] {
      assert a + b == b;
    } else {
      assert (a + b)[1..] == a[1..] + b;
      ShapeTextsAppend(a[1..], b);
    }
  }

  lemma {:induction false} AllShapesAppend(a: seq<Slide>, b: seq<Slide>)
    ensures AllShapes(a + b) == AllShapes(a) + AllShapes(b)
    decreases |a|
  {
    if a == [] {
      assert a + b == b;
    } else {
      assert (a + b)[1..] == a[1..] + b;
      AllShapesAppend(a[1..], b);
    }
  }

  /** The text of two presentations shown one after the other is the first's
      text followed by the second's: no separator is inserted between slides. */
  lemma PresentationTextAppend(a: seq<Slide>, b: seq<Slide>)
    ensures PresentationText(a + b) == PresentationText(a) + PresentationText(b)
  {
    AllShapesAppend(a, b);
    ShapeTextsAppend(AllShapes(a), AllShapes(b));
    FlattenAppend(ShapeTexts(AllShapes(a)), ShapeTexts(AllShapes(b)));
  }

  /** A shape without text changes nothing wherever it stands. */
  lemma ShapeWithoutTextIgnored(a: seq<Shape>, b: seq<Shape>)
    ensures ShapeTexts(a + [Shape(None)] + b) == ShapeTexts(a + b)
  {
    assert ShapeTexts([Shape(None)]) == ShapeTexts([]);
    ShapeTextsAppend(a, [Shape(None)]);
    assert ShapeTexts(a + [Shape(None)]) == ShapeTexts(a);
    ShapeTextsAppend(a + [Shape(None)], b);
    ShapeTextsAppend(a, b);
  }

  /** The text of a single slide whose shapes all carry text is their plain
      concatenation, untrimmed. */
  lemma SingleSlideText(x: string, y: string)
    ensures PresentationText([Slide([Shape(Some(x)), Shape(Some(y))])]) == x + y
  {
    var shapes := [Shape(Some(x)), Shape(Some(y))];
    assert [Slide(shapes)][1..] == [];
    assert AllShapes([Slide(shapes)]) == shapes + AllShapes([]);
    assert AllShapes([Slide(shapes)]) == shapes;
    assert shapes[1..] == [Shape(Some(y))];
    assert ShapeTexts([Shape(Some(y))]) == [y] + ShapeTexts([]);
    assert ShapeTexts(shapes) == [x] + ShapeTexts([Shape(Some(y))]);
    assert ShapeTexts(shapes) == [x, y];
    assert PresentationText([Slide(shapes)]) == Flatten([x, y]);
    assert [x, y][1..] == [y];
    assert [y][1..] == [];
    assert Flatten([x, y]) == x + Flatten([y]);
    assert Flatten([y]) == y + Flatten<char>([]);
  }

  /** The sum of the lengths of `xss`. */
  function TotalLength(xss: seq<string>): nat
  {
    if xss == [] then 0 else |xss[0]| + TotalLength(xss[1..])
  }

  lemma {:induction false} FlattenLength(xss: seq<string>)
    ensures |Flatten(xss)| == TotalLength(xss)
    decreases |xss|
  {
    if xss != [] {
      FlattenLength(xss[1..]);
    }
  }

  /** Nothing is added or trimmed: the length of the text is the total length
      of the shape texts. */
  lemma PresentationLength(slides: seq<Slide>)
    ensures |PresentationText(slides)| == TotalLength(ShapeTexts(AllShapes(slides)))
  {
    FlattenLength(ShapeTexts(AllShapes(slides)));
  }

  lemma SlideStep(slides: seq<Slide>, i: nat)
    requires i < |slides|
    ensures AllShapes(slides[..i + 1]) == AllShapes(slides[..i]) + slides[i].shapes
  {
    assert slides[..i + 1] == slides[..i] + [slides[i]];
    AllShapesAppend(slides[..i], [slides[i]]);
    assert AllShapes([slides[i]]) == slides[i].shapes + AllShapes([]);
  }

  lemma ShapeStep(done: seq<Shape>, shapes: seq<Shape>, j: nat)
    requires j < |shapes|
    ensures Flatten(ShapeTexts(done + shapes[..j + 1]))
         == Flatten(ShapeTexts(done + shapes[..j]))
            + (match shapes[j].text case None => [] case Some(t) => t)
  {
    assert done + shapes[..j + 1] == (done + shapes[..j]) + [shapes[j]];
    ShapeTextsAppend(done + shapes[..j], [shapes[j]]);
    assert [shapes[j]][1..] == [];
    match shapes[j].text
    case None =>
      assert ShapeTexts([shapes[j]]) == [];
      assert ShapeTexts(done + shapes[..j + 1]) == ShapeTexts(done + shapes[..j]);
    case Some(t) =>
      assert ShapeTexts([shapes[j]]) == [t];
      FlattenSnoc(ShapeTexts(done + shapes[..j]), t);
  }

  /** The extractor's loops over slides and shapes, appending each text. */
  method ExtractPptText(slides: seq<Slide>) returns (text: string)
    ensures text == PresentationText(slides)
  {
    text := "";
    var i := 0;
    while i < |slides|
      invariant 0 <= i <= |slides|
      invariant text == Flatten(ShapeTexts(AllShapes(slides[..i])))
    {
      var shapes := slides[i].shapes;
      var j := 0;
      assert AllShapes(slides[..i]) + shapes[..j] == AllShapes(slides[..i]);
      while j < |shapes|
        invariant 0 <= j <= |shapes|
        invariant text == Flatten(ShapeTexts(AllShapes(slides[..i]) + shapes[..j]))
      {
        ShapeStep(AllShapes(slides[..i]), shapes, j);
        if shapes[j].text.Some? {
          text := text + shapes[j].text.value;
        }
        j := j + 1;
      }
      assert shapes[..j] == shapes;
      SlideStep(slides, i);
      i := i + 1;
    }
    assert slides[..i] == slides;
  }
}
