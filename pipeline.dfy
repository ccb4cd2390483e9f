/**
  The script's top level: detect, sample colours, group them, print the
  counts and annotate the objects. When detection yields nothing (the image
  could not be read or detection raised) none of the later stages run.
  Showing the annotated image in a window is left to the caller.
 */
module Pipeline {
  import opened Objects
  import opened OrderedMap
  import opened Detector
  import opened Sampler
  import opened Grouper
  import opened Report

  /** What one run produces: the printed lines and total, and the annotations drawn. */
  datatype Outcome = Outcome(lines: seq<CountLine>, total: nat, drawn: seq<Annotation>)

  /** The outcome for the given contours, mean-colour function and grouping threshold. */
  function Expected(contours: seq<Contour>, mean: Box -> Color, t: int): Outcome
  {
    var colors := MeanColors(KeptBoxes(contours), mean);
    var g := Group(colors, t);
    Outcome(CountLines(g), Total(g), Annotations(colors))
  }

  /**
    With a positive threshold, the printed total, the number of objects drawn
    and the largest label all equal the number of distinct boxes that passed
    the area filter, and the printed counts add up to the total.
   */
  lemma ExpectedCounts(contours: seq<Contour>, mean: Box -> Color, t: int)
    requires t > 0
    ensures var o := Expected(contours, mean, t);
      && o.total == |o.drawn| == |Elements(KeptBoxes(contours))|
      && o.total == SumCounts(o.lines)
      && forall i :: 0 <= i < |o.drawn| ==> o.drawn[i].number == i + 1
  {
    var colors := MeanColors(KeptBoxes(contours), mean);
    TotalCountsEntries(colors, t);
    MeanColorsSize(KeptBoxes(contours), mean);
    TotalIsSumOfLines(Group(colors, t));
  }

  /** An image with nothing above the area limit prints no buckets, a total of 0 and draws nothing. */
  lemma {:induction false} NothingDetected(contours: seq<Contour>, mean: Box -> Color, t: int)
    requires forall i :: 0 <= i < |contours| ==> contours[i].area < MinArea
    ensures Expected(contours, mean, t) == Outcome([], 0, [])
  {
    NoneKept(contours);
  }

  lemma {:induction false} NoneKept(contours: seq<Contour>)
    requires forall i :: 0 <= i < |contours| ==> contours[i].area < MinArea
    ensures KeptBoxes(contours) == []
    decreases |contours|
  {
    if contours != [] {
      var p := contours[..|contours| - 1];
      assert forall i :: 0 <= i < |p| ==> p[i] == contours[i];
      NoneKept(p);
    }
  }

  /**
    Two nearly identical reds and a blue, all large enough: two buckets, the
    reds together, and a total of 3.
   */
  lemma TwoRedsAndABlue(mean: Box -> Color)
    requires mean(Box(10, 10, 20, 20)) == Color(20, 30, 200)
    requires mean(Box(60, 10, 20, 20)) == Color(25, 35, 190)
    requires mean(Box(110, 10, 20, 20)) == Color(200, 40, 20)
    ensures var o := Expected([Contour(Box(10, 10, 20, 20), 314.0),
                               Contour(Box(60, 10, 20, 20), 310.5),
                               Contour(Box(110, 10, 20, 20), 320.0)], mean, DefaultThreshold);
      && o.lines == [CountLine(Color(20, 30, 200), 2), CountLine(Color(200, 40, 20), 1)]
      && o.total == 3
  {
    var b1, b2, b3 := Box(10, 10, 20, 20), Box(60, 10, 20, 20), Box(110, 10, 20, 20);
    var red1, red2, blue := Color(20, 30, 200), Color(25, 35, 190), Color(200, 40, 20);
    var contours := [Contour(b1, 314.0), Contour(b2, 310.5), Contour(b3, 320.0)];
    AllThreeKept(contours);
    ThreeDistinctBoxes(b1, b2, b3, mean);
    var colors := [(b1, red1), (b2, red2), (b3, blue)];
    assert MeanColors(KeptBoxes(contours), mean) == colors;
    var g := [(red1, [b1, b2]), (blue, [b3])];
    RedsTogether(b1, b2, b3, red1, red2, blue);
    assert Total(g) == 3 by {
      var g0: Groups := [];
      assert g[..1] == [(red1, [b1, b2])];
      assert g[..1][..0] == g0;
      assert Total(g[..1]) == 2;
    }
  }

  lemma AllThreeKept(contours: seq<Contour>)
    requires |contours| == 3
    requires forall i :: 0 <= i < 3 ==> contours[i].area >= MinArea
    ensures KeptBoxes(contours) == [contours[0].box, contours[1].box, contours[2].box]
  {
    var c0, c1, c2 := contours[0], contours[1], contours[2];
    assert contours == [c0] + [c1] + [c2];
    KeptBoxesSingle(c0);
    KeptBoxesSingle(c1);
    KeptBoxesSingle(c2);
    KeptBoxesAppend([c0], [c1]);
    KeptBoxesAppend([c0] + [c1], [c2]);
  }

  lemma RedsTogether(b1: Box, b2: Box, b3: Box, red1: Color, red2: Color, blue: Color)
    requires red1 == Color(20, 30, 200) && red2 == Color(25, 35, 190) && blue == Color(200, 40, 20)
    ensures Group([(b1, red1), (b2, red2), (b3, blue)], DefaultThreshold) == [(red1, [b1, b2]), (blue, [b3])]
  {
    var colors := [(b1, red1), (b2, red2), (b3, blue)];
    GroupOfTwo(b1, b2, red1, red2, DefaultThreshold);
    assert colors[..2] == [(b1, red1), (b2, red2)];
    var g2 := Group(colors[..2], DefaultThreshold);
    assert g2 == [(red1, [b1, b2])];
    assert Keys(g2) == [red1];
    assert FirstNear([red1], blue, DefaultThreshold) == 1 by {
      assert [red1][1..] == [];
    }
    assert Group(colors, DefaultThreshold) == Place(g2, b3, blue, DefaultThreshold);
    NearSelf(blue, DefaultThreshold);
    assert blue !in Keys(g2);
    assert Place(g2, b3, blue, DefaultThreshold) == Put(g2, blue, [b3]);
  }

  /** The colour map of three distinct boxes, with their means in order. */
  lemma ThreeDistinctBoxes(b1: Box, b2: Box, b3: Box, mean: Box -> Color)
    requires b1 != b2 && b1 != b3 && b2 != b3
    ensures MeanColors([b1, b2, b3], mean) == [(b1, mean(b1)), (b2, mean(b2)), (b3, mean(b3))]
  {
    var none: seq<Box> := [];
    var s1 := none + [b1];
    var s2 := s1 + [b2];
    NewBoxAppends(none, b1, mean);
    NewBoxAppends(s1, b2, mean);
    NewBoxAppends(s2, b3, mean);
    assert s2 + [b3] == [b1, b2, b3];
  }

  /**
    The script after the file path: nothing more happens when detection
    failed; otherwise the colour map is built, grouped with the given
    threshold (the script passes `DefaultThreshold`), printed and drawn.
   */
  method Run(contours: Option<seq<Contour>>, mean: Box -> Color, threshold: int) returns (out: Option<Outcome>)
    ensures contours.None? <==> out.None?
    ensures contours.Some? ==> out == Some(Expected(contours.value, mean, threshold))
  {
    var objetos := CountObjects(contours);
    if objetos.None? {
      return None;
    }
    var objColors := SampleColors(objetos.value, mean);
    var grouped := GroupColors(objColors, threshold);
    var lines, total := PrintCounts(grouped);
    var drawn := DrawRectangles(objColors);
    assert lines == CountLines(grouped);
    assert drawn == Annotations(objColors);
    out := Some(Outcome(lines, total, drawn));
  }
}
