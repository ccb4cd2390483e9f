/**
  The size filter of `contar_objetos`: every external contour whose area is
  below 100 is dropped as noise or background, the bounding boxes of the
  others are kept in the order the contour search produced them. Loading the
  image, thresholding it and finding the contours are OpenCV calls; their
  outcome is the input here, `None` when the image could not be read or the
  detection raised.
 */
module Detector {
  import opened Objects

  /** Contours with an area below this are discarded. */
  const MinArea: real := 100.0

  predicate Kept(c: Contour)
  {
    !(c.area < MinArea)
  }

  /** The boxes of the kept contours, in contour order. */
  function KeptBoxes(cs: seq<Contour>): seq<Box>
  {
    if cs == [] then []
    else KeptBoxes(cs[..|cs| - 1]) + (if Kept(cs[|cs| - 1]) then [cs[|cs| - 1].box] else [])
  }

  /** The filter works contour by contour: it distributes over concatenation. */
  lemma {:induction false} KeptBoxesAppend(a: seq<Contour>, b: seq<Contour>)
    ensures KeptBoxes(a + b) == KeptBoxes(a) + KeptBoxes(b)
    decreases |b|
  {
    if b != [] {
      var b' := b[..|b| - 1];
      assert (a + b)[..|a + b| - 1] == a + b';
      assert (a + b)[|a + b| - 1] == b[|b| - 1];
      KeptBoxesAppend(a, b');
    } else {
      assert a + b == a;
    }
  }

  /** One contour on its own: kept exactly when its area is at least 100. */
  lemma KeptBoxesSingle(c: Contour)
    ensures KeptBoxes([c]) == if c.area >= 100.0 then [c.box] else []
  {
    assert [c][..0] == [];
  }

  /** An area of exactly 100 survives the filter, an area of 99 does not. */
  lemma AreaBoundary(bx: Box)
    ensures KeptBoxes([Contour(bx, 100.0)]) == [bx]
    ensures KeptBoxes([Contour(bx, 99.0)]) == []
  {
    KeptBoxesSingle(Contour(bx, 100.0));
    KeptBoxesSingle(Contour(bx, 99.0));
  }

  /** A box is in the output exactly when some contour with that box is large enough. */
  lemma {:induction false} KeptBoxesMembers(cs: seq<Contour>, bx: Box)
    ensures bx in KeptBoxes(cs) <==> exists i :: 0 <= i < |cs| && cs[i].box == bx && cs[i].area >= MinArea
    decreases |cs|
  {
    if cs != [] {
      var n := |cs| - 1;
      KeptBoxesMembers(cs[..n], bx);
      if exists i :: 0 <= i < |cs| && cs[i].box == bx && cs[i].area >= MinArea {
        var i :| 0 <= i < |cs| && cs[i].box == bx && cs[i].area >= MinArea;
        if i < n {
          assert cs[..n][i] == cs[i];
        }
      }
      if bx in KeptBoxes(cs[..n]) {
        var i :| 0 <= i < n && cs[..n][i].box == bx && cs[..n][i].area >= MinArea;
        assert cs[i] == cs[..n][i];
      }
    }
  }

  /** The output never holds more boxes than there were contours. */
  lemma {:induction false} KeptBoxesLength(cs: seq<Contour>)
    ensures |KeptBoxes(cs)| <= |cs|
    decreases |cs|
  {
    if cs != [] {
      KeptBoxesLength(cs[..|cs| - 1]);
    }
  }

  /**
    `contar_objetos` after the OpenCV calls: `None` in, `None` out (the
    `(None, None)` of the error handler); otherwise the loop that skips small
    contours with `continue` and appends the boxes of the others.
   */
  method CountObjects(contours: Option<seq<Contour>>) returns (objetos: Option<seq<Box>>)
    ensures contours.None? ==> objetos.None?
    ensures contours.Some? ==> objetos == Some(KeptBoxes(contours.value))
  {
    if contours.None? {
      return None;
    }
    var cs := contours.value;
    var kept: seq<Box> := [];
    var i := 0;
    while i < |cs|
      invariant 0 <= i <= |cs|
      invariant kept == KeptBoxes(cs[..i])
    {
      var c := cs[i];
      assert cs[..i + 1][..i] == cs[..i];
      i := i + 1;
      if c.area < MinArea {
        continue;
      }
      kept := kept + [c.box];
    }
    assert cs[..|cs|] == cs;
    objetos := Some(kept);
  }
}
