/**
  `contar_colores`: for every box in turn, the mean colour of the pixels it
  covers is written into a dictionary keyed by the box. The mean itself is
  an OpenCV computation over the image and is a parameter here, a function
  from box to colour. Because the dictionary is keyed by box, a box that is
  detected twice gets one entry, at the place of its first occurrence.
 */
module Sampler {
  import opened Objects
  import opened OrderedMap

  /** The dictionary after `count[b] = mean(b)` for every box `b` of `objetos`, in order. */
  function MeanColors(objetos: seq<Box>, mean: Box -> Color): (m: ColorMap)
    ensures DistinctKeys(m)
  {
    if objetos == [] then []
    else
      var b := objetos[|objetos| - 1];
      Put(MeanColors(objetos[..|objetos| - 1], mean), b, mean(b))
  }

  /** The boxes of `s` without repetitions, each at the place of its first occurrence. */
  function FirstOccurrences(s: seq<Box>): seq<Box>
  {
    if s == [] then []
    else
      var p := s[..|s| - 1];
      FirstOccurrences(p) + (if s[|s| - 1] in p then [] else [s[|s| - 1]])
  }

  function Elements(s: seq<Box>): set<Box>
  {
    set b | b in s
  }

  /**
    One entry per distinct box, in order of first detection, and every
    entry holds the mean colour of its own box.
   */
  lemma MeanColorsEntries(objetos: seq<Box>, mean: Box -> Color)
    ensures Keys(MeanColors(objetos, mean)) == FirstOccurrences(objetos)
    ensures forall b :: b in Keys(MeanColors(objetos, mean)) <==> b in objetos
    ensures forall i :: 0 <= i < |MeanColors(objetos, mean)| ==>
              MeanColors(objetos, mean)[i].1 == mean(MeanColors(objetos, mean)[i].0)
  {
    MeanColorsKeys(objetos, mean);
    MeanColorsValues(objetos, mean);
  }

  lemma {:induction false} MeanColorsKeys(objetos: seq<Box>, mean: Box -> Color)
    ensures Keys(MeanColors(objetos, mean)) == FirstOccurrences(objetos)
    ensures forall b :: b in Keys(MeanColors(objetos, mean)) <==> b in objetos
    decreases |objetos|
  {
    if objetos != [] {
      var p := objetos[..|objetos| - 1];
      var b := objetos[|objetos| - 1];
      MeanColorsKeys(p, mean);
      assert objetos == p + [b];
      forall x
        ensures x in objetos <==> x in p || x == b
      {
        if x in objetos {
          var i :| 0 <= i < |objetos| && objetos[i] == x;
          if i < |p| { assert p[i] == x; }
        }
      }
    }
  }

  lemma {:induction false} MeanColorsValues(objetos: seq<Box>, mean: Box -> Color)
    ensures forall i :: 0 <= i < |MeanColors(objetos, mean)| ==>
              MeanColors(objetos, mean)[i].1 == mean(MeanColors(objetos, mean)[i].0)
    decreases |objetos|
  {
    if objetos != [] {
      MeanColorsValues(objetos[..|objetos| - 1], mean);
    }
  }

  /** Without repetitions, the length is the number of distinct boxes. */
  lemma {:induction false} FirstOccurrencesCount(s: seq<Box>)
    ensures |FirstOccurrences(s)| == |Elements(s)|
    decreases |s|
  {
    if s != [] {
      var p := s[..|s| - 1];
      var b := s[|s| - 1];
      FirstOccurrencesCount(p);
      assert s == p + [b];
      assert Elements(s) == Elements(p) + {b};
      if b in p {
        assert Elements(s) == Elements(p);
      } else {
        assert b !in Elements(p);
      }
    }
  }

  /** The colour map has exactly as many entries as there are distinct boxes. */
  lemma MeanColorsSize(objetos: seq<Box>, mean: Box -> Color)
    ensures |MeanColors(objetos, mean)| == |Elements(objetos)|
  {
    MeanColorsEntries(objetos, mean);
    FirstOccurrencesCount(objetos);
  }

  /**
    A box detected again overwrites its own entry with the same colour: the
    map neither grows nor changes.
   */
  lemma RepeatedBoxChangesNothing(objetos: seq<Box>, b: Box, mean: Box -> Color)
    requires b in objetos
    ensures MeanColors(objetos + [b], mean) == MeanColors(objetos, mean)
  {
    var s := objetos + [b];
    assert s[..|s| - 1] == objetos;
    var m := MeanColors(objetos, mean);
    MeanColorsEntries(objetos, mean);
    var r := Put(m, b, mean(b));
    assert |r| == |m|;
    forall i | 0 <= i < |m|
      ensures r[i] == m[i]
    {
      assert Keys(r)[i] == Keys(m)[i];
    }
  }

  /** A box not seen before gets a new entry at the end. */
  lemma NewBoxAppends(objetos: seq<Box>, b: Box, mean: Box -> Color)
    requires b !in objetos
    ensures MeanColors(objetos + [b], mean) == MeanColors(objetos, mean) + [(b, mean(b))]
  {
    assert (objetos + [b])[..|objetos|] == objetos;
    MeanColorsEntries(objetos, mean);
  }

  /** The loop of `contar_colores`, one dictionary write per box. */
  method SampleColors(objetos: seq<Box>, mean: Box -> Color) returns (count: ColorMap)
    ensures count == MeanColors(objetos, mean)
  {
    count := [];
    var i := 0;
    while i < |objetos|
      invariant 0 <= i <= |objetos|
      invariant count == MeanColors(objetos[..i], mean)
    {
      var b := objetos[i];
      assert objetos[..i + 1][..i] == objetos[..i];
      count := Put(count, b, mean(b));
      i := i + 1;
    }
    assert objetos[..|objetos|] == objetos;
  }
}
