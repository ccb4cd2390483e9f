/**
  The two consumers of the grouping: `imprimir_conteo`, which prints one line
  per bucket and the total, and `dibujar_rectangulos`, which outlines every
  object and writes a running number next to it. Text formatting and pixel
  rendering are OpenCV and `print` work; what is kept is what gets printed or
  drawn, as values.
 */
module Report {
  import opened Objects
  import opened OrderedMap
  import opened Grouper

  /** One printed line: a founding colour and the size of its bucket. */
  datatype CountLine = CountLine(color: Color, count: nat)

  datatype Point = Point(x: int, y: int)

  /**
    One annotated object: the rectangle from `(x, y)` to `(x + w, y + h)` in
    the outline colour, and the number drawn with its origin at `(x + 8, y + 15)`.
   */
  datatype Annotation = Annotation(topLeft: Point, bottomRight: Point, outline: Color, number: nat, textOrigin: Point)

  /** `sum(len(objetos) for objetos in objetos_por_color.values())` */
  function Total(g: Groups): nat
  {
    if g == [] then 0 else Total(g[..|g| - 1]) + |g[|g| - 1].1|
  }

  /** The lines printed for `g`, in bucket order. */
  function CountLines(g: Groups): (lines: seq<CountLine>)
    ensures |lines| == |g|
    ensures forall k :: 0 <= k < |g| ==> lines[k] == CountLine(g[k].0, |g[k].1|)
  {
    seq(|g|, k requires 0 <= k < |g| => CountLine(g[k].0, |g[k].1|))
  }

  /** What is drawn for object `b` with colour `c` and number `number`. */
  function Annotate(b: Box, c: Color, number: nat): Annotation
  {
    Annotation(Point(b.x, b.y), Point(b.x + b.w, b.y + b.h), c, number, Point(b.x + 8, b.y + 15))
  }

  /** Every entry of the colour map, numbered from 1 in dictionary order. */
  function Annotations(colors: ColorMap): (drawn: seq<Annotation>)
    ensures |drawn| == |colors|
    ensures forall i :: 0 <= i < |colors| ==> drawn[i] == Annotate(colors[i].0, colors[i].1, i + 1)
  {
    seq(|colors|, i requires 0 <= i < |colors| => Annotate(colors[i].0, colors[i].1, i + 1))
  }

  /** The total is the number of member boxes over all buckets. */
  lemma {:induction false} TotalIsMemberCount(g: Groups)
    ensures Total(g) == |Flatten(g)|
    decreases |g|
  {
    if g != [] {
      TotalIsMemberCount(g[..|g| - 1]);
    }
  }

  /** The total is the sum of the printed counts. */
  lemma {:induction false} TotalIsSumOfLines(g: Groups)
    ensures Total(g) == SumCounts(CountLines(g))
    decreases |g|
  {
    if g != [] {
      var p := g[..|g| - 1];
      TotalIsSumOfLines(p);
      assert CountLines(g)[..|p|] == CountLines(p);
    }
  }

  function SumCounts(lines: seq<CountLine>): nat
  {
    if lines == [] then 0 else SumCounts(lines[..|lines| - 1]) + lines[|lines| - 1].count
  }

  /**
    With a positive threshold the printed total is the number of entries of
    the colour map: grouping neither loses nor duplicates an object.
   */
  lemma TotalCountsEntries(cs: ColorMap, t: int)
    requires t > 0
    ensures Total(Group(cs, t)) == |cs|
  {
    GroupPartition(cs, t);
    TotalIsMemberCount(Group(cs, t));
    assert |multiset(Flatten(Group(cs, t)))| == |multiset(Keys(cs))|;
  }

  /** `imprimir_conteo`: one line per bucket, in bucket order, then the total. */
  method PrintCounts(grouped: Groups) returns (lines: seq<CountLine>, total: nat)
    ensures |lines| == |grouped|
    ensures forall k :: 0 <= k < |grouped| ==> lines[k] == CountLine(grouped[k].0, |grouped[k].1|)
    ensures total == Total(grouped)
  {
    lines := [];
    var k := 0;
    while k < |grouped|
      invariant 0 <= k <= |grouped|
      invariant |lines| == k
      invariant forall j :: 0 <= j < k ==> lines[j] == CountLine(grouped[j].0, |grouped[j].1|)
    {
      lines := lines + [CountLine(grouped[k].0, |grouped[k].1|)];
      k := k + 1;
    }
    total := Total(grouped);
  }

  /**
    `dibujar_rectangulos`: walks the per-object colour map (not the buckets),
    outlines each box in its own mean colour and numbers it with `counter`,
    which starts at 1 and grows by one per object.
   */
  method DrawRectangles(colors: ColorMap) returns (drawn: seq<Annotation>)
    ensures |drawn| == |colors|
    ensures forall i :: 0 <= i < |colors| ==> drawn[i] == Annotate(colors[i].0, colors[i].1, i + 1)
  {
    drawn := [];
    var counter := 1;
    var i := 0;
    while i < |colors|
      invariant 0 <= i <= |colors|
      invariant counter == i + 1
      invariant |drawn| == i
      invariant forall j :: 0 <= j < i ==> drawn[j] == Annotate(colors[j].0, colors[j].1, j + 1)
    {
      var (box, avgColor) := colors[i];
      drawn := drawn + [Annotate(box, avgColor, counter)];
      counter := counter + 1;
      i := i + 1;
    }
  }
}
