# leftIris object counter, modelled in Dafny

leftIris counts coloured objects in a photograph. The script in `main.py` does four things:

- It finds the external contours of the image and keeps the bounding boxes of those whose area is at least 100 (`contar_objetos`).
- It takes the mean colour of every kept box and stores it in a dictionary keyed by box (`contar_colores`).
- It groups the colours greedily, first fit (`agrupar_colores`). An entry joins the earliest bucket whose founding colour is strictly closer than the threshold (40 by default) in every channel. Otherwise its own colour founds a new bucket.
- It prints one count per bucket and the total (`imprimir_conteo`). It then outlines and numbers every object (`dibujar_rectangulos`).

The model keeps the source's imperative form. Each loop is a `method` with loop invariants, proved equal to a specification function defined on prefixes of its input. The properties are lemmas about those functions. Python dictionaries remember insertion order. They are modelled as sequences of key/value pairs with distinct keys (`OrderedMap`), and `Put` is `d[k] = v`.

Modules:

- `OrderedMap` (ordered_map.dfy): the dictionary model.
- `Objects` (objects.dfy): boxes, colours, contours, the two dictionaries.
- `Detector` (detector.dfy): the area filter.
- `Sampler` (sampler.dfy): the colour map.
- `Grouper` (grouper.dfy): the clustering and its theorems.
- `Report` (report.dfy): the printed counts and the annotations.
- `Pipeline` (pipeline.dfy): the script's top level.

Three behaviours of the code are easy to misread:

- The filter is `if area < 100: continue`, so a contour of area exactly 100 is kept.
- `dibujar_rectangulos` walks the per-object colour map `obj_colors`, not the buckets. Each outline takes the object's own mean colour, and numbering follows the dictionary order of that map.
- The printed total is guaranteed to equal the number of objects only for a positive threshold. With a threshold of 0 or less, a repeated colour replaces a bucket's list and boxes are lost.

## Model

| member | source | states |
|---|---|---|
| OrderedMap.Put | main.py:56 | `d[k] = v` keeps keys distinct. An existing key keeps its position and the key order is unchanged. A new key is appended at the end. Afterwards `k` maps to `v` and every other entry is untouched. |
| Detector.CountObjects | main.py:24-40 | A failed load or detection (no contour list at all) gives `None`. Otherwise the loop with `continue` returns exactly the boxes of the contours not below area 100, in contour order. |
| Detector.KeptBoxesAppend | main.py:24-34 | The filter works contour by contour: filtering a concatenation is concatenating the filtered parts. |
| Detector.KeptBoxesSingle | main.py:30-34 | A single contour is kept exactly when its area is at least 100. |
| Detector.AreaBoundary | main.py:30 | Area 100 is kept and area 99 is dropped. |
| Detector.KeptBoxesMembers | main.py:24-34 | A box is in the output if and only if some contour with that box has area at least 100. |
| Detector.KeptBoxesLength | main.py:24-34 | The output never has more boxes than there were contours. |
| Sampler.SampleColors | main.py:42-58 | The loop of `contar_colores` builds the colour map `MeanColors`, one dictionary write per box. |
| Sampler.MeanColors | main.py:47-56 | The colour map is a dictionary: its keys are distinct. |
| Sampler.MeanColorsEntries | main.py:47-56 | The keys are the distinct boxes in order of first occurrence. A box is a key if and only if it was detected. Each entry holds the mean colour of its own box. |
| Sampler.MeanColorsSize | main.py:47-56 | The map has as many entries as there are distinct detected boxes. |
| Sampler.RepeatedBoxChangesNothing | main.py:56 | A box detected again rewrites its own entry with the same colour: the map does not change. |
| Sampler.NewBoxAppends | main.py:56 | A box not seen before adds one entry at the end, holding its mean colour. |
| Grouper.FirstNear | main.py:66-70 | The inner scan stops at the first founding colour within the threshold. Every earlier founding colour is not within it. The result is the bucket count when none matches. |
| Grouper.Place | main.py:63-73 | One outer iteration keeps the founding colours distinct. |
| Grouper.Group | main.py:60-75 | The buckets form a dictionary: founding colours are distinct, for any threshold. |
| Grouper.GroupColors | main.py:60-75 | The nested loops with the `found_group` flag and `break` compute `Group`. |
| Grouper.PlaceKeys | main.py:66-73 | Appending to a bucket never changes the founding colours. A miss on a new colour adds one bucket at the end. A miss on an existing colour keeps the keys. |
| Grouper.GroupSeparated | main.py:66-73 | Any two founding colours differ by at least the threshold in some channel, for any threshold. |
| Grouper.GroupExplained | main.py:60-75 | For a positive threshold, the result matches an independent description. Every entry fits a bucket. Bucket `k` lists, in input order, the boxes whose first near founding colour is the `k`-th. Each bucket was founded by an entry of its own colour, and buckets are in founding order. |
| Grouper.GroupPartition | main.py:63-73 | For a positive threshold, the buckets hold every box of the colour map exactly as often as the map does. No box is lost and none is added. |
| Grouper.ExactlyOneBucket | main.py:63-73 | With distinct boxes and a positive threshold, each box occurs exactly once overall. It is in bucket `k` if and only if `k` is the first bucket whose founding colour is near its colour. |
| Grouper.FirstFit | main.py:66-70 | Every entry lands in a bucket whose founding colour it is near. It is near none of the buckets created before that one. |
| Grouper.BucketMembership | main.py:63-73 | A box is in bucket `k` if and only if some entry with that box is near bucket `k`'s founding colour and near no earlier one. |
| Grouper.BucketOrder | main.py:68 | Each bucket lists its members in input order. |
| Grouper.FoundingEntries | main.py:72-73 | Buckets are never empty. A bucket's key is the colour of its first member, whose entry founded it. Buckets appear in the order their founding entries occur. |
| Grouper.GroupOfTwo | main.py:63-73 | With two entries, the second joins the first bucket exactly when its colour is near the first. Otherwise it founds a second bucket. |
| Grouper.ThresholdBoundary | main.py:67 | The comparison is strict. A difference of exactly the threshold in one channel founds a new bucket. A difference of threshold minus one in every channel joins. |
| Grouper.RepeatedColorWithoutThreshold | main.py:72-73 | With a threshold of 0 or less, a repeated colour replaces its bucket's list. The earlier box is lost and the partition fails. |
| Report.PrintCounts | main.py:78-83 | One line per bucket, in bucket order, with the founding colour and the bucket size. The total is the sum of the bucket sizes. |
| Report.TotalIsMemberCount | main.py:82 | The total is the number of boxes across all buckets. |
| Report.TotalIsSumOfLines | main.py:80-83 | The total equals the sum of the printed counts. |
| Report.TotalCountsEntries | main.py:82 | For a positive threshold, the total equals the number of entries of the colour map. |
| Report.DrawRectangles | main.py:85-96 | Every entry of the colour map is drawn once, in dictionary order. Its outline runs from `(x, y)` to `(x + w, y + h)` in its own colour. Its number is 1, 2, …, n, with the text at `(x + 8, y + 15)`. |
| Pipeline.Run | main.py:102-115 | Failed detection stops the script. Otherwise the outcome is the printed lines, the total and the annotations of detect, sample, group and draw composed. |
| Pipeline.ExpectedCounts | main.py:102-115 | For a positive threshold, the total, the number of objects drawn and the largest number all equal the number of distinct kept boxes. The printed counts add up to the total. |
| Pipeline.NothingDetected | main.py:24-34 | When every contour is below area 100, nothing is printed but a total of 0 and nothing is drawn. |
| Pipeline.TwoRedsAndABlue | main.py:102-112 | Two reds 10 apart and a blue, all large enough, give two buckets: the reds with count 2 and the blue with count 1. The total is 3. |

## Left out

- Image loading, grayscale conversion, adaptive thresholding, `findContours`, `boundingRect` and `contourArea` are OpenCV calls. Their outcome is the input: a sequence of (bounding box, area) pairs, or `None` when loading or detection failed.
- `cv2.mean` and the `int` truncation of its floating-point result are foreign floating-point work. The mean colour is a parameter, an arbitrary function from box to integer triple.
- The exception handler's message and all `print` formatting are output only. The printed content is modelled as values.
- `cv2.rectangle`, `cv2.putText` and the pixel image they draw on (`image.copy()`, line thickness, font, scale, text colours and strokes) are rendering. What is drawn is modelled as a list of annotations.
- The `imshow`/`waitKey`/`destroyAllWindows` display is UI.
- The unused `objetos` parameter of `dibujar_rectangulos` is omitted.
- Integers are unbounded. Colours are integer triples, and the source's numpy arithmetic on them does not overflow for channel values 0–255.
- Grouper.GroupPartition, Grouper.ExactlyOneBucket, Grouper.FirstFit, Grouper.BucketMembership, Grouper.BucketOrder, Grouper.FoundingEntries and Grouper.GroupExplained require a positive threshold. For a threshold of 0 or less the source loses boxes; Grouper.RepeatedColorWithoutThreshold shows it.
