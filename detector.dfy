/** FaceDetector's post-processing around the network: reading boxes out of
    the output tensor, non-maximum suppression's index filtering, the crop
    rectangle around a detected face, and the filter that keeps the sharp
    crops. The network, NMSBoxes, Subset and the sharpness measure are
    parameters; floats are reals. */
module FaceDetection {
  import opened Common

  /** An SKRectI: left, top, right, bottom. */
  datatype Rect = Rect(left: int, top: int, right: int, bottom: int)
  {
    function Width(): int { right - left }
    function Height(): int { bottom - top }
  }

  /** An ObjectDetection: a box and its confidence. */
  datatype Detection = Detection(box: Rect, confidence: real)

  /** The network's input size (640 x 640). */
  const InputSize := 640

  const IndexOutOfRange := "IndexOutOfRangeException"

  function MaxReal(a: real, b: real): real { if a >= b then a else b }

  /** Math.Round: to the nearest integer, halves to the even one. */
  function RoundHalfEven(v: real): (r: int)
    ensures v - 0.5 <= r as real <= v + 0.5
    ensures (r as real == v - 0.5 || r as real == v + 0.5) ==> r % 2 == 0
  {
    var f := v.Floor;
    var frac := v - f as real;
    if frac < 0.5 then f
    else if frac > 0.5 then f + 1
    else if f % 2 == 0 then f
    else f + 1
  }

  /** ClampToInt: below min gives min, above max gives max, else the value
      rounded. */
  function ClampToInt(value: real, min: int, max: int): (r: int)
    ensures value < min as real ==> r == min
    ensures min as real <= value && value > max as real ==> r == max
    ensures min as real <= value <= max as real ==> value - 0.5 <= r as real <= value + 0.5
    ensures min <= max ==> min <= r <= max
  {
    if value < min as real then min
    else if value > max as real then max
    else
      RoundHalfEven(value)
  }

  /** CropFace's result: the crop rectangle and its width and height. */
  datatype Crop = Crop(rect: Rect, validWidth: int, validHeight: int)

  /** CropFace: widen the box by expand on each side, move its corner into
      the image, cut it at the image's right and bottom edges. An empty or
      negative area is not refused. */
  function CropFace(imageWidth: int, imageHeight: int, bbox: Rect, expand: int): (c: Crop)
    ensures c.rect.left == Max(0, bbox.left - expand) && c.rect.top == Max(0, bbox.top - expand)
    ensures c.rect.left >= 0 && c.rect.top >= 0
    ensures c.rect.right <= imageWidth && c.rect.bottom <= imageHeight
    ensures c.rect.right == Min(c.rect.left + bbox.Width() + 2 * expand, imageWidth)
    ensures c.rect.bottom == Min(c.rect.top + bbox.Height() + 2 * expand, imageHeight)
    ensures c.validWidth == c.rect.right - c.rect.left && c.validHeight == c.rect.bottom - c.rect.top
  {
    var x := Max(0, bbox.left - expand);
    var y := Max(0, bbox.top - expand);
    var width := Min(imageWidth - x, bbox.Width() + 2 * expand);
    var height := Min(imageHeight - y, bbox.Height() + 2 * expand);
    var right := Min(x + width, imageWidth);
    var bottom := Min(y + height, imageHeight);
    Crop(Rect(x, y, right, bottom), right - x, bottom - y)
  }

  /** A box whose widened version fits the image is cropped to exactly
      that widened box. */
  lemma CropInsideIsWidenedBox(imageWidth: int, imageHeight: int, bbox: Rect, expand: int)
    requires expand <= bbox.left && expand <= bbox.top
    requires bbox.right + expand <= imageWidth && bbox.bottom + expand <= imageHeight
    ensures CropFace(imageWidth, imageHeight, bbox, expand).rect
      == Rect(bbox.left - expand, bbox.top - expand, bbox.right + expand, bbox.bottom + expand)
  {
  }

  /** A box beyond the image's right edge still yields a crop, of no
      positive width. */
  lemma CropBeyondEdgeIsEmpty(imageWidth: int, imageHeight: int, bbox: Rect, expand: int)
    requires expand >= 0
    requires bbox.left - expand >= imageWidth
    ensures CropFace(imageWidth, imageHeight, bbox, expand).validWidth <= 0
  {
  }

  /** The crop of the i-th detection. */
  function CropOf(dets: seq<Detection>, i: int, imageWidth: int, imageHeight: int, expand: int): Crop
    requires 0 <= i < |dets|
  {
    CropFace(imageWidth, imageHeight, dets[i].box, expand)
  }

  /** The faces kept among the first n detections, by detection index:
      those whose crop Subset turns into an image (cropped) and that are
      sharp. */
  function KeptUpTo(dets: seq<Detection>, n: int, imageWidth: int, imageHeight: int, expand: int,
                    cropped: Crop -> bool, sharp: nat -> bool): map<nat, Crop>
    requires n <= |dets|
  {
    map i: nat | i < n && cropped(CropOf(dets, i, imageWidth, imageHeight, expand)) && sharp(i)
      :: CropOf(dets, i, imageWidth, imageHeight, expand)
  }

  /** The faces CropAndFilterSharpFaces keeps. */
  function SharpFaces(dets: seq<Detection>, imageWidth: int, imageHeight: int, expand: int,
                      cropped: Crop -> bool, sharp: nat -> bool): map<nat, Crop>
  {
    KeptUpTo(dets, |dets|, imageWidth, imageHeight, expand, cropped, sharp)
  }

  /** The keys are detection indices, and index i is a key iff its crop
      worked and is sharp; the value is that crop. */
  lemma SharpFacesMeaning(dets: seq<Detection>, imageWidth: int, imageHeight: int, expand: int,
                          cropped: Crop -> bool, sharp: nat -> bool)
    ensures var m := SharpFaces(dets, imageWidth, imageHeight, expand, cropped, sharp);
      && (forall i :: i in m ==> i < |dets| && m[i] == CropOf(dets, i, imageWidth, imageHeight, expand))
      && (forall i: nat :: i < |dets| ==>
            (i in m <==> cropped(CropOf(dets, i, imageWidth, imageHeight, expand)) && sharp(i)))
  {
  }

  /** One more detection adds its index exactly when it is kept. */
  lemma KeptStep(dets: seq<Detection>, i: nat, imageWidth: int, imageHeight: int, expand: int,
                 cropped: Crop -> bool, sharp: nat -> bool)
    requires i < |dets|
    ensures var crop := CropOf(dets, i, imageWidth, imageHeight, expand);
      KeptUpTo(dets, i + 1, imageWidth, imageHeight, expand, cropped, sharp)
      == if cropped(crop) && sharp(i) then KeptUpTo(dets, i, imageWidth, imageHeight, expand, cropped, sharp)[i := crop]
         else KeptUpTo(dets, i, imageWidth, imageHeight, expand, cropped, sharp)
  {
    var crop := CropOf(dets, i, imageWidth, imageHeight, expand);
    var next := KeptUpTo(dets, i + 1, imageWidth, imageHeight, expand, cropped, sharp);
    var prev := KeptUpTo(dets, i, imageWidth, imageHeight, expand, cropped, sharp);
    var expected := if cropped(crop) && sharp(i) then prev[i := crop] else prev;
    assert next.Keys == expected.Keys;
    assert forall j :: j in next ==> next[j] == expected[j];
  }

  /** CropAndFilterSharpFaces: for each detection, crop it, skip a failed
      crop, skip a blurred one, keep the rest under their index. */
  method CropAndFilterSharpFaces(dets: seq<Detection>, imageWidth: int, imageHeight: int, expand: int,
                                 cropped: Crop -> bool, sharp: nat -> bool) returns (validFaces: map<nat, Crop>)
    ensures validFaces == SharpFaces(dets, imageWidth, imageHeight, expand, cropped, sharp)
  {
    validFaces := map[];
    for i := 0 to |dets|
      invariant validFaces == KeptUpTo(dets, i, imageWidth, imageHeight, expand, cropped, sharp)
    {
      KeptStep(dets, i, imageWidth, imageHeight, expand, cropped, sharp);
      var crop := CropFace(imageWidth, imageHeight, dets[i].box, expand);
      if !cropped(crop) {
        continue;
      }
      if !sharp(i) {
        continue;
      }
      validFaces := validFaces[i := crop];
    }
  }

  /** The indices among the first n whose crop is evaluated for sharpness
      (the crop worked). */
  function Evaluated(dets: seq<Detection>, n: int, imageWidth: int, imageHeight: int, expand: int,
                     cropped: Crop -> bool): set<nat>
    requires n <= |dets|
  {
    set j: nat | j < n && cropped(CropOf(dets, j, imageWidth, imageHeight, expand))
  }

  /** One more detection adds its index exactly when its crop worked. */
  lemma EvaluatedStep(dets: seq<Detection>, i: nat, imageWidth: int, imageHeight: int, expand: int,
                      cropped: Crop -> bool)
    requires i < |dets|
    ensures i !in Evaluated(dets, i, imageWidth, imageHeight, expand, cropped)
    ensures Evaluated(dets, i + 1, imageWidth, imageHeight, expand, cropped)
      == if cropped(CropOf(dets, i, imageWidth, imageHeight, expand))
         then Evaluated(dets, i, imageWidth, imageHeight, expand, cropped) + {i}
         else Evaluated(dets, i, imageWidth, imageHeight, expand, cropped)
    ensures |Evaluated(dets, i + 1, imageWidth, imageHeight, expand, cropped)|
      == |Evaluated(dets, i, imageWidth, imageHeight, expand, cropped)|
         + if cropped(CropOf(dets, i, imageWidth, imageHeight, expand)) then 1 else 0
  {
  }

  /** The overload with statistics: the same faces are kept; evaluatedCount
      counts the crops that worked, maxSharpness is the greatest sharpness
      among them (0 when none is positive) and maxThreshold is the dynamic
      threshold of a crop reaching it. */
  method CropAndFilterSharpFacesWithStats(dets: seq<Detection>, imageWidth: int, imageHeight: int, expand: int,
                                          cropped: Crop -> bool, sharp: nat -> bool,
                                          sharpness: nat -> real, threshold: nat -> real)
    returns (validFaces: map<nat, Crop>, maxSharpness: real, maxThreshold: real, evaluatedCount: int)
    ensures validFaces == SharpFaces(dets, imageWidth, imageHeight, expand, cropped, sharp)
    ensures evaluatedCount == |Evaluated(dets, |dets|, imageWidth, imageHeight, expand, cropped)|
    ensures maxSharpness >= 0.0
    ensures forall j :: j in Evaluated(dets, |dets|, imageWidth, imageHeight, expand, cropped) ==> sharpness(j) <= maxSharpness
    ensures maxSharpness == 0.0 ==> maxThreshold == 0.0
    ensures maxSharpness > 0.0 ==>
      exists j :: j in Evaluated(dets, |dets|, imageWidth, imageHeight, expand, cropped)
        && sharpness(j) == maxSharpness && threshold(j) == maxThreshold
  {
    maxSharpness := 0.0;
    maxThreshold := 0.0;
    evaluatedCount := 0;
    validFaces := map[];
    ghost var bestAt: nat := 0;
    for i := 0 to |dets|
      invariant validFaces == KeptUpTo(dets, i, imageWidth, imageHeight, expand, cropped, sharp)
      invariant evaluatedCount == |Evaluated(dets, i, imageWidth, imageHeight, expand, cropped)|
      invariant maxSharpness >= 0.0
      invariant forall j :: j in Evaluated(dets, i, imageWidth, imageHeight, expand, cropped) ==> sharpness(j) <= maxSharpness
      invariant maxSharpness == 0.0 ==> maxThreshold == 0.0
      invariant maxSharpness > 0.0 ==>
        bestAt in Evaluated(dets, i, imageWidth, imageHeight, expand, cropped)
        && sharpness(bestAt) == maxSharpness && threshold(bestAt) == maxThreshold
    {
      KeptStep(dets, i, imageWidth, imageHeight, expand, cropped, sharp);
      EvaluatedStep(dets, i, imageWidth, imageHeight, expand, cropped);
      var crop := CropFace(imageWidth, imageHeight, dets[i].box, expand);
      if !cropped(crop) {
        continue;
      }
      evaluatedCount := evaluatedCount + 1;
      var isSharp := sharp(i);
      var actualSharpness := sharpness(i);
      var dynamicThreshold := threshold(i);
      if actualSharpness > maxSharpness {
        maxSharpness := actualSharpness;
        maxThreshold := dynamicThreshold;
        bestAt := i;
      }
      if !isSharp {
        continue;
      }
      validFaces := validFaces[i := crop];
    }
  }

  /** The detections at the NMS indices that lie in range, in NMS order. */
  function NmsKept(dets: seq<Detection>, indices: seq<int>): (r: seq<Detection>)
    ensures |r| <= |indices|
    ensures forall k :: 0 <= k < |r| ==> r[k] in dets
    decreases |indices|
  {
    if indices == [] then []
    else
      var idx := indices[|indices| - 1];
      NmsKept(dets, indices[..|indices| - 1]) + (if 0 <= idx < |dets| then [dets[idx]] else [])
  }

  /** NmsKept is the detections picked by the in-range indices. */
  lemma {:induction false} NmsKeptPicksInRange(dets: seq<Detection>, indices: seq<int>)
    ensures var inRange := Filter(indices, (k: int) => 0 <= k < |dets|);
      && |NmsKept(dets, indices)| == |inRange|
      && forall k :: 0 <= k < |inRange| ==> NmsKept(dets, indices)[k] == dets[inRange[k]]
    decreases |indices|
  {
    if indices != [] {
      NmsKeptPicksInRange(dets, indices[..|indices| - 1]);
    }
  }

  /** ApplyNms: a null list gives an empty one and an empty list comes back
      as it is; otherwise NMSBoxes (with the score threshold floored at 0)
      picks indices and the detections at those in range are kept in that
      order. */
  method ApplyNms(detections: Option<seq<Detection>>, scoreThreshold: real, nmsThreshold: real,
                  nmsBoxes: (seq<Detection>, real, real) -> Option<seq<int>>) returns (r: seq<Detection>)
    ensures detections.None? ==> r == []
    ensures detections.Some? && |detections.value| == 0 ==> r == detections.value
    ensures detections.Some? && |detections.value| > 0 ==>
      var indices := nmsBoxes(detections.value, MaxReal(scoreThreshold, 0.0), nmsThreshold);
      r == if indices.None? then [] else NmsKept(detections.value, indices.value)
  {
    if detections.None? {
      return [];
    }
    var dets := detections.value;
    if |dets| == 0 {
      return dets;
    }
    var indices := nmsBoxes(dets, MaxReal(scoreThreshold, 0.0), nmsThreshold);
    r := [];
    if indices.None? || |indices.value| == 0 {
      return r;
    }
    var idxs := indices.value;
    for n := 0 to |idxs|
      invariant r == NmsKept(dets, idxs[..n])
    {
      assert idxs[..n + 1][..n] == idxs[..n];
      var idx := idxs[n];
      if 0 <= idx < |dets| {
        r := r + [dets[idx]];
      }
    }
    assert idxs[..|idxs|] == idxs;
  }

  /** The output tensor's shape: three dimensions, a matrix, or neither. */
  datatype Shape = Shape3(d0: int, d1: int, d2: int) | Shape2(rows: int, cols: int) | OtherShape

  /** How boxes lie in the tensor: field k of box i is at k*boxes+i when
      channels come first, else at i*attrs+k. */
  datatype Layout = Layout(channelsFirst: bool, boxes: int, attrs: int)

  /** The 3-D layout: the smaller of the last two dimensions is the
      attributes, the other the boxes; channels come first when the
      attributes dimension comes first. */
  function LayoutOf(dim1: int, dim2: int): (l: Layout)
    ensures l.attrs == Min(dim1, dim2) && l.boxes == Max(dim1, dim2)
    ensures l.channelsFirst <==> dim1 < dim2
  {
    var channelsFirst := dim1 < dim2;
    Layout(channelsFirst, if channelsFirst then dim2 else dim1, if channelsFirst then dim1 else dim2)
  }

  function FieldIndex(l: Layout, i: int, k: int): int
  {
    if l.channelsFirst then k * l.boxes + i else i * l.attrs + k
  }

  /** Within the boxes and attributes, the layout addresses the first
      boxes*attrs elements... */
  lemma FieldIndexInRange(l: Layout, i: int, k: int)
    requires 0 <= i < l.boxes && 0 <= k < l.attrs
    ensures 0 <= FieldIndex(l, i, k) < l.boxes * l.attrs
  {
    if l.channelsFirst {
      assert k * l.boxes + i < (k + 1) * l.boxes;
      MulMonotone(k + 1, l.attrs, l.boxes);
    } else {
      assert i * l.attrs + k < (i + 1) * l.attrs;
      MulMonotone(i + 1, l.boxes, l.attrs);
      assert l.boxes * l.attrs == l.attrs * l.boxes;
    }
  }

  /** ... and no two fields share an element. */
  lemma FieldIndexInjective(l: Layout, i: int, k: int, i2: int, k2: int)
    requires 0 <= i < l.boxes && 0 <= k < l.attrs
    requires 0 <= i2 < l.boxes && 0 <= k2 < l.attrs
    requires FieldIndex(l, i, k) == FieldIndex(l, i2, k2)
    ensures i == i2 && k == k2
  {
    if l.channelsFirst {
      Unmix(k, i, k2, i2, l.boxes);
    } else {
      Unmix(i, k, i2, k2, l.attrs);
    }
  }

  lemma MulMonotone(a: int, c: int, b: int)
    requires a <= c && b >= 0
    ensures a * b <= c * b
  {
  }

  /** Quotient and remainder are determined: q*b + r with 0 <= r < b. */
  lemma Unmix(q: int, r: int, q2: int, r2: int, b: int)
    requires 0 <= r < b && 0 <= r2 < b
    requires q * b + r == q2 * b + r2
    ensures q == q2 && r == r2
  {
    if q < q2 {
      MulMonotone(q + 1, q2, b);
    } else if q2 < q {
      MulMonotone(q2 + 1, q, b);
    }
  }

  /** The layout ParseDetections reads with, if any: the 3-D one, or rows
      of attributes for a non-empty matrix. */
  function LayoutOfShape(shape: Shape): Option<Layout>
  {
    match shape
    case Shape3(_, d1, d2) => Some(LayoutOf(d1, d2))
    case Shape2(rows, cols) => if rows > 0 && cols > 0 then Some(Layout(false, rows, cols)) else None
    case OtherShape => None
  }

  /** The fields read per box: x, y, w, h, obj and the class scores. */
  function FieldsRead(l: Layout): int { Max(l.attrs, 5) }

  /** Every read of box i lies inside the data. */
  predicate BoxReadable(data: seq<real>, l: Layout, i: int)
  {
    forall k :: 0 <= k < FieldsRead(l) ==> 0 <= FieldIndex(l, i, k) < |data|
  }

  /** Boxes 0 .. n-1 are all readable. */
  predicate AllReadable(data: seq<real>, l: Layout, n: int)
  {
    forall i :: 0 <= i < n ==> BoxReadable(data, l, i)
  }

  /** Field k of box i. */
  function Field(data: seq<real>, l: Layout, i: int, k: int): real
    requires BoxReadable(data, l, i) && 0 <= k < FieldsRead(l)
  {
    data[FieldIndex(l, i, k)]
  }

  /** The best class score of box i over classes 5..c-1, starting from 0. */
  function MaxClass(data: seq<real>, l: Layout, i: int, c: int): (m: real)
    requires BoxReadable(data, l, i)
    requires c <= FieldsRead(l)
    ensures m >= 0.0
    ensures forall j :: 5 <= j < c ==> Field(data, l, i, j) <= m
    decreases c
  {
    if c <= 5 then 0.0
    else
      var m := MaxClass(data, l, i, c - 1);
      var v := Field(data, l, i, c - 1);
      if v > m then v else m
  }

  /** ComputeScore: obj when there are no class scores, else the greatest
      of obj, the best class score and their product. */
  function Score(data: seq<real>, l: Layout, i: int): (s: real)
    requires BoxReadable(data, l, i)
  {
    var obj := Field(data, l, i, 4);
    if l.attrs <= 5 then obj
    else
      var maxClass := MaxClass(data, l, i, l.attrs);
      MaxReal(obj, MaxReal(maxClass, obj * maxClass))
  }

  /** The score is obj without class scores; with them it is at least obj,
      at least 0 and at least every class score. */
  lemma ScoreBounds(data: seq<real>, l: Layout, i: int)
    requires BoxReadable(data, l, i)
    ensures l.attrs <= 5 ==> Score(data, l, i) == Field(data, l, i, 4)
    ensures l.attrs > 5 ==>
      && Score(data, l, i) >= Field(data, l, i, 4)
      && Score(data, l, i) >= 0.0
      && forall c :: 5 <= c < l.attrs ==> Field(data, l, i, c) <= Score(data, l, i)
  {
  }

  /** ComputeScore's loop over the class scores. */
  method MaxClassScore(data: seq<real>, l: Layout, i: int) returns (maxClass: real)
    requires BoxReadable(data, l, i) && l.attrs > 5
    ensures maxClass == MaxClass(data, l, i, l.attrs)
  {
    maxClass := 0.0;
    for c := 5 to l.attrs
      invariant maxClass == MaxClass(data, l, i, c)
    {
      var value := Field(data, l, i, c);
      if value > maxClass {
        maxClass := value;
      }
    }
  }

  /** ComputeScore: the objectness alone, or combined with the best class
      score. */
  method ComputeScore(data: seq<real>, l: Layout, i: int, obj: real) returns (score: real)
    requires BoxReadable(data, l, i)
    requires obj == Field(data, l, i, 4)
    ensures score == Score(data, l, i)
  {
    if l.attrs <= 5 {
      return obj;
    }
    var maxClass := MaxClassScore(data, l, i);
    var scoreWithObj := obj * maxClass;
    score := MaxReal(obj, MaxReal(maxClass, scoreWithObj));
  }

  /** AddBox: centre and size scaled to the image, clamped to whole pixels
      inside it, width and height at least 1. */
  function AddBox(x: real, y: real, w: real, h: real, score: real, imageWidth: int, imageHeight: int): (d: Detection)
    ensures d.confidence == score
    ensures imageWidth >= 1 && imageHeight >= 1 ==>
      && 0 <= d.box.left < d.box.right <= imageWidth
      && 0 <= d.box.top < d.box.bottom <= imageHeight
  {
    var scaleX := imageWidth as real / InputSize as real;
    var scaleY := imageHeight as real / InputSize as real;
    var left := (x - w / 2.0) * scaleX;
    var top := (y - h / 2.0) * scaleY;
    var width := w * scaleX;
    var height := h * scaleY;
    var ix := ClampToInt(left, 0, imageWidth - 1);
    var iy := ClampToInt(top, 0, imageHeight - 1);
    var iw := ClampToInt(width, 1, imageWidth - ix);
    var ih := ClampToInt(height, 1, imageHeight - iy);
    Detection(Rect(ix, iy, ix + iw, iy + ih), score)
  }

  /** The box read from box i's fields. */
  function BoxAt(data: seq<real>, l: Layout, i: int, imageWidth: int, imageHeight: int): Detection
    requires BoxReadable(data, l, i)
  {
    AddBox(Field(data, l, i, 0), Field(data, l, i, 1), Field(data, l, i, 2),
           Field(data, l, i, 3), Score(data, l, i), imageWidth, imageHeight)
  }

  /** The detections of the first n boxes whose score reaches the
      confidence threshold, in box order. */
  function BoxesUpTo(data: seq<real>, l: Layout, n: int, imageWidth: int, imageHeight: int, threshold: real): (r: seq<Detection>)
    requires AllReadable(data, l, n)
    ensures |r| <= Max(n, 0)
    ensures forall k :: 0 <= k < |r| ==> r[k].confidence >= threshold
    ensures imageWidth >= 1 && imageHeight >= 1 ==>
      forall k :: 0 <= k < |r| ==> 0 <= r[k].box.left < r[k].box.right <= imageWidth
                                   && 0 <= r[k].box.top < r[k].box.bottom <= imageHeight
    decreases n
  {
    if n <= 0 then []
    else
      var d := BoxAt(data, l, n - 1, imageWidth, imageHeight);
      BoxesUpTo(data, l, n - 1, imageWidth, imageHeight, threshold) + (if d.confidence >= threshold then [d] else [])
  }

  /** ParseDetections: nothing for empty data or an unusable shape; a read
      outside the data throws; otherwise the boxes reaching the threshold. */
  function ParseOutcome(data: seq<real>, shape: Shape, imageWidth: int, imageHeight: int, threshold: real): Result<seq<Detection>>
  {
    if |data| == 0 then Ok([])
    else match LayoutOfShape(shape)
      case None => Ok([])
      case Some(l) =>
        if !AllReadable(data, l, l.boxes) then Err(IndexOutOfRange)
        else Ok(BoxesUpTo(data, l, l.boxes, imageWidth, imageHeight, threshold))
  }

  /** A parse that answers gives at most one detection per box, each
      reaching the confidence threshold and lying inside the image. */
  lemma ParseMeaning(data: seq<real>, shape: Shape, imageWidth: int, imageHeight: int, threshold: real)
    requires imageWidth >= 1 && imageHeight >= 1
    ensures var r := ParseOutcome(data, shape, imageWidth, imageHeight, threshold);
      r.Ok? ==>
        && (LayoutOfShape(shape).Some? ==> |r.value| <= Max(LayoutOfShape(shape).value.boxes, 0))
        && forall k :: 0 <= k < |r.value| ==>
             && r.value[k].confidence >= threshold
             && 0 <= r.value[k].box.left < r.value[k].box.right <= imageWidth
             && 0 <= r.value[k].box.top < r.value[k].box.bottom <= imageHeight
  {
  }

  /** With the attributes at least 5 and the data exactly boxes*attrs
      long, every box is readable, so the parse answers. */
  lemma ExactTensorParses(data: seq<real>, shape: Shape, imageWidth: int, imageHeight: int, threshold: real)
    requires LayoutOfShape(shape).Some?
    requires var l := LayoutOfShape(shape).value; l.attrs >= 5 && |data| == l.boxes * l.attrs
    ensures ParseOutcome(data, shape, imageWidth, imageHeight, threshold).Ok?
  {
    var l := LayoutOfShape(shape).value;
    forall i | 0 <= i < l.boxes
      ensures BoxReadable(data, l, i)
    {
      forall k | 0 <= k < FieldsRead(l)
        ensures 0 <= FieldIndex(l, i, k) < |data|
      {
        FieldIndexInRange(l, i, k);
      }
    }
  }

  /** One round of ParseDetections' loop: read box i, score it, and keep
      it if the score reaches the threshold. */
  method ReadBox(data: seq<real>, l: Layout, i: int, imageWidth: int, imageHeight: int, threshold: real)
    returns (d: seq<Detection>)
    requires BoxReadable(data, l, i)
    ensures d == if Score(data, l, i) >= threshold then [BoxAt(data, l, i, imageWidth, imageHeight)] else []
  {
    var x := Field(data, l, i, 0);
    var y := Field(data, l, i, 1);
    var w := Field(data, l, i, 2);
    var h := Field(data, l, i, 3);
    var obj := Field(data, l, i, 4);
    var score := ComputeScore(data, l, i, obj);
    if score < threshold {
      return [];
    }
    return [AddBox(x, y, w, h, score, imageWidth, imageHeight)];
  }

  /** Reading one more readable box extends the readable prefix and
      appends that box's detection when it reaches the threshold. */
  lemma ParseStep(data: seq<real>, l: Layout, i: int, imageWidth: int, imageHeight: int, threshold: real)
    requires 0 <= i && AllReadable(data, l, i) && BoxReadable(data, l, i)
    ensures AllReadable(data, l, i + 1)
    ensures BoxesUpTo(data, l, i + 1, imageWidth, imageHeight, threshold)
      == BoxesUpTo(data, l, i, imageWidth, imageHeight, threshold)
         + (if Score(data, l, i) >= threshold then [BoxAt(data, l, i, imageWidth, imageHeight)] else [])
  {
  }

  /** ParseDetections' loop over the boxes. */
  method ParseDetections(data: seq<real>, shape: Shape, imageWidth: int, imageHeight: int, threshold: real)
    returns (r: Result<seq<Detection>>)
    ensures r == ParseOutcome(data, shape, imageWidth, imageHeight, threshold)
  {
    if |data| == 0 {
      return Ok([]);
    }
    var layout := LayoutOfShape(shape);
    if layout.None? {
      return Ok([]);
    }
    var l := layout.value;
    var results := [];
    var i := 0;
    while i < l.boxes
      invariant 0 <= i <= Max(l.boxes, 0)
      invariant AllReadable(data, l, i)
      invariant results == BoxesUpTo(data, l, i, imageWidth, imageHeight, threshold)
      decreases l.boxes - i
    {
      if !BoxReadable(data, l, i) {
        assert !AllReadable(data, l, l.boxes);
        return Err(IndexOutOfRange);
      }
      var d := ReadBox(data, l, i, imageWidth, imageHeight, threshold);
      ParseStep(data, l, i, imageWidth, imageHeight, threshold);
      results := results + d;
      i := i + 1;
    }
    return Ok(results);
  }
}
