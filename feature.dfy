/** FaceFeatureService: the vector-size adjustment applied to embeddings and
    the argument check in front of the similarity computation. The
    similarity itself (cosine of two normalised float vectors) is a
    parameter of the model. */
module FaceFeatures {
  import opened Common

  const ArgumentNull := "ArgumentNullException: vector"
  const InvalidFeatures := "ArgumentException: invalid feature vectors"

  /** The vector ResizeVector answers for a non-null input: the input itself
      when the target size is not positive or already matches, else the
      first targetSize values, padded with zeros. */
  function Resized(v: seq<real>, targetSize: int): (r: seq<real>)
    ensures targetSize <= 0 || |v| == targetSize ==> r == v
    ensures targetSize > 0 ==> |r| == targetSize
    ensures forall i :: 0 <= i < Min(|v|, |r|) ==> r[i] == v[i]
    ensures forall i :: |v| <= i < |r| ==> r[i] == 0.0
  {
    if targetSize <= 0 || |v| == targetSize then v
    else seq(targetSize, i requires 0 <= i < targetSize => if i < |v| then v[i] else 0.0)
  }

  /** Resizing twice to the same size is resizing once. */
  lemma ResizeIdempotent(v: seq<real>, targetSize: int)
    ensures Resized(Resized(v, targetSize), targetSize) == Resized(v, targetSize)
  {
  }

  /** Shrinking keeps a prefix, so growing back restores the prefix and
      zero-fills the rest. */
  lemma {:induction false} ShrinkThenGrow(v: seq<real>, small: int, large: int)
    requires 0 < small < large
    requires |v| >= small
    ensures Resized(Resized(v, small), large) == v[..small] + seq(large - small, _ => 0.0)
  {
    var r := Resized(Resized(v, small), large);
    var e := v[..small] + seq(large - small, _ => 0.0);
    assert |r| == |e|;
    forall i | 0 <= i < |r|
      ensures r[i] == e[i]
    {
      if i < small {
        assert r[i] == Resized(v, small)[i] == v[i];
      }
    }
  }

  /** ResizeVector: a null vector is refused; the same array comes back when
      nothing is to change; otherwise a fresh zeroed array receives the
      first min(length, targetSize) values (Array.Copy). */
  method ResizeVector(vector: array?<real>, targetSize: int) returns (r: Result<array<real>>)
    ensures vector == null ==> r == Err(ArgumentNull)
    ensures vector != null ==> r.Ok? && r.value[..] == Resized(vector[..], targetSize)
    ensures vector != null && (targetSize <= 0 || vector.Length == targetSize) ==> r.value == vector
    ensures vector != null && !(targetSize <= 0 || vector.Length == targetSize) ==> fresh(r.value)
  {
    if vector == null {
      return Err(ArgumentNull);
    }
    if targetSize <= 0 || vector.Length == targetSize {
      return Ok(vector);
    }
    var resized := new real[targetSize](_ => 0.0);
    var copyCount := Min(vector.Length, targetSize);
    for i := 0 to copyCount
      invariant forall j :: 0 <= j < i ==> resized[j] == vector[j]
      invariant forall j :: i <= j < targetSize ==> resized[j] == 0.0
    {
      resized[i] := vector[i];
    }
    r := Ok(resized);
  }

  /** CalculateSimilarity: null or unequal-length vectors are refused;
      otherwise the answer is the similarity of the two. */
  function CalculateSimilarity(feat1: Option<seq<real>>, feat2: Option<seq<real>>,
                               similarity: (seq<real>, seq<real>) -> real): (r: Result<real>)
    ensures r.Err? <==> feat1.None? || feat2.None? || |feat1.value| != |feat2.value|
    ensures r.Err? ==> r.error == InvalidFeatures
    ensures r.Ok? ==> r.value == similarity(feat1.value, feat2.value)
  {
    if feat1.None? || feat2.None? || |feat1.value| != |feat2.value| then Err(InvalidFeatures)
    else Ok(similarity(feat1.value, feat2.value))
  }
}
