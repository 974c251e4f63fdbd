/** FaceVerificationService: the face-quality check, the one-to-one
    comparison, and recognition of a single face, which asks the vector
    index first and falls back to scanning the stored vectors. Image
    loading, detection, sharpness filtering and embedding are what an
    analysis function says about an image; similarity is a parameter. */
module FaceVerification {
  import opened Common
  import opened Matching
  import FaceFeatures
  import Base64Image
  import VectorCollections
  import RecognitionWorker

  const MissingImage := "ArgumentException: base64Image is required"
  const MissingImage1 := "ArgumentException: base64Image1 is required"
  const MissingImage2 := "ArgumentException: base64Image2 is required"
  const MissingRecognitionImage := "ArgumentException: Base64 image is required"
  const EmptyImageData := "ArgumentException: image data is empty"
  const UndecodableImage := "InvalidOperationException: image could not be decoded"

  const NoFaceReason := "no face detected"
  const ManyFacesReason := "more than one face detected"
  const BlurredReason := "face not sharp enough"
  const CompliantReason := "face compliant"
  const NoMatchMessage := "no matching face"
  const RecognizedMessage := "recognized"

  /** ExtractBestFace's exceptions, naming the image. */
  function NoFaceIn(imageName: string): string { "InvalidOperationException: " + imageName + ": no face detected" }
  function NoSharpFaceIn(imageName: string): string { "InvalidOperationException: " + imageName + ": no sharp face detected" }

  /** How many hits the index is asked for. */
  const SearchLimit := 5

  /** What the image pipeline finds in decoded bytes: they are no image, or
      the detector's result (null or a count of faces), how many crops
      survive the sharpness filter, and the raw embedding of the first one. */
  datatype ImageFacts = Undecodable | Picture(detections: Option<nat>, sharpFaces: nat, embedding: seq<real>)

  type Analysis = seq<byte> -> ImageFacts

  /** ImageUtils.LoadImage(byte[]): empty bytes and undecodable bytes throw. */
  function LoadImage(bytes: seq<byte>, analyse: Analysis): (r: Result<ImageFacts>)
    ensures r.Ok? <==> |bytes| > 0 && analyse(bytes).Picture?
    ensures r.Ok? ==> r.value == analyse(bytes)
    ensures |bytes| == 0 ==> r == Err(EmptyImageData)
  {
    if |bytes| == 0 then Err(EmptyImageData)
    else if analyse(bytes).Undecodable? then Err(UndecodableImage)
    else Ok(analyse(bytes))
  }

  /** A loaded picture shows at least one face. */
  predicate HasFace(p: ImageFacts)
  {
    p.Picture? && p.detections.Some? && p.detections.value > 0
  }

  /** ExtractBestFace: no face, or no sharp face, throws; otherwise the
      embedding of the first sharp face. */
  function ExtractBestFace(p: ImageFacts, imageName: string): (r: Result<seq<real>>)
    requires p.Picture?
    ensures r.Ok? <==> HasFace(p) && p.sharpFaces > 0
    ensures !HasFace(p) ==> r == Err(NoFaceIn(imageName))
    ensures r.Ok? ==> r.value == p.embedding
  {
    if p.detections.None? || p.detections.value == 0 then Err(NoFaceIn(imageName))
    else if p.sharpFaces == 0 then Err(NoSharpFaceIn(imageName))
    else Ok(p.embedding)
  }

  /** FaceCheckResponse without the face image. */
  datatype CheckResponse = CheckResponse(isFace: bool, isCompliant: bool, reason: string)

  /** CheckAsync: refuse a blank image, then go on with its decoding. */
  function Check(image: Option<string>, analyse: Analysis): Result<CheckResponse>
  {
    if IsNullOrBlank(image) then Err(MissingImage)
    else CheckDecoded(Base64Image.DecodeImage(image), analyse)
  }

  /** The rest of CheckAsync: a failed decoding throws, the image is
      loaded, and the detections decide: none, several, one without a
      sharp crop, or one with a sharp crop. */
  function CheckDecoded(bytes: Result<seq<byte>>, analyse: Analysis): Result<CheckResponse>
  {
    if bytes.Err? then Err(bytes.error)
    else match LoadImage(bytes.value, analyse)
      case Err(e) => Err(e)
      case Ok(p) =>
        if !HasFace(p) then Ok(CheckResponse(false, false, NoFaceReason))
        else if p.detections.value > 1 then Ok(CheckResponse(true, false, ManyFacesReason))
        else if p.sharpFaces == 0 then Ok(CheckResponse(true, false, BlurredReason))
        else Ok(CheckResponse(true, true, CompliantReason))
  }

  /** A check that answers had the image decode to a picture, says
      IsFace iff a face was detected, and IsCompliant iff exactly one face
      was detected and a sharp crop of it survived; so a compliant image is
      always a face. */
  lemma CheckMeaning(bytes: Result<seq<byte>>, analyse: Analysis)
    ensures bytes.Err? ==> CheckDecoded(bytes, analyse) == Err(bytes.error)
    ensures CheckDecoded(bytes, analyse).Ok? ==>
      var p := analyse(bytes.value);
      var c := CheckDecoded(bytes, analyse).value;
      && bytes.Ok? && |bytes.value| > 0 && p.Picture?
      && (c.isFace <==> HasFace(p))
      && (c.isCompliant <==> p.detections == Some(1) && p.sharpFaces > 0)
      && (c.isCompliant ==> c.isFace)
    ensures bytes.Ok? && |bytes.value| > 0 && analyse(bytes.value).Picture? ==> CheckDecoded(bytes, analyse).Ok?
  {
  }

  /** FaceCompareResponse without the face images. */
  datatype CompareResponse = CompareResponse(isSamePerson: bool, similarity: real)

  const Label1 := "image 1"
  const Label2 := "image 2"

  /** CompareAsync: refuse a blank first, then a blank second image; then
      go on with both decodings. */
  function Compare(image1: Option<string>, image2: Option<string>, analyse: Analysis, sim: Similarity,
                   opts: PipelineOptions, vectorSize: int): Result<CompareResponse>
  {
    if IsNullOrBlank(image1) then Err(MissingImage1)
    else if IsNullOrBlank(image2) then Err(MissingImage2)
    else CompareDecoded(Base64Image.DecodeImage(image1), Base64Image.DecodeImage(image2), analyse, sim, opts, vectorSize)
  }

  /** The rest of CompareAsync: a failed decoding throws (the first
      image's first), then both images are loaded, the best face of each is
      taken, both embeddings are brought to vectorSize and compared; same
      person iff the similarity reaches the primary threshold. */
  function CompareDecoded(bytes1: Result<seq<byte>>, bytes2: Result<seq<byte>>, analyse: Analysis, sim: Similarity,
                          opts: PipelineOptions, vectorSize: int): Result<CompareResponse>
  {
    if bytes1.Err? then Err(bytes1.error)
    else if bytes2.Err? then Err(bytes2.error)
    else
      var p1 := LoadImage(bytes1.value, analyse);
      if p1.Err? then Err(p1.error)
      else
        var p2 := LoadImage(bytes2.value, analyse);
        if p2.Err? then Err(p2.error)
        else
          var face1 := ExtractBestFace(p1.value, Label1);
          if face1.Err? then Err(face1.error)
          else
            var face2 := ExtractBestFace(p2.value, Label2);
            if face2.Err? then Err(face2.error)
            else
              var v1 := FaceFeatures.Resized(face1.value, vectorSize);
              var v2 := FaceFeatures.Resized(face2.value, vectorSize);
              var similarity := FaceFeatures.CalculateSimilarity(Some(v1), Some(v2), sim);
              if similarity.Err? then Err(similarity.error)
              else Ok(CompareResponse(similarity.value >= opts.similarityThreshold, similarity.value))
  }

  /** A blank first image is refused before the second is looked at. A
      comparison that answers had both images decode to pictures with a
      sharp face, compares their resized embeddings, and says same person
      iff that similarity reaches SimilarityThreshold. */
  lemma CompareMeaning(bytes1: Result<seq<byte>>, bytes2: Result<seq<byte>>, analyse: Analysis, sim: Similarity,
                       opts: PipelineOptions, vectorSize: int)
    ensures var r := CompareDecoded(bytes1, bytes2, analyse, sim, opts, vectorSize);
      r.Ok? ==>
        && bytes1.Ok? && HasFace(analyse(bytes1.value)) && analyse(bytes1.value).sharpFaces > 0
        && bytes2.Ok? && HasFace(analyse(bytes2.value)) && analyse(bytes2.value).sharpFaces > 0
        && var v1 := FaceFeatures.Resized(analyse(bytes1.value).embedding, vectorSize);
           var v2 := FaceFeatures.Resized(analyse(bytes2.value).embedding, vectorSize);
           && |v1| == |v2|
           && r.value.similarity == sim(v1, v2)
           && (r.value.isSamePerson <==> r.value.similarity >= opts.similarityThreshold)
    ensures bytes1.Err? ==> CompareDecoded(bytes1, bytes2, analyse, sim, opts, vectorSize) == Err(bytes1.error)
  {
  }

  /** With a positive vectorSize both embeddings are brought to the same
      length, so once both images yield a sharp face the comparison
      answers. */
  lemma ComparableAtPositiveSize(bytes1: Result<seq<byte>>, bytes2: Result<seq<byte>>, analyse: Analysis,
                                 sim: Similarity, opts: PipelineOptions, vectorSize: int)
    requires vectorSize > 0
    requires bytes1.Ok? && LoadImage(bytes1.value, analyse).Ok?
    requires bytes2.Ok? && LoadImage(bytes2.value, analyse).Ok?
    requires ExtractBestFace(analyse(bytes1.value), Label1).Ok?
    requires ExtractBestFace(analyse(bytes2.value), Label2).Ok?
    ensures CompareDecoded(bytes1, bytes2, analyse, sim, opts, vectorSize).Ok?
  {
  }

  /** Both images of an accepted comparison pass the check as faces. */
  lemma {:induction false} CompareAcceptsOnlyFaces(image1: Option<string>, image2: Option<string>, analyse: Analysis,
                                                   sim: Similarity, opts: PipelineOptions, vectorSize: int)
    requires Compare(image1, image2, analyse, sim, opts, vectorSize).Ok?
    ensures Check(image1, analyse).Ok? && Check(image1, analyse).value.isFace
    ensures Check(image2, analyse).Ok? && Check(image2, analyse).value.isFace
  {
    var bytes1 := Base64Image.DecodeImage(image1);
    var bytes2 := Base64Image.DecodeImage(image2);
    CompareMeaning(bytes1, bytes2, analyse, sim, opts, vectorSize);
    CheckMeaning(bytes1, analyse);
    CheckMeaning(bytes2, analyse);
  }

  /** With a symmetric similarity, an accepted comparison answers the same
      with the images swapped. */
  lemma {:induction false} CompareIsSymmetric(bytes1: Result<seq<byte>>, bytes2: Result<seq<byte>>, analyse: Analysis,
                                              sim: Similarity, opts: PipelineOptions, vectorSize: int)
    requires forall u, v :: sim(u, v) == sim(v, u)
    requires CompareDecoded(bytes1, bytes2, analyse, sim, opts, vectorSize).Ok?
    ensures CompareDecoded(bytes2, bytes1, analyse, sim, opts, vectorSize) == CompareDecoded(bytes1, bytes2, analyse, sim, opts, vectorSize)
  {
    CompareMeaning(bytes1, bytes2, analyse, sim, opts, vectorSize);
    var v1 := FaceFeatures.Resized(analyse(bytes1.value).embedding, vectorSize);
    var v2 := FaceFeatures.Resized(analyse(bytes2.value).embedding, vectorSize);
    assert sim(v1, v2) == sim(v2, v1);
  }

  /** One hit of the vector index. */
  datatype Hit = Hit(pointId: string, score: real)

  /** The index search: it threw, or it answered hits. */
  datatype IndexAnswer = IndexFailed(error: string) | IndexHits(hits: seq<Hit>)

  /** The recognised person. */
  datatype Recognition = Recognition(personId: Guid, userName: Option<string>, score: real)

  /** OrderByDescending(score).First(): the first hit with the greatest
      score (the ordering is stable). */
  function BestHitIndex(hits: seq<Hit>): (k: nat)
    requires |hits| > 0
    ensures k < |hits|
    ensures forall i :: 0 <= i < |hits| ==> hits[i].score <= hits[k].score
    ensures forall i :: 0 <= i < k ==> hits[i].score < hits[k].score
    decreases |hits|
  {
    if |hits| == 1 then 0
    else
      var k := BestHitIndex(hits[..|hits| - 1]);
      assert forall i :: 0 <= i < |hits| - 1 ==> hits[..|hits| - 1][i] == hits[i];
      if hits[|hits| - 1].score > hits[k].score then |hits| - 1 else k
  }

  /** The threshold in force: the caller's, else SimilarityThreshold. */
  function EffectiveThreshold(threshold: Option<real>, opts: PipelineOptions): real
  {
    if threshold.Some? then threshold.value else opts.similarityThreshold
  }

  /** The index path of MatchFaceAsync: a recognition, or None when it
      falls through to the local scan (the search's argument checks or the
      search itself throw, no hits, the best hit below the threshold, a
      point id that is no GUID, or the face lookup throws). search is asked
      with the fallback threshold as its score floor. */
  function IndexPath(collection: string, vector: seq<real>, thr: real, opts: PipelineOptions,
                     search: (seq<real>, real) -> IndexAnswer, parseGuid: string -> Option<Guid>,
                     lookupUser: Guid -> Result<Option<string>>): Option<Recognition>
  {
    if VectorCollections.SearchCheck(collection, Some(vector), SearchLimit).Err? then None
    else match search(vector, opts.fallbackSimilarityThreshold)
      case IndexFailed(_) => None
      case IndexHits(hits) =>
        if |hits| == 0 then None
        else
          var best := hits[BestHitIndex(hits)];
          if best.score < thr then None
          else match parseGuid(best.pointId)
            case None => None
            case Some(id) =>
              match lookupUser(id)
              case Err(_) => None
              case Ok(name) => Some(Recognition(id, name, best.score))
  }

  /** The local path: the scan over the stored vectors, accepted at the
      given threshold only (no fallback threshold here). */
  function LocalPath(vector: seq<real>, thr: real, candidates: Option<seq<Candidate>>, sim: Similarity): Option<Recognition>
  {
    if candidates.None? || |candidates.value| == 0 then None
    else
      var b := Scan(candidates.value, vector, sim);
      var id := BestId(candidates.value, b);
      if b.score >= thr && id != EmptyGuid then Some(Recognition(id, Some(candidates.value[b.index].userName), b.score))
      else None
  }

  /** MatchFaceAsync of the verification service. */
  function VerifyMatch(collection: string, vector: seq<real>, threshold: Option<real>, opts: PipelineOptions,
                       search: (seq<real>, real) -> IndexAnswer, parseGuid: string -> Option<Guid>,
                       lookupUser: Guid -> Result<Option<string>>, candidates: Option<seq<Candidate>>,
                       sim: Similarity): Option<Recognition>
  {
    var thr := EffectiveThreshold(threshold, opts);
    var indexed := IndexPath(collection, vector, thr, opts, search, parseGuid, lookupUser);
    if indexed.Some? then indexed else LocalPath(vector, thr, candidates, sim)
  }

  /** The index path answers exactly when the search ran and answered
      hits, the best of them reaches the threshold, its point id parses and
      the face lookup answers; it then gives that hit's parsed id and score,
      which no hit beats. */
  lemma IndexPathMeaning(collection: string, vector: seq<real>, thr: real, opts: PipelineOptions,
                         search: (seq<real>, real) -> IndexAnswer, parseGuid: string -> Option<Guid>,
                         lookupUser: Guid -> Result<Option<string>>)
    ensures var r := IndexPath(collection, vector, thr, opts, search, parseGuid, lookupUser);
      var answer := search(vector, opts.fallbackSimilarityThreshold);
      r.Some? <==>
        && VectorCollections.ValidateName(collection).Ok? && |vector| > 0
        && answer.IndexHits? && |answer.hits| > 0
        && answer.hits[BestHitIndex(answer.hits)].score >= thr
        && parseGuid(answer.hits[BestHitIndex(answer.hits)].pointId).Some?
        && lookupUser(parseGuid(answer.hits[BestHitIndex(answer.hits)].pointId).value).Ok?
    ensures var r := IndexPath(collection, vector, thr, opts, search, parseGuid, lookupUser);
      var answer := search(vector, opts.fallbackSimilarityThreshold);
      r.Some? ==>
        && r.value.score >= thr
        && (forall i :: 0 <= i < |answer.hits| ==> answer.hits[i].score <= r.value.score)
        && Some(r.value.personId) == parseGuid(answer.hits[BestHitIndex(answer.hits)].pointId)
  {
  }

  /** The local path takes the Chosen candidate (first eligible maximum)
      iff its id is not Guid.Empty and its score reaches the threshold; the
      fallback threshold plays no part. */
  lemma LocalPathMeaning(vector: seq<real>, thr: real, cands: seq<Candidate>, sim: Similarity)
    ensures var r := LocalPath(vector, thr, Some(cands), sim);
      && (forall k :: Chosen(cands, vector, sim, k) ==>
            && (r.Some? <==> cands[k].id != EmptyGuid && ScoreOf(cands[k], vector, sim) >= thr)
            && (r.Some? ==> r.value == Recognition(cands[k].id, Some(cands[k].userName), ScoreOf(cands[k], vector, sim))))
      && ((forall k :: !Chosen(cands, vector, sim, k)) ==> r.None?)
  {
    var b := Scan(cands, vector, sim);
    forall k | Chosen(cands, vector, sim, k)
      ensures b.index == k && b.score == ScoreOf(cands[k], vector, sim)
    {
      ScanTakesChosen(cands, vector, sim, k);
    }
    if b.index >= 0 {
      ScanTakesChosen(cands, vector, sim, b.index);
    }
  }

  /** Whichever path answers, the score reaches the threshold in force;
      the local scan runs only when the index path falls through. */
  lemma VerifyMatchMeaning(collection: string, vector: seq<real>, threshold: Option<real>, opts: PipelineOptions,
                           search: (seq<real>, real) -> IndexAnswer, parseGuid: string -> Option<Guid>,
                           lookupUser: Guid -> Result<Option<string>>, candidates: Option<seq<Candidate>>,
                           sim: Similarity)
    ensures var thr := EffectiveThreshold(threshold, opts);
      var r := VerifyMatch(collection, vector, threshold, opts, search, parseGuid, lookupUser, candidates, sim);
      && (r.Some? ==> r.value.score >= thr)
      && (IndexPath(collection, vector, thr, opts, search, parseGuid, lookupUser).None? ==>
            r == LocalPath(vector, thr, candidates, sim))
      && (threshold.None? ==> thr == opts.similarityThreshold)
  {
    var thr := EffectiveThreshold(threshold, opts);
    IndexPathMeaning(collection, vector, thr, opts, search, parseGuid, lookupUser);
    if candidates.Some? && |candidates.value| > 0 {
      LocalPathMeaning(vector, thr, candidates.value, sim);
    }
  }

  /** Over the same stored vectors and the same resized query, whatever the
      local path accepts at the primary threshold the worker accepts too,
      with the same person. */
  lemma {:induction false} LocalImpliesWorker(raw: seq<real>, candidates: Option<seq<Candidate>>, sim: Similarity,
                                              opts: PipelineOptions, vectorSize: int)
    ensures var q := FaceFeatures.Resized(raw, vectorSize);
      var local := LocalPath(q, opts.similarityThreshold, candidates, sim);
      var worker := RecognitionWorker.WorkerMatch(raw, candidates, sim, opts, vectorSize);
      local.Some? ==> worker.Some? && worker.value.personId == local.value.personId && worker.value.score == local.value.score
  {
    FaceFeatures.ResizeIdempotent(raw, vectorSize);
  }

  /** The two scans differ: a best score between the fallback and the
      primary threshold is a match for the worker and none for the local
      path of verification. */
  lemma FallbackOnlyInWorker()
    ensures var cands := [Candidate(Guid(1), "a", Some([1.0]))];
      var sim: Similarity := (u, v) => 0.8;
      && RecognitionWorker.WorkerMatch([1.0], Some(cands), sim, DefaultOptions, 1).Some?
      && LocalPath([1.0], DefaultOptions.similarityThreshold, Some(cands), sim).None?
  {
    var cands := [Candidate(Guid(1), "a", Some([1.0]))];
    var sim: Similarity := (u, v) => 0.8;
    assert Chosen(cands, [1.0], sim, 0);
    ScanTakesChosen(cands, [1.0], sim, 0);
  }

  /** MatchFaceAsync: try the index; when it falls through, scan the
      stored vectors and accept at the threshold in force. */
  method MatchFace(collection: string, vector: seq<real>, threshold: Option<real>, opts: PipelineOptions,
                   search: (seq<real>, real) -> IndexAnswer, parseGuid: string -> Option<Guid>,
                   lookupUser: Guid -> Result<Option<string>>, candidates: Option<seq<Candidate>>,
                   sim: Similarity) returns (r: Option<Recognition>)
    ensures r == VerifyMatch(collection, vector, threshold, opts, search, parseGuid, lookupUser, candidates, sim)
  {
    var thr := if threshold.Some? then threshold.value else opts.similarityThreshold;
    var indexed := IndexPath(collection, vector, thr, opts, search, parseGuid, lookupUser);
    if indexed.Some? {
      return indexed;
    }
    if candidates.None? || |candidates.value| == 0 {
      return None;
    }
    var bestScore, bestIndex := ScanCandidates(candidates.value, vector, sim);
    var bestId := EmptyGuid;
    var bestUserName := None;
    if bestIndex >= 0 {
      bestId := candidates.value[bestIndex].id;
      bestUserName := Some(candidates.value[bestIndex].userName);
    }
    if bestScore >= thr && bestId != EmptyGuid {
      return Some(Recognition(bestId, bestUserName, bestScore));
    }
    return None;
  }

  /** ComputerFaceRecognitionResponse without the face image. */
  datatype RecognizeResponse = Recognized(personId: Guid, userName: Option<string>, similarity: real)
                             | NotRecognized(message: string)

  /** ComputerRecognizeAsync: refuse a blank image, decode and load it; no
      face is an answer, no sharp face an exception; otherwise the resized
      embedding of the best face goes to MatchFaceAsync. */
  function Recognize(image: Option<string>, threshold: Option<real>, analyse: Analysis, collection: string,
                     opts: PipelineOptions, vectorSize: int, search: (seq<real>, real) -> IndexAnswer,
                     parseGuid: string -> Option<Guid>, lookupUser: Guid -> Result<Option<string>>,
                     candidates: Option<seq<Candidate>>, sim: Similarity): Result<RecognizeResponse>
  {
    if IsNullOrBlank(image) then Err(MissingRecognitionImage)
    else match Base64Image.DecodeImage(image)
      case Err(e) => Err(e)
      case Ok(bytes) =>
        match LoadImage(bytes, analyse)
        case Err(e) => Err(e)
        case Ok(p) =>
          if !HasFace(p) then Ok(NotRecognized(NoFaceReason))
          else match ExtractBestFace(p, "image")
            case Err(e) => Err(e)
            case Ok(embedding) =>
              var vector := FaceFeatures.Resized(embedding, vectorSize);
              match VerifyMatch(collection, vector, threshold, opts, search, parseGuid, lookupUser, candidates, sim)
              case None => Ok(NotRecognized(NoMatchMessage))
              case Some(m) => Ok(Recognized(m.personId, m.userName, m.score))
  }

  /** A recognition reaches the threshold in force and comes from an image
      the check calls a face. */
  lemma {:induction false} RecognizeMeaning(image: Option<string>, threshold: Option<real>, analyse: Analysis,
                                            collection: string, opts: PipelineOptions, vectorSize: int,
                                            search: (seq<real>, real) -> IndexAnswer, parseGuid: string -> Option<Guid>,
                                            lookupUser: Guid -> Result<Option<string>>,
                                            candidates: Option<seq<Candidate>>, sim: Similarity)
    requires Recognize(image, threshold, analyse, collection, opts, vectorSize, search, parseGuid, lookupUser,
                       candidates, sim).Ok?
    ensures var r := Recognize(image, threshold, analyse, collection, opts, vectorSize, search, parseGuid, lookupUser,
                               candidates, sim).value;
      && (r.Recognized? ==> r.similarity >= EffectiveThreshold(threshold, opts))
      && (r.Recognized? ==> Check(image, analyse).Ok? && Check(image, analyse).value.isFace)
  {
    var bytes := Base64Image.DecodeImage(image).value;
    var p := analyse(bytes);
    if HasFace(p) {
      var vector := FaceFeatures.Resized(p.embedding, vectorSize);
      VerifyMatchMeaning(collection, vector, threshold, opts, search, parseGuid, lookupUser, candidates, sim);
    }
  }
}
